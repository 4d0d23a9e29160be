/** The k-way merge: a binary heap of sorted streams, kept in a slice that is updated in place. */
module MergeHeaps {
  import opened Bytes

  type Lesser = (Bytes, Bytes) -> bool

  /** What a comparison function must satisfy: it is the strict part of a total preorder. */
  ghost predicate IsOrder(less: Lesser) {
    && (forall a, b :: less(a, b) ==> !less(b, a))
    && (forall a, b, c :: !less(b, a) && !less(c, b) ==> !less(c, a))
  }

  ghost predicate SortedBy(less: Lesser, items: seq<Bytes>) {
    forall i, j :: 0 <= i < j < |items| ==> !less(items[j], items[i])
  }

  /** `heapEntry`: the current item of a stream and what it will still deliver. */
  datatype Entry = Entry(value: Bytes, rest: seq<Bytes>)

  function Items(e: Entry): seq<Bytes> {
    [e.value] + e.rest
  }

  function Parent(j: nat): nat
    requires j > 0
  {
    (j - 1) / 2
  }

  /** No entry from position `from` on is larger than a child of it. */
  ghost predicate HeapFrom(less: Lesser, es: seq<Entry>, from: nat) {
    forall j :: 0 < j < |es| && Parent(j) >= from ==> !less(es[j].value, es[Parent(j)].value)
  }

  /** The heap order holds below `from`, except between `hole` and its children. */
  ghost predicate HeapExcept(less: Lesser, es: seq<Entry>, from: nat, hole: nat) {
    && (forall j :: 0 < j < |es| && Parent(j) >= from && Parent(j) != hole ==> !less(es[j].value, es[Parent(j)].value))
    && (forall j :: 0 < j < |es| && hole > from && Parent(hole) >= from && Parent(j) == hole ==>
          !less(es[j].value, es[Parent(hole)].value))
  }

  /** The first entry of a heap is not larger than any other. */
  lemma {:induction false} RootIsSmallest(less: Lesser, es: seq<Entry>, j: nat)
    requires IsOrder(less) && HeapFrom(less, es, 0) && j < |es|
    ensures !less(es[j].value, es[0].value)
  {
    if j > 0 { RootIsSmallest(less, es, Parent(j)); }
  }

  lemma SwapKeepsMultiset<T>(es: seq<T>, i: nat, j: nat)
    requires i < |es| && j < |es|
    ensures multiset(es[i := es[j]][j := es[i]]) == multiset(es)
  {}

  /** One step of `down`: the hole moves to its smaller child. */
  lemma SwapMovesHole(less: Lesser, es: seq<Entry>, from: nat, hole: nat, j: nat)
    requires IsOrder(less) && from <= hole < |es| && HeapExcept(less, es, from, hole)
    requires 0 < j < |es| && Parent(j) == hole && less(es[j].value, es[hole].value)
    requires forall k :: 0 < k < |es| && Parent(k) == hole ==> !less(es[k].value, es[j].value)
    ensures HeapExcept(less, es[hole := es[j]][j := es[hole]], from, j)
  {
    var es' := es[hole := es[j]][j := es[hole]];
    forall k | 0 < k < |es| && Parent(k) >= from && Parent(k) != j
      ensures !less(es'[k].value, es'[Parent(k)].value)
    {
      if k == j || Parent(k) == hole {
      } else if k == hole {
        assert !less(es[j].value, es[Parent(hole)].value);
      } else {
        assert es'[k] == es[k] && es'[Parent(k)] == es[Parent(k)];
      }
    }
  }

  /** `down` of `container/heap`, on the whole slice. */
  method Down(less: Lesser, es: seq<Entry>, start: nat) returns (r: seq<Entry>)
    requires IsOrder(less) && start < |es| && HeapFrom(less, es, start + 1)
    ensures HeapFrom(less, r, start) && multiset(r) == multiset(es) && |r| == |es|
  {
    r := es;
    var i := start;
    while true
      invariant start <= i < |r| == |es| && multiset(r) == multiset(es) && HeapExcept(less, r, start, i)
      decreases |r| - i
    {
      var j1 := 2 * i + 1;
      if j1 >= |r| {
        break;
      }
      var j := j1;
      var j2 := j1 + 1;
      if j2 < |r| && less(r[j2].value, r[j1].value) {
        j := j2;
      }
      assert forall k :: 0 < k < |r| && Parent(k) == i ==> k == j1 || k == j2;
      if !less(r[j].value, r[i].value) {
        HoleIsFilled(less, r, start, i, j1, j);
        break;
      }
      SwapKeepsMultiset(r, i, j);
      SwapMovesHole(less, r, start, i, j);
      r := r[i := r[j]][j := r[i]];
      i := j;
    }
  }

  lemma HoleIsFilled(less: Lesser, es: seq<Entry>, from: nat, hole: nat, j1: nat, j: nat)
    requires IsOrder(less) && from <= hole < |es| && HeapExcept(less, es, from, hole)
    requires j1 == 2 * hole + 1 < |es| && (j == j1 || j == j1 + 1) && j < |es|
    requires !less(es[j1].value, es[j].value) && (j1 + 1 < |es| ==> !less(es[j1 + 1].value, es[j].value))
    requires !less(es[j].value, es[hole].value)
    ensures HeapFrom(less, es, from)
  {
    forall k | 0 < k < |es| && Parent(k) == hole ensures !less(es[k].value, es[hole].value) {
      assert k == j1 || k == j1 + 1;
    }
  }

  /** `heap.Init`. */
  method Heapify(less: Lesser, es: seq<Entry>) returns (r: seq<Entry>)
    requires IsOrder(less)
    ensures HeapFrom(less, r, 0) && multiset(r) == multiset(es)
  {
    r := es;
    var i := |r| / 2 - 1;
    while i >= 0
      invariant -1 <= i <= |r| / 2 - 1 && |r| == |es| && multiset(r) == multiset(es) && HeapFrom(less, r, i + 1)
    {
      r := Down(less, r, i);
      i := i - 1;
    }
  }

  // ----- The items still to come -----

  ghost function AllItems(es: seq<Entry>): multiset<Bytes> {
    if es == [] then multiset{} else multiset(Items(es[0])) + AllItems(es[1..])
  }

  lemma {:induction false} TakeOut(es: seq<Entry>, k: nat)
    requires k < |es|
    ensures AllItems(es) == multiset(Items(es[k])) + AllItems(es[..k] + es[k + 1..])
  {
    hide Items;
    if k == 0 {
      assert es[..0] + es[1..] == es[1..];
    } else {
      TakeOut(es[1..], k - 1);
      var without := es[..k] + es[k + 1..];
      assert without[0] == es[0] && without[1..] == es[1..][..k - 1] + es[1..][k..];
    }
  }

  lemma {:induction false} AllItemsPermuted(es: seq<Entry>, r: seq<Entry>)
    requires multiset(es) == multiset(r)
    ensures AllItems(es) == AllItems(r)
    decreases |es|
  {
    hide Items;
    hide AllItems;
    assert |es| == |multiset(es)| && |r| == |multiset(r)|;
    if es != [] {
      assert es[0] in multiset(r);
      var k :| 0 <= k < |r| && r[k] == es[0];
      WithoutAt(r, k);
      WithoutAt(es, 0);
      TakeOut(r, k);
      TakeOut(es, 0);
      AllItemsPermuted(es[..0] + es[1..], r[..k] + r[k + 1..]);
    }
  }

  lemma WithoutAt<T>(xs: seq<T>, k: nat)
    requires k < |xs|
    ensures multiset(xs[..k] + xs[k + 1..]) == multiset(xs) - multiset{xs[k]}
  {
    assert xs == xs[..k] + [xs[k]] + xs[k + 1..];
  }

  lemma AllItemsSnoc(es: seq<Entry>, e: Entry)
    ensures AllItems(es + [e]) == AllItems(es) + multiset(Items(e))
  {
    hide Items;
    TakeOut(es + [e], |es|);
    assert (es + [e])[..|es|] + (es + [e])[|es| + 1..] == es;
  }

  /** Replacing the first entry. */
  lemma FirstReplaced(es: seq<Entry>, e: Entry)
    requires es != []
    ensures AllItems(es) == multiset(Items(es[0])) + AllItems(es[1..])
    ensures AllItems(es[0 := e]) == multiset(Items(e)) + AllItems(es[1..])
  {
    hide Items;
    assert es[0 := e][1..] == es[1..];
  }

  lemma ItemsSplit(e: Entry)
    requires e.rest != []
    ensures multiset(Items(e)) == multiset{e.value} + multiset(Items(Entry(e.rest[0], e.rest[1..])))
  {
    assert e.rest == [e.rest[0]] + e.rest[1..];
  }

  /** Every stream is sorted. */
  ghost predicate Streams(less: Lesser, es: seq<Entry>) {
    forall i :: 0 <= i < |es| ==> SortedBy(less, Items(es[i]))
  }

  lemma StreamsPermuted(less: Lesser, es: seq<Entry>, r: seq<Entry>)
    requires Streams(less, es) && multiset(es) == multiset(r)
    ensures Streams(less, r)
  {
    hide SortedBy;
    forall i | 0 <= i < |r| ensures SortedBy(less, Items(r[i])) {
      assert r[i] in multiset(es);
      var k :| 0 <= k < |es| && es[k] == r[i];
    }
  }

  lemma {:induction false} ItemOfSome(es: seq<Entry>, x: Bytes)
    requires x in AllItems(es)
    ensures exists i :: 0 <= i < |es| && x in Items(es[i])
  {
    if x in multiset(Items(es[0])) {
      assert x in Items(es[0]);
    } else {
      ItemOfSome(es[1..], x);
      var i :| 0 <= i < |es[1..]| && x in Items(es[1..][i]);
      assert x in Items(es[i + 1]);
    }
  }

  /** The first item of the first stream is not larger than any item of any stream. */
  lemma FirstIsSmallest(less: Lesser, es: seq<Entry>, x: Bytes)
    requires IsOrder(less) && HeapFrom(less, es, 0) && Streams(less, es) && es != [] && x in AllItems(es)
    ensures !less(x, es[0].value)
  {
    ItemOfSome(es, x);
    var i :| 0 <= i < |es| && x in Items(es[i]);
    RootIsSmallest(less, es, i);
    assert SortedBy(less, Items(es[i]));
    var k :| 0 <= k < |Items(es[i])| && Items(es[i])[k] == x;
    assert Items(es[i])[0] == es[i].value;
    assert !less(x, es[i].value) by { if k == 0 { assert IsOrder(less); } }
  }

  class MultiWayMerge {
    const less: Lesser
    var entries: seq<Entry>

    ghost predicate Valid()
      reads this
    {
      IsOrder(less) && HeapFrom(less, entries, 0) && Streams(less, entries)
    }

    ghost function Remaining(): multiset<Bytes>
      reads this
    {
      AllItems(entries)
    }

    /** `NewMultiWayMerge`: empty streams are left out. */
    constructor (streams: seq<seq<Bytes>>, less: Lesser)
      requires IsOrder(less) && forall i :: 0 <= i < |streams| ==> SortedBy(less, streams[i])
      ensures Valid() && Remaining() == TotalOf(streams) && this.less == less
    {
      this.less := less;
      entries := [];
      new;
      var es := OpenStreams(streams, less);
      var heap := Heapify(less, es);
      AllItemsPermuted(es, heap);
      StreamsPermuted(less, es, heap);
      entries := heap;
    }

    /** `Next`: the smallest item that is left, or None when there is none. */
    method Next() returns (r: Option<Bytes>)
      requires Valid()
      modifies this
      ensures Valid()
      ensures r.None? ==> old(Remaining()) == multiset{} && entries == []
      ensures r.Some? ==> old(Remaining()) == Remaining() + multiset{r.value}
      ensures r.Some? ==> forall x :: x in Remaining() ==> !less(x, r.value)
    {
      hide HeapFrom;
      hide Items;
      if |entries| == 0 {
        return None;
      }
      forall x | x in AllItems(entries) ensures !less(x, entries[0].value) {
        FirstIsSmallest(less, entries, x);
      }
      var minEntry := entries[0];
      r := Some(minEntry.value);
      if |minEntry.rest| == 0 {
        Remove(minEntry);
      } else {
        Update(minEntry);
      }
    }

    /** The stream at the top has delivered its last item: `heap.Remove(merge, 0)`. */
    method Remove(ghost e: Entry)
      requires Valid() && entries != [] && e == entries[0] && e.rest == []
      modifies this`entries
      ensures Valid() && old(Remaining()) == Remaining() + multiset{e.value}
    {
      hide SortedBy;
      hide AllItems;
      hide Items;
      var n := |entries| - 1;
      var es := entries[0 := entries[n]][..n];
      AfterRemoval(less, entries, es);
      var heap := es;
      if n > 0 {
        heap := Down(less, es, 0);
      }
      AllItemsPermuted(es, heap);
      StreamsPermuted(less, es, heap);
      entries := heap;
    }

    /** The stream at the top moves to its next item: `heap.Fix(merge, 0)`. */
    method Update(e: Entry)
      requires Valid() && entries != [] && e == entries[0] && e.rest != []
      modifies this`entries
      ensures Valid() && old(Remaining()) == Remaining() + multiset{e.value}
    {
      var next := Entry(e.rest[0], e.rest[1..]);
      var es := entries[0 := next];
      FirstReplaced(entries, next);
      ItemsSplit(e);
      RestIsSorted(less, e);
      RootFree(less, entries, es);
      var heap := Down(less, es, 0);
      AllItemsPermuted(es, heap);
      StreamsPermuted(less, es, heap);
      entries := heap;
    }
  }

  /** The first item of each stream that has one. */
  method OpenStreams(streams: seq<seq<Bytes>>, less: Lesser) returns (es: seq<Entry>)
    requires forall i :: 0 <= i < |streams| ==> SortedBy(less, streams[i])
    ensures Streams(less, es) && AllItems(es) == TotalOf(streams)
  {
    hide SortedBy;
    hide AllItems;
    hide TotalOf;
    hide Streams;
    es := [];
    NothingOpen(less, streams);
    for i := 0 to |streams|
      invariant Streams(less, es) && AllItems(es) == TotalOf(streams[..i])
    {
      OpenNext(less, es, streams, i);
      if |streams[i]| > 0 {
        es := es + [Entry(streams[i][0], streams[i][1..])];
      }
    }
    assert streams[..|streams|] == streams;
  }

  lemma NothingOpen(less: Lesser, streams: seq<seq<Bytes>>)
    ensures Streams(less, []) && AllItems([]) == TotalOf(streams[..0])
  {}

  lemma OpenNext(less: Lesser, es: seq<Entry>, streams: seq<seq<Bytes>>, i: nat)
    requires i < |streams| && Streams(less, es) && SortedBy(less, streams[i])
    requires AllItems(es) == TotalOf(streams[..i])
    ensures |streams[i]| == 0 ==> TotalOf(streams[..i + 1]) == TotalOf(streams[..i])
    ensures |streams[i]| > 0 ==>
      var es' := es + [Entry(streams[i][0], streams[i][1..])];
      Streams(less, es') && AllItems(es') == TotalOf(streams[..i + 1])
  {
    hide SortedBy;
    hide AllItems;
    assert streams[..i + 1][..i] == streams[..i];
    if |streams[i]| > 0 {
      var e := Entry(streams[i][0], streams[i][1..]);
      assert Items(e) == streams[i];
      AllItemsSnoc(es, e);
    }
  }

  /** The last entry takes the place of the finished first one. */
  lemma AfterRemoval(less: Lesser, es: seq<Entry>, r: seq<Entry>)
    requires HeapFrom(less, es, 0) && Streams(less, es) && es != [] && es[0].rest == []
    requires r == es[0 := es[|es| - 1]][..|es| - 1]
    ensures HeapFrom(less, r, 1) && Streams(less, r) && AllItems(es) == AllItems(r) + multiset{es[0].value}
    ensures r == [] ==> HeapFrom(less, r, 0)
  {
    hide SortedBy;
    hide AllItems;
    hide Items;
    LastMovesToFront(es);
    FirstReplaced(es, es[0]);
    OnlyItem(es[0]);
  }

  lemma OnlyItem(e: Entry)
    requires e.rest == []
    ensures multiset(Items(e)) == multiset{e.value}
  {
    assert Items(e) == [e.value];
  }

  ghost function TotalOf(streams: seq<seq<Bytes>>): multiset<Bytes> {
    if streams == [] then multiset{} else TotalOf(streams[..|streams| - 1]) + multiset(streams[|streams| - 1])
  }

  lemma LastMovesToFront(es: seq<Entry>)
    requires es != []
    ensures var n := |es| - 1; multiset(es[0 := es[n]][..n]) == multiset(es[1..])
    ensures var n := |es| - 1; AllItems(es[0 := es[n]][..n]) == AllItems(es[1..])
  {
    var n := |es| - 1;
    if n > 0 {
      var a, b := es[0 := es[n]][..n], es[1..];
      assert a == [es[n]] + es[1..n] && b == es[1..n] + [es[n]];
      AllItemsPermuted(a, b);
    }
  }

  /** A heap with another first entry is still a heap below it. */
  lemma RootFree(less: Lesser, es: seq<Entry>, r: seq<Entry>)
    requires HeapFrom(less, es, 0) && |r| <= |es| && forall j :: 0 < j < |r| ==> r[j] == es[j]
    ensures HeapFrom(less, r, 1)
  {}

  lemma RestIsSorted(less: Lesser, e: Entry)
    requires SortedBy(less, Items(e)) && e.rest != []
    ensures SortedBy(less, Items(Entry(e.rest[0], e.rest[1..])))
  {
    assert Items(Entry(e.rest[0], e.rest[1..])) == Items(e)[1..];
  }

  /** Reading a merge to its end gives all its items in order. */
  method Drain(merge: MultiWayMerge) returns (out: seq<Bytes>)
    requires merge.Valid()
    modifies merge
    ensures multiset(out) == old(merge.Remaining()) && SortedBy(merge.less, out)
  {
    hide HeapFrom;
    hide Streams;
    hide IsOrder;
    hide AllItems;
    hide SortedBy;
    ghost var all := merge.Remaining();
    out := [];
    assert SortedBy(merge.less, []) by { NothingIsSorted(merge.less); }
    while true
      invariant merge.Valid() && multiset(out) + merge.Remaining() == all && SortedBy(merge.less, out)
      invariant NoneBefore(merge.less, out, merge.Remaining())
      decreases |merge.Remaining()|
    {
      ghost var before := merge.Remaining();
      var r := merge.Next();
      if r.None? {
        break;
      }
      DrainStep(merge.less, out, before, merge.Remaining(), r.value);
      out := out + [r.value];
    }
  }

  lemma NothingIsSorted(less: Lesser)
    ensures SortedBy(less, [])
  {}

  /** Nothing in `rest` has to come before an item of `out`. */
  ghost predicate NoneBefore(less: Lesser, out: seq<Bytes>, rest: multiset<Bytes>) {
    forall i, x :: 0 <= i < |out| && x in rest ==> !less(x, out[i])
  }

  lemma DrainStep(less: Lesser, out: seq<Bytes>, rest: multiset<Bytes>, rest': multiset<Bytes>, x: Bytes)
    requires SortedBy(less, out) && NoneBefore(less, out, rest) && rest == rest' + multiset{x}
    requires forall y :: y in rest' ==> !less(y, x)
    ensures SortedBy(less, out + [x]) && NoneBefore(less, out + [x], rest')
    ensures multiset(out + [x]) + rest' == multiset(out) + rest
  {
    assert x in rest;
    forall y | y in rest' ensures y in rest {}
  }
}
