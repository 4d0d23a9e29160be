/** Lookups by key and by rank. `PersistedNode` searches the leaf array; `MemNode` descends the
    tree. Both are held to the same specification, so they agree on any mix of the two. */
module Lookup {
  import opened Bytes
  import opened AvlTree
  import opened AvlHeight
  import opened AvlCorrectness
  import opened MerkleHash
  import opened Snapshot

  /** `r` counts the items whose key is smaller than `key`. */
  ghost predicate IsRank(items: seq<(Bytes, Bytes)>, key: Bytes, r: nat) {
    && r <= |items|
    && (forall i :: 0 <= i < r ==> Less(items[i].0, key))
    && (forall i :: r <= i < |items| ==> !Less(items[i].0, key))
  }

  /** The value stored under `key`, if any, and the rank of `key`. */
  ghost predicate IsLookup(t: Tree, key: Bytes, value: Option<Bytes>, rank: nat) {
    && value == (if key in Contents(t) then Some(Contents(t)[key]) else None)
    && IsRank(Items(t), key, rank)
  }

  /** The specification leaves no freedom. */
  lemma LookupUnique(t: Tree, key: Bytes, v: Option<Bytes>, i: nat, w: Option<Bytes>, j: nat)
    requires IsLookup(t, key, v, i) && IsLookup(t, key, w, j)
    ensures v == w && i == j
  {
    var items := Items(t);
    assert i < |items| ==> (Less(items[i].0, key) <==> i < j);
    assert j < |items| ==> (Less(items[j].0, key) <==> j < i);
  }

  // ----- The descending lookup, one branch at a time -----

  lemma {:induction false} ItemsCount(t: Tree)
    requires Measured(t)
    ensures |Items(t)| == Size(t)
  {
    if t.Branch? { ItemsCount(t.left); ItemsCount(t.right); }
  }

  lemma LookupLeft(t: Tree, key: Bytes, value: Option<Bytes>, rank: nat)
    requires t.Branch? && WellFormed(t) && Less(key, t.key) && IsLookup(t.left, key, value, rank)
    ensures IsLookup(t, key, value, rank)
  {
    hide Compare;
    KeySide(t, key);
    ItemsListContents(t.right);
    var a, b := Items(t.left), Items(t.right);
    forall i | 0 <= i < |b| ensures !Less(b[i].0, key) {
      assert b[i].0 in Keys(t.right);
      if Less(b[i].0, key) { LessTransitive(b[i].0, key, t.key); }
    }
  }

  lemma LookupRight(t: Tree, key: Bytes, value: Option<Bytes>, rank: nat)
    requires t.Branch? && WellFormed(t) && !Less(key, t.key) && IsLookup(t.right, key, value, rank)
    ensures IsLookup(t, key, value, rank + Size(t) - Size(t.right))
  {
    hide Compare;
    KeySide(t, key);
    ItemsListContents(t.left);
    ItemsCount(t.left);
    var a, b := Items(t.left), Items(t.right);
    forall i | 0 <= i < |a| ensures Less(a[i].0, key) {
      assert a[i].0 in Keys(t.left);
      if t.key != key {
        CompareFlips(t.key, key);
        LessTransitive(a[i].0, t.key, key);
      }
    }
  }

  lemma LookupLeaf(t: Tree, key: Bytes)
    requires t.Leaf?
    ensures IsLookup(t, key, if t.key == key then Some(t.value) else None, if Less(t.key, key) then 1 else 0)
  {}

  // ----- The binary search over the leaf array -----

  /** The search of `sort.Search` on leaves `start + i .. start + j`: the first whose key is not
      below `key`. */
  function SearchLeaf(s: Snapshot, start: nat, i: nat, j: nat, key: Bytes): nat
    decreases j - i
  {
    if i >= j then i else
    var h := (i + j) / 2;
    match LeafKeyValue(s, U32(start + h))
    case None => i
    case Some((k, _)) => if Less(k, key) then SearchLeaf(s, start, h + 1, j, key) else SearchLeaf(s, start, i, h, key)
  }

  function PersistedGet(p: PersistedNode, key: Bytes): (Option<Bytes>, nat)
    requires p.isLeaf || IsBranch(p)
  {
    var count := if p.isLeaf then 1 else Record(p).size;
    var start := if p.isLeaf then p.index else GetStartLeaf(p.index, count, Record(p).preTrees);
    var i := SearchLeaf(p.snapshot, start, 0, count, key);
    var leaf := U32(i + start);
    if leaf >= U32(start + count) then (None, i) else
    match LeafKeyValue(p.snapshot, leaf)
    case None => (None, i)
    case Some((k, v)) => (if k == key then Some(v) else None, i)
  }

  lemma {:induction false} SearchLeafFinds(
      s: Snapshot, start: nat, i: nat, j: nat, key: Bytes, items: seq<(Bytes, Bytes)>)
    requires Increasing(items) && i <= j <= |items| && start + |items| < UINT32_LIMIT
    requires forall k :: 0 <= k < |items| ==> LeafKeyValue(s, start + k) == Some(items[k])
    requires forall k :: 0 <= k < i ==> Less(items[k].0, key)
    requires forall k :: j <= k < |items| ==> !Less(items[k].0, key)
    ensures IsRank(items, key, SearchLeaf(s, start, i, j, key))
    decreases j - i
  {
    hide LeafKeyValue;
    hide Compare;
    if i < j {
      var h := (i + j) / 2;
      U32Exact(start + h);
      if Less(items[h].0, key) {
        forall k | 0 <= k < h ensures Less(items[k].0, key) { LessTransitive(items[k].0, items[h].0, key); }
        SearchLeafFinds(s, start, h + 1, j, key, items);
      } else {
        forall k | h < k < |items| ensures !Less(items[k].0, key) {
          if Less(items[k].0, key) { LessTransitive(items[h].0, items[k].0, key); }
        }
        SearchLeafFinds(s, start, i, h, key, items);
      }
    }
  }

  /** The first leaf of a stored tree, and its leaves in order. */
  ghost function StartLeaf(p: PersistedNode): nat
    requires p.isLeaf || IsBranch(p)
  {
    if p.isLeaf then p.index else GetStartLeaf(p.index, Record(p).size, Record(p).preTrees)
  }

  lemma StoredLeaves(sha: Sha, p: PersistedNode, t: Tree)
    requires Represents(sha, p, t)
    ensures StartLeaf(p) + Size(t) < UINT32_LIMIT
    ensures Size(t) == if p.isLeaf then 1 else Record(p).size
    ensures |Items(t)| == Size(t)
    ensures forall i :: 0 <= i < Size(t) ==> LeafKeyValue(p.snapshot, StartLeaf(p) + i) == Some(Items(t)[i])
  {
    hide LeafKeyValue;
    hide HashNode;
    var b := if t.Leaf? then 0 else p.index + 2 - t.size;
    var l := if t.Leaf? then p.index else b + Record(p).preTrees;
    LaidOutBounds(sha, p.snapshot, t, l, b);
    LaidOutLeaves(sha, p.snapshot, t, l, b);
    U32Exact(l);
  }

  lemma GetFromLeaves(p: PersistedNode, items: seq<(Bytes, Bytes)>, m: map<Bytes, Bytes>, key: Bytes)
    requires p.isLeaf || IsBranch(p)
    requires |items| == if p.isLeaf then 1 else Record(p).size
    requires StartLeaf(p) + |items| < UINT32_LIMIT
    requires forall i :: 0 <= i < |items| ==> LeafKeyValue(p.snapshot, StartLeaf(p) + i) == Some(items[i])
    requires Increasing(items) && Lists(items, m)
    ensures PersistedGet(p, key).0 == if key in m then Some(m[key]) else None
    ensures IsRank(items, key, PersistedGet(p, key).1)
  {
    hide LeafKeyValue;
    hide Compare;
    hide U32;
    hide SearchLeaf;
    var start := StartLeaf(p);
    SearchLeafFinds(p.snapshot, start, 0, |items|, key, items);
    var i := SearchLeaf(p.snapshot, start, 0, |items|, key);
    U32Exact(start + i);
    U32Exact(start + |items|);
    FoundAtRank(items, m, key, i);
  }

  /** Binary search over the leaf array meets the lookup specification. */
  lemma PersistedGetCorrect(sha: Sha, p: PersistedNode, t: Tree, key: Bytes)
    requires Represents(sha, p, t) && Ordered(t)
    ensures IsLookup(t, key, PersistedGet(p, key).0, PersistedGet(p, key).1)
  {
    hide PersistedGet;
    StoredLeaves(sha, p, t);
    ItemsListContents(t);
    GetFromLeaves(p, Items(t), Contents(t), key);
  }

  lemma FoundAtRank(items: seq<(Bytes, Bytes)>, m: map<Bytes, Bytes>, key: Bytes, r: nat)
    requires Increasing(items) && Lists(items, m) && IsRank(items, key, r)
    ensures key in m <==> r < |items| && items[r].0 == key
    ensures key in m ==> items[r].1 == m[key]
  {
    hide Compare;
    if key in m {
      var i :| 0 <= i < |items| && items[i] == (key, m[key]);
      CompareFlips(key, key);
      assert r <= i;
    }
  }

  // ----- Lookup by rank -----

  ghost function ItemAt(t: Tree, i: nat): Option<(Bytes, Bytes)> {
    if i < |Items(t)| then Some(Items(t)[i]) else None
  }

  /** `MemNode.GetByIndex`, one branch at a time. */
  lemma ItemAtBranch(t: Tree, i: nat)
    requires t.Branch? && Measured(t)
    ensures ItemAt(t, i) == if i < Size(t.left) then ItemAt(t.left, i) else ItemAt(t.right, i - Size(t.left))
  {
    ItemsCount(t.left);
  }

  function PersistedGetByIndex(p: PersistedNode, leafIndex: nat): Option<(Bytes, Bytes)>
    requires p.isLeaf || IsBranch(p)
  {
    if p.isLeaf then
      if leafIndex != 0 then None else LeafKeyValue(p.snapshot, p.index)
    else
      var data := Record(p);
      var i := U32(GetStartLeaf(p.index, data.size, data.preTrees) + leafIndex);
      if i > GetEndLeaf(p.index, data.preTrees) then None else LeafKeyValue(p.snapshot, i)
  }

  lemma PersistedGetByIndexInRange(sha: Sha, p: PersistedNode, t: Tree, i: nat)
    requires Represents(sha, p, t) && (p.isLeaf || StartLeaf(p) + i < UINT32_LIMIT)
    ensures PersistedGetByIndex(p, i) == ItemAt(t, i)
  {
    StoredLeaves(sha, p, t);
    if !p.isLeaf {
      EndLeaf(sha, p, t);
      hide LeafKeyValue;
      hide Items;
      U32Exact(StartLeaf(p) + i);
    }
  }

  /** Lookup by rank is right exactly when the leaf position does not wrap around: an index past the
      end can wrap to a leaf before the subtree. */
  lemma PersistedGetByIndexExact(sha: Sha, p: PersistedNode, t: Tree, i: nat)
    requires Represents(sha, p, t) && i < UINT32_LIMIT
    requires forall j :: 0 <= j < |p.snapshot.leaves| ==> LeafKeyValue(p.snapshot, j).Some?
    ensures PersistedGetByIndex(p, i) == ItemAt(t, i) <==> p.isLeaf || StartLeaf(p) + i < UINT32_LIMIT
    ensures i <= Size(t) ==> p.isLeaf || StartLeaf(p) + i < UINT32_LIMIT
  {
    StoredLeaves(sha, p, t);
    if p.isLeaf || StartLeaf(p) + i < UINT32_LIMIT {
      PersistedGetByIndexInRange(sha, p, t, i);
    } else {
      EndLeaf(sha, p, t);
      var n := StartLeaf(p) + i - UINT32_LIMIT;
      hide LeafKeyValue;
      hide Items;
      assert U32(StartLeaf(p) + i) == n by { U32Exact(n); }
      StoredWithin(sha, p, t);
    }
  }

  lemma EndLeaf(sha: Sha, p: PersistedNode, t: Tree)
    requires Represents(sha, p, t) && t.Branch?
    ensures GetEndLeaf(p.index, Record(p).preTrees) == StartLeaf(p) + Size(t) - 1
  {
    hide LeafKeyValue;
    hide HashNode;
    StoredLeaves(sha, p, t);
    var b := p.index + 2 - t.size;
    LaidOutBounds(sha, p.snapshot, t, b + Record(p).preTrees, b);
    U32Exact(b + Record(p).preTrees);
    U32Exact(p.index + Record(p).preTrees + 1);
  }

  lemma StoredWithin(sha: Sha, p: PersistedNode, t: Tree)
    requires Represents(sha, p, t) && t.Branch?
    ensures StartLeaf(p) < |p.snapshot.leaves|
  {
    hide LeafKeyValue;
    hide HashNode;
    var b := p.index + 2 - t.size;
    LaidOutBounds(sha, p.snapshot, t, b + Record(p).preTrees, b);
    U32Exact(b + Record(p).preTrees);
  }
}
