/** The changes of the version being built, as they are merged for the log and as replay applies them. */
module PendingLog {
  import opened Bytes
  import opened AvlCorrectness
  import opened TreeStates
  import opened MultiTrees

  // ----- Replaying one entry -----

  /** `applyWALEntry`: upgrades first, then change sets. */
  function ApplyEntry(m: MultiState, e: WalEntry): (r: Option<MultiState>)
    requires ValidMulti(m)
    ensures r.Some? ==> ValidMulti(r.value) && r.value.version == m.version && r.value.initialVersion == m.initialVersion
  {
    UpgradesKeepValid(m, e.upgrades);
    match ApplyUpgrades(m, e.upgrades)
    case None => None
    case Some(m1) => ApplyChangeSets(m1, e.changesets)
  }

  function SaveTrees(trees: Stores): (r: Stores)
    ensures |r| == |trees|
  {
    seq(|trees|, i requires 0 <= i < |trees| => Named(trees[i].name, SaveVersion(trees[i].item)))
  }

  /** `SaveVersion`: the next version everywhere. */
  function SaveMulti(m: MultiState): (r: MultiState)
    requires ValidMulti(m)
    ensures CleanMulti(r) && r.initialVersion == m.initialVersion
    ensures r.version == NextVersion(m.version, m.initialVersion)
  {
    SaveKeepsValid(m);
    MultiState(m.initialVersion, NextVersion(m.version, m.initialVersion), SaveTrees(m.trees))
  }

  lemma SaveKeepsValid(m: MultiState)
    requires ValidMulti(m)
    ensures CleanMulti(MultiState(m.initialVersion, NextVersion(m.version, m.initialVersion), SaveTrees(m.trees)))
  {
    hide Less;
    hide WellFormedState;
    hide Clean;
    var next := NextVersion(m.version, m.initialVersion);
    forall i | 0 <= i < |m.trees|
      ensures InStep(SaveTrees(m.trees)[i].item, next + 1) && Clean(SaveTrees(m.trees)[i].item)
    {
      assert InStep(m.trees[i].item, next);
      StateStepsKeep(m.trees[i].item, [], []);
    }
  }

  /** What one entry does to the committed state: replay it and save. */
  function CommitEntry(m: MultiState, e: WalEntry): (r: Option<MultiState>)
    requires ValidMulti(m)
    ensures r.Some? ==> CleanMulti(r.value) && r.value.initialVersion == m.initialVersion
    ensures r.Some? ==> r.value.version == NextVersion(m.version, m.initialVersion)
  {
    match ApplyEntry(m, e)
    case None => None
    case Some(m1) => Some(SaveMulti(m1))
  }

  // ----- Merging -----

  /** `applyChangeSet`, the log side: append to the store's pending pairs, or add it in name order. */
  function MergeOne(css: ChangeSets, cs: Named<ChangeSet>): ChangeSets {
    if cs.item == [] then css else
    var i := Find(css, cs.name);
    if i < |css| then css[i := Named(cs.name, css[i].item + cs.item)] else SortByName(css + [cs])
  }

  function Merge(css: ChangeSets, more: ChangeSets): ChangeSets {
    if more == [] then css else MergeOne(Merge(css, more[..|more| - 1]), more[|more| - 1])
  }

  /** `ApplyChangeSets`, the log side: the first call is kept as it is. */
  function MergePending(css: ChangeSets, more: ChangeSets): ChangeSets {
    if css == [] then more else Merge(css, more)
  }

  // ----- Where merged pairs end up -----

  /** The pairs in the first entry for a store. */
  function FirstPairs(css: ChangeSets, name: Bytes): ChangeSet {
    var i := Find(css, name);
    if i < |css| then css[i].item else []
  }

  /** The pairs in its other entries. */
  function LaterPairs(css: ChangeSets, name: Bytes): ChangeSet {
    var i := Find(css, name);
    if i < |css| then PairsFor(css[i + 1..], name) else []
  }

  function OwnPairs(cs: Named<ChangeSet>, name: Bytes): ChangeSet {
    if cs.name == name then cs.item else []
  }

  lemma {:induction false} PairsForJoin(a: ChangeSets, b: ChangeSets, name: Bytes)
    ensures PairsFor(a + b, name) == PairsFor(a, name) + PairsFor(b, name)
    decreases |b|
  {
    if b == [] {
      assert a + b == a;
    } else {
      assert (a + b)[..|a + b| - 1] == a + b[..|b| - 1];
      PairsForJoin(a, b[..|b| - 1], name);
    }
  }

  lemma {:induction false} NoPairs(css: ChangeSets, name: Bytes)
    requires forall i :: 0 <= i < |css| ==> css[i].name != name
    ensures PairsFor(css, name) == []
  {
    if css != [] { NoPairs(css[..|css| - 1], name); }
  }

  lemma OnePair(cs: Named<ChangeSet>, name: Bytes)
    ensures PairsFor([cs], name) == OwnPairs(cs, name)
  {
    assert [cs][..0] == [];
    assert PairsFor([], name) == [];
  }

  /** The pairs of a store, split at the first entry with its name. */
  lemma {:induction false} SplitAtFirst(css: ChangeSets, name: Bytes)
    ensures PairsFor(css, name) == FirstPairs(css, name) + LaterPairs(css, name)
  {
    hide PairsFor;
    hide Find;
    var i := Find(css, name);
    if i < |css| {
      SplitAt(css, i, name);
      NoPairs(css[..i], name);
    } else {
      NoPairs(css, name);
    }
  }

  lemma {:induction false} SplitAt(css: ChangeSets, i: nat, name: Bytes)
    requires i < |css|
    ensures PairsFor(css, name) == PairsFor(css[..i], name) + OwnPairs(css[i], name) + PairsFor(css[i + 1..], name)
  {
    hide PairsFor;
    assert css == css[..i] + [css[i]] + css[i + 1..];
    PairsForJoin(css[..i] + [css[i]], css[i + 1..], name);
    PairsForJoin(css[..i], [css[i]], name);
    OnePair(css[i], name);
  }

  lemma FindInserted<T>(xs: seq<Named<T>>, x: Named<T>, name: Bytes)
    ensures var i, j := Find(xs, name), Find(xs + [x], name);
      j == if i < |xs| then i else if x.name == name then |xs| else |xs| + 1
  {
    var i, j := Find(xs, name), Find(xs + [x], name);
    assert (xs + [x])[|xs|] == x;
    assert i < |xs| ==> (xs + [x])[i] == xs[i];
    assert j < |xs| ==> (xs + [x])[j] == xs[j];
  }

  lemma FirstAppended(css: ChangeSets, cs: Named<ChangeSet>, name: Bytes)
    ensures FirstPairs(css + [cs], name) == if Find(css, name) < |css| then FirstPairs(css, name) else OwnPairs(cs, name)
    ensures PairsFor(css + [cs], name) == PairsFor(css, name) + OwnPairs(cs, name)
  {
    FindInserted(css, cs, name);
    PairsForJoin(css, [cs], name);
    OnePair(cs, name);
  }

  /** Inserting by name leaves the entries of each store in their order. */
  lemma {:induction false} InsertKeepsOrder(css: ChangeSets, cs: Named<ChangeSet>, name: Bytes)
    ensures PairsFor(Insert(css, cs), name) == PairsFor(css + [cs], name)
    ensures FirstPairs(Insert(css, cs), name) == FirstPairs(css + [cs], name)
    ensures Find(Insert(css, cs), name) < |css| + 1 <==> Find(css + [cs], name) < |css| + 1
  {
    hide PairsFor;
    hide FirstPairs;
    hide Find;
    FirstAppended(css, cs, name);
    FindInserted(css, cs, name);
    if css == [] {
      assert css + [cs] == [cs];
    } else if Less(cs.name, css[|css| - 1].name) {
      var front, last := css[..|css| - 1], css[|css| - 1];
      LessIrreflexive(cs.name);
      InsertKeepsOrder(front, cs, name);
      assert css == front + [last];
      FirstAppended(front, last, name);
      FirstAppended(front, cs, name);
      FirstAppended(Insert(front, cs), last, name);
      FindInserted(front, last, name);
      FindInserted(front, cs, name);
      FindInserted(Insert(front, cs), last, name);
      SwapEmpty(PairsFor(front, name), OwnPairs(cs, name), OwnPairs(last, name));
    }
  }

  lemma SwapEmpty<T>(a: seq<T>, b: seq<T>, c: seq<T>)
    ensures b == [] || c == [] ==> a + b + c == a + c + b
  {}

  lemma LessIrreflexive(a: Bytes)
    ensures !Less(a, a)
  {
    CompareFlips(a, a);
  }

  lemma {:induction false} SortKeepsOrder(css: ChangeSets, name: Bytes)
    ensures PairsFor(SortByName(css), name) == PairsFor(css, name)
    ensures FirstPairs(SortByName(css), name) == FirstPairs(css, name)
    ensures Find(SortByName(css), name) < |css| <==> Find(css, name) < |css|
  {
    hide PairsFor;
    hide FirstPairs;
    hide Find;
    hide Insert;
    if css != [] {
      var front, last := css[..|css| - 1], css[|css| - 1];
      assert css == front + [last];
      SortKeepsOrder(front, name);
      InsertKeepsOrder(SortByName(front), last, name);
      FirstAppended(SortByName(front), last, name);
      FirstAppended(front, last, name);
      FindInserted(SortByName(front), last, name);
      FindInserted(front, last, name);
    }
  }

  /** Merging one change set puts its pairs after those of the first entry for the store. */
  lemma MergeOnePlaces(css: ChangeSets, cs: Named<ChangeSet>, name: Bytes)
    ensures FirstPairs(MergeOne(css, cs), name) == FirstPairs(css, name) + OwnPairs(cs, name)
    ensures LaterPairs(MergeOne(css, cs), name) == LaterPairs(css, name)
  {
    hide PairsFor;
    hide SortByName;
    var i := Find(css, cs.name);
    if cs.item == [] {
    } else if i < |css| {
      MergeInPlace(css, cs, name);
    } else {
      var r := SortByName(css + [cs]);
      SortKeepsOrder(css + [cs], name);
      FirstAppended(css, cs, name);
      SplitAtFirst(css, name);
      SplitAtFirst(r, name);
      if name == cs.name {
        NoPairs(css, name);
      }
      SameTail(FirstPairs(r, name), LaterPairs(r, name), LaterPairs(css, name));
    }
  }

  lemma SameTail<T>(a: seq<T>, b: seq<T>, c: seq<T>)
    requires a + b == a + c
    ensures b == c
  {
    assert b == (a + b)[|a|..] && c == (a + c)[|a|..];
  }

  lemma MergeInPlace(css: ChangeSets, cs: Named<ChangeSet>, name: Bytes)
    requires Find(css, cs.name) < |css|
    ensures var i := Find(css, cs.name); var r := css[i := Named(cs.name, css[i].item + cs.item)];
      && FirstPairs(r, name) == FirstPairs(css, name) + OwnPairs(cs, name)
      && LaterPairs(r, name) == LaterPairs(css, name)
  {
    hide PairsFor;
    var i := Find(css, cs.name);
    var r := css[i := Named(cs.name, css[i].item + cs.item)];
    SameNamesFind(css, r, name);
    var j := Find(css, name);
    if j < |css| {
      if i < j || i == j {
        assert r[j + 1..] == css[j + 1..];
      } else {
        SplitAt(css[j + 1..], i - j - 1, name);
        SplitAt(r[j + 1..], i - j - 1, name);
        assert r[j + 1..][..i - j - 1] == css[j + 1..][..i - j - 1];
        assert r[j + 1..][i - j..] == css[j + 1..][i - j..];
      }
    }
  }

  /** The same for a whole call. */
  lemma {:induction false} MergePlaces(css: ChangeSets, more: ChangeSets, name: Bytes)
    ensures FirstPairs(Merge(css, more), name) == FirstPairs(css, name) + PairsFor(more, name)
    ensures LaterPairs(Merge(css, more), name) == LaterPairs(css, name)
    decreases |more|
  {
    hide FirstPairs;
    hide LaterPairs;
    hide MergeOne;
    if more != [] {
      var front, last := more[..|more| - 1], more[|more| - 1];
      MergePlaces(css, front, name);
      MergeOnePlaces(Merge(css, front), last, name);
    }
  }

  /** All the pending pairs of the store are in its first entry. */
  predicate Settled(css: ChangeSets, name: Bytes) {
    LaterPairs(css, name) == []
  }

  /** Every store that the call changes is settled. */
  predicate Mergeable(css: ChangeSets, more: ChangeSets) {
    css == [] || forall i :: 0 <= i < |more| && more[i].item != [] ==> Settled(css, more[i].name)
  }

  lemma {:induction false} MergeableSettles(css: ChangeSets, more: ChangeSets, name: Bytes)
    requires Mergeable(css, more) && css != []
    ensures PairsFor(more, name) == [] || Settled(css, name)
    decreases |more|
  {
    hide Settled;
    if more != [] {
      var front, last := more[..|more| - 1], more[|more| - 1];
      assert more[|more| - 1] == last;
      MergeableSettles(css, front, name);
    }
  }

  /** Merging then appends to the pairs of each store. */
  lemma MergeAppends(css: ChangeSets, more: ChangeSets, name: Bytes)
    requires Mergeable(css, more)
    ensures PairsFor(MergePending(css, more), name) == PairsFor(css, name) + PairsFor(more, name)
  {
    hide PairsFor;
    hide Merge;
    hide FirstPairs;
    if css == [] {
      NoPairs(css, name);
    } else {
      MergeableSettles(css, more, name);
      MergePlaces(css, more, name);
      SplitAtFirst(css, name);
      SplitAtFirst(Merge(css, more), name);
    }
  }

  // ----- The pending log describes the working state -----

  /** Replaying `pending` on the committed state gives the working state. */
  ghost predicate Describes(base: MultiState, pending: WalEntry, live: MultiState) {
    ValidMulti(base) && ApplyEntry(base, pending) == Some(live)
  }

  /** Applying change sets to the working state and merging them into the log stay in agreement. */
  lemma ChangeSetsDescribed(base: MultiState, pending: WalEntry, live: MultiState, css: ChangeSets)
    requires Describes(base, pending, live) && ValidMulti(live) && Mergeable(pending.changesets, css)
    requires ApplyChangeSets(live, css).Some?
    ensures var pending' := pending.(changesets := MergePending(pending.changesets, css));
      Describes(base, pending', ApplyChangeSets(live, css).value)
  {
    hide ApplyChangeSets;
    hide ApplyUpgrades;
    hide ValidMulti;
    hide Mergeable;
    UpgradesKeepValid(base, pending.upgrades);
    var m1 := ApplyUpgrades(base, pending.upgrades).value;
    var old', new' := pending.changesets, MergePending(pending.changesets, css);
    MergedChanges(m1, live, old', css, new');
  }

  lemma MergedAreKnown(trees: Stores, live: Stores, css: ChangeSets, more: ChangeSets)
    requires |trees| == |live| && forall i :: 0 <= i < |trees| ==> trees[i].name == live[i].name
    requires Known(trees, css) && Known(live, more)
    ensures Known(trees, MergePending(css, more))
  {
    forall i | 0 <= i < |more| ensures Find(trees, more[i].name) < |trees| {
      SameNamesFind(trees, live, more[i].name);
    }
    MergeKnown(trees, css, more);
  }

  lemma {:induction false} MergeKnown(trees: Stores, css: ChangeSets, more: ChangeSets)
    requires Known(trees, css) && Known(trees, more)
    ensures Known(trees, Merge(css, more))
    decreases |more|
  {
    hide Find;
    if more != [] {
      var last := more[|more| - 1];
      MergeKnown(trees, css, more[..|more| - 1]);
      MergeOneKnown(trees, Merge(css, more[..|more| - 1]), last);
    }
  }

  lemma MergeOneKnown(trees: Stores, css: ChangeSets, cs: Named<ChangeSet>)
    requires Known(trees, css) && Find(trees, cs.name) < |trees|
    ensures Known(trees, MergeOne(css, cs))
  {
    hide SortByName;
    hide WeaklySorted;
    hide Known;
    KnownWith(trees, css, cs);
    SortByNameSorts(css + [cs]);
    KnownPermutes(trees, css + [cs], SortByName(css + [cs]));
  }

  lemma KnownWith(trees: Stores, css: ChangeSets, cs: Named<ChangeSet>)
    requires Known(trees, css) && Find(trees, cs.name) < |trees|
    ensures Known(trees, css + [cs])
    ensures var i := Find(css, cs.name); i < |css| ==> Known(trees, css[i := Named(cs.name, css[i].item + cs.item)])
  {
    hide Find;
  }

  lemma KnownPermutes(trees: Stores, xs: ChangeSets, ys: ChangeSets)
    requires Known(trees, xs) && multiset(xs) == multiset(ys)
    ensures Known(trees, ys)
  {
    hide Find;
    forall i | 0 <= i < |ys| ensures Find(trees, ys[i].name) < |trees| {
      assert ys[i] in multiset(xs);
      var k :| 0 <= k < |xs| && xs[k] == ys[i];
    }
  }

  lemma MergedChanges(m: MultiState, live: MultiState, old': ChangeSets, more: ChangeSets, new': ChangeSets)
    requires ValidMulti(m) && ValidMulti(live) && Mergeable(old', more) && new' == MergePending(old', more)
    requires ApplyChangeSets(m, old') == Some(live) && ApplyChangeSets(live, more).Some?
    ensures ApplyChangeSets(m, new') == ApplyChangeSets(live, more)
  {
    hide Mergeable;
    hide MergePending;
    hide ApplyPairs;
    hide PairsFor;
    hide Sorted;
    hide WellFormedState;
    var r := ApplyChangeSets(live, more).value;
    ChangeSetsByStore(m, old');
    ChangeSetsByStore(live, more);
    ChangeSetsByStore(m, new');
    assert Known(m.trees, new') by { MergedAreKnown(m.trees, live.trees, old', more); }
    forall i | 0 <= i < |m.trees| ensures ApplyChangeSets(m, new').value.trees[i] == r.trees[i] {
      var name := m.trees[i].name;
      MergeAppends(old', more, name);
      ApplyPairsSplit(m.trees[i].item, PairsFor(old', name), PairsFor(more, name));
    }
    assert ApplyChangeSets(m, new').value.trees == r.trees;
  }

  /** A fresh version has nothing pending. */
  lemma NothingPending(base: MultiState)
    requires ValidMulti(base)
    ensures Describes(base, NO_CHANGES, base)
  {}

  // ----- Exactly when merging is faithful -----

  /** The call leaves log and working state in agreement. */
  ghost predicate CallDescribed(base: MultiState, pending: WalEntry, live: MultiState, css: ChangeSets)
    requires ValidMulti(live)
  {
    && ApplyChangeSets(live, css).Some?
    && Describes(base, pending.(changesets := MergePending(pending.changesets, css)), ApplyChangeSets(live, css).value)
  }

  /** A value that the pair does not leave under its key. */
  function OtherValue(p: Pair): Bytes {
    p.value + [0]
  }

  /** The last pending pair of an unsettled store, overruled by a later call, still comes last in the log. */
  function Overruling(css: ChangeSets, name: Bytes): Named<ChangeSet>
    requires !Settled(css, name)
  {
    var later := LaterPairs(css, name);
    var p := later[|later| - 1];
    Named(name, [Pair(false, p.key, OtherValue(p))])
  }

  /** Every change of a store of the working state is replayed exactly if and only if the store is settled. */
  lemma MergeIsFaithful(base: MultiState, pending: WalEntry, live: MultiState, name: Bytes)
    requires Describes(base, pending, live) && ValidMulti(live) && Find(live.trees, name) < |live.trees|
    ensures Settled(pending.changesets, name) <==>
      forall pairs :: CallDescribed(base, pending, live, [Named(name, pairs)])
  {
    hide ApplyEntry;
    hide ValidMulti;
    hide Find;
    var css := pending.changesets;
    if Settled(css, name) {
      forall pairs ensures CallDescribed(base, pending, live, [Named(name, pairs)]) {
        KnownStore(live, Named(name, pairs));
        ChangeSetsDescribed(base, pending, live, [Named(name, pairs)]);
      }
    } else {
      UnsettledBreaks(base, pending, live, name);
    }
  }

  lemma KnownStore(m: MultiState, cs: Named<ChangeSet>)
    requires ValidMulti(m) && Find(m.trees, cs.name) < |m.trees|
    ensures ApplyChangeSets(m, [cs]).Some? && ChangedBy(m, ApplyChangeSets(m, [cs]).value, [cs])
  {
    hide ValidMulti;
    hide ChangedBy;
    ChangeSetsByStore(m, [cs]);
  }

  lemma UnsettledBreaks(base: MultiState, pending: WalEntry, live: MultiState, name: Bytes)
    requires Describes(base, pending, live) && ValidMulti(live) && Find(live.trees, name) < |live.trees|
    requires !Settled(pending.changesets, name)
    ensures !CallDescribed(base, pending, live, [Overruling(pending.changesets, name)])
  {
    hide ValidMulti;
    hide ApplyChangeSets;
    hide ApplyUpgrades;
    hide Settled;
    UpgradesKeepValid(base, pending.upgrades);
    var m := ApplyUpgrades(base, pending.upgrades).value;
    OverruledDiffers(m, live, pending.changesets, name);
  }

  lemma OverruledDiffers(m: MultiState, live: MultiState, css: ChangeSets, name: Bytes)
    requires ValidMulti(m) && ValidMulti(live) && ApplyChangeSets(m, css) == Some(live)
    requires Find(live.trees, name) < |live.trees| && !Settled(css, name)
    ensures var more := [Overruling(css, name)];
      ApplyChangeSets(m, MergePending(css, more)) != ApplyChangeSets(live, more)
  {
    hide ApplyPairs;
    hide PairsFor;
    hide FirstPairs;
    hide WellFormedState;
    hide Sorted;
    var cs := Overruling(css, name);
    var merged := MergePending(css, [cs]);
    var first, later, x := FirstPairs(css, name), LaterPairs(css, name), cs.item;
    ChangeSetsByStore(m, css);
    ChangeSetsByStore(m, merged);
    KnownStore(live, cs);
    MergePlaces(css, [cs], name);
    OnePair(cs, name);
    SplitAtFirst(merged, name);
    var i := Find(live.trees, name);
    assert InStep(m.trees[i].item, NextVersion(m.version, m.initialVersion));
    assert InStep(live.trees[i].item, NextVersion(live.version, live.initialVersion));
    if ApplyChangeSets(m, merged).Some? {
      OverruledStore(m.trees[i].item, live.trees[i].item, first, later, x[0]);
    }
  }

  lemma OverruledStore(t: TreeState, s: TreeState, first: ChangeSet, later: ChangeSet, x: Pair)
    requires WellFormedState(t) && WellFormedState(s) && later != []
    requires var p := later[|later| - 1]; x == Pair(false, p.key, OtherValue(p))
    ensures ApplyPairs(t, first + [x] + later) != ApplyPairs(s, [x])
  {
    hide WellFormedState;
    hide ApplyPairs;
    var n := |later| - 1;
    assert first + [x] + later == first + [x] + later[..n] + [later[n]];
    LastPairWins(t, first + [x] + later[..n], later[n]);
    LastPairWins(s, [], x);
    assert [] + [x] == [x];
  }

  lemma LastPairWins(t: TreeState, pairs: ChangeSet, p: Pair)
    requires WellFormedState(t)
    ensures var m := RootContents(ApplyPairs(t, pairs + [p]).root);
      if p.delete then p.key !in m else p.key in m && m[p.key] == p.value
  {
    hide WellFormedState;
    ApplyPairsSplit(t, pairs, [p]);
    ApplyPairsCorrect(ApplyPairs(t, pairs), [p]);
    assert [p][1..] == [];
  }
}
