/** The stores as plain maps: what upgrades, change sets and commits do to names, keys, values and the versions that
    wrote them, without any tree. */
module PlainStores {
  import opened Bytes
  import opened AvlTree
  import opened AvlRecords
  import opened TreeStates
  import opened MultiTrees
  import opened UpgradeBatches
  import opened PendingLog
  import opened Recovery

  type PlainStore = map<Bytes, Record>

  // ----- One store -----

  /** A change set on plain records: what is set gets the version, what is deleted goes. */
  ghost function UpdateRecords(m: PlainStore, pairs: ChangeSet, version: nat): PlainStore
    decreases |pairs|
  {
    if pairs == [] then m else
    var p := pairs[0];
    UpdateRecords(if p.delete then m - {p.key} else m[p.key := (p.value, version)], pairs[1..], version)
  }

  lemma PairRecords(s: TreeState, p: Pair)
    requires WellFormedState(s)
    ensures RootRecords(ApplyPair(s, p).root) == UpdateRecords(RootRecords(s.root), [p], s.version + 1)
  {
    hide SetRecursive;
    hide RemoveRecursive;
    hide WellFormed;
    hide Records;
    hide Stamped;
    assert [p][1..] == [];
    if s.root.Some? {
      SetRecords(s.root.value, p.key, p.value, s.version + 1);
      RemoveRecords(s.root.value, p.key, s.version + 1);
    } else {
      OneLeaf(p.key, p.value, s.version + 1);
    }
  }

  lemma OneLeaf(key: Bytes, value: Bytes, version: nat)
    ensures Records(Leaf(key, value, version)) == map[key := (value, version)]
  {}

  lemma {:induction false} PairsRecords(s: TreeState, pairs: ChangeSet)
    requires WellFormedState(s)
    ensures RootRecords(ApplyPairs(s, pairs).root) == UpdateRecords(RootRecords(s.root), pairs, s.version + 1)
    decreases |pairs|
  {
    hide WellFormedState;
    hide RootRecords;
    if pairs != [] {
      PairRecords(s, pairs[0]);
      PairsRecords(ApplyPair(s, pairs[0]), pairs[1..]);
      assert [pairs[0]][1..] == [];
    }
  }

  // ----- All stores -----

  ghost function StoreMap(trees: Stores): map<Bytes, PlainStore> {
    if trees == [] then map[] else
    var last := trees[|trees| - 1];
    StoreMap(trees[..|trees| - 1])[last.name := RootRecords(last.item.root)]
  }

  lemma {:induction false} StoreMapMember(trees: Stores, i: nat)
    requires NoDuplicates(trees) && i < |trees|
    ensures trees[i].name in StoreMap(trees) && StoreMap(trees)[trees[i].name] == RootRecords(trees[i].item.root)
    decreases |trees|
  {
    hide RootRecords;
    if i < |trees| - 1 { StoreMapMember(trees[..|trees| - 1], i); }
  }

  lemma {:induction false} StoreMapName(trees: Stores, name: Bytes) returns (i: nat)
    requires name in StoreMap(trees)
    ensures i < |trees| && trees[i].name == name
    decreases |trees|
  {
    hide RootRecords;
    if trees[|trees| - 1].name == name {
      i := |trees| - 1;
    } else {
      i := StoreMapName(trees[..|trees| - 1], name);
    }
  }

  /** The order of the stores does not matter. */
  lemma SameStoreMap(xs: Stores, ys: Stores)
    requires NoDuplicates(xs) && multiset(xs) == multiset(ys)
    ensures NoDuplicates(ys) && StoreMap(xs) == StoreMap(ys)
  {
    hide StoreMap;
    hide NoDuplicates;
    NoDuplicatesPermutes(xs, ys);
    forall name | name in StoreMap(xs) ensures name in StoreMap(ys) && StoreMap(ys)[name] == StoreMap(xs)[name] {
      Transfer(xs, ys, name);
    }
    forall name | name in StoreMap(ys) ensures name in StoreMap(xs) { Transfer(ys, xs, name); }
  }

  /** A store of `xs` that `ys` has too is found in both under the same name. */
  lemma Transfer(xs: Stores, ys: Stores, name: Bytes)
    requires NoDuplicates(xs) && NoDuplicates(ys) && name in StoreMap(xs)
    requires forall x :: x in multiset(xs) && x.name == name ==> x in multiset(ys)
    ensures name in StoreMap(ys) && StoreMap(ys)[name] == StoreMap(xs)[name]
  {
    hide StoreMap;
    hide NoDuplicates;
    var i := StoreMapName(xs, name);
    assert xs[i] in multiset(xs);
    var j :| 0 <= j < |ys| && ys[j] == xs[i];
    StoreMapMember(xs, i);
    StoreMapMember(ys, j);
  }

  // ----- Upgrades -----

  /** An upgrade on plain maps; None is the unknown-name error. */
  ghost function PlainStep(s: map<Bytes, PlainStore>, u: Upgrade): Option<map<Bytes, PlainStore>> {
    if u.delete then
      if u.name in s then Some(s - {u.name}) else None
    else if u.renameFrom != [] then
      if u.renameFrom in s then Some((s - {u.renameFrom})[u.name := s[u.renameFrom]]) else None
    else Some(s[u.name := map[]])
  }

  ghost function PlainSteps(s: map<Bytes, PlainStore>, us: seq<Upgrade>): Option<map<Bytes, PlainStore>> {
    if us == [] then Some(s) else
    match PlainSteps(s, us[..|us| - 1])
    case None => None
    case Some(s1) => PlainStep(s1, us[|us| - 1])
  }

  lemma FoundInMap(trees: Stores, name: Bytes)
    requires NoDuplicates(trees)
    ensures Find(trees, name) < |trees| <==> name in StoreMap(trees)
    ensures var i := Find(trees, name); i < |trees| ==> StoreMap(trees)[name] == RootRecords(trees[i].item.root)
  {
    hide StoreMap;
    hide NoDuplicates;
    var i := Find(trees, name);
    if i < |trees| { StoreMapMember(trees, i); }
    if name in StoreMap(trees) {
      var j := StoreMapName(trees, name);
    }
  }

  /** An upgrade that leaves the names distinct does to the stores exactly what it does to plain maps: deleting takes away
      one store, renaming moves its records, adding gives an empty store. */
  lemma StepIsPlain(trees: Stores, u: Upgrade, next: nat)
    requires NoDuplicates(trees)
    ensures var r, p := UpgradeStep(trees, u, next), PlainStep(StoreMap(trees), u);
      && (r.Some? <==> p.Some?)
      && (r.Some? && NoDuplicates(r.value) ==> StoreMap(r.value) == p.value)
  {
    hide StoreMap;
    hide NoDuplicates;
    hide RootRecords;
    FoundInMap(trees, if u.delete then u.name else u.renameFrom);
    var r := UpgradeStep(trees, u, next);
    if r.Some? && NoDuplicates(r.value) {
      if u.delete {
        DeleteIsPlain(trees, Find(trees, u.name), r.value);
      } else if u.renameFrom != [] {
        RenameIsPlain(trees, Find(trees, u.renameFrom), u.name, r.value);
      } else {
        AddIsPlain(trees, Named(u.name, NewTree(next)));
      }
    }
  }

  lemma DeleteIsPlain(trees: Stores, i: nat, r: Stores)
    requires i < |trees| && NoDuplicates(trees) && r == trees[i := trees[|trees| - 1]][..|trees| - 1] && NoDuplicates(r)
    ensures StoreMap(r) == StoreMap(trees) - {trees[i].name}
  {
    hide StoreMap;
    Dropped(trees, i);
    var s, x := StoreMap(trees), trees[i];
    forall name | name in StoreMap(r) ensures name != x.name && name in s && s[name] == StoreMap(r)[name] {
      var k := StoreMapName(r, name);
      assert r[k] == trees[if k == i then |trees| - 1 else k];
      Transfer(r, trees, name);
    }
    forall name | name in s && name != x.name ensures name in StoreMap(r) {
      Transfer(trees, r, name);
    }
  }

  lemma RenameIsPlain(trees: Stores, i: nat, to: Bytes, r: Stores)
    requires i < |trees| && NoDuplicates(trees) && r == trees[i := Named(to, trees[i].item)] && NoDuplicates(r)
    ensures StoreMap(r) == (StoreMap(trees) - {trees[i].name})[to := RootRecords(trees[i].item.root)]
  {
    hide StoreMap;
    hide RootRecords;
    var s, x, y := StoreMap(trees), trees[i], Named(to, trees[i].item);
    Replaced(trees, i, y);
    StoreMapMember(r, i);
    forall name | name in StoreMap(r) && name != to ensures name != x.name && name in s && s[name] == StoreMap(r)[name] {
      var k := StoreMapName(r, name);
      assert k != i && r[k] == trees[k];
      Transfer(r, trees, name);
    }
    forall name | name in s && name != x.name ensures name in StoreMap(r) && (name != to ==> StoreMap(r)[name] == s[name]) {
      var k := StoreMapName(trees, name);
      assert r[k] == trees[k];
      Transfer(trees, r, name);
    }
  }

  lemma AddIsPlain(trees: Stores, x: Named<TreeState>)
    requires x.item.root.None?
    ensures StoreMap(trees + [x]) == StoreMap(trees)[x.name := map[]]
  {
    assert (trees + [x])[..|trees|] == trees;
  }

  /** The same for a list of upgrades that gives no name in use. */
  lemma {:induction false} StepsArePlain(trees: Stores, us: seq<Upgrade>, next: nat)
    requires NoDuplicates(trees) && ConflictFree(trees, us, next)
    ensures var r, p := UpgradeSteps(trees, us, next), PlainSteps(StoreMap(trees), us);
      (r.Some? <==> p.Some?) && (r.Some? ==> NoDuplicates(r.value) && StoreMap(r.value) == p.value)
    decreases |us|
  {
    hide StoreMap;
    hide NoDuplicates;
    hide UpgradeStep;
    hide PlainStep;
    if us != [] {
      var front := us[..|us| - 1];
      StepsArePlain(trees, front, next);
      var r := UpgradeSteps(trees, front, next);
      if r.Some? { StepIsPlain(r.value, us[|us| - 1], next); }
    }
  }

  // ----- Change sets and commits -----

  /** Every store changed by its own pairs. */
  ghost function PlainChanges(s: map<Bytes, PlainStore>, css: ChangeSets, version: nat): map<Bytes, PlainStore> {
    map name | name in s :: UpdateRecords(s[name], PairsFor(css, name), version)
  }

  lemma ChangesArePlain(m: MultiState, css: ChangeSets)
    requires ValidMulti(m)
    ensures ApplyChangeSets(m, css).Some? <==> forall i :: 0 <= i < |css| ==> css[i].name in StoreMap(m.trees)
    ensures ApplyChangeSets(m, css).Some? ==>
      StoreMap(ApplyChangeSets(m, css).value.trees)
        == PlainChanges(StoreMap(m.trees), css, NextVersion(m.version, m.initialVersion))
  {
    hide StoreMap;
    hide ApplyPairs;
    hide PairsFor;
    hide UpdateRecords;
    hide RootRecords;
    hide WellFormedState;
    hide Sorted;
    SortedHasNoDuplicates(m.trees);
    forall i | 0 <= i < |css| ensures Find(m.trees, css[i].name) < |m.trees| <==> css[i].name in StoreMap(m.trees) {
      FoundInMap(m.trees, css[i].name);
    }
    ChangeSetsByStore(m, css);
    if ApplyChangeSets(m, css).Some? {
      ChangedIsPlain(m, ApplyChangeSets(m, css).value, css);
    }
  }

  lemma ChangedIsPlain(m: MultiState, r: MultiState, css: ChangeSets)
    requires ValidMulti(m) && NoDuplicates(m.trees) && ChangedBy(m, r, css)
    ensures StoreMap(r.trees) == PlainChanges(StoreMap(m.trees), css, NextVersion(m.version, m.initialVersion))
  {
    hide StoreMap;
    hide ApplyPairs;
    hide PairsFor;
    hide UpdateRecords;
    hide RootRecords;
    hide WellFormedState;
    hide Sorted;
    var next := NextVersion(m.version, m.initialVersion);
    assert NoDuplicates(r.trees);
    forall i | 0 <= i < |m.trees|
      ensures var name := m.trees[i].name;
        && name in StoreMap(m.trees) && name in StoreMap(r.trees)
        && StoreMap(r.trees)[name] == UpdateRecords(StoreMap(m.trees)[name], PairsFor(css, name), next)
    {
      StoreMapMember(m.trees, i);
      StoreMapMember(r.trees, i);
      PairsRecords(m.trees[i].item, PairsFor(css, m.trees[i].name));
    }
    forall name | name in StoreMap(m.trees) ensures name in StoreMap(r.trees)
      && StoreMap(r.trees)[name] == UpdateRecords(StoreMap(m.trees)[name], PairsFor(css, name), next)
    {
      var i := StoreMapName(m.trees, name);
    }
    forall name | name in StoreMap(r.trees) ensures name in StoreMap(m.trees) {
      var i := StoreMapName(r.trees, name);
    }
  }

  /** Saving changes no store: the same names with the very same trees, one version later. */
  lemma SaveKeepsStores(m: MultiState)
    requires ValidMulti(m)
    ensures var r := SaveMulti(m);
      && |r.trees| == |m.trees| && StoreMap(r.trees) == StoreMap(m.trees)
      && forall i :: 0 <= i < |m.trees| ==>
           && r.trees[i].name == m.trees[i].name && r.trees[i].item.root == m.trees[i].item.root
           && r.trees[i].item.version == m.trees[i].item.version + 1
  {
    hide StoreMap;
    hide Sorted;
    hide Lockstep;
    SameRoots(m.trees, SaveMulti(m).trees);
  }

  lemma {:induction false} SameRoots(xs: Stores, ys: Stores)
    requires |xs| == |ys|
    requires forall i :: 0 <= i < |xs| ==> xs[i].name == ys[i].name && xs[i].item.root == ys[i].item.root
    ensures StoreMap(xs) == StoreMap(ys)
  {
    hide RootRecords;
    if xs != [] { SameRoots(xs[..|xs| - 1], ys[..|ys| - 1]); }
  }

  /** A log entry on plain maps, as the version it commits. */
  ghost function PlainEntry(s: map<Bytes, PlainStore>, e: WalEntry, version: nat): Option<map<Bytes, PlainStore>> {
    match PlainSteps(s, e.upgrades)
    case None => None
    case Some(s1) =>
      if forall i :: 0 <= i < |e.changesets| ==> e.changesets[i].name in s1
      then Some(PlainChanges(s1, e.changesets, version)) else None
  }

  /** After a commit the records of each store are those after the upgrades, changed by the pairs for the store. */
  lemma CommitIsPlain(m: MultiState, e: WalEntry)
    requires ValidMulti(m) && CommitEntry(m, e).Some?
    ensures ApplyUpgrades(m, e.upgrades).Some?
    ensures var m1, r := ApplyUpgrades(m, e.upgrades).value, CommitEntry(m, e).value;
      StoreMap(r.trees) == PlainChanges(StoreMap(m1.trees), e.changesets, r.version)
  {
    hide StoreMap;
    hide PlainChanges;
    hide ApplyUpgrades;
    hide ApplyChangeSets;
    hide SaveMulti;
    hide ValidMulti;
    UpgradesKeepValid(m, e.upgrades);
    var m1 := ApplyUpgrades(m, e.upgrades).value;
    ChangesArePlain(m1, e.changesets);
    SaveKeepsStores(ApplyChangeSets(m1, e.changesets).value);
  }

  lemma UpgradesArePlain(m: MultiState, us: seq<Upgrade>)
    requires ValidMulti(m) && ConflictFree(m.trees, us, NextVersion(m.version, m.initialVersion))
    ensures var r, p := ApplyUpgrades(m, us), PlainSteps(StoreMap(m.trees), us);
      (r.Some? <==> p.Some?) && (r.Some? ==> StoreMap(r.value.trees) == p.value)
  {
    hide StoreMap;
    hide NoDuplicates;
    hide Sorted;
    hide Lockstep;
    hide ConflictFree;
    hide PlainStep;
    hide UpgradeStep;
    SortedHasNoDuplicates(m.trees);
    StepsArePlain(m.trees, us, NextVersion(m.version, m.initialVersion));
    var raw := UpgradeSteps(m.trees, us, NextVersion(m.version, m.initialVersion));
    if us != [] && raw.Some? {
      SortByNameSorts(raw.value);
      SameStoreMap(raw.value, SortByName(raw.value));
    }
  }

  /** A commit whose upgrades give no name in use succeeds exactly when it does on plain maps, and leaves the same. */
  lemma CommitIsExact(m: MultiState, e: WalEntry)
    requires ValidMulti(m) && ConflictFree(m.trees, e.upgrades, NextVersion(m.version, m.initialVersion))
    ensures var r, p := CommitEntry(m, e), PlainEntry(StoreMap(m.trees), e, NextVersion(m.version, m.initialVersion));
      (r.Some? <==> p.Some?) && (r.Some? ==> StoreMap(r.value.trees) == p.value)
  {
    hide StoreMap;
    hide PlainChanges;
    hide PlainSteps;
    hide ApplyUpgrades;
    hide ApplyChangeSets;
    hide SaveMulti;
    hide ValidMulti;
    hide ConflictFree;
    UpgradesArePlain(m, e.upgrades);
    UpgradesKeepValid(m, e.upgrades);
    if ApplyUpgrades(m, e.upgrades).Some? {
      ChangesArePlain(ApplyUpgrades(m, e.upgrades).value, e.changesets);
      if CommitEntry(m, e).Some? { CommitIsPlain(m, e); }
    }
  }

  // ----- The history -----

  /** No upgrade of the first `i` commits gives a name in use. */
  ghost predicate PlainHistory(h: History, i: nat)
    requires ValidHistory(h) && i <= |h.log|
  {
    forall k :: 0 <= k < i ==>
      ConflictFree(At(h, k).trees, h.log[k].upgrades, NextVersion(At(h, k).version, At(h, k).initialVersion))
  }

  /** The log read on plain maps. */
  ghost function PlainLog(h: History, i: nat): Option<map<Bytes, PlainStore>>
    requires i <= |h.log|
  {
    if i == 0 then Some(StoreMap(h.base.trees)) else
    match PlainLog(h, i - 1)
    case None => None
    case Some(s) => PlainEntry(s, h.log[i - 1], VersionOf(h, i))
  }

  /** Every committed state holds exactly what the log says: under each store name, each key with the value set last and
      the version that set it. */
  lemma {:induction false} HistoryIsPlain(h: History, i: nat)
    requires ValidHistory(h) && i <= |h.log| && PlainHistory(h, i)
    ensures PlainLog(h, i) == Some(StoreMap(At(h, i).trees))
  {
    hide StoreMap;
    hide PlainEntry;
    hide CommitEntry;
    hide ConflictFree;
    hide ValidMulti;
    if i == 0 {
      assert h.log[..0] == [];
    } else {
      HistoryIsPlain(h, i - 1);
      AtStep(h, i);
      AtVersion(h, i - 1);
      CommitVersion(h, i);
      CommitIsExact(At(h, i - 1), h.log[i - 1]);
    }
  }

  lemma CommitVersion(h: History, i: nat)
    requires ValidHistory(h) && 0 < i <= |h.log|
    ensures NextVersion(VersionOf(h, i - 1), h.base.initialVersion) == VersionOf(h, i)
  {
    hide After;
    hide CleanMulti;
    VersionIndex(h, i - 1);
  }
}
