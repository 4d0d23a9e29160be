/** The initial stores of a new database: one upgrade for each name, in a process at version 0. */
module InitialStores {
  import opened Bytes
  import opened AvlCorrectness
  import opened TreeStates
  import opened MultiTrees
  import opened UpgradeBatches
  import opened PendingLog
  import opened UpgradeReplays
  import opened PlainStores

  function AddStores(names: seq<Bytes>): seq<Upgrade> {
    seq(|names|, i requires 0 <= i < |names| => Upgrade(names[i], [], false))
  }

  predicate Distinct(names: seq<Bytes>) {
    forall i, j :: 0 <= i < j < |names| ==> names[i] != names[j]
  }

  /** Empty stores that will be saved at version `next`. */
  ghost function EmptyStores(names: seq<Bytes>, next: nat): (r: Stores)
    requires next >= 1
    ensures |r| == |names|
    ensures forall i :: 0 <= i < |names| ==> r[i] == Named(names[i], TreeState(next - 1, None))
  {
    seq(|names|, i requires 0 <= i < |names| => Named(names[i], TreeState(next - 1, None)))
  }

  /** `r` has the stores of `m` and exactly these empty ones besides, sorted by name. */
  ghost predicate HasAdded(m: MultiState, names: seq<Bytes>, r: MultiState) {
    var next := NextVersion(m.version, m.initialVersion);
    && next >= 1 && r == MultiState(m.initialVersion, m.version, r.trees)
    && Sorted(r.trees) && multiset(r.trees) == multiset(m.trees + EmptyStores(names, next))
  }

  lemma {:induction false} AddSteps(trees: Stores, names: seq<Bytes>, next: nat)
    requires next >= 1
    ensures UpgradeSteps(trees, AddStores(names), next) == Some(trees + EmptyStores(names, next))
    decreases |names|
  {
    if names == [] {
      assert trees + EmptyStores(names, next) == trees;
    } else {
      var n := |names| - 1;
      AddSteps(trees, names[..n], next);
      assert AddStores(names)[..n] == AddStores(names[..n]) && AddStores(names)[n] == Upgrade(names[n], [], false);
      assert NewTree(next) == TreeState(next - 1, None);
      assert EmptyStores(names, next) == EmptyStores(names[..n], next) + [Named(names[n], NewTree(next))];
      assert trees + EmptyStores(names[..n], next) + [Named(names[n], NewTree(next))] == trees + EmptyStores(names, next);
    }
  }

  lemma NamesStayDistinct(trees: Stores, names: seq<Bytes>, next: nat)
    requires next >= 1 && NoDuplicates(trees)
    ensures NoDuplicates(trees + EmptyStores(names, next)) <==>
      Distinct(names) && forall i :: 0 <= i < |names| ==> !HasName(trees, names[i])
  {
    hide Find;
    var n, all := |trees|, trees + EmptyStores(names, next);
    if i :| 0 <= i < |names| && HasName(trees, names[i]) {
      assert all[Find(trees, names[i])].name == all[n + i].name;
    } else if i, j :| 0 <= i < j < |names| && names[i] == names[j] {
      assert all[n + i].name == all[n + j].name;
    } else {
      forall i, j | 0 <= i < j < |all| ensures all[i].name != all[j].name {
        if i < n <= j { Unnamed(trees, names[j - n], i); }
      }
    }
  }

  lemma Unnamed(trees: Stores, name: Bytes, i: nat)
    requires !HasName(trees, name) && i < |trees|
    ensures trees[i].name != name
  {}

  /** Adding stores succeeds exactly when the names are distinct and new, and then adds exactly these, each empty and in
      step with the others. The upgrades as a log entry replay to the same. */
  lemma AddsExactly(m: MultiState, names: seq<Bytes>)
    requires ValidMulti(m)
    ensures var r := ApplyUpgrades(m, AddStores(names));
      && (r.Some? <==> Distinct(names) && forall i :: 0 <= i < |names| ==> !HasName(m.trees, names[i]))
      && (r.Some? ==> HasAdded(m, names, r.value) && ValidMulti(r.value))
      && (r.Some? ==> ApplyEntry(m, WalEntry(AddStores(names), [])) == r)
  {
    hide SortByName;
    hide HasName;
    hide InStep;
    var next := NextVersion(m.version, m.initialVersion);
    SortedHasNoDuplicates(m.trees);
    AddSteps(m.trees, names, next);
    NamesStayDistinct(m.trees, names, next);
    var raw := m.trees + EmptyStores(names, next);
    SortByNameSorts(raw);
    if NoDuplicates(raw) { NoDuplicatesPermutes(raw, SortByName(raw)); }
    if NoDuplicates(SortByName(raw)) {
      NoDuplicatesPermutes(SortByName(raw), raw);
      SortedWithoutDuplicates(SortByName(raw));
    }
    UpgradesKeepValid(m, AddStores(names));
    if names == [] { assert m.trees + EmptyStores([], next) == m.trees; }
  }

  ghost function Empties(names: seq<Bytes>): map<Bytes, PlainStore> {
    map name | name in names :: map[]
  }

  /** On plain maps: the new names are there with nothing in them, and the other stores are as they were. */
  lemma AddedAreEmpty(m: MultiState, names: seq<Bytes>, r: MultiState)
    requires ValidMulti(m) && HasAdded(m, names, r)
    ensures StoreMap(r.trees) == StoreMap(m.trees) + Empties(names)
  {
    hide StoreMap;
    hide Less;
    hide InStep;
    var next := NextVersion(m.version, m.initialVersion);
    SortedHasNoDuplicates(r.trees);
    SameStoreMap(r.trees, m.trees + EmptyStores(names, next));
    AppendedMap(m.trees, names, next);
  }

  lemma {:induction false} AppendedMap(trees: Stores, names: seq<Bytes>, next: nat)
    requires next >= 1
    ensures StoreMap(trees + EmptyStores(names, next)) == StoreMap(trees) + Empties(names)
    decreases |names|
  {
    hide StoreMap;
    if names == [] {
      assert trees + EmptyStores(names, next) == trees;
      assert Empties(names) == map[];
    } else {
      var n := |names| - 1;
      AppendedMap(trees, names[..n], next);
      var x := Named(names[n], TreeState(next - 1, None));
      assert trees + EmptyStores(names, next) == trees + EmptyStores(names[..n], next) + [x];
      AddIsPlain(trees + EmptyStores(names[..n], next), x);
      EmptiesGrow(names);
      hide Empties;
      MergeUpdates(StoreMap(trees), Empties(names[..n]), names[n], map[]);
    }
  }

  lemma EmptiesGrow(names: seq<Bytes>)
    requires names != []
    ensures var n := |names| - 1; Empties(names) == Empties(names[..n])[names[n] := map[]]
  {
    var n := |names| - 1;
    assert names == names[..n] + [names[n]];
  }
}
