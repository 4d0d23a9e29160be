/** All the stores of a chain together, as a value: named trees that share one version. */
module MultiTrees {
  import opened Bytes
  import opened AvlHeight
  import opened TreeStates

  /** `NamedTree` and `NamedChangeSet`. */
  datatype Named<T> = Named(name: Bytes, item: T)

  type Stores = seq<Named<TreeState>>

  type ChangeSets = seq<Named<ChangeSet>>

  datatype MultiState = MultiState(initialVersion: nat, version: nat, trees: Stores)

  datatype Upgrade = Upgrade(name: Bytes, renameFrom: Bytes, delete: bool)

  datatype WalEntry = WalEntry(upgrades: seq<Upgrade>, changesets: ChangeSets)

  const NO_CHANGES := WalEntry([], [])

  // ----- Versions and log indices -----

  function NextVersion(v: nat, initialVersion: nat): nat {
    if v == 0 && initialVersion > 1 then initialVersion else v + 1
  }

  /** `walIndex`, in `uint64` arithmetic. */
  function WalIndex(v: nat, initialVersion: nat): nat {
    if initialVersion > 1 then (v - initialVersion + 1) % UINT64_LIMIT else v % UINT64_LIMIT
  }

  /** `walVersion`. */
  function WalVersion(index: nat, initialVersion: nat): nat {
    if initialVersion > 1 then index + initialVersion - 1 else index
  }

  /** The two conversions are inverse wherever a version can have a log entry. */
  lemma WalIndexInverse(v: nat, index: nat, initialVersion: nat)
    requires v < UINT32_LIMIT && index < UINT32_LIMIT && initialVersion < UINT32_LIMIT
    ensures WalIndex(WalVersion(index, initialVersion), initialVersion) == index
    ensures WalVersion(WalIndex(v, initialVersion), initialVersion) == v <==> v + 1 >= initialVersion
  {}

  /** The first commit uses index 1, and each later commit the next index. */
  lemma CommitsUseConsecutiveIndices(v: nat, initialVersion: nat)
    requires v + 1 < UINT32_LIMIT && initialVersion < UINT32_LIMIT
    ensures WalIndex(NextVersion(0, initialVersion), initialVersion) == 1
    ensures v > 0 && v + 1 >= initialVersion ==>
      WalIndex(NextVersion(v, initialVersion), initialVersion) == WalIndex(v, initialVersion) + 1
  {}

  // ----- What every reachable state satisfies -----

  ghost predicate Sorted<T>(xs: seq<Named<T>>) {
    forall i, j :: 0 <= i < j < |xs| ==> Less(xs[i].name, xs[j].name)
  }

  /** Each tree will be saved at the version that the whole store will be saved at. */
  ghost predicate InStep(t: TreeState, next: nat) {
    WellFormedState(t) && t.version + 1 == next
  }

  ghost predicate Lockstep(trees: Stores, next: nat) {
    forall i :: 0 <= i < |trees| ==> InStep(trees[i].item, next)
  }

  ghost predicate ValidMulti(m: MultiState) {
    Sorted(m.trees) && Lockstep(m.trees, NextVersion(m.version, m.initialVersion))
  }

  /** No tree has working changes. */
  ghost predicate CleanMulti(m: MultiState) {
    ValidMulti(m) && forall i :: 0 <= i < |m.trees| ==> Clean(m.trees[i].item)
  }

  // ----- Finding and sorting -----

  /** The first position of a name, or the length. */
  function Find<T>(xs: seq<Named<T>>, name: Bytes): (i: nat)
    ensures i <= |xs| && (i < |xs| ==> xs[i].name == name)
    ensures forall j :: 0 <= j < i ==> xs[j].name != name
  {
    if xs == [] then 0 else if xs[0].name == name then 0 else 1 + Find(xs[1..], name)
  }

  predicate NoDuplicates<T>(xs: seq<Named<T>>) {
    forall i, j :: 0 <= i < j < |xs| ==> xs[i].name != xs[j].name
  }

  /** Inserts after every name that is not larger. */
  function Insert<T>(xs: seq<Named<T>>, x: Named<T>): (r: seq<Named<T>>)
    ensures |r| == |xs| + 1
  {
    if xs == [] then [x]
    else if Less(x.name, xs[|xs| - 1].name) then Insert(xs[..|xs| - 1], x) + [xs[|xs| - 1]]
    else xs + [x]
  }

  /** `sort.SliceStable` by name. */
  function SortByName<T>(xs: seq<Named<T>>): (r: seq<Named<T>>)
    ensures |r| == |xs|
  {
    if xs == [] then [] else Insert(SortByName(xs[..|xs| - 1]), xs[|xs| - 1])
  }

  ghost predicate WeaklySorted<T>(xs: seq<Named<T>>) {
    forall i, j :: 0 <= i < j < |xs| ==> !Less(xs[j].name, xs[i].name)
  }

  lemma {:induction false} InsertSorts<T>(xs: seq<Named<T>>, x: Named<T>)
    requires WeaklySorted(xs)
    ensures WeaklySorted(Insert(xs, x)) && multiset(Insert(xs, x)) == multiset(xs) + multiset{x}
  {
    hide Compare;
    if xs != [] {
      var last, front := xs[|xs| - 1], xs[..|xs| - 1];
      assert xs == front + [last];
      if Less(x.name, last.name) {
        InsertSorts(front, x);
        InsertBelow(front, x, last);
      } else {
        LessIsTotalOrder();
        forall i | 0 <= i < |xs| ensures !Less(x.name, xs[i].name) {}
      }
    }
  }

  lemma InsertBelow<T>(front: seq<Named<T>>, x: Named<T>, last: Named<T>)
    requires WeaklySorted(front + [last]) && WeaklySorted(Insert(front, x)) && Less(x.name, last.name)
    requires multiset(Insert(front, x)) == multiset(front) + multiset{x}
    ensures WeaklySorted(Insert(front, x) + [last])
  {
    hide Compare;
    hide Insert;
    LessIsTotalOrder();
    var r := Insert(front, x);
    forall i | 0 <= i < |r| ensures !Less(last.name, r[i].name) {
      assert r[i] in multiset(front) + multiset{x};
      if r[i] in front {
        var k :| 0 <= k < |front| && front[k] == r[i];
        assert (front + [last])[k] == r[i] && (front + [last])[|front|] == last;
      }
    }
  }

  lemma {:induction false} SortByNameSorts<T>(xs: seq<Named<T>>)
    ensures WeaklySorted(SortByName(xs)) && multiset(SortByName(xs)) == multiset(xs)
  {
    if xs != [] {
      var last, front := xs[|xs| - 1], xs[..|xs| - 1];
      assert xs == front + [last];
      SortByNameSorts(front);
      InsertSorts(SortByName(front), last);
    }
  }

  lemma SortedWithoutDuplicates<T>(xs: seq<Named<T>>)
    requires WeaklySorted(xs) && NoDuplicates(xs)
    ensures Sorted(xs)
  {
    hide Compare;
    LessIsTotalOrder();
  }

  lemma SortedHasNoDuplicates<T>(xs: seq<Named<T>>)
    requires Sorted(xs)
    ensures NoDuplicates(xs)
  {
    hide Compare;
    LessIsTotalOrder();
  }

  /** Sorting gives the same list for any two arrangements of the same distinct names. */
  lemma {:induction false} SortedIsUnique<T>(xs: seq<Named<T>>, ys: seq<Named<T>>)
    requires Sorted(xs) && Sorted(ys) && multiset(xs) == multiset(ys)
    ensures xs == ys
    decreases |xs|
  {
    hide Compare;
    assert |xs| == |multiset(xs)| && |ys| == |multiset(ys)|;
    if xs != [] {
      SameHead(xs, ys);
      assert xs == [xs[0]] + xs[1..] && ys == [ys[0]] + ys[1..];
      assert multiset(xs[1..]) == multiset(xs) - multiset{xs[0]};
      assert multiset(ys[1..]) == multiset(ys) - multiset{ys[0]};
      hide Less;
      SortedIsUnique(xs[1..], ys[1..]);
    }
  }

  lemma SameHead<T>(xs: seq<Named<T>>, ys: seq<Named<T>>)
    requires Sorted(xs) && Sorted(ys) && multiset(xs) == multiset(ys) && xs != [] && ys != []
    ensures xs[0] == ys[0]
  {
    hide Compare;
    assert xs[0] in multiset(ys) && ys[0] in multiset(xs);
    var j :| 0 <= j < |ys| && ys[j] == xs[0];
    var k :| 0 <= k < |xs| && xs[k] == ys[0];
    CompareFlips(xs[0].name, ys[0].name);
  }

  // ----- Store upgrades -----

  /** `NewWithInitialVersion`. */
  function NewTree(initialVersion: nat): TreeState {
    TreeState(if initialVersion <= 1 then 0 else initialVersion - 1, None)
  }

  /** One upgrade. Deleting moves the last tree into the gap. */
  function UpgradeStep(trees: Stores, u: Upgrade, next: nat): Option<Stores> {
    if u.delete then
      var i := Find(trees, u.name);
      if i == |trees| then None else Some(trees[i := trees[|trees| - 1]][..|trees| - 1])
    else if u.renameFrom != [] then
      var i := Find(trees, u.renameFrom);
      if i == |trees| then None else Some(trees[i := Named(u.name, trees[i].item)])
    else Some(trees + [Named(u.name, NewTree(next))])
  }

  function UpgradeSteps(trees: Stores, us: seq<Upgrade>, next: nat): Option<Stores> {
    if us == [] then Some(trees) else
    match UpgradeSteps(trees, us[..|us| - 1], next)
    case None => None
    case Some(ts) => UpgradeStep(ts, us[|us| - 1], next)
  }

  /** `ApplyUpgrades`; None is its error, after which the trees are not usable. */
  function ApplyUpgrades(m: MultiState, us: seq<Upgrade>): Option<MultiState> {
    if us == [] then Some(m) else
    match UpgradeSteps(m.trees, us, NextVersion(m.version, m.initialVersion))
    case None => None
    case Some(ts) =>
      var sorted := SortByName(ts);
      if NoDuplicates(sorted) then Some(m.(trees := sorted)) else None
  }

  lemma {:induction false} UpgradeStepsInStep(trees: Stores, us: seq<Upgrade>, next: nat)
    requires Lockstep(trees, next) && next >= 1
    ensures var r := UpgradeSteps(trees, us, next); r.Some? ==> Lockstep(r.value, next)
    decreases |us|
  {
    hide WellFormedState;
    if us != [] {
      UpgradeStepsInStep(trees, us[..|us| - 1], next);
      var r := UpgradeSteps(trees, us[..|us| - 1], next);
      assert InStep(NewTree(next), next) by { NewTreeInStep(next); }
    }
  }

  lemma NewTreeInStep(next: nat)
    requires next >= 1
    ensures InStep(NewTree(next), next)
  {}

  lemma LockstepPermutes(xs: Stores, ys: Stores, next: nat)
    requires Lockstep(xs, next) && multiset(xs) == multiset(ys)
    ensures Lockstep(ys, next)
  {
    hide WellFormedState;
    forall i | 0 <= i < |ys| ensures InStep(ys[i].item, next) {
      assert ys[i] in multiset(xs);
      assert ys[i] in xs;
    }
  }

  /** Upgrades keep the names sorted and distinct and the versions in lockstep. */
  lemma UpgradesKeepValid(m: MultiState, us: seq<Upgrade>)
    requires ValidMulti(m)
    ensures var r := ApplyUpgrades(m, us);
      r.Some? ==> ValidMulti(r.value) && r.value.version == m.version && r.value.initialVersion == m.initialVersion
  {
    hide Less;
    hide InStep;
    var next := NextVersion(m.version, m.initialVersion);
    UpgradeStepsInStep(m.trees, us, next);
    var r := UpgradeSteps(m.trees, us, next);
    if r.Some? {
      SortByNameSorts(r.value);
      LockstepPermutes(r.value, SortByName(r.value), next);
      if NoDuplicates(SortByName(r.value)) { SortedWithoutDuplicates(SortByName(r.value)); }
    }
  }

  // ----- Change sets -----

  /** `ApplyChangeSet`; None is the unknown-name error. */
  function ApplyChangeSet(m: MultiState, name: Bytes, pairs: ChangeSet): (r: Option<MultiState>)
    requires ValidMulti(m)
    ensures r.Some? ==> ValidMulti(r.value) && r.value.version == m.version && r.value.initialVersion == m.initialVersion
  {
    var i := Find(m.trees, name);
    if i == |m.trees| then None
    else
      assert InStep(m.trees[i].item, NextVersion(m.version, m.initialVersion));
      Some(m.(trees := m.trees[i := Named(name, ApplyPairs(m.trees[i].item, pairs))]))
  }

  /** `ApplyChangeSets`. */
  function ApplyChangeSets(m: MultiState, css: ChangeSets): (r: Option<MultiState>)
    requires ValidMulti(m)
    ensures r.Some? ==> ValidMulti(r.value) && r.value.version == m.version && r.value.initialVersion == m.initialVersion
  {
    if css == [] then Some(m) else
    match ApplyChangeSets(m, css[..|css| - 1])
    case None => None
    case Some(m') => ApplyChangeSet(m', css[|css| - 1].name, css[|css| - 1].item)
  }

  /** All the pairs for one store, in order. */
  function PairsFor(css: ChangeSets, name: Bytes): ChangeSet {
    if css == [] then [] else
    var last := css[|css| - 1];
    PairsFor(css[..|css| - 1], name) + if last.name == name then last.item else []
  }

  ghost predicate Known(trees: Stores, css: ChangeSets) {
    forall i :: 0 <= i < |css| ==> Find(trees, css[i].name) < |trees|
  }

  /** `r` is `m` with every store changed by its own pairs. */
  ghost predicate ChangedBy(m: MultiState, r: MultiState, css: ChangeSets)
    requires ValidMulti(m)
  {
    && |r.trees| == |m.trees| && r.version == m.version && r.initialVersion == m.initialVersion
    && forall i :: 0 <= i < |m.trees| ==>
         && InStep(m.trees[i].item, NextVersion(m.version, m.initialVersion))
         && r.trees[i] == Named(m.trees[i].name, ApplyPairs(m.trees[i].item, PairsFor(css, m.trees[i].name)))
  }

  /** Change sets to different stores do not interfere: the outcome is decided store by store. */
  lemma {:induction false} ChangeSetsByStore(m: MultiState, css: ChangeSets)
    requires ValidMulti(m)
    ensures ApplyChangeSets(m, css).Some? <==> Known(m.trees, css)
    ensures ApplyChangeSets(m, css).Some? ==> ChangedBy(m, ApplyChangeSets(m, css).value, css)
    decreases |css|
  {
    hide ApplyPairs;
    hide PairsFor;
    hide Find;
    hide InStep;
    hide Sorted;
    hide ChangedBy;
    if css == [] {
      NothingChanged(m);
    } else {
      var front, last := css[..|css| - 1], css[|css| - 1];
      ChangeSetsByStore(m, front);
      assert css == front + [last];
      if ApplyChangeSets(m, front).Some? {
        ChangeStep(m, ApplyChangeSets(m, front).value, front, last, css);
      }
    }
  }

  lemma NothingChanged(m: MultiState)
    requires ValidMulti(m)
    ensures ChangedBy(m, m, [])
  {
    hide WellFormedState;
  }

  lemma ChangeStep(m: MultiState, m': MultiState, front: ChangeSets, last: Named<ChangeSet>, css: ChangeSets)
    requires ValidMulti(m) && ValidMulti(m') && ChangedBy(m, m', front) && css == front + [last]
    ensures ApplyChangeSet(m', last.name, last.item).Some? <==> Find(m.trees, last.name) < |m.trees|
    ensures var r := ApplyChangeSet(m', last.name, last.item); r.Some? ==> ChangedBy(m, r.value, css)
  {
    SameNamesFind(m.trees, m'.trees, last.name);
    assert css[..|css| - 1] == front;
    var r := ApplyChangeSet(m', last.name, last.item);
    if r.Some? {
      forall i | 0 <= i < |m.trees| ensures r.value.trees[i]
        == Named(m.trees[i].name, ApplyPairs(m.trees[i].item, PairsFor(css, m.trees[i].name))) {
        var name := m.trees[i].name;
        if name == last.name {
          ApplyPairsSplit(m.trees[i].item, PairsFor(front, name), last.item);
        } else {
          assert PairsFor(css, name) == PairsFor(front, name);
        }
      }
    }
  }

  lemma {:induction false} SameNamesFind<T>(xs: seq<Named<T>>, ys: seq<Named<T>>, name: Bytes)
    requires |xs| == |ys| && forall i :: 0 <= i < |xs| ==> xs[i].name == ys[i].name
    ensures Find(xs, name) == Find(ys, name)
  {
    if xs != [] && xs[0].name != name {
      SameNamesFind(xs[1..], ys[1..], name);
    }
  }
}
