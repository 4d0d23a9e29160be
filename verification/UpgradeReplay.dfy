/** Store upgrades in a version that already has pending changes. The log keeps upgrades and change sets apart, and
    replay makes all the upgrades first. */
module UpgradeReplays {
  import opened Bytes
  import opened TreeStates
  import opened MultiTrees
  import opened UpgradeBatches
  import opened PendingLog

  predicate NamedIn(css: ChangeSets, name: Bytes) {
    exists i :: 0 <= i < |css| && css[i].name == name
  }

  /** The upgrade takes away a name that a pending change set uses. */
  predicate Touches(u: Upgrade, css: ChangeSets) {
    if u.delete then NamedIn(css, u.name)
    else u.renameFrom != [] && u.renameFrom != u.name && NamedIn(css, u.renameFrom)
  }

  /** The upgrade gives a store a name that the store did not have. */
  predicate Introduces(u: Upgrade) {
    !u.delete && (u.renameFrom == [] || u.renameFrom != u.name)
  }

  // ----- Change sets, store by store -----

  ghost function ChangedItem(t: TreeState, pairs: ChangeSet): TreeState {
    if WellFormedState(t) then ApplyPairs(t, pairs) else t
  }

  ghost function Changed(trees: Stores, css: ChangeSets): (r: Stores)
    ensures |r| == |trees|
    ensures forall i :: 0 <= i < |trees| ==>
      r[i] == Named(trees[i].name, ChangedItem(trees[i].item, PairsFor(css, trees[i].name)))
  {
    seq(|trees|, i requires 0 <= i < |trees| =>
      Named(trees[i].name, ChangedItem(trees[i].item, PairsFor(css, trees[i].name))))
  }

  lemma ChangedIsApplied(m: MultiState, css: ChangeSets)
    requires ValidMulti(m)
    ensures ApplyChangeSets(m, css) == if Known(m.trees, css) then Some(m.(trees := Changed(m.trees, css))) else None
  {
    hide PairsFor;
    hide ApplyPairs;
    hide WellFormedState;
    hide Sorted;
    ChangeSetsByStore(m, css);
    if Known(m.trees, css) {
      var r := ApplyChangeSets(m, css).value;
      assert r.trees == Changed(m.trees, css);
    }
  }

  lemma {:induction false} InsertChanged(xs: Stores, x: Named<TreeState>, css: ChangeSets)
    ensures Changed(Insert(xs, x), css) == Insert(Changed(xs, css), Changed([x], css)[0])
  {
    hide ChangedItem;
    if xs != [] && Less(x.name, xs[|xs| - 1].name) {
      var front, last := xs[..|xs| - 1], xs[|xs| - 1];
      InsertChanged(front, x, css);
      assert Changed(xs, css)[..|xs| - 1] == Changed(front, css);
    }
  }

  lemma {:induction false} SortChanged(xs: Stores, css: ChangeSets)
    ensures SortByName(Changed(xs, css)) == Changed(SortByName(xs), css)
  {
    hide ChangedItem;
    hide Insert;
    if xs != [] {
      var front, last := xs[..|xs| - 1], xs[|xs| - 1];
      assert Changed(xs, css)[..|xs| - 1] == Changed(front, css);
      SortChanged(front, css);
      InsertChanged(SortByName(front), last, css);
    }
  }

  // ----- One upgrade -----

  /** The name that the upgrade looks for. */
  function Subject(u: Upgrade): Bytes {
    if u.delete then u.name else u.renameFrom
  }

  /** An upgrade succeeds or fails by the names alone. */
  lemma SameOutcome(trees: Stores, u: Upgrade, next: nat, css: ChangeSets)
    ensures var a, b := UpgradeStep(trees, u, next), UpgradeStep(Changed(trees, css), u, next);
      && (a.Some? <==> b.Some?)
      && (a.Some? ==> |a.value| == |b.value| && forall i :: 0 <= i < |a.value| ==> a.value[i].name == b.value[i].name)
  {
    hide ChangedItem;
    SameNamesFind(trees, Changed(trees, css), Subject(u));
  }

  /** Upgrading and changing commute if no pending change set names a store that the upgrade introduces or takes away. */
  lemma StepChanged(trees: Stores, u: Upgrade, next: nat, css: ChangeSets)
    requires UpgradeStep(trees, u, next).Some? && !Touches(u, css)
    requires Introduces(u) ==> !NamedIn(css, u.name)
    ensures UpgradeStep(Changed(trees, css), u, next) == Some(Changed(UpgradeStep(trees, u, next).value, css))
  {
    hide ApplyPairs;
    hide PairsFor;
    hide Find;
    SameNamesFind(trees, Changed(trees, css), Subject(u));
    if Introduces(u) {
      NoPairs(css, u.name);
      if u.renameFrom != [] { NoPairs(css, u.renameFrom); }
    }
    if !u.delete && u.renameFrom == [] { Unchanged(NewTree(next)); }
    var a, b := UpgradeStep(trees, u, next).value, UpgradeStep(Changed(trees, css), u, next).value;
    var k := Find(trees, Subject(u));
    assert Subject(u) != [] || u.delete ==> trees[k].name == Subject(u);
    assert |a| == |b|;
    forall i | 0 <= i < |a| ensures b[i] == Changed(a, css)[i] {
      if u.delete {
        assert a[i] == if i == k then trees[|trees| - 1] else trees[i];
      } else if u.renameFrom != [] {
        assert a[i] == if i == k then Named(u.name, trees[i].item) else trees[i];
      } else {
        assert a[i] == if i == |trees| then Named(u.name, NewTree(next)) else trees[i];
      }
    }
    assert b == Changed(a, css);
  }

  lemma Unchanged(t: TreeState)
    ensures ChangedItem(t, []) == t
  {}

  lemma SingleUpgrade(m: MultiState, u: Upgrade)
    ensures var r := UpgradeStep(m.trees, u, NextVersion(m.version, m.initialVersion));
      ApplyUpgrades(m, [u]) ==
        if r.Some? && NoDuplicates(SortByName(r.value)) then Some(m.(trees := SortByName(r.value))) else None
  {
    hide UpgradeStep;
    assert [u][..0] == [];
    assert UpgradeSteps(m.trees, [], NextVersion(m.version, m.initialVersion)) == Some(m.trees);
  }

  /** Replaying one more upgrade of the log is the same as upgrading the replayed state. */
  lemma UpgradeLogged(m: MultiState, us: seq<Upgrade>, u: Upgrade)
    requires ValidMulti(m) && ApplyUpgrades(m, us).Some? && ApplyUpgrades(ApplyUpgrades(m, us).value, [u]).Some?
    ensures ApplyUpgrades(m, us + [u]) == ApplyUpgrades(ApplyUpgrades(m, us).value, [u])
  {
    hide ApplyUpgrades;
    hide ValidMulti;
    UpgradesKeepValid(m, us);
    SingleIsConflictFree(ApplyUpgrades(m, us).value, u);
    ConflictFreeAgrees(m, us, [u]);
    UpgradesCompose(m, us, [u]);
  }

  lemma SingleIsConflictFree(m: MultiState, u: Upgrade)
    requires ValidMulti(m) && ApplyUpgrades(m, [u]).Some?
    ensures ConflictFree(m.trees, [u], NextVersion(m.version, m.initialVersion))
  {
    hide UpgradeStep;
    hide Sorted;
    hide NoDuplicates;
    var next := NextVersion(m.version, m.initialVersion);
    SortedHasNoDuplicates(m.trees);
    SingleUpgrade(m, u);
    assert [u][..0] == [];
    assert UpgradeSteps(m.trees, [], next) == Some(m.trees);
    var r := UpgradeStep(m.trees, u, next).value;
    SortByNameSorts(r);
    NoDuplicatesPermutes(SortByName(r), r);
  }

  /** The outcome for the stores: either both succeed alike, or the replay misses a name. */
  lemma UpgradeChanged(m: MultiState, live: MultiState, css: ChangeSets, u: Upgrade)
    requires ValidMulti(m) && ApplyChangeSets(m, css) == Some(live) && ApplyUpgrades(live, [u]).Some?
    ensures ApplyUpgrades(m, [u]).Some? && ValidMulti(ApplyUpgrades(m, [u]).value)
    ensures var r := ApplyChangeSets(ApplyUpgrades(m, [u]).value, css);
      if Touches(u, css) then r == None else r == ApplyUpgrades(live, [u])
  {
    hide ApplyChangeSets;
    hide ApplyUpgrades;
    hide UpgradeStep;
    hide ValidMulti;
    hide NoDuplicates;
    hide Touches;
    hide Known;
    hide Changed;
    var next := NextVersion(m.version, m.initialVersion);
    ChangedIsApplied(m, css);
    SingleUpgrade(m, u);
    SingleUpgrade(live, u);
    SameOutcome(m.trees, u, next, css);
    var a, b := UpgradeStep(m.trees, u, next).value, UpgradeStep(live.trees, u, next).value;
    DistinctBoth(a, b);
    UpgradesKeepValid(m, [u]);
    var m' := ApplyUpgrades(m, [u]).value;
    ChangedIsApplied(m', css);
    NamesOfUpgraded(m, u, css);
    if !Touches(u, css) {
      StepChanged(m.trees, u, next, css);
      SortChanged(a, css);
    }
  }

  lemma DistinctBoth(a: Stores, b: Stores)
    requires |a| == |b| && forall i :: 0 <= i < |a| ==> a[i].name == b[i].name
    ensures NoDuplicates(SortByName(a)) <==> NoDuplicates(SortByName(b))
  {
    hide SortByName;
    SortByNameSorts(a);
    SortByNameSorts(b);
    if NoDuplicates(SortByName(a)) {
      NoDuplicatesPermutes(SortByName(a), a);
      NoDuplicatesPermutes(b, SortByName(b));
    } else if NoDuplicates(SortByName(b)) {
      NoDuplicatesPermutes(SortByName(b), b);
      NoDuplicatesPermutes(a, SortByName(a));
    }
  }

  /** Which of the names that pending change sets use are left after the upgrade. */
  lemma NamesOfUpgraded(m: MultiState, u: Upgrade, css: ChangeSets)
    requires ValidMulti(m) && Known(m.trees, css) && ApplyUpgrades(m, [u]).Some?
    ensures Known(ApplyUpgrades(m, [u]).value.trees, css) <==> !Touches(u, css)
    ensures Introduces(u) ==> !NamedIn(css, u.name)
  {
    hide ApplyUpgrades;
    hide ValidMulti;
    hide Find;
    var trees := ApplyUpgrades(m, [u]).value.trees;
    UpgradedNames(m, u, u.name);
    if Touches(u, css) {
      UpgradedNames(m, u, Subject(u));
      var i :| 0 <= i < |css| && css[i].name == Subject(u);
      assert !HasName(trees, css[i].name);
    } else {
      forall i | 0 <= i < |css| ensures Find(trees, css[i].name) < |trees| {
        UpgradedNames(m, u, css[i].name);
        assert HasName(m.trees, css[i].name);
      }
    }
  }

  lemma UpgradedNames(m: MultiState, u: Upgrade, name: Bytes)
    requires ValidMulti(m) && ApplyUpgrades(m, [u]).Some?
    ensures HasName(ApplyUpgrades(m, [u]).value.trees, name) == NameLeft(m.trees, u, name)
    ensures Introduces(u) ==> !HasName(m.trees, u.name)
  {
    hide UpgradeStep;
    hide ApplyUpgrades;
    hide Sorted;
    hide NoDuplicates;
    hide NameLeft;
    var next := NextVersion(m.version, m.initialVersion);
    SortedHasNoDuplicates(m.trees);
    SingleUpgrade(m, u);
    var raw := UpgradeStep(m.trees, u, next).value;
    SortByNameSorts(raw);
    NoDuplicatesPermutes(SortByName(raw), raw);
    NamesArePermuted(raw, SortByName(raw), name);
    StepNames(m.trees, u, next, name);
    StepNamesNew(m.trees, u, next);
  }

  predicate HasName(trees: Stores, name: Bytes) {
    Find(trees, name) < |trees|
  }

  /** Whether a name is there after the upgrade. */
  predicate NameLeft(trees: Stores, u: Upgrade, name: Bytes) {
    if u.delete then name != u.name && HasName(trees, name)
    else name == u.name || (HasName(trees, name) && (u.renameFrom == [] || name != u.renameFrom))
  }

  lemma StepNames(trees: Stores, u: Upgrade, next: nat, name: Bytes)
    requires NoDuplicates(trees) && UpgradeStep(trees, u, next).Some?
    ensures HasName(UpgradeStep(trees, u, next).value, name) == NameLeft(trees, u, name)
  {
    hide Find;
    var r := UpgradeStep(trees, u, next).value;
    var k, n := Find(trees, name), |trees|;
    var i := Find(trees, Subject(u));
    if NameLeft(trees, u, name) {
      if !u.delete && name == u.name {
        assert if u.renameFrom == [] then r[n].name == name else r[i].name == name;
      } else if u.delete && k == n - 1 {
        assert r[i].name == name;
      } else {
        assert r[k].name == name;
      }
    } else {
      forall j | 0 <= j < |r| ensures r[j].name != name {
        assert j < n ==> r[j] == trees[j] || (j == i && (r[j] == trees[n - 1] || r[j].name == u.name));
      }
    }
  }

  /** A name that is given by the upgrade was not there before. */
  lemma StepNamesNew(trees: Stores, u: Upgrade, next: nat)
    requires UpgradeStep(trees, u, next).Some?
    ensures Introduces(u) && HasName(trees, u.name) ==> !NoDuplicates(UpgradeStep(trees, u, next).value)
  {
    hide Find;
    if Introduces(u) && HasName(trees, u.name) {
      var r, k := UpgradeStep(trees, u, next).value, Find(trees, u.name);
      var i := if u.renameFrom == [] then |trees| else Find(trees, u.renameFrom);
      assert r[k].name == r[i].name && k != i;
    }
  }

  // ----- The pending log -----

  /** One more upgrade is replayed exactly if and only if it takes away no name that a pending change set uses. */
  lemma UpgradeIsFaithful(base: MultiState, pending: WalEntry, live: MultiState, u: Upgrade)
    requires Describes(base, pending, live) && ApplyUpgrades(live, [u]).Some?
    ensures Describes(base, pending.(upgrades := pending.upgrades + [u]), ApplyUpgrades(live, [u]).value)
      <==> !Touches(u, pending.changesets)
  {
    hide ApplyUpgrades;
    hide ApplyChangeSets;
    hide ValidMulti;
    hide Touches;
    UpgradesKeepValid(base, pending.upgrades);
    var m := ApplyUpgrades(base, pending.upgrades).value;
    UpgradeChanged(m, live, pending.changesets, u);
    UpgradeLogged(base, pending.upgrades, u);
  }

  /** When a call with several upgrades may be made: first, or after other upgrades if both pick the same stores, or if
      no name is given while in use and none of the upgrades takes away a name that a pending change set uses. */
  ghost predicate Upgradable(base: MultiState, pending: WalEntry, live: MultiState, us: seq<Upgrade>) {
    || pending == NO_CHANGES
    || (&& pending.changesets == [] && ApplyUpgrades(base, pending.upgrades) == Some(live)
        && PicksAgree(base, pending.upgrades, us))
    || (&& ConflictFree(live.trees, us, NextVersion(live.version, live.initialVersion))
        && forall i :: 0 <= i < |us| ==> !Touches(us[i], pending.changesets))
  }

  lemma UpgradesDescribed(base: MultiState, pending: WalEntry, live: MultiState, us: seq<Upgrade>)
    requires Describes(base, pending, live) && ApplyUpgrades(live, us).Some? && Upgradable(base, pending, live, us)
    ensures Describes(base, pending.(upgrades := pending.upgrades + us), ApplyUpgrades(live, us).value)
  {
    hide ApplyUpgrades;
    hide ValidMulti;
    hide ConflictFree;
    hide PicksAgree;
    hide Touches;
    if pending == NO_CHANGES {
      NoUpgrades(base);
      assert [] + us == us;
      UpgradesKeepValid(live, us);
    } else if pending.changesets == [] && ApplyUpgrades(base, pending.upgrades) == Some(live)
              && PicksAgree(base, pending.upgrades, us) {
      UpgradesCompose(base, pending.upgrades, us);
      UpgradesKeepValid(base, pending.upgrades + us);
    } else {
      UpgradesOneByOne(base, pending, live, us);
    }
  }

  lemma NoUpgrades(m: MultiState)
    ensures ApplyUpgrades(m, []) == Some(m)
  {}

  lemma {:induction false} UpgradesOneByOne(base: MultiState, pending: WalEntry, live: MultiState, us: seq<Upgrade>)
    requires Describes(base, pending, live) && ApplyUpgrades(live, us).Some?
    requires ConflictFree(live.trees, us, NextVersion(live.version, live.initialVersion))
    requires forall i :: 0 <= i < |us| ==> !Touches(us[i], pending.changesets)
    ensures Describes(base, pending.(upgrades := pending.upgrades + us), ApplyUpgrades(live, us).value)
    decreases |us|
  {
    hide ApplyUpgrades;
    hide ApplyEntry;
    hide ValidMulti;
    hide ConflictFree;
    hide Touches;
    if us == [] {
      NoUpgrades(live);
      assert pending.upgrades + us == pending.upgrades;
    } else {
      var front, last := us[..|us| - 1], us[|us| - 1];
      assert us == front + [last];
      DescribedIsValid(base, pending, live);
      LastUpgrade(live, front, last);
      UpgradesOneByOne(base, pending, live, front);
      var pending1 := pending.(upgrades := pending.upgrades + front);
      UpgradeIsFaithful(base, pending1, ApplyUpgrades(live, front).value, last);
      assert pending.upgrades + front + [last] == pending.upgrades + us;
    }
  }

  lemma DescribedIsValid(base: MultiState, pending: WalEntry, live: MultiState)
    requires Describes(base, pending, live)
    ensures ValidMulti(live)
  {}

  /** A list of upgrades without conflicts can be given one by one. */
  lemma LastUpgrade(m: MultiState, front: seq<Upgrade>, last: Upgrade)
    requires ValidMulti(m) && ApplyUpgrades(m, front + [last]).Some?
    requires ConflictFree(m.trees, front + [last], NextVersion(m.version, m.initialVersion))
    ensures ConflictFree(m.trees, front, NextVersion(m.version, m.initialVersion))
    ensures ApplyUpgrades(m, front).Some?
    ensures ApplyUpgrades(ApplyUpgrades(m, front).value, [last]) == ApplyUpgrades(m, front + [last])
  {
    hide UpgradeStep;
    hide Sorted;
    hide NoDuplicates;
    var next := NextVersion(m.version, m.initialVersion);
    var us := front + [last];
    assert us[..|us| - 1] == front && us[|us| - 1] == last;
    var raw := UpgradeSteps(m.trees, front, next).value;
    SortByNameSorts(raw);
    NoDuplicatesPermutes(raw, SortByName(raw));
    if front != [] {
      SingleUpgrade(m.(trees := SortByName(raw)), last);
      LastStep(raw, last, next);
    }
  }

  /** The last step from the sorted stores and from the unsorted ones. */
  lemma LastStep(raw: Stores, u: Upgrade, next: nat)
    requires NoDuplicates(raw) && UpgradeStep(raw, u, next).Some? && NoDuplicates(UpgradeStep(raw, u, next).value)
    ensures var a, b := UpgradeStep(SortByName(raw), u, next), UpgradeStep(raw, u, next).value;
      a.Some? && SortByName(a.value) == SortByName(b) && NoDuplicates(SortByName(b))
  {
    hide UpgradeStep;
    hide NoDuplicates;
    hide SortByName;
    SortByNameSorts(raw);
    NamesArePermuted(raw, SortByName(raw), Subject(u));
    StepPermuted(raw, SortByName(raw), u, next);
    var a, b := UpgradeStep(SortByName(raw), u, next).value, UpgradeStep(raw, u, next).value;
    SortByNameSorts(b);
    NoDuplicatesPermutes(b, SortByName(b));
    SortedWithoutDuplicates(SortByName(b));
    PermutedHaveNoDuplicates(SortByName(b), a);
  }
}
