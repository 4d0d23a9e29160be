/** Store upgrades given in several calls are logged as one list and replayed in one go. */
module UpgradeBatches {
  import opened Bytes
  import opened TreeStates
  import opened MultiTrees

  /** No upgrade of `us` gives a store a name that another store has at that moment. */
  ghost predicate ConflictFree(trees: Stores, us: seq<Upgrade>, next: nat) {
    && (us != [] ==> ConflictFree(trees, us[..|us| - 1], next))
    && var r := UpgradeSteps(trees, us, next); r.Some? ==> NoDuplicates(r.value)
  }

  lemma NamesArePermuted<T>(xs: seq<Named<T>>, ys: seq<Named<T>>, name: Bytes)
    requires multiset(xs) == multiset(ys) && NoDuplicates(xs)
    ensures |xs| == |ys|
    ensures var i, j := Find(xs, name), Find(ys, name); (i < |xs| <==> j < |ys|) && (i < |xs| ==> xs[i] == ys[j])
  {
    assert |xs| == |multiset(xs)| && |ys| == |multiset(ys)|;
    var i, j := Find(xs, name), Find(ys, name);
    if i < |xs| {
      assert xs[i] in multiset(ys);
      MemberIsFound(ys, xs[i]);
    }
    if j < |ys| {
      assert ys[j] in multiset(xs);
      MemberIsFound(xs, ys[j]);
      var l :| 0 <= l < |xs| && xs[l] == ys[j];
    }
  }

  lemma MemberIsFound<T>(xs: seq<Named<T>>, x: Named<T>)
    requires x in xs
    ensures Find(xs, x.name) < |xs|
  {
    var k :| 0 <= k < |xs| && xs[k] == x;
  }

  lemma AddedThenTaken<T>(a: multiset<T>, x: T)
    ensures a + multiset{x} - multiset{x} == a
  {}

  /** Replacing or dropping one entry, as a multiset. */
  lemma Replaced<T>(xs: seq<T>, i: nat, x: T)
    requires i < |xs|
    ensures multiset(xs[i := x]) == multiset(xs) - multiset{xs[i]} + multiset{x}
  {}

  lemma Dropped<T>(xs: seq<T>, i: nat)
    requires i < |xs|
    ensures multiset(xs[i := xs[|xs| - 1]][..|xs| - 1]) == multiset(xs) - multiset{xs[i]}
  {
    var n := |xs| - 1;
    var x, ys := xs[n], xs[i := xs[n]];
    assert ys == ys[..n] + [x];
    Replaced(xs, i, x);
    AddedThenTaken(multiset(ys[..n]), x);
    AddedThenTaken(multiset(xs) - multiset{xs[i]}, x);
  }

  /** The store that an upgrade deletes or renames. */
  function Picked(trees: Stores, u: Upgrade): Option<Named<TreeState>> {
    var name := if u.delete then u.name else u.renameFrom;
    var i := Find(trees, name);
    if i == |trees| || (!u.delete && (name == [] || name == u.name)) then None else Some(trees[i])
  }

  /** An upgrade succeeds on both arrangements of the stores or on neither, and the results are the same stores exactly
      when it picks the same one. */
  lemma StepPermuted(xs: Stores, ys: Stores, u: Upgrade, next: nat)
    requires multiset(xs) == multiset(ys)
    ensures var a, b := UpgradeStep(xs, u, next), UpgradeStep(ys, u, next);
      && (a.Some? <==> b.Some?)
      && (SameStores(a, b) <==> Picked(xs, u) == Picked(ys, u))
  {
    hide Find;
    var name := if u.delete then u.name else u.renameFrom;
    SameNames(xs, ys, name);
    SameNames(ys, xs, name);
    var i, j := Find(xs, name), Find(ys, name);
    if i < |xs| {
      if u.delete { DroppedBoth(xs, ys, i, j); } else { RenamedBoth(xs, ys, i, j, u.name); }
    }
  }

  lemma DroppedBoth(xs: Stores, ys: Stores, i: nat, j: nat)
    requires multiset(xs) == multiset(ys) && i < |xs| && j < |ys|
    ensures multiset(xs[i := xs[|xs| - 1]][..|xs| - 1]) == multiset(ys[j := ys[|ys| - 1]][..|ys| - 1])
      <==> xs[i] == ys[j]
  {
    Dropped(xs, i);
    Dropped(ys, j);
    assert xs[i] in multiset(xs) && ys[j] in multiset(ys);
    TakenDiffers(multiset(xs), xs[i], ys[j], xs[i], ys[j]);
  }

  lemma RenamedBoth(xs: Stores, ys: Stores, i: nat, j: nat, name: Bytes)
    requires multiset(xs) == multiset(ys) && i < |xs| && j < |ys| && xs[i].name == ys[j].name
    ensures multiset(xs[i := Named(name, xs[i].item)]) == multiset(ys[j := Named(name, ys[j].item)])
      <==> xs[i].name == name || xs[i] == ys[j]
  {
    var x, y := xs[i], ys[j];
    var x', y' := Named(name, x.item), Named(name, y.item);
    Replaced(xs, i, x');
    Replaced(ys, j, y');
    assert x in multiset(xs) && y in multiset(ys);
    if x.name == name {
      assert xs[i := x'] == xs && ys[j := y'] == ys;
    } else {
      TakenDiffers(multiset(xs), x, y, x', y');
    }
  }

  lemma SameNames(xs: Stores, ys: Stores, name: Bytes)
    requires multiset(xs) == multiset(ys)
    ensures |xs| == |ys| && (Find(xs, name) < |xs| ==> Find(ys, name) < |ys|)
  {
    assert |xs| == |multiset(xs)| && |ys| == |multiset(ys)|;
    var i := Find(xs, name);
    if i < |xs| {
      assert xs[i] in multiset(ys);
      MemberIsFound(ys, xs[i]);
    }
  }

  /** Taking out different elements leaves different multisets, also if other elements are put in for them. */
  lemma TakenDiffers<T>(m: multiset<T>, x: T, y: T, x': T, y': T)
    requires x in m && y in m
    ensures m - multiset{x} == m - multiset{y} <==> x == y
    ensures x' != x && x' != y && x' != y' ==> m - multiset{x} + multiset{x'} != m - multiset{y} + multiset{y'}
  {
    if x != y {
      assert (m - multiset{x})[x] == m[x] - 1 && (m - multiset{y})[x] == m[x];
    }
    if x' != x && x' != y && x' != y' {
      assert (m - multiset{x} + multiset{x'})[x'] == m[x'] + 1;
      assert (m - multiset{y} + multiset{y'})[x'] == m[x'];
    }
  }

  /** Each upgrade of the list picks the same store in both arrangements. */
  ghost predicate SamePicks(xs: Stores, ys: Stores, us: seq<Upgrade>, next: nat) {
    us != [] ==>
      var front, last := us[..|us| - 1], us[|us| - 1];
      var a, b := UpgradeSteps(xs, front, next), UpgradeSteps(ys, front, next);
      SamePicks(xs, ys, front, next) && (a.Some? && b.Some? ==> Picked(a.value, last) == Picked(b.value, last))
  }

  ghost predicate SameStores(a: Option<Stores>, b: Option<Stores>) {
    (a.Some? <==> b.Some?) && (a.Some? ==> multiset(a.value) == multiset(b.value))
  }

  /** After each upgrade of the list both arrangements have the same stores. */
  ghost predicate AgreeThroughout(xs: Stores, ys: Stores, us: seq<Upgrade>, next: nat) {
    && SameStores(UpgradeSteps(xs, us, next), UpgradeSteps(ys, us, next))
    && (us != [] ==> AgreeThroughout(xs, ys, us[..|us| - 1], next))
  }

  /** Running a list of upgrades on two arrangements of the same stores agrees throughout if and only if each upgrade
      picks the same store in both. */
  lemma {:induction false} StepsPermuted(xs: Stores, ys: Stores, us: seq<Upgrade>, next: nat)
    requires multiset(xs) == multiset(ys)
    ensures AgreeThroughout(xs, ys, us, next) <==> SamePicks(xs, ys, us, next)
    decreases |us|
  {
    hide UpgradeStep;
    if us != [] {
      var front, last := us[..|us| - 1], us[|us| - 1];
      StepsPermuted(xs, ys, front, next);
      var a, b := UpgradeSteps(xs, front, next), UpgradeSteps(ys, front, next);
      if AgreeThroughout(xs, ys, front, next) && a.Some? {
        StepPermuted(a.value, b.value, last, next);
      }
    }
  }

  /** Without a name in use the picks cannot differ. */
  lemma {:induction false} ConflictFreePicks(xs: Stores, ys: Stores, us: seq<Upgrade>, next: nat)
    requires multiset(xs) == multiset(ys) && ConflictFree(xs, us, next)
    ensures SamePicks(xs, ys, us, next)
    decreases |us|
  {
    hide UpgradeStep;
    if us != [] {
      var front, last := us[..|us| - 1], us[|us| - 1];
      ConflictFreePicks(xs, ys, front, next);
      StepsPermuted(xs, ys, front, next);
      var a, b := UpgradeSteps(xs, front, next), UpgradeSteps(ys, front, next);
      if a.Some? { NamesArePermuted(a.value, b.value, if last.delete then last.name else last.renameFrom); }
    }
  }

  lemma {:induction false} StepsSplit(trees: Stores, a: seq<Upgrade>, b: seq<Upgrade>, next: nat)
    requires UpgradeSteps(trees, a, next).Some?
    ensures UpgradeSteps(trees, a + b, next) == UpgradeSteps(UpgradeSteps(trees, a, next).value, b, next)
    decreases |b|
  {
    hide UpgradeStep;
    if b == [] {
      assert a + b == a;
    } else {
      assert (a + b)[..|a + b| - 1] == a + b[..|b| - 1];
      StepsSplit(trees, a, b[..|b| - 1], next);
    }
  }

  lemma PermutedHaveNoDuplicates<T>(xs: seq<Named<T>>, ys: seq<Named<T>>)
    requires multiset(xs) == multiset(ys) && Sorted(xs)
    ensures NoDuplicates(xs) && SortByName(ys) == xs && NoDuplicates(SortByName(ys))
  {
    hide Compare;
    LessIsTotalOrder();
    SortByNameSorts(ys);
    NoDuplicatesPermutes(xs, SortByName(ys));
    SortedWithoutDuplicates(SortByName(ys));
    SortedIsUnique(xs, SortByName(ys));
  }

  lemma NoDuplicatesPermutes<T>(xs: seq<Named<T>>, ys: seq<Named<T>>)
    requires multiset(xs) == multiset(ys) && NoDuplicates(xs)
    ensures NoDuplicates(ys)
  {
    forall i, j | 0 <= i < j < |ys| ensures ys[i].name != ys[j].name {
      if ys[i].name == ys[j].name {
        TwoOccurrences(xs, ys, i, j);
      }
    }
  }

  lemma TwoOccurrences<T>(xs: seq<Named<T>>, ys: seq<Named<T>>, i: nat, j: nat)
    requires multiset(xs) == multiset(ys) && i < j < |ys| && ys[i].name == ys[j].name
    ensures !NoDuplicates(xs)
  {
    assert ys[i] in multiset(xs) && ys[j] in multiset(xs);
    if ys[i] == ys[j] {
      Twice(ys, i, j);
      TwoPlaces(xs, ys[i]);
    } else {
      var k :| 0 <= k < |xs| && xs[k] == ys[i];
      var l :| 0 <= l < |xs| && xs[l] == ys[j];
    }
  }

  lemma Twice<T>(ys: seq<T>, i: nat, j: nat)
    requires i < j < |ys| && ys[i] == ys[j]
    ensures multiset(ys)[ys[i]] >= 2
  {
    assert ys == ys[..j] + [ys[j]] + ys[j + 1..];
    assert ys[i] in ys[..j];
  }

  lemma TwoPlaces<T>(xs: seq<T>, x: T)
    requires multiset(xs)[x] >= 2
    ensures exists k, l :: 0 <= k < l < |xs| && xs[k] == x && xs[l] == x
  {
    assert x in multiset(xs);
    var k :| 0 <= k < |xs| && xs[k] == x;
    assert xs == xs[..k] + [xs[k]] + xs[k + 1..];
    assert multiset(xs)[x] == multiset(xs[..k])[x] + 1 + multiset(xs[k + 1..])[x];
    if x in xs[..k] {
      var l :| 0 <= l < k && xs[l] == x;
    } else {
      assert x in xs[k + 1..];
      var l :| 0 <= l < |xs[k + 1..]| && xs[k + 1..][l] == x;
      assert xs[k + 1 + l] == x;
    }
  }

  /** The upgrades of the second call pick the same stores now, from the sorted ones, and in the replay, from those that
      the first call left unsorted. */
  ghost predicate PicksAgree(m: MultiState, a: seq<Upgrade>, b: seq<Upgrade>)
    requires ApplyUpgrades(m, a).Some?
  {
    var next := NextVersion(m.version, m.initialVersion);
    a == [] || SamePicks(ApplyUpgrades(m, a).value.trees, UpgradeSteps(m.trees, a, next).value, b, next)
  }

  lemma ConflictFreeAgrees(m: MultiState, a: seq<Upgrade>, b: seq<Upgrade>)
    requires ApplyUpgrades(m, a).Some?
    requires ConflictFree(ApplyUpgrades(m, a).value.trees, b, NextVersion(m.version, m.initialVersion))
    ensures PicksAgree(m, a, b)
  {
    hide UpgradeSteps;
    hide SortByName;
    hide SamePicks;
    hide ConflictFree;
    if a != [] {
      var next := NextVersion(m.version, m.initialVersion);
      var raw := UpgradeSteps(m.trees, a, next).value;
      SortByNameSorts(raw);
      ConflictFreePicks(SortByName(raw), raw, b, next);
    }
  }

  /** Two calls and their concatenation end in the same state. */
  lemma UpgradesCompose(m: MultiState, a: seq<Upgrade>, b: seq<Upgrade>)
    requires ValidMulti(m) && ApplyUpgrades(m, a).Some? && ApplyUpgrades(ApplyUpgrades(m, a).value, b).Some?
    requires PicksAgree(m, a, b)
    ensures ApplyUpgrades(m, a + b) == ApplyUpgrades(ApplyUpgrades(m, a).value, b)
  {
    hide UpgradeSteps;
    hide SortByName;
    hide InStep;
    hide Less;
    hide NextVersion;
    var next := NextVersion(m.version, m.initialVersion);
    var m1 := ApplyUpgrades(m, a).value;
    if a == [] {
      assert a + b == b;
    } else if b == [] {
      assert a + b == a;
    } else {
      var raw := UpgradeSteps(m.trees, a, next).value;
      SortByNameSorts(raw);
      StepsSplit(m.trees, a, b, next);
      StepsPermuted(m1.trees, raw, b, next);
      var x, y := UpgradeSteps(m1.trees, b, next).value, UpgradeSteps(raw, b, next).value;
      SortByNameSorts(x);
      SortedWithoutDuplicates(SortByName(x));
      PermutedHaveNoDuplicates(SortByName(x), y);
    }
  }

  // ----- Names in use -----

  lemma TwoSteps(trees: Stores, u: Upgrade, v: Upgrade, next: nat)
    requires UpgradeStep(trees, u, next).Some?
    ensures UpgradeSteps(trees, [u], next) == UpgradeStep(trees, u, next)
    ensures UpgradeSteps(trees, [u, v], next) == UpgradeStep(UpgradeStep(trees, u, next).value, v, next)
  {
    hide UpgradeStep;
    assert [u][..0] == [] && [u, v][..1] == [u];
    assert UpgradeSteps(trees, [], next) == Some(trees);
  }

  /** A second call that gives a store a name in use and then deletes by that name deletes one store at once and
      the other one on replay: adding `z` leaves the stores sorted now, but unsorted in the middle of the replay. */
  lemma NameInUseBreaksReplay(m: MultiState, z: Bytes)
    requires ValidMulti(m) && |m.trees| == 2 && Less(z, m.trees[0].name) && z != [] && m.trees[0].item.root.Some?
    ensures var a := m.trees[0].name;
      var first, second := [Upgrade(z, [], false)], [Upgrade(a, z, false), Upgrade(a, [], true)];
      var m1 := ApplyUpgrades(m, first);
      && m1.Some? && ApplyUpgrades(m1.value, second) == Some(m)
      && ApplyUpgrades(m, first + second).Some? && ApplyUpgrades(m, first + second) != Some(m)
  {
    hide *;
    var next := NextVersion(m.version, m.initialVersion);
    var x, y, n := m.trees[0], m.trees[1], Named(z, NewTree(next));
    var first, second := [Upgrade(z, [], false)], [Upgrade(x.name, z, false), Upgrade(x.name, [], true)];
    TwoStores(m, x, y);
    SortedThree(n, x, y);
    AddStep(m.trees, z, next);
    assert m.trees + [n] == [x, y, n];
    Outcome(m, first, [x, y, n], [n, x, y]);
    RenameDelete([n, x, y], z, x.name, 0, next);
    Outcome(m.(trees := [n, x, y]), second, [y, x], [x, y]);
    StepsSplit(m.trees, first, second, next);
    RenameDelete([x, y, n], z, x.name, 2, next);
    var w := Named(x.name, n.item);
    Outcome(m, first + second, [w, y], [w, y]);
    NewIsEmpty(next);
  }

  lemma TwoStores(m: MultiState, x: Named<TreeState>, y: Named<TreeState>)
    requires ValidMulti(m) && m.trees == [x, y]
    ensures Less(x.name, y.name)
  {
    assert Less(m.trees[0].name, m.trees[1].name);
  }

  lemma AddStep(trees: Stores, name: Bytes, next: nat)
    ensures UpgradeSteps(trees, [Upgrade(name, [], false)], next) == Some(trees + [Named(name, NewTree(next))])
  {
    TwoSteps(trees, Upgrade(name, [], false), Upgrade(name, [], false), next);
  }

  /** Upgrades whose steps end with `raw` end with its sorted arrangement. */
  lemma Outcome(m: MultiState, us: seq<Upgrade>, raw: Stores, sorted: Stores)
    requires us != [] && UpgradeSteps(m.trees, us, NextVersion(m.version, m.initialVersion)) == Some(raw)
    requires multiset(raw) == multiset(sorted) && Sorted(sorted)
    ensures ApplyUpgrades(m, us) == Some(m.(trees := sorted))
  {
    hide UpgradeSteps;
    hide Sorted;
    hide NoDuplicates;
    PermutedHaveNoDuplicates(sorted, raw);
  }

  /** Renaming the store at position `i` to `a` and then deleting `a`. */
  lemma RenameDelete(trees: Stores, z: Bytes, a: Bytes, i: nat, next: nat)
    requires i < |trees| == 3 && trees[i].name == z && z != [] && (forall j :: 0 <= j < i ==> trees[j].name != z)
    requires i > 0 ==> trees[0].name == a
    ensures var r := trees[i := Named(a, trees[i].item)];
      UpgradeSteps(trees, [Upgrade(a, z, false), Upgrade(a, [], true)], next) == Some([r[2], r[1]])
  {
    var r := trees[i := Named(a, trees[i].item)];
    FindAt(trees, z, i);
    FindAt(r, a, 0);
    TwoSteps(trees, Upgrade(a, z, false), Upgrade(a, [], true), next);
    assert r[0 := r[2]][..2] == [r[2], r[1]];
  }

  lemma SortedThree<T>(x: Named<T>, y: Named<T>, z: Named<T>)
    requires Less(x.name, y.name) && Less(y.name, z.name)
    ensures Sorted([x, y, z]) && x.name != y.name && x.name != z.name
    ensures forall w: Named<T> :: w.name == y.name ==> Sorted([w, z])
  {
    hide Compare;
    LessIsTotalOrder();
  }

  lemma NewIsEmpty(next: nat)
    ensures NewTree(next).root.None?
  {}

  lemma FindAt<T>(xs: seq<Named<T>>, name: Bytes, i: nat)
    requires i < |xs| && xs[i].name == name && forall j :: 0 <= j < i ==> xs[j].name != name
    ensures Find(xs, name) == i
  {}
}
