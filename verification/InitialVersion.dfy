/** `DB.SetInitialVersion`: a new directory is written over the old one, and the stores that are pending move along. */
module InitialVersions {
  import opened Bytes
  import opened AvlHeight
  import opened AvlCorrectness
  import opened MerkleHash
  import opened TreeStates
  import opened MultiTrees
  import opened PendingLog
  import opened UpgradeReplays
  import opened MultiSnapshots
  import opened Recovery
  import opened Disks
  import opened DiskSteps
  import opened Databases
  import opened DatabaseSafety

  /** The world after the call. */
  ghost function AfterSetting(sha: Sha, w: World, initialVersion: nat): World
    requires SetInitialVersion(w.db.live, initialVersion).Some?
  {
    var base := EmptyBase(initialVersion);
    World(w.db.(live := SetInitialVersion(w.db.live, initialVersion).value,
                disk := Relink(AddSnapshot(w.db.disk, 0, SaveFiles(sha, base)), 0)),
          History(base, []), w.orphans - {0})
  }

  // ----- Upgrades of an empty store -----

  /** The same names, each with a new tree. */
  function Renewed(trees: Stores, next: nat): (r: Stores)
    ensures |r| == |trees| && forall i :: 0 <= i < |trees| ==> r[i] == Named(trees[i].name, NewTree(next))
  {
    seq(|trees|, i requires 0 <= i < |trees| => Named(trees[i].name, NewTree(next)))
  }

  lemma RenewedStep(trees: Stores, u: Upgrade, m: nat, n: nat)
    requires trees == Renewed(trees, m)
    ensures var a, b := UpgradeStep(trees, u, m), UpgradeStep(Renewed(trees, n), u, n);
      && (a.Some? <==> b.Some?)
      && (a.Some? ==> a.value == Renewed(a.value, m) && b.value == Renewed(a.value, n))
  {
    hide NewTree;
    SameNamesFind(trees, Renewed(trees, n), Subject(u));
    var a, b := UpgradeStep(trees, u, m), UpgradeStep(Renewed(trees, n), u, n);
    if a.Some? {
      forall i | 0 <= i < |trees| ensures trees[i] == Named(trees[i].name, NewTree(m)) {
        assert trees[i] == Renewed(trees, m)[i];
      }
      assert a.value == Renewed(a.value, m);
      assert b.value == Renewed(a.value, n);
    }
  }

  lemma {:induction false} RenewedSteps(us: seq<Upgrade>, m: nat, n: nat)
    ensures var a, b := UpgradeSteps([], us, m), UpgradeSteps([], us, n);
      && (a.Some? <==> b.Some?)
      && (a.Some? ==> a.value == Renewed(a.value, m) && b.value == Renewed(a.value, n))
    decreases |us|
  {
    hide UpgradeStep;
    if us != [] {
      var front := us[..|us| - 1];
      RenewedSteps(front, m, n);
      var a := UpgradeSteps([], front, m);
      if a.Some? { RenewedStep(a.value, us[|us| - 1], m, n); }
    }
  }

  lemma {:induction false} RenewedInsert(xs: Stores, x: Named<TreeState>, n: nat)
    ensures Renewed(Insert(xs, x), n) == Insert(Renewed(xs, n), Named(x.name, NewTree(n)))
  {
    hide NewTree;
    if xs != [] && Less(x.name, xs[|xs| - 1].name) {
      RenewedInsert(xs[..|xs| - 1], x, n);
      assert Renewed(xs, n)[..|xs| - 1] == Renewed(xs[..|xs| - 1], n);
    }
  }

  lemma {:induction false} RenewedSort(xs: Stores, n: nat)
    ensures Renewed(SortByName(xs), n) == SortByName(Renewed(xs, n))
  {
    hide NewTree;
    hide Insert;
    if xs != [] {
      var front, last := xs[..|xs| - 1], xs[|xs| - 1];
      RenewedSort(front, n);
      RenewedInsert(SortByName(front), last, n);
      assert Renewed(xs, n)[..|xs| - 1] == Renewed(front, n);
    }
  }

  /** The upgrades of a new database give the same stores under any initial version, all of them empty. */
  lemma UpgradesRenewed(v: nat, v': nat, us: seq<Upgrade>)
    ensures var a, b := ApplyUpgrades(EmptyBase(v), us), ApplyUpgrades(EmptyBase(v'), us);
      && (a.Some? <==> b.Some?)
      && (a.Some? ==> a.value.trees == Renewed(a.value.trees, NextVersion(0, v)))
      && (a.Some? ==> b.value == MultiState(v', 0, Renewed(a.value.trees, NextVersion(0, v'))))
  {
    hide NewTree;
    hide UpgradeSteps;
    hide SortByName;
    hide NextVersion;
    var m, n := NextVersion(0, v), NextVersion(0, v');
    RenewedSteps(us, m, n);
    if us != [] && UpgradeSteps([], us, m).Some? {
      var raw := UpgradeSteps([], us, m).value;
      RenewedSort(raw, m);
      RenewedSort(raw, n);
      assert forall i, j :: 0 <= i < j < |raw| ==>
        SortByName(Renewed(raw, n))[i].name == SortByName(raw)[i].name
        && SortByName(Renewed(raw, n))[j].name == SortByName(raw)[j].name;
    }
  }

  // ----- Changes of empty trees -----

  /** If the pairs leave an empty tree empty, they do so at any version. */
  lemma StaysEmpty(m: nat, n: nat, pairs: ChangeSet)
    requires m >= 1 && n >= 1 && ChangedItem(NewTree(m), pairs).root.None?
    ensures ChangedItem(NewTree(m), pairs) == NewTree(m) && ChangedItem(NewTree(n), pairs) == NewTree(n)
  {
    hide ApplyPairs;
    hide RootContents;
    EmptyContents(m, pairs);
    EmptyContents(n, pairs);
  }

  lemma EmptyContents(m: nat, pairs: ChangeSet)
    requires m >= 1
    ensures var r := ChangedItem(NewTree(m), pairs);
      r.version == NewTree(m).version && (r.root.None? <==> Update(map[], pairs) == map[])
  {
    hide ApplyPairs;
    ApplyPairsCorrect(NewTree(m), pairs);
    var r := ApplyPairs(NewTree(m), pairs);
    if r.root.Some? { KeysNonEmpty(r.root.value); }
  }

  lemma ChangesRenewed(trees: Stores, css: ChangeSets, m: nat, n: nat)
    requires m >= 1 && n >= 1 && trees == Renewed(trees, m)
    requires forall i :: 0 <= i < |trees| ==> Changed(trees, css)[i].item.root.None?
    ensures Changed(trees, css) == trees && Changed(Renewed(trees, n), css) == Renewed(trees, n)
  {
    hide NewTree;
    hide ChangedItem;
    hide PairsFor;
    forall i | 0 <= i < |trees|
      ensures Changed(trees, css)[i] == trees[i] && Changed(Renewed(trees, n), css)[i] == Renewed(trees, n)[i]
    {
      assert trees[i] == Renewed(trees, m)[i];
      assert Changed(trees, css)[i].item == ChangedItem(NewTree(m), PairsFor(css, trees[i].name));
      StaysEmpty(m, n, PairsFor(css, trees[i].name));
    }
  }

  // ----- The pending log -----

  /** What is pending describes the stores under the new initial version too. */
  lemma PendingMoves(v: nat, v': nat, pending: WalEntry, live: MultiState)
    requires Describes(EmptyBase(v), pending, live) && SetInitialVersion(live, v').Some?
    requires live.trees == [] || v <= 1 || v' == v
    ensures Describes(EmptyBase(v'), pending, SetInitialVersion(live, v').value)
  {
    hide ApplyUpgrades;
    hide ApplyChangeSets;
    hide NewTree;
    hide Changed;
    hide Known;
    var m, n := NextVersion(0, v), NextVersion(0, v');
    UpgradesRenewed(v, v', pending.upgrades);
    UpgradesKeepValid(EmptyBase(v), pending.upgrades);
    UpgradesKeepValid(EmptyBase(v'), pending.upgrades);
    var a, b := ApplyUpgrades(EmptyBase(v), pending.upgrades).value, ApplyUpgrades(EmptyBase(v'), pending.upgrades).value;
    ChangedIsApplied(a, pending.changesets);
    ChangedIsApplied(b, pending.changesets);
    ChangesRenewed(a.trees, pending.changesets, m, n);
    SameKnown(a.trees, b.trees, pending.changesets);
    InitRenews(live, v, v');
  }

  lemma SameKnown(xs: Stores, ys: Stores, css: ChangeSets)
    requires |xs| == |ys| && forall i :: 0 <= i < |xs| ==> xs[i].name == ys[i].name
    ensures Known(xs, css) <==> Known(ys, css)
  {
    hide Find;
    forall i | 0 <= i < |css| ensures Find(xs, css[i].name) == Find(ys, css[i].name) {
      SameNamesFind(xs, ys, css[i].name);
    }
  }

  lemma InitRenews(live: MultiState, v: nat, v': nat)
    requires live == MultiState(v, 0, Renewed(live.trees, NextVersion(0, v))) && SetInitialVersion(live, v').Some?
    requires live.trees == [] || v <= 1 || v' == v
    ensures SetInitialVersion(live, v').value == MultiState(v', 0, Renewed(live.trees, NextVersion(0, v')))
  {
    forall i | 0 <= i < |live.trees| ensures live.trees[i].item == NewTree(NextVersion(0, v)) {
      assert live.trees[i] == Renewed(live.trees, NextVersion(0, v))[i];
    }
    assert InitTrees(live.trees, v') == Renewed(live.trees, NextVersion(0, v'));
  }

  // ----- The step -----

  /** A new database that has not committed anything. */
  ghost predicate Untouched(w: World, initialVersion: nat) {
    && w.h == History(EmptyBase(initialVersion), []) && w.db.disk.snapshots.Keys == {0}
    && w.db.rewrite.Idle? && w.db.pruning.NoPrune?
  }

  /** From a database without commits the step keeps the invariant if and only if no store is pending, or no initial
      version had been set, or the same is set again. */
  lemma SettingKeeps(sha: Sha, w: World, v: nat, v': nat)
    requires Inv(sha, w) && Untouched(w, v) && SetInitialVersion(w.db.live, v').Some? && v' + 1 < UINT32_LIMIT
    ensures Inv(sha, AfterSetting(sha, w, v')) <==> w.db.live.trees == [] || v <= 1 || v' == v
  {
    hide DiskOf;
    hide Describes;
    hide SaveFiles;
    hide SetInitialVersion;
    LiveFacts(sha, w);
    var w' := AfterSetting(sha, w, v');
    SetInitialVersionLockstep(w.db.live, v');
    if w.db.live.trees == [] || v <= 1 || v' == v {
      StartsEmpty(sha, w, v, v');
      PendingMoves(v, v', w.db.pending, w.db.live);
      At0(EmptyBase(v'));
      SettingIdle(sha, w, v, v');
    } else if Inv(sha, w') {
      LiveFacts(sha, w');
      SetKeepsVersion(w.db.live, v');
    }
  }

  lemma At0(base: MultiState)
    requires ValidHistory(History(base, []))
    ensures At(History(base, []), 0) == base
  {}

  lemma SetKeepsVersion(m: MultiState, v: nat)
    requires SetInitialVersion(m, v).Some?
    ensures |SetInitialVersion(m, v).value.trees| == |m.trees|
  {}

  /** The facts about the old directory, and that the new one belongs to the empty history. */
  lemma StartsEmpty(sha: Sha, w: World, v: nat, v': nat)
    requires Inv(sha, w) && Untouched(w, v) && SetInitialVersion(w.db.live, v').Some? && v' + 1 < UINT32_LIMIT
    ensures w.db.disk.wal == Wal(1, []) && w.db.queue == []
    ensures ValidHistory(History(EmptyBase(v'), []))
    ensures Describes(EmptyBase(v), w.db.pending, w.db.live)
    ensures DiskOf(sha, AfterSetting(sha, w, v').db.disk, History(EmptyBase(v'), []), w.orphans - {0})
  {
    hide Describes;
    hide SaveFiles;
    hide SetInitialVersion;
    hide Readable;
    hide DiskOf;
    DiskHistory(sha, w.db.disk, w.h, w.orphans);
    At0(EmptyBase(v));
    assert w.db.disk.wal == Wal(1, []);
    EmptyDisk(sha, AfterSetting(sha, w, v').db.disk, v', w.orphans - {0});
  }

  lemma EmptyDisk(sha: Sha, d: Disk, v: nat, orphans: set<nat>)
    requires v + 1 < UINT32_LIMIT && d == Disk(d.snapshots, 0, Wal(1, [])) && d.snapshots.Keys == {0}
    requires d.snapshots[0] == SaveFiles(sha, EmptyBase(v)) && 0 !in orphans
    ensures ValidHistory(History(EmptyBase(v), [])) && DiskOf(sha, d, History(EmptyBase(v), []), orphans)
  {
    hide SaveFiles;
    hide Readable;
    var h := History(EmptyBase(v), []);
    At0(EmptyBase(v));
    AddedIsReadable(sha, h, 0);
    assert Retained(sha, d, h, 0);
  }

  /** The rest of the invariant is about a log and a queue that are empty. */
  lemma SettingIdle(sha: Sha, w: World, v: nat, v': nat)
    requires Inv(sha, w) && Untouched(w, v) && SetInitialVersion(w.db.live, v').Some?
    requires w.db.disk.wal == Wal(1, []) && w.db.queue == [] && ValidHistory(History(EmptyBase(v'), []))
    ensures var w' := AfterSetting(sha, w, v');
      && Queued(w'.db, w'.h) && RewriteOk(w') && PruneOk(w'.db)
      && IndexOf(w'.h, w'.db.snapshotVersion) <= IndexOf(w'.h, w'.db.disk.current)
      && w'.db.snapshotVersion == VersionOf(w'.h, IndexOf(w'.h, w'.db.snapshotVersion))
  {
    hide DiskOf;
    hide Describes;
    hide SaveFiles;
    hide SetInitialVersion;
    DiskHistory(sha, w.db.disk, w.h, w.orphans);
  }
}
