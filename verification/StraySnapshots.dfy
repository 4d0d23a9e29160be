/** Stray snapshot directories: when a load leaves one behind, and what it does to later loads. */
module StraySnapshots {
  import opened Bytes
  import opened AvlHeight
  import opened MerkleHash
  import opened MultiTrees
  import UpgradeBatches
  import opened PendingLog
  import opened UpgradeReplays
  import opened MultiSnapshots
  import opened Recovery
  import opened Disks
  import opened DiskSteps
  import opened Databases
  import opened DatabaseSafety

  /** No snapshot directory is stray. */
  ghost predicate Tidy(w: World) {
    forall v :: v in w.db.disk.snapshots ==> v !in w.orphans
  }

  predicate IsLoad(a: Action) {
    a.Restart? || a.Overwrite? || a.Downgrade?
  }

  /** No snapshot directory is newer than the state that was loaded, as a listing of the directory shows. */
  predicate NothingNewer(w: World) {
    NewerThan(w.db.disk, w.db.live.version) == {}
  }

  /** No load of the run leaves a newer directory. */
  ghost predicate LoadsLeaveNothing(sha: Sha, w: World, as': seq<Action>)
    requires CanRun(sha, w, as')
    decreases |as'|
  {
    as' == [] || (var w' := Apply(sha, w, as'[0]);
                  (IsLoad(as'[0]) ==> NothingNewer(w')) && LoadsLeaveNothing(sha, w', as'[1..]))
  }

  // ----- When directories become stray -----

  /** From a tidy state a load leaves no stray directory exactly when nothing is newer than what it loaded, and no
      other step leaves one. */
  lemma StepKeepsTidy(sha: Sha, w: World, a: Action)
    requires Inv(sha, w) && Enabled(sha, w, a) && Tidy(w)
    ensures Careful(w, a)
    ensures var w' := Apply(sha, w, a); Tidy(w') <==> (IsLoad(a) ==> NothingNewer(w'))
  {
    hide Inv;
    if IsLoad(a) {
      LoadStrays(sha, w, a);
    } else {
      hide LoadFrom;
      hide LoadFiles;
      hide SaveFiles;
      hide CatchUp;
      hide Fits;
      hide ApplyEntry;
      hide ApplyUpgrades;
      hide SaveMulti;
      hide Upgradable;
      hide Mergeable;
    }
  }

  /** After a load the stray directories are the earlier ones and the newer ones. */
  lemma LoadStrays(sha: Sha, w: World, a: Action)
    requires Inv(sha, w) && Enabled(sha, w, a) && Careful(w, a) && IsLoad(a)
    ensures var w' := Apply(sha, w, a);
      w'.db.disk.snapshots.Keys <= w.db.disk.snapshots.Keys && w'.db.pending == NO_CHANGES
      && w'.orphans == w.orphans + NewerThan(w'.db.disk, w'.db.live.version)
  {
    hide DiskOf;
    hide At;
    hide ValidHistory;
    hide LoadFrom;
    hide Describes;
    hide WalIndex;
    hide Fits;
    hide Recovered;
    match a
    case Restart(keep) =>
      LoseTailKeeps(sha, w.db.disk, w.h, w.orphans, keep);
      ReloadKeeps(sha, w, w.db.disk.(wal := LoseTail(w.db.disk.wal, keep)));
    case Overwrite(target, v, left) =>
      OverwriteKeeps(sha, w, target, v, left);
    case Downgrade(target, v) =>
      MovedLinkIsExact(sha, w.db.disk, w.h, w.orphans, v);
      ReloadKeeps(sha, w, Relink(w.db.disk, v));
  }

  /** Over a whole run in which no load leaves a newer directory, nothing ever becomes stray. */
  lemma {:induction false} RunKeepsTidy(sha: Sha, w: World, as': seq<Action>)
    requires Inv(sha, w) && Tidy(w) && CanRun(sha, w, as') && LoadsLeaveNothing(sha, w, as')
    ensures CarefulRun(sha, w, as') && Inv(sha, Run(sha, w, as')) && Tidy(Run(sha, w, as'))
    decreases |as'|
  {
    hide Inv;
    hide Enabled;
    hide Apply;
    hide Tidy;
    if as' != [] {
      StepKeepsTidy(sha, w, as'[0]);
      StepKeeps(sha, w, as'[0]);
      RunKeepsTidy(sha, Apply(sha, w, as'[0]), as'[1..]);
    }
  }

  ghost predicate IsCommitted(h: History, m: MultiState)
    requires ValidHistory(h)
  {
    exists i :: 0 <= i <= |h.log| && m == At(h, i)
  }

  /** Loading target `target` from snapshot `v`, and rolling back to it, do what the history says. */
  ghost predicate TargetIsExact(d: Disk, h: History, target: nat, v: nat)
    requires ValidHistory(h)
  {
    var iv := h.base.initialVersion;
    var r, i, loadable := LoadFrom(d, v, target), IndexOf(h, target), Loadable(d.wal, iv, v, target);
    && (r.Some? && r.value.version == target <==> loadable)
    && (loadable ==> i <= |h.log| && r == Some(At(h, i)))
    && (r.Some? ==> IsCommitted(h, r.value))
    && forall left: set<nat> :: RollbackEnds(d, h, target, v, left)
  }

  /** Rolling back to the target gives its state, and a refusal leaves some committed state. */
  ghost predicate RollbackEnds(d: Disk, h: History, target: nat, v: nat, left: set<nat>)
    requires ValidHistory(h)
  {
    var iv := h.base.initialVersion;
    var r, i := Rollback(d, target, v, iv, left), WalIndex(target, iv);
    var m := LoadFrom(AfterRollback(d, target, v, iv, left), v, 0);
    && (r.Some? <==> d.wal.first <= i <= LastIndex(d.wal))
    && (r.Some? ==> i <= |h.log| && target == VersionOf(h, i) && m == Some(At(h, i)))
    && m.Some? && IsCommitted(h, m.value)
  }

  lemma SoughtIsExact(sha: Sha, d: Disk, h: History, orphans: set<nat>, target: nat, v: nat)
    requires DiskOf(sha, d, h, orphans) && 0 < target < UINT32_LIMIT && IsSought(d, target, v) && v !in orphans
    ensures ValidHistory(h) && TargetIsExact(d, h, target, v)
  {
    hide LoadFrom;
    hide DiskOf;
    hide At;
    hide Loadable;
    hide WalIndex;
    hide Recovered;
    DiskHistory(sha, d, h, orphans);
    LoadTargetIsExact(sha, d, h, orphans, target, v);
    forall left: set<nat> ensures RollbackEnds(d, h, target, v, left) {
      RollbackIsExact(sha, d, h, orphans, target, v, left);
      MovedLinkIsExact(sha, d, h, orphans, v);
    }
  }

  /** Every retained snapshot, in every reachable state: as long as no load left a directory newer than what it loaded,
      every target is loaded and rolled back to exactly. */
  lemma ReachableTargets(sha: Sha, base: MultiState, as': seq<Action>, target: nat, v: nat)
    requires ValidBase(base) && Fits(base) && base.initialVersion + 1 < UINT32_LIMIT && 0 < target < UINT32_LIMIT
    requires CanRun(sha, Genesis(sha, base), as') && LoadsLeaveNothing(sha, Genesis(sha, base), as')
    requires IsSought(Run(sha, Genesis(sha, base), as').db.disk, target, v)
    ensures var w := Run(sha, Genesis(sha, base), as');
      ValidHistory(w.h) && TargetIsExact(w.db.disk, w.h, target, v)
  {
    hide Apply;
    hide Enabled;
    hide DiskOf;
    hide LoadFrom;
    hide TargetIsExact;
    hide Describes;
    hide RewriteOk;
    GenesisIsOk(sha, base);
    RunKeepsTidy(sha, Genesis(sha, base), as');
    var w := Run(sha, Genesis(sha, base), as');
    SoughtIsExact(sha, w.db.disk, w.h, w.orphans, target, v);
  }

  // ----- What a stray directory does -----

  function Commits(n: nat): seq<Action> {
    seq(n, _ => Commit)
  }

  /** `n` more commits, with nothing else happening. */
  lemma {:induction false} CommitsRun(sha: Sha, w: World, n: nat)
    requires Inv(sha, w) && w.db.pending == NO_CHANGES && |w.h.log| + n + w.h.base.initialVersion + 1 < UINT32_LIMIT
    ensures CanRun(sha, w, Commits(n)) && CarefulRun(sha, w, Commits(n))
    ensures var w' := Run(sha, w, Commits(n)); Inv(sha, w') && Follows(w, w', n)
    decreases n
  {
    hide Inv;
    hide At;
    hide SaveMulti;
    hide WalIndex;
    hide Describes;
    if n > 0 {
      assert Commits(n)[0] == Commit && Commits(n)[1..] == Commits(n - 1);
      CommitFollows(sha, w);
      CommitsRun(sha, Apply(sha, w, Commit), n - 1);
    }
  }

  /** `w'` has `n` more commits than `w`, nothing pending, and the same directory. */
  ghost predicate Follows(w: World, w': World, n: nat) {
    && w'.db.disk == w.db.disk && w'.h.base == w.h.base && |w'.h.log| == |w.h.log| + n
    && w'.db.pending == NO_CHANGES
  }

  lemma CommitFollows(sha: Sha, w: World)
    requires Inv(sha, w) && |w.h.log| + w.h.base.initialVersion + 2 < UINT32_LIMIT
    ensures Enabled(sha, w, Commit) && Inv(sha, Apply(sha, w, Commit)) && Follows(w, Apply(sha, w, Commit), 1)
    ensures var w' := Apply(sha, w, Commit);
      && ValidHistory(w'.h) && w'.db.live == At(w'.h, |w'.h.log|) && |w'.db.live.trees| == |w.db.live.trees|
  {
    hide DiskOf;
    hide At;
    hide Describes;
    hide WalIndex;
    LiveFacts(sha, w);
    CommitKeeps(sha, w);
  }

  /** A name longer than every store name. */
  ghost function NewName(trees: Stores): (name: Bytes)
    ensures forall i :: 0 <= i < |trees| ==> |trees[i].name| < |name|
  {
    if trees == [] then [0] else
    var name, last := NewName(trees[..|trees| - 1]), trees[|trees| - 1].name;
    if |last| < |name| then name else last + [0]
  }

  function AddStore(name: Bytes): Upgrade {
    Upgrade(name, [], false)
  }

  lemma NewStoreFits(m: MultiState)
    requires ValidMulti(m)
    ensures var r := ApplyUpgrades(m, [AddStore(NewName(m.trees))]); r.Some? && |r.value.trees| == |m.trees| + 1
  {
    hide NewTree;
    hide InStep;
    var u, next := AddStore(NewName(m.trees)), NextVersion(m.version, m.initialVersion);
    SingleUpgrade(m, u);
    var raw := UpgradeStep(m.trees, u, next).value;
    SortedHasNoDuplicates(m.trees);
    assert NoDuplicates(raw);
    SortByNameSorts(raw);
    UpgradeBatches.NoDuplicatesPermutes(raw, SortByName(raw));
  }

  /** Adding a store and committing, from a state without pending changes. */
  lemma AddFollows(sha: Sha, w: World)
    requires Inv(sha, w) && w.db.pending == NO_CHANGES && |w.h.log| + w.h.base.initialVersion + 2 < UINT32_LIMIT
    ensures var a := UpgradeStores([AddStore(NewName(w.db.live.trees))]);
      && Enabled(sha, w, a) && Enabled(sha, Apply(sha, w, a), Commit)
      && var w' := Apply(sha, Apply(sha, w, a), Commit);
      && Inv(sha, w') && Follows(w, w', 1)
      && ValidHistory(w'.h) && w'.db.live == At(w'.h, |w'.h.log|) && |w'.db.live.trees| == |w.db.live.trees| + 1
  {
    hide Inv;
    hide At;
    hide Describes;
    hide WalIndex;
    hide ApplyUpgrades;
    hide SaveMulti;
    hide ValidHistory;
    LiveFacts(sha, w);
    NewStoreFits(w.db.live);
    var a := UpgradeStores([AddStore(NewName(w.db.live.trees))]);
    UpgradeKeeps(sha, w, a.us);
    CommitFollows(sha, Apply(sha, w, a));
  }

  lemma {:induction false} RunJoin(sha: Sha, w: World, a: seq<Action>, b: seq<Action>)
    requires CanRun(sha, w, a) && CanRun(sha, Run(sha, w, a), b)
    ensures CanRun(sha, w, a + b) && Run(sha, w, a + b) == Run(sha, Run(sha, w, a), b)
    decreases |a|
  {
    hide Enabled;
    hide Apply;
    if a == [] {
      assert a + b == b;
    } else {
      assert (a + b)[0] == a[0] && (a + b)[1..] == a[1..] + b;
      RunJoin(sha, Apply(sha, w, a[0]), a[1..], b);
    }
  }

  /** The next commit, with or without a new store. */
  function LastCommit(add: bool, name: Bytes): seq<Action> {
    if add then [UpgradeStores([AddStore(name)]), Commit] else [Commit]
  }

  lemma LastCommitRuns(sha: Sha, w: World, add: bool)
    requires Inv(sha, w) && w.db.pending == NO_CHANGES && |w.h.log| + w.h.base.initialVersion + 2 < UINT32_LIMIT
    ensures var as' := LastCommit(add, NewName(w.db.live.trees));
      && CanRun(sha, w, as')
      && var w' := Run(sha, w, as');
      && Inv(sha, w') && Follows(w, w', 1) && ValidHistory(w'.h)
      && |At(w'.h, |w'.h.log|).trees| == |w.db.live.trees| + if add then 1 else 0
  {
    hide Inv;
    hide At;
    hide Enabled;
    hide Apply;
    hide ValidHistory;
    var as' := LastCommit(add, NewName(w.db.live.trees));
    if add {
      AddFollows(sha, w);
      var w1 := Apply(sha, w, as'[0]);
      assert as'[1..] == [Commit] && [Commit][1..] == [];
      assert CanRun(sha, w1, [Commit]) && Run(sha, w1, [Commit]) == Apply(sha, w1, Commit);
    } else {
      CommitFollows(sha, w);
      assert as'[1..] == [];
      assert Run(sha, Apply(sha, w, Commit), []) == Apply(sha, w, Commit);
    }
  }

  predicate Uninterrupted(as': seq<Action>) {
    forall i :: 0 <= i < |as'| ==> !IsLoad(as'[i])
  }

  /** Rolling back to `t`, refused or not, and loading gives `m`, whatever part of the commits the log has. */
  ghost predicate RollbackGives(d: Disk, h: History, t: nat, m: Option<MultiState>, wal: Wal, left: set<nat>) {
    LastIndex(wal) <= |h.log| ==> LoadFrom(AfterRollback(d.(wal := wal), t, t, h.base.initialVersion, left), t, 0) == m
  }

  /** A run that commits its own version `t` while a directory of that name is stray. */
  ghost predicate Overtaken(d: Disk, h: History, t: nat) {
    && ValidHistory(h) && t in d.snapshots && 0 < t == VersionOf(h, |h.log|)
    && var m := LoadFrom(d, t, t);
    && m.Some? && m.value.version == t && !IsCommitted(h, m.value)
    && forall wal, left :: RollbackGives(d, h, t, m, wal, left)
  }

  /** If some directory is newer than the state just loaded, there is a run of commits after which `Load` silently
      gives a state of the right version that was never committed, and `LoadForOverwriting`, refused or not, makes that
      state the one every later plain `Load` starts from. */
  lemma NewerTakesOver(sha: Sha, w: World, t: nat) returns (as': seq<Action>)
    requires Inv(sha, w) && w.db.pending == NO_CHANGES && t in NewerThan(w.db.disk, w.db.live.version)
    ensures CanRun(sha, w, as') && Uninterrupted(as') && Overtaken(w.db.disk, Run(sha, w, as').h, t)
    ensures Run(sha, w, as').db.disk == w.db.disk
  {
    hide Inv;
    hide At;
    hide Describes;
    hide WalIndex;
    hide LoadFrom;
    hide Enabled;
    hide Apply;
    hide Overtaken;
    hide ValidHistory;
    StrayIndex(sha, w, t);
    var n, m := IndexOf(w.h, t) - |w.h.log| - 1, LoadFrom(w.db.disk, t, t).value;
    CommitsRun(sha, w, n);
    var w1 := Run(sha, w, Commits(n));
    var add := |m.trees| == |w1.db.live.trees|;
    var last := LastCommit(add, NewName(w1.db.live.trees));
    LastCommitRuns(sha, w1, add);
    RunJoin(sha, w, Commits(n), last);
    as' := Commits(n) + last;
    OvertakenAt(sha, w.db.disk, w.h, w.orphans, Run(sha, w, as').h, t);
  }

  lemma StrayIndex(sha: Sha, w: World, t: nat)
    requires Inv(sha, w) && t in NewerThan(w.db.disk, w.db.live.version)
    ensures IndexOf(w.h, t) > |w.h.log| && IndexOf(w.h, t) + w.h.base.initialVersion + 1 < UINT32_LIMIT
    ensures LoadFrom(w.db.disk, t, t).Some? && LoadFrom(w.db.disk, t, t).value.version == t
    ensures DiskOf(sha, w.db.disk, w.h, w.orphans)
  {
    hide DiskOf;
    hide At;
    hide Describes;
    hide WalIndex;
    hide LoadFrom;
    LiveFacts(sha, w);
    DiskHistory(sha, w.db.disk, w.h, w.orphans);
    AnySnapshotLoads(sha, w.db.disk, w.h, w.orphans, t, w.db.disk);
    IndexAfter(w.h, IndexOf(w.h, t), |w.h.log|);
  }

  lemma IndexAfter(h: History, i: nat, j: nat)
    requires ValidHistory(h) && j <= |h.log| && i + h.base.initialVersion < UINT32_LIMIT && VersionOf(h, i) > VersionOf(h, j)
    ensures i > j
  {
    hide After;
    hide CleanMulti;
    IndicesOrderVersions(h, i, j);
  }

  lemma OvertakenAt(sha: Sha, d: Disk, h: History, orphans: set<nat>, h': History, t: nat)
    requires DiskOf(sha, d, h, orphans) && t in d.snapshots && t > 0 && LoadFrom(d, t, t).Some?
    requires ValidHistory(h') && h'.base == h.base && |h'.log| == IndexOf(h, t) > |h.log|
    requires |LoadFrom(d, t, t).value.trees| != |At(h', |h'.log|).trees|
    ensures Overtaken(d, h', t)
  {
    hide DiskOf;
    hide At;
    hide LoadFrom;
    hide WalIndex;
    DiskHistory(sha, d, h, orphans);
    hide ValidHistory;
    AnySnapshotLoads(sha, d, h, orphans, t, d);
    var m := LoadFrom(d, t, t).value;
    forall wal: Wal, left: set<nat> | LastIndex(wal) <= |h'.log|
      ensures RollbackGives(d, h', t, Some(m), wal, left)
    {
      AnySnapshotLoads(sha, d, h, orphans, t, AfterRollback(d.(wal := wal), t, t, h'.base.initialVersion, left));
    }
    forall i | 0 <= i <= |h'.log| ensures m != At(h', i) {
      AtVersion(h', i);
      SameVersion(h', i, |h'.log|);
    }
  }

  // ----- How it happens -----

  /** The version of the next commit. */
  function NextCommit(w: World): nat {
    NextVersion(w.db.live.version, w.db.live.initialVersion)
  }

  /** A commit, a background rewrite up to the renaming, and a crash before the log had the commit. */
  function CrashDuringRewrite(w: World): seq<Action> {
    [Commit, Start, Rename, Restart(LastIndex(w.db.disk.wal))]
  }

  /** Such a crash leaves the directory of the lost version behind. */
  lemma CrashLeavesNewer(sha: Sha, w: World)
    requires Inv(sha, w) && w.db.pending == NO_CHANGES && w.db.rewrite.Idle?
    requires ValidMulti(w.db.live) && Fits(SaveMulti(w.db.live)) && NextCommit(w) !in w.db.disk.snapshots
    requires |w.h.log| + w.h.base.initialVersion + 2 < UINT32_LIMIT
    ensures CanRun(sha, w, CrashDuringRewrite(w))
    ensures var w' := Run(sha, w, CrashDuringRewrite(w));
      Inv(sha, w') && w'.db.pending == NO_CHANGES && NextCommit(w) in NewerThan(w'.db.disk, w'.db.live.version)
  {
    hide *;
    CommitFollows(sha, w);
    CommitStarts(sha, w);
    var w1 := Apply(sha, w, Commit);
    var w2 := Apply(sha, w1, Start);
    var w3, crash := Apply(sha, w2, Rename), Restart(LastIndex(w.db.disk.wal));
    CrashLosesCommit(sha, w, w3);
    FourSteps(sha, w, w1, w2, w3, crash);
    CrashRun(w);
  }

  lemma CrashRun(w: World)
    ensures CrashDuringRewrite(w) == [Commit, Start, Rename, Restart(LastIndex(w.db.disk.wal))]
  {}

  lemma OneMore(sha: Sha, w: World, a: Action, rest: seq<Action>)
    requires Enabled(sha, w, a) && CanRun(sha, Apply(sha, w, a), rest)
    ensures CanRun(sha, w, [a] + rest) && Run(sha, w, [a] + rest) == Run(sha, Apply(sha, w, a), rest)
  {
    hide Enabled;
    hide Apply;
    assert ([a] + rest)[1..] == rest;
  }

  lemma FourSteps(sha: Sha, w: World, w1: World, w2: World, w3: World, a: Action)
    requires Enabled(sha, w, Commit) && w1 == Apply(sha, w, Commit)
    requires Enabled(sha, w1, Start) && w2 == Apply(sha, w1, Start)
    requires Enabled(sha, w2, Rename) && w3 == Apply(sha, w2, Rename) && Enabled(sha, w3, a)
    ensures CanRun(sha, w, [Commit, Start, Rename, a])
    ensures Run(sha, w, [Commit, Start, Rename, a]) == Apply(sha, w3, a)
  {
    hide *;
    NoMore(sha, Apply(sha, w3, a));
    OneMore(sha, w3, a, []);
    OneMore(sha, w2, Rename, [a] + []);
    OneMore(sha, w1, Start, [Rename] + ([a] + []));
    OneMore(sha, w, Commit, [Start] + ([Rename] + ([a] + [])));
    assert [Commit] + ([Start] + ([Rename] + ([a] + []))) == [Commit, Start, Rename, a];
  }

  lemma NoMore(sha: Sha, w: World)
    ensures CanRun(sha, w, []) && Run(sha, w, []) == w
  {}

  /** The rewrite that follows the commit, up to the renaming. */
  lemma CommitStarts(sha: Sha, w: World)
    requires Inv(sha, w) && w.db.rewrite.Idle? && Enabled(sha, w, Commit) && Inv(sha, Apply(sha, w, Commit))
    requires Fits(SaveMulti(w.db.live)) && NextCommit(w) !in w.db.disk.snapshots
    ensures var w1 := Apply(sha, w, Commit);
      && Enabled(sha, w1, Start) && Enabled(sha, Apply(sha, w1, Start), Rename)
      && var w3 := Apply(sha, Apply(sha, w1, Start), Rename);
      && Inv(sha, w3) && w3.h.base == w.h.base && w3.h.log == w.h.log + [w.db.pending]
      && w3.db.disk.wal == w.db.disk.wal && w3.db.disk.current == w.db.disk.current
      && NextCommit(w) in w3.db.disk.snapshots
  {
    hide Inv;
    hide SaveFiles;
    hide Fits;
    hide WalIndex;
    hide ValidMulti;
    var w1 := Apply(sha, w, Commit);
    StartKeeps(sha, w1);
    RenameKeeps(sha, Apply(sha, w1, Start));
  }

  lemma CrashLosesCommit(sha: Sha, w: World, w3: World)
    requires Inv(sha, w) && Inv(sha, w3) && w3.h.base == w.h.base && w3.h.log == w.h.log + [w.db.pending]
    requires w3.db.disk.wal == w.db.disk.wal && w3.db.disk.current == w.db.disk.current
    requires NextCommit(w) in w3.db.disk.snapshots
    ensures var a := Restart(LastIndex(w.db.disk.wal));
      && Enabled(sha, w3, a) && Inv(sha, Apply(sha, w3, a)) && Apply(sha, w3, a).db.pending == NO_CHANGES
      && var w' := Apply(sha, w3, a);
      NextCommit(w) in NewerThan(w'.db.disk, w'.db.live.version)
  {
    hide Inv;
    hide At;
    hide ValidHistory;
    hide WalIndex;
    hide Reload;
    var d := w3.db.disk.(wal := LoseTail(w3.db.disk.wal, LastIndex(w.db.disk.wal)));
    RestartReloads(sha, w3);
    CutsBelow(sha, w, w3, d);
    ReloadKeeps(sha, w3, d);
    AtVersion(w3.h, Recovered(d, w3.h));
  }

  /** A crash that loses nothing of the log is a load of the same directory. */
  lemma RestartReloads(sha: Sha, w: World)
    requires Inv(sha, w)
    ensures var a := Restart(LastIndex(w.db.disk.wal));
      var d := w.db.disk.(wal := LoseTail(w.db.disk.wal, LastIndex(w.db.disk.wal)));
      && Enabled(sha, w, a) && Apply(sha, w, a) == Reload(w, d) && DiskOf(sha, d, w.h, w.orphans)
  {
    hide DiskOf;
    hide Describes;
    hide RewriteOk;
    hide Reload;
    LoseTailKeeps(sha, w.db.disk, w.h, w.orphans, LastIndex(w.db.disk.wal));
  }

  /** What the directory of `w3` recovers is not newer than what `w` had committed. */
  lemma CutsBelow(sha: Sha, w: World, w3: World, d: Disk)
    requires Inv(sha, w) && Inv(sha, w3) && w3.h.base == w.h.base && w3.h.log == w.h.log + [w.db.pending]
    requires d.wal == LoseTail(w.db.disk.wal, LastIndex(w.db.disk.wal)) && d.current == w.db.disk.current
    ensures Recovered(d, w3.h) <= |w3.h.log| && VersionOf(w3.h, Recovered(d, w3.h)) < NextCommit(w)
  {
    hide DiskOf;
    hide At;
    hide Describes;
    hide RewriteOk;
    hide ValidHistory;
    hide WalIndex;
    LiveFacts(sha, w);
    DiskHistory(sha, w.db.disk, w.h, w.orphans);
    VersionOrder(w.h, Recovered(d, w3.h), |w.h.log|);
  }

  /** From any quiescent state there is a run, with one crash, after which `Load` gives the lost commit under a version
      that has been committed again with other contents. */
  lemma LostCommitComesBack(sha: Sha, w: World) returns (as': seq<Action>)
    requires Inv(sha, w) && w.db.pending == NO_CHANGES && w.db.rewrite.Idle?
    requires ValidMulti(w.db.live) && Fits(SaveMulti(w.db.live)) && NextCommit(w) !in w.db.disk.snapshots
    requires |w.h.log| + w.h.base.initialVersion + 2 < UINT32_LIMIT
    ensures CanRun(sha, w, as') && var w' := Run(sha, w, as'); Overtaken(w'.db.disk, w'.h, NextCommit(w))
  {
    hide Inv;
    hide Overtaken;
    hide Enabled;
    hide Apply;
    var first := CrashDuringRewrite(w);
    CrashLeavesNewer(sha, w);
    var second := NewerTakesOver(sha, Run(sha, w, first), NextCommit(w));
    RunJoin(sha, w, first, second);
    as' := first + second;
  }

  // ----- The exact condition -----

  ghost predicate TargetsExact(w: World) {
    && ValidHistory(w.h)
    && forall target, v :: 0 < target < UINT32_LIMIT && IsSought(w.db.disk, target, v) ==>
         TargetIsExact(w.db.disk, w.h, target, v)
  }

  ghost predicate ExactAfter(sha: Sha, w: World, as': seq<Action>) {
    CanRun(sha, w, as') && Uninterrupted(as') ==> TargetsExact(Run(sha, w, as'))
  }

  /** After a load, with nothing stray from before it, every target stays exact in every run up to the next load if
      and only if the load left no directory newer than what it loaded. */
  lemma ExactUntilNextLoad(sha: Sha, w: World)
    requires Inv(sha, w) && w.db.pending == NO_CHANGES
    requires forall v :: v in w.db.disk.snapshots && v in w.orphans ==> v > w.db.live.version
    ensures NothingNewer(w) <==> forall as' :: ExactAfter(sha, w, as')
  {
    hide Inv;
    hide CanRun;
    hide Run;
    hide TargetsExact;
    if NothingNewer(w) {
      forall as' ensures ExactAfter(sha, w, as') {
        if CanRun(sha, w, as') && Uninterrupted(as') {
          UninterruptedIsTidy(sha, w, as');
          assert forall v :: v in w.db.disk.snapshots && v in w.orphans ==> v in NewerThan(w.db.disk, w.db.live.version);
          TidyIsExact(sha, w, as');
        }
      }
    } else {
      var t :| t in NewerThan(w.db.disk, w.db.live.version);
      var as' := NewerTakesOver(sha, w, t);
      OvertakenIsWrong(sha, w, as', t);
      assert !ExactAfter(sha, w, as');
    }
  }

  lemma {:induction false} UninterruptedIsTidy(sha: Sha, w: World, as': seq<Action>)
    requires CanRun(sha, w, as') && Uninterrupted(as')
    ensures LoadsLeaveNothing(sha, w, as')
    decreases |as'|
  {
    hide Enabled;
    hide Apply;
    if as' != [] {
      UninterruptedIsTidy(sha, Apply(sha, w, as'[0]), as'[1..]);
    }
  }

  lemma TidyIsExact(sha: Sha, w: World, as': seq<Action>)
    requires Inv(sha, w) && Tidy(w) && CanRun(sha, w, as') && LoadsLeaveNothing(sha, w, as')
    ensures TargetsExact(Run(sha, w, as'))
  {
    hide DiskOf;
    hide At;
    hide Describes;
    hide RewriteOk;
    hide TargetIsExact;
    hide Enabled;
    hide Apply;
    RunKeepsTidy(sha, w, as');
    var w' := Run(sha, w, as');
    DiskHistory(sha, w'.db.disk, w'.h, w'.orphans);
    forall target, v | 0 < target < UINT32_LIMIT && IsSought(w'.db.disk, target, v)
      ensures TargetIsExact(w'.db.disk, w'.h, target, v)
    {
      SoughtIsExact(sha, w'.db.disk, w'.h, w'.orphans, target, v);
    }
  }

  lemma OvertakenIsWrong(sha: Sha, w: World, as': seq<Action>, t: nat)
    requires CanRun(sha, w, as') && Overtaken(Run(sha, w, as').db.disk, Run(sha, w, as').h, t)
    ensures !TargetsExact(Run(sha, w, as'))
  {
    hide At;
    hide LoadFrom;
    hide Enabled;
    hide Apply;
    var w' := Run(sha, w, as');
    assert IsSought(w'.db.disk, t, t);
    VersionBelowLimit(w'.h);
  }

  lemma VersionBelowLimit(h: History)
    requires ValidHistory(h)
    ensures VersionOf(h, |h.log|) < UINT32_LIMIT
  {
    hide After;
    hide CleanMulti;
  }
}
