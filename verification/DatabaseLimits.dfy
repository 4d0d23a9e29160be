/** Where the guarantees of the database end: gaps in the log, stray snapshots, targets that cannot be
    loaded or rolled back to. */
module DatabaseLimits {
  import opened Bytes
  import opened AvlHeight
  import opened MerkleHash
  import opened SnapshotWriter
  import opened HashBinding
  import opened TreeStates
  import opened Exports
  import opened Imports
  import opened MultiTrees
  import opened PendingLog
  import opened MultiSnapshots
  import opened Recovery
  import opened Disks
  import opened DiskSteps
  import opened Databases
  import opened DatabaseSafety

  /** The last log index matches the version of the process. */
  ghost predicate LogMatches(w: World) {
    LastIndex(w.db.disk.wal) == |w.h.log|
  }

  /** After a restart the last log index matches the loaded version exactly when the log had reached
      the current snapshot. */
  lemma RestartLogMatches(sha: Sha, w: World, keep: int)
    requires Inv(sha, w) && Enabled(sha, w, Restart(keep))
    ensures LogMatches(Apply(sha, w, Restart(keep))) <==> keep >= IndexOf(w.h, w.db.disk.current)
  {
    hide DiskOf;
    hide At;
    hide ValidHistory;
    hide LoadFrom;
    hide WalIndex;
    hide Fits;
    DiskHistory(sha, w.db.disk, w.h, w.orphans);
    RestartIsExact(sha, w.db.disk, w.h, w.orphans, keep);
  }

  /** If the log ends before the current snapshot, the next commit cannot be written to it. */
  lemma GapRejectsCommits(sha: Sha, w: World)
    requires Inv(sha, w) && w.db.queue != []
    ensures Enabled(sha, w, Flush) <==> LastIndex(w.db.disk.wal) == |w.h.log| - |w.db.queue|
  {
    hide DiskOf;
    hide Describes;
    hide RewriteOk;
  }

  /** A process whose commits are all in the log loses nothing but its pending changes in a crash. */
  lemma FlushedProcessLosesNothing(sha: Sha, w: World)
    requires Inv(sha, w) && LogMatches(w)
    ensures ValidHistory(w.h) && Enabled(sha, w, Restart(LastIndex(w.db.disk.wal)))
    ensures var w' := Apply(sha, w, Restart(LastIndex(w.db.disk.wal)));
      && w'.h == w.h && w'.db.disk == w.db.disk && w'.db.live == At(w.h, |w.h.log|)
      && forall v :: v in w'.db.disk.snapshots ==> (v in w'.orphans <==> v in w.orphans)
  {
    hide DiskOf;
    hide At;
    hide ValidHistory;
    hide LoadFrom;
    hide WalIndex;
    hide Fits;
    hide Describes;
    var last := LastIndex(w.db.disk.wal);
    DiskHistory(sha, w.db.disk, w.h, w.orphans);
    assert LoseTail(w.db.disk.wal, last) == w.db.disk.wal;
    RestartIsExact(sha, w.db.disk, w.h, w.orphans, last);
    assert Cut(w.h, last) == w.h;
    forall v | v in w.db.disk.snapshots && v !in w.orphans ensures v !in NewerThan(w.db.disk, VersionOf(w.h, last)) {
      SnapshotIsCommitted(sha, w.db.disk, w.h, w.orphans, v);
    }
  }

  lemma SnapshotIsCommitted(sha: Sha, d: Disk, h: History, orphans: set<nat>, v: nat)
    requires DiskOf(sha, d, h, orphans) && v in d.snapshots && v !in orphans
    ensures v <= VersionOf(h, |h.log|)
  {
    hide At;
    hide SaveFiles;
    hide Fits;
    hide WalIndex;
    assert Retained(sha, d, h, v);
    VersionOrder(h, IndexOf(h, v), |h.log|);
  }

  /** `GetLatestVersion`: the version of the last log index, without loading anything. */
  function LatestVersion(d: Disk, initialVersion: nat): int {
    var last := LastIndex(d.wal);
    if initialVersion > 1 then last + initialVersion - 1 else last
  }

  /** It is the version that a plain `Load` gives exactly when the log has reached the current snapshot,
      and is not empty unless the chain was imported or has no initial version. */
  lemma LatestVersionIsExact(sha: Sha, d: Disk, h: History, orphans: set<nat>)
    requires DiskOf(sha, d, h, orphans)
    ensures LatestVersion(d, h.base.initialVersion) == VersionOf(h, Recovered(d, h)) <==>
      LastIndex(d.wal) >= IndexOf(h, d.current)
      && (LastIndex(d.wal) > 0 || h.base.version + 1 == h.base.initialVersion || h.base.initialVersion <= 1)
  {
    hide DiskOf;
    hide WalIndex;
    hide ValidHistory;
    DiskHistory(sha, d, h, orphans);
    BaseVersion(h);
    LatestExact(LastIndex(d.wal), IndexOf(h, d.current), h.base.version, h.base.initialVersion);
  }

  lemma BaseVersion(h: History)
    requires ValidHistory(h)
    ensures h.base.version == 0 || h.base.version + 1 == h.base.initialVersion
  {
    hide After;
    hide CleanMulti;
  }

  /** The same on numbers: the last log index, the index of the current snapshot, and where the chain started. */
  lemma LatestExact(last: nat, i: nat, base: nat, initialVersion: nat)
    requires base == 0 || base + 1 == initialVersion
    ensures var r := if i < last then last else i;
      (if initialVersion > 1 then last + initialVersion - 1 else last)
      == (if r == 0 then base else WalVersion(r, initialVersion))
      <==> last >= i && (last > 0 || base + 1 == initialVersion || initialVersion <= 1)
  {}

  /** In every run from a new database each tree will be saved at the version that the whole store will be
      saved at, and the next commit gets the log index after the last one. */
  lemma ReachableInStep(sha: Sha, base: MultiState, as': seq<Action>)
    requires ValidBase(base) && Fits(base) && base.initialVersion + 1 < UINT32_LIMIT
    requires CanRun(sha, Genesis(sha, base), as') && CarefulRun(sha, Genesis(sha, base), as')
    ensures var w := Run(sha, Genesis(sha, base), as'); var m := w.db.live;
      var next := NextVersion(m.version, m.initialVersion);
      && Lockstep(m.trees, next) && Sorted(m.trees)
      && WalIndex(next, m.initialVersion) == |w.h.log| + 1
  {
    hide Apply;
    hide Enabled;
    hide Inv;
    GenesisIsOk(sha, base);
    RunKeeps(sha, Genesis(sha, base), as');
    NextIndex(sha, Run(sha, Genesis(sha, base), as'));
  }

  lemma NextIndex(sha: Sha, w: World)
    requires Inv(sha, w)
    ensures ValidMulti(w.db.live)
    ensures WalIndex(NextVersion(w.db.live.version, w.db.live.initialVersion), w.db.live.initialVersion) == |w.h.log| + 1
  {
    hide DiskOf;
    hide Describes;
    hide At;
    hide WalIndex;
    hide NextVersion;
    LiveFacts(sha, w);
    DiskHistory(sha, w.db.disk, w.h, w.orphans);
    VersionIndex(w.h, |w.h.log|);
  }

  /** A target between zero and the initial version is not a version; below the last such value the
      unsigned subtraction wraps around and `Load` silently gives the newest version. */
  lemma TargetBelowInitialVersion(w: Wal, h: History, target: nat)
    requires ValidHistory(h) && LogOf(w, h) && w.first == 1 && LastIndex(w) >= 1
    requires h.base.version == 0 && 0 < target && target + 1 < h.base.initialVersion
    ensures CatchUp(At(h, 0), w, target) == Some(At(h, LastIndex(w)))
  {
    hide CatchUp;
    hide At;
    hide WalIndex;
    hide After;
    hide CleanMulti;
    WrappedIndex(target, h.base.initialVersion);
    TargetOutcome(w, h, 0, target);
  }

  lemma WrappedIndex(v: nat, initialVersion: nat)
    requires v + 1 < initialVersion < UINT32_LIMIT
    ensures WalIndex(v, initialVersion) > UINT32_LIMIT
  {}

  /** Once the log has been pruned up to the oldest snapshot, rolling back to the version of that snapshot is
      refused, although it could be loaded. The refused call has moved the link, and a later plain `Load` gives
      an older commit than before unless the log reaches the snapshot that was current. */
  lemma RollbackToOldestIsRefused(sha: Sha, d: Disk, h: History, orphans: set<nat>, v: nat, left: set<nat>)
    requires DiskOf(sha, d, h, orphans) && 0 < v < UINT32_LIMIT && IsEarliest(d, v) && v !in orphans
    requires d.wal.first == IndexOf(h, v) + 1
    ensures Rollback(d, v, v, h.base.initialVersion, left) == None
    ensures IndexOf(h, v) <= |h.log| && LoadFrom(d, v, v) == Some(At(h, IndexOf(h, v)))
    ensures var d1 := AfterRollback(d, v, v, h.base.initialVersion, left);
      && d1.current == v && LoadFrom(d1, v, 0).Some? && LoadFrom(d, d.current, 0).Some?
      && (LoadFrom(d1, v, 0) == LoadFrom(d, d.current, 0) <==> v == d.current || IndexOf(h, d.current) <= LastIndex(d.wal))
      && LoadFrom(d1, v, 0).value.version <= LoadFrom(d, d.current, 0).value.version
  {
    hide LoadFrom;
    hide DiskOf;
    hide At;
    DiskHistory(sha, d, h, orphans);
    OldestLoads(sha, d, h, orphans, v);
    var i := IndexOf(h, v);
    if i > 0 { VersionIndex(h, i); }
    MovedLinkIsExact(sha, d, h, orphans, v);
    var r, r1 := Recovered(d, h), Recovered(Relink(d, v), h);
    AtVersion(h, r);
    AtVersion(h, r1);
    CutIndices(h, r, r1);
  }

  lemma OldestLoads(sha: Sha, d: Disk, h: History, orphans: set<nat>, v: nat)
    requires DiskOf(sha, d, h, orphans) && 0 < v && IsEarliest(d, v) && v !in orphans
    ensures v in d.snapshots && IndexOf(h, v) <= |h.log| && v <= d.current && v == VersionOf(h, IndexOf(h, v))
    ensures LoadFrom(d, v, v) == Some(At(h, IndexOf(h, v)))
  {
    hide LoadFiles;
    hide At;
    hide Fits;
    hide SaveFiles;
    hide Readable;
    RetainedLoads(sha, d, h, orphans, v);
  }

  ghost predicate StoresCollide(sha: Sha, a: TreeState, b: TreeState) {
    Collide(sha, HashedRoot(sha, a.root), HashedRoot(sha, b.root))
  }

  /** Equal commit infos mean equal stores, node for node, unless two strings hashed for the same store
      of the two states collide. */
  lemma CommitInfoBinds(sha: Sha, a: MultiState, b: MultiState)
    requires ValidMulti(a) && ValidMulti(b) && a.initialVersion == b.initialVersion
    requires CommitInfoOf(sha, a) == CommitInfoOf(sha, b)
    ensures |a.trees| == |b.trees|
    ensures a == b || exists i :: 0 <= i < |a.trees| && StoresCollide(sha, a.trees[i].item, b.trees[i].item)
  {
    hide Collide;
    hide HashedRoot;
    hide RootHash;
    hide Less;
    var x, y := CommitInfoOf(sha, a).stores, CommitInfoOf(sha, b).stores;
    assert |x| == |a.trees| && |y| == |b.trees|;
    forall i | 0 <= i < |a.trees|
      ensures a.trees[i] == b.trees[i] || StoresCollide(sha, a.trees[i].item, b.trees[i].item)
    {
      assert x[i] == y[i];
      assert InStep(a.trees[i].item, NextVersion(a.version, a.initialVersion));
      assert InStep(b.trees[i].item, NextVersion(b.version, b.initialVersion));
      RootHashBinds(sha, a.trees[i].item.root, b.trees[i].item.root);
    }
  }

  // ----- State sync -----

  /** The directory that the importer writes at the height of the exported state, from one result for each store. */
  function ImportedFiles(m: MultiState, results: seq<ImportResult>): SavedMulti
    requires |results| == |m.trees| && forall i :: 0 <= i < |results| ==> results[i].Imported?
  {
    SavedMulti(m.version + 1, m.version,
               seq(|m.trees|, i requires 0 <= i < |m.trees| =>
                 Named(m.trees[i].name, SavedTree(m.version, results[i].files))))
  }

  /** Exporting every store of a committed state and importing the streams gives exactly the directory that a new
      database with that state starts from, and that state is a valid start: all stores are in lockstep under the
      initial version that the importer records. */
  lemma StateSyncIsGenesis(sha: Sha, m: MultiState, results: seq<ImportResult>)
    requires CleanMulti(m) && Fits(m) && 0 < m.version && m.version + 1 < UINT32_LIMIT && |results| == |m.trees|
    requires forall i :: 0 <= i < |m.trees| ==>
      IsImport(sha, m.version, RootPostOrder(m.trees[i].item.root), results[i])
    ensures forall i :: 0 <= i < |m.trees| ==> results[i].Imported?
    ensures var base := m.(initialVersion := m.version + 1);
      && ValidBase(base) && Fits(base)
      && ImportedFiles(m, results) == Genesis(sha, base).db.disk.snapshots[m.version]
  {
    hide IsImport;
    hide RootPostOrder;
    hide SaveTree;
    hide FitsTree;
    hide Less;
    hide WellFormedState;
    hide Clean;
    var base := m.(initialVersion := m.version + 1);
    forall i | 0 <= i < |m.trees|
      ensures results[i].Imported? && SavedTree(m.version, results[i].files) == SaveTree(sha, m.trees[i].item)
      ensures InStep(m.trees[i].item, NextVersion(base.version, base.initialVersion))
    {
      assert InStep(m.trees[i].item, NextVersion(m.version, m.initialVersion));
      StoreImports(sha, m.trees[i].item, results[i]);
    }
    assert ImportedFiles(m, results).stores == SaveFiles(sha, base).stores;
  }

  lemma StoreImports(sha: Sha, t: TreeState, r: ImportResult)
    requires WellFormedState(t) && Clean(t) && FitsTree(t) && t.version < UINT32_LIMIT
    requires IsImport(sha, t.version, RootPostOrder(t.root), r)
    ensures r.Imported? && SavedTree(t.version, r.files) == SaveTree(sha, t)
  {
    hide WriteTree;
    if t.root.Some? { ExportImportRoundTrip(sha, t.root.value, t.version, r); }
  }
}
