/** Every step of the database keeps its invariant, and what follows for whole runs. */
module DatabaseSafety {
  import opened Bytes
  import opened AvlHeight
  import opened MerkleHash
  import opened MultiTrees
  import opened PendingLog
  import opened UpgradeReplays
  import opened MultiSnapshots
  import opened Recovery
  import opened Disks
  import opened DiskSteps
  import opened Databases

  // ----- Facts that several steps need -----

  /** What the invariant says about the live state. */
  lemma LiveFacts(sha: Sha, w: World)
    requires Inv(sha, w)
    ensures ValidHistory(w.h) && ValidMulti(w.db.live) && w.db.live.initialVersion == w.h.base.initialVersion
    ensures w.db.live.version == VersionOf(w.h, |w.h.log|)
    ensures VersionOf(w.h, |w.h.log|) + 1 < UINT32_LIMIT
  {
    hide DiskOf;
    hide ApplyEntry;
    DiskHistory(sha, w.db.disk, w.h, w.orphans);
    AtVersion(w.h, |w.h.log|);
  }

  /** A committed state with a given index is recent if the index is not below the current snapshot's. */
  lemma RecentAt(db: Db, h: History, i: nat)
    requires ValidHistory(h) && IndexOf(h, db.disk.current) <= i <= |h.log|
    ensures Recent(db, h, At(h, i))
  {
    AtVersion(h, i);
    VersionIndex(h, i);
  }

  // ----- Changes and commits -----

  lemma UpgradeKeeps(sha: Sha, w: World, us: seq<Upgrade>)
    requires Inv(sha, w) && Enabled(sha, w, UpgradeStores(us))
    ensures Inv(sha, Apply(sha, w, UpgradeStores(us)))
  {
    hide DiskOf;
    hide At;
    hide Describes;
    hide Upgradable;
    hide ApplyUpgrades;
    hide Fits;
    DiskHistory(sha, w.db.disk, w.h, w.orphans);
    UpgradesDescribed(At(w.h, |w.h.log|), w.db.pending, w.db.live, us);
  }

  lemma ChangeKeeps(sha: Sha, w: World, css: ChangeSets)
    requires Inv(sha, w) && Enabled(sha, w, ChangeStores(css))
    ensures Inv(sha, Apply(sha, w, ChangeStores(css)))
  {
    hide DiskOf;
    hide At;
    hide Describes;
    hide ApplyChangeSets;
    hide ValidMulti;
    hide Fits;
    hide Mergeable;
    DiskHistory(sha, w.db.disk, w.h, w.orphans);
    ChangeSetsDescribed(At(w.h, |w.h.log|), w.db.pending, w.db.live, css);
  }

  /** A commit records exactly the state that the process now has. */
  lemma CommitKeeps(sha: Sha, w: World)
    requires Inv(sha, w) && Enabled(sha, w, Commit)
    ensures Inv(sha, Apply(sha, w, Commit))
    ensures var w' := Apply(sha, w, Commit);
      |w'.h.log| == |w.h.log| + 1 && ValidHistory(w'.h) && w'.db.live == At(w'.h, |w'.h.log|)
  {
    hide DiskOf;
    hide At;
    hide ValidMulti;
    hide CleanMulti;
    hide Fits;
    hide WalIndex;
    hide SaveMulti;
    hide ApplyEntry;
    var n, e := |w.h.log|, w.db.pending;
    var w' := Apply(sha, w, Commit);
    LiveFacts(sha, w);
    DiskHistory(sha, w.db.disk, w.h, w.orphans);
    assert CommitEntry(At(w.h, n), e) == Some(w'.db.live);
    ExtendKeeps(sha, w.db.disk, w.h, w.orphans, e);
    DiskHistory(sha, w.db.disk, w'.h, w.orphans);
    NothingPending(w'.db.live);
    CommitIndex(w.h, e, w'.db.live);
    ExtendedQueue(w.db, w.h, w'.db, e);
    ExtendedRewrite(w, w');
  }

  lemma CommitIndex(h: History, e: WalEntry, live: MultiState)
    requires ValidHistory(h) && ValidHistory(Extend(h, e)) && live == At(Extend(h, e), |h.log| + 1)
    ensures WalIndex(live.version, live.initialVersion) == |h.log| + 1
  {
    AtVersion(Extend(h, e), |h.log| + 1);
    VersionIndex(Extend(h, e), |h.log| + 1);
  }

  lemma ExtendedQueue(db: Db, h: History, db': Db, e: WalEntry)
    requires Queued(db, h) && db'.disk == db.disk && db'.queue == db.queue + [(|h.log| + 1, e)]
    ensures Queued(db', Extend(h, e))
  {
    hide WalIndex;
  }

  lemma ExtendedRewrite(w: World, w': World)
    requires ValidHistory(w.h) && ValidHistory(w'.h) && RewriteOk(w)
    requires w'.h == Extend(w.h, w.db.pending) && w'.orphans == w.orphans
    requires w'.db.disk == w.db.disk && w'.db.rewrite == w.db.rewrite
    requires forall i :: 0 <= i <= |w.h.log| ==> At(w'.h, i) == At(w.h, i)
    ensures RewriteOk(w')
  {
    hide At;
    hide ValidHistory;
    hide WalIndex;
    hide Fits;
  }

  lemma FlushKeeps(sha: Sha, w: World)
    requires Inv(sha, w) && Enabled(sha, w, Flush)
    ensures Inv(sha, Apply(sha, w, Flush))
    ensures LastIndex(Apply(sha, w, Flush).db.disk.wal) == LastIndex(w.db.disk.wal) + 1
  {
    hide DiskOf;
    hide At;
    hide ValidHistory;
    hide Describes;
    hide WalIndex;
    hide Fits;
    DiskHistory(sha, w.db.disk, w.h, w.orphans);
    WriteKeeps(sha, w.db.disk, w.h, w.orphans);
    var w' := Apply(sha, w, Flush);
    assert w.db.queue[0] == (LastIndex(w.db.disk.wal) + 1, w.h.log[LastIndex(w.db.disk.wal)]);
    assert forall k :: 0 <= k < |w'.db.queue| ==> w'.db.queue[k] == w.db.queue[k + 1];
  }

  // ----- Rewriting a snapshot in the background -----

  lemma StartKeeps(sha: Sha, w: World)
    requires Inv(sha, w) && Enabled(sha, w, Start)
    ensures Inv(sha, Apply(sha, w, Start))
  {
    hide DiskOf;
    hide At;
    hide ValidHistory;
    hide WalIndex;
    hide Fits;
    hide ValidMulti;
    DiskHistory(sha, w.db.disk, w.h, w.orphans);
    assert w.db.live == At(w.h, |w.h.log|) by { NothingPendingIsLive(At(w.h, |w.h.log|), w.db.live); }
    RecentAt(w.db, w.h, |w.h.log|);
  }

  lemma NothingPendingIsLive(base: MultiState, live: MultiState)
    requires Describes(base, NO_CHANGES, live)
    ensures live == base
  {}

  lemma RenameKeeps(sha: Sha, w: World)
    requires Inv(sha, w) && Enabled(sha, w, Rename)
    ensures Inv(sha, Apply(sha, w, Rename))
  {
    hide DiskOf;
    hide At;
    hide ValidHistory;
    hide Describes;
    hide WalIndex;
    hide Fits;
    hide SaveFiles;
    DiskHistory(sha, w.db.disk, w.h, w.orphans);
    var m := w.db.rewrite.clone;
    if m.version !in w.db.disk.snapshots {
      var i := IndexOf(w.h, m.version);
      AtVersion(w.h, i);
      AddKeeps(sha, w.db.disk, w.h, w.orphans, i);
      VersionOrder(w.h, IndexOf(w.h, w.db.disk.current), i);
      assert PruneOk(Apply(sha, w, Rename).db) by { RenamePrune(w.db, m.version); }
    }
  }

  lemma VersionOrder(h: History, i: nat, j: nat)
    requires ValidHistory(h) && i <= j <= |h.log|
    ensures VersionOf(h, i) <= VersionOf(h, j)
  {
    VersionsIncrease(h, i, j);
  }

  lemma RenamePrune(db: Db, v: nat)
    requires PruneOk(db) && db.disk.current in db.disk.snapshots && db.disk.current <= v
    ensures forall files, rewrite :: PruneOk(db.(disk := AddSnapshot(db.disk, v, files), rewrite := rewrite))
  {}

  lemma LinkKeeps(sha: Sha, w: World)
    requires Inv(sha, w) && Enabled(sha, w, Link)
    ensures Inv(sha, Apply(sha, w, Link))
  {
    hide DiskOf;
    hide At;
    hide ValidHistory;
    hide Describes;
    hide WalIndex;
    hide Fits;
    DiskHistory(sha, w.db.disk, w.h, w.orphans);
    var v := w.db.rewrite.version;
    RelinkKeeps(sha, w.db.disk, w.h, w.orphans, v);
    DiskHistory(sha, Relink(w.db.disk, v), w.h, w.orphans);
    VersionOrder(w.h, IndexOf(w.h, w.db.disk.current), IndexOf(w.h, v));
  }

  lemma LoadNewKeeps(sha: Sha, w: World)
    requires Inv(sha, w) && Enabled(sha, w, LoadNew)
    ensures Inv(sha, Apply(sha, w, LoadNew))
  {
    hide DiskOf;
    hide At;
    hide ValidHistory;
    hide Describes;
    hide WalIndex;
    hide LoadFiles;
    hide ValidMulti;
    DiskHistory(sha, w.db.disk, w.h, w.orphans);
    RetainedLoads(sha, w.db.disk, w.h, w.orphans, w.db.disk.current);
    RecentAt(w.db, w.h, IndexOf(w.h, w.db.disk.current));
  }

  /** Catching up a recent state moves it to the end of the log, if that is later. */
  lemma RecentCatchesUp(sha: Sha, w: World, m: MultiState)
    requires Inv(sha, w) && ValidHistory(w.h) && Recent(w.db, w.h, m) && ValidMulti(m)
    ensures var i, last := IndexOf(w.h, m.version), LastIndex(w.db.disk.wal);
      last <= |w.h.log| && CatchUp(m, w.db.disk.wal, 0) == Some(At(w.h, if i < last then last else i))
  {
    hide DiskOf;
    hide At;
    hide ValidHistory;
    hide Describes;
    hide WalIndex;
    hide CatchUp;
    hide ValidMulti;
    DiskHistory(sha, w.db.disk, w.h, w.orphans);
    CatchUpFollows(w.db.disk.wal, w.h, IndexOf(w.h, m.version));
  }

  lemma FollowKeeps(sha: Sha, w: World)
    requires Inv(sha, w) && Enabled(sha, w, Follow)
    ensures Inv(sha, Apply(sha, w, Follow))
  {
    hide DiskOf;
    hide At;
    hide ValidHistory;
    hide Describes;
    hide WalIndex;
    hide CatchUp;
    hide ValidMulti;
    DiskHistory(sha, w.db.disk, w.h, w.orphans);
    var m := w.db.rewrite.mtree;
    RecentCatchesUp(sha, w, m);
    var i, last := IndexOf(w.h, m.version), LastIndex(w.db.disk.wal);
    RecentAt(w.db, w.h, if i < last then last else i);
  }

  /** Once the log has caught up with the process, the rewritten tree ends at the newest commit. */
  lemma CaughtUpIsNewest(sha: Sha, w: World)
    requires Inv(sha, w) && w.db.rewrite.Ready? && CommittedVersion(w.db) == w.db.live.version
    ensures var i, last := IndexOf(w.h, w.db.rewrite.mtree.version), LastIndex(w.db.disk.wal);
      (if i < last then last else i) == |w.h.log|
  {
    hide DiskOf;
    hide At;
    hide Describes;
    hide ValidHistory;
    hide WalIndex;
    LiveFacts(sha, w);
    DiskHistory(sha, w.db.disk, w.h, w.orphans);
    var n, last := |w.h.log|, LastIndex(w.db.disk.wal);
    if last > 0 {
      SameVersion(w.h, last, n);
    } else {
      SameVersion(w.h, IndexOf(w.h, w.db.snapshotVersion), n);
    }
  }

  lemma SameVersion(h: History, i: nat, j: nat)
    requires ValidHistory(h) && i <= j <= |h.log|
    ensures VersionOf(h, i) == VersionOf(h, j) ==> i == j
  {
    hide After;
    hide CleanMulti;
    VersionsIncrease(h, i, j);
  }

  /** Switching to the rewritten tree changes neither version nor contents nor shape of any store. */
  lemma SwitchKeeps(sha: Sha, w: World)
    requires Inv(sha, w) && Enabled(sha, w, Switch)
    ensures Inv(sha, Apply(sha, w, Switch))
    ensures Apply(sha, w, Switch).db.live == w.db.live
  {
    hide DiskOf;
    hide At;
    hide ValidHistory;
    hide WalIndex;
    hide CatchUp;
    hide ApplyEntry;
    hide NoDuplicates;
    hide ValidMulti;
    DiskHistory(sha, w.db.disk, w.h, w.orphans);
    RecentCatchesUp(sha, w, w.db.rewrite.mtree);
    CaughtUpIsNewest(sha, w);
  }

  /** The background rewrite never fails for want of a snapshot or of log entries: in every reachable state
      the new snapshot can be loaded, catching up succeeds, and once the log has all commits the switch can
      be made. */
  lemma RewriteNeverStuck(sha: Sha, w: World)
    requires Inv(sha, w)
    ensures w.db.rewrite.Linked? ==> Enabled(sha, w, LoadNew)
    ensures w.db.rewrite.Ready? ==> Enabled(sha, w, Follow)
    ensures w.db.rewrite.Ready? && LastIndex(w.db.disk.wal) == |w.h.log| ==> Enabled(sha, w, Switch)
  {
    hide DiskOf;
    hide At;
    hide ValidHistory;
    hide LoadFiles;
    hide CatchUp;
    hide ValidMulti;
    hide ApplyEntry;
    DiskHistory(sha, w.db.disk, w.h, w.orphans);
    RetainedLoads(sha, w.db.disk, w.h, w.orphans, w.db.disk.current);
    if w.db.rewrite.Ready? {
      RecentCatchesUp(sha, w, w.db.rewrite.mtree);
      if LastIndex(w.db.disk.wal) == |w.h.log| { CommittedIsLive(sha, w); }
    }
  }

  lemma CommittedIsLive(sha: Sha, w: World)
    requires Inv(sha, w) && LastIndex(w.db.disk.wal) == |w.h.log|
    ensures CommittedVersion(w.db) == w.db.live.version
  {
    hide DiskOf;
    hide At;
    hide Describes;
    hide WalIndex;
    LiveFacts(sha, w);
    DiskHistory(sha, w.db.disk, w.h, w.orphans);
  }

  // ----- Pruning -----

  lemma PruneRemoveKeeps(sha: Sha, w: World, v: nat)
    requires Inv(sha, w) && Enabled(sha, w, PruneRemove(v))
    ensures Inv(sha, Apply(sha, w, PruneRemove(v)))
  {
    hide DiskOf;
    hide At;
    hide ValidHistory;
    hide Describes;
    hide WalIndex;
    hide Fits;
    DiskHistory(sha, w.db.disk, w.h, w.orphans);
    RemoveKeeps(sha, w.db.disk, w.h, w.orphans, v);
    if w.db.rewrite.Renamed? {
      RenamedIsNewer(sha, w);
    }
  }

  lemma RenamedIsNewer(sha: Sha, w: World)
    requires Inv(sha, w) && w.db.rewrite.Renamed?
    ensures w.db.disk.current <= w.db.rewrite.version
  {
    hide At;
    hide ValidHistory;
    hide Describes;
    hide WalIndex;
    hide SaveFiles;
    hide Fits;
    DiskHistory(sha, w.db.disk, w.h, w.orphans);
    RetainedVersion(sha, w.db.disk, w.h, w.db.rewrite.version);
    VersionOrder(w.h, IndexOf(w.h, w.db.disk.current), IndexOf(w.h, w.db.rewrite.version));
  }

  lemma PruneReadKeeps(sha: Sha, w: World, e: nat)
    requires Inv(sha, w) && Enabled(sha, w, PruneRead(e))
    ensures Inv(sha, Apply(sha, w, PruneRead(e)))
  {
    hide DiskOf;
    hide At;
    hide ValidHistory;
    hide Describes;
    hide WalIndex;
    hide Fits;
    LiveFacts(sha, w);
    DiskHistory(sha, w.db.disk, w.h, w.orphans);
    VersionOrder(w.h, IndexOf(w.h, w.db.disk.current), |w.h.log|);
  }

  /** The log starts with the version after the one that the prune has found to be the earliest. */
  ghost predicate Truncated(db: Db, db': Db) {
    match db.pruning
    case Truncating(e) => StartsAt(db.disk.wal, db'.disk.wal, WalIndex(e + 1, db.live.initialVersion))
    case _ => false
  }

  lemma PruneTruncateKeeps(sha: Sha, w: World)
    requires Inv(sha, w) && Enabled(sha, w, PruneTruncate)
    ensures Inv(sha, Apply(sha, w, PruneTruncate))
    ensures Truncated(w.db, Apply(sha, w, PruneTruncate).db)
  {
    hide DiskOf;
    hide At;
    hide ValidHistory;
    hide WalIndex;
    hide Fits;
    hide ApplyEntry;
    hide ValidMulti;
    hide StartsAt;
    LiveFacts(sha, w);
    DiskHistory(sha, w.db.disk, w.h, w.orphans);
    TruncateLast(w.db.disk, w.db.pruning.earliest, w.h.base.initialVersion);
    TruncateKeeps(sha, w.db.disk, w.h, w.orphans, w.db.pruning.earliest);
  }

  // ----- Crash and rollback -----

  /** A process that has just loaded commit `r` satisfies the invariant of the shortened history. */
  lemma FreshKeeps(sha: Sha, disk: Disk, h: History, r: nat, orphans: set<nat>)
    requires ValidHistory(h) && r <= |h.log| && DiskOf(sha, disk, Cut(h, r), orphans)
    requires LastIndex(disk.wal) <= r && (LastIndex(disk.wal) < r ==> r == IndexOf(h, disk.current))
    ensures Inv(sha, World(Fresh(disk, At(h, r)), Cut(h, r), orphans))
  {
    hide DiskOf;
    hide At;
    hide ValidMulti;
    hide WalIndex;
    hide ValidHistory;
    hide Describes;
    CutKeepsStates(h, r);
    DiskHistory(sha, disk, Cut(h, r), orphans);
    NothingPending(At(h, r));
  }

  /** Loading a directory that belongs to the history gives a process with exactly the state of a commit. */
  lemma ReloadKeeps(sha: Sha, w: World, disk: Disk)
    requires DiskOf(sha, disk, w.h, w.orphans)
    ensures var w' := Reload(w, disk); var r := Recovered(disk, w.h);
      && Inv(sha, w') && LastIndex(disk.wal) <= r <= |w.h.log| && w'.h == Cut(w.h, r)
      && ValidHistory(w.h) && w'.db == Fresh(disk, At(w.h, r))
      && w'.orphans == w.orphans + NewerThan(disk, w'.db.live.version)
  {
    hide DiskOf;
    hide At;
    hide ValidHistory;
    hide LoadFrom;
    hide WalIndex;
    hide Fits;
    hide Inv;
    DiskHistory(sha, disk, w.h, w.orphans);
    ReloadIsExact(sha, disk, w.h, w.orphans);
    FreshKeeps(sha, disk, w.h, Recovered(disk, w.h), Reload(w, disk).orphans);
  }

  /** A crash at any moment loses only commits that had not reached the disk, and the restarted
      process has exactly the state of the last commit that had. */
  lemma RestartKeeps(sha: Sha, w: World, keep: int)
    requires Inv(sha, w) && Enabled(sha, w, Restart(keep))
    ensures Inv(sha, Apply(sha, w, Restart(keep)))
    ensures var w' := Apply(sha, w, Restart(keep));
      && w'.h.base == w.h.base && w'.h.log <= w.h.log && keep <= |w'.h.log|
      && ValidHistory(w.h) && w'.db.live == At(w.h, |w'.h.log|)
  {
    hide DiskOf;
    hide At;
    hide ValidHistory;
    hide LoadFrom;
    hide WalIndex;
    hide Fits;
    hide Reload;
    LoseTailKeeps(sha, w.db.disk, w.h, w.orphans, keep);
    ReloadKeeps(sha, w, w.db.disk.(wal := LoseTail(w.db.disk.wal, keep)));
  }

  /** After a rollback that only moved the link, the process has exactly the state of a commit. It is the state that a
      plain `Load` would have given before, exactly when the link did not move or the log reaches both snapshots. */
  lemma DowngradeKeeps(sha: Sha, w: World, target: nat, v: nat)
    requires Inv(sha, w) && Enabled(sha, w, Downgrade(target, v)) && v !in w.orphans
    ensures Inv(sha, Apply(sha, w, Downgrade(target, v)))
    ensures var w', d := Apply(sha, w, Downgrade(target, v)), w.db.disk;
      && w'.h.base == w.h.base && w'.h.log <= w.h.log && w'.db.disk == Relink(d, v)
      && ValidHistory(w.h) && w'.db.live == At(w.h, |w'.h.log|)
      && (LoadFrom(d, d.current, 0) == Some(w'.db.live) <==>
            v == d.current || (IndexOf(w.h, v) <= LastIndex(d.wal) && IndexOf(w.h, d.current) <= LastIndex(d.wal)))
  {
    hide DiskOf;
    hide At;
    hide ValidHistory;
    hide LoadFrom;
    hide WalIndex;
    hide Fits;
    hide Reload;
    MovedLinkIsExact(sha, w.db.disk, w.h, w.orphans, v);
    ReloadKeeps(sha, w, Relink(w.db.disk, v));
  }

  /** Rolling back leaves exactly the history up to the target version. */
  lemma OverwriteKeeps(sha: Sha, w: World, target: nat, v: nat, left: set<nat>)
    requires Inv(sha, w) && Enabled(sha, w, Overwrite(target, v, left)) && v !in w.orphans
    ensures Inv(sha, Apply(sha, w, Overwrite(target, v, left)))
    ensures var w' := Apply(sha, w, Overwrite(target, v, left));
      && w'.h.base == w.h.base && w'.h.log <= w.h.log && w'.db.live.version == target
      && ValidHistory(w.h) && w'.db.live == At(w.h, |w'.h.log|)
      && LoadFrom(w'.db.disk, w'.db.disk.current, 0) == Some(w'.db.live)
      && w'.db == Fresh(w'.db.disk, w'.db.live)
      && w'.db.disk.snapshots.Keys == (set u | u in w.db.disk.snapshots && (u <= target || u in left))
      && NewerThan(w'.db.disk, target) <= left && w'.orphans == w.orphans + NewerThan(w'.db.disk, target)
  {
    hide DiskOf;
    hide At;
    hide ValidHistory;
    hide LoadFrom;
    hide WalIndex;
    hide Fits;
    hide Describes;
    LiveFacts(sha, w);
    DiskHistory(sha, w.db.disk, w.h, w.orphans);
    RollbackIsExact(sha, w.db.disk, w.h, w.orphans, target, v, left);
    RollbackTarget(sha, w.db.disk, w.h, w.orphans, target, v);
    OverwriteLoads(sha, w.db.disk, w.h, w.orphans, target, v);
    var i := WalIndex(target, w.h.base.initialVersion);
    var disk := Rollback(w.db.disk, target, v, w.h.base.initialVersion, left).value;
    AtVersion(w.h, i);
    FreshKeeps(sha, disk, w.h, i, w.orphans + NewerThan(disk, target));
  }

  lemma OverwriteLoads(sha: Sha, d: Disk, h: History, orphans: set<nat>, target: nat, v: nat)
    requires DiskOf(sha, d, h, orphans) && 0 < target < UINT32_LIMIT && IsSought(d, target, v) && v !in orphans
    requires var i := WalIndex(target, h.base.initialVersion);
      d.wal.first <= i <= LastIndex(d.wal) && i <= |h.log| && target == VersionOf(h, i)
    ensures LoadFrom(d, v, target) == Some(At(h, WalIndex(target, h.base.initialVersion)))
  {
    hide DiskOf;
    hide At;
    hide LoadFrom;
    DiskHistory(sha, d, h, orphans);
    LoadTargetIsExact(sha, d, h, orphans, target, v);
    VersionIndex(h, WalIndex(target, h.base.initialVersion));
  }

  // ----- Whole runs -----

  lemma StepKeeps(sha: Sha, w: World, a: Action)
    requires Inv(sha, w) && Enabled(sha, w, a) && Careful(w, a)
    ensures Inv(sha, Apply(sha, w, a))
  {
    hide Inv;
    hide Enabled;
    hide Apply;
    match a
    case UpgradeStores(us) => UpgradeKeeps(sha, w, us);
    case ChangeStores(css) => ChangeKeeps(sha, w, css);
    case Commit => CommitKeeps(sha, w);
    case Flush => FlushKeeps(sha, w);
    case Start => StartKeeps(sha, w);
    case Rename => RenameKeeps(sha, w);
    case Link => LinkKeeps(sha, w);
    case LoadNew => LoadNewKeeps(sha, w);
    case Follow => FollowKeeps(sha, w);
    case Abort => AbortKeeps(sha, w);
    case Switch => SwitchKeeps(sha, w);
    case PruneStart => PruneStartKeeps(sha, w);
    case PruneRemove(v) => PruneRemoveKeeps(sha, w, v);
    case PruneRead(e) => PruneReadKeeps(sha, w, e);
    case PruneTruncate => PruneTruncateKeeps(sha, w);
    case Restart(keep) => RestartKeeps(sha, w, keep);
    case Overwrite(target, v, left) => OverwriteKeeps(sha, w, target, v, left);
    case Downgrade(target, v) => DowngradeKeeps(sha, w, target, v);
  }

  lemma AbortKeeps(sha: Sha, w: World)
    requires Inv(sha, w) && Enabled(sha, w, Abort)
    ensures Inv(sha, Apply(sha, w, Abort))
  {
    hide DiskOf;
    hide At;
    hide ValidHistory;
    hide Describes;
    hide Fits;
    hide WalIndex;
  }

  lemma PruneStartKeeps(sha: Sha, w: World)
    requires Inv(sha, w) && Enabled(sha, w, PruneStart)
    ensures Inv(sha, Apply(sha, w, PruneStart))
  {
    hide DiskOf;
    hide At;
    hide ValidHistory;
    hide Describes;
    hide Fits;
    hide WalIndex;
  }

  ghost predicate CanRun(sha: Sha, w: World, as': seq<Action>)
    decreases |as'|
  {
    as' == [] || (Enabled(sha, w, as'[0]) && CanRun(sha, Apply(sha, w, as'[0]), as'[1..]))
  }

  ghost function Run(sha: Sha, w: World, as': seq<Action>): World
    requires CanRun(sha, w, as')
    decreases |as'|
  {
    if as' == [] then w else Run(sha, Apply(sha, w, as'[0]), as'[1..])
  }

  /** No rollback of the run starts from a stray snapshot. */
  ghost predicate CarefulRun(sha: Sha, w: World, as': seq<Action>)
    requires CanRun(sha, w, as')
    decreases |as'|
  {
    as' == [] || (Careful(w, as'[0]) && CarefulRun(sha, Apply(sha, w, as'[0]), as'[1..]))
  }

  lemma {:induction false} RunKeeps(sha: Sha, w: World, as': seq<Action>)
    requires Inv(sha, w) && CanRun(sha, w, as') && CarefulRun(sha, w, as')
    ensures Inv(sha, Run(sha, w, as'))
    decreases |as'|
  {
    hide Inv;
    hide Enabled;
    hide Apply;
    if as' != [] {
      StepKeeps(sha, w, as'[0]);
      RunKeeps(sha, Apply(sha, w, as'[0]), as'[1..]);
    }
  }

  /** A new database directory, as `initEmptyDB` or an import leaves it. */
  function Genesis(sha: Sha, base: MultiState): World {
    var disk := Disk(map[base.version := SaveFiles(sha, base)], base.version, Wal(1, []));
    World(Fresh(disk, base), History(base, []), {})
  }

  /** The state that `initEmptyDB` writes. */
  function EmptyBase(initialVersion: nat): MultiState {
    MultiState(initialVersion, 0, [])
  }

  lemma GenesisIsOk(sha: Sha, base: MultiState)
    requires ValidBase(base) && Fits(base) && base.initialVersion + 1 < UINT32_LIMIT
    ensures Inv(sha, Genesis(sha, base))
  {
    hide SaveFiles;
    hide Fits;
    hide Readable;
    NothingPending(base);
    var h := History(base, []);
    assert At(h, 0) == base;
    AddedIsReadable(sha, h, 0);
  }

  /** In every run from a new database, loading the directory as it is on disk gives a committed state. */
  lemma ReachableRecovers(sha: Sha, base: MultiState, as': seq<Action>)
    requires ValidBase(base) && Fits(base) && base.initialVersion + 1 < UINT32_LIMIT
    requires CanRun(sha, Genesis(sha, base), as') && CarefulRun(sha, Genesis(sha, base), as')
    ensures var w := Run(sha, Genesis(sha, base), as'); var d := w.db.disk; var r := Recovered(d, w.h);
      && ValidHistory(w.h) && LastIndex(d.wal) <= r <= |w.h.log|
      && LoadFrom(d, d.current, 0) == Some(At(w.h, r))
      && Describes(At(w.h, |w.h.log|), w.db.pending, w.db.live)
  {
    hide Apply;
    hide Enabled;
    hide DiskOf;
    hide LoadFrom;
    GenesisIsOk(sha, base);
    RunKeeps(sha, Genesis(sha, base), as');
    var w := Run(sha, Genesis(sha, base), as');
    DiskHistory(sha, w.db.disk, w.h, w.orphans);
    LoadIsExact(sha, w.db.disk, w.h, w.orphans);
  }
}
