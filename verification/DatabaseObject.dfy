/** `DB` as the program has it. Its methods are the steps of `Databases`; time, locks and goroutines
    are represented by which step is taken when. */
module DatabaseObjects {
  import opened Bytes
  import opened AvlHeight
  import opened MerkleHash
  import opened TreeStates
  import opened MultiTrees
  import opened PendingLog
  import opened MultiSnapshots
  import opened Recovery
  import opened Disks
  import opened DiskSteps
  import opened Databases
  import opened DatabaseSafety
  import opened MultiTreeObjects
  import opened SnapshotNames
  import opened StraySnapshots
  import opened UpgradeReplays
  import opened InitialStores

  /** Writing a batch: entries that the log already has are skipped, the others must continue it. */
  function WriteAll(w: Wal, last: int, entries: seq<(nat, WalEntry)>): Option<Wal> {
    if entries == [] then Some(w) else
    match WriteAll(w, last, entries[..|entries| - 1])
    case None => None
    case Some(w') =>
      var (index, e) := entries[|entries| - 1];
      if index <= last then Some(w') else Write(w', index, e)
  }

  lemma {:induction false} FailedBatch(w: Wal, last: int, entries: seq<(nat, WalEntry)>, k: nat)
    requires k <= |entries| && WriteAll(w, last, entries[..k]).None?
    ensures WriteAll(w, last, entries).None?
    decreases |entries|
  {
    if k < |entries| {
      assert entries[..|entries| - 1][..k] == entries[..k];
      FailedBatch(w, last, entries[..|entries| - 1], k);
    } else {
      assert entries[..k] == entries;
    }
  }

  class DB {
    var mtree: MultiTree
    var pendingLog: WalEntry
    var walChan: seq<(nat, WalEntry)>
    var disk: Disk
    var snapshotVersion: nat
    var rewrite: Rewrite
    var pruning: Pruning
    const synchronous: bool
    const readOnly: bool

    ghost function Value(): Db
      reads this, mtree
    {
      Db(disk, mtree.State(), pendingLog, walChan, snapshotVersion, rewrite, pruning)
    }

    constructor (disk: Disk, mtree: MultiTree, snapshotVersion: nat, synchronous: bool, readOnly: bool)
      ensures Value() == Fresh(disk, mtree.State()).(snapshotVersion := snapshotVersion) && this.mtree == mtree
      ensures this.synchronous == synchronous && this.readOnly == readOnly
    {
      this.disk, this.mtree, this.synchronous, this.readOnly := disk, mtree, synchronous, readOnly;
      this.snapshotVersion := snapshotVersion;
      pendingLog, walChan, rewrite, pruning := NO_CHANGES, [], Idle, NoPrune;
    }

    /** `ApplyUpgrades`. */
    method ApplyUpgrades(us: seq<Upgrade>) returns (ok: bool)
      requires mtree.Valid()
      modifies this, mtree
      ensures mtree == old(mtree)
      ensures ok <==> !readOnly && MultiTrees.ApplyUpgrades(old(Value()).live, us).Some?
      ensures ok ==> mtree.Valid()
      ensures !ok ==> var db, live := old(Value()), Value().live;
        && Value() == db.(live := db.live.(trees := live.trees))
        && (if readOnly then live == db.live else UpgradesStopped(db.live, us, live.trees))
      ensures ok ==> var db := old(Value());
        Value() == db.(live := MultiTrees.ApplyUpgrades(db.live, us).value,
                       pending := db.pending.(upgrades := db.pending.upgrades + us))
    {
      hide MultiTrees.ApplyUpgrades;
      if readOnly {
        return false;
      }
      ok := mtree.ApplyUpgrades(us);
      if ok {
        pendingLog := pendingLog.(upgrades := pendingLog.upgrades + us);
      }
    }

    /** The log side of `applyChangeSet`: a search through the pending change sets. */
    method MergeIntoLog(cs: Named<ChangeSet>)
      requires cs.item != []
      modifies this`pendingLog
      ensures pendingLog == old(pendingLog).(changesets := MergeOne(old(pendingLog).changesets, cs))
    {
      var css := pendingLog.changesets;
      var i := 0;
      while i < |css| && css[i].name != cs.name
        invariant 0 <= i <= |css| && forall j :: 0 <= j < i ==> css[j].name != cs.name
      {
        i := i + 1;
      }
      assert i == Find(css, cs.name);
      if i < |css| {
        pendingLog := pendingLog.(changesets := css[i := Named(cs.name, css[i].item + cs.item)]);
      } else {
        pendingLog := pendingLog.(changesets := SortByName(css + [cs]));
      }
    }

    /** `applyChangeSet`: merge into the log, then change the tree. Empty change sets are passed over. */
    method ApplyOne(cs: Named<ChangeSet>) returns (ok: bool)
      requires mtree.Valid()
      modifies this`pendingLog, mtree`trees
      ensures mtree.Valid()
      ensures pendingLog == old(pendingLog).(changesets := MergeOne(old(pendingLog).changesets, cs))
      ensures cs.item == [] ==> ok && mtree.State() == old(mtree.State())
      ensures cs.item != [] ==> var r := MultiTrees.ApplyChangeSet(old(mtree.State()), cs.name, cs.item);
        (ok <==> r.Some?) && mtree.State() == if ok then r.value else old(mtree.State())
    {
      hide ValidMulti;
      hide MultiTrees.ApplyChangeSet;
      if |cs.item| == 0 {
        return true;
      }
      hide MergeOne;
      MergeIntoLog(cs);
      ok := mtree.ApplyChangeSet(cs.name, cs.item);
    }

    /** `ApplyChangeSets`: the first call of a version is taken over as it is, later ones are merged store by store
        up to the first unknown one. */
    method ApplyChangeSets(css: ChangeSets) returns (ok: bool)
      requires mtree.Valid()
      modifies this`pendingLog, mtree`trees
      ensures mtree.Valid() && ValidMulti(old(Value()).live)
      ensures readOnly && css != [] ==> !ok && Value() == old(Value())
      ensures !readOnly || css == [] ==> var db := old(Value()); var e := Effective(db.pending, css);
        var r := MultiTrees.ApplyChangeSets(db.live, e);
        && (ok <==> r.Some?)
        && (ok ==> Value() == db.(live := r.value,
              pending := db.pending.(changesets := MergePending(db.pending.changesets, css))))
        && (!ok ==> exists k :: StopsAt(db.live, e, k) && Value() == db.(live := ChangedUpTo(db.live, e, k),
              pending := db.pending.(changesets := LoggedUpTo(db.pending.changesets, css, e, k))))
    {
      hide ValidMulti;
      hide Indexes;
      hide MultiTrees.ApplyChangeSets;
      hide Merge;
      if |css| == 0 {
        NothingToDo(mtree.State(), pendingLog);
        return true;
      }
      if readOnly {
        return false;
      }
      if |pendingLog.changesets| == 0 {
        pendingLog := pendingLog.(changesets := css);
        ok := mtree.ApplyChangeSets(css);
        return ok;
      }
      ok := MergeAll(css);
    }

    /** The loop of the slow path. */
    method MergeAll(css: ChangeSets) returns (ok: bool)
      requires mtree.Valid() && pendingLog.changesets != []
      modifies this`pendingLog, mtree`trees
      ensures mtree.Valid() && ValidMulti(old(Value()).live)
      ensures var db := old(Value()); var e := NonEmpty(css); var r := MultiTrees.ApplyChangeSets(db.live, e);
        && (ok <==> r.Some?)
        && (ok ==> Value() == db.(live := r.value,
              pending := db.pending.(changesets := Merge(db.pending.changesets, css))))
        && (!ok ==> exists k :: StopsAt(db.live, e, k) && Value() == db.(live := ChangedUpTo(db.live, e, k),
              pending := db.pending.(changesets := Merge(db.pending.changesets, e[..k + 1]))))
    {
      hide ValidMulti;
      hide Indexes;
      hide MultiTrees.ApplyChangeSet;
      hide MergeOne;
      hide NonEmpty;
      ghost var before, log := mtree.State(), pendingLog;
      NothingYet(before, log.changesets, css);
      for k := 0 to |css|
        invariant mtree.Valid() && pendingLog == log.(changesets := Merge(log.changesets, NonEmpty(css[..k])))
        invariant Some(mtree.State()) == MultiTrees.ApplyChangeSets(before, NonEmpty(css[..k]))
      {
        NonEmptyStep(css, k);
        EmptyMerge(pendingLog.changesets, css[k]);
        var done := ApplyOne(css[k]);
        if !done {
          ghost var e, j := NonEmpty(css), |NonEmpty(css[..k])|;
          FailedChanges(before, e, j + 1);
          assert StopsAt(before, e, j);
          return false;
        }
      }
      assert css[..|css|] == css;
      MergeNonEmpty(log.changesets, css);
      return true;
    }

    /** `Commit`, up to the background tasks: save, log, and start a new version. */
    method Commit() returns (ok: bool)
      requires mtree.Valid()
      modifies this`pendingLog, this`walChan, this`disk, mtree
      ensures ValidMulti(old(Value()).live)
      ensures readOnly ==> !ok && Value() == old(Value())
      ensures readOnly || !AtLastVersion(old(Value()).live) ==> mtree.Valid()
      ensures var db := old(Value()); var live := SaveMulti(db.live);
        var entry := (WalIndex(live.version, live.initialVersion), db.pending);
        var saved := db.(live := live, pending := NO_CHANGES);
        if readOnly then true
        else if AtLastVersion(db.live) then !ok && Value() == db.(live := db.live.(version := live.version))
        else if !synchronous then ok && Value() == saved.(queue := db.queue + [entry])
        else
          var w := WriteAll(db.disk.wal, LastIndex(db.disk.wal), [entry]);
          && (ok <==> w.Some?)
          && Value() == if ok then saved.(disk := db.disk.(wal := w.value)) else db.(live := live)
    {
      hide ValidMulti;
      hide WalIndex;
      hide SaveMulti;
      if readOnly {
        return false;
      }
      ok := mtree.SaveVersion();
      if !ok {
        return false;
      }
      var entry := (WalIndex(mtree.version, mtree.initialVersion), pendingLog);
      if !synchronous {
        walChan := walChan + [entry];
      } else {
        ok := WriteBatch([entry]);
        if !ok {
          return false;
        }
      }
      pendingLog := NO_CHANGES;
    }

    /** One round of the log writer: `writeEntry` for each entry, then `WriteBatch`, all or nothing. */
    method WriteBatch(entries: seq<(nat, WalEntry)>) returns (ok: bool)
      modifies this`disk
      ensures ok <==> WriteAll(old(disk).wal, LastIndex(old(disk).wal), entries).Some?
      ensures ok ==> Some(disk.wal) == WriteAll(old(disk).wal, LastIndex(old(disk).wal), entries)
      ensures disk == old(disk).(wal := disk.wal) && (!ok ==> disk == old(disk))
    {
      var last, w := LastIndex(disk.wal), disk.wal;
      for k := 0 to |entries|
        invariant WriteAll(disk.wal, last, entries[..k]) == Some(w)
      {
        assert entries[..k + 1][..k] == entries[..k] && entries[..k + 1][k] == entries[k];
        var (index, e) := entries[k];
        if index > last {
          var r := Write(w, index, e);
          if r.None? {
            FailedBatch(disk.wal, last, entries, k + 1);
            return false;
          }
          w := r.value;
        }
      }
      assert entries[..|entries|] == entries;
      disk := disk.(wal := w);
      return true;
    }

    /** The writer goroutine takes the first `count` entries from the queue. If they cannot be written they are lost. */
    method FlushQueue(count: nat) returns (ok: bool)
      requires count <= |walChan|
      modifies this`disk, this`walChan
      ensures var db := old(Value()); var w := WriteAll(db.disk.wal, LastIndex(db.disk.wal), db.queue[..count]);
        && (ok <==> w.Some?)
        && Value() == db.(disk := if ok then db.disk.(wal := w.value) else db.disk, queue := db.queue[count..])
    {
      var entries := walChan[..count];
      walChan := walChan[count..];
      ok := WriteBatch(entries);
    }

    /** `RewriteSnapshot`: a new snapshot directory of the committed state, then the link. Renaming fails when
        there already is a directory of that version. */
    method RewriteSnapshot(sha: Sha) returns (ok: bool)
      modifies this`disk
      ensures ok <==> !readOnly && mtree.version !in old(disk).snapshots
      ensures ok ==> var m := mtree.State();
        disk == Relink(AddSnapshot(old(disk), m.version, SaveFiles(sha, m)), m.version)
      ensures !ok ==> disk == old(disk)
    {
      if readOnly {
        return false;
      }
      var files := SaveFiles(sha, MultiState(mtree.initialVersion, mtree.version, mtree.trees));
      if mtree.version in disk.snapshots {
        return false;
      }
      disk := AddSnapshot(disk, mtree.version, files);
      disk := Relink(disk, mtree.version);
      return true;
    }

    /** `rewriteSnapshotBackground`, with its goroutine taken to its end: write the snapshot of the committed state,
        make it current, load it again and catch up with the log. If there already is a directory of that version, the
        goroutine gives up. */
    method RewriteSnapshotBackground(sha: Sha, ghost w: World) returns (ok: bool)
      requires mtree.Valid() && Inv(sha, w) && w.db == Value() && pendingLog == NO_CHANGES && Fits(mtree.State())
      modifies this`disk, this`rewrite
      ensures ok <==> !readOnly && old(rewrite).Idle?
      ensures var db := old(Value()); var v := db.live.version;
        var d := Relink(AddSnapshot(db.disk, v, SaveFiles(sha, db.live)), v);
        Value() == if !ok || v in db.disk.snapshots then db else db.(disk := d, rewrite := Ready(At(w.h, |w.h.log|)))
    {
      hide Inv;
      hide DiskOf;
      hide ValidHistory;
      hide At;
      hide Fits;
      hide SaveFiles;
      hide LoadFiles;
      hide CatchUp;
      hide WalIndex;
      hide ValidMulti;
      hide Indexes;
      if readOnly || !rewrite.Idle? {
        return false;
      }
      var version := mtree.version;
      RewriteSteps(sha, w);
      RewriteHasRoom(sha, w);
      hide Relink;
      hide AddSnapshot;
      hide NextVersion;
      hide LastIndex;
      rewrite := Writing(MultiState(mtree.initialVersion, version, mtree.trees));
      if version in disk.snapshots {
        rewrite := Idle;
        return true;
      }
      disk := AddSnapshot(disk, version, SaveFiles(sha, rewrite.clone));
      disk := Relink(disk, version);
      var ready := new MultiTree(LoadFiles(disk.snapshots[disk.current]).value);
      ok := ready.CatchupWAL(disk.wal, 0);
      rewrite := Ready(MultiState(ready.initialVersion, ready.version, ready.trees));
    }

    /** The switch in `checkBackgroundSnapshotRewrite`, once the log has caught up: replay what is left,
        install the new tree and re-apply the pending changes. */
    method SwitchTree(ready: MultiTree) returns (ok: bool)
      requires ready.Valid() && ready != mtree && disk.wal.first >= 1
      requires NextVersion(ready.version, ready.initialVersion) < UINT32_LIMIT
      requires NextVersion(ready.version, ready.initialVersion) + LastIndex(disk.wal)
        < UINT32_LIMIT + WalIndex(NextVersion(ready.version, ready.initialVersion), ready.initialVersion)
      modifies this, ready
      ensures var db := old(Value()); var m := CatchUp(old(ready.State()), db.disk.wal, 0);
        && (ok <==> m.Some? && ApplyEntry(m.value, db.pending).Some?)
        && (ok ==> mtree == ready && mtree.Valid() && Value() == db.(live := ApplyEntry(m.value, db.pending).value,
              snapshotVersion := db.disk.current, rewrite := Idle))
        && (m.None? ==> mtree == old(mtree) && Value() == db.(rewrite := Idle))
        && (m.Some? && !ok ==>
              && mtree == ready && Reapplied(m.value, db.pending, Value().live)
              && Value() == db.(live := Value().live, snapshotVersion := db.disk.current, rewrite := Idle))
    {
      hide ValidMulti;
      hide Indexes;
      hide CatchUp;
      hide MultiTrees.ApplyUpgrades;
      hide MultiTrees.ApplyChangeSets;
      rewrite := Idle;
      ok := ready.CatchupWAL(disk.wal, 0);
      if !ok {
        return false;
      }
      mtree, snapshotVersion := ready, disk.current;
      ok := mtree.ApplyUpgrades(pendingLog.upgrades);
      if !ok {
        return false;
      }
      ok := mtree.ApplyChangeSets(pendingLog.changesets);
    }

    /** `pruneSnapshots`: remove old snapshots, then truncate the log up to the oldest one left, or from version 0 if
        that cannot be told. The removals of `left` fail, which is only reported. The two listings are what the
        directory shows before and after the removals. */
    method Prune(ghost sha: Sha, before: seq<DirEntry>, after: seq<DirEntry>, keepRecent: nat, initialVersion: nat,
                 left: set<int>, ghost h: History, ghost orphans: set<nat>)
      requires DiskOf(sha, disk, h, orphans) && initialVersion == h.base.initialVersion
      requires SnapshotNames.Lists(before, disk.snapshots.Keys)
      requires SnapshotNames.Lists(after, set v | v in disk.snapshots && (Keeps(disk, keepRecent, v) || v in left))
      modifies this`disk
      ensures DiskOf(sha, disk, h, orphans)
      ensures !Parsable(old(disk).snapshots.Keys) ==> disk == old(disk)
      ensures Parsable(old(disk).snapshots.Keys) ==> AfterPrune(old(disk), disk, keepRecent, left, initialVersion)
    {
      hide DiskOf;
      hide StartsAt;
      hide SnapshotNames.Lists;
      hide WalIndex;
      DiskHistory(sha, disk, h, orphans);
      hide ValidHistory;
      hide LogOf;
      hide Keeps;
      hide RemoveAll;
      hide TruncateLog;
      hide AfterPrune;
      ghost var was, versions := disk, disk.snapshots.Keys;
      ghost var kept := set v | v in disk.snapshots && (Keeps(disk, keepRecent, v) || v in left);
      var ok, removed := SnapshotNames.PruneSnapshots(before, disk.current, keepRecent, versions);
      if !ok {
        return;
      }
      RemovedOld(disk, removed, left, keepRecent);
      RemoveAllKeep(sha, disk, h, orphans, removed - left);
      disk := RemoveAll(disk, removed - left);
      var first := FirstSnapshotVersion(after, kept);
      var earliest := if first.Found? then first.version else 0;
      TruncateKeeps(sha, disk, h, orphans, earliest);
      ghost var rest := disk;
      disk := TruncateLog(disk, earliest, initialVersion);
      PrunedToEarliest(was, rest, disk, keepRecent, left, earliest, initialVersion);
    }
  }

  /** In every reachable state whose log has no gap, a batch from the queue can be written, and the state
      after it is reachable too. */
  lemma {:induction false} BatchKeeps(sha: Sha, w: World, count: nat)
    requires Inv(sha, w) && count <= |w.db.queue|
    requires LastIndex(w.db.disk.wal) == |w.h.log| - |w.db.queue|
    ensures var last := LastIndex(w.db.disk.wal); var wal := WriteAll(w.db.disk.wal, last, w.db.queue[..count]);
      && wal.Some? && LastIndex(wal.value) == last + count
      && Inv(sha, w.(db := w.db.(disk := w.db.disk.(wal := wal.value), queue := w.db.queue[count..])))
    decreases count
  {
    hide Inv;
    hide Write;
    if count == 0 {
      assert w.db.queue[0..] == w.db.queue;
    } else {
      var k, last := count - 1, LastIndex(w.db.disk.wal);
      BatchKeeps(sha, w, k);
      assert w.db.queue[..count][..k] == w.db.queue[..k];
      var wal := WriteAll(w.db.disk.wal, last, w.db.queue[..k]).value;
      var w' := w.(db := w.db.(disk := w.db.disk.(wal := wal), queue := w.db.queue[k..]));
      FlushesHead(sha, w');
      assert w'.db.queue[0] == w.db.queue[k] && w'.db.queue[1..] == w.db.queue[count..];
    }
  }

  /** Without a gap the head of the queue is the next entry of the log. */
  lemma FlushesHead(sha: Sha, w: World)
    requires Inv(sha, w) && w.db.queue != [] && LastIndex(w.db.disk.wal) == |w.h.log| - |w.db.queue|
    ensures var (index, e) := w.db.queue[0]; var wal := Write(w.db.disk.wal, index, e);
      && index == LastIndex(w.db.disk.wal) + 1 && wal.Some? && LastIndex(wal.value) == index
      && Inv(sha, w.(db := w.db.(disk := w.db.disk.(wal := wal.value), queue := w.db.queue[1..])))
  {
    hide DiskOf;
    hide Describes;
    hide RewriteOk;
    hide PruneOk;
    FlushKeeps(sha, w);
  }

  /** What a rewrite without pending changes does: the committed state is added as the current snapshot; it can be loaded
      again, and catching up with the log ends at the same state. */
  lemma RewriteSteps(sha: Sha, w: World)
    requires Inv(sha, w) && w.db.pending == NO_CHANGES && Fits(w.db.live)
    ensures ValidHistory(w.h) && w.db.live == At(w.h, |w.h.log|)
    ensures var db := w.db; var v := db.live.version; v !in db.disk.snapshots ==>
      var d := Relink(AddSnapshot(db.disk, v, SaveFiles(sha, db.live)), v);
      && DiskOf(sha, d, w.h, w.orphans - {v}) && LoadFiles(d.snapshots[v]) == Some(db.live)
      && Recovered(d, w.h) == |w.h.log| && CatchUp(db.live, d.wal, 0) == Some(db.live)
  {
    hide DiskOf;
    hide At;
    hide ValidHistory;
    hide Fits;
    hide SaveFiles;
    hide LoadFiles;
    hide CatchUp;
    hide WalIndex;
    LiveFacts(sha, w);
    DiskHistory(sha, w.db.disk, w.h, w.orphans);
    NothingPendingIsLive(At(w.h, |w.h.log|), w.db.live);
    var v, n := w.db.live.version, |w.h.log|;
    if v !in w.db.disk.snapshots {
      AddKeeps(sha, w.db.disk, w.h, w.orphans, n);
      var d := AddSnapshot(w.db.disk, v, SaveFiles(sha, w.db.live));
      RelinkKeeps(sha, d, w.h, w.orphans - {v}, v);
      AtVersion(w.h, n);
      IndexAt(w.h, n);
      RetainedLoads(sha, Relink(d, v), w.h, w.orphans - {v}, v);
      CatchUpFollows(d.wal, w.h, n);
    }
  }

  /** The new snapshot can be opened, and has room for the log entries that may follow it. */
  lemma RewriteHasRoom(sha: Sha, w: World)
    requires Inv(sha, w) && w.db.pending == NO_CHANGES && Fits(w.db.live)
    ensures var db := w.db; var v := db.live.version; v !in db.disk.snapshots ==>
      var d := Relink(AddSnapshot(db.disk, v, SaveFiles(sha, db.live)), v);
      var next := NextVersion(db.live.version, db.live.initialVersion);
      && d.current == v && v in d.snapshots && d.wal.first >= 1
      && next < UINT32_LIMIT && next + LastIndex(d.wal) < UINT32_LIMIT + WalIndex(next, db.live.initialVersion)
  {
    hide Inv;
    hide DiskOf;
    hide Fits;
    hide SaveFiles;
    hide LoadFiles;
    hide CatchUp;
    hide WalIndex;
    hide NextVersion;
    hide ValidHistory;
    hide At;
    hide Recovered;
    RewriteSteps(sha, w);
    var v := w.db.live.version;
    if v !in w.db.disk.snapshots {
      var d := Relink(AddSnapshot(w.db.disk, v, SaveFiles(sha, w.db.live)), v);
      SnapshotLoads(sha, d, w.h, w.orphans - {v}, v);
      DiskHistory(sha, d, w.h, w.orphans - {v});
    }
  }

  datatype Options = Options(
    target: nat,
    overwrite: bool,
    readOnly: bool,
    createIfMissing: bool,
    initialVersion: nat,
    initialStores: seq<Bytes>,
    synchronous: bool)

  /** What opening a directory gives: a process, if there is one, and the directory after it. Target version 0 means
      the newest; otherwise the newest snapshot up to the target is the one to start from. */
  ghost predicate IsOpened(disk: Disk, h: History, opts: Options, left: set<nat>, value: Option<Db>, after: Disk) {
    var target := opts.target;
    && (target == 0 ==>
          && Recovered(disk, h) <= |h.log| && ValidHistory(h)
          && value == Some(Fresh(disk, At(h, Recovered(disk, h)))) && after == disk)
    && (target > 0 && !Parsable(disk.snapshots.Keys) ==> value == None && after == disk)
    && (target > 0 && (forall v :: v in disk.snapshots ==> v > target) ==> value == None && after == disk)
    && (target > 0 && Parsable(disk.snapshots.Keys) ==> forall v :: IsSought(disk, target, v) ==>
          OpenedFrom(disk, v, h.base.initialVersion, opts, left, value, after))
  }

  /** The same when snapshot `v` is the one to start from. */
  ghost predicate OpenedFrom(
    disk: Disk, v: nat, initialVersion: nat, opts: Options, left: set<nat>, value: Option<Db>, after: Disk) {
    var target, m := opts.target, LoadFrom(disk, v, opts.target);
    if m.None? then value == None && after == disk
    else if !opts.overwrite then value == Some(Fresh(disk, m.value).(snapshotVersion := v)) && after == disk
    else
      && after == AfterRollback(disk, target, v, initialVersion, left)
      && value == if Rollback(disk, target, v, initialVersion, left).Some? then Some(Fresh(after, m.value)) else None
  }

  lemma NothingOpened(disk: Disk, h: History, opts: Options, left: set<nat>)
    requires opts.target > 0
    requires !Parsable(disk.snapshots.Keys) || forall v :: v in disk.snapshots ==> v > opts.target
    ensures IsOpened(disk, h, opts, left, None, disk)
  {
    hide Parsable;
    hide OpenedFrom;
  }

  lemma SoughtOpened(disk: Disk, h: History, opts: Options, left: set<nat>, v: nat, value: Option<Db>, after: Disk)
    requires opts.target > 0 && Parsable(disk.snapshots.Keys) && IsSought(disk, opts.target, v)
    requires OpenedFrom(disk, v, h.base.initialVersion, opts, left, value, after)
    ensures IsOpened(disk, h, opts, left, value, after)
  {
    hide Parsable;
    hide OpenedFrom;
  }

  ghost function ValueOf(db: DB?): Option<Db>
    reads db, if db == null then {} else {db.mtree}
  {
    if db == null then None else Some(db.Value())
  }

  /** Moves the link, truncates the log, and removes the newer snapshots. */
  method RollBack(disk: Disk, target: nat, version: nat, initialVersion: nat, left: set<nat>)
    returns (ok: bool, after: Disk)
    ensures ok <==> Rollback(disk, target, version, initialVersion, left).Some?
    ensures after == AfterRollback(disk, target, version, initialVersion, left) && after.current == version
  {
    hide WalIndex;
    after := disk;
    if version != disk.current {
      after := Relink(after, version);
    }
    var w := TruncateBack(after.wal, WalIndex(target, initialVersion));
    if w.None? {
      return false, after;
    }
    after := after.(wal := w.value);
    after := DropNewer(after, target, left);
    ok := true;
  }

  /** The part of `Load` that reads the directory, and rolls it back if asked to; its removals of the directories in
      `left` fail. The directory is returned as it is after the call, also after an error. */
  method Open(sha: Sha, disk: Disk, entries: seq<DirEntry>, opts: Options, left: set<nat>,
              ghost h: History, ghost orphans: set<nat>) returns (db: DB?, after: Disk)
    requires DiskOf(sha, disk, h, orphans) && opts.target < UINT32_LIMIT
    requires SnapshotNames.Lists(entries, disk.snapshots.Keys)
    ensures db != null ==> fresh(db) && fresh(db.mtree) && db.mtree.Valid()
    ensures db != null ==> db.readOnly == opts.readOnly && db.pendingLog == NO_CHANGES
    ensures IsOpened(disk, h, opts, left, ValueOf(db), after)
  {
    hide DiskOf;
    hide LoadFiles;
    hide At;
    hide SnapshotNames.Lists;
    hide WalIndex;
    hide CatchUp;
    hide ValidHistory;
    hide ValidMulti;
    hide Indexes;
    hide Rollback;
    hide AfterRollback;
    hide IsOpened;
    hide Parsable;
    hide LoadFrom;
    hide Recovered;
    DiskHistory(sha, disk, h, orphans);
    LoadIsExact(sha, disk, h, orphans);
    after := disk;
    var target, version := opts.target, disk.current;
    if target > 0 {
      var sought := SeekSnapshot(entries, target, disk.snapshots.Keys);
      if !sought.Found? {
        NothingOpened(disk, h, opts, left);
        return null, after;
      }
      version := sought.version;
    }
    SnapshotLoads(sha, disk, h, orphans, version);
    LoadFromFiles(disk, version, target);
    var mtree := new MultiTree(LoadFiles(disk.snapshots[version]).value);
    if target == 0 || target > mtree.version {
      var ok := mtree.CatchupWAL(disk.wal, target);
      if !ok {
        SoughtOpened(disk, h, opts, left, version, None, after);
        return null, after;
      }
    }
    if opts.overwrite && target > 0 {
      var ok;
      ok, after := RollBack(disk, target, version, mtree.initialVersion, left);
      if !ok {
        SoughtOpened(disk, h, opts, left, version, None, after);
        return null, after;
      }
    }
    db := new DB(after, mtree, version, opts.synchronous, opts.readOnly);
    if target > 0 {
      SoughtOpened(disk, h, opts, left, version, ValueOf(db), after);
    } else {
      NewestOpened(disk, h, opts, left, db.mtree.State());
    }
  }

  lemma LoadFromFiles(disk: Disk, v: nat, target: nat)
    requires v in disk.snapshots && LoadFiles(disk.snapshots[v]).Some? && ValidMulti(LoadFiles(disk.snapshots[v]).value)
    ensures var m := LoadFiles(disk.snapshots[v]).value;
      LoadFrom(disk, v, target) == if target == 0 || target > m.version then CatchUp(m, disk.wal, target) else Some(m)
  {
    hide LoadFiles;
    hide ValidMulti;
    hide CatchUp;
  }

  lemma NewestOpened(disk: Disk, h: History, opts: Options, left: set<nat>, m: MultiState)
    requires opts.target == 0 && Recovered(disk, h) <= |h.log| && ValidHistory(h) && m == At(h, Recovered(disk, h))
    ensures IsOpened(disk, h, opts, left, Some(Fresh(disk, m)), disk)
  {
    hide ValidHistory;
    hide At;
    hide Recovered;
  }

  // ----- New directories and initial stores -----

  /** `initEmptyDB`: one snapshot of version 0, and an empty log. */
  function NewDirectory(sha: Sha, initialVersion: nat): Disk {
    Disk(map[0 := SaveFiles(sha, EmptyBase(initialVersion))], 0, Wal(1, []))
  }

  lemma NewDirectoryIsValid(sha: Sha, initialVersion: nat)
    requires initialVersion + 1 < UINT32_LIMIT
    ensures DiskOf(sha, NewDirectory(sha, initialVersion), History(EmptyBase(initialVersion), []), {})
  {
    hide DiskOf;
    hide SaveFiles;
    hide Describes;
    hide RewriteOk;
    GenesisIsOk(sha, EmptyBase(initialVersion));
  }

  /** What `Load` makes of a process that was opened. At version 0 it gets the initial stores: this succeeds exactly when
      the names are distinct and new, and then adds exactly these stores, empty, with a pending log that replays to
      them. */
  ghost predicate StoresGiven(value: Option<Db>, result: Option<Db>, opts: Options) {
    var names := opts.initialStores;
    if value.None? then result == None
    else if opts.readOnly || value.value.live.version != 0 || names == [] then result == value
    else
      var x := value.value;
      && ValidMulti(x.live)
      && (result.Some? <==> Distinct(names) && forall i :: 0 <= i < |names| ==> !HasName(x.live.trees, names[i]))
      && (result.Some? ==>
            var y := result.value;
            && y == x.(live := y.live, pending := y.pending)
            && HasAdded(x.live, names, y.live) && ApplyEntry(x.live, y.pending) == Some(y.live))
  }

  /** `Load`: options that do not go together and a missing directory are refused; otherwise the directory, which may be
      a new one, is opened, and a process at version 0 gets the initial stores. */
  method Load(sha: Sha, dir: Option<Disk>, entries: seq<DirEntry>, opts: Options, left: set<nat>,
              ghost h: History, ghost orphans: set<nat>) returns (db: DB?, after: Option<Disk>)
    requires opts.target < UINT32_LIMIT && opts.initialVersion + 1 < UINT32_LIMIT
    requires dir.Some? ==> DiskOf(sha, dir.value, h, orphans) && SnapshotNames.Lists(entries, dir.value.snapshots.Keys)
    requires dir.None? ==> h == History(EmptyBase(opts.initialVersion), []) && SnapshotNames.Lists(entries, {0})
    ensures db != null ==> fresh(db) && fresh(db.mtree) && db.mtree.Valid()
    ensures opts.readOnly && (opts.createIfMissing || opts.overwrite) ==> db == null && after == dir
    ensures dir.None? && !opts.createIfMissing ==> db == null && after == None
    ensures !(opts.readOnly && (opts.createIfMissing || opts.overwrite)) && (dir.Some? || opts.createIfMissing) ==>
      && after.Some?
      && exists value :: StoresGiven(value, ValueOf(db), opts)
           && IsOpened(if dir.Some? then dir.value else NewDirectory(sha, opts.initialVersion), h, opts, left, value, after.value)
  {
    hide DiskOf;
    hide SaveFiles;
    hide SnapshotNames.Lists;
    hide IsOpened;
    hide MultiTrees.ApplyUpgrades;
    hide ApplyEntry;
    hide ValidMulti;
    hide Indexes;
    hide HasAdded;
    hide HasName;
    hide Distinct;
    after := dir;
    if opts.readOnly && (opts.createIfMissing || opts.overwrite) {
      return null, after;
    }
    if dir.None? && opts.createIfMissing {
      NewDirectoryIsValid(sha, opts.initialVersion);
      after := Some(NewDirectory(sha, opts.initialVersion));
      assert after.value.snapshots.Keys == {0};
    }
    if after.None? {
      return null, after;
    }
    var disk;
    db, disk := Open(sha, after.value, entries, opts, left, h, if dir.Some? then orphans else {});
    after := Some(disk);
    ghost var value := ValueOf(db);
    if db != null && !db.readOnly && db.mtree.version == 0 && |opts.initialStores| > 0 {
      AddsExactly(db.mtree.State(), opts.initialStores);
      assert [] + AddStores(opts.initialStores) == AddStores(opts.initialStores);
      var ok := db.ApplyUpgrades(AddStores(opts.initialStores));
      if !ok {
        db := null;
      }
    }
    assert StoresGiven(value, ValueOf(db), opts);
  }

  /** Any snapshot that can be found can be opened and has room for the log entries that may follow it. */
  lemma SnapshotLoads(sha: Sha, d: Disk, h: History, orphans: set<nat>, v: nat)
    requires DiskOf(sha, d, h, orphans) && v in d.snapshots
    ensures LoadFiles(d.snapshots[v]).Some?
    ensures var m := LoadFiles(d.snapshots[v]).value; var next := NextVersion(m.version, m.initialVersion);
      && ValidMulti(m) && m.version == v && m.initialVersion == h.base.initialVersion
      && next < UINT32_LIMIT && next + LastIndex(d.wal) < UINT32_LIMIT + WalIndex(next, m.initialVersion)
  {
    hide LoadFiles;
    hide At;
    hide After;
    hide Retained;
    hide Lockstep;
    hide Sorted;
    hide Clean;
    hide WalIndex;
    hide NextVersion;
    assert Readable(d.snapshots[v], h, v);
    VersionIndex(h, IndexOf(h, v));
  }

  /** A prune leaves exactly the snapshots to be kept and those whose removal failed, and the log from the oldest of
      them on. */
  ghost predicate AfterPrune(d: Disk, d': Disk, keepRecent: nat, left: set<int>, initialVersion: nat) {
    && d'.current == d.current && StartsAfterOldest(d.wal, d', initialVersion)
    && d'.snapshots == map v | v in d.snapshots && (Keeps(d, keepRecent, v) || v in left) :: d.snapshots[v]
  }

  lemma RemovedOld(d: Disk, removed: set<int>, left: set<int>, keepRecent: nat)
    requires d.current in d.snapshots && forall v :: v in removed ==> v in d.snapshots && v < d.current
    requires forall v :: v in d.snapshots && v < d.current ==>
      (v in removed <==> |Newer(d.snapshots.Keys, v, d.current)| >= keepRecent)
    ensures var d' := RemoveAll(d, removed - left);
      && d' == d.(snapshots := map v | v in d.snapshots && (Keeps(d, keepRecent, v) || v in left) :: d.snapshots[v])
      && d.current in d'.snapshots
      && d'.snapshots.Keys == set v | v in d.snapshots && (Keeps(d, keepRecent, v) || v in left)
  {}

  lemma PrunedToEarliest(d: Disk, rest: Disk, d': Disk, keepRecent: nat, left: set<int>, e: nat, initialVersion: nat)
    requires IsEarliest(rest, e) && rest.wal == d.wal && rest.current == d.current
    requires rest.snapshots == map v | v in d.snapshots && (Keeps(d, keepRecent, v) || v in left) :: d.snapshots[v]
    requires d' == rest.(wal := d'.wal) && StartsAt(rest.wal, d'.wal, WalIndex(e + 1, initialVersion))
    ensures AfterPrune(d, d', keepRecent, left, initialVersion)
  {
    hide StartsAt;
    hide WalIndex;
    hide Keeps;
    assert IsEarliest(d', e);
  }

  /** Whether a prune keeps version `v`. */
  ghost predicate Keeps(d: Disk, keepRecent: nat, v: nat) {
    v >= d.current || |Newer(d.snapshots.Keys, v, d.current)| < keepRecent
  }

  function RemoveAll(d: Disk, removed: set<int>): Disk {
    d.(snapshots := map v | v in d.snapshots && v !in removed :: d.snapshots[v])
  }

  lemma RemoveAllKeep(sha: Sha, d: Disk, h: History, orphans: set<nat>, removed: set<int>)
    requires DiskOf(sha, d, h, orphans) && d.current !in removed
    ensures DiskOf(sha, RemoveAll(d, removed), h, orphans)
  {
    hide Readable;
    hide ValidHistory;
    hide SaveFiles;
    hide Fits;
    hide At;
    forall u | u in d.snapshots && u !in removed && u !in orphans ensures Retained(sha, RemoveAll(d, removed), h, u) {
      assert Retained(sha, d, h, u);
    }
  }

  /** The trees after re-applying a pending log failed, at the version of `m`: the upgrades failed, or the changes are
      applied up to the first unknown store. */
  ghost predicate Reapplied(m: MultiState, pending: WalEntry, live: MultiState)
    requires ValidMulti(m)
  {
    && live.version == m.version && live.initialVersion == m.initialVersion
    && var m1 := MultiTrees.ApplyUpgrades(m, pending.upgrades);
    if m1.None? then UpgradesStopped(m, pending.upgrades, live.trees) else
      && ValidMulti(m1.value)
      && exists k :: StopsAt(m1.value, pending.changesets, k) && live == ChangedUpTo(m1.value, pending.changesets, k)
  }

  // ----- Empty change sets -----

  function NonEmpty(css: ChangeSets): ChangeSets {
    if css == [] then [] else
    var last := css[|css| - 1];
    NonEmpty(css[..|css| - 1]) + if last.item == [] then [] else [last]
  }

  /** The change sets that reach the trees: all of them in the first call of a version, later only those with pairs. */
  function Effective(pending: WalEntry, css: ChangeSets): ChangeSets {
    if pending.changesets == [] then css else NonEmpty(css)
  }

  /** The pending change sets after a call that stopped at position `k` of the effective ones: the first call of a
      version is logged as a whole, later ones up to and including the unknown store. */
  function LoggedUpTo(pending: ChangeSets, css: ChangeSets, effective: ChangeSets, k: nat): ChangeSets
    requires k < |effective|
  {
    if pending == [] then css else Merge(pending, effective[..k + 1])
  }

  lemma NothingYet(m: MultiState, pending: ChangeSets, css: ChangeSets)
    requires ValidMulti(m)
    ensures Merge(pending, NonEmpty(css[..0])) == pending && MultiTrees.ApplyChangeSets(m, NonEmpty(css[..0])) == Some(m)
  {}

  lemma NonEmptyStep(css: ChangeSets, k: nat)
    requires k < |css|
    ensures var e := NonEmpty(css[..k]);
      && NonEmpty(css[..k + 1]) == (if css[k].item == [] then e else e + [css[k]])
      && (css[k].item != [] ==>
            && |e| < |NonEmpty(css)| && NonEmpty(css)[..|e|] == e && NonEmpty(css)[..|e| + 1] == e + [css[k]]
            && (e + [css[k]])[..|e|] == e)
  {
    NonEmptyLast(css, k);
    NonEmptyPrefix(css, k + 1);
    hide NonEmpty;
    if css[k].item != [] { PrefixParts(NonEmpty(css[..k]), css[k], NonEmpty(css)); }
  }

  lemma NonEmptyLast(css: ChangeSets, k: nat)
    requires k < |css|
    ensures NonEmpty(css[..k + 1]) == NonEmpty(css[..k]) + if css[k].item == [] then [] else [css[k]]
    ensures NonEmpty(css[..k]) + [] == NonEmpty(css[..k])
  {
    assert css[..k + 1][..k] == css[..k] && css[..k + 1][k] == css[k];
  }

  lemma PrefixParts<T>(a: seq<T>, x: T, all: seq<T>)
    requires a + [x] <= all
    ensures |a| < |all| && all[..|a|] == a && all[..|a| + 1] == a + [x] && (a + [x])[..|a|] == a
  {
    assert all[..|a| + 1] == a + [x];
  }

  lemma {:induction false} NonEmptyPrefix(css: ChangeSets, k: nat)
    requires k <= |css|
    ensures NonEmpty(css[..k]) <= NonEmpty(css)
    decreases |css|
  {
    if k < |css| {
      assert css[..|css| - 1][..k] == css[..k];
      NonEmptyPrefix(css[..|css| - 1], k);
    } else {
      assert css[..k] == css;
    }
  }

  lemma {:induction false} MergeNonEmpty(css: ChangeSets, more: ChangeSets)
    ensures Merge(css, more) == Merge(css, NonEmpty(more))
    decreases |more|
  {
    hide MergeOne;
    if more != [] {
      var front, last := more[..|more| - 1], more[|more| - 1];
      MergeNonEmpty(css, front);
      EmptyMerge(Merge(css, front), last);
      assert NonEmpty(front) + [] == NonEmpty(front);
      assert (NonEmpty(front) + [last])[..|NonEmpty(front)|] == NonEmpty(front);
    }
  }

  /** When all stores are known, passing over empty change sets makes no difference. */
  lemma {:induction false} EffectiveIsAll(m: MultiState, css: ChangeSets)
    requires ValidMulti(m) && MultiTrees.ApplyChangeSets(m, css).Some?
    ensures MultiTrees.ApplyChangeSets(m, NonEmpty(css)) == MultiTrees.ApplyChangeSets(m, css)
    decreases |css|
  {
    hide ValidMulti;
    hide MultiTrees.ApplyChangeSet;
    if css != [] {
      var front, last := css[..|css| - 1], css[|css| - 1];
      EffectiveIsAll(m, front);
      EmptyChange(MultiTrees.ApplyChangeSets(m, front).value, last);
      assert NonEmpty(front) + [] == NonEmpty(front);
      assert (NonEmpty(front) + [last])[..|NonEmpty(front)|] == NonEmpty(front);
    }
  }

  lemma NothingToDo(m: MultiState, pending: WalEntry)
    requires ValidMulti(m)
    ensures Effective(pending, []) == [] && MultiTrees.ApplyChangeSets(m, []) == Some(m)
    ensures MergePending(pending.changesets, []) == pending.changesets
  {}

  lemma EmptyChange(m: MultiState, cs: Named<ChangeSet>)
    requires ValidMulti(m)
    ensures var r := MultiTrees.ApplyChangeSet(m, cs.name, cs.item); r.Some? && cs.item == [] ==> r.value == m
  {
    hide Less;
    hide WellFormedState;
  }

  lemma EmptyMerge(css: ChangeSets, cs: Named<ChangeSet>)
    ensures cs.item == [] ==> MergeOne(css, cs) == css
  {}

  // ----- Committing again after opening an old version -----

  /** The queue entries for the commits after index `i`. */
  function Indexed(i: nat, es: seq<WalEntry>): seq<(nat, WalEntry)> {
    seq(|es|, k requires 0 <= k < |es| => (i + k + 1, es[k]))
  }

  lemma {:induction false} SkipsAll(w: Wal, last: int, entries: seq<(nat, WalEntry)>)
    requires forall k :: 0 <= k < |entries| ==> entries[k].0 <= last
    ensures WriteAll(w, last, entries) == Some(w)
    decreases |entries|
  {
    if entries != [] { SkipsAll(w, last, entries[..|entries| - 1]); }
  }

  lemma SkipsIndexed(w: Wal, i: nat, es: seq<WalEntry>)
    requires i + |es| <= LastIndex(w)
    ensures WriteAll(w, LastIndex(w), Indexed(i, es)) == Some(w)
  {
    SkipsAll(w, LastIndex(w), Indexed(i, es));
  }

  /** The entries are the ones of the history after index `i`. */
  ghost predicate Repeats(h: History, i: nat, es: seq<WalEntry>)
    requires i + |es| <= |h.log|
  {
    es == h.log[i..i + |es|]
  }

  /** The versions of the commits made again, and their states if the entries are those of the history. */
  lemma {:induction false} CommittedAgain(h: History, i: nat, es: seq<WalEntry>)
    requires ValidHistory(h) && i + |es| <= |h.log|
    ensures var m := After(At(h, i), es);
      && (m.Some? ==> m.value.version == VersionOf(h, i + |es|))
      && (Repeats(h, i, es) ==> m == Some(At(h, i + |es|)))
    decreases |es|
  {
    hide CommitEntry;
    hide At;
    AtVersion(h, i);
    if es != [] {
      var n := |es| - 1;
      CommittedAgain(h, i, es[..n]);
      AtStep(h, i + |es|);
      NextVersionAt(h, i + n);
      assert Repeats(h, i, es) ==> es[..n] == h.log[i..i + n] && es[n] == h.log[i + n];
    }
  }

  lemma NextVersionAt(h: History, i: nat)
    requires ValidHistory(h) && i <= |h.log|
    ensures NextVersion(VersionOf(h, i), h.base.initialVersion) == VersionOf(h, i + 1)
  {
    hide After;
    hide CleanMulti;
    VersionIndex(h, i);
  }

  /** A database opened at an old version without overwriting commits versions that the log has already. The log keeps
      its entries, so a crash gives back the old commits. The new ones are among them exactly when they lead to the same
      state, as they do when the entries are the same. */
  lemma CommitsAreSkipped(sha: Sha, d: Disk, h: History, orphans: set<nat>, i: nat, es: seq<WalEntry>)
    requires DiskOf(sha, d, h, orphans) && ValidHistory(h) && i + |es| <= LastIndex(d.wal) <= |h.log|
    requires After(At(h, i), es).Some?
    ensures WriteAll(d.wal, LastIndex(d.wal), Indexed(i, es)) == Some(d.wal)
    ensures Recovered(d, h) <= |h.log| && LoadFrom(d, d.current, 0) == Some(At(h, Recovered(d, h)))
    ensures var m := After(At(h, i), es).value;
      && (IsCommitted(h, m) <==> m == At(h, i + |es|))
      && (Repeats(h, i, es) ==> m == At(h, i + |es|))
  {
    hide *;
    LoadIsExact(sha, d, h, orphans);
    SkipsIndexed(d.wal, i, es);
    CommittedAgain(h, i, es);
    CommittedOnce(h, After(At(h, i), es).value, i + |es|);
  }

  /** A version has one committed state. */
  lemma CommittedOnce(h: History, m: MultiState, i: nat)
    requires ValidHistory(h) && i <= |h.log| && m.version == VersionOf(h, i)
    ensures IsCommitted(h, m) <==> m == At(h, i)
  {
    hide At;
    hide ValidHistory;
    if IsCommitted(h, m) {
      var k :| 0 <= k <= |h.log| && m == At(h, k);
      AtVersion(h, k);
      if k <= i { SameVersion(h, k, i); } else { SameVersion(h, i, k); }
    }
  }
}
