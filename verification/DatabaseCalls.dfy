/** The methods of `DB` take the state machine of `Databases` from one state to another: each is a run of its steps. */
module DatabaseCalls {
  import opened Bytes
  import opened AvlHeight
  import opened MerkleHash
  import opened TreeStates
  import opened MultiTrees
  import opened PendingLog
  import opened MultiSnapshots
  import opened Recovery
  import opened Disks
  import opened DiskSteps
  import opened Databases
  import opened DatabaseSafety
  import opened MultiTreeObjects
  import opened SnapshotNames
  import opened StraySnapshots
  import opened DatabaseObjects
  import opened UpgradeReplays

  /** The object is a process in state `w` of the machine. */
  ghost predicate Is(db: DB, w: World)
    reads db, db.mtree
  {
    db.mtree.Valid() && db.Value() == w.db && !db.readOnly
  }

  // ----- Changes and commits -----

  method CallApplyUpgrades(db: DB, us: seq<Upgrade>, ghost sha: Sha, ghost w: World) returns (ok: bool)
    requires Is(db, w) && Inv(sha, w) && Enabled(sha, w, UpgradeStores(us))
    modifies db, db.mtree
    ensures ok && db.mtree == old(db.mtree)
    ensures var w' := Apply(sha, w, UpgradeStores(us)); Is(db, w') && Inv(sha, w')
  {
    hide Inv;
    hide ValidMulti;
    hide Indexes;
    hide ValidHistory;
    hide Upgradable;
    hide MultiTrees.ApplyUpgrades;
    UpgradeKeeps(sha, w, us);
    ok := db.ApplyUpgrades(us);
  }

  method CallApplyChangeSets(db: DB, css: ChangeSets, ghost sha: Sha, ghost w: World) returns (ok: bool)
    requires Is(db, w) && Inv(sha, w) && Enabled(sha, w, ChangeStores(css))
    modifies db`pendingLog, db.mtree`trees
    ensures ok && var w' := Apply(sha, w, ChangeStores(css)); Is(db, w') && Inv(sha, w')
  {
    hide Inv;
    hide ValidMulti;
    hide Indexes;
    hide Mergeable;
    hide MultiTrees.ApplyChangeSets;
    hide MergePending;
    ChangeKeeps(sha, w, css);
    EffectiveIsAll(db.mtree.State(), css);
    ok := db.ApplyChangeSets(css);
  }

  /** An asynchronous `Commit` is the step of that name. */
  method CallCommit(db: DB, ghost sha: Sha, ghost w: World) returns (ok: bool)
    requires Is(db, w) && Inv(sha, w) && Enabled(sha, w, Commit) && !db.synchronous
    modifies db`pendingLog, db`walChan, db`disk, db.mtree
    ensures ok && var w' := Apply(sha, w, Commit); Is(db, w') && Inv(sha, w')
  {
    hide Inv;
    hide ValidMulti;
    hide Indexes;
    hide SaveMulti;
    hide WalIndex;
    CommitKeeps(sha, w);
    NotAtLast(sha, w);
    ok := db.Commit();
  }

  lemma NotAtLast(sha: Sha, w: World)
    requires Inv(sha, w)
    ensures ValidMulti(w.db.live) && !AtLastVersion(w.db.live)
  {
    hide Inv;
    hide After;
    hide WellFormedState;
    hide WalIndex;
    LiveFacts(sha, w);
    assert NextVersion(w.db.live.version, w.db.live.initialVersion) < UINT32_LIMIT;
    forall i | 0 <= i < |w.db.live.trees| ensures w.db.live.trees[i].item.version < UINT32_LIMIT - 1 {
      assert InStep(w.db.live.trees[i].item, NextVersion(w.db.live.version, w.db.live.initialVersion));
    }
  }

  // ----- The log writer -----

  ghost function Flushes(n: nat): seq<Action> {
    seq(n, _ => Flush)
  }

  lemma {:induction false} RunSplit(sha: Sha, w: World, a: seq<Action>, b: seq<Action>)
    requires CanRun(sha, w, a + b)
    ensures CanRun(sha, w, a) && CanRun(sha, Run(sha, w, a), b)
    ensures Run(sha, w, a + b) == Run(sha, Run(sha, w, a), b)
    decreases |a|
  {
    hide Enabled;
    hide Apply;
    if a == [] {
      assert a + b == b;
    } else {
      assert (a + b)[0] == a[0] && (a + b)[1..] == a[1..] + b;
      RunSplit(sha, Apply(sha, w, a[0]), a[1..], b);
    }
  }

  /** Flushing entry by entry is writing them as one batch. */
  lemma {:induction false} FlushesAreBatch(sha: Sha, w: World, n: nat)
    requires Inv(sha, w) && CanRun(sha, w, Flushes(n))
    ensures n <= |w.db.queue| && Inv(sha, Run(sha, w, Flushes(n)))
    ensures var wal := WriteAll(w.db.disk.wal, LastIndex(w.db.disk.wal), w.db.queue[..n]);
      wal.Some? && Run(sha, w, Flushes(n)) ==
        w.(db := w.db.(disk := w.db.disk.(wal := wal.value), queue := w.db.queue[n..]))
    decreases n
  {
    hide Inv;
    hide Enabled;
    hide Apply;
    hide Write;
    if n > 0 {
      var k := n - 1;
      assert Flushes(n) == Flushes(k) + [Flush];
      RunSplit(sha, w, Flushes(k), [Flush]);
      FlushesAreBatch(sha, w, k);
      var w' := Run(sha, w, Flushes(k));
      OneMoreFlush(sha, w, w', k);
      assert w.db.queue[..n][..k] == w.db.queue[..k];
      assert w.db.queue[k..][1..] == w.db.queue[n..];
    }
  }

  lemma OneMoreFlush(sha: Sha, w: World, w': World, k: nat)
    requires Inv(sha, w) && Inv(sha, w') && Enabled(sha, w', Flush)
    requires k <= |w.db.queue| && w'.db.queue == w.db.queue[k..] && w'.h == w.h
    ensures k < |w.db.queue| && Inv(sha, Apply(sha, w', Flush))
    ensures var (index, e) := w.db.queue[k];
      && LastIndex(w.db.disk.wal) < index && Write(w'.db.disk.wal, index, e).Some?
      && Apply(sha, w', Flush) == w'.(db := w'.db.(
           disk := w'.db.disk.(wal := Write(w'.db.disk.wal, index, e).value), queue := w'.db.queue[1..]))
  {
    hide DiskOf;
    hide Describes;
    hide RewriteOk;
    hide PruneOk;
    hide At;
    hide WalIndex;
    FlushKeeps(sha, w');
    assert w'.db.queue[0] == w.db.queue[k];
  }

  /** A round of the log writer that can write its batch is as many flushes. */
  method CallFlushQueue(db: DB, count: nat, ghost sha: Sha, ghost w: World) returns (ok: bool)
    requires Is(db, w) && Inv(sha, w) && count <= |db.walChan| && CanRun(sha, w, Flushes(count))
    modifies db`disk, db`walChan
    ensures ok && var w' := Run(sha, w, Flushes(count)); Is(db, w') && Inv(sha, w')
  {
    hide Inv;
    hide CanRun;
    hide Run;
    hide ValidMulti;
    hide Indexes;
    hide WriteAll;
    FlushesAreBatch(sha, w, count);
    ok := db.FlushQueue(count);
  }

  /** A synchronous `Commit` is a commit and a flush. */
  method CallCommitSync(db: DB, ghost sha: Sha, ghost w: World) returns (ok: bool)
    requires Is(db, w) && Inv(sha, w) && db.synchronous && db.walChan == [] && CanRun(sha, w, [Commit, Flush])
    modifies db`pendingLog, db`walChan, db`disk, db.mtree
    ensures ok && var w' := Run(sha, w, [Commit, Flush]); Is(db, w') && Inv(sha, w')
  {
    hide Inv;
    hide CanRun;
    hide Run;
    hide ValidMulti;
    hide Indexes;
    hide SaveMulti;
    hide WalIndex;
    hide WriteAll;
    NotAtLast(sha, w);
    CommitAndFlush(sha, w);
    ok := db.Commit();
  }

  lemma CommitAndFlush(sha: Sha, w: World)
    requires Inv(sha, w) && w.db.queue == [] && CanRun(sha, w, [Commit, Flush])
    ensures ValidMulti(w.db.live) && Inv(sha, Run(sha, w, [Commit, Flush]))
    ensures var live := SaveMulti(w.db.live); var entry := (WalIndex(live.version, live.initialVersion), w.db.pending);
      var wal := WriteAll(w.db.disk.wal, LastIndex(w.db.disk.wal), [entry]);
      && wal.Some?
      && Run(sha, w, [Commit, Flush]).db
           == w.db.(live := live, pending := NO_CHANGES, disk := w.db.disk.(wal := wal.value))
  {
    hide Inv;
    hide ValidMulti;
    hide SaveMulti;
    hide WalIndex;
    hide WriteAll;
    hide Enabled;
    hide CanRun;
    hide Run;
    hide Flushes;
    NotAtLast(sha, w);
    assert [Commit] + Flushes(1) == [Commit, Flush] by { OneFlush(); }
    RunSplit(sha, w, [Commit], Flushes(1));
    OneStep(sha, w, Commit);
    CommitKeeps(sha, w);
    var w1 := Apply(sha, w, Commit);
    FlushesAreBatch(sha, w1, 1);
    var entry := (WalIndex(w1.db.live.version, w1.db.live.initialVersion), w.db.pending);
    assert w1.db.queue == [entry];
    assert w1.db.queue[..1] == [entry] && w1.db.queue[1..] == [];
  }

  lemma OneFlush()
    ensures Flushes(1) == [Flush]
  {}

  lemma OneStep(sha: Sha, w: World, a: Action)
    ensures CanRun(sha, w, [a]) <==> Enabled(sha, w, a)
    ensures CanRun(sha, w, [a]) ==> Run(sha, w, [a]) == Apply(sha, w, a)
  {
    hide Enabled;
    hide Apply;
    assert [a][1..] == [];
  }

  // ----- Snapshots -----

  /** The steps of a rewrite that goes on after the link was moved with `more`; they end at the renaming if there already
      is a directory of that version. */
  ghost function RewriteRun(w: World, more: seq<Action>): seq<Action> {
    if w.db.live.version in w.db.disk.snapshots then [Start, Rename] else [Start, Rename, Link] + more
  }

  ghost function WithSnapshot(sha: Sha, db: Db): Disk {
    Relink(AddSnapshot(db.disk, db.live.version, SaveFiles(sha, db.live)), db.live.version)
  }

  lemma StartAndRename(sha: Sha, w: World)
    requires Enabled(sha, w, Start)
    ensures CanRun(sha, w, [Start, Rename])
    ensures w.db.live.version in w.db.disk.snapshots ==> Run(sha, w, [Start, Rename]) == w
    ensures w.db.live.version !in w.db.disk.snapshots ==>
      && CanRun(sha, w, [Start, Rename, Link])
      && Run(sha, w, [Start, Rename, Link]) == World(
           w.db.(disk := WithSnapshot(sha, w.db), rewrite := Linked), w.h, w.orphans - {w.db.live.version})
  {
    hide Fits;
    hide SaveFiles;
    var w1 := Apply(sha, w, Start);
    var w2 := Apply(sha, w1, Rename);
    assert [Start, Rename][1..] == [Rename] && [Start, Rename, Link][1..] == [Rename, Link] && [Rename, Link][1..] == [Link];
    OneStep(sha, w1, Rename);
    OneStep(sha, w2, Link);
  }

  /** `RewriteSnapshot` in the foreground leaves no rewrite under way. */
  method CallRewriteSnapshot(db: DB, sha: Sha, ghost w: World) returns (ok: bool)
    requires Is(db, w) && Inv(sha, w) && Enabled(sha, w, Start)
    modifies db`disk
    ensures ok <==> w.db.live.version !in w.db.disk.snapshots
    ensures CanRun(sha, w, RewriteRun(w, [Abort]))
    ensures var w' := Run(sha, w, RewriteRun(w, [Abort])); Is(db, w') && Inv(sha, w')
  {
    hide Inv;
    hide ValidMulti;
    hide Indexes;
    hide SaveFiles;
    hide CanRun;
    hide Run;
    RewriteAborts(sha, w);
    ok := db.RewriteSnapshot(sha);
  }

  lemma RewriteAborts(sha: Sha, w: World)
    requires Inv(sha, w) && Enabled(sha, w, Start)
    ensures var as' := RewriteRun(w, [Abort]);
      && CanRun(sha, w, as') && Inv(sha, Run(sha, w, as'))
      && Run(sha, w, as').db == w.db.(
           disk := if w.db.live.version in w.db.disk.snapshots then w.db.disk else WithSnapshot(sha, w.db))
  {
    hide Inv;
    hide SaveFiles;
    hide Fits;
    hide CanRun;
    hide Run;
    StartAndRename(sha, w);
    if w.db.live.version !in w.db.disk.snapshots {
      var w' := Run(sha, w, [Start, Rename, Link]);
      OneStep(sha, w', Abort);
      RunJoin(sha, w, [Start, Rename, Link], [Abort]);
    }
    NoRollbacks(sha, w, RewriteRun(w, [Abort]));
    RunKeeps(sha, w, RewriteRun(w, [Abort]));
  }

  /** A run without rollbacks is careful. */
  lemma {:induction false} NoRollbacks(sha: Sha, w: World, as': seq<Action>)
    requires CanRun(sha, w, as') && forall a :: a in as' ==> !a.Overwrite? && !a.Downgrade?
    ensures CarefulRun(sha, w, as')
    decreases |as'|
  {
    hide Enabled;
    hide Apply;
    if as' != [] { NoRollbacks(sha, Apply(sha, w, as'[0]), as'[1..]); }
  }

  /** `RewriteSnapshotBackground` leaves a tree that is ready to be switched to. */
  method CallRewriteSnapshotBackground(db: DB, sha: Sha, ghost w: World) returns (ok: bool)
    requires Is(db, w) && Inv(sha, w) && Enabled(sha, w, Start)
    modifies db`disk, db`rewrite
    ensures ok && CanRun(sha, w, RewriteRun(w, [LoadNew, Follow]))
    ensures var w' := Run(sha, w, RewriteRun(w, [LoadNew, Follow])); Is(db, w') && Inv(sha, w')
  {
    hide Inv;
    hide ValidMulti;
    hide Indexes;
    hide SaveFiles;
    hide Fits;
    hide CanRun;
    hide Run;
    RewriteFollows(sha, w);
    ok := db.RewriteSnapshotBackground(sha, w);
  }

  lemma RewriteFollows(sha: Sha, w: World)
    requires Inv(sha, w) && Enabled(sha, w, Start)
    ensures ValidHistory(w.h)
    ensures var as', db := RewriteRun(w, [LoadNew, Follow]), w.db;
      && CanRun(sha, w, as') && Inv(sha, Run(sha, w, as'))
      && Run(sha, w, as').db == if db.live.version in db.disk.snapshots then db
           else db.(disk := WithSnapshot(sha, db), rewrite := Ready(At(w.h, |w.h.log|)))
  {
    hide Inv;
    hide SaveFiles;
    hide Fits;
    hide CanRun;
    hide Run;
    hide LoadFiles;
    hide CatchUp;
    hide ValidHistory;
    hide At;
    hide DiskOf;
    StartAndRename(sha, w);
    RewriteSteps(sha, w);
    if w.db.live.version !in w.db.disk.snapshots {
      LoadAndFollow(sha, w, Run(sha, w, [Start, Rename, Link]));
      RunJoin(sha, w, [Start, Rename, Link], [LoadNew, Follow]);
    }
    NoRollbacks(sha, w, RewriteRun(w, [LoadNew, Follow]));
    RunKeeps(sha, w, RewriteRun(w, [LoadNew, Follow]));
  }

  lemma LoadAndFollow(sha: Sha, w: World, w3: World)
    requires Inv(sha, w) && w.db.live.version !in w.db.disk.snapshots && w.db.pending == NO_CHANGES && Fits(w.db.live)
    requires w3.db == w.db.(disk := WithSnapshot(sha, w.db), rewrite := Linked)
    ensures CanRun(sha, w3, [LoadNew, Follow])
    ensures Run(sha, w3, [LoadNew, Follow]) == w3.(db := w3.db.(rewrite := Ready(w.db.live)))
  {
    hide Inv;
    hide SaveFiles;
    hide Fits;
    hide LoadFiles;
    hide CatchUp;
    hide ValidHistory;
    hide ValidMulti;
    hide At;
    hide DiskOf;
    RewriteSteps(sha, w);
    LiveFacts(sha, w);
    assert [LoadNew, Follow][1..] == [Follow];
    OneStep(sha, Apply(sha, w3, LoadNew), Follow);
  }

  /** `SwitchTree` with the tree that is ready is the step `Switch`. */
  method CallSwitchTree(db: DB, ghost sha: Sha, ghost w: World) returns (ok: bool)
    requires Is(db, w) && Inv(sha, w) && Enabled(sha, w, Switch)
    modifies db
    ensures ok && fresh(db.mtree)
    ensures var w' := Apply(sha, w, Switch); Is(db, w') && Inv(sha, w')
  {
    hide Inv;
    hide ValidMulti;
    hide Indexes;
    hide CatchUp;
    hide ApplyEntry;
    hide WalIndex;
    ReadyHasRoom(sha, w);
    SwitchKeeps(sha, w);
    var ready := new MultiTree(db.rewrite.mtree);
    ok := db.SwitchTree(ready);
  }

  lemma ReadyHasRoom(sha: Sha, w: World)
    requires Inv(sha, w) && w.db.rewrite.Ready?
    ensures w.db.disk.wal.first >= 1
    ensures var m, last := w.db.rewrite.mtree, LastIndex(w.db.disk.wal);
      var next := NextVersion(m.version, m.initialVersion);
      next < UINT32_LIMIT && next + last < UINT32_LIMIT + WalIndex(next, m.initialVersion)
  {
    hide Describes;
    hide PruneOk;
    hide At;
    hide ValidHistory;
    hide WalIndex;
    hide DiskOf;
    DiskHistory(sha, w.db.disk, w.h, w.orphans);
    var i := IndexOf(w.h, w.db.rewrite.mtree.version);
    AtVersion(w.h, i);
    RoomAt(w.h, i, LastIndex(w.db.disk.wal));
  }

  lemma RoomAt(h: History, i: nat, last: int)
    requires ValidHistory(h) && i <= |h.log| && last <= |h.log|
    ensures var next := NextVersion(VersionOf(h, i), h.base.initialVersion);
      next < UINT32_LIMIT && next + last < UINT32_LIMIT + WalIndex(next, h.base.initialVersion)
  {
    hide After;
    hide CleanMulti;
    hide WalIndex;
    VersionIndex(h, i);
  }

  // ----- Pruning -----

  ghost function Removals(vs: seq<nat>): seq<Action> {
    seq(|vs|, i requires 0 <= i < |vs| => PruneRemove(vs[i]))
  }

  ghost function PruneRun(vs: seq<nat>, e: nat): seq<Action> {
    [PruneStart] + Removals(vs) + [PruneRead(e), PruneTruncate]
  }

  /** The elements of a set in some order. */
  ghost function Listed(s: set<nat>): (r: seq<nat>)
    ensures forall v :: v in r <==> v in s
  {
    if s == {} then [] else var v :| v in s; [v] + Listed(s - {v})
  }

  ghost function Without(d: Disk, vs: seq<nat>): Disk {
    d.(snapshots := map v | v in d.snapshots && v !in vs :: d.snapshots[v])
  }

  lemma {:induction false} RemovalsRun(sha: Sha, w: World, vs: seq<nat>)
    requires w.db.pruning.Removing? && forall v :: v in vs ==> v < w.db.pruning.before
    ensures CanRun(sha, w, Removals(vs))
    ensures Run(sha, w, Removals(vs)) == w.(db := w.db.(disk := Without(w.db.disk, vs)))
    decreases |vs|
  {
    if vs == [] {
      assert Without(w.db.disk, vs) == w.db.disk;
    } else {
      assert vs[0] in vs && forall v :: v in vs[1..] ==> v in vs;
      var w' := Apply(sha, w, PruneRemove(vs[0]));
      RemovalsRun(sha, w', vs[1..]);
      assert Removals(vs)[1..] == Removals(vs[1..]);
      assert Without(RemoveSnapshot(w.db.disk, vs[0]), vs[1..]) == Without(w.db.disk, vs);
    }
  }

  lemma PruneRuns(sha: Sha, w: World, vs: seq<nat>, e: nat)
    requires w.db.pruning.NoPrune? && (forall v :: v in vs ==> v < w.db.disk.current)
    requires IsEarliest(Without(w.db.disk, vs), e)
    ensures CanRun(sha, w, PruneRun(vs, e))
    ensures Run(sha, w, PruneRun(vs, e))
      == w.(db := w.db.(disk := TruncateLog(Without(w.db.disk, vs), e, w.db.live.initialVersion)))
  {
    hide TruncateLog;
    hide Without;
    hide IsEarliest;
    hide Removals;
    hide CanRun;
    hide Run;
    var w1 := Apply(sha, w, PruneStart);
    OneStep(sha, w, PruneStart);
    RemovalsRun(sha, w1, vs);
    RunJoin(sha, w, [PruneStart], Removals(vs));
    var w2 := Run(sha, w1, Removals(vs));
    TruncateRuns(sha, w2, e);
    RunJoin(sha, w, [PruneStart] + Removals(vs), [PruneRead(e), PruneTruncate]);
  }

  lemma TruncateRuns(sha: Sha, w: World, e: nat)
    requires Enabled(sha, w, PruneRead(e))
    ensures CanRun(sha, w, [PruneRead(e), PruneTruncate])
    ensures Run(sha, w, [PruneRead(e), PruneTruncate])
      == w.(db := w.db.(disk := TruncateLog(w.db.disk, e, w.db.live.initialVersion), pruning := NoPrune))
  {
    hide TruncateLog;
    hide IsEarliest;
    assert [PruneRead(e), PruneTruncate][1..] == [PruneTruncate];
    OneStep(sha, Apply(sha, w, PruneRead(e)), PruneTruncate);
  }

  lemma StartsAtOnce(w: Wal, a: Wal, b: Wal, k: int)
    requires StartsAt(w, a, k) && StartsAt(w, b, k)
    ensures a == b
  {
    assert |a.entries| == |b.entries|;
    forall i | 0 <= i < |a.entries| ensures a.entries[i] == b.entries[i] {
      assert ReadAt(a, a.first + i) == ReadAt(w, a.first + i) == ReadAt(b, a.first + i);
    }
  }

  /** What a prune leaves alone, and what it removes. */
  ghost function Removed(d: Disk, keepRecent: nat, left: set<int>): set<nat> {
    set v | v in d.snapshots && !Keeps(d, keepRecent, v) && v !in left
  }

  /** The steps of a prune; it does nothing when some name cannot be read back. */
  ghost function PruneSteps(d: Disk, keepRecent: nat, left: set<int>): seq<Action> {
    var vs := Listed(Removed(d, keepRecent, left));
    if Parsable(d.snapshots.Keys) && exists e: nat :: IsEarliest(Without(d, vs), e) then
      var e: nat :| IsEarliest(Without(d, vs), e);
      PruneRun(vs, e)
    else []
  }

  lemma AfterPruneIsRun(sha: Sha, w: World, d': Disk, keepRecent: nat, left: set<int>)
    requires Inv(sha, w) && w.db.pruning.NoPrune? && Parsable(w.db.disk.snapshots.Keys)
    requires AfterPrune(w.db.disk, d', keepRecent, left, w.db.live.initialVersion)
    ensures var as' := PruneSteps(w.db.disk, keepRecent, left);
      CanRun(sha, w, as') && Run(sha, w, as') == w.(db := w.db.(disk := d')) && Inv(sha, Run(sha, w, as'))
  {
    hide Inv;
    hide StartsAt;
    hide TruncateLog;
    hide CanRun;
    hide Run;
    hide Parsable;
    var d, iv := w.db.disk, w.db.live.initialVersion;
    var vs := Listed(Removed(d, keepRecent, left));
    var e: nat :| IsEarliest(d', e) && StartsAt(d.wal, d'.wal, WalIndex(e + 1, iv));
    var d1 := Without(d, vs);
    assert d1.snapshots == d'.snapshots;
    assert IsEarliest(d1, e);
    TruncateExact(d1, e, iv);
    StartsAtOnce(d.wal, TruncateLog(d1, e, iv).wal, d'.wal, WalIndex(e + 1, iv));
    PruneRuns(sha, w, vs, e);
    assert PruneSteps(d, keepRecent, left) == PruneRun(vs, e);
    NoRollbacks(sha, w, PruneRun(vs, e));
    RunKeeps(sha, w, PruneRun(vs, e));
  }

  /** `pruneSnapshots`, with no prune before it still running, is a run of removals and a truncation. */
  method CallPrune(db: DB, before: seq<DirEntry>, after: seq<DirEntry>, keepRecent: nat, left: set<int>,
                   ghost sha: Sha, ghost w: World)
    requires Is(db, w) && Inv(sha, w) && w.db.pruning.NoPrune?
    requires SnapshotNames.Lists(before, db.disk.snapshots.Keys)
    requires SnapshotNames.Lists(after, set v | v in db.disk.snapshots && (Keeps(db.disk, keepRecent, v) || v in left))
    modifies db`disk
    ensures CanRun(sha, w, PruneSteps(w.db.disk, keepRecent, left))
    ensures var w' := Run(sha, w, PruneSteps(w.db.disk, keepRecent, left)); Is(db, w') && Inv(sha, w')
  {
    hide Inv;
    hide CanRun;
    hide Run;
    hide DiskOf;
    hide Parsable;
    hide AfterPrune;
    hide Keeps;
    hide SnapshotNames.Lists;
    hide ValidMulti;
    hide Indexes;
    InvDisk(sha, w);
    db.Prune(sha, before, after, keepRecent, db.mtree.initialVersion, left, w.h, w.orphans);
    if Parsable(w.db.disk.snapshots.Keys) {
      AfterPruneIsRun(sha, w, db.disk, keepRecent, left);
    } else {
      NoStep(sha, w);
    }
  }

  lemma NoStep(sha: Sha, w: World)
    ensures CanRun(sha, w, []) && Run(sha, w, []) == w
  {}

  lemma InvDisk(sha: Sha, w: World)
    requires Inv(sha, w)
    ensures DiskOf(sha, w.db.disk, w.h, w.orphans) && w.db.live.initialVersion == w.h.base.initialVersion
  {
    hide DiskOf;
    hide Describes;
    hide ValidHistory;
    LiveFacts(sha, w);
  }

  // ----- Loading -----

  /** Opening the directory of a process that has stopped is a restart, a rollback, or a refused rollback, whose
      directory is left as it is before the next restart. */
  ghost predicate OpenedBy(sha: Sha, w: World, opts: Options, left: set<nat>, value: Option<Db>, after: Disk) {
    var target := opts.target;
    && (target == 0 ==>
          var a := Restart(LastIndex(w.db.disk.wal));
          && Enabled(sha, w, a)
          && value == Some(Apply(sha, w, a).db) && after == Apply(sha, w, a).db.disk && Inv(sha, Apply(sha, w, a)))
    && (target > 0 && opts.overwrite && Parsable(w.db.disk.snapshots.Keys) ==>
          forall v :: IsSought(w.db.disk, target, v) && v !in w.orphans && LoadFrom(w.db.disk, v, target).Some? ==>
            RolledBackBy(sha, w, target, v, left, value, after))
  }

  ghost predicate RolledBackBy(
    sha: Sha, w: World, target: nat, v: nat, left: set<nat>, value: Option<Db>, after: Disk) {
    var a, b := Overwrite(target, v, left), Downgrade(target, v);
    if Enabled(sha, w, a) then
      value == Some(Apply(sha, w, a).db) && after == Apply(sha, w, a).db.disk && Inv(sha, Apply(sha, w, a))
    else
      && Enabled(sha, w, b) && value == None
      && after == Apply(sha, w, b).db.disk && Inv(sha, Apply(sha, w, b))
  }

  lemma OpenIsStep(sha: Sha, w: World, opts: Options, left: set<nat>, value: Option<Db>, after: Disk)
    requires Inv(sha, w) && opts.target < UINT32_LIMIT && IsOpened(w.db.disk, w.h, opts, left, value, after)
    ensures OpenedBy(sha, w, opts, left, value, after)
  {
    hide *;
    if opts.target == 0 {
      RestartOpens(sha, w);
      OpenedPlain(sha, w, opts, left, value, after);
    } else {
      OpenedTarget(sha, w, opts, left, value, after);
    }
  }

  /** A restart that has lost nothing of the log. */
  lemma RestartOpens(sha: Sha, w: World)
    requires Inv(sha, w)
    ensures Recovered(w.db.disk, w.h) <= |w.h.log| && ValidHistory(w.h)
    ensures var a := Restart(LastIndex(w.db.disk.wal));
      && Enabled(sha, w, a) && Inv(sha, Apply(sha, w, a))
      && Apply(sha, w, a).db == Fresh(w.db.disk, At(w.h, Recovered(w.db.disk, w.h)))
  {
    hide Inv;
    hide DiskOf;
    hide At;
    hide ValidHistory;
    hide Reload;
    InvDisk(sha, w);
    ReloadKeeps(sha, w, w.db.disk);
    assert LoseTail(w.db.disk.wal, LastIndex(w.db.disk.wal)) == w.db.disk.wal;
  }

  lemma OpenedPlain(sha: Sha, w: World, opts: Options, left: set<nat>, value: Option<Db>, after: Disk)
    requires Inv(sha, w) && opts.target == 0 && IsOpened(w.db.disk, w.h, opts, left, value, after)
    ensures OpenedBy(sha, w, opts, left, value, after)
  {
    hide Inv;
    hide Enabled;
    hide Apply;
    hide ValidHistory;
    hide At;
    hide Recovered;
    RestartOpens(sha, w);
  }

  lemma OpenedTarget(sha: Sha, w: World, opts: Options, left: set<nat>, value: Option<Db>, after: Disk)
    requires Inv(sha, w) && 0 < opts.target < UINT32_LIMIT && IsOpened(w.db.disk, w.h, opts, left, value, after)
    ensures OpenedBy(sha, w, opts, left, value, after)
  {
    hide Inv;
    hide Enabled;
    hide Apply;
    hide ValidHistory;
    hide At;
    hide Recovered;
    hide LoadFrom;
    hide IsSought;
    hide Parsable;
    hide Rollback;
    hide AfterRollback;
    hide RolledBackBy;
    if opts.overwrite && Parsable(w.db.disk.snapshots.Keys) {
      forall v | IsSought(w.db.disk, opts.target, v) && v !in w.orphans && LoadFrom(w.db.disk, v, opts.target).Some?
        ensures RolledBackBy(sha, w, opts.target, v, left, value, after)
      {
        RollbackOpens(sha, w, opts.target, v, left, value, after);
      }
    }
  }

  lemma RollbackOpens(
    sha: Sha, w: World, target: nat, v: nat, left: set<nat>, value: Option<Db>, after: Disk)
    requires Inv(sha, w) && 0 < target < UINT32_LIMIT && v !in w.orphans
    requires IsSought(w.db.disk, target, v) && LoadFrom(w.db.disk, v, target).Some?
    requires var d, iv := w.db.disk, w.h.base.initialVersion;
      && after == AfterRollback(d, target, v, iv, left)
      && value == if Rollback(d, target, v, iv, left).Some? then Some(Fresh(after, LoadFrom(d, v, target).value)) else None
    ensures RolledBackBy(sha, w, target, v, left, value, after)
  {
    hide Inv;
    hide IsSought;
    hide LoadFrom;
    hide DiskOf;
    hide ValidHistory;
    hide At;
    hide WalIndex;
    hide Reload;
    InvDisk(sha, w);
    LiveFacts(sha, w);
    if Enabled(sha, w, Overwrite(target, v, left)) {
      RollbackTarget(sha, w.db.disk, w.h, w.orphans, target, v);
      OverwriteKeeps(sha, w, target, v, left);
    } else {
      DowngradeKeeps(sha, w, target, v);
    }
  }

  // ----- Whole runs of calls -----

  datatype Call =
    | Upgrades(us: seq<Upgrade>)
    | Changes(css: ChangeSets)
    | Commits
    | WritesLog(count: nat)
    | Rewrites
    | RewritesInBackground
    | Switches
    | Prunes(before: seq<DirEntry>, after: seq<DirEntry>, keepRecent: nat, left: set<int>)

  ghost function StepsOf(w: World, synchronous: bool, c: Call): seq<Action> {
    match c
    case Upgrades(us) => [UpgradeStores(us)]
    case Changes(css) => [ChangeStores(css)]
    case Commits => if synchronous then [Commit, Flush] else [Commit]
    case WritesLog(count) => Flushes(count)
    case Rewrites => RewriteRun(w, [Abort])
    case RewritesInBackground => RewriteRun(w, [LoadNew, Follow])
    case Switches => [Switch]
    case Prunes(_, _, keepRecent, left) => PruneSteps(w.db.disk, keepRecent, left)
  }

  /** The machine can take the steps of the call. Beside that, a synchronous process has no queue, the writer takes
      entries that are there, and a prune waits for the one before and reads the directory as it is. */
  ghost predicate Allowed(sha: Sha, w: World, synchronous: bool, c: Call) {
    && CanRun(sha, w, StepsOf(w, synchronous, c))
    && match c
       case Commits => synchronous ==> w.db.queue == []
       case Prunes(before, after, keepRecent, left) =>
         && w.db.pruning.NoPrune? && SnapshotNames.Lists(before, w.db.disk.snapshots.Keys)
         && SnapshotNames.Lists(after, set v | v in w.db.disk.snapshots && (Keeps(w.db.disk, keepRecent, v) || v in left))
       case _ => true
  }

  ghost predicate AllAllowed(sha: Sha, w: World, synchronous: bool, calls: seq<Call>)
    decreases |calls|
  {
    calls == [] ||
    (&& Allowed(sha, w, synchronous, calls[0])
     && AllAllowed(sha, Run(sha, w, StepsOf(w, synchronous, calls[0])), synchronous, calls[1..]))
  }

  ghost function AllSteps(sha: Sha, w: World, synchronous: bool, calls: seq<Call>): seq<Action>
    requires AllAllowed(sha, w, synchronous, calls)
    decreases |calls|
  {
    if calls == [] then [] else
    var as' := StepsOf(w, synchronous, calls[0]);
    as' + AllSteps(sha, Run(sha, w, as'), synchronous, calls[1..])
  }

  /** One call on the object is the run of its steps. */
  method ServeOne(db: DB, c: Call, sha: Sha, ghost w: World)
    requires Is(db, w) && Inv(sha, w) && Allowed(sha, w, db.synchronous, c)
    modifies db, db.mtree
    ensures db.mtree == old(db.mtree) || fresh(db.mtree)
    ensures var w' := Run(sha, w, StepsOf(w, db.synchronous, c)); Is(db, w') && Inv(sha, w')
  {
    hide Inv;
    hide ValidMulti;
    hide Indexes;
    hide Enabled;
    hide Apply;
    hide CanRun;
    hide Run;
    hide RewriteRun;
    hide PruneSteps;
    hide SnapshotNames.Lists;
    hide Keeps;
    var ok;
    match c {
      case Upgrades(us) =>
        OneStep(sha, w, UpgradeStores(us));
        ok := CallApplyUpgrades(db, us, sha, w);
      case Changes(css) =>
        OneStep(sha, w, ChangeStores(css));
        ok := CallApplyChangeSets(db, css, sha, w);
      case Commits =>
        OneStep(sha, w, Commit);
        if db.synchronous {
          ok := CallCommitSync(db, sha, w);
        } else {
          ok := CallCommit(db, sha, w);
        }
      case WritesLog(count) =>
        FlushesAreBatch(sha, w, count);
        ok := CallFlushQueue(db, count, sha, w);
      case Rewrites =>
        RewriteStarts(sha, w, [Abort]);
        ok := CallRewriteSnapshot(db, sha, w);
      case RewritesInBackground =>
        RewriteStarts(sha, w, [LoadNew, Follow]);
        ok := CallRewriteSnapshotBackground(db, sha, w);
      case Switches =>
        OneStep(sha, w, Switch);
        ok := CallSwitchTree(db, sha, w);
      case Prunes(before, after, keepRecent, left) =>
        CallPrune(db, before, after, keepRecent, left, sha, w);
    }
  }

  lemma RewriteStarts(sha: Sha, w: World, more: seq<Action>)
    requires CanRun(sha, w, RewriteRun(w, more))
    ensures Enabled(sha, w, Start)
  {
    hide Enabled;
    hide Apply;
  }

  /** Every sequence of calls on the object is the run of their steps, and keeps the invariant. */
  method Serve(db: DB, calls: seq<Call>, sha: Sha, ghost w: World)
    requires Is(db, w) && Inv(sha, w) && AllAllowed(sha, w, db.synchronous, calls)
    modifies db, db.mtree
    ensures var as' := AllSteps(sha, w, db.synchronous, calls);
      CanRun(sha, w, as') && Is(db, Run(sha, w, as')) && Inv(sha, Run(sha, w, as'))
    decreases |calls|
  {
    hide Inv;
    hide Is;
    hide Enabled;
    hide Apply;
    hide CanRun;
    hide Run;
    hide StepsOf;
    if |calls| == 0 {
      NoStep(sha, w);
      return;
    }
    ghost var as' := StepsOf(w, db.synchronous, calls[0]);
    ServeOne(db, calls[0], sha, w);
    ghost var w' := Run(sha, w, as');
    Serve(db, calls[1..], sha, w');
    RunJoin(sha, w, as', AllSteps(sha, w', db.synchronous, calls[1..]));
  }
}
