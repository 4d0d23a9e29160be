/** The database as a state machine: the process, its background work, and the directory. Every run
    keeps the directory and the memory in agreement with one history of commits. */
module Databases {
  import opened AvlHeight
  import opened MerkleHash
  import opened MultiTrees
  import opened PendingLog
  import opened UpgradeReplays
  import opened MultiSnapshots
  import opened Recovery
  import opened Disks
  import opened DiskSteps

  /** How far the background snapshot rewrite has come. */
  datatype Rewrite = Idle | Writing(clone: MultiState) | Renamed(version: nat) | Linked | Ready(mtree: MultiState)

  /** How far the background prune has come. */
  datatype Pruning = NoPrune | Removing(before: nat) | Truncating(earliest: nat)

  datatype Db = Db(
    disk: Disk,
    live: MultiState,
    pending: WalEntry,
    queue: seq<(nat, WalEntry)>,
    snapshotVersion: nat,
    rewrite: Rewrite,
    pruning: Pruning)

  /** A database, the commits it stands for, and the versions of stray snapshot directories: those that were newer
      than the version loaded at some load since they were written. */
  datatype World = World(db: Db, h: History, orphans: set<nat>)

  // ----- The invariant -----

  /** The queue holds the newest commits, and the log everything before them, unless the log ends
      before the current snapshot. */
  ghost predicate Queued(db: Db, h: History) {
    var start, last := |h.log| - |db.queue|, LastIndex(db.disk.wal);
    && start >= 0 && last <= start && (last < start ==> last < IndexOf(h, db.disk.current))
    && forall k :: 0 <= k < |db.queue| ==> db.queue[k] == (start + k + 1, h.log[start + k])
  }

  /** `m` is a committed state that is not older than the current snapshot. */
  ghost predicate Recent(db: Db, h: History, m: MultiState)
    requires ValidHistory(h)
  {
    var i := IndexOf(h, m.version);
    IndexOf(h, db.disk.current) <= i <= |h.log| && m == At(h, i)
  }

  ghost predicate RewriteOk(w: World)
    requires ValidHistory(w.h)
  {
    match w.db.rewrite
    case Writing(clone) => Recent(w.db, w.h, clone) && Fits(clone)
    case Renamed(v) =>
      v in w.db.disk.snapshots && v !in w.orphans && IndexOf(w.h, w.db.disk.current) <= IndexOf(w.h, v)
    case Ready(m) => Recent(w.db, w.h, m)
    case _ => true
  }

  ghost predicate PruneOk(db: Db) {
    match db.pruning
    case Removing(before) => before <= db.disk.current
    case Truncating(e) => e + 1 < UINT32_LIMIT && forall v :: v in db.disk.snapshots ==> e <= v
    case NoPrune => true
  }

  ghost predicate Inv(sha: Sha, w: World) {
    && DiskOf(sha, w.db.disk, w.h, w.orphans)
    && Describes(At(w.h, |w.h.log|), w.db.pending, w.db.live)
    && Queued(w.db, w.h) && RewriteOk(w) && PruneOk(w.db)
    && IndexOf(w.h, w.db.snapshotVersion) <= IndexOf(w.h, w.db.disk.current)
    && w.db.snapshotVersion == VersionOf(w.h, IndexOf(w.h, w.db.snapshotVersion))
  }

  // ----- Steps -----

  datatype Action =
    | UpgradeStores(us: seq<Upgrade>)
    | ChangeStores(css: ChangeSets)
    | Commit
    | Flush
    | Start
    | Rename
    | Link
    | LoadNew
    | Follow
    | Abort
    | Switch
    | PruneStart
    | PruneRemove(version: nat)
    | PruneRead(earliest: nat)
    | PruneTruncate
    | Restart(keep: int)
    | Overwrite(target: nat, snapshot: nat, left: set<nat>)
    | Downgrade(target: nat, snapshot: nat)

  /** `CommittedVersion`. */
  function CommittedVersion(db: Db): nat {
    var last := LastIndex(db.disk.wal);
    if last <= 0 then db.snapshotVersion else WalVersion(last, db.live.initialVersion)
  }

  /** When a step can be taken. Upgrades and change sets are those that the pending log can describe, and
      snapshots are taken without pending changes. */
  ghost predicate Enabled(sha: Sha, w: World, a: Action) {
    var db := w.db;
    match a
    case UpgradeStores(us) =>
      && ValidHistory(w.h) && ApplyUpgrades(db.live, us).Some?
      && Upgradable(At(w.h, |w.h.log|), db.pending, db.live, us)
    case ChangeStores(css) =>
      ValidMulti(db.live) && Mergeable(db.pending.changesets, css) && ApplyChangeSets(db.live, css).Some?
    case Commit => ValidMulti(db.live) && |w.h.log| + w.h.base.initialVersion + 2 < UINT32_LIMIT
    case Flush =>
      db.queue != [] && (db.queue[0].0 <= LastIndex(db.disk.wal)
                         || Write(db.disk.wal, db.queue[0].0, db.queue[0].1).Some?)
    case Start => db.rewrite.Idle? && db.pending == NO_CHANGES && Fits(db.live)
    case Rename => db.rewrite.Writing?
    case Link => db.rewrite.Renamed?
    case LoadNew =>
      && db.rewrite.Linked? && db.disk.current in db.disk.snapshots
      && LoadFiles(db.disk.snapshots[db.disk.current]).Some?
    case Follow => db.rewrite.Ready? && ValidMulti(db.rewrite.mtree) && CatchUp(db.rewrite.mtree, db.disk.wal, 0).Some?
    case Abort => true
    case Switch =>
      && db.rewrite.Ready? && ValidMulti(db.rewrite.mtree) && CommittedVersion(db) == db.live.version
      && var m := CatchUp(db.rewrite.mtree, db.disk.wal, 0);
      && m.Some? && ApplyEntry(m.value, db.pending).Some?
    case PruneStart => db.pruning.NoPrune?
    case PruneRemove(v) => db.pruning.Removing? && v < db.pruning.before
    case PruneRead(e) => db.pruning.Removing? && IsEarliest(db.disk, e)
    case PruneTruncate => db.pruning.Truncating?
    case Restart(keep) => db.disk.wal.first - 1 <= keep <= LastIndex(db.disk.wal)
    case Overwrite(target, v, left) =>
      && 0 < target < UINT32_LIMIT && IsSought(db.disk, target, v) && LoadFrom(db.disk, v, target).Some?
      && Rollback(db.disk, target, v, db.live.initialVersion, left).Some?
    case Downgrade(target, v) =>
      0 < target < UINT32_LIMIT && IsSought(db.disk, target, v) && LoadFrom(db.disk, v, target).Some?
  }

  /** A rollback does not start from a stray snapshot. */
  predicate Careful(w: World, a: Action) {
    match a
    case Overwrite(_, v, _) => v !in w.orphans
    case Downgrade(_, v) => v !in w.orphans
    case _ => true
  }

  /** A process that has just loaded `live` from the directory. */
  function Fresh(disk: Disk, live: MultiState): Db {
    Db(disk, live, NO_CHANGES, [], disk.current, Idle, NoPrune)
  }

  /** A plain `Load` of the directory `disk`. */
  ghost function Reload(w: World, disk: Disk): World {
    var m, r := LoadFrom(disk, disk.current, 0), Recovered(disk, w.h);
    if m.None? || r > |w.h.log| then w else
    World(Fresh(disk, m.value), Cut(w.h, r), w.orphans + NewerThan(disk, m.value.version))
  }

  /** What a step does. A restart follows a crash in which the log has lost its entries after `keep`. `Overwrite` is
      `LoadForOverwriting`, or a plain `Load` after it was interrupted with the log truncated. `Downgrade` is a plain
      `Load` after it moved the link and then was refused or interrupted. */
  ghost function Apply(sha: Sha, w: World, a: Action): World
    requires Enabled(sha, w, a)
  {
    var db := w.db;
    match a
    case UpgradeStores(us) =>
      w.(db := db.(live := ApplyUpgrades(db.live, us).value,
                   pending := db.pending.(upgrades := db.pending.upgrades + us)))
    case ChangeStores(css) =>
      w.(db := db.(live := ApplyChangeSets(db.live, css).value,
                   pending := db.pending.(changesets := MergePending(db.pending.changesets, css))))
    case Commit =>
      var live := SaveMulti(db.live);
      var index := WalIndex(live.version, live.initialVersion);
      World(db.(live := live, pending := NO_CHANGES, queue := db.queue + [(index, db.pending)]),
            Extend(w.h, db.pending), w.orphans)
    case Flush =>
      var (index, e) := db.queue[0];
      var wal := if index <= LastIndex(db.disk.wal) then db.disk.wal else Write(db.disk.wal, index, e).value;
      w.(db := db.(disk := db.disk.(wal := wal), queue := db.queue[1..]))
    case Start => w.(db := db.(rewrite := Writing(db.live)))
    case Rename =>
      var m := db.rewrite.clone;
      if m.version in db.disk.snapshots then w.(db := db.(rewrite := Idle)) else
      World(db.(disk := AddSnapshot(db.disk, m.version, SaveFiles(sha, m)), rewrite := Renamed(m.version)),
            w.h, w.orphans - {m.version})
    case Link => w.(db := db.(disk := Relink(db.disk, db.rewrite.version), rewrite := Linked))
    case LoadNew => w.(db := db.(rewrite := Ready(LoadFiles(db.disk.snapshots[db.disk.current]).value)))
    case Follow => w.(db := db.(rewrite := Ready(CatchUp(db.rewrite.mtree, db.disk.wal, 0).value)))
    case Abort => w.(db := db.(rewrite := Idle))
    case Switch =>
      var m := CatchUp(db.rewrite.mtree, db.disk.wal, 0).value;
      w.(db := db.(live := ApplyEntry(m, db.pending).value, snapshotVersion := db.disk.current, rewrite := Idle))
    case PruneStart => w.(db := db.(pruning := Removing(db.disk.current)))
    case PruneRemove(v) => w.(db := db.(disk := RemoveSnapshot(db.disk, v)))
    case PruneRead(e) => w.(db := db.(pruning := Truncating(e)))
    case PruneTruncate =>
      w.(db := db.(disk := TruncateLog(db.disk, db.pruning.earliest, db.live.initialVersion), pruning := NoPrune))
    case Restart(keep) => Reload(w, db.disk.(wal := LoseTail(db.disk.wal, keep)))
    case Overwrite(target, v, left) =>
      var disk := Rollback(db.disk, target, v, db.live.initialVersion, left).value;
      var m, i := LoadFrom(db.disk, v, target).value, WalIndex(target, db.live.initialVersion);
      if i > |w.h.log| then w else
      World(Fresh(disk, m), Cut(w.h, i), w.orphans + NewerThan(disk, m.version))
    case Downgrade(target, v) => Reload(w, Relink(db.disk, v))
  }
}
