/** The database directory: what is on disk, and that it determines the committed states. */
module Disks {
  import opened Bytes
  import opened AvlHeight
  import opened MerkleHash
  import opened TreeStates
  import opened MultiTrees
  import opened MultiSnapshots
  import opened Recovery

  /** Snapshot directories by version, the `current` link, and the log. */
  datatype Disk = Disk(snapshots: map<nat, SavedMulti>, current: nat, wal: Wal)

  /** Snapshot `v` is the committed state of version `v`, and the log still has every later entry. */
  ghost predicate Retained(sha: Sha, d: Disk, h: History, v: nat)
    requires ValidHistory(h) && v in d.snapshots
  {
    var i := IndexOf(h, v);
    && i <= |h.log| && v == VersionOf(h, i) && d.wal.first <= i + 1
    && Fits(At(h, i)) && d.snapshots[v] == SaveFiles(sha, At(h, i))
  }

  /** A snapshot directory named `v` holds some saved state of that version of the same chain. */
  ghost predicate Readable(files: SavedMulti, h: History, v: nat) {
    var m := LoadFiles(files);
    && m.Some? && CleanMulti(m.value) && m.value.version == v && m.value.initialVersion == h.base.initialVersion
    && v == VersionOf(h, IndexOf(h, v)) && IndexOf(h, v) + h.base.initialVersion + 1 < UINT32_LIMIT
  }

  /** The directory belongs to history `h`. The snapshots in `orphans` may be left over from commits that a crash
      or a rollback has taken back; their contents need not be a state of `h`. */
  ghost predicate DiskOf(sha: Sha, d: Disk, h: History, orphans: set<nat>) {
    && ValidHistory(h) && LogOf(d.wal, h)
    && d.current in d.snapshots && d.current !in orphans
    && (forall v :: v in d.snapshots && v !in orphans ==> Retained(sha, d, h, v))
    && (forall v :: v in d.snapshots ==> Readable(d.snapshots[v], h, v))
  }

  lemma DiskHistory(sha: Sha, d: Disk, h: History, orphans: set<nat>)
    requires DiskOf(sha, d, h, orphans)
    ensures ValidHistory(h) && LogOf(d.wal, h) && d.current in d.snapshots && d.current !in orphans
    ensures var i := IndexOf(h, d.current); i <= |h.log| && d.current == VersionOf(h, i) && d.wal.first <= i + 1
  {
    hide ValidHistory;
    hide At;
    hide SaveFiles;
    hide Fits;
    hide WalIndex;
    hide Readable;
    assert Retained(sha, d, h, d.current);
  }

  // ----- Loading -----

  /** Loads snapshot `v` and replays the log up to `endVersion`, or to its end if that is 0. */
  ghost function LoadFrom(d: Disk, v: nat, endVersion: nat): Option<MultiState> {
    if v !in d.snapshots then None else
    match LoadFiles(d.snapshots[v])
    case None => None
    case Some(m) =>
      if !ValidMulti(m) then None
      else if endVersion == 0 || endVersion > m.version then CatchUp(m, d.wal, endVersion)
      else Some(m)
  }

  lemma RetainedLoads(sha: Sha, d: Disk, h: History, orphans: set<nat>, v: nat)
    requires DiskOf(sha, d, h, orphans) && v in d.snapshots && v !in orphans
    ensures var i := IndexOf(h, v);
      && i <= |h.log| && v == VersionOf(h, i) && d.wal.first <= i + 1
      && LoadFiles(d.snapshots[v]) == Some(At(h, i)) && ValidMulti(At(h, i)) && At(h, i).version == v
  {
    hide LoadFiles;
    hide SaveFiles;
    hide Fits;
    hide ValidHistory;
    hide CleanMulti;
    hide ValidMulti;
    assert Retained(sha, d, h, v);
    var i := IndexOf(h, v);
    AtVersion(h, i);
    FilesRoundTrip(sha, At(h, i));
  }

  /** Where a plain `Load` ends up: at the end of the log, or at the current snapshot if that is later. */
  function Recovered(d: Disk, h: History): nat {
    var i := IndexOf(h, d.current);
    if i < LastIndex(d.wal) then LastIndex(d.wal) else i
  }

  /** Crash recovery: a plain `Load` gives exactly a committed state. */
  lemma LoadIsExact(sha: Sha, d: Disk, h: History, orphans: set<nat>)
    requires DiskOf(sha, d, h, orphans)
    ensures Recovered(d, h) <= |h.log| && LoadFrom(d, d.current, 0) == Some(At(h, Recovered(d, h)))
  {
    hide LoadFiles;
    hide ValidHistory;
    hide ValidMulti;
    hide CatchUp;
    hide Retained;
    RetainedLoads(sha, d, h, orphans, d.current);
    CatchUpFollows(d.wal, h, IndexOf(h, d.current));
  }

  /** Any snapshot that can be found can also be loaded, at its own version. This is also what a plain `Load` gives once
      the snapshot is the current one, in any directory `d'` that has it and a log that ends with its version or before. */
  lemma AnySnapshotLoads(sha: Sha, d: Disk, h: History, orphans: set<nat>, v: nat, d': Disk)
    requires DiskOf(sha, d, h, orphans) && v in d.snapshots && v > 0
    requires v in d'.snapshots && d'.snapshots[v] == d.snapshots[v]
    ensures LoadFrom(d, v, v).Some? && LoadFrom(d, v, v) == LoadFiles(d.snapshots[v])
    ensures CleanMulti(LoadFrom(d, v, v).value) && LoadFrom(d, v, v).value.version == v
    ensures v == VersionOf(h, IndexOf(h, v)) && IndexOf(h, v) + h.base.initialVersion + 1 < UINT32_LIMIT
    ensures LastIndex(d'.wal) <= IndexOf(h, v) ==> LoadFrom(d', v, 0) == LoadFrom(d, v, v)
  {
    hide LoadFiles;
    hide At;
    hide After;
    hide Retained;
    hide LogOf;
    hide WellFormedState;
    hide Sorted;
    assert Readable(d.snapshots[v], h, v);
    VersionIndex(h, IndexOf(h, v));
  }

  // ----- Loading a given version -----

  /** `v` is the newest snapshot that is not newer than `target`. */
  ghost predicate IsSought(d: Disk, target: nat, v: nat) {
    v in d.snapshots && v <= target && forall u :: u in d.snapshots && u <= target ==> u <= v
  }

  /** The versions a caller may ask for: the snapshot's own, or one with an entry in the log. */
  predicate Loadable(w: Wal, initialVersion: nat, v: nat, target: nat) {
    target == v || (target >= initialVersion && WalIndex(target, initialVersion) <= LastIndex(w))
  }

  /** `Load` with a target version gives that version exactly when it can be asked for; any other
      target is an error or silently some other committed version. */
  lemma LoadTargetIsExact(sha: Sha, d: Disk, h: History, orphans: set<nat>, target: nat, v: nat)
    requires DiskOf(sha, d, h, orphans) && 0 < target < UINT32_LIMIT && IsSought(d, target, v) && v !in orphans
    ensures var r := LoadFrom(d, v, target);
      && (r.Some? && r.value.version == target <==> Loadable(d.wal, h.base.initialVersion, v, target))
      && (Loadable(d.wal, h.base.initialVersion, v, target) ==>
            IndexOf(h, target) <= |h.log| && r == Some(At(h, IndexOf(h, target))))
      && (r.Some? ==> exists i :: 0 <= i <= |h.log| && r == Some(At(h, i)))
  {
    hide DiskOf;
    hide At;
    hide LogOf;
    hide LoadFiles;
    hide ValidHistory;
    hide ValidMulti;
    hide CatchUp;
    hide WalIndex;
    DiskHistory(sha, d, h, orphans);
    RetainedLoads(sha, d, h, orphans, v);
    if target > v {
      TargetVersion(d.wal, h, IndexOf(h, v), target);
    }
  }

  /** Catching up to a target after the snapshot at index `i`. */
  lemma TargetOutcome(w: Wal, h: History, i: nat, target: nat)
    requires ValidHistory(h) && LogOf(w, h) && i <= |h.log| && w.first <= i + 1
    requires VersionOf(h, i) < target < UINT32_LIMIT
    ensures var r, index, last := CatchUp(At(h, i), w, target), WalIndex(target, h.base.initialVersion), LastIndex(w);
      if i >= last then r == Some(At(h, i))
      else if index <= i then r == None
      else if index <= last then r == Some(At(h, index))
      else r == Some(At(h, last))
  {
    hide At;
    hide After;
    hide CleanMulti;
    hide ValidMulti;
    hide Replay;
    hide LogOf;
    hide WalIndex;
    hide NextVersion;
    AtVersion(h, i);
    VersionIndex(h, i);
    var index, last := WalIndex(target, h.base.initialVersion), LastIndex(w);
    if i < last && i < index {
      ReplayFollows(w, h, i, if index <= last then index else last);
    }
  }

  lemma TargetVersion(w: Wal, h: History, i: nat, target: nat)
    requires ValidHistory(h) && LogOf(w, h) && i <= |h.log| && w.first <= i + 1
    requires VersionOf(h, i) < target < UINT32_LIMIT
    ensures var r, index := CatchUp(At(h, i), w, target), WalIndex(target, h.base.initialVersion);
      var loadable := target >= h.base.initialVersion && index <= LastIndex(w);
      && (r.Some? && r.value.version == target <==> loadable)
      && (loadable ==> index == IndexOf(h, target) <= |h.log| && r == Some(At(h, index)))
      && (r.Some? ==> exists j :: 0 <= j <= |h.log| && r == Some(At(h, j)))
  {
    hide CatchUp;
    hide At;
    hide ValidHistory;
    hide LogOf;
    TargetOutcome(w, h, i, target);
    TargetIndex(w, h, i, target);
    AtVersion(h, i);
    var index := WalIndex(target, h.base.initialVersion);
    if index <= LastIndex(w) { AtVersion(h, index); }
    if 0 < LastIndex(w) { AtVersion(h, LastIndex(w)); }
  }

  /** What the log index of the target says about it. */
  lemma TargetIndex(w: Wal, h: History, i: nat, target: nat)
    requires ValidHistory(h) && LogOf(w, h) && i <= |h.log| && VersionOf(h, i) < target < UINT32_LIMIT
    ensures LastIndex(w) <= |h.log|
    ensures var index := WalIndex(target, h.base.initialVersion);
      && (target >= h.base.initialVersion && index <= LastIndex(w) ==>
            i < index && IndexOf(h, target) == index && VersionOf(h, index) == target)
      && (i < index <= LastIndex(w) ==> target >= h.base.initialVersion)
      && (0 < LastIndex(w) < index ==> VersionOf(h, LastIndex(w)) != target)
  {
    hide After;
    hide CleanMulti;
    var index := WalIndex(target, h.base.initialVersion);
    if target >= h.base.initialVersion && index <= LastIndex(w) {
      VersionIndex(h, index);
      IndicesOrderVersions(h, index, i);
    }
    if 0 < LastIndex(w) { VersionIndex(h, LastIndex(w)); }
  }
}
