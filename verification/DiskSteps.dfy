/** What happens to the directory: losing the tail of the log in a crash, rolling back, pruning,
    and adding a snapshot. */
module DiskSteps {
  import opened Bytes
  import opened AvlHeight
  import opened MerkleHash
  import opened MultiTrees
  import opened PendingLog
  import opened MultiSnapshots
  import opened Recovery
  import opened Disks

  // ----- Forgetting the newest commits -----

  /** The first `r` commits only. */
  function Cut(h: History, r: nat): History
    requires r <= |h.log|
  {
    h.(log := h.log[..r])
  }

  lemma CutKeepsStates(h: History, r: nat)
    requires ValidHistory(h) && r <= |h.log|
    ensures ValidHistory(Cut(h, r))
    ensures forall i :: 0 <= i <= r ==> At(Cut(h, r), i) == At(h, i)
  {
    hide CommitEntry;
    PrefixIsSome(h.base, h.log, r);
    forall i | 0 <= i <= r ensures At(Cut(h, r), i) == At(h, i) {
      assert h.log[..r][..i] == h.log[..i];
    }
  }

  lemma RetainedAfterCut(sha: Sha, d: Disk, h: History, r: nat, v: nat)
    requires ValidHistory(h) && r <= |h.log| && ValidHistory(Cut(h, r)) && v in d.snapshots && Retained(sha, d, h, v)
    ensures Retained(sha, d, Cut(h, r), v) <==> v <= VersionOf(h, r)
  {
    hide ValidHistory;
    hide At;
    hide Fits;
    hide SaveFiles;
    hide WalIndex;
    CutKeepsStates(h, r);
    var i := IndexOf(h, v);
    CutIndices(h, r, i);
  }

  lemma CutIndices(h: History, r: nat, i: nat)
    requires ValidHistory(h) && r <= |h.log| && i <= |h.log|
    ensures i <= r <==> VersionOf(h, i) <= VersionOf(h, r)
  {
    hide After;
    hide CleanMulti;
    IndicesOrderVersions(h, i, r);
  }

  /** The snapshot directories newer than a version. */
  function NewerThan(d: Disk, version: nat): set<nat> {
    set v | v in d.snapshots && v > version
  }

  lemma ReadableInSameChain(files: SavedMulti, h: History, h': History, v: nat)
    requires h'.base == h.base && Readable(files, h, v)
    ensures Readable(files, h', v)
  {
    hide LoadFiles;
    hide CleanMulti;
    hide WalIndex;
  }

  /** Cutting the history where the log ends leaves the directory consistent, except for snapshots
      of versions that were cut off. */
  lemma CutDisk(sha: Sha, d: Disk, h: History, orphans: set<nat>, r: nat)
    requires DiskOf(sha, d, h, orphans) && r <= |h.log| && LastIndex(d.wal) <= r && IndexOf(h, d.current) <= r
    ensures DiskOf(sha, d, Cut(h, r), orphans + NewerThan(d, VersionOf(h, r)))
    ensures DiskOf(sha, d, Cut(h, r), orphans) <==>
      (forall v :: v in d.snapshots && v !in orphans ==> v <= VersionOf(h, r))
  {
    hide ValidHistory;
    hide Retained;
    hide Readable;
    hide LogOf;
    hide At;
    CutKeepsStates(h, r);
    CutLog(d.wal, h, r);
    RetainedVersion(sha, d, h, d.current);
    CutIndices(h, r, IndexOf(h, d.current));
    forall v | v in d.snapshots && v !in orphans
      ensures Retained(sha, d, Cut(h, r), v) <==> v <= VersionOf(h, r)
    {
      RetainedAfterCut(sha, d, h, r, v);
    }
    forall v | v in d.snapshots ensures Readable(d.snapshots[v], Cut(h, r), v) {
      ReadableInSameChain(d.snapshots[v], h, Cut(h, r), v);
    }
  }

  lemma CutLog(w: Wal, h: History, r: nat)
    requires LogOf(w, h) && LastIndex(w) <= r <= |h.log|
    ensures LogOf(w, Cut(h, r))
  {
    assert h.log[..r][w.first - 1..LastIndex(w)] == h.log[w.first - 1..LastIndex(w)];
  }

  lemma RetainedVersion(sha: Sha, d: Disk, h: History, v: nat)
    requires ValidHistory(h) && v in d.snapshots && Retained(sha, d, h, v)
    ensures var i := IndexOf(h, v); i <= |h.log| && v == VersionOf(h, i) && d.wal.first <= i + 1
  {}

  // ----- Crash and restart -----

  /** Only the entries up to index `keep` have reached the disk. */
  function LoseTail(w: Wal, keep: int): Wal
    requires w.first - 1 <= keep <= LastIndex(w)
  {
    w.(entries := w.entries[..keep - w.first + 1])
  }

  lemma LoseTailKeeps(sha: Sha, d: Disk, h: History, orphans: set<nat>, keep: int)
    requires DiskOf(sha, d, h, orphans) && d.wal.first - 1 <= keep <= LastIndex(d.wal)
    ensures DiskOf(sha, d.(wal := LoseTail(d.wal, keep)), h, orphans)
  {
    hide Readable;
    hide ValidHistory;
    hide SaveFiles;
    hide Fits;
    hide At;
    var d' := d.(wal := LoseTail(d.wal, keep));
    assert h.log[d.wal.first - 1..LastIndex(d.wal)][..keep - d.wal.first + 1] == h.log[d.wal.first - 1..keep];
    forall v | v in d'.snapshots && v !in orphans ensures Retained(sha, d', h, v) {
      assert Retained(sha, d, h, v);
    }
  }

  /** Loading a directory gives a committed state and forgets only a suffix of the commits. It leaves no stray
      snapshot exactly when no snapshot is newer than that state. */
  lemma ReloadIsExact(sha: Sha, d: Disk, h: History, orphans: set<nat>)
    requires DiskOf(sha, d, h, orphans)
    ensures var r := Recovered(d, h);
      && LastIndex(d.wal) <= r <= |h.log| && IndexOf(h, d.current) <= r
      && LoadFrom(d, d.current, 0) == Some(At(h, r)) && At(h, r).version == VersionOf(h, r)
      && DiskOf(sha, d, Cut(h, r), orphans + NewerThan(d, VersionOf(h, r)))
      && (DiskOf(sha, d, Cut(h, r), orphans) <==>
          (forall v :: v in d.snapshots && v !in orphans ==> v <= VersionOf(h, r)))
  {
    hide LoadFrom;
    hide DiskOf;
    hide At;
    hide WalIndex;
    DiskHistory(sha, d, h, orphans);
    LoadIsExact(sha, d, h, orphans);
    CutDisk(sha, d, h, orphans, Recovered(d, h));
    AtVersion(h, Recovered(d, h));
  }

  /** The same after a crash, in which the log has lost the entries after `keep`. */
  lemma RestartIsExact(sha: Sha, d: Disk, h: History, orphans: set<nat>, keep: int)
    requires DiskOf(sha, d, h, orphans) && d.wal.first - 1 <= keep <= LastIndex(d.wal)
    ensures var d' := d.(wal := LoseTail(d.wal, keep)); var r := Recovered(d', h);
      && keep <= r <= |h.log| && IndexOf(h, d.current) <= r
      && LoadFrom(d', d'.current, 0) == Some(At(h, r)) && At(h, r).version == VersionOf(h, r)
      && DiskOf(sha, d', h, orphans)
      && DiskOf(sha, d', Cut(h, r), orphans + NewerThan(d', VersionOf(h, r)))
      && (DiskOf(sha, d', Cut(h, r), orphans) <==>
          (forall v :: v in d.snapshots && v !in orphans ==> v <= VersionOf(h, r)))
  {
    hide LoadFrom;
    hide DiskOf;
    hide At;
    hide WalIndex;
    LoseTailKeeps(sha, d, h, orphans, keep);
    ReloadIsExact(sha, d.(wal := LoseTail(d.wal, keep)), h, orphans);
  }

  // ----- Rollback -----

  /** `LoadForOverwriting`, the part after loading: re-link, truncate the log, remove newer snapshots. Removals that
      fail are only reported; `left` are the newer directories that stay, also if the process stops half-way. */
  function Relink(d: Disk, v: nat): Disk {
    d.(current := v)
  }

  function DropNewer(d: Disk, target: nat, left: set<nat>): Disk {
    d.(snapshots := map v | v in d.snapshots && (v <= target || v in left) :: d.snapshots[v])
  }

  /** None is the refusal to truncate the log; the link has been moved by then. */
  function Rollback(d: Disk, target: nat, v: nat, initialVersion: nat, left: set<nat>): Option<Disk> {
    match TruncateBack(d.wal, WalIndex(target, initialVersion))
    case None => None
    case Some(w) => Some(DropNewer(Relink(d, v).(wal := w), target, left))
  }

  /** The directory after the call, refused or not. */
  function AfterRollback(d: Disk, target: nat, v: nat, initialVersion: nat, left: set<nat>): Disk {
    match Rollback(d, target, v, initialVersion, left)
    case None => Relink(d, v)
    case Some(d') => d'
  }

  lemma RelinkKeeps(sha: Sha, d: Disk, h: History, orphans: set<nat>, v: nat)
    requires DiskOf(sha, d, h, orphans) && v in d.snapshots && v !in orphans
    ensures DiskOf(sha, Relink(d, v), h, orphans)
  {
    hide ValidHistory;
    hide SaveFiles;
    hide Fits;
    hide At;
    hide Readable;
    forall u | u in d.snapshots && u !in orphans ensures Retained(sha, Relink(d, v), h, u) {
      assert Retained(sha, d, h, u);
    }
  }

  lemma DropNewerKeeps(sha: Sha, d: Disk, h: History, orphans: set<nat>, target: nat, left: set<nat>)
    requires DiskOf(sha, d, h, orphans) && d.current <= target
    ensures DiskOf(sha, DropNewer(d, target, left), h, orphans)
  {
    hide ValidHistory;
    hide SaveFiles;
    hide Fits;
    hide At;
    hide Readable;
    var d' := DropNewer(d, target, left);
    forall u | u in d'.snapshots && u !in orphans ensures Retained(sha, d', h, u) {
      assert Retained(sha, d, h, u);
    }
  }

  /** Rolling back succeeds exactly when the log has the entry of the target, and then a plain `Load`
      of the directory gives the committed state of the target version, whatever newer directories are left. */
  lemma RollbackIsExact(sha: Sha, d: Disk, h: History, orphans: set<nat>, target: nat, v: nat, left: set<nat>)
    requires DiskOf(sha, d, h, orphans) && 0 < target < UINT32_LIMIT && IsSought(d, target, v) && v !in orphans
    ensures var iv := h.base.initialVersion;
      var r, i := Rollback(d, target, v, iv, left), WalIndex(target, iv);
      && (r.Some? <==> d.wal.first <= i <= LastIndex(d.wal))
      && (r.Some? ==>
            && i <= |h.log| && target == VersionOf(h, i)
            && LoadFrom(r.value, r.value.current, 0) == Some(At(h, i))
            && r.value.current == v && r.value.wal.first == d.wal.first && LastIndex(r.value.wal) == i
            && r.value.snapshots.Keys == (set u | u in d.snapshots && (u <= target || u in left))
            && DiskOf(sha, r.value, Cut(h, i), orphans + NewerThan(r.value, target)))
  {
    hide LoadFrom;
    hide DiskOf;
    hide At;
    hide WalIndex;
    var i := WalIndex(target, h.base.initialVersion);
    if d.wal.first <= i <= LastIndex(d.wal) {
      RollbackTarget(sha, d, h, orphans, target, v);
      var d2 := Relink(d, v).(wal := LoseTail(d.wal, i));
      RelinkKeeps(sha, d, h, orphans, v);
      LoseTailKeeps(sha, Relink(d, v), h, orphans, i);
      DropNewerKeeps(sha, d2, h, orphans, target, left);
      LoadIsExact(sha, DropNewer(d2, target, left), h, orphans);
      CutDisk(sha, DropNewer(d2, target, left), h, orphans, i);
    }
  }

  /** The target of a possible rollback is a committed version, not older than the sought snapshot. */
  lemma RollbackTarget(sha: Sha, d: Disk, h: History, orphans: set<nat>, target: nat, v: nat)
    requires DiskOf(sha, d, h, orphans) && 0 < target < UINT32_LIMIT && IsSought(d, target, v) && v !in orphans
    requires d.wal.first <= WalIndex(target, h.base.initialVersion) <= LastIndex(d.wal)
    ensures var i := WalIndex(target, h.base.initialVersion);
      i <= |h.log| && target == VersionOf(h, i) && IndexOf(h, v) <= i && v == VersionOf(h, IndexOf(h, v))
  {
    hide At;
    hide SaveFiles;
    hide Fits;
    hide WalIndex;
    hide ValidHistory;
    hide Readable;
    assert Retained(sha, d, h, v);
    var i := WalIndex(target, h.base.initialVersion);
    IndexIsVersion(h, target, i);
    CutIndices(h, i, IndexOf(h, v));
  }

  lemma IndexIsVersion(h: History, target: nat, i: nat)
    requires ValidHistory(h) && 0 < target < UINT32_LIMIT && i == WalIndex(target, h.base.initialVersion)
    requires 1 <= i <= |h.log|
    ensures target == VersionOf(h, i)
  {
    hide After;
    hide CleanMulti;
  }

  /** A rollback that is refused, or stops after moving the link, leaves a directory that loads as a committed state.
      It is the state from before exactly when the link did not move or the log reaches both snapshots. */
  lemma MovedLinkIsExact(sha: Sha, d: Disk, h: History, orphans: set<nat>, v: nat)
    requires DiskOf(sha, d, h, orphans) && v in d.snapshots && v !in orphans
    ensures var d1, last := Relink(d, v), LastIndex(d.wal); var r, r1 := Recovered(d, h), Recovered(d1, h);
      && r <= |h.log| && r1 <= |h.log| && DiskOf(sha, d1, h, orphans)
      && LoadFrom(d, d.current, 0) == Some(At(h, r)) && LoadFrom(d1, v, 0) == Some(At(h, r1))
      && (At(h, r1) == At(h, r) <==> v == d.current || (IndexOf(h, v) <= last && IndexOf(h, d.current) <= last))
      && (v < d.current ==> r1 <= r)
  {
    hide LoadFrom;
    hide DiskOf;
    hide At;
    hide WalIndex;
    DiskHistory(sha, d, h, orphans);
    RelinkKeeps(sha, d, h, orphans, v);
    LoadIsExact(sha, d, h, orphans);
    LoadIsExact(sha, Relink(d, v), h, orphans);
    AtVersion(h, Recovered(d, h));
    AtVersion(h, Recovered(Relink(d, v), h));
    SnapshotIndices(sha, d, h, orphans, v);
    CutIndices(h, Recovered(d, h), Recovered(Relink(d, v), h));
    CutIndices(h, Recovered(Relink(d, v), h), Recovered(d, h));
  }

  lemma SnapshotIndices(sha: Sha, d: Disk, h: History, orphans: set<nat>, v: nat)
    requires DiskOf(sha, d, h, orphans) && v in d.snapshots && v !in orphans
    ensures ValidHistory(h)
    ensures IndexOf(h, v) <= |h.log| && v == VersionOf(h, IndexOf(h, v))
    ensures IndexOf(h, d.current) <= |h.log| && d.current == VersionOf(h, IndexOf(h, d.current))
    ensures v < d.current ==> IndexOf(h, v) < IndexOf(h, d.current)
  {
    hide Readable;
    hide At;
    hide ValidHistory;
    hide WalIndex;
    RetainedVersion(sha, d, h, v);
    RetainedVersion(sha, d, h, d.current);
    CutIndices(h, IndexOf(h, v), IndexOf(h, d.current));
  }

  // ----- Pruning -----

  function RemoveSnapshot(d: Disk, v: nat): Disk {
    d.(snapshots := d.snapshots - {v})
  }

  lemma RemoveKeeps(sha: Sha, d: Disk, h: History, orphans: set<nat>, v: nat)
    requires DiskOf(sha, d, h, orphans) && v != d.current
    ensures DiskOf(sha, RemoveSnapshot(d, v), h, orphans)
  {
    hide Readable;
    hide ValidHistory;
    hide SaveFiles;
    hide Fits;
    hide At;
    forall u | u in d.snapshots && u != v && u !in orphans ensures Retained(sha, RemoveSnapshot(d, v), h, u) {
      assert Retained(sha, d, h, u);
    }
  }

  ghost predicate IsEarliest(d: Disk, e: nat) {
    e in d.snapshots && forall v :: v in d.snapshots ==> e <= v
  }

  /** Truncation after a prune; a rejected index leaves the log alone. */
  function TruncateLog(d: Disk, earliest: nat, initialVersion: nat): Disk {
    match TruncateFront(d.wal, WalIndex(earliest + 1, initialVersion))
    case Some(w) => d.(wal := w)
    case None => d
  }

  /** The log `w'` is what `w` has from index `k` on, or all of it if it does not have that index. */
  ghost predicate StartsAt(w: Wal, w': Wal, k: int) {
    && w'.first == (if w.first <= k <= LastIndex(w) then k else w.first) && LastIndex(w') == LastIndex(w)
    && forall j :: w'.first <= j <= LastIndex(w') ==> ReadAt(w', j) == ReadAt(w, j)
  }

  /** Pruning never drops a log entry that some remaining snapshot needs, even when snapshots newer than `earliest` have
      appeared since it was determined. It drops all the others: the log starts with the version after `earliest`, whose
      index is one more than that of the snapshot, unless it did not have that version. */
  lemma TruncateKeeps(sha: Sha, d: Disk, h: History, orphans: set<nat>, earliest: nat)
    requires DiskOf(sha, d, h, orphans) && earliest + 1 < UINT32_LIMIT
    requires forall v :: v in d.snapshots ==> earliest <= v
    ensures DiskOf(sha, TruncateLog(d, earliest, h.base.initialVersion), h, orphans)
    ensures var d', k := TruncateLog(d, earliest, h.base.initialVersion), WalIndex(earliest + 1, h.base.initialVersion);
      && d' == d.(wal := d'.wal) && StartsAt(d.wal, d'.wal, k)
      && (earliest in d.snapshots && earliest !in orphans && d.wal.first <= k <= LastIndex(d.wal) ==>
            k == IndexOf(h, earliest) + 1)
  {
    hide Readable;
    hide SaveFiles;
    hide Fits;
    hide At;
    hide After;
    hide CleanMulti;
    TruncateExact(d, earliest, h.base.initialVersion);
    TruncateRetains(sha, d, h, orphans, earliest);
    if earliest in d.snapshots && earliest !in orphans { assert Retained(sha, d, h, earliest); }
  }

  lemma TruncateRetains(sha: Sha, d: Disk, h: History, orphans: set<nat>, earliest: nat)
    requires DiskOf(sha, d, h, orphans) && earliest + 1 < UINT32_LIMIT
    requires forall v :: v in d.snapshots ==> earliest <= v
    ensures DiskOf(sha, TruncateLog(d, earliest, h.base.initialVersion), h, orphans)
  {
    hide Readable;
    hide SaveFiles;
    hide Fits;
    hide At;
    hide After;
    hide CleanMulti;
    var d' := TruncateLog(d, earliest, h.base.initialVersion);
    if d' != d {
      var k := d'.wal.first;
      assert h.log[d.wal.first - 1..LastIndex(d.wal)][k - d.wal.first..] == h.log[k - 1..LastIndex(d.wal)];
      forall v | v in d.snapshots && v !in orphans ensures Retained(sha, d', h, v) {
        assert Retained(sha, d, h, v);
      }
    }
  }

  /** The log of `d` is what `w` has from the version after the oldest snapshot on. */
  ghost predicate StartsAfterOldest(w: Wal, d: Disk, initialVersion: nat) {
    exists e: nat :: IsEarliest(d, e) && StartsAt(w, d.wal, WalIndex(e + 1, initialVersion))
  }

  lemma TruncateLast(d: Disk, earliest: nat, initialVersion: nat)
    ensures LastIndex(TruncateLog(d, earliest, initialVersion).wal) == LastIndex(d.wal)
  {
    hide WalIndex;
  }

  lemma TruncateExact(d: Disk, earliest: nat, initialVersion: nat)
    ensures var d' := TruncateLog(d, earliest, initialVersion);
      d' == d.(wal := d'.wal) && StartsAt(d.wal, d'.wal, WalIndex(earliest + 1, initialVersion))
  {
    hide WalIndex;
  }

  // ----- Adding -----

  function AddSnapshot(d: Disk, v: nat, files: SavedMulti): Disk {
    d.(snapshots := d.snapshots[v := files])
  }

  lemma AddKeeps(sha: Sha, d: Disk, h: History, orphans: set<nat>, i: nat)
    requires DiskOf(sha, d, h, orphans) && IndexOf(h, d.current) <= i <= |h.log| && Fits(At(h, i))
    ensures var v := VersionOf(h, i);
      DiskOf(sha, AddSnapshot(d, v, SaveFiles(sha, At(h, i))), h, orphans - {v})
  {
    hide Readable;
    hide SaveFiles;
    hide Fits;
    hide At;
    hide ValidHistory;
    hide LogOf;
    hide WalIndex;
    var v := VersionOf(h, i);
    var d' := AddSnapshot(d, v, SaveFiles(sha, At(h, i)));
    IndexAt(h, i);
    assert Retained(sha, d, h, d.current);
    forall u | u in d'.snapshots && u !in orphans - {v} ensures Retained(sha, d', h, u) {
      if u != v { assert Retained(sha, d, h, u); }
    }
    AddedIsReadable(sha, h, i);
  }

  lemma AddedIsReadable(sha: Sha, h: History, i: nat)
    requires ValidHistory(h) && i <= |h.log| && Fits(At(h, i))
    ensures Readable(SaveFiles(sha, At(h, i)), h, VersionOf(h, i))
  {
    hide LoadFiles;
    hide SaveFiles;
    hide Fits;
    hide CleanMulti;
    hide WalIndex;
    AtVersion(h, i);
    VersionIndex(h, i);
    FilesRoundTrip(sha, At(h, i));
  }

  /** Writing the next entry of the history. */
  lemma WriteKeeps(sha: Sha, d: Disk, h: History, orphans: set<nat>)
    requires DiskOf(sha, d, h, orphans) && LastIndex(d.wal) < |h.log|
    ensures var i := LastIndex(d.wal) + 1; i >= 1
    ensures var i := LastIndex(d.wal) + 1; var w := Write(d.wal, i, h.log[i - 1]);
      w.Some? && LastIndex(w.value) == i && DiskOf(sha, d.(wal := w.value), h, orphans)
  {
    hide Readable;
    hide ValidHistory;
    hide SaveFiles;
    hide Fits;
    hide At;
    var i := LastIndex(d.wal) + 1;
    var d' := d.(wal := Write(d.wal, i, h.log[i - 1]).value);
    assert d'.wal.entries == h.log[d.wal.first - 1..i];
    forall v | v in d.snapshots && v !in orphans ensures Retained(sha, d', h, v) {
      assert Retained(sha, d, h, v);
    }
  }

  /** One more commit. */
  function Extend(h: History, e: WalEntry): History {
    h.(log := h.log + [e])
  }

  lemma ExtendKeeps(sha: Sha, d: Disk, h: History, orphans: set<nat>, e: WalEntry)
    requires DiskOf(sha, d, h, orphans) && CommitEntry(At(h, |h.log|), e).Some?
    requires |h.log| + h.base.initialVersion + 2 < UINT32_LIMIT
    ensures DiskOf(sha, d, Extend(h, e), orphans)
    ensures At(Extend(h, e), |h.log| + 1) == CommitEntry(At(h, |h.log|), e).value
    ensures forall i :: 0 <= i <= |h.log| ==> At(Extend(h, e), i) == At(h, i)
  {
    hide Readable;
    hide SaveFiles;
    hide Fits;
    hide CommitEntry;
    hide ValidBase;
    hide WalIndex;
    ExtendHistory(h, e);
    hide At;
    var h' := Extend(h, e);
    assert LogOf(d.wal, h') by {
      assert h'.log[d.wal.first - 1..LastIndex(d.wal)] == h.log[d.wal.first - 1..LastIndex(d.wal)];
    }
    forall v | v in d.snapshots && v !in orphans ensures Retained(sha, d, h', v) {
      assert Retained(sha, d, h, v);
    }
    forall v | v in d.snapshots ensures Readable(d.snapshots[v], h', v) {
      ReadableInSameChain(d.snapshots[v], h, h', v);
    }
  }

  lemma ExtendHistory(h: History, e: WalEntry)
    requires ValidHistory(h) && CommitEntry(At(h, |h.log|), e).Some?
    requires |h.log| + h.base.initialVersion + 2 < UINT32_LIMIT
    ensures ValidHistory(Extend(h, e))
    ensures At(Extend(h, e), |h.log| + 1) == CommitEntry(At(h, |h.log|), e).value
    ensures forall i :: 0 <= i <= |h.log| ==> At(Extend(h, e), i) == At(h, i)
  {
    hide CommitEntry;
    hide ValidBase;
    var log := h.log + [e];
    assert log[..|log| - 1] == h.log && h.log[..|h.log|] == h.log && log[..|log|] == log;
    forall i | 0 <= i <= |h.log| ensures At(Extend(h, e), i) == At(h, i) {
      assert log[..i] == h.log[..i];
    }
  }
}
