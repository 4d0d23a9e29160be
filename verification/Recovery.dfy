/** The write-ahead log, the snapshot directories, and loading a state from them. */
module Recovery {
  import opened Bytes
  import opened AvlHeight
  import opened MultiTrees
  import opened PendingLog

  // ----- The log -----

  /** Consecutive entries, the first one at index `first`. An untouched log starts at index 1. */
  datatype Wal = Wal(first: nat, entries: seq<WalEntry>)

  function LastIndex(w: Wal): int {
    w.first + |w.entries| - 1
  }

  function ReadAt(w: Wal, index: int): Option<WalEntry> {
    if w.first <= index <= LastIndex(w) then Some(w.entries[index - w.first]) else None
  }

  /** Only the next index can be written; None is the out-of-order error. */
  function Write(w: Wal, index: int, e: WalEntry): Option<Wal> {
    if index == LastIndex(w) + 1 then Some(w.(entries := w.entries + [e])) else None
  }

  function TruncateFront(w: Wal, index: int): Option<Wal> {
    if w.first <= index <= LastIndex(w) then Some(Wal(index, w.entries[index - w.first..])) else None
  }

  function TruncateBack(w: Wal, index: int): Option<Wal> {
    if w.first <= index <= LastIndex(w) then Some(Wal(w.first, w.entries[..index - w.first + 1])) else None
  }

  // ----- Replay -----

  /** The replay loop, from index `from` up to `end`. */
  function Replay(m: MultiState, w: Wal, from: nat, end: int): (r: Option<MultiState>)
    requires ValidMulti(m)
    ensures r.Some? ==> ValidMulti(r.value) && r.value.initialVersion == m.initialVersion
    decreases end - from
  {
    if end < from then Some(m) else
    match (Replay(m, w, from, end - 1), ReadAt(w, end))
    case (Some(m'), Some(e)) => CommitEntry(m', e)
    case _ => None
  }

  /** `CatchupWAL`; `endVersion` 0 means the end of the log. */
  function CatchUp(m: MultiState, w: Wal, endVersion: nat): (r: Option<MultiState>)
    requires ValidMulti(m)
    ensures r.Some? ==> ValidMulti(r.value) && r.value.initialVersion == m.initialVersion
  {
    var last := LastIndex(w);
    var firstIndex := WalIndex(NextVersion(m.version, m.initialVersion), m.initialVersion);
    if firstIndex > last then Some(m) else
    var endIndex := if endVersion == 0 then last else WalIndex(endVersion, m.initialVersion);
    if endIndex < firstIndex then None else
    Replay(m, w, firstIndex, if endIndex > last then last else endIndex)
  }

  // ----- The history of commits -----

  /** Where the database started, and everything committed since. */
  datatype History = History(base: MultiState, log: seq<WalEntry>)

  /** A new chain, or a chain imported at the version below its initial version. */
  ghost predicate ValidBase(m: MultiState) {
    CleanMulti(m) && m.initialVersion < UINT32_LIMIT && (m.version == 0 || m.version + 1 == m.initialVersion)
  }

  ghost function After(base: MultiState, log: seq<WalEntry>): (r: Option<MultiState>)
    requires ValidMulti(base)
    ensures r.Some? ==> ValidMulti(r.value) && r.value.initialVersion == base.initialVersion
  {
    if log == [] then Some(base) else
    match After(base, log[..|log| - 1])
    case None => None
    case Some(m) => CommitEntry(m, log[|log| - 1])
  }

  ghost predicate ValidHistory(h: History) {
    && ValidBase(h.base) && After(h.base, h.log).Some?
    && |h.log| + h.base.initialVersion + 1 < UINT32_LIMIT
  }

  function VersionOf(h: History, i: nat): nat {
    if i == 0 then h.base.version else WalVersion(i, h.base.initialVersion)
  }

  /** The log index of a version, which is also the number of commits up to it. */
  function IndexOf(h: History, v: nat): nat {
    if v == h.base.version then 0 else WalIndex(v, h.base.initialVersion)
  }

  lemma {:induction false} PrefixIsSome(base: MultiState, log: seq<WalEntry>, i: nat)
    requires ValidMulti(base) && After(base, log).Some? && i <= |log|
    ensures After(base, log[..i]).Some?
    decreases |log|
  {
    hide CommitEntry;
    if i == |log| {
      assert log[..i] == log;
    } else {
      PrefixIsSome(base, log[..|log| - 1], i);
      assert log[..|log| - 1][..i] == log[..i];
    }
  }

  /** The state committed by the first `i` entries. */
  ghost function At(h: History, i: nat): (m: MultiState)
    requires ValidHistory(h) && i <= |h.log|
    ensures ValidMulti(m)
  {
    PrefixIsSome(h.base, h.log, i);
    After(h.base, h.log[..i]).value
  }

  lemma AtStep(h: History, i: nat)
    requires ValidHistory(h) && 0 < i <= |h.log|
    ensures CommitEntry(At(h, i - 1), h.log[i - 1]) == Some(At(h, i))
  {
    hide CommitEntry;
    PrefixIsSome(h.base, h.log, i);
    assert h.log[..i][..i - 1] == h.log[..i - 1];
  }

  lemma {:induction false} AtVersion(h: History, i: nat)
    requires ValidHistory(h) && i <= |h.log|
    ensures At(h, i).version == VersionOf(h, i) && At(h, i).initialVersion == h.base.initialVersion
    ensures CleanMulti(At(h, i)) && VersionOf(h, i) < UINT32_LIMIT
  {
    hide CommitEntry;
    hide CleanMulti;
    hide ValidMulti;
    if i == 0 {
      assert h.log[..0] == [];
    } else {
      AtVersion(h, i - 1);
      AtStep(h, i);
    }
  }

  /** Versions and indices determine each other. */
  lemma VersionIndex(h: History, i: nat)
    requires ValidBase(h.base) && i + h.base.initialVersion < UINT32_LIMIT
    ensures IndexOf(h, VersionOf(h, i)) == i
    ensures i > 0 ==> VersionOf(h, i) > VersionOf(h, i - 1)
    ensures i > 0 ==> WalIndex(VersionOf(h, i), h.base.initialVersion) == i
    ensures WalIndex(NextVersion(VersionOf(h, i), h.base.initialVersion), h.base.initialVersion) == i + 1
    ensures NextVersion(VersionOf(h, i), h.base.initialVersion) == VersionOf(h, i + 1)
  {
    hide CleanMulti;
  }

  lemma IndexAt(h: History, i: nat)
    requires ValidHistory(h) && i <= |h.log|
    ensures IndexOf(h, VersionOf(h, i)) == i
  {
    hide After;
    hide CleanMulti;
    VersionIndex(h, i);
  }

  lemma {:induction false} VersionsIncrease(h: History, i: nat, j: nat)
    requires ValidBase(h.base) && i <= j && j + h.base.initialVersion < UINT32_LIMIT
    ensures i < j ==> VersionOf(h, i) < VersionOf(h, j)
  {
    hide CleanMulti;
    if i < j {
      VersionsIncrease(h, i, j - 1);
      VersionIndex(h, j);
    }
  }

  lemma IndicesOrderVersions(h: History, i: nat, j: nat)
    requires ValidBase(h.base) && i + h.base.initialVersion < UINT32_LIMIT && j + h.base.initialVersion < UINT32_LIMIT
    ensures i <= j <==> VersionOf(h, i) <= VersionOf(h, j)
  {
    hide CleanMulti;
    if i <= j { VersionsIncrease(h, i, j); } else { VersionsIncrease(h, j, i); }
  }

  /** The entries of the log are those of the history. */
  ghost predicate LogOf(w: Wal, h: History) {
    && 1 <= w.first && LastIndex(w) <= |h.log|
    && w.entries == h.log[w.first - 1..LastIndex(w)]
  }

  /** Replay follows the history. */
  lemma {:induction false} ReplayFollows(w: Wal, h: History, i: nat, end: nat)
    requires ValidHistory(h) && LogOf(w, h) && w.first <= i + 1 && i <= end <= LastIndex(w)
    ensures Replay(At(h, i), w, i + 1, end) == Some(At(h, end))
    decreases end
  {
    hide CommitEntry;
    if i < end {
      ReplayFollows(w, h, i, end - 1);
      AtStep(h, end);
    }
  }

  /** Catching up without a target ends at the end of the log, or where it was if that is later. */
  lemma CatchUpFollows(w: Wal, h: History, i: nat)
    requires ValidHistory(h) && LogOf(w, h) && i <= |h.log| && (i < LastIndex(w) ==> w.first <= i + 1)
    ensures var end := if i < LastIndex(w) then LastIndex(w) else i; CatchUp(At(h, i), w, 0) == Some(At(h, end))
  {
    hide CommitEntry;
    hide WalIndex;
    hide NextVersion;
    AtVersion(h, i);
    VersionIndex(h, i);
    if i < LastIndex(w) {
      ReplayFollows(w, h, i, LastIndex(w));
    }
  }
}
