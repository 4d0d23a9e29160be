/** Snapshot directory names: decimal versions padded with zeros, so that the alphabetical order of a
    directory listing is the numerical order of the versions. */
module SnapshotNames {
  import opened Bytes

  const SNAPSHOT_PREFIX: Bytes := [115, 110, 97, 112, 115, 104, 111, 116, 45]

  const SNAPSHOT_DIGITS: nat := 20

  const ZERO: Byte := 48
  const PLUS: Byte := 43
  const MINUS: Byte := 45

  function Pow10(k: nat): (r: nat)
    ensures r >= 1
  {
    if k == 0 then 1 else 10 * Pow10(k - 1)
  }

  /** The last `k` decimal digits of `n`, leading zeros included. */
  function Digits(n: nat, k: nat): (r: Bytes)
    ensures |r| == k
  {
    if k == 0 then [] else Digits(n / 10, k - 1) + [ZERO + n % 10]
  }

  /** `snapshotName`, for versions that fit the padding. */
  function SnapshotName(v: nat): Bytes
    requires v < Pow10(SNAPSHOT_DIGITS)
  {
    SNAPSHOT_PREFIX + Digits(v, SNAPSHOT_DIGITS)
  }

  predicate IsSnapshotName(name: Bytes) {
    SNAPSHOT_PREFIX <= name && |name| == |SNAPSHOT_PREFIX| + SNAPSHOT_DIGITS
  }

  predicate IsDigit(b: Byte) {
    ZERO <= b < ZERO + 10
  }

  function ParseDigits(s: Bytes): Option<nat> {
    if s == [] then Some(0)
    else if !IsDigit(s[|s| - 1]) then None
    else match ParseDigits(s[..|s| - 1])
      case None => None
      case Some(n) => Some(10 * n + (s[|s| - 1] - ZERO))
  }

  /** `strconv.ParseInt(s, 10, 32)`: an optional sign, at least one digit, and a value that fits. */
  function ParseInt32(s: Bytes): Option<int> {
    var signed := s != [] && (s[0] == PLUS || s[0] == MINUS);
    var digits := if signed then s[1..] else s;
    if digits == [] then None else
    match ParseDigits(digits)
    case None => None
    case Some(n) =>
      var value := if s[0] == MINUS then -(n as int) else n;
      if -0x8000_0000 <= value < 0x8000_0000 then Some(value) else None
  }

  /** `parseVersion`. */
  function ParseVersion(name: Bytes): Option<int> {
    if IsSnapshotName(name) then ParseInt32(name[|SNAPSHOT_PREFIX|..]) else None
  }

  lemma {:induction false} DigitsParse(n: nat, k: nat)
    requires n < Pow10(k)
    ensures ParseDigits(Digits(n, k)) == Some(n)
    ensures k > 0 ==> IsDigit(Digits(n, k)[0])
  {
    if k > 0 {
      DigitsParse(n / 10, k - 1);
      assert Digits(n, k)[..k - 1] == Digits(n / 10, k - 1);
    }
  }

  /** A snapshot name is read back exactly when its version is below 2^31. */
  lemma NameRoundTrip(v: nat)
    requires v < Pow10(SNAPSHOT_DIGITS)
    ensures ParseVersion(SnapshotName(v)) == if v < 0x8000_0000 then Some(v) else None
  {
    DigitsParse(v, SNAPSHOT_DIGITS);
    var name := SnapshotName(v);
    assert name[|SNAPSHOT_PREFIX|..] == Digits(v, SNAPSHOT_DIGITS);
  }

  /** A directory that an interrupted write or removal leaves, which has a suffix after the name, is never taken for a
      snapshot. */
  lemma TemporaryIsIgnored(v: nat, suffix: Bytes)
    requires v < Pow10(SNAPSHOT_DIGITS)
    ensures IsSnapshotName(SnapshotName(v) + suffix) <==> suffix == []
  {
    hide Pow10;
    hide Digits;
  }

  lemma {:induction false} ParseIsDigits(s: Bytes)
    requires ParseDigits(s).Some?
    ensures ParseDigits(s).value < Pow10(|s|) && Digits(ParseDigits(s).value, |s|) == s
  {
    if s != [] {
      var front := s[..|s| - 1];
      ParseIsDigits(front);
      var n, d := ParseDigits(front).value, s[|s| - 1] - ZERO;
      assert (10 * n + d) / 10 == n && (10 * n + d) % 10 == d;
      assert s == front + [s[|s| - 1]];
    }
  }

  /** The other direction: a version that is read from a name without a sign has that name. A sign gives a version that
      is not positive, or not negative, with another name. */
  lemma ParsedNameIsName(name: Bytes)
    requires ParseVersion(name).Some?
    ensures var v, sign := ParseVersion(name).value, name[|SNAPSHOT_PREFIX|];
      && (sign == MINUS ==> v <= 0) && (sign != MINUS ==> v >= 0)
      && (v >= 0 ==> v < Pow10(SNAPSHOT_DIGITS) && (SnapshotName(v) == name <==> IsDigit(sign)))
  {
    hide Digits;
    hide ParseDigits;
    hide Pow10;
    var s := name[|SNAPSHOT_PREFIX|..];
    var signed := s[0] == PLUS || s[0] == MINUS;
    ParseIsDigits(if signed then s[1..] else s);
    assert name == SNAPSHOT_PREFIX + s;
    NineDigits();
    var v := ParseVersion(name).value;
    if v >= 0 {
      DigitsParse(v, SNAPSHOT_DIGITS);
      assert SnapshotName(v)[|SNAPSHOT_PREFIX|..] == Digits(v, SNAPSHOT_DIGITS);
    }
  }

  lemma NineDigits()
    ensures Pow10(SNAPSHOT_DIGITS) >= 0x8000_0000
  {
    assert Pow10(5) == 100000 && Pow10(10) == 10000000000;
    PowGrows(10, SNAPSHOT_DIGITS);
  }

  lemma {:induction false} PowGrows(j: nat, k: nat)
    requires j <= k
    ensures Pow10(j) <= Pow10(k)
  {
    if j < k { PowGrows(j, k - 1); }
  }

  /** Padded numbers of the same length compare like the numbers. */
  lemma {:induction false} DigitsOrder(m: nat, n: nat, k: nat)
    requires m < n < Pow10(k)
    ensures Less(Digits(m, k), Digits(n, k))
    decreases k
  {
    if k > 0 {
      if m / 10 < n / 10 {
        DigitsOrder(m / 10, n / 10, k - 1);
        LessExtends(Digits(m / 10, k - 1), Digits(n / 10, k - 1), [ZERO + m % 10], [ZERO + n % 10]);
      } else {
        ComparePrefixed(Digits(n / 10, k - 1), [ZERO + m % 10], [ZERO + n % 10]);
      }
    }
  }

  lemma {:induction false} LessExtends(a: Bytes, b: Bytes, x: Bytes, y: Bytes)
    requires |a| == |b| && Less(a, b)
    ensures Less(a + x, b + y)
    decreases |a|
  {
    if a != [] {
      assert (a + x)[1..] == a[1..] + x && (b + y)[1..] == b[1..] + y;
      if a[0] == b[0] { LessExtends(a[1..], b[1..], x, y); }
    }
  }

  /** Names sort as their versions do. */
  lemma NameOrder(u: nat, v: nat)
    requires u < Pow10(SNAPSHOT_DIGITS) && v < Pow10(SNAPSHOT_DIGITS)
    ensures Less(SnapshotName(u), SnapshotName(v)) <==> u < v
  {
    hide Pow10;
    ComparePrefixed(SNAPSHOT_PREFIX, Digits(u, SNAPSHOT_DIGITS), Digits(v, SNAPSHOT_DIGITS));
    CompareFlips(Digits(u, SNAPSHOT_DIGITS), Digits(v, SNAPSHOT_DIGITS));
    if u < v {
      DigitsOrder(u, v, SNAPSHOT_DIGITS);
    } else if v < u {
      DigitsOrder(v, u, SNAPSHOT_DIGITS);
    }
  }

  // ----- Directory listings -----

  datatype DirEntry = DirEntry(name: Bytes, isDir: bool)

  predicate IsSnapshot(e: DirEntry) {
    e.isDir && IsSnapshotName(e.name)
  }

  ghost predicate IsEntryOf(e: DirEntry, v: nat) {
    v < Pow10(SNAPSHOT_DIGITS) && e == DirEntry(SnapshotName(v), true)
  }

  /** The listing is sorted by name, and its snapshot directories are exactly those of `versions`. */
  ghost predicate Lists(entries: seq<DirEntry>, versions: set<nat>) {
    && (forall i, j :: 0 <= i < j < |entries| ==> Less(entries[i].name, entries[j].name))
    && (forall v :: v in versions ==> exists i :: 0 <= i < |entries| && IsEntryOf(entries[i], v))
    && (forall i :: 0 <= i < |entries| && IsSnapshot(entries[i]) ==> exists v :: v in versions && IsEntryOf(entries[i], v))
  }

  /** Every version can be read back from its name. */
  predicate Parsable(versions: set<nat>) {
    forall v :: v in versions ==> v < 0x8000_0000
  }

  lemma EntryFacts(e: DirEntry, v: nat)
    requires IsEntryOf(e, v)
    ensures IsSnapshot(e) && ParseVersion(e.name) == if v < 0x8000_0000 then Some(v) else None
  {
    hide Pow10;
    NameRoundTrip(v);
  }

  lemma EntryOrder(entries: seq<DirEntry>, versions: set<nat>, i: nat, j: nat, u: nat, v: nat)
    requires Lists(entries, versions) && i < |entries| && j < |entries|
    requires IsEntryOf(entries[i], u) && IsEntryOf(entries[j], v)
    ensures i < j <==> u < v
    ensures i == j <==> u == v
  {
    hide Pow10;
    hide Less;
    hide SnapshotName;
    NameOrder(u, v);
    NameOrder(v, u);
  }

  // ----- Looking through the snapshots -----

  datatype SeekResult = Found(version: int) | Pruned | BadName

  /** `seekSnapshot`: from the last name down to the first one that is not above the target. */
  method SeekSnapshot(entries: seq<DirEntry>, target: nat, ghost versions: set<nat>) returns (r: SeekResult)
    requires Lists(entries, versions)
    ensures r.BadName? <==> !Parsable(versions)
    ensures r.Pruned? ==> forall v :: v in versions ==> v > target
    ensures r.Found? ==> 0 <= r.version <= target && r.version in versions
    ensures r.Found? ==> forall v :: v in versions && v <= target ==> v <= r.version
  {
    hide Less;
    hide ParseVersion;
    hide IsEntryOf;
    hide IsSnapshotName;
    var i := |entries| - 1;
    while i >= 0
      invariant -1 <= i < |entries|
      invariant forall k, v :: i < k < |entries| && v in versions && IsEntryOf(entries[k], v) ==> target < v < 0x8000_0000
    {
      if entries[i].isDir && IsSnapshotName(entries[i].name) {
        ghost var v :| v in versions && IsEntryOf(entries[i], v);
        EntryFacts(entries[i], v);
        var parsed := ParseVersion(entries[i].name);
        if parsed.None? {
          return BadName;
        }
        if parsed.value <= target {
          SeekStops(entries, versions, i, v, target);
          return Found(parsed.value);
        }
        forall u | u in versions && IsEntryOf(entries[i], u) ensures u == v {
          EntryOrder(entries, versions, i, i, u, v);
        }
      } else {
        forall u | u in versions ensures !IsEntryOf(entries[i], u) {
          if IsEntryOf(entries[i], u) { EntryFacts(entries[i], u); }
        }
      }
      i := i - 1;
    }
    forall v | v in versions ensures target < v < 0x8000_0000 {
      var k :| 0 <= k < |entries| && IsEntryOf(entries[k], v);
    }
    return Pruned;
  }

  lemma SeekStops(entries: seq<DirEntry>, versions: set<nat>, i: nat, v: nat, target: nat)
    requires Lists(entries, versions) && i < |entries| && IsEntryOf(entries[i], v) && v < 0x8000_0000
    requires forall k, u :: i < k < |entries| && u in versions && IsEntryOf(entries[k], u) ==> target < u < 0x8000_0000
    ensures Parsable(versions) && forall u :: u in versions && u <= target ==> u <= v
  {
    hide Less;
    hide IsEntryOf;
    forall u | u in versions ensures u < 0x8000_0000 && (u <= target ==> u <= v) {
      var k :| 0 <= k < |entries| && IsEntryOf(entries[k], u);
      EntryOrder(entries, versions, k, i, u, v);
    }
  }

  /** The versions between `v` and `current`. */
  ghost function Newer(versions: set<nat>, v: nat, current: nat): set<nat> {
    set u | u in versions && v < u < current
  }

  ghost predicate Listed(entries: seq<DirEntry>, i: int, v: nat) {
    exists k :: i < k < |entries| && 0 <= k && IsEntryOf(entries[k], v)
  }

  /** The versions below `current` that the traversal has met after position `i`. */
  ghost function Seen(entries: seq<DirEntry>, versions: set<nat>, i: int, current: nat): set<nat> {
    set v | v in versions && v < current && Listed(entries, i, v)
  }

  lemma SeenSnapshot(entries: seq<DirEntry>, versions: set<nat>, i: nat, current: nat, v: nat)
    requires Lists(entries, versions) && i < |entries| && v in versions && IsEntryOf(entries[i], v)
    ensures v !in Seen(entries, versions, i, current)
    ensures Seen(entries, versions, i - 1, current)
      == Seen(entries, versions, i, current) + if v < current then {v} else {}
    ensures v < current ==> Newer(versions, v, current) == Seen(entries, versions, i, current)
  {
    hide Less;
    hide IsEntryOf;
    forall u | u in versions
      ensures Listed(entries, i, u) <==> v < u
      ensures Listed(entries, i - 1, u) <==> v <= u
    {
      var k :| 0 <= k < |entries| && IsEntryOf(entries[k], u);
      EntryOrder(entries, versions, i, k, v, u);
      forall l | 0 <= l < |entries| && IsEntryOf(entries[l], u) ensures l == k {
        EntryOrder(entries, versions, l, k, u, u);
      }
    }
  }

  lemma SeenOther(entries: seq<DirEntry>, versions: set<nat>, i: nat, current: nat)
    requires i < |entries| && !IsSnapshot(entries[i])
    ensures Seen(entries, versions, i - 1, current) == Seen(entries, versions, i, current)
    ensures forall u :: u in versions ==> !IsEntryOf(entries[i], u)
  {
    hide IsEntryOf;
    hide IsSnapshot;
    forall u | u in versions ensures !IsEntryOf(entries[i], u) {
      if IsEntryOf(entries[i], u) { EntryFacts(entries[i], u); }
    }
  }

  /** The traversal in `pruneSnapshots`: keeps everything from `current` on and the `keepRecent` newest
      versions below it, and removes the rest. A name that cannot be read makes it fail before it removes anything. */
  method PruneSnapshots(entries: seq<DirEntry>, current: nat, keepRecent: nat, ghost versions: set<nat>)
    returns (ok: bool, removed: set<int>)
    requires Lists(entries, versions)
    ensures ok <==> Parsable(versions)
    ensures !ok ==> removed == {}
    ensures forall v :: v in removed ==> v in versions && v < current
    ensures ok ==> forall v :: v in versions && v < current ==> (v in removed <==> |Newer(versions, v, current)| >= keepRecent)
  {
    hide Less;
    hide ParseVersion;
    hide IsEntryOf;
    hide IsSnapshotName;
    hide Seen;
    hide Newer;
    removed := {};
    var counter := keepRecent;
    ghost var seen := Seen(entries, versions, |entries| - 1, current);
    SeenBounds(entries, versions, current);
    var i := |entries| - 1;
    while i >= 0
      invariant -1 <= i < |entries| && seen == Seen(entries, versions, i, current)
      invariant counter == if |seen| < keepRecent then keepRecent - |seen| else 0
      invariant forall v :: v in removed ==> v in seen
      invariant forall v :: v in seen ==> (v in removed <==> |Newer(versions, v, current)| >= keepRecent)
      invariant forall k, v :: i < k < |entries| && v in versions && IsEntryOf(entries[k], v) ==> v < 0x8000_0000
    {
      if entries[i].isDir && IsSnapshotName(entries[i].name) {
        ghost var v :| v in versions && IsEntryOf(entries[i], v);
        EntryFacts(entries[i], v);
        SeenSnapshot(entries, versions, i, current, v);
        var parsed := ParseVersion(entries[i].name);
        if parsed.None? {
          NothingSeen(entries, versions, i, current, v);
          assert forall u :: u in removed ==> u in seen;
          assert removed == {};
          return false, removed;
        }
        forall u | u in versions && IsEntryOf(entries[i], u) ensures u == v {
          EntryOrder(entries, versions, i, i, u, v);
        }
        var version := parsed.value;
        if version < current {
          if counter > 0 {
            counter := counter - 1;
          } else {
            removed := removed + {version};
          }
          seen := seen + {v};
        }
      } else {
        SeenOther(entries, versions, i, current);
      }
      i := i - 1;
    }
    forall v | v in versions ensures v < 0x8000_0000 {
      var k :| 0 <= k < |entries| && IsEntryOf(entries[k], v);
    }
    return true, removed;
  }

  /** A name that cannot be read is met before any that can. */
  lemma NothingSeen(entries: seq<DirEntry>, versions: set<nat>, i: nat, current: nat, v: nat)
    requires Lists(entries, versions) && i < |entries| && v in versions && IsEntryOf(entries[i], v) && v >= 0x8000_0000
    requires forall k, u :: i < k < |entries| && u in versions && IsEntryOf(entries[k], u) ==> u < 0x8000_0000
    ensures Seen(entries, versions, i, current) == {}
  {
    hide Less;
    hide IsEntryOf;
    forall u | u in versions ensures !Listed(entries, i, u) {
      if Listed(entries, i, u) {
        var k :| i < k < |entries| && IsEntryOf(entries[k], u);
        EntryOrder(entries, versions, i, k, v, u);
        assert false;
      }
    }
  }

  lemma SeenBounds(entries: seq<DirEntry>, versions: set<nat>, current: nat)
    requires Lists(entries, versions)
    ensures Seen(entries, versions, |entries| - 1, current) == {}
    ensures Seen(entries, versions, -1, current) == set v | v in versions && v < current
  {
    hide Less;
    hide IsEntryOf;
  }

  /** `firstSnapshotVersion`: the oldest snapshot, unless its name cannot be read. Version 0 is not told apart from
      an empty directory. */
  method FirstSnapshotVersion(entries: seq<DirEntry>, ghost versions: set<nat>) returns (r: SeekResult)
    requires Lists(entries, versions)
    ensures r.Pruned? <==> versions == {} || 0 in versions
    ensures r.BadName? <==> versions != {} && forall v :: v in versions ==> v >= 0x8000_0000
    ensures r.Found? ==> r.version > 0 && r.version in versions && forall v :: v in versions ==> r.version <= v
  {
    hide Less;
    hide ParseVersion;
    hide IsEntryOf;
    hide IsSnapshotName;
    var i := 0;
    while i < |entries|
      invariant 0 <= i <= |entries|
      invariant forall k :: 0 <= k < i ==> !IsSnapshot(entries[k])
    {
      if entries[i].isDir && IsSnapshotName(entries[i].name) {
        ghost var v :| v in versions && IsEntryOf(entries[i], v);
        EntryFacts(entries[i], v);
        forall u | u in versions ensures v <= u {
          var k :| 0 <= k < |entries| && IsEntryOf(entries[k], u);
          EntryFacts(entries[k], u);
          EntryOrder(entries, versions, i, k, v, u);
        }
        var parsed := ParseVersion(entries[i].name);
        if parsed.None? {
          return BadName;
        }
        return if parsed.value == 0 then Pruned else Found(parsed.value);
      }
      i := i + 1;
    }
    forall v | v in versions ensures false {
      var k :| 0 <= k < |entries| && IsEntryOf(entries[k], v);
      EntryFacts(entries[k], v);
    }
    return Pruned;
  }
}
