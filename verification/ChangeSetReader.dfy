/** Reading change-set files back. */
module ChangeSetReaders {
  import opened Bytes
  import opened Encoding
  import opened TreeStates
  import opened ChangeSetFiles

  datatype IoError = Eof | UnexpectedEof | VarintOverflow | BeyondSize

  datatype Outcome<+T> = Ok(value: T, rest: Bytes) | Err(error: IoError)

  /** The error when the input ends before it should. */
  function AtEnd(bs: Bytes): IoError {
    if bs == [] then Eof else UnexpectedEof
  }

  function ReadLength(bs: Bytes): (r: Outcome<nat>)
    ensures r.Ok? ==> |r.rest| < |bs|
  {
    if bs == [] then Err(Eof) else
    match ReadUvarint(bs)
    case Read(n, rest) => Ok(n, rest)
    case EndOfInput => Err(UnexpectedEof)
    case Overflow => Err(VarintOverflow)
  }

  /** `readKVPair`. */
  function ReadPair(bs: Bytes): (r: Outcome<Pair>)
    ensures r.Ok? ==> |r.rest| < |bs|
  {
    if bs == [] then Err(Eof) else
    match ReadLength(bs[1..])
    case Err(e) => Err(e)
    case Ok(keyLen, bs1) =>
      match ReadFull(bs1, keyLen)
      case EndOfInput | Overflow => Err(AtEnd(bs1))
      case Read(key, bs2) =>
        if bs[0] == 1 then Ok(Pair(true, key, []), bs2) else
        match ReadLength(bs2)
        case Err(e) => Err(e)
        case Ok(valueLen, bs3) =>
          match ReadFull(bs3, valueLen)
          case EndOfInput | Overflow => Err(AtEnd(bs3))
          case Read(value, rest) => Ok(Pair(false, key, value), rest)
  }

  /** The parsing loop: pairs until their sizes add up to `size`. */
  function ReadPairs(bs: Bytes, size: int, offset: int): (r: Outcome<(ChangeSet, int)>)
    ensures r.Ok? ==> |r.rest| <= |bs|
    decreases |bs|
  {
    if offset >= size then Ok(([], offset), bs) else
    match ReadPair(bs)
    case Err(e) => Err(e)
    case Ok(p, rest) =>
      match ReadPairs(rest, size, offset + EncodedSize(p))
      case Err(e) => Err(e)
      case Ok((ps, end), rest') => Ok(([p] + ps, end), rest')
  }

  /** The version, the number of bytes reported as read, and the pairs. */
  datatype VersionRead = VersionRead(version: int, count: int, pairs: ChangeSet)

  /** `ReadChangeSet`; a negative size is possible because the eight bytes are read as signed. */
  function ReadVersion(bs: Bytes, parse: bool): (r: Outcome<VersionRead>)
    ensures r.Ok? ==> |r.rest| + 16 <= |bs|
  {
    if |bs| < 16 then Err(AtEnd(bs)) else
    var version, size := I64(FromLittleEndian(bs[..8])), I64(FromLittleEndian(bs[8..16]));
    var payload := bs[16..];
    if size == 0 then Ok(VersionRead(version, 16, []), payload)
    else if parse then
      match ReadPairs(payload, size, 0)
      case Err(e) => Err(e)
      case Ok((pairs, offset), rest) =>
        if offset != size then Err(BeyondSize) else Ok(VersionRead(version, size + 16, pairs), rest)
    else if size > |payload| then Err(Eof)
    else Ok(VersionRead(version, size + 16, []), if size < 0 then payload else payload[size..])
  }

  /** `ReadChangeSet` as a loop. */
  method ReadChangeSet(bs: Bytes, parse: bool) returns (r: Outcome<VersionRead>)
    ensures r == ReadVersion(bs, parse)
  {
    hide ReadPair;
    hide EncodedSize;
    if |bs| < 16 {
      return Err(AtEnd(bs));
    }
    var version, size := I64(FromLittleEndian(bs[..8])), I64(FromLittleEndian(bs[8..16]));
    var rest := bs[16..];
    if size == 0 {
      return Ok(VersionRead(version, 16, []), rest);
    }
    if !parse {
      if size > |rest| {
        return Err(Eof);
      }
      return Ok(VersionRead(version, size + 16, []), if size < 0 then rest else rest[size..]);
    }
    var offset, pairs := 0, [];
    assert forall ps: ChangeSet :: [] + ps == ps;
    while offset < size
      invariant ReadPairs(bs[16..], size, 0) ==
        match ReadPairs(rest, size, offset)
        case Err(e) => Err(e)
        case Ok((ps, end), rest') => Ok((pairs + ps, end), rest')
      decreases |rest|
    {
      var pair := ReadPair(rest);
      if pair.Err? {
        return Err(pair.error);
      }
      ghost var before := rest;
      rest := pair.rest;
      offset := offset + EncodedSize(pair.value);
      assert forall ps: ChangeSet :: pairs + ([pair.value] + ps) == pairs + [pair.value] + ps;
      pairs := pairs + [pair.value];
    }
    assert pairs + [] == pairs;
    if offset != size {
      return Err(BeyondSize);
    }
    return Ok(VersionRead(version, size + 16, pairs), rest);
  }

  // ----- Reading back what was written -----

  /** What remains of a pair: a deletion has no value. */
  function Normal(p: Pair): Pair {
    if p.delete then p.(value := []) else p
  }

  function Normals(pairs: ChangeSet): ChangeSet {
    seq(|pairs|, i requires 0 <= i < |pairs| => Normal(pairs[i]))
  }

  ghost predicate Small(p: Pair) {
    |p.key| <= INT64_MAX && |p.value| <= INT64_MAX
  }

  /** A length-prefixed field. */
  lemma FieldRoundTrip(x: Bytes, rest: Bytes)
    requires |x| <= INT64_MAX
    ensures ReadLength(Uvarint(|x|) + (x + rest)) == Ok(|x|, x + rest) && ReadFull(x + rest, |x|) == Read(x, rest)
  {
    hide Uvarint;
    hide ReadUvarint;
    UvarintRoundTrip(|x|, x + rest);
    assert (x + rest)[..|x|] == x && (x + rest)[|x|..] == rest;
  }

  /** What follows the key of an encoded pair. */
  function ValueField(p: Pair, rest: Bytes): Bytes {
    if p.delete then rest else Uvarint(|p.value|) + (p.value + rest)
  }

  lemma PairFields(p: Pair, rest: Bytes)
    ensures EncodePair(p) + rest ==
      [if p.delete then 1 else 0] + (Uvarint(|p.key|) + (p.key + ValueField(p, rest)))
  {
    hide Uvarint;
  }

  lemma PairRoundTrip(p: Pair, rest: Bytes)
    requires Small(p)
    ensures ReadPair(EncodePair(p) + rest) == Ok(Normal(p), rest)
  {
    hide Uvarint;
    hide EncodePair;
    hide ReadLength;
    hide ReadFull;
    var bs, fields := EncodePair(p) + rest, Uvarint(|p.key|) + (p.key + ValueField(p, rest));
    PairFields(p, rest);
    assert bs[0] == (if p.delete then 1 else 0) && bs[1..] == fields;
    FieldRoundTrip(p.key, ValueField(p, rest));
    FieldRoundTrip(p.value, rest);
  }

  lemma NormalKeepsSize(p: Pair)
    ensures EncodedSize(Normal(p)) == EncodedSize(p)
  {}

  function PayloadFront(pairs: ChangeSet): Bytes {
    if pairs == [] then [] else EncodePair(pairs[0]) + PayloadFront(pairs[1..])
  }

  lemma {:induction false} PayloadFromFront(pairs: ChangeSet)
    ensures Payload(pairs) == PayloadFront(pairs)
  {
    hide EncodePair;
    if |pairs| == 1 {
      assert pairs[..0] == [] && pairs[1..] == [];
    } else if |pairs| > 1 {
      var n := |pairs| - 1;
      PayloadFromFront(pairs[..n]);
      PayloadFromFront(pairs[1..]);
      PayloadFromFront(pairs[1..][..n - 1]);
      assert pairs[..n][1..] == pairs[1..][..n - 1] && pairs[1..][n - 1] == pairs[n];
    }
  }

  lemma {:induction false} PairsRoundTrip(pairs: ChangeSet, rest: Bytes, offset: nat)
    requires forall i :: 0 <= i < |pairs| ==> Small(pairs[i])
    ensures var size := offset + |PayloadFront(pairs)|;
      ReadPairs(PayloadFront(pairs) + rest, size, offset) == Ok((Normals(pairs), size), rest)
    decreases |pairs|
  {
    hide EncodePair;
    hide ReadPair;
    hide EncodedSize;
    if pairs == [] {
      assert PayloadFront(pairs) + rest == rest;
    } else {
      var p, tail := pairs[0], PayloadFront(pairs[1..]);
      assert PayloadFront(pairs) + rest == EncodePair(p) + (tail + rest);
      PairRoundTrip(p, tail + rest);
      NormalKeepsSize(p);
      EncodedSizeIsExact(p);
      assert EncodedSize(p) > 0 by { SizeIsPositive(p); }
      PairsRoundTrip(pairs[1..], rest, offset + EncodedSize(p));
      assert Normals(pairs) == [Normal(p)] + Normals(pairs[1..]);
    }
  }

  lemma SizeIsPositive(p: Pair)
    ensures EncodedSize(p) > 0
  {}

  /** A version and pairs that the format can hold. */
  ghost predicate Writable(version: int, pairs: ChangeSet) {
    && -(INT64_MAX as int) - 1 <= version <= INT64_MAX && |Payload(pairs)| <= INT64_MAX
    && forall i :: 0 <= i < |pairs| ==> Small(pairs[i])
  }

  /** The two fields of a header. */
  lemma HeaderReads(version: int, size: nat, tail: Bytes)
    requires -(INT64_MAX as int) - 1 <= version <= INT64_MAX && size <= INT64_MAX
    ensures var bs := LittleEndian(U64(version), 8) + LittleEndian(U64(size), 8) + tail;
      && |bs| == 16 + |tail| && bs[16..] == tail
      && I64(FromLittleEndian(bs[..8])) == version && I64(FromLittleEndian(bs[8..16])) == size
  {
    hide LittleEndian;
    hide FromLittleEndian;
    var v, n := LittleEndian(U64(version), 8), LittleEndian(U64(size), 8);
    var bs := v + n + tail;
    assert bs == v + (n + tail);
    assert bs[..8] == v && bs[8..16] == n && bs[16..] == tail;
    WordSizes();
    LittleEndianRoundTrip(U64(version), 8);
    LittleEndianRoundTrip(U64(size), 8);
  }

  lemma HeaderRoundTrip(version: int, pairs: ChangeSet, rest: Bytes)
    requires Writable(version, pairs)
    ensures var bs := EncodeChangeSet(version, pairs) + rest; var payload := Payload(pairs);
      && |bs| == 16 + |payload| + |rest| && bs[16..] == payload + rest
      && I64(FromLittleEndian(bs[..8])) == version && I64(FromLittleEndian(bs[8..16])) == |payload|
  {
    hide LittleEndian;
    hide FromLittleEndian;
    hide Payload;
    hide Small;
    var payload := Payload(pairs);
    var v, n := LittleEndian(U64(version), 8), LittleEndian(U64(|payload|), 8);
    assert EncodeChangeSet(version, pairs) + rest == v + n + (payload + rest);
    HeaderReads(version, |payload|, payload + rest);
  }

  /** Reading a written change set returns it, in full or skipped, and stops at the same place. */
  lemma VersionRoundTrip(version: int, pairs: ChangeSet, rest: Bytes)
    requires Writable(version, pairs)
    ensures var bs := EncodeChangeSet(version, pairs);
      && ReadVersion(bs + rest, true) == Ok(VersionRead(version, |bs|, Normals(pairs)), rest)
      && ReadVersion(bs + rest, false) == Ok(VersionRead(version, |bs|, []), rest)
  {
    hide FromLittleEndian;
    hide EncodeChangeSet;
    hide ReadPairs;
    hide Payload;
    hide I64;
    var payload := Payload(pairs);
    HeaderRoundTrip(version, pairs, rest);
    PayloadFromFront(pairs);
    PairsRoundTrip(pairs, rest, 0);
    assert (payload + rest)[|payload|..] == rest;
    NoPayload(pairs);
  }

  lemma NoPayload(pairs: ChangeSet)
    ensures |Payload(pairs)| == 0 ==> Normals(pairs) == []
  {
    if pairs != [] {
      EncodedSizeIsExact(pairs[|pairs| - 1]);
    }
  }

  // ----- Whole files -----

  /** What iterating over a file delivers: the change sets, the offset after the last complete one, and
      an error other than the end of the file. */
  datatype Iteration = Iteration(sets: seq<(int, ChangeSet)>, offset: int, error: Option<IoError>)

  function IterateAll(bs: Bytes, parse: bool): Iteration
    decreases |bs|
  {
    match ReadVersion(bs, parse)
    case Err(e) => Iteration([], 0, if e.Eof? then None else Some(e))
    case Ok(v, rest) =>
      var more := IterateAll(rest, parse);
      Iteration([(v.version, v.pairs)] + more.sets, v.count + more.offset, more.error)
  }

  /** `IterateChangeSets` and `IterateVersions`, with a callback that records everything and never
      stops; they differ only in `parse`. */
  method Iterate(bs: Bytes, parse: bool) returns (r: Iteration)
    ensures r == IterateAll(bs, parse)
  {
    hide ReadVersion;
    var sets, lastCompleteOffset, rest := [], 0, bs;
    assert forall more: seq<(int, ChangeSet)> :: [] + more == more;
    while true
      invariant var more := IterateAll(rest, parse);
        IterateAll(bs, parse) == Iteration(sets + more.sets, lastCompleteOffset + more.offset, more.error)
      decreases |rest|
    {
      var v := ReadChangeSet(rest, parse);
      if v.Err? {
        assert sets + [] == sets;
        return Iteration(sets, lastCompleteOffset, if v.error.Eof? then None else Some(v.error));
      }
      ghost var more := IterateAll(v.rest, parse).sets;
      assert sets + ([(v.value.version, v.value.pairs)] + more) == sets + [(v.value.version, v.value.pairs)] + more;
      sets := sets + [(v.value.version, v.value.pairs)];
      lastCompleteOffset := lastCompleteOffset + v.value.count;
      rest := v.rest;
    }
  }

  function EncodeFile(sets: seq<(int, ChangeSet)>): Bytes {
    if sets == [] then [] else EncodeChangeSet(sets[0].0, sets[0].1) + EncodeFile(sets[1..])
  }

  ghost predicate WritableFile(sets: seq<(int, ChangeSet)>) {
    forall i :: 0 <= i < |sets| ==> Writable(sets[i].0, sets[i].1)
  }

  /** The same sets as they are read back: normalised pairs, or none when skipping. */
  function AsRead(sets: seq<(int, ChangeSet)>, parse: bool): seq<(int, ChangeSet)> {
    seq(|sets|, i requires 0 <= i < |sets| => (sets[i].0, if parse then Normals(sets[i].1) else []))
  }

  ghost function Reported(e: IoError): Option<IoError> {
    if e == Eof then None else Some(e)
  }

  /** Written change sets are visited one by one, whatever follows them, up to something that cannot be read. */
  lemma {:induction false} FilePrefix(sets: seq<(int, ChangeSet)>, tail: Bytes, parse: bool)
    requires WritableFile(sets) && ReadVersion(tail, parse).Err?
    ensures IterateAll(EncodeFile(sets) + tail, parse)
      == Iteration(AsRead(sets, parse), |EncodeFile(sets)|, Reported(ReadVersion(tail, parse).error))
    decreases |sets|
  {
    hide ReadVersion;
    hide EncodeChangeSet;
    hide Writable;
    hide Normals;
    if sets == [] {
      assert EncodeFile(sets) + tail == tail;
    } else {
      assert Writable(sets[0].0, sets[0].1);
      var first, rest := EncodeChangeSet(sets[0].0, sets[0].1), EncodeFile(sets[1..]) + tail;
      VersionRoundTrip(sets[0].0, sets[0].1, rest);
      FilePrefix(sets[1..], tail, parse);
      assert EncodeFile(sets) + tail == first + rest;
      assert AsRead(sets, parse) == [AsRead(sets, parse)[0]] + AsRead(sets[1..], parse);
    }
  }

  /** Iterating over any concatenation of written change sets visits exactly those, in full or skipping
      the payloads, and both ways end at the same offset, the end of the file, without an error. */
  lemma FileRoundTrip(sets: seq<(int, ChangeSet)>, parse: bool)
    requires WritableFile(sets)
    ensures var bs := EncodeFile(sets); IterateAll(bs, parse) == Iteration(AsRead(sets, parse), |bs|, None)
  {
    hide *;
    EndOfFile(parse);
    NoErrorAtEnd();
    FilePrefix(sets, [], parse);
    assert EncodeFile(sets) + [] == EncodeFile(sets);
  }

  lemma NoErrorAtEnd()
    ensures Reported(Eof) == None
  {}

  lemma EndOfFile(parse: bool)
    ensures ReadVersion([], parse) == Err(Eof)
  {}

  // ----- Arbitrary input -----

  /** The length at the front of `bs` is encoded as `binary.PutUvarint` encodes it. */
  predicate Minimal(bs: Bytes) {
    var r := ReadUvarint(bs);
    r.Read? && Uvarint(r.value) <= bs && |bs| - |r.rest| == |Uvarint(r.value)|
  }

  lemma SingleByte(b: Byte)
    requires b < 128
    ensures Uvarint(b) == [b]
  {}

  lemma LeadingByte(b: Byte, n: nat)
    requires b >= 128
    ensures Uvarint(b - 128 + 128 * n) == if n == 0 then [b - 128] else [b] + Uvarint(n)
  {}

  lemma LongerPrefix(bs: Bytes, u: Bytes)
    requires bs != []
    ensures u <= bs[1..] ==> [bs[0]] + u <= bs
  {
    assert bs == [bs[0]] + bs[1..];
    assert u <= bs[1..] ==> bs[..|u| + 1] == [bs[0]] + bs[1..][..|u|];
  }

  /** Reading a length consumes at least its minimal encoding, and more if it is not minimal. */
  lemma {:induction false} UvarintConsumes(bs: Bytes, i: nat)
    requires i <= 10 && ReadUvarintFrom(bs, i).Read?
    ensures var r := ReadUvarintFrom(bs, i);
      && |Uvarint(r.value)| <= |bs| - |r.rest|
      && (|Uvarint(r.value)| == |bs| - |r.rest| ==> Uvarint(r.value) <= bs)
    decreases 10 - i
  {
    hide Uvarint;
    if bs[0] >= 128 {
      UvarintConsumes(bs[1..], i + 1);
      var n := ReadUvarintFrom(bs[1..], i + 1).value;
      LeadingByte(bs[0], n);
      LongerPrefix(bs, Uvarint(n));
    } else {
      SingleByte(bs[0]);
    }
  }

  /** Both lengths of the pair at the front of `bs` are minimal. */
  predicate MinimalPair(bs: Bytes)
    requires ReadPair(bs).Ok?
  {
    Minimal(bs[1..]) && (bs[0] == 1 || Minimal(ReadLength(bs[1..]).rest[|ReadPair(bs).value.key|..]))
  }

  /** All lengths of the first `n` pairs of `bs` are minimal. */
  predicate MinimalPairs(bs: Bytes, n: nat) {
    n == 0 || (ReadPair(bs).Ok? && MinimalPair(bs) && MinimalPairs(ReadPair(bs).rest, n - 1))
  }

  /** The computed size of a pair never exceeds what was read for it, and equals it exactly when its
      lengths were encoded minimally. */
  lemma PairConsumes(bs: Bytes)
    requires ReadPair(bs).Ok?
    ensures var r := ReadPair(bs);
      && EncodedSize(r.value) <= |bs| - |r.rest|
      && (EncodedSize(r.value) == |bs| - |r.rest| <==> MinimalPair(bs))
  {
    hide Minimal;
    hide ReadLength;
    hide UvarintSize;
    var p, bs1 := ReadPair(bs).value, ReadLength(bs[1..]).rest;
    LengthConsumes(bs[1..]);
    if bs[0] != 1 { LengthConsumes(bs1[|p.key|..]); }
  }

  lemma LengthConsumes(bs: Bytes)
    requires ReadLength(bs).Ok?
    ensures var r := ReadLength(bs);
      && UvarintSize(r.value) <= |bs| - |r.rest|
      && (UvarintSize(r.value) == |bs| - |r.rest| <==> Minimal(bs))
  {
    hide Uvarint;
    hide UvarintSize;
    hide ReadUvarintFrom;
    UvarintConsumes(bs, 0);
    UvarintSizeIsExact(ReadLength(bs).value);
  }

  /** The same for the whole payload. */
  lemma {:induction false} PairsConsume(bs: Bytes, size: int, offset: int)
    requires ReadPairs(bs, size, offset).Ok?
    ensures var r := ReadPairs(bs, size, offset);
      && r.value.1 - offset <= |bs| - |r.rest|
      && (r.value.1 - offset == |bs| - |r.rest| <==> MinimalPairs(bs, |r.value.0|))
    decreases |bs|
  {
    hide ReadPair;
    hide EncodedSize;
    hide MinimalPair;
    if offset < size {
      PairConsumes(bs);
      var r := ReadPair(bs);
      PairsConsume(r.rest, size, offset + EncodedSize(r.value));
    }
  }

  /** On any input that parses, skipping reports the same version and the same count, and it stops at the
      same place exactly when every length in the payload is encoded minimally. */
  lemma SkippingAgrees(bs: Bytes)
    requires ReadVersion(bs, true).Ok?
    ensures var a, b := ReadVersion(bs, true), ReadVersion(bs, false);
      && b.Ok? && b.value.version == a.value.version && b.value.count == a.value.count
      && (b.rest == a.rest <==> MinimalPairs(bs[16..], |a.value.pairs|))
      && (|b.rest| == |a.rest| <==> b.rest == a.rest)
  {
    hide ReadPairs;
    hide ReadPair;
    hide MinimalPair;
    hide FromLittleEndian;
    var size := I64(FromLittleEndian(bs[8..16]));
    if size != 0 {
      PairsConsume(bs[16..], size, 0);
      PairsSuffix(bs[16..], size, 0);
    }
  }

  // ----- Files that end inside a version -----

  /** Position `j` of an encoded pair is where a field starts. */
  ghost predicate FieldStart(p: Pair, j: nat) {
    var a := 1 + |Uvarint(|p.key|)|;
    var b := a + |p.key|;
    j == 0 || j == 1 || j == a || (!p.delete && (j == b || j == b + |Uvarint(|p.value|)|))
  }

  ghost function Ended(clean: bool): IoError {
    if clean then Eof else UnexpectedEof
  }

  lemma CutLength(n: nat, j: nat)
    requires n <= INT64_MAX && j < |Uvarint(n)|
    ensures ReadLength(Uvarint(n)[..j]) == Err(Ended(j == 0))
  {
    hide Uvarint;
    hide ReadUvarint;
    CutUvarint(n, j);
  }

  lemma CutBytes(x: Bytes, j: nat)
    requires |x| <= INT64_MAX && j < |x|
    ensures ReadLength(Uvarint(|x|) + x[..j]) == Ok(|x|, x[..j])
    ensures ReadFull(x[..j], |x|) == EndOfInput && AtEnd(x[..j]) == Ended(j == 0)
  {
    hide Uvarint;
    hide ReadUvarint;
    UvarintRoundTrip(|x|, x[..j]);
  }

  /** A pair that is cut short looks like the end of the file exactly if it is cut between two fields. */
  lemma CutPair(p: Pair, j: nat)
    requires Small(p) && j < |EncodePair(p)|
    ensures ReadPair(EncodePair(p)[..j]) == Err(Ended(FieldStart(p, j)))
  {
    hide Uvarint;
    hide EncodePair;
    hide ReadLength;
    hide ReadFull;
    var a := 1 + |Uvarint(|p.key|)|;
    if 0 < j < a + |p.key| {
      CutKey(p, j);
    } else if j > 0 {
      CutValue(p, j);
    }
  }

  lemma CutKey(p: Pair, j: nat)
    requires Small(p) && 0 < j < 1 + |Uvarint(|p.key|)| + |p.key| && j < |EncodePair(p)|
    ensures ReadPair(EncodePair(p)[..j]) == Err(Ended(FieldStart(p, j)))
  {
    hide Uvarint;
    hide EncodePair;
    hide ReadLength;
    hide ReadFull;
    hide AtEnd;
    var u, bs := Uvarint(|p.key|), EncodePair(p)[..j];
    KeyPrefix(p, j);
    if j < 1 + |u| {
      CutLength(|p.key|, j - 1);
    } else {
      CutBytes(p.key, j - 1 - |u|);
    }
  }

  lemma KeyPrefix(p: Pair, j: nat)
    requires 0 < j < 1 + |Uvarint(|p.key|)| + |p.key| && j <= |EncodePair(p)|
    ensures var u := Uvarint(|p.key|);
      EncodePair(p)[..j][1..] == if j < 1 + |u| then u[..j - 1] else u + p.key[..j - 1 - |u|]
  {
    hide Uvarint;
  }

  lemma CutValue(p: Pair, j: nat)
    requires Small(p) && 1 + |Uvarint(|p.key|)| + |p.key| <= j < |EncodePair(p)|
    ensures ReadPair(EncodePair(p)[..j]) == Err(Ended(FieldStart(p, j)))
  {
    hide Uvarint;
    hide ReadLength;
    hide ReadFull;
    hide AtEnd;
    var u, v, bs := Uvarint(|p.key|), Uvarint(|p.value|), EncodePair(p)[..j];
    var b := 1 + |u| + |p.key|;
    var rest := bs[b..];
    assert bs[1..] == u + (p.key + rest) && bs[0] == 0;
    FieldRoundTrip(p.key, rest);
    if j < b + |v| {
      assert rest == v[..j - b];
      CutLength(|p.value|, j - b);
    } else {
      assert rest == v + p.value[..j - b - |v|];
      CutBytes(p.value, j - b - |v|);
    }
  }

  /** The same for a payload: position `j` is where a field of one of the pairs starts. */
  ghost predicate PayloadFieldStart(pairs: ChangeSet, j: nat) {
    pairs != [] &&
    var n := |EncodePair(pairs[0])|;
    if j < n then FieldStart(pairs[0], j) else PayloadFieldStart(pairs[1..], j - n)
  }

  lemma {:induction false} CutPairs(pairs: ChangeSet, j: nat, offset: nat)
    requires (forall i :: 0 <= i < |pairs| ==> Small(pairs[i])) && j < |PayloadFront(pairs)|
    ensures ReadPairs(PayloadFront(pairs)[..j], offset + |PayloadFront(pairs)|, offset)
      == Err(Ended(PayloadFieldStart(pairs, j)))
    decreases |pairs|
  {
    hide EncodePair;
    hide ReadPair;
    hide EncodedSize;
    hide FieldStart;
    var p, tail := pairs[0], PayloadFront(pairs[1..]);
    var n := |EncodePair(p)|;
    assert PayloadFront(pairs) == EncodePair(p) + tail;
    if j < n {
      assert PayloadFront(pairs)[..j] == EncodePair(p)[..j];
      CutPair(p, j);
    } else {
      assert PayloadFront(pairs)[..j] == EncodePair(p) + tail[..j - n];
      PairRoundTrip(p, tail[..j - n]);
      NormalKeepsSize(p);
      EncodedSizeIsExact(p);
      CutPairs(pairs[1..], j - n, offset + n);
    }
  }

  /** The end of the file is reported as an error unless it looks like the end of the version before: nothing of this
      one is there, or its header is complete and, in a full read, the cut is between two fields. */
  ghost predicate LooksComplete(pairs: ChangeSet, k: nat, parse: bool) {
    k == 0 || (k >= 16 && (parse ==> PayloadFieldStart(pairs, k - 16)))
  }

  lemma CutVersionFails(version: int, pairs: ChangeSet, k: nat, parse: bool)
    requires Writable(version, pairs) && k < |EncodeChangeSet(version, pairs)|
    ensures ReadVersion(EncodeChangeSet(version, pairs)[..k], parse) == Err(Ended(LooksComplete(pairs, k, parse)))
  {
    hide FromLittleEndian;
    hide EncodeChangeSet;
    hide ReadPairs;
    hide Payload;
    hide PayloadFieldStart;
    var bs := EncodeChangeSet(version, pairs);
    if k >= 16 {
      HeaderRoundTrip(version, pairs, []);
      assert bs + [] == bs;
      assert bs[..k][..8] == bs[..8] && bs[..k][8..16] == bs[8..16] && bs[..k][16..] == Payload(pairs)[..k - 16];
      PayloadFromFront(pairs);
      CutPairs(pairs, k - 16, 0);
    }
  }

  /** A file that ends inside a version, wherever it was cut: exactly the versions before it are visited, and the offset
      is where they end, so that the rest can be cut off and written again. */
  lemma TornFile(sets: seq<(int, ChangeSet)>, version: int, pairs: ChangeSet, k: nat, parse: bool)
    requires WritableFile(sets) && Writable(version, pairs) && k < |EncodeChangeSet(version, pairs)|
    ensures IterateAll(EncodeFile(sets) + EncodeChangeSet(version, pairs)[..k], parse)
      == Iteration(AsRead(sets, parse), |EncodeFile(sets)|, if LooksComplete(pairs, k, parse) then None else Some(UnexpectedEof))
  {
    hide ReadVersion;
    hide IterateAll;
    hide EncodeChangeSet;
    hide EncodeFile;
    hide AsRead;
    hide LooksComplete;
    CutVersionFails(version, pairs, k, parse);
    FilePrefix(sets, EncodeChangeSet(version, pairs)[..k], parse);
  }

  lemma {:induction false} PairsSuffix(bs: Bytes, size: int, offset: int)
    requires ReadPairs(bs, size, offset).Ok?
    ensures var r := ReadPairs(bs, size, offset); r.rest == bs[|bs| - |r.rest|..] && r.value.1 >= offset
    decreases |bs|
  {
    hide ReadPair;
    hide EncodedSize;
    if offset < size {
      PairSuffix(bs);
      var r := ReadPair(bs);
      PairsSuffix(r.rest, size, offset + EncodedSize(r.value));
      var left := |ReadPairs(bs, size, offset).rest|;
      assert bs[|bs| - |r.rest|..][|r.rest| - left..] == bs[|bs| - left..];
    } else {
      assert bs[0..] == bs;
    }
  }

  lemma PairSuffix(bs: Bytes)
    requires ReadPair(bs).Ok?
    ensures var r := ReadPair(bs); r.rest == bs[|bs| - |r.rest|..]
  {
    hide ReadUvarintFrom;
  }

  /** What is left of the file at the start of each version, and at the end. */
  function Starts(bs: Bytes, parse: bool): (r: seq<nat>)
    ensures |r| >= 1 && r[0] == |bs|
    decreases |bs|
  {
    match ReadVersion(bs, parse)
    case Err(_) => [|bs|]
    case Ok(_, rest) => [|bs|] + Starts(rest, parse)
  }

  /** Every length in every version that the full read parses is minimal. */
  predicate MinimalFile(bs: Bytes)
    decreases |bs|
  {
    match ReadVersion(bs, true)
    case Err(_) => true
    case Ok(v, rest) => MinimalPairs(bs[16..], |v.pairs|) && MinimalFile(rest)
  }

  /** On any file, skipping starts every version that the full read parses at the same place, exactly when every
      length in those versions is encoded minimally. */
  lemma {:induction false} StartsAgree(bs: Bytes)
    ensures Starts(bs, true) <= Starts(bs, false) <==> MinimalFile(bs)
    decreases |bs|
  {
    hide ReadVersion;
    hide MinimalPairs;
    var a := ReadVersion(bs, true);
    if a.Ok? {
      SkippingAgrees(bs);
      var b := ReadVersion(bs, false);
      var x, y := Starts(a.rest, true), Starts(b.rest, false);
      assert Starts(bs, true)[1..] == x && Starts(bs, false)[1..] == y;
      StartsAgree(a.rest);
      if |a.rest| == |b.rest| {
        assert x <= y <==> [|bs|] + x <= [|bs|] + y by { SameFront(|bs|, x, y); }
      } else {
        assert Starts(bs, true)[1] == |a.rest| && Starts(bs, false)[1] == |b.rest|;
      }
    }
  }

  lemma SameFront<T>(n: T, x: seq<T>, y: seq<T>)
    ensures x <= y <==> [n] + x <= [n] + y
  {
    var a, b := [n] + x, [n] + y;
    assert a[1..] == x && b[1..] == y;
    assert x <= y ==> a == b[..|a|];
    assert a <= b ==> x == y[..|x|];
  }

  /** Then both functions report the same versions, up to where the full read stops. If that is the end of the file,
      both report the same offset and no error. */
  lemma {:induction false} IterationsAgree(bs: Bytes)
    requires MinimalFile(bs)
    ensures var full, skip := IterateAll(bs, true), IterateAll(bs, false);
      && |full.sets| <= |skip.sets| && (forall i :: 0 <= i < |full.sets| ==> full.sets[i].0 == skip.sets[i].0)
      && full.offset <= |bs|
      && (full.offset == |bs| ==> full.error == skip.error == None && skip.offset == |bs| && |skip.sets| == |full.sets|)
    decreases |bs|
  {
    hide ReadVersion;
    hide MinimalPairs;
    var a := ReadVersion(bs, true);
    if a.Ok? {
      SkippingAgrees(bs);
      CountIsSize(bs);
      IterationsAgree(a.rest);
      var x, y := IterateAll(a.rest, true).sets, IterateAll(a.rest, false).sets;
      var full, skip := IterateAll(bs, true), IterateAll(bs, false);
      forall i | 0 <= i < |full.sets| ensures full.sets[i].0 == skip.sets[i].0 {
        assert i > 0 ==> full.sets[i] == x[i - 1] && skip.sets[i] == y[i - 1];
      }
    } else if bs == [] {
      EndOfFile(true);
      EndOfFile(false);
    }
  }

  /** A minimal version reports as many bytes as were read. */
  lemma CountIsSize(bs: Bytes)
    requires ReadVersion(bs, true).Ok?
    ensures var a := ReadVersion(bs, true);
      a.value.count <= |bs| - |a.rest| && (MinimalPairs(bs[16..], |a.value.pairs|) ==> a.value.count == |bs| - |a.rest|)
  {
    hide ReadPairs;
    hide MinimalPairs;
    hide FromLittleEndian;
    var size := I64(FromLittleEndian(bs[8..16]));
    if size != 0 { PairsConsume(bs[16..], size, 0); }
  }

  /** A version with one deletion of the empty key, whose length 0 takes two bytes instead of one. */
  function Padded(version: int): Bytes {
    LittleEndian(U64(version), 8) + LittleEndian(U64(2), 8) + [1, 0x80, 0]
  }

  /** The full read takes it as complete. Skipping stops one byte short and then fails. */
  lemma PaddedDisagrees(version: int)
    requires -(INT64_MAX as int) - 1 <= version <= INT64_MAX
    ensures IterateAll(Padded(version), true) == Iteration([(version, [Pair(true, [], [])])], 18, None)
    ensures IterateAll(Padded(version), false) == Iteration([(version, [])], 18, Some(UnexpectedEof))
  {
    hide LittleEndian;
    hide FromLittleEndian;
    hide ReadPair;
    hide EncodedSize;
    hide I64;
    hide U64;
    var payload: Bytes := [1, 0x80, 0];
    var p := Pair(true, [], []);
    HeaderReads(version, 2, payload);
    PaddedPair();
    assert ReadPairs([], 2, 2) == Ok(([], 2), []) && [p] + [] == [p];
    assert ReadPairs(payload, 2, 0) == Ok(([p], 2), []);
    assert payload[2..] == [0];
    assert ReadVersion(Padded(version), true) == Ok(VersionRead(version, 18, [p]), []);
    assert ReadVersion(Padded(version), false) == Ok(VersionRead(version, 18, []), [0]);
    assert ReadVersion([0], false) == Err(UnexpectedEof);
    assert forall x: (int, ChangeSet) :: [x] + [] == [x];
    EndOfFile(true);
  }

  lemma PaddedPair()
    ensures ReadPair([1, 0x80, 0]) == Ok(Pair(true, [], []), []) && EncodedSize(Pair(true, [], [])) == 2
  {
    var bs: Bytes := [1, 0x80, 0];
    var len: Bytes := [0x80, 0];
    assert bs[1..] == len && len[1..] == [0];
    assert ReadUvarintFrom([0], 1) == Read(0, []);
    assert ReadUvarintFrom(len, 0) == Read(0, []);
    assert ReadLength(len) == Ok(0, []);
  }
}
