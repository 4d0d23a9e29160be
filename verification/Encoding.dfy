/** The integer encodings shared by the hash preimages, the snapshot files and the change-set
    files: Go's `binary` varints and little-endian words. */
module Encoding {
  import opened Bytes

  function Pow256(k: nat): (r: nat)
    ensures r >= 1
  {
    if k == 0 then 1 else 256 * Pow256(k - 1)
  }

  /** `n` as `k` little-endian bytes; higher bytes are dropped, as a Go conversion does. */
  function LittleEndian(n: nat, k: nat): (r: Bytes)
    ensures |r| == k
  {
    if k == 0 then [] else [n % 256] + LittleEndian(n / 256, k - 1)
  }

  function FromLittleEndian(bs: Bytes): (r: nat)
    ensures r < Pow256(|bs|)
  {
    if bs == [] then 0 else bs[0] + 256 * FromLittleEndian(bs[1..])
  }

  lemma {:induction false} LittleEndianRoundTrip(n: nat, k: nat)
    requires n < Pow256(k)
    ensures FromLittleEndian(LittleEndian(n, k)) == n
  {
    if k > 0 {
      LittleEndianRoundTrip(n / 256, k - 1);
      assert LittleEndian(n, k)[1..] == LittleEndian(n / 256, k - 1);
    }
  }

  lemma WordSizes()
    ensures Pow256(4) == 0x1_0000_0000 && Pow256(8) == 0x1_0000_0000_0000_0000
  {
    assert Pow256(2) == 0x1_0000 && Pow256(6) == 0x1_0000_0000_0000;
  }

  // ----- Varints -----

  /** `binary.PutUvarint`. */
  function Uvarint(n: nat): (r: Bytes)
    ensures |r| >= 1
  {
    if n < 128 then [n] else [n % 128 + 128] + Uvarint(n / 128)
  }

  /** `binary.PutVarint`: zig-zag, then unsigned. */
  function Varint(x: int): Bytes {
    Uvarint(if x >= 0 then 2 * x else -2 * x - 1)
  }

  datatype ReadResult<+T> = Read(value: T, rest: Bytes) | EndOfInput | Overflow

  /** `binary.ReadUvarint`: at most ten bytes, and the tenth may only carry one bit. */
  function ReadUvarint(bs: Bytes): ReadResult<nat> {
    ReadUvarintFrom(bs, 0)
  }

  function ReadUvarintFrom(bs: Bytes, i: nat): (r: ReadResult<nat>)
    requires i <= 10
    ensures r.Read? ==> |r.rest| < |bs| && r.rest == bs[|bs| - |r.rest|..]
    decreases 10 - i
  {
    if i == 10 then Overflow
    else if bs == [] then EndOfInput
    else if bs[0] < 128 then if i == 9 && bs[0] > 1 then Overflow else Read(bs[0], bs[1..])
    else match ReadUvarintFrom(bs[1..], i + 1)
      case Read(v, rest) => Read(bs[0] - 128 + 128 * v, rest)
      case EndOfInput => EndOfInput
      case Overflow => Overflow
  }

  /** `io.ReadFull`. */
  function ReadFull(bs: Bytes, n: nat): ReadResult<Bytes> {
    if n <= |bs| then Read(bs[..n], bs[n..]) else EndOfInput
  }

  function Pow128(k: nat): (r: nat)
    ensures r >= 1
  {
    if k == 0 then 1 else 128 * Pow128(k - 1)
  }

  lemma {:induction false} ReadUvarintRoundTripFrom(n: nat, i: nat, rest: Bytes)
    requires i <= 9 && n < 2 * Pow128(9 - i)
    ensures ReadUvarintFrom(Uvarint(n) + rest, i) == Read(n, rest)
    decreases n
  {
    var bs := Uvarint(n) + rest;
    if n < 128 {
      assert bs[1..] == rest;
    } else {
      assert bs[1..] == Uvarint(n / 128) + rest;
      ReadUvarintRoundTripFrom(n / 128, i + 1, rest);
    }
  }

  lemma {:induction false} ReadUvarintBound(bs: Bytes, i: nat)
    requires i <= 9 && ReadUvarintFrom(bs, i).Read?
    ensures ReadUvarintFrom(bs, i).value < 2 * Pow128(9 - i)
    decreases 9 - i
  {
    if bs[0] >= 128 {
      ReadUvarintBound(bs[1..], i + 1);
    } else {
      assert i < 9 ==> Pow128(9 - i) == 128 * Pow128(8 - i);
    }
  }

  /** What is read is a 64-bit number. */
  lemma UvarintFits(bs: Bytes)
    requires ReadUvarint(bs).Read?
    ensures ReadUvarint(bs).value < 0x1_0000_0000_0000_0000
  {
    assert Pow128(4) == 0x1000_0000 && Pow128(9) == 0x8000_0000_0000_0000;
    ReadUvarintBound(bs, 0);
  }

  lemma {:induction false} CutUvarintFrom(n: nat, i: nat, j: nat)
    requires i <= 9 && n < 2 * Pow128(9 - i) && j < |Uvarint(n)|
    ensures ReadUvarintFrom(Uvarint(n)[..j], i) == EndOfInput
    decreases n
  {
    if n >= 128 && j > 0 {
      assert Uvarint(n)[..j][1..] == Uvarint(n / 128)[..j - 1];
      CutUvarintFrom(n / 128, i + 1, j - 1);
    }
  }

  /** A number that is cut short is never read as another one. */
  lemma CutUvarint(n: nat, j: nat)
    requires n < 0x1_0000_0000_0000_0000 && j < |Uvarint(n)|
    ensures ReadUvarint(Uvarint(n)[..j]) == EndOfInput
  {
    assert Pow128(4) == 0x1000_0000 && Pow128(9) == 0x8000_0000_0000_0000;
    CutUvarintFrom(n, 0, j);
  }

  /** Reading back what was written returns the number and leaves the rest of the stream. */
  lemma UvarintRoundTrip(n: nat, rest: Bytes)
    requires n < 0x1_0000_0000_0000_0000
    ensures ReadUvarint(Uvarint(n) + rest) == Read(n, rest)
  {
    assert Pow128(4) == 0x1000_0000 && Pow128(9) == 0x8000_0000_0000_0000;
    ReadUvarintRoundTripFrom(n, 0, rest);
  }
}
