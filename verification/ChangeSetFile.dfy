/** Change-set files: versions with length-prefixed key-value pairs, read in full or skipped over. */
module ChangeSetFiles {
  import opened Bytes
  import opened Encoding
  import opened TreeStates

  const INT64_MAX: nat := 0x7fff_ffff_ffff_ffff

  // ----- Sizes -----

  /** `bits.Len64`. */
  function BitLen(n: nat): nat {
    if n == 0 then 0 else 1 + BitLen(n / 2)
  }

  /** `uvarintSize`. */
  function UvarintSize(n: nat): nat {
    var b := BitLen(n);
    var q, r := b / 7, b % 7;
    if r > 0 || q == 0 then q + 1 else q
  }

  lemma BitLenShift(n: nat)
    requires n >= 128
    ensures BitLen(n) == 7 + BitLen(n / 128)
  {
    BitLenEighth(n);
    BitLenEighth(n / 8);
    assert n / 8 / 8 == n / 64 && n / 64 / 2 == n / 128;
    assert BitLen(n / 64) == 1 + BitLen(n / 64 / 2);
  }

  lemma BitLenEighth(n: nat)
    ensures n >= 4 ==> BitLen(n) == 3 + BitLen(n / 8)
    ensures BitLen(n) <= 3 + BitLen(n / 8)
  {
    var a := n / 2;
    var b := a / 2;
    assert b / 2 == n / 8;
    assert n >= 1 ==> BitLen(n) == 1 + BitLen(a);
    assert a >= 1 ==> BitLen(a) == 1 + BitLen(b);
    assert b >= 1 ==> BitLen(b) == 1 + BitLen(n / 8);
  }

  /** `uvarintSize` is the length that `binary.PutUvarint` produces. */
  lemma {:induction false} UvarintSizeIsExact(n: nat)
    ensures UvarintSize(n) == |Uvarint(n)|
  {
    if n < 128 {
      assert BitLen(n) <= 7 by { SmallBitLen(n); }
    } else {
      UvarintSizeIsExact(n / 128);
      BitLenShift(n);
    }
  }

  lemma SmallBitLen(n: nat)
    requires n < 128
    ensures BitLen(n) <= 7
  {
    BitLenEighth(n);
    BitLenEighth(n / 8);
    assert n / 8 / 8 <= 1;
  }

  /** `encodedSizeOfKVPair`. */
  function EncodedSize(p: Pair): nat {
    var size := 1 + UvarintSize(|p.key|) + |p.key|;
    if p.delete then size else size + UvarintSize(|p.value|) + |p.value|
  }

  // ----- Writing -----

  function EncodePair(p: Pair): Bytes {
    if p.delete then [1] + Uvarint(|p.key|) + p.key
    else [0] + Uvarint(|p.key|) + p.key + Uvarint(|p.value|) + p.value
  }

  lemma EncodedSizeIsExact(p: Pair)
    ensures |EncodePair(p)| == EncodedSize(p)
  {
    hide Uvarint;
    hide UvarintSize;
    UvarintSizeIsExact(|p.key|);
    UvarintSizeIsExact(|p.value|);
  }

  lemma SetAt(front: Bytes, tail: Bytes, x: Byte)
    requires tail != []
    ensures (front + tail)[|front| := x] == front + [x] + tail[1..]
  {}

  /** `binary.PutUvarint` into a buffer of which `front` is filled. */
  method PutUvarint(buf: array<Byte>, n: nat, ghost front: Bytes, offset: nat) returns (len: nat)
    requires |front| == offset && front <= buf[..] && offset + |Uvarint(n)| <= buf.Length
    modifies buf
    ensures len == |Uvarint(n)| && buf[..] == front + Uvarint(n) + old(buf[..])[offset + len..]
  {
    ghost var all := buf[..];
    assert all == front + [] + all[offset..];
    var x := n;
    len := 0;
    ghost var done: Bytes := [];
    while x >= 0x80
      invariant |done| == len && done + Uvarint(x) == Uvarint(n) && offset + len < buf.Length
      invariant buf[..] == front + done + all[offset + len..]
      decreases x
    {
      buf[offset + len] := x % 128 + 128;
      PutStep(front, done, all, x % 128 + 128, Uvarint(x / 128));
      done := done + [x % 128 + 128];
      x := x / 128;
      len := len + 1;
    }
    buf[offset + len] := x;
    PutStep(front, done, all, x, []);
    len := len + 1;
    assert done + [x] == Uvarint(n);
  }

  /** One more byte written at the end of `done`. */
  lemma PutStep(front: Bytes, done: Bytes, all: Bytes, x: Byte, more: Bytes)
    requires |front| + |done| < |all|
    ensures var k := |front| + |done|;
      (front + done + all[k..])[k := x] == front + (done + [x]) + all[k + 1..]
    ensures done + ([x] + more) == done + [x] + more
  {
    var k := |front| + |done|;
    SetAt(front + done, all[k..], x);
    assert all[k..][1..] == all[k + 1..];
    assert front + done + [x] == front + (done + [x]);
  }

  /** `copy(buf[offset:], bs)`. */
  method CopyInto(buf: array<Byte>, bs: Bytes, ghost front: Bytes, offset: nat)
    requires |front| == offset && front <= buf[..] && offset + |bs| <= buf.Length
    modifies buf
    ensures buf[..] == front + bs + old(buf[..])[offset + |bs|..]
  {
    ghost var all := buf[..];
    assert all == front + bs[..0] + all[offset..];
    for i := 0 to |bs|
      invariant buf[..] == front + bs[..i] + all[offset + i..]
    {
      buf[offset + i] := bs[i];
      PutStep(front, bs[..i], all, bs[i], []);
      assert bs[..i + 1] == bs[..i] + [bs[i]];
    }
    assert bs[..|bs|] == bs;
  }

  /** `encodeKVPair`: fills a buffer of the computed size. */
  method EncodeKVPair(p: Pair) returns (buf: array<Byte>)
    ensures fresh(buf) && buf[..] == EncodePair(p)
  {
    hide Uvarint;
    hide UvarintSize;
    EncodedSizeIsExact(p);
    buf := new Byte[EncodedSize(p)](_ => 0);
    assert [0] <= buf[..];
    var n := PutUvarint(buf, |p.key|, [0], 1);
    var offset := 1 + n;
    CopyInto(buf, p.key, [0] + Uvarint(|p.key|), offset);
    offset := offset + |p.key|;
    ghost var front := [0] + Uvarint(|p.key|) + p.key;
    assert front <= buf[..] && |front| == offset;
    if p.delete {
      buf[0] := 1;
      assert buf[..] == [1] + front[1..];
      return;
    }
    n := PutUvarint(buf, |p.value|, front, offset);
    offset := offset + n;
    CopyInto(buf, p.value, front + Uvarint(|p.value|), offset);
  }

  function Payload(pairs: ChangeSet): Bytes {
    if pairs == [] then [] else Payload(pairs[..|pairs| - 1]) + EncodePair(pairs[|pairs| - 1])
  }

  /** Two's complement in eight bytes. */
  function U64(n: int): nat { n % 0x1_0000_0000_0000_0000 }

  function I64(n: nat): int { if n <= INT64_MAX then n else n - 0x1_0000_0000_0000_0000 }

  function EncodeChangeSet(version: int, pairs: ChangeSet): Bytes {
    LittleEndian(U64(version), 8) + LittleEndian(U64(|Payload(pairs)|), 8) + Payload(pairs)
  }

  /** `WriteChangeSet`: encodes the pairs, then writes the header with their total size, then the pairs. */
  method WriteChangeSet(version: int, pairs: ChangeSet) returns (out: Bytes)
    ensures out == EncodeChangeSet(version, pairs)
  {
    hide EncodePair;
    hide LittleEndian;
    var size, items := 0, [];
    ghost var payload: Bytes := [];
    for i := 0 to |pairs|
      invariant size == |payload| && payload == Payload(pairs[..i]) && payload == Joined(items)
    {
      assert pairs[..i + 1][..i] == pairs[..i];
      var buf := EncodeKVPair(pairs[i]);
      size := size + buf.Length;
      assert (items + [buf[..]])[..|items|] == items;
      items := items + [buf[..]];
      payload := payload + buf[..];
    }
    assert pairs[..|pairs|] == pairs;
    out := LittleEndian(U64(version), 8);
    out := out + LittleEndian(U64(size), 8);
    ghost var header := out;
    for i := 0 to |items|
      invariant out == header + Joined(items[..i])
    {
      assert items[..i + 1][..i] == items[..i];
      out := out + items[i];
    }
    assert items[..|items|] == items;
  }

  function Joined(items: seq<Bytes>): Bytes {
    if items == [] then [] else Joined(items[..|items| - 1]) + items[|items| - 1]
  }
}
