/** Delta encoding of the items of a chunk: each item is stored as the length of the prefix it shares
    with the item before it, and the bytes after that prefix. */
module DeltaEncoding {
  import opened Bytes
  import opened AvlHeight
  import opened Encoding

  /** The length of the longest common prefix. */
  ghost predicate IsDiffOffset(a: Bytes, b: Bytes, off: nat) {
    && off <= |a| && off <= |b| && a[..off] == b[..off]
    && (off < |a| && off < |b| ==> a[off] != b[off])
  }

  /** `diffOffset`. */
  method DiffOffset(a: Bytes, b: Bytes) returns (off: nat)
    ensures IsDiffOffset(a, b, off)
  {
    var l := if |a| < |b| then |a| else |b|;
    off := 0;
    while off < l
      invariant off <= l && a[..off] == b[..off]
    {
      if a[off] != b[off] {
        break;
      }
      off := off + 1;
    }
  }

  function Shared(a: Bytes, b: Bytes): nat {
    if a != [] && b != [] && a[0] == b[0] then 1 + Shared(a[1..], b[1..]) else 0
  }

  lemma {:induction false} SharedIsDiffOffset(a: Bytes, b: Bytes)
    ensures IsDiffOffset(a, b, Shared(a, b))
  {
    if a != [] && b != [] && a[0] == b[0] {
      SharedIsDiffOffset(a[1..], b[1..]);
      var n := Shared(a[1..], b[1..]);
      assert a[..n + 1] == [a[0]] + a[1..][..n] && b[..n + 1] == [b[0]] + b[1..][..n];
    }
  }

  lemma DiffOffsetIsUnique(a: Bytes, b: Bytes, m: nat, n: nat)
    requires IsDiffOffset(a, b, m) && IsDiffOffset(a, b, n)
    ensures m == n
  {
    forall k | 0 <= k < m ensures a[k] == b[k] { assert a[..m][k] == b[..m][k]; }
    forall k | 0 <= k < n ensures a[k] == b[k] { assert a[..n][k] == b[..n][k]; }
  }

  /** What is written for `item` after `last`. */
  function EncodeNext(last: Bytes, item: Bytes): Bytes {
    SharedIsDiffOffset(last, item);
    var shared := Shared(last, item);
    Uvarint(shared) + Uvarint(|item| - shared) + item[shared..]
  }

  class DeltaEncoder {
    var last: Bytes

    constructor ()
      ensures last == []
    {
      last := [];
    }

    /** `Write`: returns the bytes to append. */
    method Write(key: Bytes) returns (out: Bytes)
      modifies this
      ensures out == EncodeNext(old(last), key) && last == key
    {
      hide Uvarint;
      var shared := DiffOffset(last, key);
      SharedIsDiffOffset(last, key);
      DiffOffsetIsUnique(last, key, shared, Shared(last, key));
      var nonShared := |key| - shared;
      out := Uvarint(shared);
      out := out + Uvarint(nonShared);
      out := out + key[shared..];
      last := key;
    }
  }

  /** What reading one item can give. A shared length longer than the last item makes Go panic. */
  datatype Decoded = Item(item: Bytes, rest: Bytes) | Eof | Bad | Panic

  function DecodeNext(last: Bytes, bs: Bytes): Decoded {
    if bs == [] then Eof else
    match ReadUvarint(bs)
    case EndOfInput => Bad
    case Overflow => Bad
    case Read(shared, bs1) =>
      if bs1 == [] then Eof else
      match ReadUvarint(bs1)
      case EndOfInput => Bad
      case Overflow => Bad
      case Read(nonShared, bs2) =>
        if shared > |last| then Panic else
        match ReadFull(bs2, nonShared)
        case Read(tail, rest) => Item(last[..shared] + tail, rest)
        case _ => if bs2 == [] then Eof else Bad
  }

  class DeltaDecoder {
    var last: Bytes

    constructor ()
      ensures last == []
    {
      last := [];
    }

    /** `Read`: one item from the front of `bs`. */
    method Read(bs: Bytes) returns (r: Decoded)
      modifies this
      ensures r == DecodeNext(old(last), bs)
      ensures last == if r.Item? then r.item else old(last)
    {
      hide ReadUvarint;
      if |bs| == 0 {
        return Eof;
      }
      var shared := ReadUvarint(bs);
      if !shared.Read? {
        return Bad;
      }
      if |shared.rest| == 0 {
        return Eof;
      }
      var nonShared := ReadUvarint(shared.rest);
      if !nonShared.Read? {
        return Bad;
      }
      if shared.value > |last| {
        return Panic;
      }
      var item := last[..shared.value];
      var tail := ReadFull(nonShared.rest, nonShared.value);
      if !tail.Read? {
        return if nonShared.rest == [] then Eof else Bad;
      }
      last := item + tail.value;
      r := Item(last, tail.rest);
    }
  }

  /** One item round trip. */
  lemma NextRoundTrip(last: Bytes, item: Bytes, rest: Bytes)
    requires |item| < UINT32_LIMIT
    ensures DecodeNext(last, EncodeNext(last, item) + rest) == Item(item, rest)
  {
    hide Uvarint;
    hide ReadUvarint;
    SharedIsDiffOffset(last, item);
    var n := Shared(last, item);
    var tail := item[n..];
    var bs := EncodeNext(last, item) + rest;
    var bs2 := tail + rest;
    var bs1 := Uvarint(|item| - n) + bs2;
    assert bs == Uvarint(n) + bs1;
    UvarintRoundTrip(n, bs1);
    UvarintRoundTrip(|item| - n, bs2);
    assert bs2[..|item| - n] == tail && bs2[|item| - n..] == rest;
    assert last[..n] + tail == item;
  }

  /** A whole chunk. */
  function EncodeAll(last: Bytes, items: seq<Bytes>): Bytes
    decreases |items|
  {
    if items == [] then [] else EncodeNext(last, items[0]) + EncodeAll(items[0], items[1..])
  }

  lemma EncodeNextNonEmpty(last: Bytes, item: Bytes)
    ensures EncodeNext(last, item) != []
  {}

  /** All items up to the end of the file; None stands for an error or a panic. */
  function DecodeAll(last: Bytes, bs: Bytes): Option<seq<Bytes>>
    decreases |bs|
  {
    match DecodeNext(last, bs)
    case Eof => Some([])
    case Item(item, rest) =>
      if |rest| >= |bs| then None else
      (match DecodeAll(item, rest)
       case Some(items) => Some([item] + items)
       case None => None)
    case _ => None
  }

  lemma {:induction false} ChunkRoundTrip(last: Bytes, items: seq<Bytes>)
    requires forall i :: 0 <= i < |items| ==> |items[i]| < UINT32_LIMIT
    ensures DecodeAll(last, EncodeAll(last, items)) == Some(items)
    decreases |items|
  {
    hide DecodeNext;
    hide EncodeNext;
    if items == [] {
      assert DecodeNext(last, []) == Eof by { DecodeNothing(last); }
    } else {
      var rest := EncodeAll(items[0], items[1..]);
      NextRoundTrip(last, items[0], rest);
      EncodeNextNonEmpty(last, items[0]);
      ChunkRoundTrip(items[0], items[1..]);
      assert items == [items[0]] + items[1..];
    }
  }

  lemma DecodeNothing(last: Bytes)
    ensures DecodeNext(last, []) == Eof
  {}
}
