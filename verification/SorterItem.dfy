/** The items that are sorted when change sets are converted for the versioned database, and the order
    of that database's timestamp comparator. */
module SorterItems {
  import opened Bytes
  import opened AvlHeight
  import opened Encoding
  import opened TreeStates
  import opened MergeHeaps
  import opened ChangeSetReaders

  const TIMESTAMP_SIZE: nat := 8
  const KEY_LENGTH_SIZE: nat := 4

  /** `encodeSorterItem`: key, version, deletion flag, value unless deleted, key length. */
  function EncodeItem(version: nat, p: Pair): Bytes {
    p.key + LittleEndian(version, TIMESTAMP_SIZE) + [if p.delete then 1 else 0]
    + (if p.delete then [] else p.value) + LittleEndian(|p.key|, KEY_LENGTH_SIZE)
  }

  /** `sizeOfSorterItem`. */
  function ItemSize(p: Pair): nat {
    |p.key| + TIMESTAMP_SIZE + 1 + KEY_LENGTH_SIZE + if p.delete then 0 else |p.value|
  }

  /** The key length stored at the end; None where Go would slice out of range. */
  function KeyLength(item: Bytes): Option<nat> {
    if |item| < KEY_LENGTH_SIZE then None else
    var n := FromLittleEndian(item[|item| - KEY_LENGTH_SIZE..]);
    if n + TIMESTAMP_SIZE >= |item| then None else Some(n)
  }

  function ItemKey(item: Bytes): Bytes {
    match KeyLength(item) case Some(n) => item[..n] case None => []
  }

  function ItemVersion(item: Bytes): Bytes {
    match KeyLength(item) case Some(n) => item[n..n + TIMESTAMP_SIZE] case None => []
  }

  /** `decodeSorterItem`: the version bytes and the pair; None where Go would slice out of range. */
  function DecodeItem(item: Bytes): Option<(Bytes, Pair)> {
    match KeyLength(item)
    case None => None
    case Some(n) =>
      var offset := n + TIMESTAMP_SIZE;
      if item[offset] == 1 then Some((ItemVersion(item), Pair(true, item[..n], [])))
      else if offset + 1 + KEY_LENGTH_SIZE > |item| then None
      else Some((ItemVersion(item), Pair(false, item[..n], item[offset + 1..|item| - KEY_LENGTH_SIZE])))
  }

  /** `compareSorterItem`: by key, and for one key the newer version first. */
  predicate ItemLess(a: Bytes, b: Bytes) {
    var c := Compare(ItemKey(a), ItemKey(b));
    if c != 0 then c == -1 else FromLittleEndian(ItemVersion(a)) > FromLittleEndian(ItemVersion(b))
  }

  lemma ItemParts(version: nat, p: Pair)
    requires |p.key| < UINT32_LIMIT
    ensures var item := EncodeItem(version, p);
      && |item| == ItemSize(p) && KeyLength(item) == Some(|p.key|)
      && ItemKey(item) == p.key && ItemVersion(item) == LittleEndian(version, TIMESTAMP_SIZE)
  {
    var item, n := EncodeItem(version, p), |p.key|;
    var end := LittleEndian(n, KEY_LENGTH_SIZE);
    assert item[|item| - KEY_LENGTH_SIZE..] == end;
    WordSizes();
    LittleEndianRoundTrip(n, KEY_LENGTH_SIZE);
    assert item[..n] == p.key && item[n..n + TIMESTAMP_SIZE] == LittleEndian(version, TIMESTAMP_SIZE);
  }

  /** Decoding an encoded item returns the version and the pair. */
  lemma ItemRoundTrip(version: nat, p: Pair)
    requires |p.key| < UINT32_LIMIT
    ensures DecodeItem(EncodeItem(version, p)) == Some((LittleEndian(version, TIMESTAMP_SIZE), Normal(p)))
  {
    ItemParts(version, p);
    var item, offset := EncodeItem(version, p), |p.key| + TIMESTAMP_SIZE;
    assert item[offset] == if p.delete then 1 else 0;
    if !p.delete {
      assert item[offset + 1..|item| - KEY_LENGTH_SIZE] == p.value;
    }
  }

  /** The other direction: an item that can be decoded is the encoding of what it decodes to exactly when its flag is 0
      or 1 and a deletion has no value. */
  lemma DecodedIsEncoded(item: Bytes)
    requires DecodeItem(item).Some?
    ensures var (version, p) := DecodeItem(item).value; var flag := item[|p.key| + TIMESTAMP_SIZE];
      && (p.delete <==> flag == 1)
      && (EncodeItem(FromLittleEndian(version), p) == item <==>
            flag <= 1 && (p.delete ==> |item| == |p.key| + TIMESTAMP_SIZE + 1 + KEY_LENGTH_SIZE))
  {
    hide LittleEndian;
    hide FromLittleEndian;
    hide EncodeItem;
    var (version, p) := DecodeItem(item).value;
    var n, end := |p.key|, item[|item| - KEY_LENGTH_SIZE..];
    LittleEndianInverse(version);
    LittleEndianInverse(end);
    var flag := item[n + TIMESTAMP_SIZE];
    FlagAndSize(FromLittleEndian(version), p);
    if flag <= 1 && (p.delete ==> |item| == n + TIMESTAMP_SIZE + 1 + KEY_LENGTH_SIZE) {
      SplitItem(item, n);
      EncodedParts(FromLittleEndian(version), p, version, end);
    }
  }

  lemma FlagAndSize(version: nat, p: Pair)
    ensures var item := EncodeItem(version, p);
      |item| == ItemSize(p) && item[|p.key| + TIMESTAMP_SIZE] == if p.delete then 1 else 0
  {
    hide LittleEndian;
  }

  lemma EncodedParts(version: nat, p: Pair, ts: Bytes, end: Bytes)
    requires LittleEndian(version, TIMESTAMP_SIZE) == ts && LittleEndian(|p.key|, KEY_LENGTH_SIZE) == end
    ensures EncodeItem(version, p)
      == p.key + ts + [if p.delete then 1 else 0] + (if p.delete then [] else p.value) + end
  {
    hide LittleEndian;
  }

  lemma SplitItem(item: Bytes, n: nat)
    requires n + TIMESTAMP_SIZE + 1 + KEY_LENGTH_SIZE <= |item|
    ensures var offset, last := n + TIMESTAMP_SIZE, |item| - KEY_LENGTH_SIZE;
      && item == item[..n] + item[n..offset] + [item[offset]] + item[offset + 1..last] + item[last..]
      && (offset + 1 == last ==> item[offset + 1..last] == [])
  {}

  lemma {:induction false} LittleEndianInverse(bs: Bytes)
    ensures LittleEndian(FromLittleEndian(bs), |bs|) == bs
  {
    if bs != [] {
      var low, high := bs[0], FromLittleEndian(bs[1..]);
      LittleEndianInverse(bs[1..]);
      assert (low + 256 * high) % 256 == low && (low + 256 * high) / 256 == high;
      assert bs == [low] + bs[1..];
    }
  }

  // ----- The comparator of the database -----

  /** `compareTS`. */
  function CompareTS(a: Bytes, b: Bytes): int {
    var ts1, ts2 := FromLittleEndian(a), FromLittleEndian(b);
    if ts1 < ts2 then -1 else if ts1 > ts2 then 1 else 0
  }

  /** `compareWithoutTS`. */
  function CompareWithoutTS(a: Bytes, aHasTS: bool, b: Bytes, bHasTS: bool): int
    requires (aHasTS ==> |a| >= TIMESTAMP_SIZE) && (bHasTS ==> |b| >= TIMESTAMP_SIZE)
  {
    Compare(if aHasTS then a[..|a| - TIMESTAMP_SIZE] else a, if bHasTS then b[..|b| - TIMESTAMP_SIZE] else b)
  }

  /** `compare`: by key, and for one key the larger timestamp first. */
  function CompareKeys(a: Bytes, b: Bytes): int
    requires |a| >= TIMESTAMP_SIZE && |b| >= TIMESTAMP_SIZE
  {
    var ret := CompareWithoutTS(a, true, b, true);
    if ret != 0 then ret else -CompareTS(a[|a| - TIMESTAMP_SIZE..], b[|b| - TIMESTAMP_SIZE..])
  }

  /** Items sort as their keys do in the database, behind the prefix of their store. */
  lemma ItemOrderIsKeyOrder(prefix: Bytes, v: nat, p: Pair, w: nat, q: Pair)
    requires |p.key| < UINT32_LIMIT && |q.key| < UINT32_LIMIT && v < UINT64_LIMIT && w < UINT64_LIMIT
    ensures ItemLess(EncodeItem(v, p), EncodeItem(w, q)) <==>
      CompareKeys(prefix + p.key + LittleEndian(v, TIMESTAMP_SIZE), prefix + q.key + LittleEndian(w, TIMESTAMP_SIZE)) < 0
  {
    hide EncodeItem;
    ItemParts(v, p);
    ItemParts(w, q);
    hide ItemKey;
    hide ItemVersion;
    var a, b := LittleEndian(v, TIMESTAMP_SIZE), LittleEndian(w, TIMESTAMP_SIZE);
    var x, y := prefix + p.key + a, prefix + q.key + b;
    assert x[..|x| - TIMESTAMP_SIZE] == prefix + p.key && y[..|y| - TIMESTAMP_SIZE] == prefix + q.key;
    assert x[|x| - TIMESTAMP_SIZE..] == a && y[|y| - TIMESTAMP_SIZE..] == b;
    ComparePrefixed(prefix, p.key, q.key);
  }

  /** The item order is one that the external sorter accepts. */
  lemma ItemLessIsOrder()
    ensures IsOrder(ItemLess)
  {
    hide Compare;
    hide ItemKey;
    hide ItemVersion;
    forall a, b | ItemLess(a, b) ensures !ItemLess(b, a) {
      CompareFlips(ItemKey(a), ItemKey(b));
    }
    forall a, b, c | !ItemLess(b, a) && !ItemLess(c, b) ensures !ItemLess(c, a) {
      NotLessTransitive(a, b, c);
    }
  }

  lemma NotLessTransitive(a: Bytes, b: Bytes, c: Bytes)
    requires !ItemLess(b, a) && !ItemLess(c, b)
    ensures !ItemLess(c, a)
  {
    hide Compare;
    hide ItemKey;
    hide ItemVersion;
    var x, y, z := ItemKey(a), ItemKey(b), ItemKey(c);
    CompareFlips(x, y);
    CompareFlips(y, z);
    CompareFlips(x, z);
    if Less(x, y) && Less(y, z) { LessTransitive(x, y, z); }
  }
}
