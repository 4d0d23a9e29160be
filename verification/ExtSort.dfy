/** External sorting: chunks are sorted and saved separately, in any order of completion, and merged. */
module ExtSorting {
  import opened Bytes
  import opened AvlHeight
  import opened Encoding
  import opened DeltaEncoding
  import opened MergeHeaps

  // ----- Chunk files -----

  function EncodePlain(items: seq<Bytes>): Bytes {
    if items == [] then [] else Uvarint(|items[0]|) + items[0] + EncodePlain(items[1..])
  }

  /** The reader of files without delta encoding; None is an error. */
  function DecodePlain(bs: Bytes): Option<seq<Bytes>>
    decreases |bs|
  {
    if bs == [] then Some([]) else
    match ReadUvarint(bs)
    case Read(size, rest) =>
      (match ReadFull(rest, size)
       case Read(item, rest') =>
         (match DecodePlain(rest')
          case Some(items) => Some([item] + items)
          case None => None)
       case _ => None)
    case _ => None
  }

  ghost predicate Short(items: seq<Bytes>) {
    forall i :: 0 <= i < |items| ==> |items[i]| < UINT32_LIMIT
  }

  lemma {:induction false} PlainRoundTrip(items: seq<Bytes>)
    requires Short(items)
    ensures DecodePlain(EncodePlain(items)) == Some(items)
  {
    hide Uvarint;
    hide ReadUvarint;
    if items != [] {
      var item, rest := items[0], EncodePlain(items[1..]);
      assert EncodePlain(items) == Uvarint(|item|) + (item + rest);
      UvarintRoundTrip(|item|, item + rest);
      assert (item + rest)[..|item|] == item && (item + rest)[|item|..] == rest;
      PlainRoundTrip(items[1..]);
      assert items == [item] + items[1..];
    }
  }

  function EncodeChunk(delta: bool, items: seq<Bytes>): Bytes {
    if delta then EncodeAll([], items) else EncodePlain(items)
  }

  function DecodeChunk(delta: bool, bs: Bytes): Option<seq<Bytes>> {
    if delta then DecodeAll([], bs) else DecodePlain(bs)
  }

  lemma ChunkFileRoundTrip(delta: bool, items: seq<Bytes>)
    requires Short(items)
    ensures DecodeChunk(delta, EncodeChunk(delta, items)) == Some(items)
  {
    if delta { ChunkRoundTrip([], items); } else { PlainRoundTrip(items); }
  }

  /** The writing loop of `sortAndSaveChunk`. */
  method SaveChunk(delta: bool, items: seq<Bytes>) returns (file: Bytes)
    ensures file == EncodeChunk(delta, items)
  {
    hide EncodeNext;
    hide Uvarint;
    file := [];
    var encoder := new DeltaEncoder();
    for i := 0 to |items|
      invariant fresh(encoder)
      invariant EncodeChunk(delta, items) ==
        file + if delta then EncodeAll(encoder.last, items[i..]) else EncodePlain(items[i..])
    {
      assert items[i..][1..] == items[i + 1..];
      if delta {
        var out := encoder.Write(items[i]);
        file := file + out;
      } else {
        file := file + Uvarint(|items[i]|);
        file := file + items[i];
      }
    }
    assert items[|items|..] == [];
  }

  // ----- The sorter -----

  type SortSlice = seq<Bytes> -> seq<Bytes>

  /** `sort.Slice`: some sorted arrangement of the items. */
  ghost predicate Sorts(less: Lesser, sort: SortSlice) {
    forall xs :: SortedBy(less, sort(xs)) && multiset(sort(xs)) == multiset(xs)
  }

  /** A chunk file with the sorted chunk it was made from. */
  ghost predicate IsChunkFile(less: Lesser, delta: bool, file: Bytes, chunk: seq<Bytes>) {
    file == EncodeChunk(delta, chunk) && SortedBy(less, chunk) && Short(chunk)
  }

  ghost predicate AreChunkFiles(less: Lesser, delta: bool, files: seq<Bytes>, chunks: seq<seq<Bytes>>) {
    |files| == |chunks| && forall i :: 0 <= i < |files| ==> IsChunkFile(less, delta, files[i], chunks[i])
  }

  /** What a chunk counts for: the items and four bytes for each. */
  ghost function ChunkBytes(chunk: seq<Bytes>): nat {
    if chunk == [] then 0 else ChunkBytes(chunk[..|chunk| - 1]) + |chunk[|chunk| - 1]| + 4
  }

  /** Only the last item of a chunk takes it to the limit. */
  ghost predicate WithinLimit(chunk: seq<Bytes>, limit: int) {
    |chunk| == 1 || (|chunk| > 1 && ChunkBytes(chunk[..|chunk| - 1]) < limit)
  }

  class ExtSorter {
    const less: Lesser
    const sort: SortSlice
    const delta: bool
    const maxChunkSize: int
    var currentChunk: seq<Bytes>
    var currentChunkSize: nat
    var running: seq<seq<Bytes>>
    var chunkFiles: seq<Bytes>

    /** Everything fed so far, and the contents of the finished files. */
    ghost var fed: multiset<Bytes>
    ghost var chunks: seq<seq<Bytes>>

    /** The chunk being filled is below the limit. */
    ghost predicate Valid()
      reads this
    {
      Accounted() && (currentChunk == [] || currentChunkSize < maxChunkSize)
    }

    ghost predicate Accounted()
      reads this
    {
      && IsOrder(less) && Sorts(less, sort)
      && currentChunkSize == ChunkBytes(currentChunk) && Short(currentChunk)
      && (forall i :: 0 <= i < |running| ==> Short(running[i]) && WithinLimit(running[i], maxChunkSize))
      && AreChunkFiles(less, delta, chunkFiles, chunks)
      && fed == multiset(currentChunk) + TotalOf(running) + TotalOf(chunks)
    }

    constructor (less: Lesser, sort: SortSlice, delta: bool, maxChunkSize: int)
      requires IsOrder(less) && Sorts(less, sort)
      ensures Valid() && fed == multiset{} && this.less == less && this.delta == delta && this.maxChunkSize == maxChunkSize
      ensures currentChunk == [] && running == [] && chunkFiles == []
    {
      this.less, this.sort, this.delta, this.maxChunkSize := less, sort, delta, maxChunkSize;
      currentChunk, currentChunkSize, running, chunkFiles := [], 0, [], [];
      fed, chunks := multiset{}, [];
    }

    /** `Feed`. */
    method Feed(item: Bytes) returns (ok: bool)
      requires Valid()
      modifies this
      ensures Valid() && ok == (|item| < UINT32_LIMIT)
      ensures fed == old(fed) + if ok then multiset{item} else multiset{}
      ensures chunkFiles == old(chunkFiles)
      ensures var chunk := if ok then old(currentChunk) + [item] else old(currentChunk);
        if ok && ChunkBytes(chunk) >= maxChunkSize then currentChunk == [] && running == old(running) + [chunk]
        else currentChunk == chunk && running == old(running)
    {
      hide IsOrder;
      hide Sorts;
      hide AreChunkFiles;
      hide TotalOf;
      hide ChunkBytes;
      hide WithinLimit;
      hide Short;
      if |item| >= UINT32_LIMIT {
        return false;
      }
      ChunkSnoc(currentChunk, item, maxChunkSize);
      FedSnoc(currentChunk, item, TotalOf(running), TotalOf(chunks));
      currentChunkSize := currentChunkSize + |item| + 4;
      currentChunk := currentChunk + [item];
      fed := fed + multiset{item};
      if currentChunkSize >= maxChunkSize {
        Rotate();
      }
      return true;
    }

    /** `sortChunkAndRotate`: hands the chunk to a goroutine. */
    method Rotate()
      requires Accounted() && WithinLimit(currentChunk, maxChunkSize)
      modifies this`currentChunk, this`currentChunkSize, this`running
      ensures Valid() && currentChunk == [] && running == old(running) + [old(currentChunk)]
    {
      hide IsOrder;
      hide Sorts;
      hide AreChunkFiles;
      hide TotalOf;
      hide WithinLimit;
      TotalSnoc(running, currentChunk);
      running := running + [currentChunk];
      currentChunk, currentChunkSize := [], 0;
    }

    /** The goroutine of the `k`-th running chunk sorts it, saves it and reports it. */
    method FinishChunk(k: nat)
      requires Valid() && k < |running|
      modifies this`running, this`chunkFiles, this`chunks
      ensures Valid() && running == old(running)[..k] + old(running)[k + 1..]
      ensures |chunkFiles| == |old(chunkFiles)| + 1 && chunkFiles[..|old(chunkFiles)|] == old(chunkFiles)
    {
      hide ChunkBytes;
      hide WithinLimit;
      hide IsOrder;
      hide SortedBy;
      hide TotalOf;
      hide AreChunkFiles;
      hide EncodeChunk;
      var chunk := running[k];
      var sorted := sort(chunk);
      ShortPermuted(chunk, sorted);
      var file := SaveChunk(delta, sorted);
      ChunkMoves(multiset(currentChunk), running, k, chunks, sorted);
      ChunkFilesSnoc(less, delta, chunkFiles, chunks, file, sorted);
      running := running[..k] + running[k + 1..];
      chunkFiles, chunks := chunkFiles + [file], chunks + [sorted];
    }

    /** `Finalize`: the last chunk, then all goroutines in whatever order, then the merge. */
    method Finalize() returns (merge: MultiWayMerge)
      requires Valid()
      modifies this
      ensures Valid() && fresh(merge) && merge.Valid() && merge.less == less
      ensures fed == old(fed) && merge.Remaining() == fed
    {
      hide IsOrder;
      hide Sorts;
      hide SortedBy;
      if currentChunkSize > 0 {
        BelowLimit(currentChunk, maxChunkSize);
        Rotate();
      }
      while |running| > 0
        invariant Valid() && currentChunk == [] && fed == old(fed)
      {
        var k: int := *;
        FinishChunk(if 0 <= k < |running| then k else 0);
      }
      var streams := ReadChunks(less, delta, chunkFiles, chunks);
      merge := new MultiWayMerge(streams, less);
    }
  }

  /** Opens the chunk files as streams. */
  method ReadChunks(less: Lesser, delta: bool, files: seq<Bytes>, ghost chunks: seq<seq<Bytes>>)
    returns (streams: seq<seq<Bytes>>)
    requires AreChunkFiles(less, delta, files, chunks)
    ensures streams == chunks && forall i :: 0 <= i < |streams| ==> SortedBy(less, streams[i])
  {
    hide SortedBy;
    hide DecodeChunk;
    hide EncodeChunk;
    streams := [];
    for i := 0 to |files|
      invariant streams == chunks[..i]
    {
      assert IsChunkFile(less, delta, files[i], chunks[i]);
      ChunkFileRoundTrip(delta, chunks[i]);
      streams := streams + [DecodeChunk(delta, files[i]).value];
    }
    assert forall i :: 0 <= i < |chunks| ==> IsChunkFile(less, delta, files[i], chunks[i]);
  }

  lemma ChunkSnoc(chunk: seq<Bytes>, item: Bytes, limit: int)
    ensures ChunkBytes(chunk + [item]) == ChunkBytes(chunk) + |item| + 4
    ensures chunk == [] || ChunkBytes(chunk) < limit ==> WithinLimit(chunk + [item], limit)
  {
    assert (chunk + [item])[..|chunk|] == chunk;
  }

  lemma FedSnoc(chunk: seq<Bytes>, item: Bytes, a: multiset<Bytes>, b: multiset<Bytes>)
    requires Short(chunk) && |item| < UINT32_LIMIT
    ensures Short(chunk + [item])
    ensures multiset(chunk + [item]) + a + b == multiset(chunk) + a + b + multiset{item}
  {}

  lemma BelowLimit(chunk: seq<Bytes>, limit: int)
    requires chunk != [] && ChunkBytes(chunk) < limit
    ensures WithinLimit(chunk, limit)
  {}

  lemma TotalSnoc(xs: seq<seq<Bytes>>, x: seq<Bytes>)
    ensures TotalOf(xs + [x]) == TotalOf(xs) + multiset(x)
  {
    assert (xs + [x])[..|xs|] == xs;
  }

  lemma {:induction false} TotalWithout(xs: seq<seq<Bytes>>, k: nat)
    requires k < |xs|
    ensures TotalOf(xs) == TotalOf(xs[..k] + xs[k + 1..]) + multiset(xs[k])
    decreases |xs|
  {
    var n := |xs| - 1;
    if k == n {
      assert xs[..k] + xs[k + 1..] == xs[..n];
    } else {
      TotalWithout(xs[..n], k);
      var without := xs[..k] + xs[k + 1..];
      assert without[..n - 1] == xs[..n][..k] + xs[..n][k + 1..] && without[n - 1] == xs[n];
    }
  }

  /** A chunk that leaves the running ones and joins the finished ones changes no total. */
  lemma ChunkMoves(current: multiset<Bytes>, running: seq<seq<Bytes>>, k: nat, chunks: seq<seq<Bytes>>, sorted: seq<Bytes>)
    requires k < |running| && multiset(sorted) == multiset(running[k])
    ensures current + TotalOf(running) + TotalOf(chunks)
      == current + TotalOf(running[..k] + running[k + 1..]) + TotalOf(chunks + [sorted])
  {
    hide TotalOf;
    TotalWithout(running, k);
    TotalSnoc(chunks, sorted);
    var a, b, x := TotalOf(running[..k] + running[k + 1..]), TotalOf(chunks), multiset(sorted);
    assert current + (a + x) + b == current + a + (b + x);
  }

  lemma ChunkFilesSnoc(less: Lesser, delta: bool, files: seq<Bytes>, chunks: seq<seq<Bytes>>, file: Bytes, chunk: seq<Bytes>)
    requires AreChunkFiles(less, delta, files, chunks) && IsChunkFile(less, delta, file, chunk)
    ensures AreChunkFiles(less, delta, files + [file], chunks + [chunk])
  {
    hide IsChunkFile;
  }

  lemma ShortPermuted(xs: seq<Bytes>, ys: seq<Bytes>)
    requires Short(xs) && multiset(xs) == multiset(ys)
    ensures Short(ys)
  {
    forall i | 0 <= i < |ys| ensures |ys[i]| < UINT32_LIMIT {
      assert ys[i] in multiset(xs);
      var k :| 0 <= k < |xs| && xs[k] == ys[i];
    }
  }

  /** `Spawn`: feeds everything, with chunks finishing at any moment, and reads the merge to its end.
      An item that is too long makes the Go code panic. */
  method Spawn(items: seq<Bytes>, less: Lesser, sort: SortSlice, delta: bool, maxChunkSize: int) returns (out: seq<Bytes>)
    requires IsOrder(less) && Sorts(less, sort) && Short(items)
    ensures multiset(out) == multiset(items) && SortedBy(less, out)
  {
    hide IsOrder;
    hide Sorts;
    hide SortedBy;
    hide ExtSorter.Valid;
    hide ChunkBytes;
    var sorter := new ExtSorter(less, sort, delta, maxChunkSize);
    for i := 0 to |items|
      invariant fresh(sorter) && sorter.Valid() && sorter.fed == multiset(items[..i])
    {
      assert items[..i + 1] == items[..i] + [items[i]];
      var ok := sorter.Feed(items[i]);
      var k: int := *;
      if 0 <= k < |sorter.running| {
        sorter.FinishChunk(k);
      }
    }
    assert items[..|items|] == items;
    var merge := sorter.Finalize();
    out := Drain(merge);
  }
}
