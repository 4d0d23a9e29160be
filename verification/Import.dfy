/** The importer: a stack machine that turns a post-order stream back into snapshot files. */
module Imports {
  import opened Bytes
  import opened AvlTree
  import opened AvlHeight
  import opened MerkleHash
  import opened Snapshot
  import opened SnapshotWriter
  import opened Exports

  datatype Fault = VersionOverflow | StackUnderflow | LeftOver(count: nat)

  // ----- The stream, read as a forest -----

  /** One node of the stream on a stack of whole trees. */
  function ForestStep(ts: seq<Tree>, n: ExportNode): Option<seq<Tree>> {
    if n.version >= UINT32_LIMIT then None
    else if n.height == 0 then Some(ts + [Leaf(n.key, n.value, U32(n.version))])
    else if |ts| < 2 then None
    else
      Some(ts[..|ts| - 2] + [Joined(ts, n)])
  }

  /** The branch over the two trees on top. */
  function Joined(ts: seq<Tree>, n: ExportNode): Tree
    requires |ts| >= 2
  {
    var l, r := ts[|ts| - 2], ts[|ts| - 1];
    Branch(n.key, U32(n.version), U8(n.height), Size(l) + Size(r), l, r)
  }

  /** The whole stream, from stack `ts`. */
  function Rebuild(ts: seq<Tree>, nodes: seq<ExportNode>): Option<seq<Tree>>
    decreases |nodes|
  {
    if nodes == [] then Some(ts) else
    match ForestStep(ts, nodes[0])
    case None => None
    case Some(ts') => Rebuild(ts', nodes[1..])
  }

  /** Sizes are exact; nothing is said of heights or key order. */
  ghost predicate Sized(t: Tree) {
    t.Branch? ==> Sized(t.left) && Sized(t.right) && t.size == Size(t.left) + Size(t.right)
  }

  /** A tree whose nodes fit the fields of the stream. */
  ghost predicate Exportable(t: Tree) {
    && t.version < UINT32_LIMIT
    && (t.Branch? ==>
          && 0 < t.height < 0x80 && t.size == Size(t.left) + Size(t.right)
          && Exportable(t.left) && Exportable(t.right))
  }

  lemma {:induction false} WellFormedIsExportable(t: Tree, version: nat)
    requires Measured(t) && Balanced(t) && Stamped(t, version) && version < UINT32_LIMIT && Size(t) < UINT32_LIMIT
    ensures Exportable(t)
    decreases t
  {
    if t.Branch? {
      HeightBound(t);
      SizeCountsLeaves(t.left);
      SizeCountsLeaves(t.right);
      WellFormedIsExportable(t.left, t.version);
      WellFormedIsExportable(t.right, t.version);
    }
  }

  /** The stream of a tree, met anywhere in a longer stream, leaves that tree on the stack. */
  lemma {:induction false} PostOrderRebuilds(t: Tree, ts: seq<Tree>, rest: seq<ExportNode>)
    requires Exportable(t)
    ensures Rebuild(ts, PostOrder(t) + rest) == Rebuild(ts + [t], rest)
    decreases t
  {
    if t.Leaf? {
      RebuildHead(ts, NodeOf(t), rest);
    } else {
      var l, r, n := PostOrder(t.left), PostOrder(t.right), NodeOf(t);
      assert PostOrder(t) + rest == l + (r + ([n] + rest));
      PostOrderRebuilds(t.left, ts, r + ([n] + rest));
      PostOrderRebuilds(t.right, ts + [t.left], [n] + rest);
      hide Rebuild;
      RebuildHead(ts + [t.left] + [t.right], n, rest);
      BranchStep(t, ts);
    }
  }

  lemma RebuildHead(ts: seq<Tree>, n: ExportNode, rest: seq<ExportNode>)
    ensures Rebuild(ts, [n] + rest) ==
      match ForestStep(ts, n) case None => None case Some(ts') => Rebuild(ts', rest)
  {
    assert ([n] + rest)[1..] == rest;
  }

  lemma HeightExact(height: nat)
    requires height < 0x80
    ensures I8(height) == U8(height) == height
  {}

  lemma BranchStep(t: Tree, ts: seq<Tree>)
    requires t.Branch? && Exportable(t)
    ensures ForestStep(ts + [t.left] + [t.right], NodeOf(t)) == Some(ts + [t])
  {
    hide U32;
    hide U8;
    hide I8;
    hide PostOrder;
    U32Exact(t.version);
    HeightExact(t.height);
    assert (ts + [t.left] + [t.right])[..|ts|] == ts;
  }

  /** A node as an exporter can produce it. */
  predicate Canonical(n: ExportNode) {
    0 <= n.version && 0 <= n.height < 0x80 && (n.height != 0 ==> n.value == [])
  }

  ghost function Streams(ts: seq<Tree>): seq<ExportNode> {
    if ts == [] then [] else Streams(ts[..|ts| - 1]) + PostOrder(ts[|ts| - 1])
  }

  lemma StreamsPush(ts: seq<Tree>, t: Tree)
    ensures Streams(ts + [t]) == Streams(ts) + PostOrder(t)
  {
    assert (ts + [t])[..|ts|] == ts;
  }

  lemma StepKeepsStream(ts: seq<Tree>, n: ExportNode)
    requires Canonical(n) && ForestStep(ts, n).Some? && forall t :: t in ts ==> Exportable(t)
    ensures Streams(ForestStep(ts, n).value) == Streams(ts) + [n]
    ensures forall t :: t in ForestStep(ts, n).value ==> Exportable(t)
  {
    hide U32;
    hide U8;
    hide I8;
    hide Streams;
    hide Exportable;
    hide Canonical;
    if n.height == 0 {
      var t := Leaf(n.key, n.value, U32(n.version));
      LeafFromNode(n);
      StreamsPush(ts, t);
    } else {
      var base, l, r := ts[..|ts| - 2], ts[|ts| - 2], ts[|ts| - 1];
      var t := Joined(ts, n);
      assert ts == base + [l] + [r];
      assert l in ts && r in ts;
      BranchFromNode(ts, n);
      StreamsPush(base, l);
      StreamsPush(base + [l], r);
      StreamsPush(base, t);
      assert Streams(base) + (PostOrder(l) + PostOrder(r) + [n]) == Streams(base) + PostOrder(l) + PostOrder(r) + [n];
    }
  }

  lemma LeafFromNode(n: ExportNode)
    requires Canonical(n) && n.height == 0 && n.version < UINT32_LIMIT
    ensures var t := Leaf(n.key, n.value, U32(n.version)); PostOrder(t) == [n] && Exportable(t)
  {}

  lemma BranchFromNode(ts: seq<Tree>, n: ExportNode)
    requires Canonical(n) && n.height != 0 && n.version < UINT32_LIMIT && |ts| >= 2
    requires Exportable(ts[|ts| - 2]) && Exportable(ts[|ts| - 1])
    ensures var t := Joined(ts, n);
      PostOrder(t) == PostOrder(ts[|ts| - 2]) + PostOrder(ts[|ts| - 1]) + [n] && Exportable(t)
  {
    hide U32;
    hide U8;
    hide I8;
    U32Exact(n.version);
    HeightExact(n.height);
    assert NodeOf(Joined(ts, n)) == n;
  }

  lemma {:induction false} RebuiltStream(ts: seq<Tree>, nodes: seq<ExportNode>)
    requires (forall n :: n in nodes ==> Canonical(n)) && (forall t :: t in ts ==> Exportable(t))
    requires Rebuild(ts, nodes).Some?
    ensures Streams(Rebuild(ts, nodes).value) == Streams(ts) + nodes
    ensures forall t :: t in Rebuild(ts, nodes).value ==> Exportable(t)
    decreases |nodes|
  {
    hide Exportable;
    hide Canonical;
    hide ForestStep;
    hide Streams;
    if nodes == [] {
      assert Streams(ts) + nodes == Streams(ts);
    } else {
      StepKeepsStream(ts, nodes[0]);
      RebuiltStream(ForestStep(ts, nodes[0]).value, nodes[1..]);
      assert Streams(ts) + [nodes[0]] + nodes[1..] == Streams(ts) + nodes;
    }
  }

  /** A stream is accepted as one tree exactly when it is the post-order walk of that tree. */
  lemma AcceptsExactlyPostOrder(nodes: seq<ExportNode>, t: Tree)
    requires forall n :: n in nodes ==> Canonical(n)
    ensures Rebuild([], nodes) == Some([t]) <==> Exportable(t) && nodes == PostOrder(t)
  {
    hide Exportable;
    hide PostOrder;
    hide Canonical;
    if Exportable(t) && nodes == PostOrder(t) {
      RebuildsAlone(t);
    }
    if Rebuild([], nodes) == Some([t]) {
      hide Rebuild;
      RebuiltStream([], nodes);
      assert t in [t];
      StreamsAlone(nodes, t);
    }
  }

  lemma RebuildsAlone(t: Tree)
    requires Exportable(t)
    ensures Rebuild([], PostOrder(t)) == Some([t])
  {
    hide Exportable;
    hide PostOrder;
    PostOrderRebuilds(t, [], []);
    assert PostOrder(t) + [] == PostOrder(t) && [] + [t] == [t];
  }

  lemma StreamsAlone(nodes: seq<ExportNode>, t: Tree)
    requires Streams([t]) == Streams([]) + nodes
    ensures nodes == PostOrder(t)
  {
    StreamsPush([], t);
    assert [] + [t] == [t];
    assert Streams([]) + nodes == nodes && Streams([]) + PostOrder(t) == PostOrder(t);
  }

  // ----- The importer -----

  /** What the importer keeps of a node that waits for its parent. */
  datatype PendingNode = PendingNode(size: nat, hash: Bytes)

  ghost function WriteForest(sha: Sha, ts: seq<Tree>): Snapshot {
    if ts == [] then EMPTY else WriteTree(sha, ts[|ts| - 1], WriteForest(sha, ts[..|ts| - 1]))
  }

  lemma WriteForestPush(sha: Sha, ts: seq<Tree>, t: Tree)
    ensures WriteForest(sha, ts + [t]) == WriteTree(sha, t, WriteForest(sha, ts))
  {
    hide WriteTree;
    assert (ts + [t])[..|ts|] == ts;
  }

  lemma {:induction false} SizedCounts(sha: Sha, t: Tree, s: Snapshot)
    requires Sized(t)
    ensures Size(t) >= 1
    ensures |WriteTree(sha, t, s).leaves| == |s.leaves| + Size(t)
    ensures |WriteTree(sha, t, s).nodes| == |s.nodes| + Size(t) - 1
  {
    hide HashNode;
    if t.Branch? {
      SizedCounts(sha, t.left, s);
      SizedCounts(sha, t.right, WriteTree(sha, t.left, s));
    }
  }

  /** The stacks that go with a forest. */
  ghost predicate Tracks(sha: Sha, ts: seq<Tree>, leaves: seq<nat>, nodes: seq<PendingNode>) {
    && |ts| == |leaves| == |nodes|
    && (ts != [] ==>
          var top := |ts| - 1;
          && Sized(ts[top]) && leaves[top] == |WriteForest(sha, ts).leaves|
          && nodes[top] == PendingNode(Size(ts[top]), HashNode(sha, ts[top]))
          && Tracks(sha, ts[..top], leaves[..top], nodes[..top]))
  }

  lemma TracksPush(sha: Sha, ts: seq<Tree>, leaves: seq<nat>, nodes: seq<PendingNode>, t: Tree, l: nat, n: PendingNode)
    requires Tracks(sha, ts, leaves, nodes) && Sized(t) && n == PendingNode(Size(t), HashNode(sha, t))
    requires l == |WriteForest(sha, ts + [t]).leaves|
    ensures Tracks(sha, ts + [t], leaves + [l], nodes + [n])
  {
    hide HashNode;
    hide WriteForest;
    assert (ts + [t])[..|ts|] == ts && (leaves + [l])[..|ts|] == leaves && (nodes + [n])[..|ts|] == nodes;
  }

  /** What the two entries on top of the stacks say. */
  lemma TracksPop(sha: Sha, ts: seq<Tree>, leaves: seq<nat>, nodes: seq<PendingNode>)
    requires Tracks(sha, ts, leaves, nodes) && |ts| >= 2
    ensures |ts| == |leaves| == |nodes|
    ensures var k := |ts| - 2; var base := ts[..k];
      && ts == base + [ts[k]] + [ts[k + 1]]
      && Sized(ts[k]) && Sized(ts[k + 1]) && leaves[k] == |WriteForest(sha, base + [ts[k]]).leaves|
      && nodes[k] == PendingNode(Size(ts[k]), HashNode(sha, ts[k]))
      && nodes[k + 1] == PendingNode(Size(ts[k + 1]), HashNode(sha, ts[k + 1]))
      && Tracks(sha, base, leaves[..k], nodes[..k])
  {
    hide HashNode;
    hide WriteForest;
    var k := |ts| - 2;
    assert Tracks(sha, ts[..k + 1], leaves[..k + 1], nodes[..k + 1]);
    assert ts[..k + 1] == ts[..k] + [ts[k]];
    assert ts[..k + 1][..k] == ts[..k] && leaves[..k + 1][..k] == leaves[..k] && nodes[..k + 1][..k] == nodes[..k];
  }

  lemma {:induction false} ForestCounts(sha: Sha, ts: seq<Tree>, leaves: seq<nat>, nodes: seq<PendingNode>)
    requires Tracks(sha, ts, leaves, nodes)
    ensures |WriteForest(sha, ts).leaves| == |WriteForest(sha, ts).nodes| + |ts|
    decreases |ts|
  {
    hide HashNode;
    hide WriteTree;
    if ts != [] {
      var top := |ts| - 1;
      ForestCounts(sha, ts[..top], leaves[..top], nodes[..top]);
      SizedCounts(sha, ts[top], WriteForest(sha, ts[..top]));
    }
  }

  /** Joining the two trees on top appends exactly one branch record. */
  lemma JoinTop(sha: Sha, base: seq<Tree>, t: Tree)
    requires t.Branch?
    ensures var s := WriteForest(sha, base); var all := WriteForest(sha, base + [t.left] + [t.right]);
      var preTrees := U8(U32(|s.leaves| - |s.nodes|));
      var keyLeaf := U32(|WriteForest(sha, base + [t.left]).leaves|);
      WriteForest(sha, base + [t])
        == AppendBranch(all, BranchRecord(U8(t.height), preTrees, t.version, U32(t.size), keyLeaf, HashNode(sha, t)))
  {
    hide HashNode;
    hide U8;
    hide U32;
    hide WriteForest;
    WriteForestPush(sha, base, t);
    WriteForestPush(sha, base, t.left);
    WriteForestPush(sha, base + [t.left], t.right);
  }

  /** The record and the stack entries that `Add` makes for a branch. */
  lemma BranchImported(sha: Sha, ts: seq<Tree>, leaves: seq<nat>, nodes: seq<PendingNode>, n: ExportNode)
    requires Tracks(sha, ts, leaves, nodes) && |ts| >= 2 && |WriteForest(sha, ts).leaves| < UINT32_LIMIT
    ensures |WriteForest(sha, ts).leaves| == |WriteForest(sha, ts).nodes| + |ts|
    ensures var k := |ts| - 2; var ts' := ts[..k] + [Joined(ts, n)];
      var size, version, height := nodes[k].size + nodes[k + 1].size, U32(n.version), U8(n.height);
      var hash := BranchHash(sha, height, size, version, nodes[k].hash, nodes[k + 1].hash);
      var record := BranchRecord(height, U8(k), version, U32(size), leaves[k], hash);
      && WriteForest(sha, ts') == AppendBranch(WriteForest(sha, ts), record)
      && Tracks(sha, ts', leaves[..k] + [|WriteForest(sha, ts).leaves|], nodes[..k] + [PendingNode(size, hash)])
  {
    hide BranchHash;
    hide WriteForest;
    hide Tracks;
    hide WriteTree;
    TracksPop(sha, ts, leaves, nodes);
    ForestCounts(sha, ts, leaves, nodes);
    var k := |ts| - 2;
    var base, t := ts[..k], Joined(ts, n);
    ForestCounts(sha, base, leaves[..k], nodes[..k]);
    JoinTop(sha, base, t);
    GrowingForest(sha, base, ts[k], ts[k + 1]);
    U32Exact(k);
    U32Exact(leaves[k]);
    TracksPush(sha, base, leaves[..k], nodes[..k], t, |WriteForest(sha, ts).leaves|,
               PendingNode(Size(t), HashNode(sha, t)));
  }

  lemma GrowingForest(sha: Sha, base: seq<Tree>, l: Tree, r: Tree)
    requires Sized(l) && Sized(r)
    ensures |WriteForest(sha, base).leaves| < |WriteForest(sha, base + [l]).leaves|
         < |WriteForest(sha, base + [l] + [r]).leaves|
  {
    hide WriteForest;
    WriteForestPush(sha, base, l);
    WriteForestPush(sha, base + [l], r);
    SizedCounts(sha, l, WriteForest(sha, base));
    SizedCounts(sha, r, WriteForest(sha, base + [l]));
  }

  function LeafCount(nodes: seq<ExportNode>): nat {
    if nodes == [] then 0 else (if nodes[0].height == 0 then 1 else 0) + LeafCount(nodes[1..])
  }

  class Importer {
    const writer: Writer
    var leavesStack: seq<nat>
    var nodeStack: seq<PendingNode>

    /** The trees imported so far and not yet joined. */
    ghost var forest: seq<Tree>

    ghost predicate Valid(sha: Sha)
      reads this, writer
    {
      && writer.Valid() && writer.Files() == WriteForest(sha, forest)
      && Tracks(sha, forest, leavesStack, nodeStack)
    }

    constructor (sha: Sha)
      ensures Valid(sha) && forest == [] && fresh(writer) && writer.leafCounter == 0
    {
      writer := new Writer();
      leavesStack, nodeStack, forest := [], [], [];
    }

    /** `Add`. A branch without two waiting nodes makes the Go code index out of range. */
    method Add(sha: Sha, n: ExportNode) returns (fault: Option<Fault>)
      requires Valid(sha) && writer.leafCounter + LeafCount([n]) < UINT32_LIMIT
      modifies this, writer
      ensures Valid(sha)
      ensures match ForestStep(old(forest), n)
              case Some(ts) => fault == None && forest == ts
              case None => forest == old(forest) &&
                           fault == Some(if n.version >= UINT32_LIMIT then VersionOverflow else StackUnderflow)
      ensures writer.leafCounter ==
        old(writer.leafCounter) + if n.height == 0 && n.version < UINT32_LIMIT then 1 else 0
    {
      if n.version >= UINT32_LIMIT {
        return Some(VersionOverflow);
      }
      if n.height == 0 {
        AddLeaf(sha, n);
        return None;
      }
      if |leavesStack| < 2 {
        return Some(StackUnderflow);
      }
      AddBranch(sha, n);
      return None;
    }

    method AddLeaf(sha: Sha, n: ExportNode)
      requires Valid(sha) && writer.leafCounter + 1 < UINT32_LIMIT && n.height == 0 && n.version < UINT32_LIMIT
      modifies this, writer
      ensures Valid(sha) && Some(forest) == ForestStep(old(forest), n)
      ensures writer.leafCounter == old(writer.leafCounter) + 1
    {
      hide WriteForest;
      hide Tracks;
      hide LeafHash;
      ghost var t := Leaf(n.key, n.value, U32(n.version));
      WriteForestPush(sha, forest, t);
      var hash := LeafHash(sha, n.key, n.value, U32(n.version));
      writer.WriteLeaf(U32(n.version), n.key, n.value, hash);
      TracksPush(sha, forest, leavesStack, nodeStack, t, writer.leafCounter, PendingNode(1, hash));
      leavesStack := leavesStack + [writer.leafCounter];
      nodeStack := nodeStack + [PendingNode(1, hash)];
      forest := forest + [t];
    }

    method AddBranch(sha: Sha, n: ExportNode)
      requires Valid(sha) && writer.leafCounter < UINT32_LIMIT
      requires n.height != 0 && n.version < UINT32_LIMIT && |forest| >= 2
      modifies this, writer
      ensures Valid(sha) && Some(forest) == ForestStep(old(forest), n)
      ensures writer.leafCounter == old(writer.leafCounter)
    {
      hide BranchHash;
      hide WriteForest;
      BranchImported(sha, forest, leavesStack, nodeStack, n);
      hide Tracks;
      hide U8;
      hide U32;
      var k := |leavesStack| - 2;
      var keyLeaf, left, right := leavesStack[k], nodeStack[k], nodeStack[k + 1];
      var version, height, size := U32(n.version), U8(n.height), left.size + right.size;
      var hash := BranchHash(sha, height, size, version, left.hash, right.hash);
      var preTrees := U8(k);
      writer.WriteBranch(version, U32(size), height, preTrees, keyLeaf, hash);
      leavesStack, nodeStack := leavesStack[..k], nodeStack[..k];
      leavesStack, nodeStack := leavesStack + [writer.leafCounter], nodeStack + [PendingNode(size, hash)];
      forest := forest[..k] + [Joined(forest, n)];
    }
  }

  // ----- A whole import -----

  datatype ImportResult = Imported(files: Snapshot, leaves: nat) | Rejected(fault: Fault)

  /** What an import has to do with a stream, without the stacks. */
  ghost predicate IsImport(sha: Sha, version: int, nodes: seq<ExportNode>, r: ImportResult) {
    if version >= UINT32_LIMIT then r == Rejected(VersionOverflow) else
    match Rebuild([], nodes)
    case None => r.Rejected? && !r.fault.LeftOver?
    case Some(ts) =>
      if ts == [] then r == Imported(EMPTY, 0)
      else if |ts| == 1 then
        var files := WriteTree(sha, ts[0], EMPTY);
        r == Imported(files, |files.leaves|)
      else r == Rejected(LeftOver(|ts|))
  }

  /** `doImport`. */
  method DoImport(sha: Sha, version: int, nodes: seq<ExportNode>) returns (r: ImportResult)
    requires LeafCount(nodes) < UINT32_LIMIT
    ensures IsImport(sha, version, nodes, r)
  {
    hide WriteTree;
    hide ForestStep;
    if version >= UINT32_LIMIT {
      return Rejected(VersionOverflow);
    }
    var importer := new Importer(sha);
    var i := 0;
    assert nodes[0..] == nodes;
    while i < |nodes|
      invariant i <= |nodes| && importer.Valid(sha) && fresh(importer) && fresh(importer.writer)
      invariant Rebuild([], nodes) == Rebuild(importer.forest, nodes[i..])
      invariant importer.writer.leafCounter + LeafCount(nodes[i..]) <= LeafCount(nodes)
    {
      assert nodes[i..][1..] == nodes[i + 1..];
      hide Tracks;
      hide WriteForest;
      var fault := importer.Add(sha, nodes[i]);
      if fault.Some? {
        return Rejected(fault.value);
      }
      i := i + 1;
    }
    assert nodes[i..] == [];
    var n, w := |importer.leavesStack|, importer.writer;
    if n == 0 {
      return Imported(Snapshot(w.nodes, w.leaves, w.kvs), 0);
    } else if n == 1 {
      return Imported(Snapshot(w.nodes, w.leaves, w.kvs), w.leafCounter);
    }
    return Rejected(LeftOver(n));
  }

  /** State-sync round trip: exporting a saved tree, from memory or from its snapshot, and importing
      the stream gives the same files that writing the tree directly gives. */
  lemma ExportImportRoundTrip(sha: Sha, t: Tree, version: nat, r: ImportResult)
    requires WellFormed(t) && Storable(t) && Stamped(t, version) && version < UINT32_LIMIT && Size(t) < UINT32_LIMIT
    requires IsImport(sha, version, PostOrder(t), r)
    ensures r == Imported(WriteTree(sha, t, EMPTY), Size(t))
    ensures FilesHold(sha, r.files, Some(t))
  {
    hide LaidOut;
    hide WriteTree;
    hide Rebuild;
    hide Prefixed;
    WellFormedIsExportable(t, version);
    RebuildsAlone(t);
    WriteTreeCounts(sha, t, EMPTY);
    HeightBound(t);
    WriteTreeLaysOut(sha, t, EMPTY, WriteTree(sha, t, EMPTY));
    assert Prefixed(EMPTY) by { EmptyIsPrefixed(); }
    WrittenIsPrefixed(sha, t, EMPTY);
  }

  lemma EmptyIsPrefixed()
    ensures Prefixed(EMPTY)
  {}
}
