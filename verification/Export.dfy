/** The stream of nodes that state-sync exchanges: the post-order walk over any tree, and the linear
    scan of a snapshot that produces the same stream without following children. */
module Exports {
  import opened Bytes
  import opened Encoding
  import opened AvlTree
  import opened AvlHeight
  import opened AvlCorrectness
  import opened MerkleHash
  import opened Snapshot
  import opened SnapshotWriter
  import opened MemNodes
  import opened NodeStacks

  datatype ExportNode = ExportNode(key: Bytes, value: Bytes, version: int, height: int)

  /** Go's conversion to `int8`. */
  function I8(n: int): int {
    var m := n % 0x100;
    if m < 0x80 then m else m - 0x100
  }

  /** One node of the stream. Only leaves have a value. */
  function NodeOf(t: Tree): ExportNode {
    ExportNode(t.key, if t.Leaf? then t.value else [], t.version, I8(Height(t)))
  }

  function PostOrder(t: Tree): seq<ExportNode> {
    if t.Leaf? then [NodeOf(t)] else PostOrder(t.left) + PostOrder(t.right) + [NodeOf(t)]
  }

  function RootPostOrder(r: Root): seq<ExportNode> {
    if r.None? then [] else PostOrder(r.value)
  }

  // ----- The walk with an explicit stack -----

  datatype StackEntry = StackEntry(node: Node, expanded: bool)

  ghost function Emission(t: Tree, expanded: bool): seq<ExportNode> {
    if expanded then [NodeOf(t)] else PostOrder(t)
  }

  ghost function Work(t: Tree, expanded: bool): nat {
    if t.Leaf? || expanded then 1 else 2 + Work(t.left, false) + Work(t.right, false)
  }

  /** What is still to be emitted for a stack of nodes standing for `trees`, the last one first. */
  ghost function Pending(trees: seq<Tree>, stack: seq<StackEntry>): seq<ExportNode>
    requires |trees| == |stack|
  {
    if trees == [] then [] else
    var top := |trees| - 1;
    Emission(trees[top], stack[top].expanded) + Pending(trees[..top], stack[..top])
  }

  ghost function TotalWork(trees: seq<Tree>, stack: seq<StackEntry>): nat
    requires |trees| == |stack|
  {
    if trees == [] then 0 else
    var top := |trees| - 1;
    Work(trees[top], stack[top].expanded) + TotalWork(trees[..top], stack[..top])
  }

  lemma PendingPushed(trees: seq<Tree>, stack: seq<StackEntry>, t: Tree, entry: StackEntry)
    requires |trees| == |stack|
    ensures Pending(trees + [t], stack + [entry]) == Emission(t, entry.expanded) + Pending(trees, stack)
    ensures TotalWork(trees + [t], stack + [entry]) == Work(t, entry.expanded) + TotalWork(trees, stack)
  {
    hide Emission;
    hide Work;
    assert (trees + [t])[..|trees|] == trees && (stack + [entry])[..|stack|] == stack;
  }

  /** Marking the branch on top and pushing its children, the left one last, leaves the same to emit. */
  lemma Expanded(trees: seq<Tree>, stack: seq<StackEntry>, t: Tree, n: Node, left: Node, right: Node)
    requires |trees| == |stack| && t.Branch?
    ensures var trees' := trees + [t] + [t.right] + [t.left];
      var stack' := stack + [StackEntry(n, true)] + [StackEntry(right, false)] + [StackEntry(left, false)];
      && Pending(trees', stack') == PostOrder(t) + Pending(trees, stack) && Emission(t, false) == PostOrder(t)
      && TotalWork(trees', stack') < Work(t, false) + TotalWork(trees, stack)
  {
    hide Pending;
    hide TotalWork;
    var e, r := StackEntry(n, true), StackEntry(right, false);
    PendingPushed(trees, stack, t, e);
    PendingPushed(trees + [t], stack + [e], t.right, r);
    PendingPushed(trees + [t] + [t.right], stack + [e] + [r], t.left, StackEntry(left, false));
    Regroup3(PostOrder(t.left), PostOrder(t.right), [NodeOf(t)], Pending(trees, stack));
  }

  lemma Regroup3<T>(a: seq<T>, b: seq<T>, c: seq<T>, d: seq<T>)
    ensures a + (b + (c + d)) == a + b + c + d
  {}

  /** The callback of `Export`: what it sends for a visited node. */
  function Visit(n: Node): ExportNode
    reads Top(n)`key, Top(n)`value, Top(n)`version, Top(n)`height
  {
    ExportNode(KeyOf(n), if IsLeaf(n) then ValueOf(n) else [], VersionOf(n), I8(HeightOf(n)))
  }

  lemma NodeFacts(sha: Sha, n: Node, t: Tree)
    requires Holds(sha, n, t) && Measured(t)
    ensures IsLeaf(n) == t.Leaf? && Visit(n) == NodeOf(t)
    ensures forall expanded :: IsLeaf(n) || expanded ==> Emission(t, expanded) == [NodeOf(t)] && Work(t, expanded) == 1
    ensures t.Branch? ==> Holds(sha, LeftOf(n), t.left) && Holds(sha, RightOf(n), t.right)
    ensures t.Branch? ==> Measured(t.left) && Measured(t.right)
  {
    hide HashNode;
    hide Represents;
    hide MemNode.Valid;
    hide Ordered;
    Accessors(sha, n, t);
  }

  ghost function StackNodes(stack: seq<StackEntry>): seq<Node> {
    seq(|stack|, i requires 0 <= i < |stack| => stack[i].node)
  }

  lemma EntryPushed(stack: seq<StackEntry>, entry: StackEntry)
    ensures StackNodes(stack + [entry]) == StackNodes(stack) + [entry.node]
  {}

  lemma EntryPopped(stack: seq<StackEntry>)
    requires stack != []
    ensures var top := |stack| - 1;
      && StackNodes(stack[..top]) == StackNodes(stack)[..top] && StackNodes(stack)[top] == stack[top].node
      && |StackNodes(stack)| == |stack| && stack == stack[..top] + [stack[top]]
  {}

  /** `ScanPostOrder` with the exporting callback. */
  method ScanPostOrder(sha: Sha, root: Node, ghost r: Root) returns (out: seq<ExportNode>)
    requires if r.None? then root == Nil else Holds(sha, root, r.value) && Measured(r.value)
    ensures out == RootPostOrder(r)
  {
    hide HashNode;
    hide Represents;
    hide MemNode.Valid;
    hide Ordered;
    hide PostOrder;
    if root == Nil {
      return [];
    }
    out := ScanFrom(sha, root, r.value);
  }

  /** The loop over the stack. */
  method ScanFrom(sha: Sha, root: Node, ghost all: Tree) returns (out: seq<ExportNode>)
    requires Holds(sha, root, all) && Measured(all)
    ensures out == PostOrder(all)
  {
    hide *;
    out := [];
    var stack := [] + [StackEntry(root, false)];
    ghost var trees := [] + [all];
    EmptyStack(sha);
    ScanStart(all, root);
    PushOnStack(sha, [], [], root, all);
    while |stack| > 0
      invariant OnStack(sha, StackNodes(stack), trees) && |stack| == |trees|
      invariant out + Pending(trees, stack) == PostOrder(all)
      decreases TotalWork(trees, stack)
    {
      EntryPopped(stack);
      PopStack(sha, StackNodes(stack), trees);
      var top := |stack| - 1;
      var entry, below := stack[top], stack[..top];
      ghost var t, rest := trees[top], trees[..top];
      PendingPushed(rest, below, t, entry);
      NodeFacts(sha, entry.node, t);
      if IsLeaf(entry.node) || entry.expanded {
        out := out + [Visit(entry.node)];
        stack, trees := below, rest;
      } else {
        var left, right := LeftOf(entry.node), RightOf(entry.node);
        Expanded(rest, below, t, entry.node, left, right);
        PushThree(sha, below, rest, entry.node, t, left, right);
        stack := below + [StackEntry(entry.node, true)] + [StackEntry(right, false)] + [StackEntry(left, false)];
        trees := rest + [t] + [t.right] + [t.left];
      }
    }
    ScanDone(trees, stack, out);
  }

  lemma ScanStart(all: Tree, root: Node)
    ensures Pending([] + [all], [] + [StackEntry(root, false)]) == PostOrder(all)
    ensures StackNodes([] + [StackEntry(root, false)]) == [] + [root]
  {
    PendingPushed([], [], all, StackEntry(root, false));
    assert PostOrder(all) + [] == PostOrder(all);
  }

  lemma ScanDone(trees: seq<Tree>, stack: seq<StackEntry>, out: seq<ExportNode>)
    requires |trees| == |stack| == 0
    ensures out + Pending(trees, stack) == out
  {}

  lemma PushThree(sha: Sha, stack: seq<StackEntry>, trees: seq<Tree>, n: Node, t: Tree, left: Node, right: Node)
    requires OnStack(sha, StackNodes(stack), trees) && t.Branch? && Holds(sha, n, t) && Measured(t)
    requires Holds(sha, left, t.left) && Holds(sha, right, t.right) && Measured(t.left) && Measured(t.right)
    ensures var e, r, l := StackEntry(n, true), StackEntry(right, false), StackEntry(left, false);
      OnStack(sha, StackNodes(stack + [e] + [r] + [l]), trees + [t] + [t.right] + [t.left])
  {
    hide *;
    var e, r, l := StackEntry(n, true), StackEntry(right, false), StackEntry(left, false);
    EntryPushed(stack, e);
    EntryPushed(stack + [e], r);
    EntryPushed(stack + [e] + [r], l);
    PushOnStack(sha, StackNodes(stack), trees, n, t);
    PushOnStack(sha, StackNodes(stack + [e]), trees + [t], right, t.right);
    PushOnStack(sha, StackNodes(stack + [e] + [r]), trees + [t] + [t.right], left, t.left);
  }

  // ----- The linear scan of a snapshot -----

  /** `KeyValue`: both lengths are read from the file, unlike `LeafKeyValue`. */
  function KeyValue(s: Snapshot, offset: nat): Option<(Bytes, Bytes)> {
    if offset + 4 > |s.kvs| then None else
    var keyStart := offset + 4;
    var keyEnd := keyStart + FromLittleEndian(s.kvs[offset..keyStart]);
    if keyEnd + 4 > |s.kvs| then None else
    var valueStart := keyEnd + 4;
    var valueEnd := valueStart + FromLittleEndian(s.kvs[keyEnd..valueStart]);
    if valueEnd > |s.kvs| then None else
    Some((s.kvs[keyStart..keyEnd], s.kvs[valueStart..valueEnd]))
  }

  /** The length written before each key is the length in its leaf record. */
  ghost predicate Prefixed(s: Snapshot) {
    forall i :: 0 <= i < |s.leaves| ==> PrefixedAt(s.kvs, s.leaves[i])
  }

  ghost predicate PrefixedAt(kvs: Bytes, leaf: LeafRecord) {
    leaf.keyOffset + 4 <= |kvs| && FromLittleEndian(kvs[leaf.keyOffset..leaf.keyOffset + 4]) == leaf.keyLen
  }

  lemma KeyValueAgrees(s: Snapshot, i: nat)
    requires Prefixed(s) && LeafKeyValue(s, i).Some?
    ensures i < |s.leaves| && KeyValue(s, s.leaves[i].keyOffset) == LeafKeyValue(s, i)
  {
    assert PrefixedAt(s.kvs, s.leaves[i]);
  }

  lemma {:induction false} WrittenIsPrefixed(sha: Sha, t: Tree, s: Snapshot)
    requires Prefixed(s) && Storable(t)
    ensures Prefixed(WriteTree(sha, t, s))
  {
    hide HashNode;
    if t.Branch? {
      hide Prefixed;
      WrittenIsPrefixed(sha, t.left, s);
      WrittenIsPrefixed(sha, t.right, WriteTree(sha, t.left, s));
      SameLeavesPrefixed(WriteTree(sha, t.right, WriteTree(sha, t.left, s)), WriteTree(sha, t, s));
    } else {
      AppendLeafPrefixed(s, t.version, t.key, t.value, HashNode(sha, t));
    }
  }

  lemma SameLeavesPrefixed(s: Snapshot, s': Snapshot)
    requires Prefixed(s) && s.leaves == s'.leaves && s.kvs == s'.kvs
    ensures Prefixed(s')
  {}

  lemma AppendLeafPrefixed(s: Snapshot, version: nat, key: Bytes, value: Bytes, hash: Bytes)
    requires Prefixed(s) && |key| < UINT32_LIMIT
    ensures Prefixed(AppendLeaf(s, version, key, value, hash))
  {
    hide PrefixedAt;
    hide PairBytes;
    var s' := AppendLeaf(s, version, key, value, hash);
    var n := |s.leaves|;
    forall i | 0 <= i <= n ensures PrefixedAt(s'.kvs, s'.leaves[i]) {
      if i < n {
        StillPrefixed(s.kvs, PairBytes(key, value), s.leaves[i]);
      } else {
        NewPrefixed(s.kvs, key, value, s'.leaves[n]);
      }
    }
  }

  lemma StillPrefixed(kvs: Bytes, more: Bytes, leaf: LeafRecord)
    requires PrefixedAt(kvs, leaf)
    ensures PrefixedAt(kvs + more, leaf)
  {
    hide FromLittleEndian;
    var p := leaf.keyOffset;
    assert (kvs + more)[p..p + 4] == kvs[p..p + 4];
  }

  lemma NewPrefixed(kvs: Bytes, key: Bytes, value: Bytes, leaf: LeafRecord)
    requires |key| < UINT32_LIMIT && leaf.keyOffset == |kvs| && leaf.keyLen == U32(|key|)
    ensures PrefixedAt(kvs + PairBytes(key, value), leaf)
  {
    hide LittleEndian;
    hide FromLittleEndian;
    var all, o := kvs + PairBytes(key, value), |kvs|;
    assert all[o..o + 4] == LittleEndian(|key|, 4);
    WordSizes();
    LittleEndianRoundTrip(|key|, 4);
    U32Exact(|key|);
  }

  function LeafNode(s: Snapshot, j: nat): ExportNode
    requires j < |s.leaves|
  {
    match KeyValue(s, s.leaves[j].keyOffset)
    case Some((k, v)) => ExportNode(k, v, s.leaves[j].version, 0)
    case None => ExportNode([], [], s.leaves[j].version, 0)
  }

  function BranchNode(s: Snapshot, i: nat): ExportNode
    requires i < |s.nodes|
  {
    match LeafKeyValue(s, s.nodes[i].keyLeaf)
    case Some((k, _)) => ExportNode(k, [], s.nodes[i].version, I8(s.nodes[i].height))
    case None => ExportNode([], [], s.nodes[i].version, I8(s.nodes[i].height))
  }

  ghost function LeafNodes(s: Snapshot, j: nat, k: nat): seq<ExportNode>
    requires j <= k <= |s.leaves|
  {
    seq(k - j, i requires 0 <= i < k - j => LeafNode(s, j + i))
  }

  /** What has been emitted, and the next leaf. */
  datatype Progress = Progress(out: seq<ExportNode>, j: nat)

  /** The leaf that the scan has to reach before it emits branch `i`. */
  function LeafGoal(s: Snapshot, i: nat, j: nat): nat
    requires i < |s.nodes|
  {
    Max(j, i + s.nodes[i].preTrees + 2)
  }

  ghost function EmitBranch(s: Snapshot, i: nat, e: Progress): Progress
    requires i < |s.nodes|
  {
    var k := LeafGoal(s, i, e.j);
    if k > |s.leaves| then e else
    Progress(e.out + LeafNodes(s, e.j, k) + [BranchNode(s, i)], k)
  }

  /** The scan over the branches from `i` up to `end`. */
  ghost function Scan(s: Snapshot, i: nat, end: nat, e: Progress): Progress
    requires i <= end <= |s.nodes|
    decreases end - i
  {
    if i == end then e else EmitBranch(s, end - 1, Scan(s, i, end - 1, e))
  }

  lemma {:induction false} ScanSplits(s: Snapshot, i: nat, mid: nat, end: nat, e: Progress)
    requires i <= mid <= end <= |s.nodes|
    ensures Scan(s, i, end, e) == Scan(s, mid, end, Scan(s, i, mid, e))
    decreases end
  {
    if mid < end {
      hide EmitBranch;
      ScanSplits(s, i, mid, end - 1, e);
    }
  }

  /** Scanning the branches of one stored subtree: together with the leaves still owed, it emits the
      leaves owed before it and then the subtree in post-order. */
  ghost predicate Scanned(s: Snapshot, t: Tree, l: nat, e: Progress, e': Progress)
    requires e.j <= l <= l + Size(t) <= |s.leaves|
  {
    && e.j <= e'.j <= l + Size(t) && (t.Branch? ==> e'.j == l + Size(t))
    && e'.out + LeafNodes(s, e'.j, l + Size(t)) == e.out + LeafNodes(s, e.j, l) + PostOrder(t)
  }

  lemma {:induction false} ScanIsPostOrder(sha: Sha, s: Snapshot, t: Tree, l: nat, b: nat, e: Progress)
    requires Prefixed(s) && LaidOut(sha, s, t, l, b) && Measured(t) && Ordered(t) && e.j <= l && b <= |s.nodes|
    ensures l + Size(t) <= |s.leaves| && b + Size(t) - 1 <= |s.nodes|
    ensures Scanned(s, t, l, e, Scan(s, b, b + Size(t) - 1, e))
    decreases t
  {
    hide HashNode;
    hide LeafKeyValue;
    hide Prefixed;
    hide LaidOut;
    hide Measured;
    hide Ordered;
    hide EmitBranch;
    hide Scanned;
    LaidOutBounds(sha, s, t, l, b);
    if t.Leaf? {
      LeafScanned(sha, s, t, l, b, e);
    } else {
      SubtreesLaidOut(sha, s, t, l, b);
      var n := Size(t.left);
      var mid := b + n - 1;
      ScanIsPostOrder(sha, s, t.left, l, b, e);
      var e1 := Scan(s, b, mid, e);
      ScannedReach(s, t.left, l, e, e1);
      ScanIsPostOrder(sha, s, t.right, l + n, mid, e1);
      BranchScan(s, b, mid, b + t.size - 1, e);
      BranchScanned(sha, s, t, l, b, e, e1, Scan(s, mid, b + t.size - 2, e1));
    }
  }

  /** The scan over a branch: both children, then the branch itself. */
  lemma BranchScan(s: Snapshot, b: nat, mid: nat, end: nat, e: Progress)
    requires b <= mid < end <= |s.nodes|
    ensures Scan(s, b, end, e) == EmitBranch(s, end - 1, Scan(s, mid, end - 1, Scan(s, b, mid, e)))
  {
    hide EmitBranch;
    ScanSplits(s, b, mid, end - 1, e);
  }

  lemma SubtreesLaidOut(sha: Sha, s: Snapshot, t: Tree, l: nat, b: nat)
    requires t.Branch? && LaidOut(sha, s, t, l, b) && Measured(t) && Ordered(t)
    ensures Measured(t.left) && Measured(t.right) && Ordered(t.left) && Ordered(t.right)
    ensures 1 <= Size(t.left) && 1 <= Size(t.right) && t.size == Size(t.left) + Size(t.right)
    ensures b + t.size - 2 < |s.nodes|
    ensures LaidOut(sha, s, t.left, l, b) && LaidOut(sha, s, t.right, l + Size(t.left), b + Size(t.left) - 1)
  {
    hide HashNode;
    hide LeafKeyValue;
    hide Compare;
    SizeCountsLeaves(t.left);
    SizeCountsLeaves(t.right);
  }

  lemma ScannedReach(s: Snapshot, t: Tree, l: nat, e: Progress, e': Progress)
    requires e.j <= l <= l + Size(t) <= |s.leaves| && Scanned(s, t, l, e, e')
    ensures e'.j <= l + Size(t)
  {}

  lemma LeafScanned(sha: Sha, s: Snapshot, t: Tree, l: nat, b: nat, e: Progress)
    requires Prefixed(s) && t.Leaf? && LaidOut(sha, s, t, l, b) && e.j <= l < |s.leaves|
    ensures Scanned(s, t, l, e, e)
  {
    hide HashNode;
    hide LeafKeyValue;
    hide KeyValue;
    hide Prefixed;
    KeyValueAgrees(s, l);
    assert LeafNode(s, l) == NodeOf(t);
    LeafNodesSplit(s, e.j, l, l + 1);
    assert LeafNodes(s, l, l + 1) == [NodeOf(t)];
    assert e.out + (LeafNodes(s, e.j, l) + [NodeOf(t)]) == e.out + LeafNodes(s, e.j, l) + [NodeOf(t)];
  }

  lemma LeafNodesSplit(s: Snapshot, j: nat, k: nat, l: nat)
    requires j <= k <= l <= |s.leaves|
    ensures LeafNodes(s, j, l) == LeafNodes(s, j, k) + LeafNodes(s, k, l)
  {}

  lemma BranchScanned(sha: Sha, s: Snapshot, t: Tree, l: nat, b: nat, e: Progress, e1: Progress, e2: Progress)
    requires t.Branch? && LaidOut(sha, s, t, l, b) && Measured(t) && Ordered(t) && e.j <= l
    requires l + t.size <= |s.leaves| && e1.j <= l + Size(t.left)
    requires Scanned(s, t.left, l, e, e1) && Scanned(s, t.right, l + Size(t.left), e1, e2)
    ensures Scanned(s, t, l, e, EmitBranch(s, b + t.size - 2, e2))
  {
    hide HashNode;
    hide LeafKeyValue;
    hide LeafNodes;
    hide BranchNode;
    var i, n, end := b + t.size - 2, Size(t.left), l + t.size;
    assert LeafGoal(s, i, e2.j) == end;
    assert BranchNode(s, i) == NodeOf(t) by { BranchNodeStored(sha, s, t, l, b); }
    var e3 := EmitBranch(s, i, e2);
    assert LeafNodes(s, end, end) == [] by { NoLeafNodes(s, end); }
    hide EmitBranch;
    hide LeafGoal;
    Regroup(e.out, LeafNodes(s, e.j, l), e1.out, LeafNodes(s, e1.j, l + n), e2.out, LeafNodes(s, e2.j, end),
            PostOrder(t.left), PostOrder(t.right), NodeOf(t));
  }

  lemma Regroup<T>(o: seq<T>, w: seq<T>, o1: seq<T>, w1: seq<T>, o2: seq<T>, w2: seq<T>, l: seq<T>, r: seq<T>, x: T)
    requires o1 + w1 == o + w + l && o2 + w2 == o1 + w1 + r
    ensures o2 + w2 + [x] + [] == o + w + (l + r + [x])
  {
    assert o2 + w2 + [x] == (o + w) + l + r + [x];
  }

  lemma NoLeafNodes(s: Snapshot, j: nat)
    requires j <= |s.leaves|
    ensures LeafNodes(s, j, j) == []
  {}

  lemma BranchNodeStored(sha: Sha, s: Snapshot, t: Tree, l: nat, b: nat)
    requires t.Branch? && LaidOut(sha, s, t, l, b) && Measured(t) && Ordered(t)
    ensures b + t.size - 2 < |s.nodes| && BranchNode(s, b + t.size - 2) == NodeOf(t)
  {
    hide LeafKeyValue;
    hide HashNode;
    hide Compare;
    var n := Size(t.left);
    SizeCountsLeaves(t.left);
    LaidOutLeaves(sha, s, t.right, l + n, b + n - 1);
    FirstItemIsMin(t.right, t.key);
    assert LeafKeyValue(s, (l + n) + 0) == Some(Items(t.right)[0]);
  }

  /** The snapshot files of `r`, or empty files. */
  ghost predicate FilesHold(sha: Sha, s: Snapshot, r: Root) {
    match r
    case None => s.nodes == [] && s.leaves == []
    case Some(t) =>
      && Prefixed(s) && LaidOut(sha, s, t, 0, 0) && Measured(t) && Ordered(t)
      && |s.leaves| == Size(t) < UINT32_LIMIT && |s.nodes| == Size(t) - 1
  }

  /** No branch waits for a leaf beyond those of the tree. */
  lemma {:induction false} GoalInRange(sha: Sha, s: Snapshot, t: Tree, l: nat, b: nat, i: nat)
    requires LaidOut(sha, s, t, l, b) && Measured(t) && b <= i < b + Size(t) - 1
    ensures i < |s.nodes| && i + s.nodes[i].preTrees + 2 <= l + Size(t)
  {
    hide HashNode;
    hide LeafKeyValue;
    if t.Branch? {
      var mid := b + Size(t.left) - 1;
      SizeCountsLeaves(t.left);
      SizeCountsLeaves(t.right);
      if i < mid {
        GoalInRange(sha, s, t.left, l, b, i);
      } else if i < b + t.size - 2 {
        GoalInRange(sha, s, t.right, l + Size(t.left), mid, i);
      }
    }
  }

  lemma StoresSome(sha: Sha, s: Snapshot, r: Root)
    requires FilesHold(sha, s, r)
    ensures r.None? <==> |s.leaves| == 0
  {
    if r.Some? { SizeCountsLeaves(r.value); }
  }

  lemma OnlyLeaf(sha: Sha, s: Snapshot, t: Tree)
    requires FilesHold(sha, s, Some(t)) && |s.leaves| == 1
    ensures t.Leaf? && LeafKeyValue(s, 0) == Some((t.key, t.value)) && s.leaves[0].version == t.version
  {
    hide LeafKeyValue;
    hide HashNode;
    SizeCountsLeaves(t);
  }

  lemma ScannedAll(s: Snapshot, t: Tree, e: Progress)
    requires 1 < Size(t) == |s.leaves| && Scanned(s, t, 0, Progress([], 0), e)
    ensures e.out == PostOrder(t)
  {
    assert e.out + LeafNodes(s, e.j, Size(t)) == e.out;
    assert [] + LeafNodes(s, 0, 0) + PostOrder(t) == PostOrder(t);
  }

  /** `export`. */
  method ExportSnapshot(sha: Sha, s: Snapshot, ghost r: Root) returns (out: seq<ExportNode>)
    requires FilesHold(sha, s, r)
    ensures out == RootPostOrder(r)
  {
    hide LeafKeyValue;
    hide FilesHold;
    StoresSome(sha, s, r);
    if |s.leaves| == 0 {
      return [];
    }
    if |s.leaves| == 1 {
      OnlyLeaf(sha, s, r.value);
      var item := LeafKeyValue(s, 0).value;
      return [ExportNode(item.0, item.1, s.leaves[0].version, 0)];
    }
    out := ExportBranches(sha, s, r.value);
  }

  /** One pass over both record arrays, counting the subtrees that wait for a parent. */
  method ExportBranches(sha: Sha, s: Snapshot, ghost t: Tree) returns (out: seq<ExportNode>)
    requires FilesHold(sha, s, Some(t)) && |s.leaves| > 1
    ensures out == PostOrder(t)
  {
    hide *;
    out := [];
    var pendingTrees, i, j := 0, 0, 0;
    ScanNothing(s, Progress([], 0));
    while i < |s.nodes|
      invariant i <= |s.nodes| && j <= |s.leaves| && pendingTrees == j - i
      invariant Progress(out, j) == Scan(s, 0, i, Progress([], 0))
    {
      StoredGoal(sha, s, t, i, j);
      ScanNext(s, i, Progress([], 0));
      out, j, pendingTrees := EmitUpTo(s, i, out, j, pendingTrees);
      out := out + [BranchNode(s, i)];
      pendingTrees := pendingTrees - 1;
      i := i + 1;
    }
    StoredScan(sha, s, t);
  }

  /** Emits leaves until branch `i` has all the subtrees it waits for. */
  method EmitUpTo(s: Snapshot, i: nat, out: seq<ExportNode>, j: nat, pendingTrees: int)
    returns (out': seq<ExportNode>, j': nat, pendingTrees': int)
    requires i < |s.nodes| && LeafGoal(s, i, j) <= |s.leaves| && pendingTrees == j - i
    ensures j' == LeafGoal(s, i, j) && pendingTrees' == j' - i
    ensures j <= j' <= |s.leaves| && out' == out + LeafNodes(s, j, j')
  {
    hide LeafNode;
    out', j', pendingTrees' := out, j, pendingTrees;
    while pendingTrees' < s.nodes[i].preTrees + 2
      invariant j <= j' <= LeafGoal(s, i, j) && pendingTrees' == j' - i
      invariant out' == out + LeafNodes(s, j, j')
    {
      LeafNodesSplit(s, j, j', j' + 1);
      assert LeafNodes(s, j', j' + 1) == [LeafNode(s, j')];
      out' := out' + [LeafNode(s, j')];
      j' := j' + 1;
      pendingTrees' := pendingTrees' + 1;
    }
  }

  lemma ScanNothing(s: Snapshot, e: Progress)
    ensures Scan(s, 0, 0, e) == e
  {}

  lemma ScanNext(s: Snapshot, i: nat, e: Progress)
    requires i < |s.nodes|
    ensures var e1 := Scan(s, 0, i, e); var k := LeafGoal(s, i, e1.j);
      e1.j <= k <= |s.leaves| ==> Scan(s, 0, i + 1, e) == Progress(e1.out + LeafNodes(s, e1.j, k) + [BranchNode(s, i)], k)
  {
    hide LeafNodes;
    hide BranchNode;
  }

  lemma StoredGoal(sha: Sha, s: Snapshot, t: Tree, i: nat, j: nat)
    requires FilesHold(sha, s, Some(t)) && i < |s.nodes| && j <= |s.leaves|
    ensures j <= LeafGoal(s, i, j) <= |s.leaves|
  {
    hide LaidOut;
    hide Prefixed;
    hide Ordered;
    GoalInRange(sha, s, t, 0, 0, i);
  }

  lemma StoredScan(sha: Sha, s: Snapshot, t: Tree)
    requires FilesHold(sha, s, Some(t)) && |s.leaves| > 1
    ensures Scan(s, 0, |s.nodes|, Progress([], 0)).out == PostOrder(t)
  {
    hide LaidOut;
    hide Prefixed;
    hide Ordered;
    hide Scan;
    hide Scanned;
    hide PostOrder;
    ScanIsPostOrder(sha, s, t, 0, 0, Progress([], 0));
    ScannedAll(s, t, Scan(s, 0, |s.nodes|, Progress([], 0)));
  }
}
