/** Writing a snapshot from any mix of in-memory and persisted nodes. */
module NodeWriters {
  import opened AvlTree
  import opened AvlHeight
  import opened MerkleHash
  import opened Snapshot
  import opened SnapshotWriter
  import opened MemNodes
  import opened MemTrees

  /** `writeRecursive`. */
  method WriteRecursive(w: Writer, sha: Sha, n: Node, ghost t: Tree)
    requires w.Valid() && |w.nodes| <= |w.leaves| && |w.leaves| + Size(t) < UINT32_LIMIT
    requires Holds(sha, n, t) && Coherent(sha, Repr(n)) && Measured(t)
    modifies w, Repr(n)`hash
    ensures w.Valid() && w.Files() == WriteTree(sha, t, old(w.Files()))
    ensures Coherent(sha, Repr(n))
    decreases t
  {
    hide HashNode;
    hide Represents;
    hide MemNode.Valid;
    hide Ordered;
    hide PairBytes;
    SizeCountsLeaves(t);
    Accessors(sha, n, t);
    if IsLeaf(n) {
      var hash := Hash(sha, n, t);
      w.WriteLeaf(VersionOf(n), KeyOf(n), ValueOf(n), hash);
    } else {
      WriteBranchNode(w, sha, n, t);
    }
  }

  /** The branch case: left subtree, right subtree, then the branch. */
  method WriteBranchNode(w: Writer, sha: Sha, n: Node, ghost t: Tree)
    requires w.Valid() && |w.nodes| <= |w.leaves| && |w.leaves| + Size(t) < UINT32_LIMIT
    requires Holds(sha, n, t) && Coherent(sha, Repr(n)) && Measured(t) && t.Branch?
    modifies w, Repr(n)`hash
    ensures w.Valid() && w.Files() == WriteTree(sha, t, old(w.Files()))
    ensures Coherent(sha, Repr(n))
    decreases t, 0
  {
    hide HashNode;
    hide Represents;
    hide MemNode.Valid;
    hide Ordered;
    hide PairBytes;
    Accessors(sha, n, t);
    ghost var before := w.Files();
    var preTrees := U8(U32(w.leafCounter - w.branchCounter));
    var left, right := LeftOf(n), RightOf(n);
    SizeCountsLeaves(t.left);
    SizeCountsLeaves(t.right);
    WriteTreeCounts(sha, t.left, before);
    WriteRecursive(w, sha, left, t.left);
    var keyLeaf := w.leafCounter;
    U32Exact(keyLeaf);
    WriteTreeCounts(sha, t.right, w.Files());
    WriteRecursive(w, sha, right, t.right);
    var hash := Hash(sha, n, t);
    w.WriteBranch(VersionOf(n), U32(SizeOf(n)), U8(HeightOf(n)), preTrees, keyLeaf, hash);
  }

  /** `Tree.WriteSnapshot`: the files of the tree's value. */
  method WriteSnapshot(sha: Sha, tree: MemTree) returns (files: Snapshot)
    requires tree.Valid(sha) && Coherent(sha, Repr(tree.root))
    requires tree.state.root.Some? ==> Size(tree.state.root.value) < UINT32_LIMIT
    modifies Repr(tree.root)`hash
    ensures tree.Valid(sha) && Coherent(sha, Repr(tree.root))
    ensures files == if tree.state.root.None? then EMPTY else WriteTree(sha, tree.state.root.value, EMPTY)
  {
    hide HashNode;
    hide MemNode.Valid;
    hide WriteTree;
    var w := new Writer();
    if tree.root != Nil {
      WriteRecursive(w, sha, tree.root, tree.state.root.value);
    }
    files := Snapshot(w.nodes, w.leaves, w.kvs);
  }
}
