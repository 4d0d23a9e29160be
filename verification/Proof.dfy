/** ICS 23 proofs: what the tree produces, and that a verifier's computation over it arrives at the
    root hash. */
module Proofs {
  import opened Bytes
  import opened Encoding
  import opened AvlTree
  import opened AvlHeight
  import opened AvlCorrectness
  import opened MerkleHash
  import opened Snapshot
  import opened Lookup
  import opened MemNodes
  import opened MemTrees
  import opened Exports

  datatype LeafOp = LeafOp(prefix: Bytes)

  datatype InnerOp = InnerOp(prefix: Bytes, suffix: Bytes)

  datatype ExistenceProof = ExistenceProof(key: Bytes, value: Bytes, leaf: LeafOp, path: seq<InnerOp>)

  datatype NonExistenceProof =
    NonExistenceProof(key: Bytes, left: Option<ExistenceProof>, right: Option<ExistenceProof>)

  // ----- The verifier's side (ICS 23 with the IAVL operations) -----

  /** The leaf operation: SHA-256 over prefix, length-prefixed key and length-prefixed value digest. */
  function ApplyLeaf(sha: Sha, op: LeafOp, key: Bytes, value: Bytes): Bytes {
    Digest(sha, op.prefix + EncodeBytes(key) + EncodeBytes(Digest(sha, value)))
  }

  function ApplyInner(sha: Sha, op: InnerOp, child: Bytes): Bytes {
    Digest(sha, op.prefix + child + op.suffix)
  }

  function Fold(sha: Sha, ops: seq<InnerOp>, hash: Bytes): Bytes
    decreases |ops|
  {
    if ops == [] then hash else Fold(sha, ops[1..], ApplyInner(sha, ops[0], hash))
  }

  /** The root hash that a proof commits to. */
  function Calculate(sha: Sha, p: ExistenceProof): Bytes {
    Fold(sha, p.path, ApplyLeaf(sha, p.leaf, p.key, p.value))
  }

  lemma {:induction false} FoldAppend(sha: Sha, ops: seq<InnerOp>, op: InnerOp, hash: Bytes)
    ensures Fold(sha, ops + [op], hash) == ApplyInner(sha, op, Fold(sha, ops, hash))
    decreases |ops|
  {
    hide ApplyInner;
    if ops != [] {
      assert (ops + [op])[1..] == ops[1..] + [op];
      FoldAppend(sha, ops[1..], op, ApplyInner(sha, ops[0], hash));
    }
  }

  // ----- The path from the root to the leaf -----

  /** `iavl.ProofInnerNode`: the hash of the sibling is on its own side, the other side is empty. */
  datatype PathNode = PathNode(height: int, size: nat, version: nat, left: Bytes, right: Bytes)

  function PathNodeOf(sha: Sha, t: Tree, key: Bytes): PathNode
    requires t.Branch?
  {
    if Less(key, t.key) then PathNode(I8(t.height), t.size, t.version, [], HashNode(sha, t.right))
    else PathNode(I8(t.height), t.size, t.version, HashNode(sha, t.left), [])
  }

  function ChildFor(t: Tree, key: Bytes): Tree
    requires t.Branch?
  {
    if Less(key, t.key) then t.left else t.right
  }

  function Path(sha: Sha, t: Tree, key: Bytes): seq<PathNode>
    decreases t
  {
    if t.Leaf? then [] else [PathNodeOf(sha, t, key)] + Path(sha, ChildFor(t, key), key)
  }

  /** The leaf that the search for `key` ends in. */
  function LeafFor(t: Tree, key: Bytes): (leaf: Tree)
    ensures leaf.Leaf?
    decreases t
  {
    if t.Leaf? then t else LeafFor(ChildFor(t, key), key)
  }

  lemma PathUnfolds(sha: Sha, t: Tree, key: Bytes)
    ensures t.Leaf? ==> Path(sha, t, key) == [] && LeafFor(t, key) == t
    ensures t.Branch? ==> ChildFor(t, key) < t && LeafFor(t, key) == LeafFor(ChildFor(t, key), key)
    ensures t.Branch? ==> Path(sha, t, key) == [PathNodeOf(sha, t, key)] + Path(sha, ChildFor(t, key), key)
  {}

  /** The search ends in the leaf of `key` exactly when there is one. */
  lemma {:induction false} LeafForKey(t: Tree, key: Bytes)
    requires Ordered(t)
    ensures var leaf := LeafFor(t, key);
      && (leaf.key == key <==> key in Contents(t))
      && (leaf.key == key ==> leaf.value == Contents(t)[key])
    decreases t
  {
    hide Compare;
    if t.Branch? {
      KeySide(t, key);
      LeafForKey(ChildFor(t, key), key);
    }
  }

  // ----- Turning the path into operations -----

  const LENGTH_BYTE: Byte := 0x20

  function LeafOpOf(version: nat): LeafOp {
    LeafOp(Varint(0) + Varint(1) + Varint(version))
  }

  function InnerOpOf(n: PathNode): InnerOp {
    var prefix := Varint(n.height) + Varint(n.size) + Varint(n.version);
    if |n.left| > 0 then InnerOp(prefix + [LENGTH_BYTE] + n.left + [LENGTH_BYTE], [])
    else InnerOp(prefix + [LENGTH_BYTE], [LENGTH_BYTE] + n.right)
  }

  /** The operations from the leaf up. */
  function InnerOps(path: seq<PathNode>): seq<InnerOp> {
    if path == [] then [] else InnerOps(path[1..]) + [InnerOpOf(path[0])]
  }

  /** `convertInnerOps`: walks the path backwards. */
  method ConvertInnerOps(path: seq<PathNode>) returns (steps: seq<InnerOp>)
    ensures steps == InnerOps(path)
  {
    hide InnerOpOf;
    steps := [];
    var i := |path|;
    while i > 0
      invariant 0 <= i <= |path| && steps == InnerOps(path[i..])
    {
      i := i - 1;
      assert path[i..][1..] == path[i + 1..];
      steps := steps + [InnerOpOf(path[i])];
    }
    assert path[0..] == path;
  }

  /** One inner operation rebuilds the hash of a branch from the hash of the child on the path. */
  lemma InnerOpHashes(sha: Sha, t: Tree, key: Bytes)
    requires t.Branch? && t.height < 0x80
    ensures ApplyInner(sha, InnerOpOf(PathNodeOf(sha, t, key)), HashNode(sha, ChildFor(t, key))) == HashNode(sha, t)
  {
    hide HashNode;
    hide Varint;
    hide Less;
    hide Digest;
    var l, r := HashNode(sha, t.left), HashNode(sha, t.right);
    var meta := Varint(t.height) + Varint(t.size) + Varint(t.version);
    assert HashNode(sha, t) == BranchHash(sha, t.height, t.size, t.version, l, r) by { HashOfBranch(sha, t); }
    Prefixed32(l);
    Prefixed32(r);
    hide EncodeBytes;
    assert I8(t.height) == t.height;
    assert meta + [LENGTH_BYTE] + l + [LENGTH_BYTE] + r + [] == meta + ([LENGTH_BYTE] + l) + ([LENGTH_BYTE] + r);
    assert meta + [LENGTH_BYTE] + l + ([LENGTH_BYTE] + r) == meta + ([LENGTH_BYTE] + l) + ([LENGTH_BYTE] + r);
  }

  lemma HashOfBranch(sha: Sha, t: Tree)
    requires t.Branch?
    ensures HashNode(sha, t)
      == BranchHash(sha, t.height, t.size, t.version, HashNode(sha, t.left), HashNode(sha, t.right))
  {
    hide BranchHash;
  }

  lemma Prefixed32(h: Bytes)
    requires |h| == HASH_SIZE
    ensures EncodeBytes(h) == [LENGTH_BYTE] + h
  {}

  /** Folding the inner operations over the hash of the leaf gives the root hash, byte for byte. */
  lemma {:induction false} FoldReachesRoot(sha: Sha, t: Tree, key: Bytes)
    requires Measured(t) && Height(t) < 0x80
    ensures Fold(sha, InnerOps(Path(sha, t, key)), HashNode(sha, LeafFor(t, key))) == HashNode(sha, t)
    decreases t
  {
    if t.Branch? {
      var child, node := ChildFor(t, key), PathNodeOf(sha, t, key);
      assert Measured(child) && Height(child) < 0x80;
      FoldReachesRoot(sha, child, key);
      InnerOpHashes(sha, t, key);
      hide HashNode;
      hide PathNodeOf;
      hide InnerOpOf;
      hide ApplyInner;
      hide ChildFor;
      hide Less;
      hide Fold;
      var ops := InnerOps(Path(sha, child, key));
      assert Path(sha, t, key)[1..] == Path(sha, child, key);
      assert InnerOps(Path(sha, t, key)) == ops + [InnerOpOf(node)];
      FoldAppend(sha, ops, InnerOpOf(node), HashNode(sha, LeafFor(t, key)));
    } else {
      hide HashNode;
    }
  }

  lemma LeafOpHashes(sha: Sha, t: Tree)
    requires t.Leaf?
    ensures ApplyLeaf(sha, LeafOpOf(t.version), t.key, t.value) == HashNode(sha, t)
  {
    hide Varint;
    hide EncodeBytes;
  }

  /** `pathToLeaf`: descends from the root, hashing the sibling at each branch. */
  method PathToLeaf(sha: Sha, root: Node, key: Bytes, ghost t: Tree)
    returns (path: seq<PathNode>, leaf: Node, found: bool)
    requires Holds(sha, root, t) && Coherent(sha, Repr(root)) && Measured(t)
    modifies Repr(root)`hash
    ensures Coherent(sha, Repr(root)) && path == Path(sha, t, key)
    ensures Holds(sha, leaf, LeafFor(t, key)) && found == (LeafFor(t, key).key == key)
  {
    hide HashNode;
    hide Represents;
    hide MemNode.Valid;
    hide Ordered;
    hide Less;
    hide Path;
    hide LeafFor;
    hide ChildFor;
    hide Measured;
    hide Coherent;
    hide PathNodeOf;
    path := [];
    var node := root;
    ghost var cur := t;
    HeightAndKey(sha, node, cur);
    while HeightOf(node) != 0
      invariant Holds(sha, node, cur) && Measured(cur) && Repr(node) <= Repr(root)
      invariant Coherent(sha, Repr(root)) && HeightOf(node) == Height(cur)
      invariant path + Path(sha, cur, key) == Path(sha, t, key) && LeafFor(cur, key) == LeafFor(t, key)
      decreases cur
    {
      PathUnfolds(sha, cur, key);
      PathMoves(path, PathNodeOf(sha, cur, key), Path(sha, ChildFor(cur, key), key));
      path, node := Descend(sha, root, node, key, path, cur);
      cur := ChildFor(cur, key);
    }
    HeightAndKey(sha, node, cur);
    PathUnfolds(sha, cur, key);
    leaf, found := node, KeyOf(node) == key;
  }

  lemma PathMoves(path: seq<PathNode>, x: PathNode, rest: seq<PathNode>)
    ensures path + ([x] + rest) == path + [x] + rest
  {}

  lemma HeightAndKey(sha: Sha, n: Node, t: Tree)
    requires Holds(sha, n, t) && Measured(t)
    ensures HeightOf(n) == Height(t) && KeyOf(n) == t.key && (t.Leaf? <==> Height(t) == 0)
  {
    hide HashNode;
    hide Represents;
    hide MemNode.Valid;
    hide Ordered;
    Accessors(sha, n, t);
  }

  /** One step of the descent. */
  method Descend(sha: Sha, root: Node, node: Node, key: Bytes, path: seq<PathNode>, ghost t: Tree)
    returns (path': seq<PathNode>, child: Node)
    requires Holds(sha, node, t) && t.Branch? && Measured(t) && Repr(node) <= Repr(root)
    requires Coherent(sha, Repr(root))
    modifies Repr(root)`hash
    ensures Coherent(sha, Repr(root)) && path' == path + [PathNodeOf(sha, t, key)]
    ensures Holds(sha, child, ChildFor(t, key)) && Measured(ChildFor(t, key)) && Repr(child) <= Repr(root)
    ensures HeightOf(child) == Height(ChildFor(t, key))
  {
    hide HashNode;
    hide Represents;
    hide MemNode.Valid;
    hide Ordered;
    hide Less;
    Accessors(sha, node, t);
    assert Measured(t.left) && Measured(t.right);
    if Less(key, KeyOf(node)) {
      var hash := Hash(sha, RightOf(node), t.right);
      path' := path + [PathNode(I8(HeightOf(node)), SizeOf(node), VersionOf(node), [], hash)];
      child := LeftOf(node);
    } else {
      var hash := Hash(sha, LeftOf(node), t.left);
      path' := path + [PathNode(I8(HeightOf(node)), SizeOf(node), VersionOf(node), hash, [])];
      child := RightOf(node);
    }
    HeightAndKey(sha, child, ChildFor(t, key));
  }

  /** What an existence proof for `key` has to be. */
  ghost predicate Proves(sha: Sha, t: Tree, key: Bytes, p: ExistenceProof) {
    && p.key == key && key in Contents(t) && p.value == Contents(t)[key] && Calculate(sha, p) == HashNode(sha, t)
    && FollowsPath(sha, t, key, p)
  }

  /** The operations are those of the leaf and of the branches above it. */
  ghost predicate FollowsPath(sha: Sha, t: Tree, key: Bytes, p: ExistenceProof) {
    p.leaf == LeafOpOf(LeafFor(t, key).version) && p.path == InnerOps(Path(sha, t, key))
  }

  /** `createExistenceProof`. */
  method CreateExistenceProof(sha: Sha, root: Node, key: Bytes, ghost t: Tree)
    returns (p: ExistenceProof, found: bool)
    requires Holds(sha, root, t) && Coherent(sha, Repr(root)) && WellFormed(t) && Size(t) < INT64_LIMIT
    modifies Repr(root)`hash
    ensures Coherent(sha, Repr(root)) && found == (key in Contents(t))
    ensures found ==> Proves(sha, t, key, p)
  {
    assert Measured(t);
    hide HashNode;
    hide Represents;
    hide MemNode.Valid;
    hide WellFormed;
    hide Measured;
    hide Contents;
    hide LeafFor;
    hide Path;
    hide LeafOpOf;
    hide Proves;
    PathProves(sha, t, key);
    var path, leaf, ok := PathToLeaf(sha, root, key, t);
    Accessors(sha, leaf, LeafFor(t, key));
    var ops := ConvertInnerOps(path);
    p := ExistenceProof(KeyOf(leaf), ValueOf(leaf), LeafOpOf(VersionOf(leaf)), ops);
    found := ok;
  }

  lemma PathProves(sha: Sha, t: Tree, key: Bytes)
    requires WellFormed(t) && Size(t) < INT64_LIMIT
    ensures var leaf := LeafFor(t, key);
      && (leaf.key == key <==> key in Contents(t))
      && (leaf.key == key ==>
            Proves(sha, t, key, ExistenceProof(leaf.key, leaf.value, LeafOpOf(leaf.version), InnerOps(Path(sha, t, key)))))
  {
    LeafForKey(t, key);
    HeightBound(t);
    FoldReachesRoot(sha, t, key);
    LeafOpHashes(sha, LeafFor(t, key));
    hide HashNode;
    hide WellFormed;
    hide Contents;
    hide LeafFor;
    hide Path;
    hide LeafOpOf;
    hide ApplyLeaf;
    hide Fold;
  }

  datatype MembershipResult = Proof(p: ExistenceProof) | KeyNotFound | NoRoot

  /** `GetMembershipProof`. On an empty tree the Go code dereferences a nil root. */
  method GetMembershipProof(sha: Sha, tree: MemTree, key: Bytes) returns (r: MembershipResult)
    requires tree.Valid(sha) && Coherent(sha, Repr(tree.root))
    requires tree.state.root.Some? ==> Size(tree.state.root.value) < INT64_LIMIT
    modifies Repr(tree.root)`hash
    ensures tree.Valid(sha) && Coherent(sha, Repr(tree.root))
    ensures r.NoRoot? <==> tree.state.root.None?
    ensures r.Proof? <==> key in RootContents(tree.state.root)
    ensures r.Proof? ==> Proves(sha, tree.state.root.value, key, r.p)
  {
    hide HashNode;
    hide MemNode.Valid;
    hide Proves;
    if tree.root == Nil {
      return NoRoot;
    }
    var p, found := CreateExistenceProof(sha, tree.root, key, tree.state.root.value);
    r := if found then Proof(p) else KeyNotFound;
  }

  // ----- Non-membership -----

  /** `k` is the greatest key below `key`. */
  ghost predicate IsPredecessor(m: map<Bytes, Bytes>, key: Bytes, k: Bytes) {
    k in m && Less(k, key) && forall k' :: k' in m && Less(k', key) ==> !Less(k, k')
  }

  /** `k` is the smallest key above `key`. */
  ghost predicate IsSuccessor(m: map<Bytes, Bytes>, key: Bytes, k: Bytes) {
    k in m && Less(key, k) && forall k' :: k' in m && Less(key, k') ==> !Less(k', k)
  }

  /** The items at the two sides of the rank of an absent key are its neighbours. */
  lemma NeighboursAtRank(t: Tree, key: Bytes, rank: nat)
    requires WellFormed(t) && key !in Contents(t) && IsRank(Items(t), key, rank)
    ensures var items, m := Items(t), Contents(t);
      && (rank >= 1 ==> IsPredecessor(m, key, items[rank - 1].0))
      && (rank == 0 ==> forall k :: k in m ==> !Less(k, key))
      && (rank < |items| ==> IsSuccessor(m, key, items[rank].0))
      && (rank == |items| ==> forall k :: k in m ==> !Less(key, k))
  {
    var items, m := Items(t), Contents(t);
    ItemsListContents(t);
    hide Less;
    hide Items;
    hide Contents;
    hide IsPredecessor;
    hide IsSuccessor;
    BelowRank(items, m, key, rank);
    AboveRank(items, m, key, rank);
  }

  lemma BelowRank(items: seq<(Bytes, Bytes)>, m: map<Bytes, Bytes>, key: Bytes, rank: nat)
    requires Increasing(items) && Lists(items, m) && IsRank(items, key, rank)
    ensures if rank >= 1 then IsPredecessor(m, key, items[rank - 1].0) else forall k :: k in m ==> !Less(k, key)
  {
    hide Compare;
    forall k | k in m && Less(k, key) ensures rank >= 1 && !Less(items[rank - 1].0, k) {
      var i :| 0 <= i < |items| && items[i] == (k, m[k]);
      assert i < rank;
      CompareFlips(k, items[rank - 1].0);
    }
  }

  lemma AboveRank(items: seq<(Bytes, Bytes)>, m: map<Bytes, Bytes>, key: Bytes, rank: nat)
    requires Increasing(items) && Lists(items, m) && IsRank(items, key, rank) && key !in m
    ensures if rank < |items| then IsSuccessor(m, key, items[rank].0) else forall k :: k in m ==> !Less(key, k)
  {
    hide Compare;
    forall k | k in m && Less(key, k) ensures rank < |items| && !Less(k, items[rank].0) {
      var i :| 0 <= i < |items| && items[i] == (k, m[k]);
      CompareFlips(key, k);
      assert i >= rank;
      CompareFlips(items[rank].0, k);
    }
    if rank < |items| { CompareFlips(items[rank].0, key); }
  }

  /** What a non-existence proof for an absent `key` has to be. */
  ghost predicate ProvesAbsence(sha: Sha, t: Tree, key: Bytes, p: NonExistenceProof) {
    var m := Contents(t);
    && p.key == key
    && (match p.left
        case Some(l) => IsPredecessor(m, key, l.key) && Proves(sha, t, l.key, l)
        case None => forall k :: k in m ==> !Less(k, key))
    && (match p.right
        case Some(r) => IsSuccessor(m, key, r.key) && Proves(sha, t, r.key, r)
        case None => forall k :: k in m ==> !Less(key, k))
  }

  /** `GetNonMembershipProof`. */
  method GetNonMembershipProof(sha: Sha, tree: MemTree, key: Bytes) returns (r: Option<NonExistenceProof>)
    requires tree.Valid(sha) && Coherent(sha, Repr(tree.root))
    requires tree.state.root.Some? ==> Size(tree.state.root.value) < UINT32_LIMIT
    modifies Repr(tree.root)`hash
    ensures tree.Valid(sha) && Coherent(sha, Repr(tree.root))
    ensures r.Some? <==> key !in RootContents(tree.state.root)
    ensures r.Some? ==> match tree.state.root
                        case None => r.value == NonExistenceProof(key, None, None)
                        case Some(t) => ProvesAbsence(sha, t, key, r.value)
  {
    hide HashNode;
    hide MemNode.Valid;
    hide ProvesAbsence;
    if tree.root == Nil {
      return Some(NonExistenceProof(key, None, None));
    }
    var p := ProveAbsence(sha, tree.root, key, tree.state.root.value);
    return p;
  }

  method ProveAbsence(sha: Sha, root: Node, key: Bytes, ghost t: Tree) returns (r: Option<NonExistenceProof>)
    requires Holds(sha, root, t) && Coherent(sha, Repr(root)) && WellFormed(t) && Size(t) < UINT32_LIMIT
    modifies Repr(root)`hash
    ensures Coherent(sha, Repr(root))
    ensures r.Some? <==> key !in Contents(t)
    ensures r.Some? ==> ProvesAbsence(sha, t, key, r.value)
  {
    hide HashNode;
    hide Represents;
    hide MemNode.Valid;
    hide Ordered;
    hide Balanced;
    hide Proves;
    hide IsPredecessor;
    hide IsSuccessor;
    var val, idx := MemNodes.Get(sha, root, key, t);
    if val.Some? {
      return None;
    }
    NeighboursAtRank(t, key, idx);
    var left, right: Option<ExistenceProof> := None, None;
    if idx >= 1 {
      left := ProveItem(sha, root, idx - 1, t);
    }
    right := ProveItem(sha, root, idx, t);
    return Some(NonExistenceProof(key, left, right));
  }

  /** The existence proof of the item with the given rank, if there is one. */
  method ProveItem(sha: Sha, root: Node, index: nat, ghost t: Tree) returns (r: Option<ExistenceProof>)
    requires Holds(sha, root, t) && Coherent(sha, Repr(root)) && WellFormed(t) && index <= Size(t) < UINT32_LIMIT
    modifies Repr(root)`hash
    ensures Coherent(sha, Repr(root)) && |Items(t)| == Size(t)
    ensures r.Some? <==> index < Size(t)
    ensures r.Some? ==> r.value.key == Items(t)[index].0 && Proves(sha, t, r.value.key, r.value)
  {
    hide HashNode;
    hide Represents;
    hide MemNode.Valid;
    assert Measured(t) && Ordered(t);
    ItemsCount(t);
    ItemsListContents(t);
    hide WellFormed;
    var item := GetByIndex(sha, root, index, t);
    if item.None? {
      return None;
    }
    var p, found := CreateExistenceProof(sha, root, item.value.0, t);
    return Some(p);
  }
}
