/** The verifier of ICS 23 with its proof specification for IAVL trees: beside recomputing the root it checks the form of
    every operation, and that the two parts of a non-existence proof belong to neighbouring leaves. The proofs of the tree
    pass. */
module ProofChecks {
  import opened Bytes
  import opened Encoding
  import opened AvlTree
  import opened AvlHeight
  import opened AvlCorrectness
  import opened MerkleHash
  import opened Exports
  import opened Proofs

  // The proof specification: a leaf starts with a zero byte; a child hash with its length byte has 33 bytes; what is
  // before the children has 4 to 12 bytes, the length byte of the first one included.
  const LEAF_PREFIX: Byte := 0
  const CHILD_SIZE: nat := 33
  const MIN_PREFIX: nat := 4
  const MAX_PREFIX: nat := 12

  // ----- The verifier -----

  predicate LeafFits(op: LeafOp) {
    |op.prefix| > 0 && op.prefix[0] == LEAF_PREFIX
  }

  predicate InnerFits(op: InnerOp) {
    && MIN_PREFIX <= |op.prefix| <= MAX_PREFIX + CHILD_SIZE && op.prefix[0] != LEAF_PREFIX
    && |op.suffix| % CHILD_SIZE == 0
  }

  /** `VerifyMembership`. A leaf needs a key and a value. */
  predicate VerifyMembership(sha: Sha, root: Bytes, p: ExistenceProof, key: Bytes, value: Bytes) {
    && LeafFits(p.leaf) && (forall i :: 0 <= i < |p.path| ==> InnerFits(p.path[i]))
    && p.key == key != [] && p.value == value != [] && Calculate(sha, p) == root
  }

  /** The operation has room for the siblings of the left child, or of the right one. */
  predicate HasPadding(op: InnerOp, right: bool) {
    var before := if right then CHILD_SIZE else 0;
    before + MIN_PREFIX <= |op.prefix| <= before + MAX_PREFIX && |op.suffix| == CHILD_SIZE - before
  }

  predicate AlongEdge(path: seq<InnerOp>, right: bool) {
    forall i :: 0 <= i < |path| ==> HasPadding(path[i], right)
  }

  /** The paths part in a branch, to its left and its right child, and go on along the edges that face each other. */
  predicate LeftNeighbor(left: seq<InnerOp>, right: seq<InnerOp>) {
    left != [] && right != [] &&
    var m, n := |left| - 1, |right| - 1;
    if left[m] == right[n] then LeftNeighbor(left[..m], right[..n])
    else
      && HasPadding(left[m], false) && HasPadding(right[n], true)
      && AlongEdge(left[..m], true) && AlongEdge(right[..n], false)
  }

  /** `VerifyNonMembership`. */
  predicate VerifyNonMembership(sha: Sha, root: Bytes, p: NonExistenceProof, key: Bytes) {
    && (p.left.Some? ==> var l := p.left.value; VerifyMembership(sha, root, l, l.key, l.value) && Less(l.key, key))
    && (p.right.Some? ==> var r := p.right.value; VerifyMembership(sha, root, r, r.key, r.value) && Less(key, r.key))
    && match (p.left, p.right)
       case (None, None) => false
       case (None, Some(r)) => AlongEdge(r.path, false)
       case (Some(l), None) => AlongEdge(l.path, true)
       case (Some(l), Some(r)) => LeftNeighbor(l.path, r.path)
  }

  // ----- The form of the operations -----

  /** A tree with sizes and versions below 2^32. */
  ghost predicate Provable(t: Tree) {
    Measured(t) && Balanced(t) && Size(t) < UINT32_LIMIT && Stamped(t, UINT32_LIMIT - 1)
  }

  lemma {:induction false} UvarintShort(n: nat, k: nat)
    requires 1 <= k && n < Pow128(k)
    ensures |Uvarint(n)| <= k && (n > 0 ==> Uvarint(n)[0] > 0)
    decreases k
  {
    if n >= 128 { UvarintShort(n / 128, k - 1); }
  }

  lemma MetaLength(height: nat, size: nat, version: nat)
    requires 1 <= height <= 45 && size < UINT32_LIMIT && version < UINT32_LIMIT
    ensures var meta := Varint(height) + Varint(size) + Varint(version);
      3 <= |meta| <= 11 && meta[0] != LEAF_PREFIX
  {
    assert Pow128(1) == 128 && Pow128(2) == 0x4000 && Pow128(5) == 0x8_0000_0000;
    UvarintShort(2 * height, 1);
    UvarintShort(2 * size, 5);
    UvarintShort(2 * version, 5);
  }

  /** The operation of a branch shows which child is on the path. */
  lemma OpSide(sha: Sha, t: Tree, key: Bytes)
    requires Provable(t) && t.Branch?
    ensures var op := InnerOpOf(PathNodeOf(sha, t, key)); InnerFits(op) && HasPadding(op, !Less(key, t.key))
  {
    hide Less;
    hide Varint;
    hide HashNode;
    hide Balanced;
    HeightBound(t);
    MetaLength(t.height, t.size, t.version);
    assert I8(t.height) == t.height;
  }

  lemma ProvableChild(t: Tree, key: Bytes)
    requires Provable(t) && t.Branch?
    ensures Provable(ChildFor(t, key))
  {
    hide Less;
    StampedWeaken(t.left, t.version, UINT32_LIMIT - 1);
    StampedWeaken(t.right, t.version, UINT32_LIMIT - 1);
    SizeCountsLeaves(t.left);
    SizeCountsLeaves(t.right);
  }

  ghost function OpsFor(sha: Sha, t: Tree, key: Bytes): seq<InnerOp> {
    InnerOps(Path(sha, t, key))
  }

  lemma OpsUnfold(sha: Sha, t: Tree, key: Bytes)
    ensures t.Leaf? ==> OpsFor(sha, t, key) == []
    ensures t.Branch? ==> OpsFor(sha, t, key) == OpsFor(sha, ChildFor(t, key), key) + [InnerOpOf(PathNodeOf(sha, t, key))]
  {
    hide InnerOpOf;
    hide PathNodeOf;
    hide ChildFor;
    PathUnfolds(sha, t, key);
    if t.Branch? {
      assert Path(sha, t, key)[1..] == Path(sha, ChildFor(t, key), key);
    }
  }

  lemma {:induction false} OpsFit(sha: Sha, t: Tree, key: Bytes)
    requires Provable(t)
    ensures forall i :: 0 <= i < |OpsFor(sha, t, key)| ==> InnerFits(OpsFor(sha, t, key)[i])
    decreases t
  {
    hide OpsFor;
    hide InnerFits;
    hide Provable;
    OpsUnfold(sha, t, key);
    if t.Branch? {
      hide InnerOpOf;
      hide PathNodeOf;
      ProvableChild(t, key);
      OpSide(sha, t, key);
      OpsFit(sha, ChildFor(t, key), key);
    }
  }

  // ----- Edges and neighbours -----

  ghost predicate IsExtreme(t: Tree, key: Bytes, right: bool) {
    key in Keys(t) && forall k :: k in Keys(t) ==> if right then !Less(key, k) else !Less(k, key)
  }

  /** The greatest key is reached along the right edge, the smallest along the left one. */
  lemma {:induction false} ExtremeAlongEdge(sha: Sha, t: Tree, key: Bytes, right: bool)
    requires Provable(t) && Ordered(t) && IsExtreme(t, key, right)
    ensures AlongEdge(OpsFor(sha, t, key), right)
    decreases t
  {
    hide OpsFor;
    hide HasPadding;
    hide Provable;
    hide Compare;
    OpsUnfold(sha, t, key);
    if t.Branch? {
      hide InnerOpOf;
      hide PathNodeOf;
      ProvableChild(t, key);
      OpSide(sha, t, key);
      ExtremeSide(t, key, right);
      ExtremeAlongEdge(sha, ChildFor(t, key), key, right);
    }
  }

  lemma ExtremeSide(t: Tree, key: Bytes, right: bool)
    requires t.Branch? && Ordered(t) && IsExtreme(t, key, right)
    ensures Less(key, t.key) <==> !right
    ensures IsExtreme(ChildFor(t, key), key, right)
  {
    hide Compare;
    KeysNonEmpty(t.left);
    KeySide(t, key);
    if right {
      CompareFlips(key, t.key);
    } else {
      var k :| k in Keys(t.left);
      CompareFlips(k, key);
      if k != key { LessTransitive(key, k, t.key); }
    }
  }

  ghost predicate Adjacent(t: Tree, a: Bytes, b: Bytes) {
    a in Keys(t) && b in Keys(t) && Less(a, b) && forall k :: k in Keys(t) ==> !Less(a, k) || !Less(k, b)
  }

  /** The paths to neighbouring leaves pass the check of the verifier. */
  lemma {:induction false} AdjacentAreNeighbors(sha: Sha, t: Tree, a: Bytes, b: Bytes)
    requires Provable(t) && Ordered(t) && Adjacent(t, a, b)
    ensures LeftNeighbor(OpsFor(sha, t, a), OpsFor(sha, t, b))
    decreases t
  {
    hide OpsFor;
    hide HasPadding;
    hide AlongEdge;
    hide Provable;
    hide Compare;
    hide InnerOpOf;
    OpsUnfold(sha, t, a);
    OpsUnfold(sha, t, b);
    if t.Leaf? {
      CompareFlips(a, b);
    } else {
      AdjacentSides(t, a, b);
      ProvableChild(t, a);
      ProvableChild(t, b);
      Lasts(OpsFor(sha, ChildFor(t, a), a), InnerOpOf(PathNodeOf(sha, t, a)));
      Lasts(OpsFor(sha, ChildFor(t, b), b), InnerOpOf(PathNodeOf(sha, t, b)));
      if ChildFor(t, a) == ChildFor(t, b) && Less(a, t.key) == Less(b, t.key) {
        AdjacentAreNeighbors(sha, ChildFor(t, a), a, b);
      } else {
        OpSide(sha, t, a);
        OpSide(sha, t, b);
        ExtremeAlongEdge(sha, t.left, a, true);
        ExtremeAlongEdge(sha, t.right, b, false);
        SidesDiffer(InnerOpOf(PathNodeOf(sha, t, a)), InnerOpOf(PathNodeOf(sha, t, b)));
      }
    }
  }

  lemma Lasts(ops: seq<InnerOp>, op: InnerOp)
    ensures (ops + [op])[|ops|] == op && (ops + [op])[..|ops|] == ops
  {}

  lemma SidesDiffer(a: InnerOp, b: InnerOp)
    requires HasPadding(a, false) && HasPadding(b, true)
    ensures a != b
  {}

  lemma AdjacentSides(t: Tree, a: Bytes, b: Bytes)
    requires t.Branch? && Ordered(t) && Adjacent(t, a, b)
    ensures Less(a, t.key) == Less(b, t.key) ==> Adjacent(ChildFor(t, a), a, b)
    ensures Less(a, t.key) != Less(b, t.key) ==>
      && Less(a, t.key) && IsExtreme(t.left, a, true) && IsExtreme(t.right, b, false)
  {
    hide Compare;
    KeySide(t, a);
    KeySide(t, b);
    if Less(b, t.key) {
      LessTransitive(a, b, t.key);
    } else if Less(a, t.key) {
      forall k | k in Keys(t.left) ensures !Less(a, k) {
        CompareFlips(k, b);
        CompareFlips(b, t.key);
        if Less(b, k) { LessTransitive(b, k, t.key); }
        KeySide(t, k);
      }
      forall k | k in Keys(t.right) ensures !Less(k, b) {
        CompareFlips(a, k);
        KeySide(t, k);
        if Less(k, a) { LessTransitive(k, a, t.key); }
        assert k != a;
      }
    }
  }

  // ----- The proofs of the tree -----

  lemma LeafFitsAlways(version: nat)
    ensures LeafFits(LeafOpOf(version))
  {}

  /** A proof of a tree is accepted for its key exactly if key and value are not empty. */
  lemma MembershipVerifies(sha: Sha, t: Tree, key: Bytes, p: ExistenceProof)
    requires Provable(t) && Proves(sha, t, key, p)
    ensures VerifyMembership(sha, HashNode(sha, t), p, key, Contents(t)[key]) <==> key != [] && Contents(t)[key] != []
  {
    hide HashNode;
    hide Provable;
    hide LeafFits;
    hide InnerFits;
    hide LeafOpOf;
    hide Calculate;
    hide Contents;
    hide InnerOps;
    hide Path;
    hide LeafFor;
    OpsFit(sha, t, key);
    assert p.path == OpsFor(sha, t, key);
    LeafFitsAlways(LeafFor(t, key).version);
  }

  /** A non-existence proof is accepted exactly if the neighbours in it have keys and values. */
  lemma AbsenceVerifies(sha: Sha, t: Tree, key: Bytes, p: NonExistenceProof)
    requires Provable(t) && Ordered(t) && key !in Contents(t) && ProvesAbsence(sha, t, key, p)
    ensures VerifyNonMembership(sha, HashNode(sha, t), p, key) <==>
      && (p.left.Some? ==> p.left.value.key != [] && p.left.value.value != [])
      && (p.right.Some? ==> p.right.value.key != [] && p.right.value.value != [])
  {
    hide HashNode;
    hide Provable;
    hide VerifyMembership;
    hide Compare;
    hide AlongEdge;
    hide LeftNeighbor;
    if p.left.Some? { MembershipVerifies(sha, t, p.left.value.key, p.left.value); }
    if p.right.Some? { MembershipVerifies(sha, t, p.right.value.key, p.right.value); }
    NeighboursFit(sha, t, key, p);
  }

  ghost predicate PathsFit(p: NonExistenceProof) {
    match (p.left, p.right)
    case (None, None) => false
    case (None, Some(r)) => AlongEdge(r.path, false)
    case (Some(l), None) => AlongEdge(l.path, true)
    case (Some(l), Some(r)) => LeftNeighbor(l.path, r.path)
  }

  lemma NeighboursFit(sha: Sha, t: Tree, key: Bytes, p: NonExistenceProof)
    requires Provable(t) && Ordered(t) && key !in Contents(t) && ProvesAbsence(sha, t, key, p)
    ensures PathsFit(p)
  {
    hide HashNode;
    hide Provable;
    hide Compare;
    hide AlongEdge;
    hide LeftNeighbor;
    hide Calculate;
    KeysNonEmpty(t);
    var k :| k in Keys(t);
    CompareFlips(k, key);
    match (p.left, p.right)
    case (None, Some(r)) =>
      forall k | k in Keys(t) ensures !Less(k, r.key) { CompareFlips(k, key); }
      ExtremeAlongEdge(sha, t, r.key, false);
    case (Some(l), None) =>
      forall k | k in Keys(t) ensures !Less(l.key, k) { CompareFlips(k, key); }
      ExtremeAlongEdge(sha, t, l.key, true);
    case (Some(l), Some(r)) =>
      LessTransitive(l.key, key, r.key);
      forall k | k in Keys(t) ensures !Less(l.key, k) || !Less(k, r.key) { CompareFlips(k, key); }
      AdjacentAreNeighbors(sha, t, l.key, r.key);
    case (None, None) =>
  }
}
