/** Writing a tree in post-order, and why the result can be read back without child pointers. */
module SnapshotWriter {
  import opened Bytes
  import opened Encoding
  import opened AvlTree
  import opened AvlHeight
  import opened MerkleHash
  import opened Snapshot

  // ----- Appending to the three files -----

  function PairBytes(key: Bytes, value: Bytes): (r: Bytes)
    ensures |r| == 8 + |key| + |value|
  {
    LittleEndian(|key|, 4) + key + LittleEndian(|value|, 4) + value
  }

  function AppendLeaf(s: Snapshot, version: nat, key: Bytes, value: Bytes, hash: Bytes): Snapshot {
    s.(leaves := s.leaves + [LeafRecord(version, U32(|key|), |s.kvs|, hash)], kvs := s.kvs + PairBytes(key, value))
  }

  function AppendBranch(s: Snapshot, record: BranchRecord): Snapshot {
    s.(nodes := s.nodes + [record])
  }

  /** The files after the whole of `t` has been appended: left subtree, right subtree, branch. */
  function WriteTree(sha: Sha, t: Tree, s: Snapshot): Snapshot {
    match t
    case Leaf(k, v, ver) => AppendLeaf(s, ver, k, v, HashNode(sha, t))
    case Branch(_, ver, h, size, l, r) =>
      var preTrees := U8(U32(|s.leaves| - |s.nodes|));
      var mid := WriteTree(sha, l, s);
      var record := BranchRecord(U8(h), preTrees, ver, U32(size), U32(|mid.leaves|), HashNode(sha, t));
      AppendBranch(WriteTree(sha, r, mid), record)
  }

  lemma {:induction false} WriteTreeCounts(sha: Sha, t: Tree, s: Snapshot)
    requires Measured(t)
    ensures |WriteTree(sha, t, s).leaves| == |s.leaves| + Size(t)
    ensures |WriteTree(sha, t, s).nodes| == |s.nodes| + Size(t) - 1
  {
    if t.Branch? {
      WriteTreeCounts(sha, t.left, s);
      WriteTreeCounts(sha, t.right, WriteTree(sha, t.left, s));
    }
  }

  /** `snapshotWriter`: the three output files and the counters kept beside them. */
  class Writer {
    var nodes: seq<BranchRecord>
    var leaves: seq<LeafRecord>
    var kvs: Bytes
    var branchCounter: nat
    var leafCounter: nat
    var kvsOffset: nat

    ghost predicate Valid()
      reads this
    {
      branchCounter == |nodes| && leafCounter == |leaves| && kvsOffset == |kvs|
    }

    ghost function Files(): Snapshot
      reads this
    {
      Snapshot(nodes, leaves, kvs)
    }

    constructor ()
      ensures Valid() && Files() == Snapshot([], [], [])
    {
      nodes, leaves, kvs, branchCounter, leafCounter, kvsOffset := [], [], [], 0, 0, 0;
    }

    method WriteKeyValue(key: Bytes, value: Bytes)
      modifies this`kvs, this`kvsOffset
      ensures kvs == old(kvs) + PairBytes(key, value)
      ensures kvsOffset == old(kvsOffset) + |PairBytes(key, value)|
    {
      kvs := kvs + LittleEndian(|key|, 4);
      kvs := kvs + key;
      kvs := kvs + LittleEndian(|value|, 4);
      kvs := kvs + value;
      kvsOffset := kvsOffset + 4 + 4 + |key| + |value|;
    }

    method WriteLeaf(version: nat, key: Bytes, value: Bytes, hash: Bytes)
      requires Valid() && leafCounter + 1 < UINT32_LIMIT
      modifies this
      ensures Valid() && Files() == AppendLeaf(old(Files()), version, key, value, hash)
    {
      var record := LeafRecord(version, U32(|key|), kvsOffset, hash);
      WriteKeyValue(key, value);
      leaves := leaves + [record];
      leafCounter := U32(leafCounter + 1);
    }

    method WriteBranch(version: nat, size: nat, height: nat, preTrees: nat, keyLeaf: nat, hash: Bytes)
      requires Valid() && branchCounter + 1 < UINT32_LIMIT
      modifies this
      ensures Valid()
      ensures Files() == AppendBranch(old(Files()), BranchRecord(height, preTrees, version, size, keyLeaf, hash))
    {
      nodes := nodes + [BranchRecord(height, preTrees, version, size, keyLeaf, hash)];
      branchCounter := U32(branchCounter + 1);
    }
  }

  // ----- Layout inversion -----

  /** Keys and values whose lengths fit the four-byte length fields. */
  ghost predicate Storable(t: Tree) {
    match t
    case Leaf(k, v, _) => |k| < UINT32_LIMIT && |v| < UINT32_LIMIT
    case Branch(_, _, _, _, l, r) => Storable(l) && Storable(r)
  }

  ghost predicate Extends(s: Snapshot, s': Snapshot) {
    s.nodes <= s'.nodes && s.leaves <= s'.leaves && s.kvs <= s'.kvs
  }

  lemma LeafKeyValueExtends(s: Snapshot, s': Snapshot, index: nat)
    requires Extends(s, s') && LeafKeyValue(s, index).Some?
    ensures LeafKeyValue(s', index) == LeafKeyValue(s, index)
    ensures s'.leaves[index] == s.leaves[index]
  {
    var leaf := s.leaves[index];
    var a := leaf.keyOffset + 4;
    var b := a + leaf.keyLen;
    assert s'.kvs[b..b + 4] == s.kvs[b..b + 4];
    var c := b + 4 + FromLittleEndian(s.kvs[b..b + 4]);
    assert s'.kvs[a..b] == s.kvs[a..b] && s'.kvs[b + 4..c] == s.kvs[b + 4..c];
  }

  lemma {:induction false} WriteTreeExtends(sha: Sha, t: Tree, s: Snapshot)
    ensures Extends(s, WriteTree(sha, t, s))
  {
    hide HashNode;
    if t.Branch? {
      WriteTreeExtends(sha, t.left, s);
      WriteTreeExtends(sha, t.right, WriteTree(sha, t.left, s));
    }
  }

  lemma AppendLeafReadsBack(s: Snapshot, version: nat, key: Bytes, value: Bytes, hash: Bytes)
    requires |key| < UINT32_LIMIT && |value| < UINT32_LIMIT
    ensures LeafKeyValue(AppendLeaf(s, version, key, value, hash), |s.leaves|) == Some((key, value))
  {
    var o, k, v := |s.kvs|, LittleEndian(|key|, 4), LittleEndian(|value|, 4);
    var kvs := s.kvs + PairBytes(key, value);
    assert kvs == s.kvs + k + key + v + value;
    var a := o + 4 + |key|;
    var s' := AppendLeaf(s, version, key, value, hash);
    assert s'.leaves[|s.leaves|] == LeafRecord(version, U32(|key|), o, hash);
    assert kvs[o + 4..a] == key && kvs[a..a + 4] == v && kvs[a + 4..a + 4 + |value|] == value;
    WordSizes();
    LittleEndianRoundTrip(|value|, 4);
    U32Exact(|key|);
  }

  /** The pending-subtree count plus the height still to be descended fits a byte. */
  ghost predicate Room(t: Tree, s: Snapshot) {
    && |s.nodes| <= |s.leaves| && |s.leaves| + Size(t) < UINT32_LIMIT
    && |s.leaves| - |s.nodes| + Height(t) < 0x100
  }

  /** Once written, a tree is stored in every later state of the files. */
  lemma {:induction false} WriteTreeLaysOut(sha: Sha, t: Tree, s: Snapshot, later: Snapshot)
    requires Measured(t) && Storable(t) && Room(t, s) && Extends(WriteTree(sha, t, s), later)
    ensures LaidOut(sha, later, t, |s.leaves|, |s.nodes|)
  {
    if t.Leaf? {
      WriteLeafLaysOut(sha, t, s, later);
    } else {
      hide LaidOut;
      hide WriteTree;
      hide Extends;
      hide RootRecordAt;
      var mid := WriteTree(sha, t.left, s);
      SizeCountsLeaves(t.left);
      SizeCountsLeaves(t.right);
      WriteTreeCounts(sha, t.left, s);
      PartsExtend(sha, t, s, later);
      WriteTreeLaysOut(sha, t.left, s, later);
      WriteTreeLaysOut(sha, t.right, mid, later);
      BranchLaysOut(sha, t, later, |s.leaves|, |s.nodes|, |mid.leaves|, |mid.nodes|);
    }
  }

  lemma WriteLeafLaysOut(sha: Sha, t: Tree, s: Snapshot, later: Snapshot)
    requires t.Leaf? && Storable(t) && Extends(WriteTree(sha, t, s), later)
    ensures LaidOut(sha, later, t, |s.leaves|, |s.nodes|)
  {
    hide LeafKeyValue;
    hide HashNode;
    AppendLeafReadsBack(s, t.version, t.key, t.value, HashNode(sha, t));
    LeafKeyValueExtends(WriteTree(sha, t, s), later, |s.leaves|);
  }

  lemma PartsExtend(sha: Sha, t: Tree, s: Snapshot, later: Snapshot)
    requires t.Branch? && Measured(t) && Room(t, s) && Extends(WriteTree(sha, t, s), later)
    ensures var mid := WriteTree(sha, t.left, s);
      Extends(mid, later) && Extends(WriteTree(sha, t.right, mid), later)
    ensures RootRecordAt(sha, t, later, |s.leaves|, |s.nodes|)
  {
    var mid, all := WriteTree(sha, t.left, s), WriteTree(sha, t, s);
    var end := WriteTree(sha, t.right, mid);
    assert Extends(mid, end) by { WriteTreeExtends(sha, t.right, mid); }
    assert Extends(end, all);
    hide WriteTree;
    ExtendsTransitive(mid, end, all);
    ExtendsTransitive(mid, all, later);
    ExtendsTransitive(end, all, later);
    assert RootRecordAt(sha, t, later, |s.leaves|, |s.nodes|) by {
      RootRecordExact(sha, t, s);
    }
  }

  lemma ExtendsTransitive(a: Snapshot, b: Snapshot, c: Snapshot)
    requires Extends(a, b) && Extends(b, c)
    ensures Extends(a, c)
  {}

  lemma BranchLaysOut(sha: Sha, t: Tree, s: Snapshot, l: nat, b: nat, midL: nat, midB: nat)
    requires t.Branch? && RootRecordAt(sha, t, s, l, b)
    requires midL == l + Size(t.left) && midB == b + Size(t.left) - 1
    requires LaidOut(sha, s, t.left, l, b) && LaidOut(sha, s, t.right, midL, midB)
    ensures LaidOut(sha, s, t, l, b)
  {
    hide HashNode;
    hide LeafKeyValue;
  }

  ghost predicate RootRecordAt(sha: Sha, t: Tree, s: Snapshot, l: nat, b: nat)
    requires t.Branch?
  {
    && b <= l && 2 <= t.size && b + t.size - 2 < |s.nodes|
    && s.nodes[b + t.size - 2] ==
       BranchRecord(t.height, l - b, t.version, t.size, l + Size(t.left), HashNode(sha, t))
  }

  /** The record written for the root of a subtree, with none of its casts losing anything. */
  lemma RootRecordExact(sha: Sha, t: Tree, s: Snapshot)
    requires t.Branch? && Measured(t) && Room(t, s)
    ensures RootRecordAt(sha, t, WriteTree(sha, t, s), |s.leaves|, |s.nodes|)
  {
    hide HashNode;
    hide U32;
    hide U8;
    var mid := WriteTree(sha, t.left, s);
    WriteTreeCounts(sha, t.left, s);
    WriteTreeCounts(sha, t.right, mid);
    SizeCountsLeaves(t);
    U32Exact(|s.leaves| - |s.nodes|);
    U32Exact(t.size);
    U32Exact(|mid.leaves|);
    U8Exact(|s.leaves| - |s.nodes|);
    U8Exact(t.height);
  }

  lemma U8Exact(n: nat)
    requires n < 0x100
    ensures U8(n) == n
  {}

  // ----- Whole snapshots -----

  const EMPTY := Snapshot([], [], [])

  /** `OpenSnapshot`: the root is the last branch, or the only leaf, or nothing. */
  function OpenRoot(s: Snapshot): Option<PersistedNode> {
    if |s.nodes| > 0 then Some(PersistedNode(s, false, U32(|s.nodes| - 1)))
    else if |s.leaves| > 0 then Some(PersistedNode(s, true, 0))
    else None
  }

  lemma RootIsStored(sha: Sha, s: Snapshot, t: Tree)
    requires Measured(t) && LaidOut(sha, s, t, 0, 0)
    requires |s.leaves| == Size(t) < UINT32_LIMIT && |s.nodes| + 1 == Size(t)
    ensures OpenRoot(s).Some? && Represents(sha, OpenRoot(s).value, t)
  {
    hide LeafKeyValue;
    hide HashNode;
    hide U32;
    SizeCountsLeaves(t);
    if t.Branch? { U32Exact(t.size - 2); }
  }

  /** Layout inversion: a written tree is found again from the last branch index alone. */
  lemma WrittenTreeIsStored(sha: Sha, t: Tree)
    requires Measured(t) && Balanced(t) && Storable(t) && Size(t) < UINT32_LIMIT
    ensures var root := OpenRoot(WriteTree(sha, t, EMPTY)); root.Some? && Represents(sha, root.value, t)
  {
    hide LaidOut;
    hide WriteTree;
    HeightBound(t);
    WriteTreeLaysOut(sha, t, EMPTY, WriteTree(sha, t, EMPTY));
    WriteTreeCounts(sha, t, EMPTY);
    RootIsStored(sha, WriteTree(sha, t, EMPTY), t);
  }

  /** `WriteSnapshot` then `OpenSnapshot` gives back the same tree, node for node, hashes included. */
  lemma SnapshotRoundTrip(sha: Sha, t: Tree)
    requires WellFormed(t) && Storable(t) && Size(t) < UINT32_LIMIT
    ensures var root := OpenRoot(WriteTree(sha, t, EMPTY));
      && root.Some? && Decode(root.value) == Some(t) && StoredHash(root.value) == Some(HashNode(sha, t))
  {
    hide WriteTree;
    hide Decode;
    hide HashNode;
    hide Represents;
    WrittenTreeIsStored(sha, t);
    StoredTreeDecodes(sha, OpenRoot(WriteTree(sha, t, EMPTY)).value, t);
  }
}
