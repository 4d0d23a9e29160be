/** The pointer-free snapshot: arrays of leaf and branch records in post-order, with child
    positions recovered by `uint32` arithmetic instead of being stored. */
module Snapshot {
  import opened Bytes
  import opened Encoding
  import opened AvlTree
  import opened AvlHeight
  import opened AvlCorrectness
  import opened MerkleHash

  /** Go's unsigned conversions: keep the low bits. */
  function U8(n: int): nat { n % 0x100 }

  function U32(n: int): nat { n % 0x1_0000_0000 }

  datatype BranchRecord =
    BranchRecord(height: nat, preTrees: nat, version: nat, size: nat, keyLeaf: nat, hash: Bytes)

  datatype LeafRecord =
    LeafRecord(version: nat, keyLen: nat, keyOffset: nat, hash: Bytes)

  datatype Snapshot = Snapshot(nodes: seq<BranchRecord>, leaves: seq<LeafRecord>, kvs: Bytes)

  /** `PersistedNode`: a position in one of the two record arrays. */
  datatype PersistedNode = PersistedNode(snapshot: Snapshot, isLeaf: bool, index: nat)

  // ----- Reading -----

  /** The key and value of a leaf, or None where Go would slice out of range. */
  function LeafKeyValue(s: Snapshot, index: nat): Option<(Bytes, Bytes)> {
    if index >= |s.leaves| then None else
    var leaf := s.leaves[index];
    var keyStart := leaf.keyOffset + 4;
    var keyEnd := keyStart + leaf.keyLen;
    if keyEnd + 4 > |s.kvs| then None else
    var valueStart := keyEnd + 4;
    var valueEnd := valueStart + FromLittleEndian(s.kvs[keyEnd..valueStart]);
    if valueEnd > |s.kvs| then None else
    Some((s.kvs[keyStart..keyEnd], s.kvs[valueStart..valueEnd]))
  }

  function GetStartLeaf(index: nat, size: nat, preTrees: nat): nat {
    U32(index + 2 - size + preTrees)
  }

  function GetEndLeaf(index: nat, preTrees: nat): nat {
    U32(index + preTrees + 1)
  }

  function GetLeftBranch(keyLeaf: nat, preTrees: nat): nat {
    U32(keyLeaf - preTrees - 2)
  }

  /** A branch position inside the array, which is what the accessors below need. */
  predicate IsBranch(p: PersistedNode) {
    !p.isLeaf && p.index < |p.snapshot.nodes|
  }

  function Record(p: PersistedNode): BranchRecord
    requires IsBranch(p)
  {
    p.snapshot.nodes[p.index]
  }

  function Left(p: PersistedNode): PersistedNode
    requires IsBranch(p)
  {
    var data := Record(p);
    var startLeaf := GetStartLeaf(p.index, data.size, data.preTrees);
    if U32(startLeaf + 1) == data.keyLeaf
    then p.(isLeaf := true, index := startLeaf)
    else p.(index := GetLeftBranch(data.keyLeaf, data.preTrees))
  }

  function Right(p: PersistedNode): PersistedNode
    requires IsBranch(p)
  {
    var data := Record(p);
    if data.keyLeaf == GetEndLeaf(p.index, data.preTrees)
    then p.(isLeaf := true, index := data.keyLeaf)
    else p.(index := U32(p.index - 1))
  }

  // ----- What it means for a tree to be stored at a position -----

  /** The records of `t` occupy the leaves from `l` on and the branches from `b` on. */
  ghost predicate LaidOut(sha: Sha, s: Snapshot, t: Tree, l: nat, b: nat) {
    match t
    case Leaf(k, v, ver) =>
      LeafKeyValue(s, l) == Some((k, v)) && s.leaves[l].version == ver && s.leaves[l].hash == HashNode(sha, t)
    case Branch(k, ver, h, size, left, right) =>
      && 2 <= size && b + size - 2 < |s.nodes|
      && l >= b
      && s.nodes[b + size - 2] == BranchRecord(h, l - b, ver, size, l + Size(left), HashNode(sha, t))
      && LaidOut(sha, s, left, l, b)
      && LaidOut(sha, s, right, l + Size(left), b + Size(left) - 1)
  }

  /** What `OpenSnapshot` checks of the array lengths, and that every leaf has a `uint32` index. */
  predicate Addressable(s: Snapshot) {
    |s.leaves| < UINT32_LIMIT && |s.nodes| + 1 == |s.leaves|
  }

  /** The tree `t` is stored at `p`. */
  ghost predicate Represents(sha: Sha, p: PersistedNode, t: Tree) {
    && Addressable(p.snapshot) && Measured(t) && p.isLeaf == t.Leaf?
    && if t.Leaf? then LaidOut(sha, p.snapshot, t, p.index, 0)
       else
         && IsBranch(p) && t.size <= p.index + 2
         && var b := p.index + 2 - t.size; LaidOut(sha, p.snapshot, t, b + Record(p).preTrees, b)
  }

  lemma {:induction false} LaidOutBounds(sha: Sha, s: Snapshot, t: Tree, l: nat, b: nat)
    requires LaidOut(sha, s, t, l, b) && Measured(t)
    ensures 1 <= Size(t) && l + Size(t) <= |s.leaves|
  {
    hide LeafKeyValue;
    hide HashNode;
    if t.Branch? {
      LaidOutBounds(sha, s, t.left, l, b);
      LaidOutBounds(sha, s, t.right, l + Size(t.left), b + Size(t.left) - 1);
    } else {
      LeafInRange(s, l);
    }
  }

  lemma LeafInRange(s: Snapshot, index: nat)
    requires LeafKeyValue(s, index).Some?
    ensures index < |s.leaves|
  {}

  /** Where the children of a stored branch are, computed without wrap-around. */
  lemma ChildPositions(sha: Sha, p: PersistedNode, t: Tree)
    requires t.Branch? && Represents(sha, p, t)
    ensures var b := p.index + 2 - t.size; var l := b + Record(p).preTrees; var n := Size(t.left);
      && Left(p).snapshot == Right(p).snapshot == p.snapshot
      && Left(p).isLeaf == t.left.Leaf? && Left(p).index == (if t.left.Leaf? then l else b + n - 2)
      && Right(p).isLeaf == t.right.Leaf? && Right(p).index == (if t.right.Leaf? then l + n else b + t.size - 3)
      && 0 <= b && l + 1 < UINT32_LIMIT && p.index + Record(p).preTrees + 1 < UINT32_LIMIT
      && (t.left.Branch? ==> 0 <= Record(p).keyLeaf - Record(p).preTrees - 2)
      && (t.right.Branch? ==> 0 <= p.index - 1)
  {
    hide LeafKeyValue;
    hide HashNode;
    hide U32;
    var d := Record(p);
    var b := p.index + 2 - t.size;
    LaidOutBounds(sha, p.snapshot, t, b + d.preTrees, b);
    SizeCountsLeaves(t.left);
    SizeCountsLeaves(t.right);
    U32Exact(b + d.preTrees);
    U32Exact(b + d.preTrees + 1);
    U32Exact(p.index + d.preTrees + 1);
    if t.left.Branch? { U32Exact(d.keyLeaf - d.preTrees - 2); }
    if t.right.Branch? { U32Exact(p.index - 1); }
  }

  lemma U32Exact(n: nat)
    requires n < UINT32_LIMIT
    ensures U32(n) == n
  {}

  /** Layout inversion, one level: `Left` and `Right` find the stored children. */
  lemma ChildrenRepresented(sha: Sha, p: PersistedNode, t: Tree)
    requires t.Branch? && Represents(sha, p, t)
    ensures Represents(sha, Left(p), t.left)
    ensures Represents(sha, Right(p), t.right)
  {
    hide LeafKeyValue;
    hide HashNode;
    hide Left;
    hide Right;
    hide U32;
    ChildPositions(sha, p, t);
    var b := p.index + 2 - t.size;
    var l := b + Record(p).preTrees;
    assert LaidOut(sha, p.snapshot, t.left, l, b);
    assert LaidOut(sha, p.snapshot, t.right, l + Size(t.left), b + Size(t.left) - 1);
    ChildRepresented(sha, Left(p), t.left, l, b);
    ChildRepresented(sha, Right(p), t.right, l + Size(t.left), b + Size(t.left) - 1);
  }

  /** A subtree laid out from `l` and `b` is stored at its last record. */
  lemma ChildRepresented(sha: Sha, p: PersistedNode, t: Tree, l: nat, b: nat)
    requires LaidOut(sha, p.snapshot, t, l, b) && Measured(t) && Addressable(p.snapshot)
    requires p.isLeaf == t.Leaf? && p.index == if t.Leaf? then l else b + Size(t) - 2
    ensures Represents(sha, p, t)
  {
    hide LeafKeyValue;
    hide HashNode;
  }

  /** The count of pending subtrees in a record plus the height of its branch never exceeds the height of
      the whole tree plus what was pending before it. */
  lemma {:induction false} PreTreesBelowHeight(sha: Sha, s: Snapshot, t: Tree, l: nat, b: nat, i: nat)
    requires LaidOut(sha, s, t, l, b) && Measured(t) && b <= i < b + Size(t) - 1
    ensures b <= l && i < |s.nodes| && s.nodes[i].preTrees + s.nodes[i].height <= l - b + Height(t)
  {
    hide HashNode;
    hide LeafKeyValue;
    if t.Branch? {
      var mid := b + Size(t.left) - 1;
      SizeCountsLeaves(t.left);
      SizeCountsLeaves(t.right);
      if i < mid {
        PreTreesBelowHeight(sha, s, t.left, l, b, i);
      } else if i < b + t.size - 2 {
        PreTreesBelowHeight(sha, s, t.right, l + Size(t.left), mid, i);
      }
    }
  }

  // ----- Keys, lookups and ranks -----

  /** `PersistedNode.Key`: a branch key is read from the leaf it points to. */
  function Key(p: PersistedNode): Option<Bytes> {
    var leaf := if p.isLeaf then Some(p.index) else if IsBranch(p) then Some(Record(p).keyLeaf) else None;
    if leaf.None? then None else
    match LeafKeyValue(p.snapshot, leaf.value)
    case Some((k, _)) => Some(k)
    case None => None
  }

  lemma {:induction false} LaidOutLeaves(sha: Sha, s: Snapshot, t: Tree, l: nat, b: nat)
    requires LaidOut(sha, s, t, l, b) && Measured(t)
    ensures |Items(t)| == Size(t)
    ensures forall i :: 0 <= i < Size(t) ==> LeafKeyValue(s, l + i) == Some(Items(t)[i])
  {
    hide LeafKeyValue;
    hide HashNode;
    if t.Branch? {
      var n := Size(t.left);
      LaidOutLeaves(sha, s, t.left, l, b);
      LaidOutLeaves(sha, s, t.right, l + n, b + n - 1);
      forall i | 0 <= i < Size(t) ensures LeafKeyValue(s, l + i) == Some(Items(t)[i]) {
        if i >= n { assert l + i == (l + n) + (i - n); }
      }
    }
  }

  lemma FirstItemIsMin(t: Tree, k: Bytes)
    requires Ordered(t) && IsMin(k, t)
    ensures |Items(t)| > 0 && Items(t)[0].0 == k
  {
    ItemsListContents(t);
    ListingHead(Items(t), Contents(t));
  }

  lemma KeyStored(sha: Sha, p: PersistedNode, t: Tree)
    requires Represents(sha, p, t) && Ordered(t)
    ensures Key(p) == Some(t.key)
  {
    hide LeafKeyValue;
    hide HashNode;
    hide Compare;
    if t.Branch? {
      var n := Size(t.left);
      var b := p.index + 2 - t.size;
      var l := b + Record(p).preTrees;
      SizeCountsLeaves(t.left);
      LaidOutLeaves(sha, p.snapshot, t.right, l + n, b + n - 1);
      FirstItemIsMin(t.right, t.key);
      assert LeafKeyValue(p.snapshot, (l + n) + 0) == Some(Items(t.right)[0]);
    }
  }

  // ----- Reading a whole tree back -----

  function Value(p: PersistedNode): Option<Bytes> {
    if !p.isLeaf then None else
    match LeafKeyValue(p.snapshot, p.index)
    case Some((_, v)) => Some(v)
    case None => None
  }

  function StoredHash(p: PersistedNode): Option<Bytes> {
    if p.isLeaf && p.index < |p.snapshot.leaves| then Some(p.snapshot.leaves[p.index].hash)
    else if IsBranch(p) then Some(Record(p).hash)
    else None
  }

  function Depth(p: PersistedNode): nat {
    if p.isLeaf then 0 else p.index + 1
  }

  /** The tree a reader sees by following the accessors from `p`; None if a position is out of range
      or a branch does not come after its children. */
  function Decode(p: PersistedNode): Option<Tree>
    decreases Depth(p)
  {
    if p.isLeaf then
      match LeafKeyValue(p.snapshot, p.index)
      case Some((k, v)) => Some(Leaf(k, v, p.snapshot.leaves[p.index].version))
      case None => None
    else if !IsBranch(p) || Depth(Left(p)) >= Depth(p) || Depth(Right(p)) >= Depth(p) then None
    else match (Key(p), Decode(Left(p)), Decode(Right(p)))
      case (Some(k), Some(l), Some(r)) => Some(Branch(k, Record(p).version, Record(p).height, Record(p).size, l, r))
      case _ => None
  }

  lemma {:induction false} StoredTreeDecodes(sha: Sha, p: PersistedNode, t: Tree)
    requires Represents(sha, p, t) && Ordered(t)
    ensures Decode(p) == Some(t)
    ensures StoredHash(p) == Some(HashNode(sha, t))
    decreases t
  {
    hide HashNode;
    hide Compare;
    if t.Leaf? {
      LeafDecodes(sha, p, t);
    } else {
      ChildrenRepresented(sha, p, t);
      StoredTreeDecodes(sha, Left(p), t.left);
      StoredTreeDecodes(sha, Right(p), t.right);
      BranchDecodes(sha, p, t);
    }
  }

  lemma LeafDecodes(sha: Sha, p: PersistedNode, t: Tree)
    requires Represents(sha, p, t) && t.Leaf?
    ensures Decode(p) == Some(t) && StoredHash(p) == Some(HashNode(sha, t))
  {
    hide HashNode;
    hide LeafKeyValue;
    LeafInRange(p.snapshot, p.index);
  }

  lemma BranchDecodes(sha: Sha, p: PersistedNode, t: Tree)
    requires Represents(sha, p, t) && Ordered(t) && t.Branch?
    requires Decode(Left(p)) == Some(t.left) && Decode(Right(p)) == Some(t.right)
    ensures Decode(p) == Some(t) && StoredHash(p) == Some(HashNode(sha, t))
  {
    hide HashNode;
    hide LeafKeyValue;
    hide Key;
    hide Left;
    hide Right;
    hide Ordered;
    KeyStored(sha, p, t);
    ChildPositions(sha, p, t);
    SizeCountsLeaves(t.left);
    SizeCountsLeaves(t.right);
  }
}
