/** The copy-on-write tree on the heap. Nodes are shared between tree copies and mutated in place
    when their version is above the copy-on-write version; everything is proved against the
    immutable trees of `AvlTree`. */
module MemNodes {
  import opened Bytes
  import opened AvlTree
  import opened AvlHeight
  import opened MerkleHash
  import opened Snapshot
  import opened Lookup

  /** The `Node` interface: nil, an in-memory node, or a position in a snapshot. */
  datatype Node = Nil | Mem(m: MemNode) | Persisted(p: PersistedNode)

  class MemNode {
    var height: nat
    var size: nat
    var version: nat
    var key: Bytes
    var value: Bytes
    var left: Node
    var right: Node
    var hash: Option<Bytes>

    /** The immutable tree rooted here, and the in-memory nodes it is made of. */
    ghost var model: Tree
    ghost var repr: set<MemNode>

    constructor (height: nat, size: nat, version: nat, key: Bytes, value: Bytes, left: Node, right: Node)
      ensures this.height == height && this.size == size && this.version == version
      ensures this.key == key && this.value == value && this.left == left && this.right == right
      ensures hash == None
    {
      this.height, this.size, this.version := height, size, version;
      this.key, this.value, this.left, this.right := key, value, left, right;
      hash := None;
      model, repr := AvlTree.Leaf(key, value, version), {};
    }

    /** The fields agree with `model`, the children are separate subtrees, and no node below is newer
        than this one. Cached hashes are not part of this. */
    ghost predicate Valid(sha: Sha)
      reads this`height, this`size, this`version, this`key, this`value, this`left, this`right, this`model, this`repr
      reads repr`height, repr`size, repr`version, repr`key, repr`value, repr`left, repr`right, repr`model, repr`repr
      decreases repr, 0
    {
      match model
      case Leaf(k, v, ver) =>
        && repr == {this} && version == ver && key == k && value == v
        && height == 0 && size == 1 && left == Nil && right == Nil
      case Branch(k, ver, h, s, l, r) =>
        && this in repr && version == ver && key == k && height == h && size == s
        && (forall x :: x in repr ==> x.version <= version)
        && (left.Mem? ==> left.m in repr && left.m.repr < repr && this !in left.m.repr)
        && (right.Mem? ==> right.m in repr && right.m.repr < repr && this !in right.m.repr)
        && Repr(left) !! Repr(right)
        && repr == {this} + Repr(left) + Repr(right)
        && Holds(sha, left, l) && Holds(sha, right, r)
    }
  }

  ghost function Repr(n: Node): set<MemNode>
    reads Top(n)`repr
  {
    if n.Mem? then n.m.repr else {}
  }

  ghost function Top(n: Node): set<MemNode> {
    if n.Mem? then {n.m} else {}
  }

  /** Node `n` stands for the tree `t`. */
  ghost predicate Holds(sha: Sha, n: Node, t: Tree)
    reads Top(n)`height, Top(n)`size, Top(n)`version, Top(n)`key, Top(n)`value
    reads Top(n)`left, Top(n)`right, Top(n)`model, Top(n)`repr
    reads Repr(n)`height, Repr(n)`size, Repr(n)`version, Repr(n)`key, Repr(n)`value
    reads Repr(n)`left, Repr(n)`right, Repr(n)`model, Repr(n)`repr
    decreases Repr(n), 1
  {
    match n
    case Nil => false
    case Mem(m) => m in m.repr && m.model == t && m.Valid(sha)
    case Persisted(p) => Represents(sha, p, t) && Ordered(t)
  }

  /** The nodes below `n` that may be mutated in place under copy-on-write version `cow`. */
  ghost function Owned(n: Node, cow: nat): set<MemNode>
    reads Top(n)`repr, Repr(n)`version
  {
    set m | m in Repr(n) && m.version > cow
  }

  /** Every cached hash is the hash of the subtree as it is now. */
  ghost predicate Coherent(sha: Sha, nodes: set<MemNode>)
    reads nodes`hash, nodes`model
  {
    forall m :: m in nodes ==> m.hash.None? || m.hash == Some(HashNode(sha, m.model))
  }

  // ----- The interface methods, on either kind of node -----

  function IsLeaf(n: Node): bool
    reads Top(n)`height
  {
    match n
    case Mem(m) => m.height == 0
    case Persisted(p) => p.isLeaf
    case Nil => false
  }

  function HeightOf(n: Node): nat
    reads Top(n)`height
  {
    match n
    case Mem(m) => m.height
    case Persisted(p) => if IsBranch(p) then Record(p).height else 0
    case Nil => 0
  }

  function SizeOf(n: Node): nat
    reads Top(n)`size
  {
    match n
    case Mem(m) => m.size
    case Persisted(p) => if IsBranch(p) then Record(p).size else 1
    case Nil => 0
  }

  function VersionOf(n: Node): nat
    reads Top(n)`version
  {
    match n
    case Mem(m) => m.version
    case Persisted(p) =>
      if IsBranch(p) then Record(p).version
      else if p.index < |p.snapshot.leaves| then p.snapshot.leaves[p.index].version else 0
    case Nil => 0
  }

  function KeyOf(n: Node): Bytes
    reads Top(n)`key
  {
    match n
    case Mem(m) => m.key
    case Persisted(p) => (match Key(p) case Some(k) => k case None => [])
    case Nil => []
  }

  function ValueOf(n: Node): Bytes
    reads Top(n)`value
  {
    match n
    case Mem(m) => m.value
    case Persisted(p) => (match Value(p) case Some(v) => v case None => [])
    case Nil => []
  }

  function LeftOf(n: Node): Node
    reads Top(n)`left
  {
    match n
    case Mem(m) => m.left
    case Persisted(p) => if IsBranch(p) then Persisted(Left(p)) else Nil
    case Nil => Nil
  }

  function RightOf(n: Node): Node
    reads Top(n)`right
  {
    match n
    case Mem(m) => m.right
    case Persisted(p) => if IsBranch(p) then Persisted(Right(p)) else Nil
    case Nil => Nil
  }

  /** The accessors read the tree that the node stands for. */
  lemma Accessors(sha: Sha, n: Node, t: Tree)
    requires Holds(sha, n, t) && (t.Branch? ==> t.height > 0)
    ensures IsLeaf(n) == t.Leaf? && HeightOf(n) == Height(t) && SizeOf(n) == Size(t)
    ensures KeyOf(n) == t.key && VersionOf(n) == t.version
    ensures t.Leaf? ==> ValueOf(n) == t.value && LeftOf(n) == RightOf(n) == Nil
    ensures t.Branch? ==> Holds(sha, LeftOf(n), t.left) && Holds(sha, RightOf(n), t.right)
    ensures t.Branch? ==> Repr(LeftOf(n)) + Repr(RightOf(n)) <= Repr(n) && Repr(LeftOf(n)) !! Repr(RightOf(n))
    ensures t.Branch? && n.Mem? ==> n.m !in Repr(LeftOf(n)) + Repr(RightOf(n))
  {
    hide HashNode;
    if n.Persisted? {
      PersistedAccessors(sha, n.p, t);
    }
  }

  lemma PersistedAccessors(sha: Sha, p: PersistedNode, t: Tree)
    requires Represents(sha, p, t) && Ordered(t)
    ensures p.isLeaf == t.Leaf? && Key(p) == Some(t.key)
    ensures t.Leaf? ==> p.index < |p.snapshot.leaves| && Value(p) == Some(t.value)
    ensures t.Leaf? ==> p.snapshot.leaves[p.index].version == t.version
    ensures t.Branch? ==> IsBranch(p) && Record(p).height == t.height && Record(p).size == t.size
    ensures t.Branch? ==> Record(p).version == t.version
    ensures t.Branch? ==> Represents(sha, Left(p), t.left) && Represents(sha, Right(p), t.right)
  {
    hide HashNode;
    KeyStored(sha, p, t);
    if t.Branch? {
      ChildrenRepresented(sha, p, t);
    } else {
      hide LeafKeyValue;
      LeafInRange(p.snapshot, p.index);
    }
  }

  // ----- In-place updates -----

  /** Whether `Mutate` may reuse the node. */
  predicate Reusable(n: Node, cow: nat)
    reads Top(n)`version
  {
    n.Mem? && n.m.version > cow
  }

  ghost function Reused(n: Node, cow: nat): set<MemNode>
    reads Top(n)`version
  {
    if Reusable(n, cow) then Top(n) else {}
  }

  /** `Mutate`: the node itself if it is newer than `cow`, otherwise a copy; stamped, hash dropped. */
  method Mutate(n: Node, version: nat, cow: nat) returns (r: MemNode)
    requires n != Nil
    modifies Reused(n, cow)`version, Reused(n, cow)`hash
    ensures if old(Reusable(n, cow)) then r == n.m else fresh(r)
    ensures r.height == old(HeightOf(n)) && r.size == old(SizeOf(n))
    ensures r.key == old(KeyOf(n)) && r.value == old(ValueOf(n))
    ensures r.left == old(LeftOf(n)) && r.right == old(RightOf(n))
    ensures r.version == version && r.hash == None
  {
    if n.Mem? && n.m.version > cow {
      r := n.m;
      r.version := version;
      r.hash := None;
    } else {
      r := new MemNode(HeightOf(n), SizeOf(n), version, KeyOf(n), ValueOf(n), LeftOf(n), RightOf(n));
    }
  }

  /** `Mutate` followed by the assignment of a separator key. */
  method MutateKey(n: Node, key: Bytes, version: nat, cow: nat) returns (r: MemNode)
    requires n != Nil
    modifies Reused(n, cow)`version, Reused(n, cow)`hash, Reused(n, cow)`key
    ensures if old(Reusable(n, cow)) then r == n.m else fresh(r)
    ensures r.height == old(HeightOf(n)) && r.size == old(SizeOf(n))
    ensures r.key == key && r.version == version && r.hash == None
  {
    r := Mutate(n, version, cow);
    r.key := key;
  }

  /** Assigns the child pointers, the measures and the ghost fields of a branch. */
  method Store(r: MemNode, left: Node, right: Node, height: nat, size: nat,
               ghost model: Tree, ghost repr: set<MemNode>)
    modifies r`left, r`right, r`height, r`size, r`model, r`repr
    ensures r.left == left && r.right == right && r.height == height && r.size == size
    ensures r.model == model && r.repr == repr
  {
    r.left, r.right := left, right;
    r.height, r.size := height, size;
    r.model, r.repr := model, repr;
  }

  /** What the children of a branch must satisfy before they are attached to `r`. */
  ghost predicate Attachable(sha: Sha, r: MemNode, left: Node, right: Node, lt: Tree, rt: Tree)
    reads r, Top(left), Top(right), Repr(left), Repr(right)
  {
    && Holds(sha, left, lt) && Holds(sha, right, rt) && Measured(lt) && Measured(rt)
    && r !in Repr(left) + Repr(right) && Repr(left) !! Repr(right)
    && (forall m :: m in Repr(left) + Repr(right) ==> m.version <= r.version)
  }

  method Attach(sha: Sha, r: MemNode, left: Node, right: Node, height: nat, size: nat, ghost lt: Tree, ghost rt: Tree)
    requires Attachable(sha, r, left, right, lt, rt)
    modifies r`left, r`right, r`height, r`size, r`model, r`repr
    ensures r.Valid(sha)
    ensures r.model == Branch(r.key, r.version, height, size, lt, rt)
    ensures r.repr == {r} + Repr(left) + Repr(right)
  {
    hide HashNode;
    hide Represents;
    hide Ordered;
    hide MemNode.Valid;
    ghost var repr := {r} + Repr(left) + Repr(right);
    Store(r, left, right, height, size, Branch(r.key, r.version, height, size, lt, rt), repr);
    ChildrenMakeValid(sha, r);
  }

  /** Attaches the children and recomputes height and size, as `updateHeightSize` does. */
  method Relink(sha: Sha, r: MemNode, left: Node, right: Node, ghost lt: Tree, ghost rt: Tree)
    requires Attachable(sha, r, left, right, lt, rt)
    modifies r`left, r`right, r`height, r`size, r`model, r`repr
    ensures r.Valid(sha)
    ensures r.model == Join(r.key, r.version, lt, rt)
    ensures r.repr == {r} + Repr(left) + Repr(right)
  {
    hide HashNode;
    hide Represents;
    hide Ordered;
    hide MemNode.Valid;
    Accessors(sha, left, lt);
    Accessors(sha, right, rt);
    var height := Max(HeightOf(left), HeightOf(right)) + 1;
    var size := SizeOf(left) + SizeOf(right);
    Attach(sha, r, left, right, height, size, lt, rt);
  }

  lemma ChildrenMakeValid(sha: Sha, r: MemNode)
    requires r.model.Branch? && r.key == r.model.key && r.version == r.model.version
    requires r.height == r.model.height && r.size == r.model.size
    requires Holds(sha, r.left, r.model.left) && Holds(sha, r.right, r.model.right)
    requires r !in Repr(r.left) + Repr(r.right) && Repr(r.left) !! Repr(r.right)
    requires forall m :: m in Repr(r.left) + Repr(r.right) ==> m.version <= r.version
    requires r.repr == {r} + Repr(r.left) + Repr(r.right)
    ensures r.Valid(sha)
  {}

  lemma HoldsMem(sha: Sha, n: Node, t: Tree)
    requires Holds(sha, n, t)
    ensures n.Mem? ==> n.m in Repr(n) && n.m.version == t.version
    ensures forall m :: m in Repr(n) ==> m.version <= t.version
  {}

  /** What validity says about the two children of a branch. */
  lemma BranchParts(sha: Sha, r: MemNode)
    requires r.Valid(sha) && r.model.Branch?
    ensures r.key == r.model.key && r.version == r.model.version
    ensures r.height == r.model.height && r.size == r.model.size
    ensures Holds(sha, r.left, r.model.left) && Holds(sha, r.right, r.model.right)
    ensures r.repr == {r} + Repr(r.left) + Repr(r.right)
    ensures Top(r.left) <= Repr(r.left) && Top(r.right) <= Repr(r.right)
    ensures r !in Repr(r.left) + Repr(r.right) && Repr(r.left) !! Repr(r.right)
    ensures forall m :: m in r.repr ==> m.version <= r.version
  {
    hide HashNode;
    hide Represents;
    hide Ordered;
  }

  /** A node just returned by `Mutate`: stamped with the version being written, not yet hashed. */
  ghost predicate Fresh(sha: Sha, r: MemNode, version: nat, cow: nat)
    reads r, r.repr
  {
    r in r.repr && r.Valid(sha) && Coherent(sha, r.repr) && r.hash.None? && r.version == version > cow
  }

  /** Three subtrees that share no node with each other, with `outer` or with `inner`, none newer. */
  ghost predicate Separate(outer: MemNode, inner: MemNode, a: Node, b: Node, c: Node)
    reads outer`version, inner`version, Top(a)`repr, Top(b)`repr, Top(c)`repr
    reads Repr(a)`version, Repr(b)`version, Repr(c)`version
  {
    && outer != inner && outer.version == inner.version
    && Repr(a) !! Repr(b) !! Repr(c) !! {outer, inner}
    && (forall m :: m in Repr(a) + Repr(b) + Repr(c) ==> m.version <= inner.version)
  }

  lemma JoinMeasured(key: Bytes, version: nat, l: Tree, r: Tree)
    requires Measured(l) && Measured(r)
    ensures Measured(Join(key, version, l, r))
  {}

  method LinkRight(sha: Sha, outer: MemNode, inner: MemNode, a: Node, b: Node, c: Node,
                   ghost ta: Tree, ghost tb: Tree, ghost tc: Tree)
    requires Holds(sha, a, ta) && Holds(sha, b, tb) && Holds(sha, c, tc)
    requires Measured(ta) && Measured(tb) && Measured(tc)
    requires Separate(outer, inner, a, b, c)
    modifies {outer, inner}`left, {outer, inner}`right, {outer, inner}`height, {outer, inner}`size
    modifies {outer, inner}`model, {outer, inner}`repr
    ensures outer.Valid(sha)
    ensures outer.model == Join(outer.key, outer.version, ta, Join(inner.key, inner.version, tb, tc))
    ensures outer.repr == {outer, inner} + Repr(a) + Repr(b) + Repr(c)
  {
    hide HashNode;
    hide Represents;
    hide Ordered;
    hide MemNode.Valid;
    hide Measured;
    hide Join;
    JoinMeasured(inner.key, inner.version, tb, tc);
    Relink(sha, inner, b, c, tb, tc);
    Relink(sha, outer, a, Mem(inner), ta, inner.model);
  }

  method LinkLeft(sha: Sha, outer: MemNode, inner: MemNode, a: Node, b: Node, c: Node,
                  ghost ta: Tree, ghost tb: Tree, ghost tc: Tree)
    requires Holds(sha, a, ta) && Holds(sha, b, tb) && Holds(sha, c, tc)
    requires Measured(ta) && Measured(tb) && Measured(tc)
    requires Separate(outer, inner, a, b, c)
    modifies {outer, inner}`left, {outer, inner}`right, {outer, inner}`height, {outer, inner}`size
    modifies {outer, inner}`model, {outer, inner}`repr
    ensures outer.Valid(sha)
    ensures outer.model == Join(outer.key, outer.version, Join(inner.key, inner.version, ta, tb), tc)
    ensures outer.repr == {outer, inner} + Repr(a) + Repr(b) + Repr(c)
  {
    hide HashNode;
    hide Represents;
    hide Ordered;
    hide MemNode.Valid;
    hide Measured;
    hide Join;
    JoinMeasured(inner.key, inner.version, ta, tb);
    Relink(sha, inner, a, b, ta, tb);
    Relink(sha, outer, Mem(inner), c, inner.model, tc);
  }

  /** The three subtrees that a rotation at `r` rearranges, in key order. */
  ghost predicate RotationParts(sha: Sha, r: MemNode, child: Node, a: Node, b: Node, c: Node)
    reads r, r.repr, Top(child), Top(a), Top(b), Top(c)
  {
    && r !in Top(child) && Repr(a) !! Repr(b) !! Repr(c) !! ({r} + Top(child))
    && r.repr == {r} + Top(child) + Repr(a) + Repr(b) + Repr(c)
    && (forall m :: m in r.repr ==> m.version <= r.version)
    && r.key == r.model.key && r.version == r.model.version
  }

  lemma RightRotationParts(sha: Sha, r: MemNode)
    requires r.Valid(sha) && r.model.Branch? && r.model.height > 0
    requires r.model.left.Branch? && Measured(r.model.left)
    ensures var t, a, b, c := r.model, LeftOf(r.left), RightOf(r.left), r.right;
      && Holds(sha, a, t.left.left) && Holds(sha, b, t.left.right) && Holds(sha, c, t.right)
      && KeyOf(r.left) == t.left.key && RotationParts(sha, r, r.left, a, b, c)
  {
    hide HashNode;
    hide Represents;
    hide Ordered;
    Accessors(sha, Mem(r), r.model);
    Accessors(sha, r.left, r.model.left);
  }

  lemma LeftRotationParts(sha: Sha, r: MemNode)
    requires r.Valid(sha) && r.model.Branch? && r.model.height > 0
    requires r.model.right.Branch? && Measured(r.model.right)
    ensures var t, a, b, c := r.model, r.left, LeftOf(r.right), RightOf(r.right);
      && Holds(sha, a, t.left) && Holds(sha, b, t.right.left) && Holds(sha, c, t.right.right)
      && KeyOf(r.right) == t.right.key && RotationParts(sha, r, r.right, a, b, c)
  {
    hide HashNode;
    hide Represents;
    hide Ordered;
    Accessors(sha, Mem(r), r.model);
    Accessors(sha, r.right, r.model.right);
  }

  /** Two nodes and the three subtrees, in key order, that a rotation will put under them. */
  ghost predicate Parts(sha: Sha, outer: MemNode, inner: MemNode, a: Node, b: Node, c: Node,
                        ta: Tree, tb: Tree, tc: Tree, version: nat, cow: nat)
    reads outer, inner, Top(a), Top(b), Top(c), Repr(a), Repr(b), Repr(c)
  {
    && Holds(sha, a, ta) && Holds(sha, b, tb) && Holds(sha, c, tc) && Separate(outer, inner, a, b, c)
    && Coherent(sha, Repr(a) + Repr(b) + Repr(c))
    && Top(a) <= Repr(a) && Top(b) <= Repr(b) && Top(c) <= Repr(c)
    && outer.version == version > cow && outer.hash.None? && inner.hash.None?
  }

  /** The left child of `r`, ready to become its parent. */
  method TakeLeft(sha: Sha, r: MemNode, version: nat, cow: nat) returns (n: MemNode)
    requires Fresh(sha, r, version, cow) && r.model.Branch? && r.model.height > 0
    requires r.model.left.Branch? && Measured(r.model.left)
    modifies Reused(r.left, cow)
    ensures r.model == old(r.model) && r.key == r.model.key && r.version == r.model.version && n.key == r.model.left.key
    ensures Parts(sha, n, r, n.left, n.right, r.right, r.model.left.left, r.model.left.right, r.model.right, version, cow)
    ensures Repr(n.left) + Repr(n.right) + Repr(r.right) + {r} <= old(r.repr)
    ensures n in old(r.repr * Reused(r.left, cow)) || fresh(n)
  {
    hide HashNode;
    hide Represents;
    hide Ordered;
    hide MemNode.Valid;
    hide Measured;
    RightRotationParts(sha, r);
    n := Mutate(r.left, version, cow);
  }

  /** The right child of `r`, ready to become its parent. */
  method TakeRight(sha: Sha, r: MemNode, version: nat, cow: nat) returns (n: MemNode)
    requires Fresh(sha, r, version, cow) && r.model.Branch? && r.model.height > 0
    requires r.model.right.Branch? && Measured(r.model.right)
    modifies Reused(r.right, cow)
    ensures r.model == old(r.model) && r.key == r.model.key && r.version == r.model.version && n.key == r.model.right.key
    ensures Parts(sha, n, r, r.left, n.left, n.right, r.model.left, r.model.right.left, r.model.right.right, version, cow)
    ensures Repr(r.left) + Repr(n.left) + Repr(n.right) + {r} <= old(r.repr)
    ensures n in old(r.repr * Reused(r.right, cow)) || fresh(n)
  {
    hide HashNode;
    hide Represents;
    hide Ordered;
    hide MemNode.Valid;
    hide Measured;
    LeftRotationParts(sha, r);
    n := Mutate(r.right, version, cow);
  }

  method RotateRight(sha: Sha, r: MemNode, version: nat, cow: nat) returns (n: MemNode)
    requires Fresh(sha, r, version, cow) && r.model.Branch? && r.model.height > 0
    requires r.model.left.Branch? && Measured(r.model.left) && Measured(r.model.right)
    modifies r, Reused(r.left, cow)
    ensures Fresh(sha, n, version, cow)
    ensures n.model == AvlTree.RotateRight(old(r.model), version)
    ensures fresh(n.repr - old(r.repr))
  {
    hide HashNode;
    hide Represents;
    hide Ordered;
    hide MemNode.Valid;
    hide Holds;
    ghost var t := r.model;
    n := TakeLeft(sha, r, version, cow);
    LinkRight(sha, n, r, n.left, n.right, r.right, t.left.left, t.left.right, t.right);
  }

  method RotateLeft(sha: Sha, r: MemNode, version: nat, cow: nat) returns (n: MemNode)
    requires Fresh(sha, r, version, cow) && r.model.Branch? && r.model.height > 0
    requires r.model.right.Branch? && Measured(r.model.left) && Measured(r.model.right)
    modifies r, Reused(r.right, cow)
    ensures Fresh(sha, n, version, cow)
    ensures n.model == AvlTree.RotateLeft(old(r.model), version)
    ensures fresh(n.repr - old(r.repr))
  {
    hide HashNode;
    hide Represents;
    hide Ordered;
    hide MemNode.Valid;
    hide Holds;
    ghost var t := r.model;
    n := TakeRight(sha, r, version, cow);
    LinkLeft(sha, n, r, r.left, n.left, n.right, t.left, t.right.left, t.right.right);
  }

  /** `Mutate` on a branch whose children are unchanged. */
  method MutateBranch(sha: Sha, n: Node, version: nat, cow: nat, ghost t: Tree) returns (r: MemNode)
    requires Holds(sha, n, t) && Coherent(sha, Repr(n)) && t.Branch? && Measured(t)
    requires cow < version && forall m :: m in Repr(n) ==> m.version <= version
    modifies Reused(n, cow)
    ensures Fresh(sha, r, version, cow) && r.model == Stamp(t, version)
    ensures fresh(r.repr - old(Repr(n)))
  {
    hide HashNode;
    hide Represents;
    hide Ordered;
    hide MemNode.Valid;
    Accessors(sha, n, t);
    HoldsMem(sha, n, t);
    r := Mutate(n, version, cow);
    Attach(sha, r, r.left, r.right, r.height, r.size, t.left, t.right);
  }

  /** `node.left.Mutate(...).rotateLeft(...)`, the first half of the left-right case. */
  method RotateChildLeft(sha: Sha, n: Node, version: nat, cow: nat, ghost t: Tree) returns (r: MemNode)
    requires Holds(sha, n, t) && Coherent(sha, Repr(n)) && t.Branch? && t.right.Branch? && Measured(t)
    requires cow < version && forall m :: m in Repr(n) ==> m.version <= version
    modifies Owned(n, cow)
    ensures Fresh(sha, r, version, cow) && r.model == AvlTree.RotateLeft(Stamp(t, version), version)
    ensures fresh(r.repr - old(Repr(n)))
  {
    hide HashNode;
    hide Represents;
    hide Ordered;
    hide MemNode.Valid;
    assert Measured(t.left) && Measured(t.right);
    r := MutateBranch(sha, n, version, cow, t);
    BranchParts(sha, r);
    r := RotateLeft(sha, r, version, cow);
  }

  /** `node.right.Mutate(...).rotateRight(...)`, the first half of the right-left case. */
  method RotateChildRight(sha: Sha, n: Node, version: nat, cow: nat, ghost t: Tree) returns (r: MemNode)
    requires Holds(sha, n, t) && Coherent(sha, Repr(n)) && t.Branch? && t.left.Branch? && Measured(t)
    requires cow < version && forall m :: m in Repr(n) ==> m.version <= version
    modifies Owned(n, cow)
    ensures Fresh(sha, r, version, cow) && r.model == AvlTree.RotateRight(Stamp(t, version), version)
    ensures fresh(r.repr - old(Repr(n)))
  {
    hide HashNode;
    hide Represents;
    hide Ordered;
    hide MemNode.Valid;
    assert Measured(t.left) && Measured(t.right);
    r := MutateBranch(sha, n, version, cow, t);
    BranchParts(sha, r);
    r := RotateRight(sha, r, version, cow);
  }

  /** `node.left = node.left.Mutate(...).rotateLeft(...)`. */
  method StraightenLeft(sha: Sha, r: MemNode, version: nat, cow: nat)
    requires Fresh(sha, r, version, cow) && r.model.Branch? && Measured(r.model)
    requires r.model.left.Branch? && r.model.left.right.Branch?
    modifies Owned(Mem(r), cow)
    ensures Fresh(sha, r, version, cow) && fresh(r.repr - old(r.repr))
    ensures var t := old(r.model);
      r.model == t.(left := AvlTree.RotateLeft(Stamp(t.left, version), version)) && Measured(r.model.left)
  {
    hide HashNode;
    hide Represents;
    hide Ordered;
    hide MemNode.Valid;
    ghost var t := r.model;
    assert Measured(t.left) && Measured(t.right);
    BranchParts(sha, r);
    var child := RotateChildLeft(sha, r.left, version, cow, t.left);
    BranchParts(sha, child);
    Attach(sha, r, Mem(child), r.right, r.height, r.size, child.model, t.right);
  }

  /** `node.right = node.right.Mutate(...).rotateRight(...)`. */
  method StraightenRight(sha: Sha, r: MemNode, version: nat, cow: nat)
    requires Fresh(sha, r, version, cow) && r.model.Branch? && Measured(r.model)
    requires r.model.right.Branch? && r.model.right.left.Branch?
    modifies Owned(Mem(r), cow)
    ensures Fresh(sha, r, version, cow) && fresh(r.repr - old(r.repr))
    ensures var t := old(r.model);
      r.model == t.(right := AvlTree.RotateRight(Stamp(t.right, version), version)) && Measured(r.model.right)
  {
    hide HashNode;
    hide Represents;
    hide Ordered;
    hide MemNode.Valid;
    ghost var t := r.model;
    assert Measured(t.left) && Measured(t.right);
    BranchParts(sha, r);
    var child := RotateChildRight(sha, r.right, version, cow, t.right);
    BranchParts(sha, child);
    Attach(sha, r, r.left, Mem(child), r.height, r.size, t.left, child.model);
  }

  /** The left-left and left-right cases of `reBalance`. */
  method LowerLeft(sha: Sha, r: MemNode, version: nat, cow: nat) returns (n: MemNode)
    requires Fresh(sha, r, version, cow) && NearlyBalanced(r.model) && Balance(r.model) == 2
    modifies Owned(Mem(r), cow)
    ensures Fresh(sha, n, version, cow)
    ensures n.model == AvlTree.LowerLeft(old(r.model), version)
    ensures fresh(n.repr - old(r.repr))
  {
    hide HashNode;
    hide Represents;
    hide Ordered;
    hide MemNode.Valid;
    ghost var t := r.model;
    assert Measured(t.left) && Balanced(t.left);
    BranchParts(sha, r);
    var leftBalance := CalcBalance(sha, r.left, t.left);
    if leftBalance < 0 {
      assert Measured(t.left.right);
      StraightenLeft(sha, r, version, cow);
      BranchParts(sha, r);
    }
    n := RotateRight(sha, r, version, cow);
  }

  /** The right-right and right-left cases of `reBalance`. */
  method LowerRight(sha: Sha, r: MemNode, version: nat, cow: nat) returns (n: MemNode)
    requires Fresh(sha, r, version, cow) && NearlyBalanced(r.model) && Balance(r.model) == -2
    modifies Owned(Mem(r), cow)
    ensures Fresh(sha, n, version, cow)
    ensures n.model == AvlTree.LowerRight(old(r.model), version)
    ensures fresh(n.repr - old(r.repr))
  {
    hide HashNode;
    hide Represents;
    hide Ordered;
    hide MemNode.Valid;
    ghost var t := r.model;
    assert Measured(t.right) && Balanced(t.right);
    BranchParts(sha, r);
    var rightBalance := CalcBalance(sha, r.right, t.right);
    if rightBalance > 0 {
      assert Measured(t.right.left);
      StraightenRight(sha, r, version, cow);
      BranchParts(sha, r);
    }
    n := RotateLeft(sha, r, version, cow);
  }

  method ReBalance(sha: Sha, r: MemNode, version: nat, cow: nat) returns (n: MemNode)
    requires Fresh(sha, r, version, cow) && NearlyBalanced(r.model)
    modifies Owned(Mem(r), cow)
    ensures Fresh(sha, n, version, cow)
    ensures n.model == AvlTree.ReBalance(old(r.model), version)
    ensures fresh(n.repr - old(r.repr))
  {
    hide HashNode;
    hide Represents;
    hide Ordered;
    assert Holds(sha, Mem(r), r.model) by { BranchParts(sha, r); }
    hide MemNode.Valid;
    hide AvlTree.LowerLeft;
    hide AvlTree.LowerRight;
    var balance := CalcBalance(sha, Mem(r), r.model);
    if balance > 1 {
      n := LowerLeft(sha, r, version, cow);
    } else if balance < -1 {
      n := LowerRight(sha, r, version, cow);
    } else {
      n := r;
    }
  }

  method CalcBalance(sha: Sha, n: Node, ghost t: Tree) returns (balance: int)
    requires Holds(sha, n, t) && t.Branch? && Measured(t)
    ensures balance == Balance(t)
  {
    hide HashNode;
    hide Represents;
    hide Ordered;
    hide MemNode.Valid;
    assert Measured(t.left) && Measured(t.right);
    Accessors(sha, n, t);
    Accessors(sha, LeftOf(n), t.left);
    Accessors(sha, RightOf(n), t.right);
    balance := HeightOf(LeftOf(n)) - HeightOf(RightOf(n));
  }

  // ----- setRecursive -----

  /** The children of a branch node, whichever kind it is. */
  lemma ChildFacts(sha: Sha, n: Node, t: Tree)
    requires Holds(sha, n, t) && t.Branch? && Measured(t) && Balanced(t)
    ensures KeyOf(n) == t.key && HeightOf(n) == t.height && SizeOf(n) == t.size
    ensures Measured(t.left) && Measured(t.right) && Balanced(t.left) && Balanced(t.right)
    ensures Holds(sha, LeftOf(n), t.left) && Holds(sha, RightOf(n), t.right)
    ensures Repr(n) == Top(n) + Repr(LeftOf(n)) + Repr(RightOf(n))
    ensures Top(n) !! Repr(LeftOf(n)) !! Repr(RightOf(n))
  {
    hide HashNode;
    hide Represents;
    hide Ordered;
    Accessors(sha, n, t);
    HoldsMem(sha, n, t);
  }

  /** A new leaf and what it stands for. */
  method NewLeaf(sha: Sha, key: Bytes, value: Bytes, version: nat) returns (r: MemNode)
    ensures fresh(r) && r.repr == {r} && r.hash.None? && r.version == version
    ensures r.Valid(sha) && r.model == Leaf(key, value, version)
  {
    r := new MemNode(0, 1, version, key, value, Nil, Nil);
    r.model, r.repr := Leaf(key, value, version), {r};
  }

  /** Replaces the value of a leaf, in place if it is owned. */
  method SetLeafValue(sha: Sha, n: Node, value: Bytes, version: nat, cow: nat, ghost t: Tree) returns (r: MemNode)
    requires Holds(sha, n, t) && t.Leaf? && cow < version
    modifies Reused(n, cow)
    ensures Fresh(sha, r, version, cow) && r.model == Leaf(t.key, value, version)
    ensures fresh(r.repr - old(Repr(n))) && (old(Reusable(n, cow)) ==> r == n.m)
  {
    hide HashNode;
    hide Represents;
    hide Ordered;
    Accessors(sha, n, t);
    r := Mutate(n, version, cow);
    r.value := value;
    r.model, r.repr := Leaf(r.key, value, version), {r};
  }

  /** Turns a leaf into a branch over it and a new leaf. */
  method SplitLeaf(sha: Sha, n: Node, key: Bytes, value: Bytes, version: nat, cow: nat, ghost t: Tree)
    returns (r: MemNode)
    requires Ready(sha, n, t, version, cow) && t.Leaf? && key != t.key
    ensures Fresh(sha, r, version, cow) && r.model == AvlTree.SetRecursive(t, key, value, version).0
    ensures fresh(r.repr - old(Repr(n)))
  {
    hide HashNode;
    hide Represents;
    hide Ordered;
    hide MemNode.Valid;
    Accessors(sha, n, t);
    CompareFlips(key, t.key);
    hide Compare;
    var leaf := NewLeaf(sha, key, value, version);
    if Less(key, KeyOf(n)) {
      r := NewBranch(sha, KeyOf(n), Mem(leaf), n, version, leaf.model, t);
    } else {
      r := NewBranch(sha, key, n, Mem(leaf), version, t, leaf.model);
    }
  }

  /** A new branch of height one over two leaves. */
  method NewBranch(sha: Sha, key: Bytes, left: Node, right: Node, version: nat, ghost lt: Tree, ghost rt: Tree)
    returns (r: MemNode)
    requires Holds(sha, left, lt) && Holds(sha, right, rt) && lt.Leaf? && rt.Leaf? && Repr(left) !! Repr(right)
    requires forall m :: m in Repr(left) + Repr(right) ==> m.version <= version
    ensures fresh(r) && r.Valid(sha) && r.hash.None? && r.version == version
    ensures r.model == Branch(key, version, 1, 2, lt, rt) && r.repr == {r} + Repr(left) + Repr(right)
  {
    hide HashNode;
    hide Represents;
    hide Ordered;
    hide MemNode.Valid;
    r := new MemNode(1, 2, version, key, [], left, right);
    Attach(sha, r, left, right, 1, 2, lt, rt);
  }

  /** What the recursive operations require of a subtree. */
  ghost predicate Ready(sha: Sha, n: Node, t: Tree, version: nat, cow: nat)
    reads Top(n), Repr(n)
  {
    && Holds(sha, n, t) && Coherent(sha, Repr(n)) && Measured(t) && Balanced(t)
    && cow < version && (forall m :: m in Repr(n) ==> m.version <= version)
  }

  /** `Mutate` on a branch one of whose children has been replaced. */
  method Graft(sha: Sha, n: Node, key: Bytes, left: Node, right: Node, update: bool, version: nat, cow: nat,
               ghost lt: Tree, ghost rt: Tree) returns (r: MemNode)
    requires n != Nil && cow < version && Top(n) !! Repr(left) + Repr(right) && Repr(left) !! Repr(right)
    requires Holds(sha, left, lt) && Holds(sha, right, rt) && Measured(lt) && Measured(rt)
    requires Coherent(sha, Repr(left) + Repr(right))
    requires forall m :: m in Repr(left) + Repr(right) ==> m.version <= version
    modifies Reused(n, cow)
    ensures Fresh(sha, r, version, cow)
    ensures r.model == if update then Join(key, version, lt, rt)
                       else Branch(key, version, old(HeightOf(n)), old(SizeOf(n)), lt, rt)
    ensures fresh(r.repr - old(Top(n) + Repr(left) + Repr(right))) && (old(Reusable(n, cow)) ==> r == n.m)
  {
    hide HashNode;
    hide Represents;
    hide Ordered;
    hide MemNode.Valid;
    hide Join;
    hide HeightOf;
    hide SizeOf;
    hide Measured;
    r := MutateKey(n, key, version, cow);
    if update {
      Relink(sha, r, left, right, lt, rt);
    } else {
      Attach(sha, r, left, right, r.height, r.size, lt, rt);
    }
  }

  method SetAtLeaf(sha: Sha, n: Node, key: Bytes, value: Bytes, version: nat, cow: nat, ghost t: Tree)
    returns (r: MemNode, updated: bool)
    requires Ready(sha, n, t, version, cow) && t.Leaf?
    modifies Owned(n, cow)
    ensures Fresh(sha, r, version, cow)
    ensures (r.model, updated) == AvlTree.SetRecursive(t, key, value, version)
    ensures fresh(r.repr - old(Repr(n))) && (updated && old(Reusable(n, cow)) ==> r == n.m)
  {
    hide HashNode;
    hide Represents;
    hide Ordered;
    hide MemNode.Valid;
    Accessors(sha, n, t);
    HoldsMem(sha, n, t);
    CompareFlips(key, t.key);
    if KeyOf(n) == key {
      r := SetLeafValue(sha, n, value, version, cow, t);
      updated := true;
    } else {
      r := SplitLeaf(sha, n, key, value, version, cow, t);
      updated := false;
    }
  }

  method SetRecursive(sha: Sha, n: Node, key: Bytes, value: Bytes, version: nat, cow: nat, ghost t: Tree)
    returns (r: MemNode, updated: bool)
    requires Ready(sha, n, t, version, cow)
    modifies Owned(n, cow)
    ensures Fresh(sha, r, version, cow)
    ensures (r.model, updated) == AvlTree.SetRecursive(t, key, value, version)
    ensures fresh(r.repr - old(Repr(n))) && (updated && old(Reusable(n, cow)) ==> r == n.m)
    decreases t, 1
  {
    hide HashNode;
    hide Represents;
    hide Ordered;
    hide MemNode.Valid;
    hide Coherent;
    hide AvlTree.ReBalance;
    Accessors(sha, n, t);
    HoldsMem(sha, n, t);
    if IsLeaf(n) {
      r, updated := SetAtLeaf(sha, n, key, value, version, cow, t);
    } else {
      if Less(key, KeyOf(n)) {
        r, updated := SetBelowLeft(sha, n, key, value, version, cow, t);
      } else {
        r, updated := SetBelowRight(sha, n, key, value, version, cow, t);
      }
      if !updated {
        BranchParts(sha, r);
        r := ReBalance(sha, r, version, cow);
      }
    }
  }

  /** The node of a branch after its left child has been set. */
  method SetBelowLeft(sha: Sha, n: Node, key: Bytes, value: Bytes, version: nat, cow: nat, ghost t: Tree)
    returns (r: MemNode, updated: bool)
    requires Ready(sha, n, t, version, cow) && t.Branch? && Less(key, t.key)
    modifies Owned(n, cow)
    ensures Fresh(sha, r, version, cow) && fresh(r.repr - old(Repr(n)))
    ensures old(Reusable(n, cow)) ==> r == n.m
    ensures var (child, u) := AvlTree.SetRecursive(t.left, key, value, version);
      updated == u && r.model == if u then WithLeft(t, version, child) else UpdateHeightSize(WithLeft(t, version, child))
    decreases t, 0
  {
    hide HashNode;
    hide Represents;
    hide Ordered;
    hide MemNode.Valid;
    hide AvlTree.SetRecursive;
    hide Measured;
    hide Balanced;
    ChildFacts(sha, n, t);
    var left, right := LeftOf(n), RightOf(n);
    var child;
    child, updated := SetRecursive(sha, left, key, value, version, cow, t.left);
    HoldsMem(sha, Mem(child), child.model);
    r := Graft(sha, n, KeyOf(n), Mem(child), right, !updated, version, cow, child.model, t.right);
  }

  /** The node of a branch after its right child has been set. */
  method SetBelowRight(sha: Sha, n: Node, key: Bytes, value: Bytes, version: nat, cow: nat, ghost t: Tree)
    returns (r: MemNode, updated: bool)
    requires Ready(sha, n, t, version, cow) && t.Branch? && !Less(key, t.key)
    modifies Owned(n, cow)
    ensures Fresh(sha, r, version, cow) && fresh(r.repr - old(Repr(n)))
    ensures old(Reusable(n, cow)) ==> r == n.m
    ensures var (child, u) := AvlTree.SetRecursive(t.right, key, value, version);
      && updated == u
      && r.model == (var node := WithRight(t, version, t.key, child); if u then node else UpdateHeightSize(node))
    decreases t, 0
  {
    hide HashNode;
    hide Represents;
    hide Ordered;
    hide MemNode.Valid;
    hide AvlTree.SetRecursive;
    hide Measured;
    hide Balanced;
    ChildFacts(sha, n, t);
    var left, right := LeftOf(n), RightOf(n);
    var child;
    child, updated := SetRecursive(sha, right, key, value, version, cow, t.right);
    HoldsMem(sha, Mem(child), child.model);
    r := Graft(sha, n, KeyOf(n), left, Mem(child), !updated, version, cow, t.left, child.model);
  }

  // ----- removeRecursive -----

  /** `Graft` followed by `reBalance`. */
  method Rejoin(sha: Sha, n: Node, key: Bytes, left: Node, right: Node, version: nat, cow: nat,
                ghost lt: Tree, ghost rt: Tree) returns (r: MemNode)
    requires n != Nil && cow < version && Top(n) !! Repr(left) + Repr(right) && Repr(left) !! Repr(right)
    requires Holds(sha, left, lt) && Holds(sha, right, rt) && NearlyBalanced(Join(key, version, lt, rt))
    requires Coherent(sha, Repr(left) + Repr(right))
    requires forall m :: m in Repr(left) + Repr(right) ==> m.version <= version
    modifies Reused(n, cow), Owned(left, cow), Owned(right, cow)
    ensures Fresh(sha, r, version, cow)
    ensures r.model == AvlTree.ReBalance(Join(key, version, lt, rt), version)
    ensures fresh(r.repr - old(Top(n) + Repr(left) + Repr(right)))
  {
    hide HashNode;
    hide Represents;
    hide Ordered;
    hide MemNode.Valid;
    hide AvlTree.ReBalance;
    assert Measured(Join(key, version, lt, rt));
    r := Graft(sha, n, key, left, right, true, version, cow, lt, rt);
    r := ReBalance(sha, r, version, cow);
  }

  /** The heap node `rest` and the outcome `r` of a removal say the same thing. */
  ghost predicate Outcome(sha: Sha, r: Removed, value: Option<Bytes>, rest: Node, newKey: Option<Bytes>, version: nat)
    reads Top(rest), Repr(rest)
  {
    match r.rest
    case None => value == r.value && newKey == r.newKey && rest == Nil
    case Some(t) =>
      && value == r.value && newKey == r.newKey && Holds(sha, rest, t)
      && Coherent(sha, Repr(rest)) && (forall m :: m in Repr(rest) ==> m.version <= version)
  }

  method RemoveRecursive(sha: Sha, n: Node, key: Bytes, version: nat, cow: nat, ghost t: Tree)
    returns (value: Option<Bytes>, rest: Node, newKey: Option<Bytes>)
    requires Ready(sha, n, t, version, cow)
    modifies Owned(n, cow)
    ensures Outcome(sha, AvlTree.RemoveRecursive(t, key, version), value, rest, newKey, version)
    ensures fresh(Repr(rest) - old(Repr(n)))
    ensures value.None? ==> rest == n && unchanged(old(Repr(n)))
    decreases t, 1
  {
    hide HashNode;
    hide Represents;
    hide Ordered;
    hide MemNode.Valid;
    Accessors(sha, n, t);
    if IsLeaf(n) {
      if KeyOf(n) == key {
        value, rest, newKey := Some(ValueOf(n)), Nil, None;
      } else {
        value, rest, newKey := None, n, None;
      }
    } else if Less(key, KeyOf(n)) {
      value, rest, newKey := RemoveBelowLeft(sha, n, key, version, cow, t);
    } else {
      value, rest, newKey := RemoveBelowRight(sha, n, key, version, cow, t);
    }
  }

  /** Two disjoint subtrees that can be put under the branch `n` again. */
  ghost predicate Loose(sha: Sha, n: Node, left: Node, right: Node, version: nat, cow: nat)
    reads Top(n), Top(left), Top(right), Repr(left), Repr(right)
  {
    && n != Nil && cow < version && Top(n) !! Repr(left) + Repr(right) && Repr(left) !! Repr(right)
    && Coherent(sha, Repr(left) + Repr(right))
    && (forall m :: m in Repr(left) + Repr(right) ==> m.version <= version)
  }

  /** What is left of a branch once `key` has been removed from its left child. */
  method CloseLeft(sha: Sha, n: Node, left: Node, right: Node, key: Bytes, newKey: Option<Bytes>,
                   version: nat, cow: nat, ghost t: Tree) returns (rest: Node, k: Option<Bytes>)
    requires t.Branch? && Measured(t) && Balanced(t) && Less(key, t.key) && KeyOf(n) == t.key
    requires Loose(sha, n, left, right, version, cow) && Holds(sha, right, t.right)
    requires var c := AvlTree.RemoveRecursive(t.left, key, version);
      c.value.Some? && Outcome(sha, c, c.value, left, newKey, version)
    modifies Reused(n, cow), Owned(left, cow), Owned(right, cow)
    ensures var r := AvlTree.RemoveRecursive(t, key, version); Outcome(sha, r, r.value, rest, k, version)
    ensures fresh(Repr(rest) - old(Top(n) + Repr(left) + Repr(right)))
  {
    hide HashNode;
    hide Represents;
    hide Ordered;
    hide MemNode.Valid;
    hide AvlTree.ReBalance;
    if left == Nil {
      return right, Some(KeyOf(n));
    }
    ghost var lt := AvlTree.RemoveRecursive(t.left, key, version).rest.value;
    var r := Rejoin(sha, n, KeyOf(n), left, right, version, cow, lt, t.right);
    HoldsMem(sha, Mem(r), r.model);
    return Mem(r), newKey;
  }

  /** What is left of a branch once `key` has been removed from its right child. */
  method CloseRight(sha: Sha, n: Node, left: Node, right: Node, key: Bytes, newKey: Option<Bytes>,
                    version: nat, cow: nat, ghost t: Tree) returns (rest: Node, k: Option<Bytes>)
    requires t.Branch? && Measured(t) && Balanced(t) && !Less(key, t.key) && KeyOf(n) == t.key
    requires Loose(sha, n, left, right, version, cow) && Holds(sha, left, t.left)
    requires var c := AvlTree.RemoveRecursive(t.right, key, version);
      c.value.Some? && Outcome(sha, c, c.value, right, newKey, version)
    modifies Reused(n, cow), Owned(left, cow), Owned(right, cow)
    ensures var r := AvlTree.RemoveRecursive(t, key, version); Outcome(sha, r, r.value, rest, k, version)
    ensures fresh(Repr(rest) - old(Top(n) + Repr(left) + Repr(right)))
  {
    hide HashNode;
    hide Represents;
    hide Ordered;
    hide MemNode.Valid;
    hide AvlTree.ReBalance;
    if right == Nil {
      return left, None;
    }
    ghost var rt := AvlTree.RemoveRecursive(t.right, key, version).rest.value;
    var sep := if newKey.Some? then newKey.value else KeyOf(n);
    var r := Rejoin(sha, n, sep, left, right, version, cow, t.left, rt);
    HoldsMem(sha, Mem(r), r.model);
    return Mem(r), None;
  }

  method RemoveBelowLeft(sha: Sha, n: Node, key: Bytes, version: nat, cow: nat, ghost t: Tree)
    returns (value: Option<Bytes>, rest: Node, newKey: Option<Bytes>)
    requires Ready(sha, n, t, version, cow) && t.Branch? && Less(key, t.key)
    modifies Owned(n, cow)
    ensures Outcome(sha, AvlTree.RemoveRecursive(t, key, version), value, rest, newKey, version)
    ensures fresh(Repr(rest) - old(Repr(n)))
    ensures value.None? ==> rest == n && unchanged(old(Repr(n)))
    decreases t, 0
  {
    hide HashNode;
    hide Represents;
    hide Ordered;
    hide MemNode.Valid;
    hide AvlTree.ReBalance;
    hide Measured;
    hide Balanced;
    ChildFacts(sha, n, t);
    var left, right := LeftOf(n), RightOf(n);
    value, rest, newKey := RemoveRecursive(sha, left, key, version, cow, t.left);
    if value.None? {
      return None, n, None;
    }
    rest, newKey := CloseLeft(sha, n, rest, right, key, newKey, version, cow, t);
  }

  method RemoveBelowRight(sha: Sha, n: Node, key: Bytes, version: nat, cow: nat, ghost t: Tree)
    returns (value: Option<Bytes>, rest: Node, newKey: Option<Bytes>)
    requires Ready(sha, n, t, version, cow) && t.Branch? && !Less(key, t.key)
    modifies Owned(n, cow)
    ensures Outcome(sha, AvlTree.RemoveRecursive(t, key, version), value, rest, newKey, version)
    ensures fresh(Repr(rest) - old(Repr(n)))
    ensures value.None? ==> rest == n && unchanged(old(Repr(n)))
    decreases t, 0
  {
    hide HashNode;
    hide Represents;
    hide Ordered;
    hide MemNode.Valid;
    hide AvlTree.ReBalance;
    hide Measured;
    hide Balanced;
    ChildFacts(sha, n, t);
    var left, right := LeftOf(n), RightOf(n);
    value, rest, newKey := RemoveRecursive(sha, right, key, version, cow, t.right);
    if value.None? {
      return None, n, None;
    }
    rest, newKey := CloseRight(sha, n, left, rest, key, newKey, version, cow, t);
  }

  // ----- Hashing and reading -----

  /** `Hash`: returns the cached hash, or computes it from the children and caches it. */
  method Hash(sha: Sha, n: Node, ghost t: Tree) returns (h: Bytes)
    requires Holds(sha, n, t) && Coherent(sha, Repr(n)) && Measured(t)
    modifies Repr(n)`hash
    ensures h == HashNode(sha, t) && Coherent(sha, Repr(n))
    decreases t
  {
    hide Represents;
    hide Ordered;
    hide MemNode.Valid;
    Accessors(sha, n, t);
    HoldsMem(sha, n, t);
    if n.Persisted? {
      h := PersistedHash(sha, n.p, t);
    } else if n.m.hash.Some? {
      h := n.m.hash.value;
    } else {
      if IsLeaf(n) {
        h := LeafHash(sha, n.m.key, n.m.value, n.m.version);
      } else {
        var left := Hash(sha, n.m.left, t.left);
        var right := Hash(sha, n.m.right, t.right);
        h := BranchHash(sha, n.m.height, n.m.size, n.m.version, left, right);
      }
      n.m.hash := Some(h);
    }
  }

  method PersistedHash(sha: Sha, p: PersistedNode, ghost t: Tree) returns (h: Bytes)
    requires Represents(sha, p, t)
    ensures h == HashNode(sha, t)
  {
    hide HashNode;
    hide LeafKeyValue;
    if p.isLeaf {
      LeafInRange(p.snapshot, p.index);
    }
    h := StoredHash(p).value;
  }

  /** `Get` on any mix of in-memory and persisted nodes. */
  method Get(sha: Sha, n: Node, key: Bytes, ghost t: Tree) returns (value: Option<Bytes>, index: nat)
    requires Holds(sha, n, t) && WellFormed(t) && Size(t) < UINT32_LIMIT
    ensures IsLookup(t, key, value, index) && index <= Size(t)
    decreases t
  {
    hide HashNode;
    hide Represents;
    hide MemNode.Valid;
    hide Compare;
    hide IsLookup;
    hide U32;
    GetFacts(sha, n, t);
    hide Ordered;
    hide Measured;
    hide Balanced;
    if n.Persisted? {
      PersistedGetCorrect(sha, n.p, t, key);
      var (v, i) := PersistedGet(n.p, key);
      value, index := v, i;
    } else if IsLeaf(n) {
      LookupLeaf(t, key);
      value, index := if KeyOf(n) == key then Some(ValueOf(n)) else None, if Less(KeyOf(n), key) then 1 else 0;
    } else if Less(key, KeyOf(n)) {
      value, index := Get(sha, LeftOf(n), key, t.left);
      LookupLeft(t, key, value, index);
    } else {
      var right := RightOf(n);
      value, index := Get(sha, right, key, t.right);
      LookupRight(t, key, value, index);
      RankExact(index, SizeOf(n), SizeOf(right));
      index := U32(index + U32(SizeOf(n)) - U32(SizeOf(right)));
    }
    LookupRank(t, key, value, index);
  }

  /** The facts about one node that `Get` uses. */
  lemma GetFacts(sha: Sha, n: Node, t: Tree)
    requires Holds(sha, n, t) && WellFormed(t)
    ensures IsLeaf(n) == t.Leaf? && KeyOf(n) == t.key && SizeOf(n) == Size(t) && (t.Leaf? ==> ValueOf(n) == t.value)
    ensures n.Persisted? ==> n.p.isLeaf || IsBranch(n.p)
    ensures t.Branch? ==> Holds(sha, LeftOf(n), t.left) && Holds(sha, RightOf(n), t.right)
    ensures t.Branch? ==> WellFormed(t.left) && WellFormed(t.right) && SizeOf(RightOf(n)) == Size(t.right)
    ensures t.Branch? ==> Size(t.left) < Size(t) && Size(t.right) < Size(t)
  {
    hide HashNode;
    hide MemNode.Valid;
    hide Compare;
    hide Represents;
    Accessors(sha, n, t);
    if n.Persisted? { PersistedAccessors(sha, n.p, t); }
    if t.Branch? {
      assert Measured(t.right);
      Accessors(sha, RightOf(n), t.right);
      SizeCountsLeaves(t.left);
      SizeCountsLeaves(t.right);
    }
  }

  lemma RankExact(index: nat, size: nat, rightSize: nat)
    requires rightSize <= size < UINT32_LIMIT && index <= rightSize
    ensures U32(index + U32(size) - U32(rightSize)) == index + size - rightSize
  {}

  lemma LookupRank(t: Tree, key: Bytes, value: Option<Bytes>, index: nat)
    requires IsLookup(t, key, value, index) && Measured(t)
    ensures index <= Size(t)
  {
    ItemsCount(t);
  }

  /** Looking up `index` below `n` ends in a persisted subtree in which its leaf position wraps around. */
  ghost predicate Wraps(sha: Sha, n: Node, index: nat, t: Tree)
    requires Holds(sha, n, t)
    reads Top(n)`height, Top(n)`size, Top(n)`version, Top(n)`key, Top(n)`value
    reads Top(n)`left, Top(n)`right, Top(n)`model, Top(n)`repr
    reads Repr(n)`height, Repr(n)`size, Repr(n)`version, Repr(n)`key, Repr(n)`value
    reads Repr(n)`left, Repr(n)`right, Repr(n)`model, Repr(n)`repr
    decreases t
  {
    t.Branch? &&
    match n
    case Persisted(p) => StartLeaf(p) + index >= UINT32_LIMIT
    case Mem(m) =>
      assert m.model == t && m.Valid(sha);
      if index < Size(t.left) then Wraps(sha, m.left, index, t.left)
      else Wraps(sha, m.right, index - Size(t.left), t.right)
  }

  method PersistedItem(sha: Sha, p: PersistedNode, index: nat, ghost t: Tree) returns (item: Option<(Bytes, Bytes)>)
    requires Represents(sha, p, t) && (p.isLeaf || IsBranch(p)) && index < UINT32_LIMIT
    ensures p.isLeaf || StartLeaf(p) + index < UINT32_LIMIT ==> item == ItemAt(t, index)
    ensures index <= Size(t) ==> p.isLeaf || StartLeaf(p) + index < UINT32_LIMIT
  {
    hide Represents;
    hide LeafKeyValue;
    hide U32;
    hide ItemAt;
    StoredLeaves(sha, p, t);
    if p.isLeaf || StartLeaf(p) + index < UINT32_LIMIT { PersistedGetByIndexInRange(sha, p, t, index); }
    item := PersistedGetByIndex(p, index);
  }

  /** `GetByIndex`, exact for every index whose leaf position does not wrap around; none up to one past the last
      index does. */
  method GetByIndex(sha: Sha, n: Node, index: nat, ghost t: Tree) returns (item: Option<(Bytes, Bytes)>)
    requires Holds(sha, n, t) && WellFormed(t) && Size(t) < UINT32_LIMIT && index < UINT32_LIMIT
    ensures !Wraps(sha, n, index, t) ==> item == ItemAt(t, index)
    ensures index <= Size(t) ==> !Wraps(sha, n, index, t)
    decreases t
  {
    hide HashNode;
    hide Represents;
    hide MemNode.Valid;
    hide Ordered;
    hide Balanced;
    hide U32;
    hide StartLeaf;
    GetFacts(sha, n, t);
    if n.Persisted? {
      item := PersistedItem(sha, n.p, index, t);
    } else if IsLeaf(n) {
      item := if index == 0 then Some((KeyOf(n), ValueOf(n))) else None;
    } else {
      GetFacts(sha, LeftOf(n), t.left);
      ItemAtBranch(t, index);
      U32Exact(Size(t.left));
      var leftSize := U32(SizeOf(LeftOf(n)));
      if index < leftSize {
        item := GetByIndex(sha, LeftOf(n), index, t.left);
      } else {
        item := GetByIndex(sha, RightOf(n), index - leftSize, t.right);
      }
    }
  }
}
