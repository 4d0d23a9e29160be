/** The Merkle AVL tree as an immutable value, with the operations the store performs on it.

    Leaves carry the data. A branch carries the smallest key of its right subtree. Every
    function takes the version being written and stamps it on each node it rebuilds, because
    node versions are part of the node hash. */
module AvlTree {
  import opened Bytes

  datatype Tree =
    | Leaf(key: Bytes, value: Bytes, version: nat)
    | Branch(key: Bytes, version: nat, height: nat, size: nat, left: Tree, right: Tree)

  function Height(t: Tree): nat {
    if t.Leaf? then 0 else t.height
  }

  function Size(t: Tree): nat {
    if t.Leaf? then 1 else t.size
  }

  function Max(a: nat, b: nat): nat {
    if a < b then b else a
  }

  /** A node as `Mutate` returns it: the same node, stamped with the version being written. */
  function Stamp(t: Tree, version: nat): (r: Tree)
    ensures r.Branch? == t.Branch?
  {
    match t
    case Leaf(k, v, _) => Leaf(k, v, version)
    case Branch(k, _, h, s, l, r) => Branch(k, version, h, s, l, r)
  }

  /** A stamped branch with one child replaced, its height and size not yet brought up to date. */
  function WithLeft(t: Tree, version: nat, left: Tree): Tree
    requires t.Branch?
  {
    Branch(t.key, version, t.height, t.size, left, t.right)
  }

  function WithRight(t: Tree, version: nat, key: Bytes, right: Tree): Tree
    requires t.Branch?
  {
    Branch(key, version, t.height, t.size, t.left, right)
  }

  /** A branch whose height and size are computed from its children. */
  function Join(key: Bytes, version: nat, left: Tree, right: Tree): Tree {
    Branch(key, version, Max(Height(left), Height(right)) + 1, Size(left) + Size(right), left, right)
  }

  function UpdateHeightSize(t: Tree): Tree
    requires t.Branch?
  {
    Join(t.key, t.version, t.left, t.right)
  }

  function Balance(t: Tree): int
    requires t.Branch?
  {
    Height(t.left) - Height(t.right)
  }

  function RotateRight(t: Tree, version: nat): (r: Tree)
    requires t.Branch? && t.left.Branch?
    ensures Measured(t.left) && Measured(t.right) ==> Measured(r) && Size(r) == Size(t.left) + Size(t.right)
  {
    Join(t.left.key, version, t.left.left, Join(t.key, t.version, t.left.right, t.right))
  }

  function RotateLeft(t: Tree, version: nat): (r: Tree)
    requires t.Branch? && t.right.Branch?
    ensures Measured(t.left) && Measured(t.right) ==> Measured(r) && Size(r) == Size(t.left) + Size(t.right)
  {
    Join(t.right.key, version, Join(t.key, t.version, t.left, t.right.left), t.right.right)
  }

  // ----- Invariants -----

  ghost function Keys(t: Tree): set<Bytes> {
    match t
    case Leaf(k, _, _) => {k}
    case Branch(_, _, _, _, l, r) => Keys(l) + Keys(r)
  }

  ghost function Contents(t: Tree): map<Bytes, Bytes>
    ensures Contents(t).Keys == Keys(t)
  {
    match t
    case Leaf(k, v, _) => map[k := v]
    case Branch(_, _, _, _, l, r) => Contents(l) + Contents(r)
  }

  /** Strict key order, and each branch key is the smallest key of the right subtree. */
  ghost predicate Ordered(t: Tree) {
    t.Branch? ==>
      && Ordered(t.left) && Ordered(t.right)
      && (forall k :: k in Keys(t.left) ==> Less(k, t.key))
      && IsMin(t.key, t.right)
  }

  ghost predicate IsMin(key: Bytes, t: Tree) {
    key in Keys(t) && forall k :: k in Keys(t) ==> !Less(k, key)
  }

  /** Stored heights and sizes are exact. */
  ghost predicate Measured(t: Tree) {
    t.Branch? ==>
      && Measured(t.left) && Measured(t.right)
      && t.height == Max(Height(t.left), Height(t.right)) + 1
      && t.size == Size(t.left) + Size(t.right)
  }

  /** Sibling heights differ by at most one. */
  ghost predicate Balanced(t: Tree) {
    t.Branch? ==> Balanced(t.left) && Balanced(t.right) && -1 <= Balance(t) <= 1
  }

  /** No node is newer than its parent, and none is newer than `version`. */
  ghost predicate Stamped(t: Tree, version: nat) {
    t.version <= version && (t.Branch? ==> Stamped(t.left, t.version) && Stamped(t.right, t.version))
  }

  ghost predicate WellFormed(t: Tree) {
    Ordered(t) && Measured(t) && Balanced(t)
  }

  // ----- Rebalancing -----

  /** What insertion or removal hands to `ReBalance`: exact measures, balanced children, and
      sibling heights at most two apart. */
  ghost predicate NearlyBalanced(t: Tree) {
    t.Branch? && Measured(t) && Balanced(t.left) && Balanced(t.right) && -2 <= Balance(t) <= 2
  }

  function ReBalance(t: Tree, version: nat): (r: Tree)
    requires NearlyBalanced(t)
    ensures Measured(r) && Balanced(r) && r.Branch?
    ensures Size(r) == Size(t)
    ensures Height(t) - 1 <= Height(r) <= Height(t)
    ensures -1 <= Balance(t) <= 1 ==> r == t
  {
    if Balance(t) > 1 then LowerLeft(t, version)
    else if Balance(t) < -1 then LowerRight(t, version)
    else t
  }

  /** The left-left and left-right cases of `reBalance`. */
  function LowerLeft(t: Tree, version: nat): (r: Tree)
    requires NearlyBalanced(t) && Balance(t) == 2
    ensures Measured(r) && Balanced(r) && r.Branch?
    ensures Size(r) == Size(t)
    ensures Height(t) - 1 <= Height(r) <= Height(t)
  {
    assert Measured(t.left) && Balanced(t.left);
    if Balance(t.left) >= 0 then
      RotateRight(t, version)
    else
      assert Measured(t.left.right) && Balanced(t.left.right);
      RotateRight(t.(left := RotateLeft(Stamp(t.left, version), version)), version)
  }

  /** The right-right and right-left cases of `reBalance`. */
  function LowerRight(t: Tree, version: nat): (r: Tree)
    requires NearlyBalanced(t) && Balance(t) == -2
    ensures Measured(r) && Balanced(r) && r.Branch?
    ensures Size(r) == Size(t)
    ensures Height(t) - 1 <= Height(r) <= Height(t)
  {
    assert Measured(t.right) && Balanced(t.right);
    if Balance(t.right) <= 0 then
      RotateLeft(t, version)
    else
      assert Measured(t.right.left) && Balanced(t.right.left);
      RotateLeft(t.(right := RotateRight(Stamp(t.right, version), version)), version)
  }

  // ----- Insertion and removal -----

  /** `setRecursive` on a non-empty tree. The flag says that an existing key was updated. */
  function SetRecursive(t: Tree, key: Bytes, value: Bytes, version: nat): (r: (Tree, bool))
    requires Measured(t) && Balanced(t)
    ensures Measured(r.0) && Balanced(r.0)
    ensures Height(t) <= Height(r.0) <= Height(t) + 1
    ensures r.1 ==> Height(r.0) == Height(t)
    ensures Size(r.0) == if r.1 then Size(t) else Size(t) + 1
  {
    match t
    case Leaf(k, _, _) =>
      var leaf := Leaf(key, value, version);
      if Less(key, k) then (Branch(k, version, 1, 2, leaf, t), false)
      else if Less(k, key) then (Branch(key, version, 1, 2, t, leaf), false)
      else (Leaf(k, value, version), true)
    case Branch(k, _, _, _, l, r) =>
      if Less(key, k) then
        var (child, updated) := SetRecursive(l, key, value, version);
        var node := WithLeft(t, version, child);
        (if updated then node else ReBalance(UpdateHeightSize(node), version), updated)
      else
        var (child, updated) := SetRecursive(r, key, value, version);
        var node := WithRight(t, version, k, child);
        (if updated then node else ReBalance(UpdateHeightSize(node), version), updated)
  }

  /** What `removeRecursive` returns: the removed value if the key was present, the remaining
      subtree if any, and the new smallest key of that subtree if it changed. */
  datatype Removed = Removed(value: Option<Bytes>, rest: Option<Tree>, newKey: Option<Bytes>)

  /** `removeRecursive` on a non-empty tree. */
  function RemoveRecursive(t: Tree, key: Bytes, version: nat): (r: Removed)
    requires Measured(t) && Balanced(t)
    ensures r.value.None? ==> r == Removed(None, Some(t), None)
    ensures r.rest.None? ==> t.Leaf?
    ensures r.rest.Some? ==> Measured(r.rest.value) && Balanced(r.rest.value)
    ensures r.rest.Some? ==> Height(t) - 1 <= Height(r.rest.value) <= Height(t)
    ensures r.value.Some? && r.rest.Some? ==> Size(r.rest.value) == Size(t) - 1
  {
    match t
    case Leaf(k, v, _) =>
      if k == key then Removed(Some(v), None, None) else Removed(None, Some(t), None)
    case Branch(k, _, _, _, l, r) =>
      if Less(key, k) then
        var Removed(value, rest, newKey) := RemoveRecursive(l, key, version);
        if value.None? then Removed(None, Some(t), None)
        else if rest.None? then Removed(value, Some(r), Some(k))
        else
          var node := WithLeft(t, version, rest.value);
          Removed(value, Some(ReBalance(UpdateHeightSize(node), version)), newKey)
      else
        var Removed(value, rest, newKey) := RemoveRecursive(r, key, version);
        if value.None? then Removed(None, Some(t), None)
        else if rest.None? then Removed(value, Some(l), None)
        else
          var node := WithRight(t, version, if newKey.Some? then newKey.value else k, rest.value);
          Removed(value, Some(ReBalance(UpdateHeightSize(node), version)), None)
  }
}
