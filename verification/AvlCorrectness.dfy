/** Insertion and removal are exactly map update and map removal, and they keep every tree
    invariant, including the branch keys repaired through `newKey`. */
module AvlCorrectness {
  import opened Bytes
  import opened AvlTree

  lemma {:induction false} KeysNonEmpty(t: Tree)
    ensures Keys(t) != {}
  {
    if t.Branch? { KeysNonEmpty(t.left); }
  }

  lemma MinIsLeft(t: Tree, k: Bytes)
    requires t.Branch? && Ordered(t) && IsMin(k, t)
    ensures IsMin(k, t.left) && Less(k, t.key)
  {
    LessIsTotalOrder();
    KeysNonEmpty(t.left);
    var x :| x in Keys(t.left);
    assert x in Keys(t);
  }

  lemma StampedWeaken(t: Tree, a: nat, b: nat)
    requires Stamped(t, a) && a <= b
    ensures Stamped(t, b)
  {}

  // ----- Rotations keep order, contents and stamps -----

  lemma RotateRightKeeps(t: Tree, version: nat)
    requires t.Branch? && t.left.Branch? && Ordered(t)
    ensures Ordered(RotateRight(t, version))
    ensures Contents(RotateRight(t, version)) == Contents(t)
  {
    hide Compare;
    assert Ordered(t.left);
    AboveSide(t, t.left.key);
  }

  /** A key on the left is below every key on the right. */
  lemma AboveSide(t: Tree, key: Bytes)
    requires t.Branch? && Ordered(t) && key in Keys(t.left)
    ensures forall x :: x in Keys(t.right) ==> !Less(x, key)
  {
    hide Compare;
    forall x | x in Keys(t.right) ensures !Less(x, key) {
      if Less(x, key) { LessTransitive(x, key, t.key); }
    }
  }

  lemma RotateLeftKeeps(t: Tree, version: nat)
    requires t.Branch? && t.right.Branch? && Ordered(t)
    ensures Ordered(RotateLeft(t, version))
    ensures Contents(RotateLeft(t, version)) == Contents(t)
  {
    var r := t.right;
    assert Ordered(r);
    MinIsLeft(r, t.key);
    forall k | k in Keys(t.left) ensures Less(k, r.key) {
      LessTransitive(k, t.key, r.key);
    }
  }

  /** A branch just stamped with `version` over older children, as `ReBalance` receives it. */
  ghost predicate FreshlyStamped(t: Tree, version: nat) {
    t.Branch? && t.version == version && Stamped(t.left, version) && Stamped(t.right, version)
  }

  lemma RotateRightStamps(t: Tree, version: nat)
    requires FreshlyStamped(t, version) && t.left.Branch?
    ensures FreshlyStamped(RotateRight(t, version), version)
  {
    StampedWeaken(t.left.left, t.left.version, version);
    StampedWeaken(t.left.right, t.left.version, version);
  }

  lemma RotateLeftStamps(t: Tree, version: nat)
    requires FreshlyStamped(t, version) && t.right.Branch?
    ensures FreshlyStamped(RotateLeft(t, version), version)
  {
    StampedWeaken(t.right.left, t.right.version, version);
    StampedWeaken(t.right.right, t.right.version, version);
  }

  lemma ReBalanceKeeps(t: Tree, version: nat)
    requires NearlyBalanced(t) && Ordered(t)
    ensures Ordered(ReBalance(t, version))
    ensures Contents(ReBalance(t, version)) == Contents(t)
  {
    if Balance(t) == 2 {
      if Balance(t.left) >= 0 {
        RotateRightKeeps(t, version);
      } else {
        var l := Stamp(t.left, version);
        RotateLeftKeeps(l, version);
        RotateRightKeeps(t.(left := RotateLeft(l, version)), version);
      }
    } else if Balance(t) == -2 {
      if Balance(t.right) <= 0 {
        RotateLeftKeeps(t, version);
      } else {
        var r := Stamp(t.right, version);
        RotateRightKeeps(r, version);
        RotateLeftKeeps(t.(right := RotateRight(r, version)), version);
      }
    }
  }

  lemma ReBalanceStamps(t: Tree, version: nat)
    requires NearlyBalanced(t) && FreshlyStamped(t, version)
    ensures FreshlyStamped(ReBalance(t, version), version)
  {
    if Balance(t) == 2 {
      if Balance(t.left) >= 0 {
        RotateRightStamps(t, version);
      } else {
        StampedChildren(t.left, version);
        RotateLeftStamps(Stamp(t.left, version), version);
        RotateRightStamps(t.(left := RotateLeft(Stamp(t.left, version), version)), version);
      }
    } else if Balance(t) == -2 {
      if Balance(t.right) <= 0 {
        RotateLeftStamps(t, version);
      } else {
        StampedChildren(t.right, version);
        RotateRightStamps(Stamp(t.right, version), version);
        RotateLeftStamps(t.(right := RotateRight(Stamp(t.right, version), version)), version);
      }
    }
  }

  lemma StampedChildren(t: Tree, version: nat)
    requires t.Branch? && Stamped(t, version)
    ensures FreshlyStamped(Stamp(t, version), version)
  {
    StampedWeaken(t.left, t.version, version);
    StampedWeaken(t.right, t.version, version);
  }

  // ----- Insertion -----

  lemma MergeUpdates<K, V>(a: map<K, V>, b: map<K, V>, k: K, v: V)
    ensures a + b[k := v] == (a + b)[k := v]
    ensures k !in b ==> a[k := v] + b == (a + b)[k := v]
  {}

  lemma MergeRemovals<K, V>(a: map<K, V>, b: map<K, V>, k: K)
    ensures k !in b ==> (a - {k}) + b == (a + b) - {k}
    ensures k !in a ==> a + (b - {k}) == (a + b) - {k}
  {}

  /** A key belongs to the side of the branch that the comparison with the branch key picks. */
  lemma KeySide(t: Tree, key: Bytes)
    requires t.Branch? && Ordered(t)
    ensures Less(key, t.key) ==> key !in Keys(t.right)
    ensures !Less(key, t.key) ==> key !in Keys(t.left)
  {}

  lemma ReplaceLeft(t: Tree, version: nat, child: Tree)
    requires t.Branch? && Ordered(t) && Ordered(child)
    requires forall k :: k in Keys(child) ==> Less(k, t.key)
    ensures Ordered(WithLeft(t, version, child))
  {}

  lemma ReplaceRight(t: Tree, version: nat, key: Bytes, child: Tree)
    requires t.Branch? && Ordered(t) && Ordered(child)
    requires IsMin(key, child) && !Less(key, t.key)
    ensures Ordered(WithRight(t, version, key, child))
  {
    forall k | k in Keys(t.left) ensures Less(k, key) {
      if key != t.key {
        CompareFlips(key, t.key);
        LessTransitive(k, t.key, key);
      }
    }
  }

  lemma {:induction false} SetRecursiveCorrect(t: Tree, key: Bytes, value: Bytes, version: nat)
    requires WellFormed(t)
    ensures SetIn(t, key, value, SetRecursive(t, key, value, version))
  {
    if t.Leaf? {
      SetLeaf(t, key, value, version);
    } else {
      hide Compare;
      hide ReBalance;
      var side := if Less(key, t.key) then t.left else t.right;
      SetRecursiveCorrect(side, key, value, version);
      var (child, updated) := SetRecursive(side, key, value, version);
      SetBranch(t, key, value, version, child, updated);
      var node := if Less(key, t.key) then WithLeft(t, version, child) else WithRight(t, version, t.key, child);
      if !updated {
        ReBalanceKeeps(UpdateHeightSize(node), version);
      }
    }
  }

  lemma SetLeaf(t: Tree, key: Bytes, value: Bytes, version: nat)
    requires t.Leaf?
    ensures SetIn(t, key, value, SetRecursive(t, key, value, version))
  {
    CompareFlips(t.key, key);
    assert Contents(t) == map[t.key := t.value];
    assert map[key := value] + map[t.key := t.value] == map[t.key := t.value] + map[key := value]
      || t.key == key;
  }

  lemma SetBranch(t: Tree, key: Bytes, value: Bytes, version: nat, child: Tree, updated: bool)
    requires t.Branch? && Ordered(t)
    requires SetIn(if Less(key, t.key) then t.left else t.right, key, value, (child, updated))
    ensures var node := if Less(key, t.key) then WithLeft(t, version, child) else WithRight(t, version, t.key, child);
      SetIn(t, key, value, (node, updated))
  {
    hide Compare;
    KeySide(t, key);
    MergeUpdates(Contents(t.left), Contents(t.right), key, value);
    if Less(key, t.key) {
      assert Keys(child) == Keys(t.left) + {key};
      ReplaceLeft(t, version, child);
    } else {
      assert Keys(child) == Keys(t.right) + {key};
      CompareFlips(t.key, t.key);
      ReplaceRight(t, version, t.key, child);
    }
  }

  ghost predicate SetIn(t: Tree, key: Bytes, value: Bytes, r: (Tree, bool)) {
    Ordered(r.0) && Contents(r.0) == Contents(t)[key := value] && (r.1 <==> key in Keys(t))
  }

  lemma {:induction false} SetRecursiveStamps(t: Tree, key: Bytes, value: Bytes, version: nat)
    requires Measured(t) && Balanced(t) && Stamped(t, version)
    ensures var r := SetRecursive(t, key, value, version).0; Stamped(r, version) && r.version == version
  {
    if t.Branch? {
      var goLeft := Less(key, t.key);
      StampedChildren(t, version);
      SetRecursiveStamps(if goLeft then t.left else t.right, key, value, version);
      var (child, updated) := SetRecursive(if goLeft then t.left else t.right, key, value, version);
      var node := if goLeft then WithLeft(t, version, child) else WithRight(t, version, t.key, child);
      if !updated {
        ReBalanceStamps(UpdateHeightSize(node), version);
      }
    }
  }

  // ----- Removal -----

  lemma {:induction false} RemoveRecursiveCorrect(t: Tree, key: Bytes, version: nat)
    requires WellFormed(t)
    ensures RemovedFrom(t, key, RemoveRecursive(t, key, version))
  {
    match t
    case Leaf(_, _, _) =>
    case Branch(_, _, _, _, l, r) =>
      KeySide(t, key);
      KeysNonEmpty(l);
      KeysNonEmpty(r);
      if Less(key, t.key) {
        RemoveRecursiveCorrect(l, key, version);
        RemoveLeft(t, key, version, RemoveRecursive(l, key, version));
      } else {
        RemoveRecursiveCorrect(r, key, version);
        RemoveRight(t, key, version, RemoveRecursive(r, key, version));
      }
  }

  /** What `r` must be for it to be the result of removing `key` from `t`. When the smallest key
      of the subtree changed, `newKey` is the new one; otherwise the old one is still there. */
  ghost predicate RemovedFrom(t: Tree, key: Bytes, r: Removed) {
    && r.value == (if key in Keys(t) then Some(Contents(t)[key]) else None)
    && (r.rest.None? <==> Keys(t) == {key})
    && (r.rest.None? ==> r.newKey.None?)
    && (r.rest.Some? ==> IsRest(t, key, r.rest.value, r.newKey))
  }

  ghost predicate IsRest(t: Tree, key: Bytes, rest: Tree, newKey: Option<Bytes>) {
    && Ordered(rest) && Contents(rest) == Contents(t) - {key}
    && (newKey.Some? ==> IsMin(newKey.value, rest))
    && (newKey.None? ==> forall k :: IsMin(k, t) ==> k in Keys(rest))
  }

  lemma RemoveLeft(t: Tree, key: Bytes, version: nat, child: Removed)
    requires t.Branch? && WellFormed(t) && Less(key, t.key)
    requires child == RemoveRecursive(t.left, key, version) && RemovedFrom(t.left, key, child)
    ensures RemovedFrom(t, key, RemoveRecursive(t, key, version))
  {
    hide Compare;
    hide ReBalance;
    hide IsRest;
    KeySide(t, key);
    KeysNonEmpty(t.right);
    if child.value.None? {
      RestUnchanged(t, key);
    } else if child.rest.None? {
      DropLeft(t, key);
    } else {
      KeepLeft(t, key, version, child.rest.value, child.newKey);
      RestReBalanced(t, key, WithLeft(t, version, child.rest.value), child.newKey, version);
    }
  }

  lemma RemoveRight(t: Tree, key: Bytes, version: nat, child: Removed)
    requires t.Branch? && WellFormed(t) && !Less(key, t.key)
    requires child == RemoveRecursive(t.right, key, version) && RemovedFrom(t.right, key, child)
    ensures RemovedFrom(t, key, RemoveRecursive(t, key, version))
  {
    hide Compare;
    hide ReBalance;
    hide IsRest;
    KeySide(t, key);
    KeysNonEmpty(t.left);
    if child.value.None? {
      RestUnchanged(t, key);
    } else if child.rest.None? {
      DropRight(t, key);
    } else {
      var sep := if child.newKey.Some? then child.newKey.value else t.key;
      KeepRight(t, key, version, child.rest.value, child.newKey);
      RestReBalanced(t, key, WithRight(t, version, sep, child.rest.value), None, version);
    }
  }

  lemma RestUnchanged(t: Tree, key: Bytes)
    requires Ordered(t) && key !in Keys(t)
    ensures IsRest(t, key, t, None)
  {}

  lemma RestReBalanced(t: Tree, key: Bytes, node: Tree, newKey: Option<Bytes>, version: nat)
    requires node.Branch? && NearlyBalanced(UpdateHeightSize(node)) && IsRest(t, key, node, newKey)
    ensures IsRest(t, key, ReBalance(UpdateHeightSize(node), version), newKey)
  {
    hide ReBalance;
    ReBalanceKeeps(UpdateHeightSize(node), version);
    assert Keys(ReBalance(UpdateHeightSize(node), version)) == Keys(node);
  }

  lemma DropLeft(t: Tree, key: Bytes)
    requires t.Branch? && Ordered(t) && Keys(t.left) == {key}
    ensures IsRest(t, key, t.right, Some(t.key))
  {
    KeySide(t, key);
  }

  lemma DropRight(t: Tree, key: Bytes)
    requires t.Branch? && Ordered(t) && Keys(t.right) == {key}
    ensures IsRest(t, key, t.left, None)
  {
    KeySide(t, key);
    forall k | IsMin(k, t) ensures k in Keys(t.left) {
      MinIsLeft(t, k);
    }
  }

  lemma KeepLeft(t: Tree, key: Bytes, version: nat, rest: Tree, newKey: Option<Bytes>)
    requires t.Branch? && Ordered(t) && Less(key, t.key) && IsRest(t.left, key, rest, newKey)
    ensures IsRest(t, key, WithLeft(t, version, rest), newKey)
  {
    hide Compare;
    KeySide(t, key);
    MergeRemovals(Contents(t.left), Contents(t.right), key);
    assert Keys(rest) == Keys(t.left) - {key};
    ReplaceLeft(t, version, rest);
    if newKey.Some? {
      AboveSide(t, newKey.value);
    } else {
      forall k | IsMin(k, t) ensures IsMin(k, t.left) {
        MinIsLeft(t, k);
      }
    }
  }

  lemma KeepRight(t: Tree, key: Bytes, version: nat, rest: Tree, newKey: Option<Bytes>)
    requires t.Branch? && Ordered(t) && !Less(key, t.key) && IsRest(t.right, key, rest, newKey)
    ensures IsRest(t, key, WithRight(t, version, if newKey.Some? then newKey.value else t.key, rest), None)
  {
    hide Compare;
    KeySide(t, key);
    MergeRemovals(Contents(t.left), Contents(t.right), key);
    assert Keys(rest) == Keys(t.right) - {key};
    ReplaceRight(t, version, if newKey.Some? then newKey.value else t.key, rest);
    forall k | IsMin(k, t) ensures k in Keys(t.left) {
      MinIsLeft(t, k);
    }
  }

  lemma {:induction false} RemoveRecursiveStamps(t: Tree, key: Bytes, version: nat)
    requires Measured(t) && Balanced(t) && Stamped(t, version)
    ensures var r := RemoveRecursive(t, key, version); r.rest.Some? ==> Stamped(r.rest.value, version)
  {
    if t.Branch? {
      hide Compare;
      hide ReBalance;
      StampedChildren(t, version);
      var goLeft := Less(key, t.key);
      var side := if goLeft then t.left else t.right;
      RemoveRecursiveStamps(side, key, version);
      var Removed(value, rest, newKey) := RemoveRecursive(side, key, version);
      if value.Some? && rest.Some? {
        var sep := if newKey.Some? then newKey.value else t.key;
        var node := if goLeft then WithLeft(t, version, rest.value) else WithRight(t, version, sep, rest.value);
        ReBalanceStamps(UpdateHeightSize(node), version);
      }
    }
  }

  // ----- Whole trees, where a missing root is the empty tree -----

  type Root = Option<Tree>

  ghost predicate WellFormedRoot(r: Root) {
    r.Some? ==> WellFormed(r.value)
  }

  ghost predicate StampedRoot(r: Root, version: nat) {
    r.Some? ==> Stamped(r.value, version)
  }

  ghost function RootContents(r: Root): map<Bytes, Bytes> {
    if r.None? then map[] else Contents(r.value)
  }

  /** `Tree.set`: the new root after writing one pair. */
  function Put(r: Root, key: Bytes, value: Bytes, version: nat): Root
    requires WellFormedRoot(r)
  {
    if r.None? then Some(Leaf(key, value, version)) else Some(SetRecursive(r.value, key, value, version).0)
  }

  /** `Tree.remove`: the new root after deleting one key. */
  function Delete(r: Root, key: Bytes, version: nat): Root
    requires WellFormedRoot(r)
  {
    if r.None? then None else RemoveRecursive(r.value, key, version).rest
  }

  lemma PutCorrect(r: Root, key: Bytes, value: Bytes, version: nat)
    requires WellFormedRoot(r)
    ensures WellFormedRoot(Put(r, key, value, version))
    ensures RootContents(Put(r, key, value, version)) == RootContents(r)[key := value]
    ensures StampedRoot(r, version) ==> StampedRoot(Put(r, key, value, version), version)
  {
    if r.Some? {
      SetRecursiveCorrect(r.value, key, value, version);
      if Stamped(r.value, version) { SetRecursiveStamps(r.value, key, value, version); }
    }
  }

  lemma DeleteCorrect(r: Root, key: Bytes, version: nat)
    requires WellFormedRoot(r)
    ensures WellFormedRoot(Delete(r, key, version))
    ensures RootContents(Delete(r, key, version)) == RootContents(r) - {key}
    ensures StampedRoot(r, version) ==> StampedRoot(Delete(r, key, version), version)
    ensures key !in RootContents(r) ==> Delete(r, key, version) == r
  {
    if r.Some? {
      RemoveRecursiveCorrect(r.value, key, version);
      if Stamped(r.value, version) { RemoveRecursiveStamps(r.value, key, version); }
    }
  }

  // ----- The leaf sequence is the sorted listing of the contents -----

  ghost function Items(t: Tree): seq<(Bytes, Bytes)> {
    match t
    case Leaf(k, v, _) => [(k, v)]
    case Branch(_, _, _, _, l, r) => Items(l) + Items(r)
  }

  ghost predicate Increasing(items: seq<(Bytes, Bytes)>) {
    forall i, j :: 0 <= i < j < |items| ==> Less(items[i].0, items[j].0)
  }

  /** `items` lists exactly the pairs of `m`. */
  ghost predicate Lists(items: seq<(Bytes, Bytes)>, m: map<Bytes, Bytes>) {
    && (forall i :: 0 <= i < |items| ==> items[i].0 in m && m[items[i].0] == items[i].1)
    && (forall k :: k in m ==> (k, m[k]) in items)
  }

  lemma {:induction false} ItemsListContents(t: Tree)
    requires Ordered(t)
    ensures Increasing(Items(t)) && Lists(Items(t), Contents(t))
  {
    if t.Branch? {
      ItemsListContents(t.left);
      ItemsListContents(t.right);
      hide Compare;
      forall k | k in Keys(t.left) ensures k !in Keys(t.right) {}
      var a, b := Items(t.left), Items(t.right);
      forall i, j | 0 <= i < |a| && 0 <= j < |b| ensures Less(a[i].0, b[j].0) {
        LessIsTotalOrder();
        assert a[i].0 in Keys(t.left) && b[j].0 in Keys(t.right);
      }
    }
  }

  /** The first item of an increasing listing has the smallest key, and the rest lists the rest. */
  lemma ListingHead(a: seq<(Bytes, Bytes)>, m: map<Bytes, Bytes>)
    requires Increasing(a) && Lists(a, m) && a != []
    ensures forall k :: k in m ==> k == a[0].0 || Less(a[0].0, k)
    ensures Increasing(a[1..]) && Lists(a[1..], m - {a[0].0})
  {
    hide Compare;
    CompareFlips(a[0].0, a[0].0);
    forall k | k in m ensures k == a[0].0 || ((k, m[k]) in a[1..] && Less(a[0].0, k)) {
      var i :| 0 <= i < |a| && a[i] == (k, m[k]);
      if i > 0 { assert a[1..][i - 1] == a[i]; }
    }
  }

  /** There is only one increasing listing of a map, so the leaf sequence is determined by it. */
  lemma {:induction false} ListingIsUnique(a: seq<(Bytes, Bytes)>, b: seq<(Bytes, Bytes)>, m: map<Bytes, Bytes>)
    requires Increasing(a) && Increasing(b) && Lists(a, m) && Lists(b, m)
    ensures a == b
  {
    hide Compare;
    hide Lists;
    if a != [] && b != [] {
      ListingHead(a, m);
      ListingHead(b, m);
      assert a[0] == b[0] by { ListingHeads(a, b, m); }
      ListingIsUnique(a[1..], b[1..], m - {a[0].0});
      assert a == [a[0]] + a[1..] && b == [b[0]] + b[1..];
    } else {
      ListingEmpty(a, b, m);
    }
  }

  lemma ListingHeads(a: seq<(Bytes, Bytes)>, b: seq<(Bytes, Bytes)>, m: map<Bytes, Bytes>)
    requires Increasing(a) && Increasing(b) && Lists(a, m) && Lists(b, m) && a != [] && b != []
    ensures a[0] == b[0]
  {
    hide Compare;
    ListingHead(a, m);
    ListingHead(b, m);
    CompareFlips(a[0].0, b[0].0);
  }

  lemma ListingEmpty(a: seq<(Bytes, Bytes)>, b: seq<(Bytes, Bytes)>, m: map<Bytes, Bytes>)
    requires Lists(a, m) && Lists(b, m) && (a == [] || b == [])
    ensures a == b
  {
    assert a != [] ==> a[0].0 in m;
    assert b != [] ==> b[0].0 in m;
  }
}
