/** Node versions. Each leaf carries the version that last wrote it, and every node that setting or removing a key does
    not take over from the old tree carries the version being written. */
module AvlRecords {
  import opened Bytes
  import opened AvlTree
  import opened AvlCorrectness

  /** What a leaf stands for: the value and the version that wrote it. */
  type Record = (Bytes, nat)

  ghost function Records(t: Tree): (m: map<Bytes, Record>)
    ensures m.Keys == Keys(t)
  {
    match t
    case Leaf(k, v, ver) => map[k := (v, ver)]
    case Branch(_, _, _, _, l, r) => Records(l) + Records(r)
  }

  /** The records are the contents with versions. */
  lemma {:induction false} RecordsHoldContents(t: Tree)
    ensures forall k :: k in Records(t) ==> Records(t)[k].0 == Contents(t)[k]
  {
    if t.Branch? {
      RecordsHoldContents(t.left);
      RecordsHoldContents(t.right);
    }
  }

  lemma MergeAssociates<K, V>(a: map<K, V>, b: map<K, V>, c: map<K, V>)
    ensures a + b + c == a + (b + c)
  {}

  lemma {:induction false} RotationsKeepRecords(t: Tree, version: nat)
    requires t.Branch?
    ensures t.left.Branch? ==> Records(RotateRight(t, version)) == Records(t)
    ensures t.right.Branch? ==> Records(RotateLeft(t, version)) == Records(t)
    ensures Records(Stamp(t, version)) == Records(t)
  {
    if t.left.Branch? { MergeAssociates(Records(t.left.left), Records(t.left.right), Records(t.right)); }
    if t.right.Branch? { MergeAssociates(Records(t.left), Records(t.right.left), Records(t.right.right)); }
  }

  lemma ReBalanceKeepsRecords(t: Tree, version: nat)
    requires NearlyBalanced(t)
    ensures Records(ReBalance(t, version)) == Records(t)
  {
    RotationsKeepRecords(t, version);
    if Balance(t) == 2 && Balance(t.left) < 0 {
      var l := Stamp(t.left, version);
      RotationsKeepRecords(t.left, version);
      RotationsKeepRecords(l, version);
      RotationsKeepRecords(t.(left := RotateLeft(l, version)), version);
    } else if Balance(t) == -2 && Balance(t.right) > 0 {
      var r := Stamp(t.right, version);
      RotationsKeepRecords(t.right, version);
      RotationsKeepRecords(r, version);
      RotationsKeepRecords(t.(right := RotateRight(r, version)), version);
    }
  }

  /** Setting a key writes exactly one record, with the version being written. */
  lemma {:induction false} SetRecords(t: Tree, key: Bytes, value: Bytes, version: nat)
    requires WellFormed(t)
    ensures Records(SetRecursive(t, key, value, version).0) == Records(t)[key := (value, version)]
  {
    if t.Leaf? {
      CompareFlips(t.key, key);
      assert Records(t) == map[t.key := (t.value, t.version)];
    } else {
      hide Compare;
      hide ReBalance;
      var side := if Less(key, t.key) then t.left else t.right;
      SetRecords(side, key, value, version);
      var (child, updated) := SetRecursive(side, key, value, version);
      var node := if Less(key, t.key) then WithLeft(t, version, child) else WithRight(t, version, t.key, child);
      KeySide(t, key);
      MergeUpdates(Records(t.left), Records(t.right), key, (value, version));
      assert Records(node) == Records(t)[key := (value, version)];
      if !updated { ReBalanceKeepsRecords(UpdateHeightSize(node), version); }
    }
  }

  ghost function RootRecords(r: Root): map<Bytes, Record> {
    if r.Some? then Records(r.value) else map[]
  }

  /** Removing a key takes away its record and leaves the others, versions included. */
  lemma {:induction false} RemoveRecords(t: Tree, key: Bytes, version: nat)
    requires WellFormed(t)
    ensures RootRecords(RemoveRecursive(t, key, version).rest) == Records(t) - {key}
  {
    if t.Leaf? {
      assert Records(t) == map[t.key := (t.value, t.version)];
    } else {
      hide Compare;
      hide RemoveRecursive;
      hide IsRest;
      KeySide(t, key);
      var side := if Less(key, t.key) then t.left else t.right;
      RemoveRecords(side, key, version);
      RemoveRecursiveCorrect(side, key, version);
      if Less(key, t.key) { RemoveRecordsLeft(t, key, version); } else { RemoveRecordsRight(t, key, version); }
    }
  }

  lemma RemoveRecordsLeft(t: Tree, key: Bytes, version: nat)
    requires t.Branch? && Measured(t) && Balanced(t) && Less(key, t.key) && key !in Keys(t.right)
    requires var child := RemoveRecursive(t.left, key, version);
      RootRecords(child.rest) == Records(t.left) - {key} && (child.value.None? ==> key !in Keys(t.left))
    ensures RootRecords(RemoveRecursive(t, key, version).rest) == Records(t) - {key}
  {
    hide Less;
    hide ReBalance;
    hide Keys;
    MergeRemovals(Records(t.left), Records(t.right), key);
    var child := RemoveRecursive(t.left, key, version);
    if child.value.None? {
      NothingTaken(Records(t), key);
    } else if child.rest.None? {
      NothingTaken(Records(t.right), key);
    } else {
      ReBalanceKeepsRecords(UpdateHeightSize(WithLeft(t, version, child.rest.value)), version);
    }
  }

  lemma RemoveRecordsRight(t: Tree, key: Bytes, version: nat)
    requires t.Branch? && Measured(t) && Balanced(t) && !Less(key, t.key) && key !in Keys(t.left)
    requires var child := RemoveRecursive(t.right, key, version);
      RootRecords(child.rest) == Records(t.right) - {key} && (child.value.None? ==> key !in Keys(t.right))
    ensures RootRecords(RemoveRecursive(t, key, version).rest) == Records(t) - {key}
  {
    hide Less;
    hide ReBalance;
    hide Keys;
    MergeRemovals(Records(t.left), Records(t.right), key);
    var child := RemoveRecursive(t.right, key, version);
    if child.value.None? {
      NothingTaken(Records(t), key);
    } else if child.rest.None? {
      NothingTaken(Records(t.left), key);
    } else {
      var sep := if child.newKey.Some? then child.newKey.value else t.key;
      ReBalanceKeepsRecords(UpdateHeightSize(WithRight(t, version, sep, child.rest.value)), version);
    }
  }

  lemma NothingTaken<K, V>(m: map<K, V>, k: K)
    ensures k !in m ==> m - {k} == m
    ensures map[] + m == m && m + map[] == m
  {}

  // ----- Which nodes are new -----

  ghost predicate IsSubtree(x: Tree, t: Tree) {
    x == t || (t.Branch? && (IsSubtree(x, t.left) || IsSubtree(x, t.right)))
  }

  /** Every node of `r` is the root of a subtree of `t` or carries exactly the version written. */
  ghost predicate Rebuilt(r: Tree, t: Tree, version: nat) {
    IsSubtree(r, t)
    || (r.version == version && (r.Branch? ==> Rebuilt(r.left, t, version) && Rebuilt(r.right, t, version)))
  }

  lemma {:induction false} SubtreeChildren(x: Tree, t: Tree)
    requires IsSubtree(x, t) && x.Branch?
    ensures IsSubtree(x.left, t) && IsSubtree(x.right, t)
    decreases t
  {
    if x != t {
      if IsSubtree(x, t.left) { SubtreeChildren(x, t.left); } else { SubtreeChildren(x, t.right); }
    }
  }

  lemma ChildrenRebuilt(r: Tree, t: Tree, version: nat)
    requires Rebuilt(r, t, version) && r.Branch?
    ensures Rebuilt(r.left, t, version) && Rebuilt(r.right, t, version)
  {
    if IsSubtree(r, t) { SubtreeChildren(r, t); }
  }

  lemma {:induction false} RebuiltWithin(r: Tree, side: Tree, t: Tree, version: nat)
    requires Rebuilt(r, side, version) && t.Branch? && (side == t.left || side == t.right)
    ensures Rebuilt(r, t, version)
    decreases r
  {
    if !IsSubtree(r, side) && r.Branch? {
      RebuiltWithin(r.left, side, t, version);
      RebuiltWithin(r.right, side, t, version);
    }
  }

  /** A branch with the version written, over children that are accounted for. */
  ghost predicate RebuiltBranch(r: Tree, t: Tree, version: nat) {
    r.Branch? && r.version == version && Rebuilt(r.left, t, version) && Rebuilt(r.right, t, version)
  }

  lemma RotateRightRebuilt(r: Tree, t: Tree, version: nat)
    requires RebuiltBranch(r, t, version) && r.left.Branch?
    ensures RebuiltBranch(RotateRight(r, version), t, version)
  {
    ChildrenRebuilt(r.left, t, version);
  }

  lemma RotateLeftRebuilt(r: Tree, t: Tree, version: nat)
    requires RebuiltBranch(r, t, version) && r.right.Branch?
    ensures RebuiltBranch(RotateLeft(r, version), t, version)
  {
    ChildrenRebuilt(r.right, t, version);
  }

  lemma ReBalanceRebuilt(r: Tree, t: Tree, version: nat)
    requires NearlyBalanced(r) && RebuiltBranch(r, t, version)
    ensures RebuiltBranch(ReBalance(r, version), t, version)
  {
    hide Rebuilt;
    if Balance(r) == 2 {
      if Balance(r.left) >= 0 {
        RotateRightRebuilt(r, t, version);
      } else {
        ChildrenRebuilt(r.left, t, version);
        RotateLeftRebuilt(Stamp(r.left, version), t, version);
        BranchRebuilt(RotateLeft(Stamp(r.left, version), version), t, version);
        RotateRightRebuilt(r.(left := RotateLeft(Stamp(r.left, version), version)), t, version);
      }
    } else if Balance(r) == -2 {
      if Balance(r.right) <= 0 {
        RotateLeftRebuilt(r, t, version);
      } else {
        ChildrenRebuilt(r.right, t, version);
        RotateRightRebuilt(Stamp(r.right, version), t, version);
        BranchRebuilt(RotateRight(Stamp(r.right, version), version), t, version);
        RotateLeftRebuilt(r.(right := RotateRight(Stamp(r.right, version), version)), t, version);
      }
    }
  }

  lemma BranchRebuilt(r: Tree, t: Tree, version: nat)
    requires RebuiltBranch(r, t, version)
    ensures Rebuilt(r, t, version)
  {}

  lemma SelfRebuilt(t: Tree, version: nat)
    ensures Rebuilt(t, t, version) && (t.Branch? ==> Rebuilt(t.left, t, version) && Rebuilt(t.right, t, version))
  {}

  /** The nodes that setting a key creates, at whatever depth, carry exactly the version written. */
  lemma {:induction false} SetRebuilds(t: Tree, key: Bytes, value: Bytes, version: nat)
    requires Measured(t) && Balanced(t)
    ensures Rebuilt(SetRecursive(t, key, value, version).0, t, version)
  {
    if t.Branch? {
      hide Rebuilt;
      hide ReBalance;
      SelfRebuilt(t, version);
      var side := if Less(key, t.key) then t.left else t.right;
      SetRebuilds(side, key, value, version);
      var (child, updated) := SetRecursive(side, key, value, version);
      RebuiltWithin(child, side, t, version);
      var node := if Less(key, t.key) then WithLeft(t, version, child) else WithRight(t, version, t.key, child);
      BranchRebuilt(node, t, version);
      if !updated {
        ReBalanceRebuilt(UpdateHeightSize(node), t, version);
        BranchRebuilt(ReBalance(UpdateHeightSize(node), version), t, version);
      }
    }
  }

  /** The same for removing a key. */
  lemma {:induction false} RemoveRebuilds(t: Tree, key: Bytes, version: nat)
    requires Measured(t) && Balanced(t)
    ensures var r := RemoveRecursive(t, key, version); r.rest.Some? ==> Rebuilt(r.rest.value, t, version)
  {
    SelfRebuilt(t, version);
    if t.Branch? {
      hide Rebuilt;
      hide ReBalance;
      var side := if Less(key, t.key) then t.left else t.right;
      RemoveRebuilds(side, key, version);
      var child := RemoveRecursive(side, key, version);
      if child.value.Some? && child.rest.Some? {
        RebuiltWithin(child.rest.value, side, t, version);
        var sep := if child.newKey.Some? then child.newKey.value else t.key;
        var node := if Less(key, t.key) then WithLeft(t, version, child.rest.value)
          else WithRight(t, version, sep, child.rest.value);
        ReBalanceRebuilt(UpdateHeightSize(node), t, version);
        BranchRebuilt(ReBalance(UpdateHeightSize(node), version), t, version);
      }
    }
  }
}
