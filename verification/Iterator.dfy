/** Range iteration in either direction with an explicit stack, skipping subtrees outside the range. */
module Iterators {
  import opened Bytes
  import opened AvlTree
  import opened AvlCorrectness
  import opened MerkleHash
  import opened Snapshot
  import opened MemNodes
  import opened NodeStacks

  type Item = (Bytes, Bytes)

  /** The keys from `start` up to but not including `end`; a missing bound is open. */
  datatype Domain = Domain(start: Option<Bytes>, end: Option<Bytes>, ascending: bool)

  predicate AfterStart(d: Domain, key: Bytes) {
    d.start.None? || Less(d.start.value, key)
  }

  predicate BeforeEnd(d: Domain, key: Bytes) {
    d.end.None? || Less(key, d.end.value)
  }

  predicate InDomain(d: Domain, key: Bytes) {
    (AfterStart(d, key) || d.start == Some(key)) && BeforeEnd(d, key)
  }

  // ----- What an iteration should yield -----

  /** The contents restricted to the domain. */
  ghost function Restrict(m: map<Bytes, Bytes>, d: Domain): map<Bytes, Bytes> {
    map k | k in m && InDomain(d, k) :: m[k]
  }

  ghost predicate InOrder(items: seq<Item>, ascending: bool) {
    forall i, j :: 0 <= i < j < |items| ==>
      if ascending then Less(items[i].0, items[j].0) else Less(items[j].0, items[i].0)
  }

  /** `items` is the restriction in key order, ascending or descending. */
  ghost predicate IsIteration(m: map<Bytes, Bytes>, d: Domain, items: seq<Item>) {
    Lists(items, Restrict(m, d)) && InOrder(items, d.ascending)
  }

  /** There is only one such sequence. */
  lemma IterationIsUnique(m: map<Bytes, Bytes>, d: Domain, a: seq<Item>, b: seq<Item>)
    requires IsIteration(m, d, a) && IsIteration(m, d, b)
    ensures a == b
  {
    hide Restrict;
    hide Lists;
    hide Less;
    var r := Restrict(m, d);
    if d.ascending {
      ListingIsUnique(a, b, r);
    } else {
      ReverseLists(a, r);
      ReverseLists(b, r);
      hide InOrder;
      hide Increasing;
      ListingIsUnique(Reverse(a), Reverse(b), r);
      ReverseInjective(a, b);
    }
  }

  ghost function Reverse(items: seq<Item>): (r: seq<Item>)
    ensures |r| == |items| && forall i :: 0 <= i < |items| ==> r[|items| - 1 - i] == items[i]
  {
    seq(|items|, i requires 0 <= i < |items| => items[|items| - 1 - i])
  }

  lemma ReverseInjective(a: seq<Item>, b: seq<Item>)
    requires Reverse(a) == Reverse(b)
    ensures a == b
  {
    forall i | 0 <= i < |a| ensures a[i] == b[i] {
      assert Reverse(a)[|a| - 1 - i] == a[i] && Reverse(b)[|b| - 1 - i] == b[i];
    }
  }

  lemma ReverseLists(items: seq<Item>, m: map<Bytes, Bytes>)
    requires Lists(items, m) && InOrder(items, false)
    ensures Lists(Reverse(items), m) && Increasing(Reverse(items))
  {
    hide Less;
    forall k | k in m ensures (k, m[k]) in Reverse(items) {
      var i :| 0 <= i < |items| && items[i] == (k, m[k]);
      assert Reverse(items)[|items| - 1 - i] == items[i];
    }
  }

  // ----- What the traversal yields -----

  /** The walk over one subtree, without any skipping. */
  ghost function Yield(t: Tree, d: Domain): seq<Item> {
    if t.Leaf? then (if InDomain(d, t.key) then [(t.key, t.value)] else [])
    else if d.ascending then Yield(t.left, d) + Yield(t.right, d)
    else Yield(t.right, d) + Yield(t.left, d)
  }

  lemma {:induction false} YieldKeys(t: Tree, d: Domain, i: nat)
    requires i < |Yield(t, d)|
    ensures Yield(t, d)[i].0 in Keys(t) && InDomain(d, Yield(t, d)[i].0)
    decreases t
  {
    hide InDomain;
    if t.Branch? {
      var a, b := if d.ascending then t.left else t.right, if d.ascending then t.right else t.left;
      if i < |Yield(a, d)| { YieldKeys(a, d, i); } else { YieldKeys(b, d, i - |Yield(a, d)|); }
    }
  }

  /** A branch key at or past the end rules out the whole right subtree. */
  lemma SkipRight(t: Tree, d: Domain)
    requires t.Branch? && Ordered(t) && !BeforeEnd(d, t.key)
    ensures Yield(t.right, d) == []
  {
    hide Compare;
    if Yield(t.right, d) != [] {
      YieldKeys(t.right, d, 0);
      LessIsTotalOrder();
    }
  }

  /** A branch key at or before the start rules out the whole left subtree. */
  lemma SkipLeft(t: Tree, d: Domain)
    requires t.Branch? && Ordered(t) && !AfterStart(d, t.key)
    ensures Yield(t.left, d) == []
  {
    hide Compare;
    if Yield(t.left, d) != [] {
      YieldKeys(t.left, d, 0);
      LessIsTotalOrder();
    }
  }

  /** The walk yields exactly the items of the domain, in order. */
  lemma {:induction false} YieldIsIteration(t: Tree, d: Domain)
    requires Ordered(t)
    ensures IsIteration(Contents(t), d, Yield(t, d))
    decreases t
  {
    hide InDomain;
    if t.Branch? {
      YieldIsIteration(t.left, d);
      YieldIsIteration(t.right, d);
      var l, r := Yield(t.left, d), Yield(t.right, d);
      forall i, j | 0 <= i < |l| && 0 <= j < |r| ensures Less(l[i].0, r[j].0) {
        YieldKeys(t.left, d, i);
        YieldKeys(t.right, d, j);
        BetweenSides(t, l[i].0, r[j].0);
      }
      RestrictJoin(t, d);
      var a, b := Restrict(Contents(t.left), d), Restrict(Contents(t.right), d);
      hide Ordered;
      hide Less;
      hide Contents;
      hide Restrict;
      hide Lists;
      hide InOrder;
      ListsJoin(l, r, a, b);
      OrderJoin(l, r, d.ascending);
    }
  }

  lemma BetweenSides(t: Tree, a: Bytes, b: Bytes)
    requires t.Branch? && Ordered(t) && a in Keys(t.left) && b in Keys(t.right)
    ensures Less(a, b)
  {
    hide Compare;
    LessIsTotalOrder();
  }

  lemma OrderJoin(l: seq<Item>, r: seq<Item>, ascending: bool)
    requires InOrder(l, ascending) && InOrder(r, ascending)
    requires forall i, j :: 0 <= i < |l| && 0 <= j < |r| ==> Less(l[i].0, r[j].0)
    ensures if ascending then InOrder(l + r, true) else InOrder(r + l, false)
  {
    hide Less;
  }

  lemma ListsJoin(l: seq<Item>, r: seq<Item>, a: map<Bytes, Bytes>, b: map<Bytes, Bytes>)
    requires Lists(l, a) && Lists(r, b) && a.Keys !! b.Keys
    ensures Lists(l + r, a + b) && Lists(r + l, a + b)
  {
    var m := a + b;
    forall k | k in m ensures (k, m[k]) in l || (k, m[k]) in r {
      if k in b { assert (k, b[k]) in r; } else { assert (k, a[k]) in l; }
    }
  }

  lemma RestrictJoin(t: Tree, d: Domain)
    requires t.Branch? && Ordered(t)
    ensures var a, b := Restrict(Contents(t.left), d), Restrict(Contents(t.right), d);
      Restrict(Contents(t), d) == a + b && a.Keys !! b.Keys
  {
    hide InDomain;
    hide Compare;
    forall k | k in Keys(t.left) ensures k !in Keys(t.right) { KeySide(t, k); }
  }

  // ----- The stack -----

  ghost predicate AllOrdered(trees: seq<Tree>) {
    forall i :: 0 <= i < |trees| ==> Ordered(trees[i])
  }

  ghost function YieldAll(trees: seq<Tree>, d: Domain): seq<Item> {
    if trees == [] then [] else Yield(trees[|trees| - 1], d) + YieldAll(trees[..|trees| - 1], d)
  }

  ghost function NodeCount(t: Tree): nat {
    if t.Leaf? then 1 else 1 + NodeCount(t.left) + NodeCount(t.right)
  }

  ghost function TotalNodes(trees: seq<Tree>): nat {
    if trees == [] then 0 else NodeCount(trees[|trees| - 1]) + TotalNodes(trees[..|trees| - 1])
  }

  lemma YieldPushed(trees: seq<Tree>, t: Tree, d: Domain)
    ensures YieldAll(trees + [t], d) == Yield(t, d) + YieldAll(trees, d)
    ensures TotalNodes(trees + [t]) == NodeCount(t) + TotalNodes(trees)
  {
    hide Yield;
    hide NodeCount;
    assert (trees + [t])[..|trees|] == trees;
  }

  lemma LeafYields(t: Tree, d: Domain)
    requires t.Leaf?
    ensures Yield(t, d) == if InDomain(d, t.key) then [(t.key, t.value)] else []
  {}

  /** The facts about one node that `Next` uses. */
  lemma NodeFacts(sha: Sha, n: Node, t: Tree)
    requires Holds(sha, n, t) && Ordered(t) && Measured(t)
    ensures IsLeaf(n) == t.Leaf? && KeyOf(n) == t.key && (t.Leaf? ==> ValueOf(n) == t.value && NodeCount(t) == 1)
    ensures t.Branch? ==> Holds(sha, LeftOf(n), t.left) && Holds(sha, RightOf(n), t.right)
    ensures t.Branch? ==> Measured(t.left) && Measured(t.right) && Ordered(t.left) && Ordered(t.right)
  {
    hide HashNode;
    hide Represents;
    hide MemNode.Valid;
    hide Compare;
    Accessors(sha, n, t);
  }

  /** The children of a branch that are worth visiting, the first to visit last. */
  function Visited(n: Node, d: Domain): seq<Node>
    reads Top(n)`key, Top(n)`left, Top(n)`right
  {
    var left := if AfterStart(d, KeyOf(n)) then [LeftOf(n)] else [];
    var right := if BeforeEnd(d, KeyOf(n)) then [RightOf(n)] else [];
    if d.ascending then right + left else left + right
  }

  ghost function VisitedTrees(t: Tree, d: Domain): seq<Tree>
    requires t.Branch?
  {
    var left := if AfterStart(d, t.key) then [t.left] else [];
    var right := if BeforeEnd(d, t.key) then [t.right] else [];
    if d.ascending then right + left else left + right
  }

  /** Which children are visited, and that the others would have yielded nothing. */
  lemma VisitedCases(t: Tree, d: Domain, a: Tree, b: Tree)
    requires t.Branch? && Ordered(t)
    requires a == (if d.ascending then t.right else t.left) && b == (if d.ascending then t.left else t.right)
    ensures Yield(t, d) == Yield(b, d) + Yield(a, d)
    ensures var visited := VisitedTrees(t, d);
      || visited == [a] + [b] || (visited == [a] && Yield(b, d) == []) || (visited == [b] && Yield(a, d) == [])
      || (visited == [] && Yield(a, d) == [] && Yield(b, d) == [])
  {
    hide AfterStart;
    hide BeforeEnd;
    hide Ordered;
    if !AfterStart(d, t.key) { SkipLeft(t, d); }
    if !BeforeEnd(d, t.key) { SkipRight(t, d); }
  }

  /** Replacing a branch on the stack by those children loses nothing. */
  lemma ChildrenYield(trees: seq<Tree>, t: Tree, d: Domain)
    requires t.Branch? && Ordered(t)
    ensures YieldAll(trees + VisitedTrees(t, d), d) == Yield(t, d) + YieldAll(trees, d)
    ensures TotalNodes(trees + VisitedTrees(t, d)) < NodeCount(t) + TotalNodes(trees)
  {
    hide VisitedTrees;
    hide YieldAll;
    hide TotalNodes;
    hide Yield;
    hide Ordered;
    var a, b := if d.ascending then t.right else t.left, if d.ascending then t.left else t.right;
    var visited, rest := VisitedTrees(t, d), YieldAll(trees, d);
    VisitedCases(t, d, a, b);
    if visited == [a] + [b] {
      YieldPushed(trees, a, d);
      YieldPushed(trees + [a], b, d);
      assert trees + visited == trees + [a] + [b];
      assert Yield(b, d) + (Yield(a, d) + rest) == Yield(b, d) + Yield(a, d) + rest;
    } else if visited == [a] {
      YieldPushed(trees, a, d);
    } else if visited == [b] {
      YieldPushed(trees, b, d);
    } else {
      assert trees + visited == trees;
    }
  }

  lemma PushVisited(sha: Sha, stack: seq<Node>, trees: seq<Tree>, n: Node, t: Tree, d: Domain)
    requires OnStack(sha, stack, trees) && AllOrdered(trees) && t.Branch?
    requires Holds(sha, n, t) && Ordered(t) && Measured(t)
    ensures OnStack(sha, stack + Visited(n, d), trees + VisitedTrees(t, d)) && AllOrdered(trees + VisitedTrees(t, d))
  {
    hide Holds;
    hide Ordered;
    hide Measured;
    hide OnStack;
    hide AfterStart;
    hide BeforeEnd;
    hide KeyOf;
    NodeFacts(sha, n, t);
    var left := if AfterStart(d, t.key) then [LeftOf(n)] else [];
    var leftT := if AfterStart(d, t.key) then [t.left] else [];
    var right := if BeforeEnd(d, t.key) then [RightOf(n)] else [];
    var rightT := if BeforeEnd(d, t.key) then [t.right] else [];
    if d.ascending {
      PushSome(sha, stack, trees, right, rightT, RightOf(n), t.right);
      PushSome(sha, stack + right, trees + rightT, left, leftT, LeftOf(n), t.left);
      assert stack + (right + left) == stack + right + left && trees + (rightT + leftT) == trees + rightT + leftT;
    } else {
      PushSome(sha, stack, trees, left, leftT, LeftOf(n), t.left);
      PushSome(sha, stack + left, trees + leftT, right, rightT, RightOf(n), t.right);
      assert stack + (left + right) == stack + left + right && trees + (leftT + rightT) == trees + leftT + rightT;
    }
  }

  lemma PushSome(sha: Sha, stack: seq<Node>, trees: seq<Tree>, ns: seq<Node>, ts: seq<Tree>, n: Node, t: Tree)
    requires OnStack(sha, stack, trees) && Holds(sha, n, t) && Measured(t)
    requires (ns == [] && ts == []) || (ns == [n] && ts == [t])
    ensures OnStack(sha, stack + ns, trees + ts)
  {
    hide *;
    if ns == [] {
      assert stack + ns == stack && trees + ts == trees;
    } else {
      PushOnStack(sha, stack, trees, n, t);
    }
  }

  /** `Iterator`: the current item and the stack of subtrees still to visit. */
  class Iterator {
    const domain: Domain
    var key: Bytes
    var value: Bytes
    var valid: bool
    var stack: seq<Node>

    /** The subtrees on the stack. */
    ghost var trees: seq<Tree>

    ghost predicate Valid(sha: Sha)
      reads this, Tops(stack), Below(stack)
    {
      OnStack(sha, stack, trees) && AllOrdered(trees) && (valid || |stack| == 0)
    }

    /** The current item and the ones that `Next` will still produce. */
    ghost function Remaining(): seq<Item>
      reads this
    {
      if valid then [(key, value)] + YieldAll(trees, domain) else []
    }

    /** `NewIterator`, up to the first call of `Next`. */
    constructor Start(sha: Sha, domain: Domain, root: Node, ghost r: Root)
      requires if r.None? then root == Nil else Holds(sha, root, r.value) && Ordered(r.value) && Measured(r.value)
      ensures Valid(sha) && valid && this.domain == domain
      ensures YieldAll(trees, domain) == if r.None? then [] else Yield(r.value, domain)
    {
      hide HashNode;
      hide Represents;
      hide MemNode.Valid;
      hide Ordered;
      this.domain := domain;
      key, value, valid := [], [], true;
      stack := if root == Nil then [] else [root];
      trees := if root == Nil then [] else [r.value];
      new;
      if r.Some? {
        YieldPushed([], r.value, domain);
        assert [] + [r.value] == [r.value];
        assert Yield(r.value, domain) + [] == Yield(r.value, domain);
      }
    }

    /** Assigns the fields. */
    method Put(sha: Sha, key: Bytes, value: Bytes, valid: bool, stack: seq<Node>, ghost trees: seq<Tree>)
      requires OnStack(sha, stack, trees)
      modifies this
      ensures OnStack(sha, stack, trees)
      ensures this.key == key && this.value == value && this.valid == valid
      ensures this.stack == stack && this.trees == trees
    {
      hide Holds;
      hide Ordered;
      hide Measured;
      this.key, this.value, this.valid, this.stack, this.trees := key, value, valid, stack, trees;
    }

    /** `Next`: steps to the next item, or past the end. */
    method Next(sha: Sha)
      requires Valid(sha)
      modifies this
      ensures Valid(sha)
      ensures Remaining() == old(YieldAll(trees, domain)) && (valid ==> old(valid))
    {
      hide OnStack;
      hide Yield;
      hide NodeCount;
      hide TotalNodes;
      hide Holds;
      hide Ordered;
      hide Measured;
      hide Visited;
      hide VisitedTrees;
      hide Compare;
      StackLengths(sha, stack, trees);
      var todo, found := stack, None;
      ghost var rest := trees;
      while |todo| > 0
        invariant OnStack(sha, todo, rest) && AllOrdered(rest) && |rest| == |todo|
        invariant (valid || |todo| == 0) && found.None?
        invariant YieldAll(rest, domain) == YieldAll(trees, domain)
        modifies {}
        decreases TotalNodes(rest)
      {
        PopStack(sha, todo, rest);
        var top := |todo| - 1;
        var node := todo[top];
        ghost var t := rest[top];
        todo, rest := todo[..top], rest[..top];
        NodeFacts(sha, node, t);
        YieldPushed(rest, t, domain);
        if IsLeaf(node) {
          LeafYields(t, domain);
          if InDomain(domain, KeyOf(node)) {
            found := Some((KeyOf(node), ValueOf(node)));
            break;
          }
        } else {
          ChildrenYield(rest, t, domain);
          PushVisited(sha, todo, rest, node, t, domain);
          todo, rest := todo + Visited(node, domain), rest + VisitedTrees(t, domain);
          StackLengths(sha, todo, rest);
        }
      }
      if found.Some? {
        Put(sha, found.value.0, found.value.1, valid, todo, rest);
      } else {
        Put(sha, key, value, false, todo, rest);
      }
    }
  }

  /** A whole iteration, from `NewIterator` until the iterator is no longer valid. */
  method Iterate(sha: Sha, domain: Domain, root: Node, ghost r: Root) returns (items: seq<Item>)
    requires if r.None? then root == Nil else Holds(sha, root, r.value) && Ordered(r.value) && Measured(r.value)
    ensures IsIteration(RootContents(r), domain, items)
  {
    hide Holds;
    hide Ordered;
    hide Yield;
    hide IsIteration;
    RootYields(r, domain);
    items := [];
    var it := new Iterator.Start(sha, domain, root, r);
    items := Collect(sha, it);
  }

  /** `Next` and then the items of a started iterator, one by one. */
  method Collect(sha: Sha, it: Iterator) returns (items: seq<Item>)
    requires it.Valid(sha) && it.valid
    modifies it
    ensures items == old(YieldAll(it.trees, it.domain))
  {
    hide Iterator.Valid;
    hide YieldAll;
    items := [];
    ghost var all := YieldAll(it.trees, it.domain);
    it.Next(sha);
    while it.valid
      invariant it.Valid(sha) && items + it.Remaining() == all
      decreases |it.Remaining()|
    {
      Regroup(items, (it.key, it.value), YieldAll(it.trees, it.domain));
      items := items + [(it.key, it.value)];
      it.Next(sha);
    }
    assert items + [] == items;
  }

  lemma Regroup<T>(a: seq<T>, x: T, b: seq<T>)
    ensures a + ([x] + b) == (a + [x]) + b
  {}

  lemma RootYields(r: Root, d: Domain)
    requires r.Some? ==> Ordered(r.value)
    ensures IsIteration(RootContents(r), d, if r.None? then [] else Yield(r.value, d))
  {
    hide Ordered;
    hide Yield;
    if r.Some? { YieldIsIteration(r.value, d); }
  }
}
