/** The root hash determines the whole tree, unless two of the byte strings hashed for the two trees
    collide. */
module HashBinding {
  import opened Bytes
  import opened Encoding
  import opened AvlTree
  import opened AvlHeight
  import opened AvlCorrectness
  import opened MerkleHash

  /** Two different strings, one from each set, with the same digest. */
  ghost predicate Collide(sha: Sha, a: set<Bytes>, b: set<Bytes>) {
    exists x, y :: x in a && y in b && x != y && Digest(sha, x) == Digest(sha, y)
  }

  lemma {:induction false} UvarintIsPrefixFree(a: nat, b: nat, s: Bytes, t: Bytes)
    requires Uvarint(a) + s == Uvarint(b) + t
    ensures a == b && s == t
    decreases a
  {
    var x, y := Uvarint(a) + s, Uvarint(b) + t;
    assert x[0] == y[0];
    if a < 128 && b < 128 {
      assert x[1..] == s && y[1..] == t;
    } else if a >= 128 && b >= 128 {
      assert x[1..] == Uvarint(a / 128) + s && y[1..] == Uvarint(b / 128) + t;
      UvarintIsPrefixFree(a / 128, b / 128, s, t);
    }
  }

  lemma VarintIsPrefixFree(a: nat, b: nat, s: Bytes, t: Bytes)
    requires Varint(a) + s == Varint(b) + t
    ensures a == b && s == t
  {
    UvarintIsPrefixFree(2 * a, 2 * b, s, t);
  }

  lemma EncodeBytesIsPrefixFree(x: Bytes, y: Bytes, s: Bytes, t: Bytes)
    requires EncodeBytes(x) + s == EncodeBytes(y) + t
    ensures x == y && s == t
  {
    assert EncodeBytes(x) + s == Uvarint(|x|) + (x + s) && EncodeBytes(y) + t == Uvarint(|y|) + (y + t);
    UvarintIsPrefixFree(|x|, |y|, x + s, y + t);
    assert x == (x + s)[..|x|] && y == (y + t)[..|y|];
    assert s == (x + s)[|x|..] && t == (y + t)[|y|..];
  }

  /** The three numbers and two byte strings that a node hashes. */
  function Message(a: nat, b: nat, c: nat, x: Bytes, y: Bytes): Bytes {
    Varint(a) + Varint(b) + Varint(c) + EncodeBytes(x) + EncodeBytes(y)
  }

  lemma MessageIsInjective(a: nat, b: nat, c: nat, x: Bytes, y: Bytes, a': nat, b': nat, c': nat, x': Bytes, y': Bytes)
    requires Message(a, b, c, x, y) == Message(a', b', c', x', y')
    ensures a == a' && b == b' && c == c' && x == x' && y == y'
  {
    hide Varint;
    hide EncodeBytes;
    var m, m' := Message(a, b, c, x, y), Message(a', b', c', x', y');
    var e, e' := EncodeBytes(y) + [], EncodeBytes(y') + [];
    var d, d' := EncodeBytes(x) + e, EncodeBytes(x') + e';
    var n, n' := Varint(c) + d, Varint(c') + d';
    var o, o' := Varint(b) + n, Varint(b') + n';
    assert m == Varint(a) + o && m' == Varint(a') + o';
    VarintIsPrefixFree(a, a', o, o');
    VarintIsPrefixFree(b, b', n, n');
    VarintIsPrefixFree(c, c', d, d');
    EncodeBytesIsPrefixFree(x, x', e, e');
    EncodeBytesIsPrefixFree(y, y', [], []);
  }

  function MessageOf(sha: Sha, t: Tree): Bytes {
    if t.Leaf? then Message(0, 1, t.version, t.key, Digest(sha, t.value))
    else Message(t.height, t.size, t.version, HashNode(sha, t.left), HashNode(sha, t.right))
  }

  lemma HashIsDigest(sha: Sha, t: Tree)
    ensures HashNode(sha, t) == Digest(sha, MessageOf(sha, t))
  {
    hide Varint;
    hide EncodeBytes;
    hide Digest;
  }

  /** Every string hashed on the way to the hash of `t`. */
  ghost function Hashed(sha: Sha, t: Tree): set<Bytes> {
    if t.Leaf? then {MessageOf(sha, t), t.value}
    else {MessageOf(sha, t)} + Hashed(sha, t.left) + Hashed(sha, t.right)
  }

  /** The smallest key of a subtree is unique, so the separator is determined by it. */
  lemma SeparatorIsUnique(t: Tree, u: Tree)
    requires t.Branch? && u.Branch? && Ordered(t) && Ordered(u) && t.right == u.right
    ensures t.key == u.key
  {
    hide Compare;
    LessIsTotalOrder();
  }

  /** Two search trees with the same hash are the same tree: same keys, values, shape and node versions. */
  lemma {:induction false} HashBindsTree(sha: Sha, t: Tree, u: Tree)
    requires Ordered(t) && Ordered(u) && Measured(t) && Measured(u)
    requires HashNode(sha, t) == HashNode(sha, u)
    ensures t == u || Collide(sha, Hashed(sha, t), Hashed(sha, u))
    decreases t
  {
    HashIsDigest(sha, t);
    HashIsDigest(sha, u);
    hide HashNode;
    hide Digest;
    if MessageOf(sha, t) == MessageOf(sha, u) {
      SameMessage(sha, t, u);
      hide MessageOf;
      if t.Branch? {
        HashBindsTree(sha, t.left, u.left);
        HashBindsTree(sha, t.right, u.right);
        if t.left == u.left && t.right == u.right { SeparatorIsUnique(t, u); }
      }
    }
  }

  /** What two nodes with the same message have in common. */
  lemma SameMessage(sha: Sha, t: Tree, u: Tree)
    requires Measured(t) && Measured(u) && MessageOf(sha, t) == MessageOf(sha, u)
    ensures t.version == u.version && t.Leaf? == u.Leaf?
    ensures t.Leaf? ==> t.key == u.key && Digest(sha, t.value) == Digest(sha, u.value)
    ensures t.Branch? ==> t.height == u.height && t.size == u.size
    ensures t.Branch? ==> HashNode(sha, t.left) == HashNode(sha, u.left)
    ensures t.Branch? ==> HashNode(sha, t.right) == HashNode(sha, u.right)
  {
    hide HashNode;
    hide Digest;
    hide Message;
    SizeCountsLeaves(t);
    SizeCountsLeaves(u);
    var (a, b, x, y) := Parts(sha, t);
    var (a', b', x', y') := Parts(sha, u);
    MessageIsInjective(a, b, t.version, x, y, a', b', u.version, x', y');
  }

  function Parts(sha: Sha, t: Tree): (nat, nat, Bytes, Bytes) {
    if t.Leaf? then (0, 1, t.key, Digest(sha, t.value))
    else (t.height, t.size, HashNode(sha, t.left), HashNode(sha, t.right))
  }

  ghost function HashedRoot(sha: Sha, r: Root): set<Bytes> {
    if r.None? then {[]} else Hashed(sha, r.value)
  }

  /** Equal root hashes mean equal stores, the empty store included. */
  lemma RootHashBinds(sha: Sha, r: Root, s: Root)
    requires WellFormedRoot(r) && WellFormedRoot(s) && RootHash(sha, r) == RootHash(sha, s)
    ensures r == s || Collide(sha, HashedRoot(sha, r), HashedRoot(sha, s))
  {
    hide Digest;
    if r.Some? {
      HashIsDigest(sha, r.value);
      if s.Some? { HashBindsTree(sha, r.value, s.value); }
    } else if s.Some? {
      HashIsDigest(sha, s.value);
    }
    assert r.Some? ==> |MessageOf(sha, r.value)| > 0;
    assert s.Some? ==> |MessageOf(sha, s.value)| > 0;
  }
}
