/** `Tree`: a versioned tree over copy-on-write nodes, and what holds of any family of such trees
    made by copying. */
module MemTrees {
  import opened Bytes
  import opened AvlTree
  import opened AvlHeight
  import opened AvlCorrectness
  import opened MerkleHash
  import opened Snapshot
  import opened SnapshotWriter
  import opened MemNodes
  import opened TreeStates

  class MemTree {
    var version: nat
    var cowVersion: nat
    var root: Node
    /** The lookup cache, when the tree has one. */
    var cache: Option<map<Bytes, Bytes>>

    /** The tree as a value. */
    ghost var state: TreeState

    ghost predicate Valid(sha: Sha)
      reads this
      reads Top(root)`height, Top(root)`size, Top(root)`version, Top(root)`key, Top(root)`value
      reads Top(root)`left, Top(root)`right, Top(root)`model, Top(root)`repr
      reads Repr(root)`height, Repr(root)`size, Repr(root)`version, Repr(root)`key, Repr(root)`value
      reads Repr(root)`left, Repr(root)`right, Repr(root)`model, Repr(root)`repr
    {
      && state.version == version && cowVersion <= version < UINT32_LIMIT
      && WellFormedState(state)
      && (match state.root
          case None => root == Nil
          case Some(t) => Holds(sha, root, t))
      && (forall m :: m in Repr(root) ==> m.version <= version + 1)
      && Caches(cache, RootContents(state.root))
    }

    /** The nodes that an operation on this tree may change in place. */
    ghost function Mine(): set<MemNode>
      reads this, Top(root)`repr, Repr(root)`version
    {
      Owned(root, cowVersion)
    }

    /** `set`. The version being written must still be a `uint32`. `keep` is the cache's choice of
        entries to keep after an addition. */
    method Set(sha: Sha, key: Bytes, value: Bytes, keep: set<Bytes>)
      requires Valid(sha) && Coherent(sha, Repr(root)) && version + 1 < UINT32_LIMIT
      modifies this, Mine()
      ensures Valid(sha) && Coherent(sha, Repr(root))
      ensures state == SetKey(old(state), key, value)
      ensures cowVersion == old(cowVersion) && fresh(Repr(root) - old(Repr(root)))
      ensures old(Reusable(root, cowVersion)) && key in RootContents(old(state.root)) ==> root == old(root)
    {
      hide HashNode;
      hide MemNode.Valid;
      hide Put;
      hide RootContents;
      hide Caches;
      hide Ordered;
      hide Measured;
      hide Balanced;
      ghost var before := state;
      StateStepsKeep(state, key, value);
      CacheAddKeeps(cache, RootContents(state.root), key, value, keep);
      var r := SetRoot(sha, root, key, value, version + 1, cowVersion, state.root);
      Install(Mem(r), SetKey(before, key, value), CacheAdd(cache, key, value, keep));
    }

    /** `remove`. */
    method Remove(sha: Sha, key: Bytes)
      requires Valid(sha) && Coherent(sha, Repr(root)) && version + 1 < UINT32_LIMIT
      modifies this, Mine()
      ensures Valid(sha) && Coherent(sha, Repr(root))
      ensures state == RemoveKey(old(state), key)
      ensures cowVersion == old(cowVersion) && fresh(Repr(root) - old(Repr(root)))
    {
      hide HashNode;
      hide MemNode.Valid;
      hide Delete;
      hide RootContents;
      hide Caches;
      hide Ordered;
      hide Measured;
      hide Balanced;
      ghost var before := state;
      StateStepsKeep(state, key, []);
      CacheRemoveKeeps(cache, RootContents(state.root), key);
      var r := RemoveRoot(sha, root, key, version + 1, cowVersion, state.root);
      Install(r, RemoveKey(before, key), CacheRemove(cache, key));
    }

    /** `ApplyChangeSet`: the pairs in order. */
    method ApplyChangeSet(sha: Sha, pairs: ChangeSet)
      requires Valid(sha) && Coherent(sha, Repr(root)) && version + 1 < UINT32_LIMIT
      modifies this, Mine()
      ensures Valid(sha) && Coherent(sha, Repr(root)) && WellFormedState(old(state))
      ensures state == ApplyPairs(old(state), pairs)
      ensures cowVersion == old(cowVersion) && fresh(Repr(root) - old(Repr(root)))
    {
      hide HashNode;
      hide MemNode.Valid;
      hide WellFormedState;
      hide Caches;
      hide RootContents;
      hide Holds;
      hide Coherent;
      ghost var before := state;
      assert pairs[0..] == pairs;
      for k := 0 to |pairs|
        invariant Valid(sha) && Coherent(sha, Repr(root)) && version + 1 < UINT32_LIMIT
        invariant ApplyPairs(before, pairs) == ApplyPairs(state, pairs[k..])
        invariant cowVersion == old(cowVersion) && fresh(Repr(root) - old(Repr(root)))
        invariant forall m :: m in Mine() ==> m in old(Mine()) || fresh(m)
      {
        assert pairs[k..][1..] == pairs[k + 1..];
        ApplyPair(sha, pairs[k]);
      }
      assert pairs[|pairs|..] == [];
    }

    /** One entry of a change set. */
    method ApplyPair(sha: Sha, p: Pair)
      requires Valid(sha) && Coherent(sha, Repr(root)) && version + 1 < UINT32_LIMIT
      modifies this, Mine()
      ensures Valid(sha) && Coherent(sha, Repr(root)) && WellFormedState(old(state))
      ensures state == TreeStates.ApplyPair(old(state), p) && version == old(version)
      ensures cowVersion == old(cowVersion) && fresh(Repr(root) - old(Repr(root)))
    {
      hide HashNode;
      hide MemNode.Valid;
      hide WellFormedState;
      hide Caches;
      hide RootContents;
      if p.delete {
        Remove(sha, p.key);
      } else {
        var keep: set<Bytes> := *;
        Set(sha, p.key, p.value, keep);
      }
    }

    /** `SaveVersion`: the next version and, if asked for, the root hash of the working tree. */
    method SaveVersion(sha: Sha, updateHash: bool) returns (ok: bool, hash: Option<Bytes>)
      requires Valid(sha) && Coherent(sha, Repr(root))
      modifies this, Repr(root)`hash
      ensures Valid(sha) && Coherent(sha, Repr(root)) && root == old(root) && cowVersion == old(cowVersion)
      ensures ok <==> old(version) < UINT32_LIMIT - 1
      ensures state == if ok then TreeStates.SaveVersion(old(state)) else old(state)
      ensures hash == if ok && updateHash then Some(RootHash(sha, old(state.root))) else None
    {
      hide HashNode;
      hide MemNode.Valid;
      hide WellFormedState;
      hide Caches;
      hide RootContents;
      if version == UINT32_LIMIT - 1 {
        return false, None;
      }
      StateStepsKeep(state, [], []);
      hash := None;
      if updateHash {
        var h := WorkingHash(sha);
        hash := Some(h);
      }
      version := version + 1;
      state := TreeStates.SaveVersion(state);
      ok := true;
    }

    /** `RootHash`: fills the hash caches below and changes nothing else. */
    method WorkingHash(sha: Sha) returns (h: Bytes)
      requires Valid(sha) && Coherent(sha, Repr(root))
      modifies Repr(root)`hash
      ensures Valid(sha) && Coherent(sha, Repr(root)) && h == RootHash(sha, state.root)
    {
      hide HashNode;
      hide MemNode.Valid;
      if root == Nil {
        h := Digest(sha, []);
      } else {
        h := Hash(sha, root, state.root.value);
      }
    }

    /** `NewEmptyTree`, which panics from the last `uint32` on. */
    constructor NewEmptyTree(sha: Sha, version: nat, cacheSize: nat)
      requires version < UINT32_LIMIT - 1
      ensures Valid(sha) && Coherent(sha, Repr(root)) && root == Nil && cowVersion == 0
      ensures state == TreeState(version, None)
    {
      this.version, cowVersion, root, state := version, 0, Nil, TreeState(version, None);
      cache := if cacheSize == 0 then None else Some(map[]);
    }

    /** `NewFromSnapshot`, on files that hold the tree `root`. */
    constructor NewFromSnapshot(sha: Sha, files: Snapshot, version: nat, cacheSize: nat, ghost root: Root)
      requires version < UINT32_LIMIT && OpensAs(sha, files, root) && WellFormedState(TreeState(version, root))
      ensures Valid(sha) && Coherent(sha, Repr(this.root)) && Repr(this.root) == {} && cowVersion == 0
      ensures state == TreeState(version, root)
    {
      this.version, cowVersion, state := version, 0, TreeState(version, root);
      var p := OpenRoot(files);
      this.root := if p.Some? then Persisted(p.value) else Nil;
      cache := if cacheSize == 0 then None else Some(map[]);
    }

    constructor Clone(sha: Sha, t: MemTree, cacheSize: nat)
      requires t.Valid(sha)
      ensures Valid(sha) && state == t.state && root == t.root && cowVersion == t.cowVersion
      ensures cache == if cacheSize == 0 then None else Some(map[])
    {
      version, cowVersion, root, state := t.version, t.cowVersion, t.root, t.state;
      cache := if cacheSize == 0 then None else Some(map[]);
    }

    /** `Copy`: shares every node. If nothing is newer than the saved version, neither tree can
        change a shared node from here on. */
    method Copy(sha: Sha, cacheSize: nat) returns (t: MemTree)
      requires Valid(sha)
      modifies this`cowVersion
      ensures fresh(t) && t.Valid(sha) && t.state == state && t.root == root
      ensures cowVersion == t.cowVersion == (if root.Mem? then version else old(cowVersion))
      ensures t.cache == if cacheSize == 0 then None else Some(map[])
      ensures Valid(sha) && Mine() == t.Mine()
      ensures (forall m :: m in Repr(root) ==> m.version <= version) ==> Mine() == {}
    {
      if root.Mem? {
        cowVersion := version;
      }
      t := new MemTree.Clone(sha, this, cacheSize);
    }

    /** `Get`: through the cache when there is one. */
    method Get(sha: Sha, key: Bytes, keep: set<Bytes>) returns (value: Option<Bytes>)
      requires Valid(sha) && (state.root.Some? ==> Size(state.root.value) < UINT32_LIMIT)
      modifies this`cache
      ensures Valid(sha)
      ensures value == if key in RootContents(state.root) then Some(RootContents(state.root)[key]) else None
    {
      hide HashNode;
      hide MemNode.Valid;
      if cache.Some? && key in cache.value {
        return Some(cache.value[key]);
      }
      if root == Nil {
        return None;
      }
      var index;
      value, index := MemNodes.Get(sha, root, key, state.root.value);
      if value.Some? {
        var m := RootContents(state.root);
        CacheAddKeeps(cache, m, key, value.value, keep);
        assert m[key := value.value] == m;
        cache := CacheAdd(cache, key, value.value, keep);
      }
    }

    /** Assigns the root, its value and the cache. */
    method Install(root: Node, ghost state: TreeState, cache: Option<map<Bytes, Bytes>>)
      modifies this
      ensures this.root == root && this.state == state && this.cache == cache
      ensures version == old(version) && cowVersion == old(cowVersion)
    {
      this.root, this.state, this.cache := root, state, cache;
    }
  }

  /** The snapshot files hold the tree, or no tree. */
  ghost predicate OpensAs(sha: Sha, files: Snapshot, root: Root) {
    match root
    case None => OpenRoot(files).None?
    case Some(t) => OpenRoot(files).Some? && Represents(sha, OpenRoot(files).value, t)
  }

  /** Every cached value is the value in the tree. */
  ghost predicate Caches(cache: Option<map<Bytes, Bytes>>, m: map<Bytes, Bytes>) {
    match cache
    case None => true
    case Some(c) => forall k :: k in c ==> k in m && c[k] == m[k]
  }

  function CacheAdd(cache: Option<map<Bytes, Bytes>>, key: Bytes, value: Bytes, keep: set<Bytes>)
    : Option<map<Bytes, Bytes>>
  {
    if cache.None? then None else
    var added := cache.value[key := value];
    Some(map k | k in added && k in keep :: added[k])
  }

  lemma CacheAddKeeps(cache: Option<map<Bytes, Bytes>>, m: map<Bytes, Bytes>, key: Bytes, value: Bytes, keep: set<Bytes>)
    requires Caches(cache, m)
    ensures Caches(CacheAdd(cache, key, value, keep), m[key := value])
  {}

  function CacheRemove(cache: Option<map<Bytes, Bytes>>, key: Bytes): Option<map<Bytes, Bytes>> {
    if cache.None? then None else Some(cache.value - {key})
  }

  lemma CacheRemoveKeeps(cache: Option<map<Bytes, Bytes>>, m: map<Bytes, Bytes>, key: Bytes)
    requires Caches(cache, m)
    ensures Caches(CacheRemove(cache, key), m - {key})
  {}

  method SetRoot(sha: Sha, root: Node, key: Bytes, value: Bytes, version: nat, cow: nat, ghost r: Root)
    returns (n: MemNode)
    requires WellFormedRoot(r) && (if r.None? then root == Nil else Ready(sha, root, r.value, version, cow))
    requires cow < version
    modifies Owned(root, cow)
    ensures Fresh(sha, n, version, cow) && Some(n.model) == Put(r, key, value, version)
    ensures fresh(n.repr - old(Repr(root))) && forall m :: m in n.repr ==> m.version <= version
    ensures old(Reusable(root, cow)) && key in RootContents(r) ==> Mem(n) == root
  {
    hide HashNode;
    hide MemNode.Valid;
    if root == Nil {
      n := NewLeaf(sha, key, value, version);
    } else {
      var updated;
      SetRecursiveCorrect(r.value, key, value, version);
      n, updated := MemNodes.SetRecursive(sha, root, key, value, version, cow, r.value);
    }
    HoldsMem(sha, Mem(n), n.model);
  }

  method RemoveRoot(sha: Sha, root: Node, key: Bytes, version: nat, cow: nat, ghost r: Root) returns (n: Node)
    requires WellFormedRoot(r) && (if r.None? then root == Nil else Ready(sha, root, r.value, version, cow))
    modifies Owned(root, cow)
    ensures match Delete(r, key, version) case None => n == Nil case Some(t) => Holds(sha, n, t)
    ensures Coherent(sha, Repr(n)) && fresh(Repr(n) - old(Repr(root)))
    ensures forall m :: m in Repr(n) ==> m.version <= version
  {
    hide HashNode;
    hide MemNode.Valid;
    if root == Nil {
      n := Nil;
    } else {
      var value, newKey;
      value, n, newKey := MemNodes.RemoveRecursive(sha, root, key, version, cow, r.value);
    }
  }
}
