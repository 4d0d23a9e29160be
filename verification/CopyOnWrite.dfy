/** Copy-on-write isolation. A family of trees made by `Copy` shares nodes on the heap, and later
    operations mutate nodes in place; yet every run on the family gives each tree exactly the value
    it would have if the trees were independent immutable values. */
module CopyOnWrite {
  import opened Bytes
  import opened AvlHeight
  import opened AvlCorrectness
  import opened MerkleHash
  import opened MemNodes
  import opened MemTrees
  import opened TreeStates
  import opened MultiSnapshots
  import opened Snapshot
  import opened SnapshotWriter

  // ----- The specification: independent values -----

  datatype Op =
    | SetOp(i: nat, key: Bytes, value: Bytes)
    | RemoveOp(i: nat, key: Bytes)
    | SaveOp(i: nat)
    | CopyOp(i: nat)
    | HashOp(i: nat)

  /** What the callers owe: an existing tree, a version that is still a `uint32`, and no working
      changes at the time of a copy. */
  ghost predicate Allowed(s: seq<TreeState>, op: Op) {
    && op.i < |s|
    && (op.SetOp? || op.RemoveOp? || op.SaveOp? ==> s[op.i].version + 1 < UINT32_LIMIT)
    && (op.CopyOp? ==> Clean(s[op.i]))
  }

  ghost predicate AllWellFormed(s: seq<TreeState>) {
    forall i :: 0 <= i < |s| ==> WellFormedState(s[i])
  }

  ghost function Apply(s: seq<TreeState>, op: Op): (r: seq<TreeState>)
    requires AllWellFormed(s) && Allowed(s, op)
    ensures AllWellFormed(r)
  {
    match op
    case SetOp(i, k, v) => StateStepsKeep(s[i], k, v); s[i := SetKey(s[i], k, v)]
    case RemoveOp(i, k) => StateStepsKeep(s[i], k, []); s[i := RemoveKey(s[i], k)]
    case SaveOp(i) => StateStepsKeep(s[i], [], []); s[i := SaveVersion(s[i])]
    case CopyOp(i) => s + [s[i]]
    case HashOp(_) => s
  }

  // ----- The heap -----

  ghost function Roots(ts: seq<MemTree>): set<MemNode>
    reads ts
  {
    set t | t in ts && t.root.Mem? :: t.root.m
  }

  ghost function Nodes(ts: seq<MemTree>): set<MemNode>
    reads ts, Roots(ts)
  {
    set t, m | t in ts && m in Repr(t.root) :: m
  }

  /** Distinct trees, each valid with coherent hash caches, none able to change a node of another. */
  ghost predicate Family(sha: Sha, ts: seq<MemTree>)
    reads ts, Roots(ts), Nodes(ts)
  {
    && (forall i, j :: 0 <= i < j < |ts| ==> ts[i] != ts[j])
    && (forall t :: t in ts ==> t.Valid(sha) && Coherent(sha, Repr(t.root)))
    && (forall t, u :: t in ts && u in ts && t != u ==> t.Mine() !! Repr(u.root))
  }

  ghost function States(ts: seq<MemTree>): seq<TreeState>
    reads ts
  {
    seq(|ts|, i requires 0 <= i < |ts| reads ts => ts[i].state)
  }

  /** An operation on `t` that changed only nodes of its own does not reach another tree `u`, and
      the two stay apart. */
  twostate lemma OtherKept(new sha: Sha, new t: MemTree, u: MemTree)
    requires old(allocated(sha)) && old(allocated(t))
    requires old(u.Valid(sha) && Coherent(sha, Repr(u.root)))
    requires old(t.Mine() !! Repr(u.root))
    requires old(u.Mine() !! Repr(t.root))
    requires unchanged(u) && forall m :: m in old(Repr(u.root)) ==> unchanged(m)
    requires t.cowVersion == old(t.cowVersion) && fresh(Repr(t.root) - old(Repr(t.root)))
    requires forall m :: m in old(Repr(t.root)) && m !in old(t.Mine()) ==> unchanged(m)
    ensures u.Valid(sha) && Coherent(sha, Repr(u.root))
    ensures Repr(u.root) == old(Repr(u.root)) && u.Mine() == old(u.Mine())
    ensures t.Mine() !! Repr(u.root)
    ensures u.Mine() !! Repr(t.root)
  {
    hide HashNode;
    hide MemNode.Valid;
    hide WellFormedState;
    assert old(Top(u.root)) <= old(Repr(u.root));
  }

  method SetStep(sha: Sha, ts: seq<MemTree>, i: nat, key: Bytes, value: Bytes)
    requires Family(sha, ts) && i < |ts| && ts[i].version + 1 < UINT32_LIMIT
    modifies ts[i], ts[i].Mine()
    ensures Family(sha, ts) && WellFormedState(old(ts[i].state))
    ensures States(ts) == old(States(ts))[i := SetKey(old(ts[i].state), key, value)]
    ensures fresh(Nodes(ts) - old(Nodes(ts)))
  {
    hide HashNode;
    hide MemNode.Valid;
    hide WellFormedState;
    hide Coherent;
    hide Caches;
    hide RootContents;
    hide Put;
    var t := ts[i];
    var keep: set<Bytes> := *;
    t.Set(sha, key, value, keep);
    forall u | u in ts && u != t
      ensures u.Valid(sha) && Coherent(sha, Repr(u.root))
      ensures Repr(u.root) == old(Repr(u.root)) && u.Mine() == old(u.Mine())
      ensures t.Mine() !! Repr(u.root) && u.Mine() !! Repr(t.root)
    {
      OtherKept(sha, t, u);
    }
    hide MemTree.Valid;
    hide MemTree.Mine;
  }

  method RemoveStep(sha: Sha, ts: seq<MemTree>, i: nat, key: Bytes)
    requires Family(sha, ts) && i < |ts| && ts[i].version + 1 < UINT32_LIMIT
    modifies ts[i], ts[i].Mine()
    ensures Family(sha, ts) && WellFormedState(old(ts[i].state))
    ensures States(ts) == old(States(ts))[i := RemoveKey(old(ts[i].state), key)]
    ensures fresh(Nodes(ts) - old(Nodes(ts)))
  {
    hide HashNode;
    hide MemNode.Valid;
    hide WellFormedState;
    hide Coherent;
    hide Caches;
    hide RootContents;
    hide Delete;
    var t := ts[i];
    t.Remove(sha, key);
    forall u | u in ts && u != t
      ensures u.Valid(sha) && Coherent(sha, Repr(u.root))
      ensures Repr(u.root) == old(Repr(u.root)) && u.Mine() == old(u.Mine())
      ensures t.Mine() !! Repr(u.root) && u.Mine() !! Repr(t.root)
    {
      OtherKept(sha, t, u);
    }
    hide MemTree.Valid;
    hide MemTree.Mine;
  }

  /** Filling hash caches below `t`, even of nodes it shares with `u`, keeps the caches of `u` right. */
  twostate lemma HashesKept(new sha: Sha, new t: MemTree, u: MemTree)
    requires old(allocated(sha)) && old(allocated(t))
    requires old(u.Valid(sha) && Coherent(sha, Repr(u.root))) && Coherent(sha, Repr(t.root))
    requires unchanged(u) && Repr(t.root) == old(Repr(t.root))
    requires forall m :: m in old(Repr(u.root)) ==> unchanged(m) || (m in Repr(t.root) && OnlyHashChanged(m))
    ensures u.Valid(sha) && Coherent(sha, Repr(u.root))
    ensures Repr(u.root) == old(Repr(u.root)) && u.Mine() == old(u.Mine())
  {
    hide HashNode;
    hide MemNode.Valid;
    hide WellFormedState;
    assert old(Top(u.root)) <= old(Repr(u.root));
  }

  twostate predicate OnlyHashChanged(m: MemNode)
    reads m
  {
    && m.height == old(m.height) && m.size == old(m.size) && m.version == old(m.version)
    && m.key == old(m.key) && m.value == old(m.value) && m.left == old(m.left) && m.right == old(m.right)
    && m.model == old(m.model) && m.repr == old(m.repr)
  }

  method HashStep(sha: Sha, ts: seq<MemTree>, i: nat) returns (h: Bytes)
    requires Family(sha, ts) && i < |ts|
    modifies Repr(ts[i].root)`hash
    ensures Family(sha, ts) && States(ts) == old(States(ts)) && Nodes(ts) == old(Nodes(ts))
    ensures h == RootHash(sha, ts[i].state.root)
  {
    hide HashNode;
    hide MemNode.Valid;
    hide WellFormedState;
    hide Coherent;
    var t := ts[i];
    h := t.WorkingHash(sha);
    forall u | u in ts
      ensures u.Valid(sha) && Coherent(sha, Repr(u.root))
      ensures Repr(u.root) == old(Repr(u.root)) && u.Mine() == old(u.Mine())
    {
      HashesKept(sha, t, u);
    }
    hide MemTree.Valid;
    hide MemTree.Mine;
  }

  method SaveStep(sha: Sha, ts: seq<MemTree>, i: nat)
    requires Family(sha, ts) && i < |ts| && ts[i].version + 1 < UINT32_LIMIT
    modifies ts[i], Repr(ts[i].root)`hash
    ensures Family(sha, ts) && States(ts) == old(States(ts))[i := SaveVersion(old(ts[i].state))]
    ensures Nodes(ts) == old(Nodes(ts))
  {
    hide HashNode;
    hide MemNode.Valid;
    hide WellFormedState;
    hide Coherent;
    var t := ts[i];
    var updateHash: bool := *;
    var ok, h := t.SaveVersion(sha, updateHash);
    forall u | u in ts && u != t
      ensures u.Valid(sha) && Coherent(sha, Repr(u.root))
      ensures Repr(u.root) == old(Repr(u.root)) && u.Mine() == old(u.Mine())
    {
      HashesKept(sha, t, u);
    }
    hide MemTree.Valid;
  }

  method CopyStep(sha: Sha, ts: seq<MemTree>, i: nat) returns (us: seq<MemTree>)
    requires Family(sha, ts) && i < |ts| && Clean(ts[i].state)
    modifies {ts[i]}`cowVersion
    ensures Family(sha, us) && States(us) == old(States(ts) + [ts[i].state])
    ensures |us| == |ts| + 1 && us[..|ts|] == ts && fresh(us[|ts|]) && Nodes(us) == old(Nodes(ts))
  {
    hide HashNode;
    hide MemNode.Valid;
    hide WellFormedState;
    hide Coherent;
    hide MemTree.Valid;
    hide MemTree.Mine;
    var t := ts[i];
    var cacheSize: nat := *;
    CleanNodes(sha, t);
    var c := t.Copy(sha, cacheSize);
    forall u | u in ts && u != t
      ensures u.Valid(sha) && Coherent(sha, Repr(u.root)) && u.Mine() == old(u.Mine())
    {
      HashesKept(sha, t, u);
    }
    CopyJoins(sha, ts, t, c);
    us := ts + [c];
  }

  /** Without working changes, no node is newer than the saved version. */
  lemma CleanNodes(sha: Sha, t: MemTree)
    requires t.Valid(sha) && Clean(t.state)
    ensures forall m :: m in Repr(t.root) ==> m.version <= t.version
  {
    if t.state.root.Some? {
      HoldsMem(sha, t.root, t.state.root.value);
    }
  }

  lemma CopyJoins(sha: Sha, ts: seq<MemTree>, t: MemTree, c: MemTree)
    requires Family(sha, ts) && t in ts && t.Mine() == {}
    requires c !in ts && c.Valid(sha) && c.root == t.root && c.Mine() == {}
    ensures Family(sha, ts + [c]) && Nodes(ts + [c]) == Nodes(ts)
  {
    hide MemTree.Valid;
    hide MemTree.Mine;
    hide Coherent;
    var us := ts + [c];
    assert forall u :: u in us <==> u in ts || u == c;
  }

  // ----- Every run -----

  ghost predicate AllAllowed(s: seq<TreeState>, ops: seq<Op>)
    requires AllWellFormed(s)
    decreases |ops|
  {
    ops == [] || (Allowed(s, ops[0]) && AllAllowed(Apply(s, ops[0]), ops[1..]))
  }

  ghost function ApplyAll(s: seq<TreeState>, ops: seq<Op>): seq<TreeState>
    requires AllWellFormed(s) && AllAllowed(s, ops)
    decreases |ops|
  {
    if ops == [] then s else ApplyAll(Apply(s, ops[0]), ops[1..])
  }

  method Step(sha: Sha, ts: seq<MemTree>, op: Op) returns (us: seq<MemTree>)
    requires Family(sha, ts) && AllWellFormed(States(ts)) && Allowed(States(ts), op)
    modifies ts, Nodes(ts)
    ensures Family(sha, us) && States(us) == Apply(old(States(ts)), op)
    ensures fresh(Nodes(us) - old(Nodes(ts))) && forall i :: 0 <= i < |us| ==> us[i] in ts || fresh(us[i])
  {
    hide Family;
    hide AllWellFormed;
    FamilyFacts(sha, ts, op.i);
    us := ts;
    match op {
      case SetOp(i, k, v) => SetStep(sha, ts, i, k, v);
      case RemoveOp(i, k) => RemoveStep(sha, ts, i, k);
      case SaveOp(i) => SaveStep(sha, ts, i);
      case CopyOp(i) => us := CopyStep(sha, ts, i);
      case HashOp(i) => var h := HashStep(sha, ts, i);
    }
  }

  lemma FamilyFacts(sha: Sha, ts: seq<MemTree>, i: nat)
    requires Family(sha, ts) && i < |ts|
    ensures ts[i].version == ts[i].state.version && ts[i].Mine() <= Nodes(ts) && Repr(ts[i].root) <= Nodes(ts)
  {
    assert ts[i] in ts;
  }

  lemma FamilyWellFormed(sha: Sha, ts: seq<MemTree>)
    requires Family(sha, ts)
    ensures AllWellFormed(States(ts))
  {
    forall i | 0 <= i < |ts| ensures WellFormedState(States(ts)[i]) {
      assert ts[i] in ts;
    }
  }

  /** Isolation over whole runs: after any allowed sequence of operations on any trees of the family,
      every tree holds the value that the same operations give on independent immutable values. */
  method Run(sha: Sha, ts: seq<MemTree>, ops: seq<Op>) returns (us: seq<MemTree>)
    requires Family(sha, ts) && AllWellFormed(States(ts)) && AllAllowed(States(ts), ops)
    modifies ts, Nodes(ts)
    ensures Family(sha, us) && States(us) == ApplyAll(old(States(ts)), ops)
  {
    us := ts;
    var rest := ops;
    while rest != []
      invariant Family(sha, us) && AllWellFormed(States(us)) && AllAllowed(States(us), rest)
      invariant ApplyAll(States(us), rest) == old(ApplyAll(States(ts), ops))
      invariant fresh(Nodes(us) - old(Nodes(ts))) && forall i :: 0 <= i < |us| ==> us[i] in ts || fresh(us[i])
      decreases |rest|
    {
      us := Step(sha, us, rest[0]);
      FamilyWellFormed(sha, us);
      rest := rest[1..];
    }
  }

  // ----- Where a run starts -----

  /** A tree alone is a family. */
  lemma AloneIsFamily(sha: Sha, t: MemTree)
    requires t.Valid(sha) && Coherent(sha, Repr(t.root))
    ensures Family(sha, [t]) && States([t]) == [t.state] && AllWellFormed([t.state])
  {
    hide HashNode;
    hide MemNode.Valid;
    hide WellFormedState;
    hide Coherent;
  }

  /** Any run on a new empty tree and the copies made from it. */
  method RunFromEmpty(sha: Sha, version: nat, cacheSize: nat, ops: seq<Op>) returns (us: seq<MemTree>)
    requires version < UINT32_LIMIT - 1 && AllAllowed([TreeState(version, None)], ops)
    ensures Family(sha, us) && States(us) == ApplyAll([TreeState(version, None)], ops)
  {
    hide Family;
    hide ApplyAll;
    hide AllAllowed;
    var t := new MemTree.NewEmptyTree(sha, version, cacheSize);
    AloneIsFamily(sha, t);
    us := Run(sha, [t], ops);
  }

  // ----- Whole stores -----

  /** The values of new empty trees, one for each store. */
  ghost function EmptyStates(versions: seq<nat>): seq<TreeState> {
    seq(|versions|, i requires 0 <= i < |versions| => TreeState(versions[i], None))
  }

  method NewStores(sha: Sha, versions: seq<nat>, cacheSize: nat) returns (ts: seq<MemTree>)
    requires forall i :: 0 <= i < |versions| ==> versions[i] < UINT32_LIMIT - 1
    ensures Family(sha, ts) && States(ts) == EmptyStates(versions) && Nodes(ts) == {}
    ensures forall i :: 0 <= i < |ts| ==> fresh(ts[i])
  {
    hide MemTree.Valid;
    ts := [];
    for k := 0 to |versions|
      invariant forall i :: 0 <= i < |ts| ==> fresh(ts[i]) && ts[i].root == Nil
      invariant Family(sha, ts) && States(ts) == EmptyStates(versions[..k])
    {
      var t := new MemTree.NewEmptyTree(sha, versions[k], cacheSize);
      assert t !in ts && Roots(ts) == {} && Nodes(ts) == {};
      EmptyJoins(sha, ts, t);
      assert States(ts + [t]) == States(ts) + [t.state];
      assert EmptyStates(versions[..k + 1]) == EmptyStates(versions[..k]) + [TreeState(versions[k], None)];
      ts := ts + [t];
    }
    assert versions[..|versions|] == versions;
  }

  /** Any run on the trees of a new multi-store and the copies made from them. */
  method RunStores(sha: Sha, versions: seq<nat>, cacheSize: nat, ops: seq<Op>) returns (us: seq<MemTree>)
    requires forall i :: 0 <= i < |versions| ==> versions[i] < UINT32_LIMIT - 1
    requires AllWellFormed(EmptyStates(versions)) && AllAllowed(EmptyStates(versions), ops)
    ensures Family(sha, us) && States(us) == ApplyAll(EmptyStates(versions), ops)
  {
    hide Family;
    hide ApplyAll;
    hide AllAllowed;
    hide AllWellFormed;
    var ts := NewStores(sha, versions, cacheSize);
    us := Run(sha, ts, ops);
  }

  /** A tree without nodes can join any family. */
  lemma EmptyJoins(sha: Sha, ts: seq<MemTree>, t: MemTree)
    requires Family(sha, ts) && t !in ts && t.Valid(sha) && t.root == Nil
    requires forall u :: u in ts ==> u.root == Nil
    ensures Family(sha, ts + [t])
  {
    hide HashNode;
    hide MemNode.Valid;
    hide WellFormedState;
    hide MemTree.Valid;
    var us := ts + [t];
    assert forall u :: u in us <==> u in ts || u == t;
  }

  /** `MultiTree.Copy`: a copy of each of the first `n` trees. */
  function CopyAll(n: nat): seq<Op> {
    seq(n, i requires 0 <= i < n => CopyOp(i))
  }

  lemma {:induction false} RunJoin(s: seq<TreeState>, a: seq<Op>, b: seq<Op>)
    requires AllWellFormed(s) && AllAllowed(s, a) && AllWellFormed(ApplyAll(s, a)) && AllAllowed(ApplyAll(s, a), b)
    ensures AllAllowed(s, a + b) && ApplyAll(s, a + b) == ApplyAll(ApplyAll(s, a), b)
    decreases |a|
  {
    hide Apply;
    hide Allowed;
    hide AllWellFormed;
    if a == [] {
      assert a + b == b;
    } else {
      assert (a + b)[0] == a[0] && (a + b)[1..] == a[1..] + b;
      RunJoin(Apply(s, a[0]), a[1..], b);
    }
  }

  /** Copying the trees of a saved store one by one appends all their values. */
  lemma {:induction false} CopyAllCopies(s: seq<TreeState>, n: nat)
    requires AllWellFormed(s) && n <= |s| && forall i :: 0 <= i < |s| ==> Clean(s[i])
    ensures AllAllowed(s, CopyAll(n)) && ApplyAll(s, CopyAll(n)) == s + s[..n]
    decreases n
  {
    hide Clean;
    hide WellFormedState;
    if n == 0 {
      assert s + s[..0] == s;
    } else {
      CopyAllCopies(s, n - 1);
      var s', last := s + s[..n - 1], [CopyOp(n - 1)];
      assert last[1..] == [] && AllAllowed(Apply(s', last[0]), []);
      assert ApplyAll(s', last) == s' + [s[n - 1]];
      RunJoin(s, CopyAll(n - 1), last);
      assert CopyAll(n - 1) + last == CopyAll(n);
      assert s' + [s[n - 1]] == s + s[..n];
    }
  }

  /** The background rewrite works on a copy of all stores, taken when they are saved. Whatever is set, removed and saved
      in the original stores afterwards, the copy keeps the saved values. */
  lemma CloneKeepsStores(s: seq<TreeState>, ops: seq<Op>)
    requires AllWellFormed(s) && (forall i :: 0 <= i < |s| ==> Clean(s[i])) && AllWellFormed(s + s)
    requires AllAllowed(s + s, ops)
    requires forall op :: op in ops && |s| <= op.i < 2 * |s| ==> op.CopyOp? || op.HashOp?
    ensures AllAllowed(s, CopyAll(|s|) + ops)
    ensures var r := ApplyAll(s, CopyAll(|s|) + ops); |r| >= 2 * |s| && r[|s|..2 * |s|] == s
  {
    hide Clean;
    hide AllWellFormed;
    hide Allowed;
    hide Apply;
    var n := |s|;
    CopyAllCopies(s, n);
    assert s + s[..n] == s + s;
    RunJoin(s, CopyAll(n), ops);
    var r := ApplyAll(s + s, ops);
    forall i | 0 <= i < n ensures |r| >= 2 * n && r[n + i] == s[i] {
      UntouchedTreeKeepsValue(s + s, ops, n + i);
    }
    GrowsOnly(s + s, ops);
  }

  lemma {:induction false} GrowsOnly(s: seq<TreeState>, ops: seq<Op>)
    requires AllWellFormed(s) && AllAllowed(s, ops)
    ensures |ApplyAll(s, ops)| >= |s|
    decreases |ops|
  {
    hide WellFormedState;
    if ops != [] { GrowsOnly(Apply(s, ops[0]), ops[1..]); }
  }

  /** Saved files hold the tree that was saved, and loading them gives its value. */
  lemma SavedIsStored(sha: Sha, t: TreeState)
    requires WellFormedState(t) && FitsTree(t)
    ensures OpensAs(sha, SaveTree(sha, t).files, t.root) && LoadTree(SaveTree(sha, t)) == Some(t)
  {
    hide WriteTree;
    hide Represents;
    hide OpenRoot;
    hide Decode;
    TreeRoundTrip(sha, t);
    if t.root.Some? { WrittenTreeIsStored(sha, t.root.value); } else { EmptyHasNoRoot(); }
  }

  /** Any run on a tree loaded from a snapshot and the copies made from it starts at the value that was saved. */
  method RunFromSnapshot(sha: Sha, saved: SavedTree, cacheSize: nat, ops: seq<Op>, ghost t: TreeState)
    returns (us: seq<MemTree>)
    requires saved == SaveTree(sha, t) && WellFormedState(t) && FitsTree(t) && t.version < UINT32_LIMIT
    requires AllAllowed([t], ops)
    ensures LoadTree(saved) == Some(t) && Family(sha, us) && States(us) == ApplyAll([t], ops)
  {
    hide Family;
    hide ApplyAll;
    hide AllAllowed;
    hide WellFormedState;
    hide FitsTree;
    hide Represents;
    hide WriteTree;
    hide OpenRoot;
    SavedIsStored(sha, t);
    var loaded := new MemTree.NewFromSnapshot(sha, saved.files, saved.version, cacheSize, t.root);
    AloneIsFamily(sha, loaded);
    us := Run(sha, [loaded], ops);
  }

  /** A tree that no operation writes to keeps its value, whatever happens to its copies. */
  lemma {:induction false} UntouchedTreeKeepsValue(s: seq<TreeState>, ops: seq<Op>, j: nat)
    requires AllWellFormed(s) && AllAllowed(s, ops) && j < |s|
    requires forall op :: op in ops && op.i == j ==> op.CopyOp? || op.HashOp?
    ensures |ApplyAll(s, ops)| >= |s| && ApplyAll(s, ops)[j] == s[j]
    decreases |ops|
  {
    if ops != [] {
      assert ops[0] in ops;
      UntouchedTreeKeepsValue(Apply(s, ops[0]), ops[1..], j);
    }
  }

  /** Why a copy needs a clean tree: with working changes at the root, overwriting any present key
      reaches the copy through the shared root node. */
  method DirtyCopyLeaks(sha: Sha, t: MemTree, key: Bytes, value: Bytes) returns (c: MemTree)
    requires t.Valid(sha) && Coherent(sha, Repr(t.root)) && t.version + 1 < UINT32_LIMIT
    requires t.root.Mem? && t.root.m.version > t.version && key in RootContents(t.state.root)
    modifies t, Repr(t.root)
    ensures WellFormedState(old(t.state)) && c.state == old(t.state)
    ensures c.root.Mem? && Some(c.root.m.model) == SetKey(old(t.state), key, value).root
    ensures RootContents(old(t.state.root))[key] != value ==> !c.Valid(sha)
  {
    StateStepsKeep(t.state, key, value);
    c := t.Copy(sha, 0);
    var keep: set<Bytes> := *;
    t.Set(sha, key, value, keep);
  }
}
