/** Saving and loading all stores, and setting the initial version. */
module MultiSnapshots {
  import opened Bytes
  import opened AvlTree
  import opened AvlHeight
  import opened AvlCorrectness
  import opened MerkleHash
  import opened Snapshot
  import opened SnapshotWriter
  import opened TreeStates
  import opened MultiTrees

  // ----- Initial version -----

  /** `setInitialVersion` of one tree: no effect once the tree has a version. */
  function InitTree(t: TreeState, initialVersion: nat): TreeState {
    if t.version > 0 || initialVersion < 1 then t else t.(version := initialVersion - 1)
  }

  function InitTrees(trees: Stores, initialVersion: nat): (r: Stores)
    ensures |r| == |trees|
  {
    if initialVersion <= 1 then trees
    else seq(|trees|, i requires 0 <= i < |trees| => Named(trees[i].name, InitTree(trees[i].item, initialVersion)))
  }

  /** `setInitialVersion` of the whole store. */
  function InitMulti(m: MultiState, initialVersion: nat): MultiState {
    MultiState(initialVersion, m.version, InitTrees(m.trees, initialVersion))
  }

  /** `SetInitialVersion`; None is its error. */
  function SetInitialVersion(m: MultiState, initialVersion: nat): Option<MultiState> {
    if initialVersion >= UINT32_LIMIT - 1 || m.version != 0 then None
    else if exists i :: 0 <= i < |m.trees| && m.trees[i].item.root.Some? then None
    else Some(InitMulti(m, initialVersion))
  }

  /** It succeeds exactly for a version that fits, before any commit, and while every store is empty. */
  lemma SetInitialVersionSucceeds(m: MultiState, initialVersion: nat)
    requires ValidMulti(m)
    ensures SetInitialVersion(m, initialVersion).Some? <==>
      && initialVersion < UINT32_LIMIT - 1 && m.version == 0
      && forall i :: 0 <= i < |m.trees| ==> RootContents(m.trees[i].item.root) == map[]
  {
    forall i | 0 <= i < |m.trees| ensures RootContents(m.trees[i].item.root) == map[] <==> m.trees[i].item.root.None? {
      var root := m.trees[i].item.root;
      if root.Some? { KeysNonEmpty(root.value); }
    }
  }

  /** Setting the initial version keeps the trees in lockstep exactly when there are no trees yet, or
      it had not been set, or it is set to the same value again. */
  lemma SetInitialVersionLockstep(m: MultiState, initialVersion: nat)
    requires ValidMulti(m) && SetInitialVersion(m, initialVersion).Some?
    ensures ValidMulti(SetInitialVersion(m, initialVersion).value)
      <==> m.trees == [] || m.initialVersion <= 1 || initialVersion == m.initialVersion
  {
    hide Less;
    var r := SetInitialVersion(m, initialVersion).value;
    forall i | 0 <= i < |m.trees|
      ensures WellFormedState(r.trees[i].item) && r.trees[i].name == m.trees[i].name
      ensures r.trees[i].item == if initialVersion <= 1 then m.trees[i].item else InitTree(m.trees[i].item, initialVersion)
    {
      assert InStep(m.trees[i].item, NextVersion(m.version, m.initialVersion));
    }
    if m.trees != [] {
      assert InStep(m.trees[0].item, NextVersion(m.version, m.initialVersion));
      assert ValidMulti(r) ==> InStep(r.trees[0].item, NextVersion(r.version, r.initialVersion));
    }
  }

  // ----- Files -----

  datatype SavedTree = SavedTree(version: nat, files: Snapshot)

  datatype SavedMulti = SavedMulti(initialVersion: nat, version: nat, stores: seq<Named<SavedTree>>)

  /** Small enough for the four-byte fields of the snapshot format. */
  ghost predicate FitsTree(t: TreeState) {
    t.root.Some? ==> Storable(t.root.value) && Size(t.root.value) < UINT32_LIMIT
  }

  ghost predicate Fits(m: MultiState) {
    forall i :: 0 <= i < |m.trees| ==> FitsTree(m.trees[i].item)
  }

  /** `Tree.WriteSnapshot`. */
  function SaveTree(sha: Sha, t: TreeState): SavedTree {
    SavedTree(t.version, if t.root.None? then EMPTY else WriteTree(sha, t.root.value, EMPTY))
  }

  /** `OpenSnapshot` and `NewFromSnapshot`; None if the files cannot be read as a tree. */
  function LoadTree(s: SavedTree): Option<TreeState> {
    match OpenRoot(s.files)
    case None => Some(TreeState(s.version, None))
    case Some(p) =>
      match Decode(p)
      case None => None
      case Some(t) => Some(TreeState(s.version, Some(t)))
  }

  lemma TreeRoundTrip(sha: Sha, t: TreeState)
    requires WellFormedState(t) && FitsTree(t)
    ensures LoadTree(SaveTree(sha, t)) == Some(t)
  {
    hide WriteTree;
    hide Decode;
    hide OpenRoot;
    if t.root.Some? {
      SnapshotRoundTrip(sha, t.root.value);
    } else {
      EmptyHasNoRoot();
    }
  }

  lemma EmptyHasNoRoot()
    ensures OpenRoot(EMPTY) == None
  {}

  /** The root hash as it is read back from the files. */
  function SavedHash(sha: Sha, s: SavedTree): Option<Bytes> {
    match OpenRoot(s.files)
    case None => Some(RootHash(sha, None))
    case Some(p) => StoredHash(p)
  }

  lemma SavedHashIsRootHash(sha: Sha, t: TreeState)
    requires WellFormedState(t) && FitsTree(t)
    ensures SavedHash(sha, SaveTree(sha, t)) == Some(RootHash(sha, t.root))
  {
    hide WriteTree;
    hide OpenRoot;
    hide HashNode;
    hide StoredHash;
    if t.root.Some? {
      SnapshotRoundTrip(sha, t.root.value);
    } else {
      EmptyHasNoRoot();
    }
  }

  /** `MultiTree.WriteSnapshot`. */
  function SaveFiles(sha: Sha, m: MultiState): SavedMulti {
    SavedMulti(m.initialVersion, m.version,
               seq(|m.trees|, i requires 0 <= i < |m.trees| => Named(m.trees[i].name, SaveTree(sha, m.trees[i].item))))
  }

  function LoadTrees(stores: seq<Named<SavedTree>>): (r: Option<Stores>)
    ensures r.Some? ==> |r.value| == |stores|
  {
    if stores == [] then Some([]) else
    var last := stores[|stores| - 1];
    match (LoadTrees(stores[..|stores| - 1]), LoadTree(last.item))
    case (Some(ts), Some(t)) => Some(ts + [Named(last.name, t)])
    case _ => None
  }

  /** `LoadMultiTree`. */
  function LoadFiles(s: SavedMulti): Option<MultiState> {
    match LoadTrees(s.stores)
    case None => None
    case Some(ts) => Some(InitMulti(MultiState(s.initialVersion, s.version, SortByName(ts)), s.initialVersion))
  }

  lemma {:induction false} LoadTreesRoundTrip(sha: Sha, trees: Stores, stores: seq<Named<SavedTree>>)
    requires |trees| == |stores|
    requires forall i :: 0 <= i < |trees| ==> WellFormedState(trees[i].item) && FitsTree(trees[i].item)
    requires forall i :: 0 <= i < |trees| ==> stores[i] == Named(trees[i].name, SaveTree(sha, trees[i].item))
    ensures LoadTrees(stores) == Some(trees)
    decreases |trees|
  {
    hide LoadTree;
    hide SaveTree;
    hide WellFormedState;
    hide FitsTree;
    if trees != [] {
      var n := |trees| - 1;
      LoadTreesRoundTrip(sha, trees[..n], stores[..n]);
      TreeRoundTrip(sha, trees[n].item);
      assert trees == trees[..n] + [trees[n]];
    }
  }

  /** A saved multi-store loads as the very same state. */
  lemma FilesRoundTrip(sha: Sha, m: MultiState)
    requires ValidMulti(m) && Fits(m)
    ensures LoadFiles(SaveFiles(sha, m)) == Some(m)
  {
    hide LoadTrees;
    hide SaveTree;
    hide SortByName;
    hide FitsTree;
    hide InitTrees;
    hide Less;
    forall i | 0 <= i < |m.trees| ensures WellFormedState(m.trees[i].item) {
      assert InStep(m.trees[i].item, NextVersion(m.version, m.initialVersion));
    }
    LoadTreesRoundTrip(sha, m.trees, SaveFiles(sha, m).stores);
    SortedSortsToItself(m.trees);
    InitHasNoEffect(m);
  }

  lemma SortedSortsToItself<T>(xs: seq<Named<T>>)
    requires Sorted(xs)
    ensures SortByName(xs) == xs
  {
    if xs != [] {
      var front, last := xs[..|xs| - 1], xs[|xs| - 1];
      SortedSortsToItself(front);
      assert xs == front + [last];
      if front != [] { CompareFlips(front[|front| - 1].name, last.name); }
    }
  }

  lemma InitHasNoEffect(m: MultiState)
    requires ValidMulti(m)
    ensures InitTrees(m.trees, m.initialVersion) == m.trees
  {
    hide Less;
    hide WellFormedState;
    forall i | 0 <= i < |m.trees| ensures m.initialVersion > 1 ==> InitTree(m.trees[i].item, m.initialVersion) == m.trees[i].item {
      assert InStep(m.trees[i].item, NextVersion(m.version, m.initialVersion));
    }
  }

  // ----- Commit info -----

  datatype StoreInfo = StoreInfo(name: Bytes, version: nat, hash: Bytes)

  datatype CommitInfo = CommitInfo(version: nat, stores: seq<StoreInfo>)

  /** `buildCommitInfo`, from which the app hash is computed. */
  function CommitInfoOf(sha: Sha, m: MultiState): CommitInfo {
    CommitInfo(m.version, seq(|m.trees|, i requires 0 <= i < |m.trees| =>
      StoreInfo(m.trees[i].name, m.trees[i].item.version, RootHash(sha, m.trees[i].item.root))))
  }

  /** The commit info of a saved state lists the stores in order, each at the version of the commit and with the hash
      that is read back from the files written for it. */
  lemma CommitInfoIsExact(sha: Sha, m: MultiState)
    requires ValidMulti(m) && Fits(m) && m.version > 0
    ensures var info, saved := CommitInfoOf(sha, m), SaveFiles(sha, m);
      && info.version == m.version == saved.version && |info.stores| == |saved.stores| == |m.trees|
      && forall i :: 0 <= i < |m.trees| ==>
           && info.stores[i].name == saved.stores[i].name == m.trees[i].name
           && info.stores[i].version == saved.stores[i].item.version == m.version
           && SavedHash(sha, saved.stores[i].item) == Some(info.stores[i].hash)
  {
    hide SaveTree;
    hide SavedHash;
    hide RootHash;
    hide WellFormedState;
    hide FitsTree;
    hide Sorted;
    forall i | 0 <= i < |m.trees|
      ensures m.trees[i].item.version == m.version && SaveTree(sha, m.trees[i].item).version == m.version
      ensures SavedHash(sha, SaveTree(sha, m.trees[i].item)) == Some(RootHash(sha, m.trees[i].item.root))
    {
      assert InStep(m.trees[i].item, NextVersion(m.version, m.initialVersion));
      SavedHashIsRootHash(sha, m.trees[i].item);
      SavedVersion(sha, m.trees[i].item);
    }
  }

  lemma SavedVersion(sha: Sha, t: TreeState)
    ensures SaveTree(sha, t).version == t.version
  {}

  /** The info of working trees, whose hashes are those after saving, names the version to be saved for the whole but
      the one before it for every store. */
  lemma WorkingInfoIsBehind(sha: Sha, m: MultiState)
    requires ValidMulti(m)
    ensures var next := NextVersion(m.version, m.initialVersion); var info := CommitInfoOf(sha, m.(version := next));
      info.version == next && forall i :: 0 <= i < |m.trees| ==> info.stores[i].version + 1 == next
  {
    hide RootHash;
    hide WellFormedState;
    hide Sorted;
    forall i | 0 <= i < |m.trees| ensures m.trees[i].item.version + 1 == NextVersion(m.version, m.initialVersion) {
      assert InStep(m.trees[i].item, NextVersion(m.version, m.initialVersion));
    }
  }
}
