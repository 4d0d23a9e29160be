/** `MultiTree` as the program has it: fields that its methods update in place. Each tree stands for
    its value; `MemTrees` shows how one tree is kept on the heap. */
module MultiTreeObjects {
  import opened Bytes
  import opened AvlHeight
  import opened TreeStates
  import opened MultiTrees
  import opened PendingLog
  import opened MerkleHash
  import opened MultiSnapshots
  import opened Recovery

  /** `index` gives the position of every name. */
  ghost predicate Indexes(index: map<Bytes, nat>, trees: Stores) {
    && (forall i :: 0 <= i < |trees| ==> trees[i].name in index && index[trees[i].name] == i)
    && (forall name :: name in index ==> index[name] < |trees| && trees[index[name]].name == name)
  }

  class MultiTree {
    var initialVersion: nat
    var version: nat
    var trees: Stores
    var treesByName: map<Bytes, nat>

    ghost function State(): MultiState
      reads this
    {
      MultiState(initialVersion, version, trees)
    }

    ghost predicate Valid()
      reads this
    {
      ValidMulti(State()) && Indexes(treesByName, trees)
    }

    constructor (m: MultiState)
      requires ValidMulti(m)
      ensures Valid() && State() == m
    {
      initialVersion, version, trees := m.initialVersion, m.version, m.trees;
      treesByName := map[];
      new;
      SortedHasNoDuplicates(trees);
      var ok := IndexByName();
    }

    /** Rebuilds `treesByName`; fails if a name occurs twice. */
    method IndexByName() returns (ok: bool)
      modifies this`treesByName
      ensures ok <==> NoDuplicates(trees)
      ensures ok ==> Indexes(treesByName, trees)
    {
      treesByName := map[];
      for i := 0 to |trees|
        invariant NoDuplicates(trees[..i]) && Indexes(treesByName, trees[..i])
      {
        if trees[i].name in treesByName {
          assert trees[treesByName[trees[i].name]].name == trees[i].name;
          return false;
        }
        assert trees[..i + 1] == trees[..i] + [trees[i]];
        treesByName := treesByName[trees[i].name := i];
      }
      assert trees[..|trees|] == trees;
      return true;
    }

    /** `ApplyUpgrades`. An unknown name leaves the upgrades before it applied, a name that is used twice all of them. */
    method ApplyUpgrades(us: seq<Upgrade>) returns (ok: bool)
      requires Valid()
      modifies this
      ensures initialVersion == old(initialVersion) && version == old(version)
      ensures ok <==> MultiTrees.ApplyUpgrades(old(State()), us).Some?
      ensures ok ==> Valid() && Some(State()) == MultiTrees.ApplyUpgrades(old(State()), us)
      ensures !ok ==> UpgradesStopped(old(State()), us, trees)
    {
      hide Less;
      hide InStep;
      hide SortByName;
      hide StopsAtUnknown;
      UpgradesKeepValid(State(), us);
      if |us| == 0 {
        return true;
      }
      var next := NextVersion(version, initialVersion);
      ghost var before := trees;
      ok := RunUpgrades(us, next);
      if !ok {
        return false;
      }
      trees := SortByName(trees);
      ok := IndexByName();
    }

    /** The loop over the upgrades. */
    method RunUpgrades(us: seq<Upgrade>, next: nat) returns (ok: bool)
      modifies this`trees
      ensures ok <==> UpgradeSteps(old(trees), us, next).Some?
      ensures ok ==> Some(trees) == UpgradeSteps(old(trees), us, next)
      ensures !ok ==> exists k: nat :: StopsAtUnknown(old(trees), us, k, next, trees)
    {
      hide UpgradeSteps;
      ghost var before := trees;
      NoSteps(before, next);
      for k := 0 to |us|
        invariant Some(trees) == UpgradeSteps(before, us[..k], next)
      {
        OneMoreStep(before, us, k, next);
        var u := us[k];
        var i := Find(trees, if u.delete then u.name else u.renameFrom);
        if (u.delete || u.renameFrom != []) && i == |trees| {
          FailedPrefix(before, us, k + 1, next);
          assert StopsAtUnknown(before, us, k, next, trees);
          return false;
        }
        if u.delete {
          var last := trees[|trees| - 1];
          SwapIsUpdate(trees, i);
          trees := trees[|trees| - 1 := trees[i]][i := last];
          trees := trees[..|trees| - 1];
        } else if u.renameFrom != [] {
          trees := trees[i := Named(u.name, trees[i].item)];
        } else {
          trees := trees + [Named(u.name, NewTree(next))];
        }
      }
      assert us[..|us|] == us;
      return true;
    }

    /** `ApplyChangeSet`. */
    method ApplyChangeSet(name: Bytes, pairs: ChangeSet) returns (ok: bool)
      requires Valid()
      modifies this`trees
      ensures Valid()
      ensures ok <==> MultiTrees.ApplyChangeSet(old(State()), name, pairs).Some?
      ensures ok ==> Some(State()) == MultiTrees.ApplyChangeSet(old(State()), name, pairs)
      ensures !ok ==> State() == old(State())
    {
      hide Less;
      hide WellFormedState;
      hide ApplyPairs;
      IndexFinds(treesByName, trees, name);
      if name !in treesByName {
        return false;
      }
      var i := treesByName[name];
      assert InStep(trees[i].item, NextVersion(version, initialVersion));
      trees := trees[i := Named(trees[i].name, ApplyPairs(trees[i].item, pairs))];
      return true;
    }

    /** `ApplyChangeSets`: stops at the first unknown name. */
    method ApplyChangeSets(css: ChangeSets) returns (ok: bool)
      requires Valid()
      modifies this`trees
      ensures Valid()
      ensures ok <==> MultiTrees.ApplyChangeSets(old(State()), css).Some?
      ensures ok ==> Some(State()) == MultiTrees.ApplyChangeSets(old(State()), css)
      ensures !ok ==> exists k :: StopsAt(old(State()), css, k) && State() == ChangedUpTo(old(State()), css, k)
    {
      hide MultiTrees.ApplyChangeSet;
      hide ValidMulti;
      hide Indexes;
      ghost var before := State();
      for k := 0 to |css|
        invariant Valid() && Some(State()) == MultiTrees.ApplyChangeSets(before, css[..k])
      {
        assert css[..k + 1][..k] == css[..k] && css[..k + 1][k] == css[k];
        var done := ApplyChangeSet(css[k].name, css[k].item);
        if !done {
          FailedChanges(before, css, k + 1);
          assert StopsAt(before, css, k);
          return false;
        }
      }
      assert css[..|css|] == css;
      return true;
    }

    /** `SaveVersion`; fails when the trees are at the last `uint32` version, with only its own version advanced. */
    method SaveVersion() returns (ok: bool)
      requires Valid()
      modifies this
      ensures treesByName == old(treesByName)
      ensures ok <==> !AtLastVersion(old(State()))
      ensures ok ==> Valid() && State() == SaveMulti(old(State()))
      ensures !ok ==> State() == old(State()).(version := NextVersion(old(version), old(initialVersion)))
    {
      hide Less;
      hide InStep;
      ghost var before := State();
      version := NextVersion(version, initialVersion);
      for i := 0 to |trees|
        invariant version == NextVersion(before.version, initialVersion) && initialVersion == before.initialVersion
        invariant treesByName == old(treesByName) && |trees| == |before.trees|
        invariant forall k :: 0 <= k < i ==> before.trees[k].item.version != UINT32_LIMIT - 1
        invariant forall k :: 0 <= k < |trees| ==>
          trees[k] == if k < i then Named(before.trees[k].name, TreeStates.SaveVersion(before.trees[k].item)) else before.trees[k]
      {
        if trees[i].item.version == UINT32_LIMIT - 1 {
          InStepTogether(before, 0, i);
          return false;
        }
        trees := trees[i := Named(trees[i].name, TreeStates.SaveVersion(trees[i].item))];
      }
      assert trees == SaveTrees(before.trees);
      assert State() == SaveMulti(before) && CleanMulti(SaveMulti(before));
      return true;
    }

    /** `buildCommitInfo`. */
    method BuildCommitInfo(sha: Sha, version: nat) returns (info: CommitInfo)
      ensures info == CommitInfoOf(sha, State().(version := version))
    {
      hide RootHash;
      var infos: seq<StoreInfo> := [];
      for i := 0 to |trees|
        invariant |infos| == i && forall k :: 0 <= k < i ==> infos[k] == CommitInfoOf(sha, State()).stores[k]
      {
        infos := infos + [StoreInfo(trees[i].name, trees[i].item.version, RootHash(sha, trees[i].item.root))];
      }
      info := CommitInfo(version, infos);
    }

    /** `applyWALEntry` and `SaveVersion`, the body of the replay loop. */
    method ReplayEntry(e: WalEntry) returns (ok: bool)
      requires Valid() && NextVersion(version, initialVersion) < UINT32_LIMIT
      modifies this
      ensures ok <==> CommitEntry(old(State()), e).Some?
      ensures ok ==> Valid() && Some(State()) == CommitEntry(old(State()), e)
    {
      hide ValidMulti;
      hide MultiTrees.ApplyUpgrades;
      hide MultiTrees.ApplyChangeSets;
      ok := ApplyUpgrades(e.upgrades);
      if !ok {
        return false;
      }
      ok := ApplyChangeSets(e.changesets);
      if !ok {
        return false;
      }
      TreesBelowLimit(State());
      ok := SaveVersion();
    }

    /** `CatchupWAL`: replays the new entries of the log, up to `endVersion` unless that is 0. */
    method CatchupWAL(w: Wal, endVersion: nat) returns (ok: bool)
      requires Valid() && w.first >= 1 && NextVersion(version, initialVersion) < UINT32_LIMIT
      requires NextVersion(version, initialVersion) + LastIndex(w)
        < UINT32_LIMIT + WalIndex(NextVersion(version, initialVersion), initialVersion)
      modifies this
      ensures ok <==> CatchUp(old(State()), w, endVersion).Some?
      ensures ok ==> Valid() && Some(State()) == CatchUp(old(State()), w, endVersion)
    {
      hide ValidMulti;
      hide Indexes;
      hide CommitEntry;
      hide WalIndex;
      ghost var before := State();
      var lastIndex := LastIndex(w);
      var firstIndex := WalIndex(NextVersion(version, initialVersion), initialVersion);
      if firstIndex > lastIndex {
        return true;
      }
      var endIndex := if endVersion == 0 then lastIndex else WalIndex(endVersion, initialVersion);
      if endIndex < firstIndex {
        return false;
      }
      if endIndex > lastIndex {
        endIndex := lastIndex;
      }
      var i := firstIndex;
      while i <= endIndex
        invariant firstIndex <= i <= endIndex + 1 && Valid() && Some(State()) == Replay(before, w, firstIndex, i - 1)
        invariant i > firstIndex ==> firstIndex >= w.first
        invariant NextVersion(version, initialVersion) == NextVersion(before.version, before.initialVersion) + (i - firstIndex)
        decreases endIndex - i
      {
        var entry := ReadAt(w, i);
        if entry.None? {
          FailedReplay(before, w, firstIndex, i, endIndex);
          return false;
        }
        var done := ReplayEntry(entry.value);
        if !done {
          FailedReplay(before, w, firstIndex, i, endIndex);
          return false;
        }
        i := i + 1;
      }
      return true;
    }
  }

  predicate AtLastVersion(m: MultiState) {
    exists i :: 0 <= i < |m.trees| && m.trees[i].item.version == UINT32_LIMIT - 1
  }

  lemma InStepTogether(m: MultiState, i: nat, j: nat)
    requires ValidMulti(m) && i < |m.trees| && j < |m.trees|
    ensures m.trees[i].item.version == m.trees[j].item.version
  {
    hide Less;
    hide WellFormedState;
    assert InStep(m.trees[i].item, NextVersion(m.version, m.initialVersion));
    assert InStep(m.trees[j].item, NextVersion(m.version, m.initialVersion));
  }

  lemma TreesBelowLimit(m: MultiState)
    requires ValidMulti(m) && NextVersion(m.version, m.initialVersion) < UINT32_LIMIT
    ensures !AtLastVersion(m)
  {
    hide Less;
    hide WellFormedState;
    forall i | 0 <= i < |m.trees| ensures m.trees[i].item.version != UINT32_LIMIT - 1 {
      assert InStep(m.trees[i].item, NextVersion(m.version, m.initialVersion));
    }
  }

  lemma {:induction false} FailedReplay(m: MultiState, w: Wal, from: nat, i: nat, end: int)
    requires ValidMulti(m) && from <= i <= end && Replay(m, w, from, i).None?
    ensures Replay(m, w, from, end).None?
    decreases end
  {
    hide CommitEntry;
    hide ValidMulti;
    if i < end { FailedReplay(m, w, from, i, end - 1); }
  }

  /** Upgrade `k` is the first with an unknown name, and `trees` is what the ones before it give. */
  ghost predicate StopsAtUnknown(before: Stores, us: seq<Upgrade>, k: nat, next: nat, trees: Stores) {
    && k < |us| && UpgradeSteps(before, us[..k], next) == Some(trees)
    && UpgradeSteps(before, us[..k + 1], next) == None
  }

  /** The trees after upgrades that failed: stopped at an unknown name, or sorted with some name twice. */
  ghost predicate UpgradesStopped(m: MultiState, us: seq<Upgrade>, trees: Stores) {
    var next := NextVersion(m.version, m.initialVersion);
    || (exists k: nat :: StopsAtUnknown(m.trees, us, k, next, trees))
    || (UpgradeSteps(m.trees, us, next).Some? && trees == SortByName(UpgradeSteps(m.trees, us, next).value)
        && !NoDuplicates(trees))
  }

  lemma NoSteps(trees: Stores, next: nat)
    ensures UpgradeSteps(trees, [], next) == Some(trees)
  {}

  lemma OneMoreStep(trees: Stores, us: seq<Upgrade>, k: nat, next: nat)
    requires k < |us|
    ensures UpgradeSteps(trees, us[..k + 1], next) == match UpgradeSteps(trees, us[..k], next)
      case None => None
      case Some(ts) => UpgradeStep(ts, us[k], next)
  {
    hide UpgradeStep;
    assert us[..k + 1][..k] == us[..k] && us[..k + 1][k] == us[k];
  }

  lemma SwapIsUpdate(trees: Stores, i: nat)
    requires i < |trees|
    ensures var n, last := |trees|, trees[|trees| - 1];
      trees[n - 1 := trees[i]][i := last][..n - 1] == trees[i := last][..n - 1]
  {}

  lemma {:induction false} FailedPrefix(trees: Stores, us: seq<Upgrade>, k: nat, next: nat)
    requires k <= |us| && UpgradeSteps(trees, us[..k], next).None?
    ensures UpgradeSteps(trees, us, next).None?
    decreases |us|
  {
    hide UpgradeStep;
    if k < |us| {
      assert us[..|us| - 1][..k] == us[..k];
      FailedPrefix(trees, us[..|us| - 1], k, next);
    } else {
      assert us[..k] == us;
    }
  }

  lemma {:induction false} FailedChanges(m: MultiState, css: ChangeSets, k: nat)
    requires ValidMulti(m) && k <= |css| && ApplyChangeSets(m, css[..k]).None?
    ensures ApplyChangeSets(m, css).None?
    decreases |css|
  {
    hide ValidMulti;
    hide ApplyChangeSet;
    if k < |css| {
      assert css[..|css| - 1][..k] == css[..k];
      FailedChanges(m, css[..|css| - 1], k);
    } else {
      assert css[..k] == css;
    }
  }

  /** The change set at position `k` is the first one for an unknown store. */
  ghost predicate StopsAt(m: MultiState, css: ChangeSets, k: nat)
    requires ValidMulti(m)
  {
    k < |css| && ApplyChangeSets(m, css[..k]).Some? && ApplyChangeSets(m, css[..k + 1]).None?
  }

  ghost function ChangedUpTo(m: MultiState, css: ChangeSets, k: nat): MultiState
    requires ValidMulti(m) && StopsAt(m, css, k)
  {
    ApplyChangeSets(m, css[..k]).value
  }

  lemma IndexFinds(index: map<Bytes, nat>, trees: Stores, name: Bytes)
    requires Indexes(index, trees)
    ensures name in index <==> Find(trees, name) < |trees|
    ensures name in index ==> index[name] == Find(trees, name)
  {
    var i := Find(trees, name);
    if i < |trees| { assert trees[i].name in index; }
  }
}
