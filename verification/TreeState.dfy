/** One versioned tree as a value: the version last saved and the working root. */
module TreeStates {
  import opened Bytes
  import opened AvlCorrectness

  datatype TreeState = TreeState(version: nat, root: Root)

  /** A change-set entry. */
  datatype Pair = Pair(delete: bool, key: Bytes, value: Bytes)

  type ChangeSet = seq<Pair>

  ghost predicate WellFormedState(s: TreeState) {
    WellFormedRoot(s.root) && StampedRoot(s.root, s.version + 1)
  }

  /** No node is newer than the saved version: there are no working changes. */
  ghost predicate Clean(s: TreeState) {
    StampedRoot(s.root, s.version)
  }

  function SetKey(s: TreeState, key: Bytes, value: Bytes): TreeState
    requires WellFormedState(s)
  {
    s.(root := Put(s.root, key, value, s.version + 1))
  }

  function RemoveKey(s: TreeState, key: Bytes): TreeState
    requires WellFormedState(s)
  {
    s.(root := Delete(s.root, key, s.version + 1))
  }

  function SaveVersion(s: TreeState): TreeState {
    s.(version := s.version + 1)
  }

  lemma StateStepsKeep(s: TreeState, key: Bytes, value: Bytes)
    requires WellFormedState(s)
    ensures WellFormedState(SetKey(s, key, value)) && WellFormedState(RemoveKey(s, key))
    ensures WellFormedState(SaveVersion(s)) && Clean(SaveVersion(s))
    ensures RootContents(SetKey(s, key, value).root) == RootContents(s.root)[key := value]
    ensures RootContents(RemoveKey(s, key).root) == RootContents(s.root) - {key}
  {
    hide Put;
    hide Delete;
    hide WellFormedRoot;
    hide RootContents;
    PutCorrect(s.root, key, value, s.version + 1);
    DeleteCorrect(s.root, key, s.version + 1);
    if s.root.Some? { StampedWeaken(s.root.value, s.version + 1, s.version + 2); }
  }

  function ApplyPair(s: TreeState, p: Pair): (r: TreeState)
    requires WellFormedState(s)
    ensures WellFormedState(r) && r.version == s.version
  {
    StateStepsKeep(s, p.key, p.value);
    if p.delete then RemoveKey(s, p.key) else SetKey(s, p.key, p.value)
  }

  /** `ApplyChangeSet`: the pairs in order. */
  function ApplyPairs(s: TreeState, pairs: ChangeSet): (r: TreeState)
    requires WellFormedState(s)
    ensures WellFormedState(r) && r.version == s.version
    decreases |pairs|
  {
    if pairs == [] then s else ApplyPairs(ApplyPair(s, pairs[0]), pairs[1..])
  }

  /** The change set on plain key-value contents. */
  ghost function Update(m: map<Bytes, Bytes>, pairs: ChangeSet): map<Bytes, Bytes>
    decreases |pairs|
  {
    if pairs == [] then m else
    var p := pairs[0];
    Update(if p.delete then m - {p.key} else m[p.key := p.value], pairs[1..])
  }

  lemma {:induction false} ApplyPairsCorrect(s: TreeState, pairs: ChangeSet)
    requires WellFormedState(s)
    ensures RootContents(ApplyPairs(s, pairs).root) == Update(RootContents(s.root), pairs)
    decreases |pairs|
  {
    if pairs != [] {
      StateStepsKeep(s, pairs[0].key, pairs[0].value);
      ApplyPairsCorrect(ApplyPair(s, pairs[0]), pairs[1..]);
    }
  }

  lemma {:induction false} ApplyPairsSplit(s: TreeState, a: ChangeSet, b: ChangeSet)
    requires WellFormedState(s)
    ensures ApplyPairs(s, a + b) == ApplyPairs(ApplyPairs(s, a), b)
    decreases |a|
  {
    if a == [] {
      assert a + b == b;
    } else {
      assert (a + b)[1..] == a[1..] + b;
      ApplyPairsSplit(ApplyPair(s, a[0]), a[1..], b);
    }
  }
}
