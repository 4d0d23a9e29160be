# A verified model of memiavl, the external sorter and the CRO bridge

This project models the storage layer under the Cronos chain state and proves what the chain relies on.

- **memiavl** is a Merkle AVL tree whose leaves hold the data. Nodes are shared between tree copies and mutated
  in place when they are newer than the copy-on-write version; hashes are cached in the nodes.
- A **snapshot** stores a tree in three arrays without child pointers. Children are found by `uint32`
  arithmetic on the position, the size and a count of pending subtrees.
- The **database** adds a write-ahead log with an asynchronous queue, background snapshot rewrites, pruning,
  recovery after a crash and rollback.
- **versiondb** sorts change sets externally (sorted chunks, delta encoding, a k-way merge) and reads and writes
  change-set files.
- The **bridge** escrows 8-decimal vouchers and mints 18-decimal tokens for them.

SHA-256 is a function parameter: every statement holds for any hash function, and where collisions matter the
colliding strings are named. Times, locks and goroutines appear as the choice of which step happens next.

## Files

| file | content |
|---|---|
| Bytes, Encoding | byte strings and their order, little-endian words, varints |
| AvlTree, AvlCorrectness, AvlRecords, AvlHeight | the tree as a value: set, remove, rebalancing, order, contents, node versions, the Fibonacci bound |
| MerkleHash, HashBinding | node hashes, and that they determine the tree |
| Snapshot, SnapshotWriter, Lookup | the pointer-free layout, writing it, reading it back, binary-search lookups |
| MemNode, MemTree, TreeState, CopyOnWrite | the tree on the heap, one versioned tree, and families of copies over whole runs |
| NodeWriter, NodeStack, Export, Import, Iterator, Proof, ProofCheck | snapshots and streams from heap nodes, the importer, range iteration, ICS 23 proofs and their verifier |
| MultiTree, UpgradeBatches, PendingLog, UpgradeReplay, MultiSnapshot, MultiTreeObject, PlainStores, InitialStores | all stores together: upgrades, change sets, the pending log, saving and loading, and what they do to plain maps |
| Recovery, Disk, DiskSteps, SnapshotNames | log and snapshot directories, replay, crash, rollback, prune, directory names |
| Database, DatabaseSafety, StraySnapshots, InitialVersion, DatabaseLimits, DatabaseObject, DatabaseCalls | the database as a state machine, its invariant over every run, stray snapshot directories, setting the initial version, where its guarantees end, `DB` itself, and its calls as runs of the machine |
| DeltaEncoding, MergeHeap, ExtSort, ChangeSetFile, ChangeSetReader, SorterItem | external sorting and change-set files |
| Bridge | escrow, mint, burn and release |

## How the parts fit

The immutable `Tree` is the common meaning of a heap node (`MemNodes.Holds`) and of a snapshot position
(`Snapshot.Represents`). Heap operations are proved against functions on trees; those functions are proved against
maps. A `TreeState` (version and root) is the value of one store, a `MultiState` the value of all stores. The database
invariant ties log, queue, snapshots, pending log and live state to one history of commits, and recovery, switching,
pruning and rollback are read off from it. The methods of `DB` are proved to be runs of the state machine
(`DatabaseCalls.Serve`, `DatabaseCalls.OpenIsStep`), and the states of the history to be what the log says on plain maps
from store names to keys, values and versions (`PlainStores.HistoryIsPlain`).

## Where the code does not do what one would expect

Each of these is stated by the lemmas named with it, together with the condition under which the expected property
holds.

- A copy is isolated only if it is taken of a tree without working changes (`CopyOnWrite.DirtyCopyLeaks`).
- Lookup by rank in a persisted subtree can wrap around far past its end (`Lookup.PersistedGetByIndexExact`).
- Snapshot names of versions from 2^31 on cannot be read back, and one such name makes every seek fail
  (`SnapshotNames.NameRoundTrip`, `SnapshotNames.SeekSnapshot`).
- `Load` with a target that has no log entry silently loads another version (`Disks.LoadTargetIsExact`); below the
  initial version it loads the newest (`DatabaseLimits.TargetBelowInitialVersion`).
- A crash between the renaming of a new snapshot and the writing of the log, or a rollback that does not get to its
  removals, leaves a directory newer than the state that is loaded next. Once commits reach its version again, `Load`
  silently gives the lost state under that version, and `LoadForOverwriting` makes it current
  (`StraySnapshots.LostCommitComesBack`). Loading every target stays exact up to the next load if and only if the
  load left no directory newer than what it loaded (`StraySnapshots.ExactUntilNextLoad`).
- `LoadForOverwriting` moves the `current` link before it can be refused. The state that a later `Load` gives is the
  one from before exactly when the link did not move or the log reaches both snapshots (`DiskSteps.MovedLinkIsExact`).
  The version of the oldest snapshot is always refused once the log has been pruned
  (`DatabaseLimits.RollbackToOldestIsRefused`).
- A crash can leave a log that ends before the current snapshot, after which commits cannot be logged
  (`DatabaseLimits.RestartLogMatches`, `DatabaseLimits.GapRejectsCommits`); the comment at memiavl/db.go:64 says
  otherwise.
- Setting the initial version twice breaks the version lockstep once a store is pending
  (`MultiSnapshots.SetInitialVersionLockstep`, `InitialVersions.SettingKeeps`).
- A database opened at an old version without overwriting does not log the versions it commits again; a crash gives
  back the old ones (`DatabaseObjects.CommitsAreSkipped`).
- Changes of a store are replayed faithfully if and only if all its pending pairs are in the first entry with its name;
  otherwise there is a change that replay overrules (`PendingLog.MergeIsFaithful`). An upgrade is replayed faithfully
  if and only if it does not take away a name that a pending change set uses (`UpgradeReplays.UpgradeIsFaithful`). A
  later call that gives a store a name in use can hit another store on replay
  (`UpgradeBatches.NameInUseBreaksReplay`); the stores agree after every upgrade of the call if and only if each picks
  the same store both times (`UpgradeBatches.StepsPermuted`).
- `GetLatestVersion` is documented to return 0 for an empty database, but returns the initial version less one
  (`DatabaseLimits.LatestVersionIsExact`).
- Full and skipping reads of a change-set file start every version at the same place if and only if every length in it
  is minimally encoded (`ChangeSetReaders.StartsAgree`); one padded length makes the one succeed and the other fail
  (`ChangeSetReaders.PaddedDisagrees`).
- A proof for a key with an empty value, or next to one, is refused by the verifier (`ProofChecks.MembershipVerifies`,
  `ProofChecks.AbsenceVerifies`).
- The working commit info names the version to be saved, but for each store the one before it
  (`MultiSnapshots.WorkingInfoIsBehind`).
- A change-set file that ends inside a version is reported as complete when the cut is between two fields, and by the
  skipping function wherever it is behind the header (`ChangeSetReaders.TornFile`).
- memiavl/README.md describes an older snapshot layout; the model follows the code.

## Model

| member | source | states |
|---|---|---|
| Bytes.LessIsTotalOrder | memiavl/mem_node.go:163-175 | the byte-wise key comparison that every lookup uses is a strict total order |
| AvlTree.ReBalance | memiavl/mem_node.go:136-161 | from a node whose subtrees are balanced and whose balance is off by at most two, rebalancing gives exact heights and sizes, balance within one, and a height that is kept or reduced by one |
| AvlCorrectness.ReBalanceKeeps | memiavl/mem_node.go:110-161 | no single or double rotation changes the contents or breaks the key order, including that each branch key is the smallest key on its right |
| AvlTree.SetRecursive | memiavl/node.go:37-86 | setting a key keeps heights and sizes exact and siblings within one; the height grows by at most one, the size by one exactly when the key was new |
| AvlCorrectness.SetRecursiveCorrect | memiavl/node.go:37-86 | the contents become the old ones with the key updated, the order holds, and the flag says whether the key was there |
| AvlCorrectness.SetRecursiveStamps | memiavl/node.go:37-86 | no node of the result is newer than the version written, and no node is newer than its parent; which nodes are new is in AvlRecords.SetRebuilds |
| AvlRecords.SetRecords | memiavl/node.go:37-86 | with the version that wrote it kept in each leaf: setting a key changes exactly one record, to the value and exactly the version written |
| AvlRecords.SetRebuilds | memiavl/node.go:37-86 | every node of the result is a subtree of the old tree or carries exactly the version written |
| AvlTree.RemoveRecursive | memiavl/node.go:96-137 | removing a key keeps heights and sizes exact and siblings within one, and the height drops by at most one |
| AvlCorrectness.RemoveRecursiveCorrect | memiavl/node.go:96-137 | the contents become the old ones without the key; the value returned is the removed one; the new key passed up is the new smallest key of the subtree, so separators stay right |
| AvlCorrectness.RemoveRecursiveStamps | memiavl/node.go:96-137 | removal keeps every node no newer than its parent and the version written |
| AvlRecords.RemoveRecords | memiavl/node.go:96-137 | removing a key takes away its record and keeps every other, versions included |
| AvlRecords.RemoveRebuilds | memiavl/node.go:96-137 | every node of the rest is a subtree of the old tree or carries exactly the version written |
| AvlCorrectness.ItemsListContents | memiavl/node.go:37-137 | the leaves from left to right are the contents in strictly increasing key order |
| AvlCorrectness.ListingIsUnique | memiavl/node.go:37-137 | there is only one such listing, so the leaf sequence after a set or remove is determined by the resulting map |
| AvlHeight.LeavesAtLeastFib | memiavl/mem_node.go:90-93 | a balanced tree of height h has at least Fib(h + 2) leaves |
| AvlHeight.HeightBound | memiavl/snapshot.go:568-580 | trees that fit a snapshot have height at most 45 and trees with int64 sizes at most 90, so the uint8 and int8 casts lose nothing |
| Snapshot.PreTreesBelowHeight | memiavl/snapshot.go:568-570 | the pending-subtree count stored in a record plus its height never exceeds the height of the tree |
| HashBinding.HashBindsTree | memiavl/node.go:141-184 | two search trees with equal hashes are equal in keys, values, shape and node versions, unless two strings hashed for them collide |
| HashBinding.RootHashBinds | memiavl/tree.go:181-186 | the same for root hashes, the hash of the empty tree included |
| Snapshot.ChildPositions | memiavl/persisted_node.go:218-248 | the start-leaf, end-leaf and left-branch formulas give the exact positions of both children and none of their uint32 expressions wraps |
| Snapshot.ChildrenRepresented | memiavl/persisted_node.go:104-132 | Left and Right of a stored branch are where its children are stored |
| Snapshot.KeyStored | memiavl/persisted_node.go:86-93 | the key read through the key-leaf field is the key of the node |
| Snapshot.StoredTreeDecodes | memiavl/persisted_node.go:61-142 | following the accessors from a stored node gives back the same tree, node versions and heights included, and the stored hash is its hash |
| SnapshotWriter.Writer.WriteKeyValue | memiavl/snapshot.go:490-511 | appends the length-prefixed pair to the key-value file and advances the offset by what was written |
| SnapshotWriter.Writer.WriteLeaf | memiavl/snapshot.go:513-540 | appends the pair and a leaf record with the offset before it; the counters stay equal to the file lengths |
| SnapshotWriter.Writer.WriteBranch | memiavl/snapshot.go:542-559 | appends exactly the given branch record |
| NodeWriters.WriteRecursive | memiavl/snapshot.go:563-581 | from any mix of in-memory and persisted nodes the files become the old ones with the whole tree appended in post-order; cached hashes stay right |
| NodeWriters.WriteSnapshot | memiavl/snapshot.go:350-366 | the files depend only on the value of the tree |
| SnapshotWriter.RootRecordExact | memiavl/snapshot.go:563-581 | none of the casts in the record of a subtree's root loses anything |
| SnapshotWriter.WriteTreeLaysOut | memiavl/snapshot.go:563-581 | a written tree stays stored, record for record, in every later state of the files |
| SnapshotWriter.WrittenTreeIsStored | memiavl/snapshot.go:563-581 | a written tree is found again from the last branch index alone |
| SnapshotWriter.SnapshotRoundTrip | memiavl/snapshot.go:355-366 | writing a tree and opening the files gives back the same tree and its hash |
| Exports.ScanPostOrder | memiavl/tree.go:244-264 | the stack loop, with the exporting callback, emits the nodes of the tree in post-order, each exactly once |
| Exports.ExportSnapshot | memiavl/snapshot.go:299-348 | the linear scan over leaf and branch records emits the same post-order stream |
| Exports.ScanIsPostOrder | memiavl/snapshot.go:318-346 | scanning the branches of one subtree emits the leaves owed before it and then the subtree in post-order, whatever is pending |
| Exports.KeyValueAgrees | memiavl/snapshot.go:266-292 | reading a pair by its length prefixes and by its leaf record gives the same pair |
| Imports.Importer.Add | memiavl/import.go:168-220 | each node is handled like pushing a leaf on, or joining the top two trees of, a stack of whole trees, with the files of that forest; a version above uint32 is an error and a branch without two waiting nodes a panic |
| Imports.DoImport | memiavl/import.go:132-157 | the stream is accepted exactly when it rebuilds to no tree or one tree, with the files of that tree; leftovers are an error |
| Imports.AcceptsExactlyPostOrder | memiavl/import.go:137-157 | a stream is accepted as one tree exactly when it is the post-order walk of that tree |
| Imports.ExportImportRoundTrip | memiavl/import.go:132-220 | exporting a saved tree and importing the stream gives the same nodes, leaves and kvs as writing it directly |
| Lookup.PersistedGetCorrect | memiavl/persisted_node.go:167-197 | the binary search over the leaf array returns the value stored under the key and the number of smaller keys |
| Lookup.LookupUnique | memiavl/mem_node.go:163-181 | value and rank are determined by tree and key, so any two lookups that meet the specification agree |
| Lookup.PersistedGetByIndexExact | memiavl/persisted_node.go:199-216 | the item at a rank is returned exactly when the leaf position does not wrap around, which holds for every rank up to the size |
| MemNodes.Get | memiavl/mem_node.go:163-181 | on any mix of in-memory and persisted nodes the lookup returns the value and the rank of the key |
| MemNodes.GetByIndex | memiavl/mem_node.go:183-199 | on any mix of nodes, the item with the given rank, or none, for every index whose leaf position does not wrap around in a persisted subtree; no index up to one past the last does |
| MemNodes.Mutate | memiavl/mem_node.go:62-71 | the node itself when it is newer than the copy-on-write version, otherwise a fresh copy; stamped, with its hash dropped |
| MemNodes.RotateRight | memiavl/mem_node.go:110-124 | in place, the subtree becomes the rotated tree; only the node and an owned left child are written, and the hash caches stay right |
| MemNodes.RotateLeft | memiavl/mem_node.go:126-134 | the mirror image |
| MemNodes.ReBalance | memiavl/mem_node.go:136-161 | in place, the subtree becomes the rebalanced tree; only nodes newer than the copy-on-write version are written |
| MemNodes.SetRecursive | memiavl/node.go:37-86 | on the heap, the subtree becomes the tree with the key set; only owned nodes are written, everything else in it is shared or fresh, and cached hashes stay right |
| MemNodes.RemoveRecursive | memiavl/node.go:96-137 | on the heap, the same for removal; when the key is absent nothing is written at all |
| MemNodes.Hash | memiavl/mem_node.go:79-88 | the hash of the subtree as it is now, from the cache or computed, and every cache below stays right |
| TreeStates.ApplyPairsCorrect | memiavl/tree.go:131-139 | a change set updates the contents pair by pair, deletions included |
| MemTrees.MemTree.Set | memiavl/tree.go:141-150 | the tree's value becomes the one with the key set; only nodes the tree owns are written; the cache stays right |
| MemTrees.MemTree.Remove | memiavl/tree.go:152-157 | the same for removal |
| MemTrees.MemTree.ApplyChangeSet | memiavl/tree.go:131-139 | the tree's value becomes the one with the whole change set applied in order |
| MemTrees.MemTree.SaveVersion | memiavl/tree.go:160-172 | the next version, with the root hash of the working tree if it is asked for, or an error and no change at the last uint32 version |
| MemTrees.MemTree.WorkingHash | memiavl/tree.go:181-186 | the root hash of the value; only hash caches are written |
| MemTrees.MemTree.Copy | memiavl/tree.go:119-129 | the copy has the same value, shares every node and starts with an empty cache; the copy-on-write version is the saved one if there are in-memory nodes; if nothing is newer than it, neither tree owns a shared node afterwards |
| MemTrees.MemTree.Get | memiavl/tree.go:216-232 | with or without the cache, the value stored under the key |
| MemTrees.MemTree.NewEmptyTree | memiavl/tree.go:43-55 | a valid empty tree at any version but the last, owning no node |
| MemTrees.MemTree.NewFromSnapshot | memiavl/tree.go:72-85 | a valid tree over snapshot files, with the value that the files hold, owning no node |
| CopyOnWrite.Run | memiavl/tree.go:119-157 | over every run of set, remove, save, copy and hash on any family of copies, each tree's value changes only by its own operations, although nodes are shared and mutated in place, and all cached hashes stay right |
| CopyOnWrite.RunFromEmpty | memiavl/tree.go:43-157 | the same from nothing: every run on a new empty tree and the copies made from it gives the values of independent trees |
| CopyOnWrite.RunFromSnapshot | memiavl/tree.go:72-157 | the same for a tree loaded from the files that saving some state wrote: the run starts at exactly that state |
| CopyOnWrite.RunStores | memiavl/multitree.go:163-176 | the same for all the trees of a new multi-store together and the copies made from them |
| CopyOnWrite.CloneKeepsStores | memiavl/multitree.go:163-176 | a copy of all stores taken when they are saved keeps their values, whatever is set, removed and saved in the originals afterwards |
| CopyOnWrite.UntouchedTreeKeepsValue | memiavl/tree.go:117-129 | a tree that no set, remove or save of a run names has the same value after it, whatever happens to its copies |
| CopyOnWrite.DirtyCopyLeaks | memiavl/tree.go:119-129 | why the copy must be taken of a saved tree: after copying a tree whose root is newer than its version, setting any present key in the one changes the root node of the other |
| Iterators.Iterator.Next | memiavl/iterator.go:68-107 | one step delivers the next item of the domain and leaves the rest, or ends the iteration when nothing is left |
| Iterators.Iterate | memiavl/iterator.go:19-107 | iterating from start to end delivers exactly the items with start <= key < end, once each, in ascending or descending order |
| Iterators.IterationIsUnique | memiavl/iterator.go:19-107 | only one sequence is such an iteration |
| Iterators.SkipRight | memiavl/iterator.go:77-101 | a right subtree skipped because of the end bound has nothing in the domain |
| Iterators.SkipLeft | memiavl/iterator.go:77-101 | a left subtree skipped because of the start bound has nothing in the domain |
| Proofs.PathToLeaf | memiavl/proof.go:156-194 | the path of sibling hashes from the root to the leaf that the search ends in, and whether that leaf has the key |
| Proofs.ConvertInnerOps | memiavl/proof.go:111-148 | the inner operations for the path, from the leaf up |
| Proofs.InnerOpHashes | memiavl/proof.go:119-146 | applying one inner operation to the hash of the child on the path gives the hash of the branch, byte for byte |
| Proofs.LeafOpHashes | memiavl/proof.go:96-108 | applying the leaf operation to key and value gives the hash of the leaf |
| Proofs.FoldReachesRoot | memiavl/proof.go:86-148 | folding the inner operations over the leaf hash gives the root hash |
| Proofs.CreateExistenceProof | memiavl/proof.go:86-94 | a proof exists exactly when the key does, it carries its value, and what a verifier computes from it is the root hash (completeness in ICS 23 Vector Commitments, Properties & Invariants) |
| Proofs.GetMembershipProof | memiavl/proof.go:17-28 | the same for a tree, with the missing-key error and the nil root of an empty tree |
| Proofs.GetNonMembershipProof | memiavl/proof.go:41-76 | a proof exists exactly when the key is absent; its left and right parts prove the greatest smaller and the smallest larger key, and a part is missing exactly when there is no such key |
| Proofs.NeighboursAtRank | memiavl/proof.go:44-69 | the items at both sides of the rank of an absent key are its immediate neighbours |
| ProofChecks.MembershipVerifies | memiavl/proof.go:31-35 | a membership proof of the tree is accepted by the ICS 23 verifier exactly if key and value are not empty: root, key, value and the form of every operation are right |
| ProofChecks.AdjacentAreNeighbors | memiavl/proof.go:41-82 | the paths to two neighbouring leaves are equal from the root down to one branch, part there to its left and right child, and follow the edges that face each other, as the lengths of prefixes and suffixes show |
| ProofChecks.AbsenceVerifies | memiavl/proof.go:79-82 | a non-membership proof of a non-empty tree is accepted exactly if the neighbours in it have keys and values: with one neighbour its path is the outermost, with two they are adjacent |
| MultiTrees.WalIndexInverse | memiavl/multitree.go:433-447 | index to version and back is the identity; version to index and back is exactly for versions not below the initial version less one, below which the unsigned subtraction wraps |
| MultiTrees.CommitsUseConsecutiveIndices | memiavl/multitree.go:426-439 | the first commit has log index 1 and each later commit the next one |
| MultiTrees.SortByNameSorts | memiavl/multitree.go:233-235 | sorting by name gives a sorted permutation |
| MultiTrees.UpgradesKeepValid | memiavl/multitree.go:198-245 | after adding, deleting and renaming stores the names are sorted and distinct and every tree is in lockstep with the version |
| MultiTrees.ChangeSetsByStore | memiavl/multitree.go:247-265 | applying change sets succeeds exactly when all names are known, and each store is changed by its own pairs only, in their order |
| PlainStores.StepIsPlain | memiavl/multitree.go:205-231 | on plain maps from names to records, an upgrade fails exactly for an unknown name; if the names stay distinct it deletes one store, moves its records to another name, or adds an empty one, and nothing else |
| PlainStores.StepsArePlain | memiavl/multitree.go:205-231 | the same for a list of upgrades that gives no name in use |
| PlainStores.PairsRecords | memiavl/tree.go:131-157 | a change set updates the records of a store pair by pair: what is set gets the next version, what is deleted goes |
| PlainStores.ChangesArePlain | memiavl/multitree.go:258-265 | change sets succeed exactly when all names are known, and then the records of each store are updated by its own pairs with the next version |
| PlainStores.SaveKeepsStores | memiavl/multitree.go:274-290 | saving keeps every name and the very same tree under it; each tree's version grows by one |
| UpgradeBatches.UpgradesCompose | memiavl/db.go:316-330 | upgrades made in two calls and replayed as one list give the same stores, if each upgrade of the second call picks the same store now and in the replay |
| UpgradeBatches.StepsPermuted | memiavl/multitree.go:205-231 | running a list of upgrades on two arrangements of the same stores gives the same stores after every upgrade if and only if each upgrade picks the same store in both |
| UpgradeBatches.NameInUseBreaksReplay | memiavl/multitree.go:205-237 | why a name in use matters: for any two stores, a first call that adds a store and a second that renames it to an existing name and deletes by that name delete different stores now and on replay |
| PendingLog.CommitEntry | memiavl/multitree.go:353-358 | replaying one log entry and saving gives a clean state at the next version, all trees in lockstep; what it does to the stores is in PlainStores.CommitIsPlain |
| PlainStores.CommitIsPlain | memiavl/multitree.go:353-358 | after any committed log entry the records of each store are those after its upgrades, updated by the pairs for the store with the committed version |
| PlainStores.CommitIsExact | memiavl/multitree.go:353-358 | a log entry whose upgrades give no name in use is committed exactly when it can be read on plain maps, and leaves the same names, keys, values and versions |
| PlainStores.HistoryIsPlain | memiavl/multitree.go:317-362 | so the stores after any number of commits are what the log says on plain maps from the base on |
| PendingLog.MergeAppends | memiavl/db.go:383-400 | merging change sets into the pending log appends to each store's pairs in order, if the stores changed have all their pending pairs in their first entry |
| PendingLog.ChangeSetsDescribed | memiavl/db.go:334-403 | applying change sets to the trees and merging them into the log stay in agreement: replaying the log gives the working state, also when a call names stores several times |
| UpgradeReplays.UpgradesDescribed | memiavl/db.go:316-330 | the same for a call with several upgrades, before or after change sets of the version |
| PendingLog.MergeIsFaithful | memiavl/db.go:346-400 | for any log that describes the working state and any store: every change of the store is replayed exactly if and only if all its pending pairs are in its first entry |
| UpgradeReplays.UpgradeIsFaithful | memiavl/multitree.go:190-245 | for any log that describes the working state: one more upgrade is replayed exactly if and only if it neither deletes nor renames away a store named by a pending change set |
| MultiSnapshots.SetInitialVersionLockstep | memiavl/multitree.go:127-153 | setting the initial version keeps lockstep exactly when there are no trees, or none was set before, or the same is set again |
| MultiSnapshots.SetInitialVersionSucceeds | memiavl/multitree.go:127-144 | setting the initial version succeeds exactly for a version that fits, before any commit, and while every store is empty |
| MultiSnapshots.FilesRoundTrip | memiavl/multitree.go:64-112 | a saved multi-store loads as the very same state: names, versions, shapes and contents |
| MultiSnapshots.SavedHashIsRootHash | memiavl/snapshot.go:226-231 | the root hash read from the files is the root hash of the tree that was saved |
| MultiSnapshots.CommitInfoIsExact | memiavl/multitree.go:292-308 | the commit info of a saved state lists its stores in order, each at the version of the commit and with the hash read back from the files written for it |
| MultiSnapshots.WorkingInfoIsBehind | memiavl/multitree.go:267-271 | the working commit info has the version to be saved, and for each store the version before it |
| MultiTreeObjects.MultiTree.BuildCommitInfo | memiavl/multitree.go:292-308 | the loop over the trees builds that commit info |
| MultiTreeObjects.MultiTree.ApplyUpgrades | memiavl/multitree.go:198-245 | the loops compute the specified upgrade: deletion by swapping with the last, renaming, adding, sorting, and the errors for unknown and conflicting names, with the trees as they are after each |
| MultiTreeObjects.MultiTree.ApplyChangeSet | memiavl/multitree.go:248-255 | changes exactly the named tree, or fails and changes nothing when the name is unknown |
| MultiTreeObjects.MultiTree.ApplyChangeSets | memiavl/multitree.go:258-265 | the change sets in order; with an unknown name it fails and leaves exactly the changes before it |
| MultiTreeObjects.MultiTree.SaveVersion | memiavl/multitree.go:274-290 | all trees and the store advance to the next version together and keep their contents (PlainStores.SaveKeepsStores); at the last version it fails with only the version of the store advanced |
| MultiTreeObjects.MultiTree.CatchupWAL | memiavl/multitree.go:317-362 | the replay loop computes CatchUp: up to date, pruned target, clamping to the end of the log, and every replay error |
| Recovery.AtVersion | memiavl/multitree.go:426-447 | the state after i commits has the version of log index i and no working changes |
| Recovery.CatchUpFollows | memiavl/multitree.go:317-362 | catching up from the state after any number of commits ends exactly at the state of the last log entry |
| Disks.LoadIsExact | memiavl/db.go:174-199 | a plain Load gives exactly the committed state at the end of the log, or at the current snapshot if that is later: same stores, shapes and node versions |
| Disks.LoadTargetIsExact | memiavl/db.go:174-199 | from a snapshot that is not stray, Load with a target gives that version, and exactly its committed state, if and only if it is the snapshot's version or has a log entry; any other target gives an error or silently another committed version |
| Disks.AnySnapshotLoads | memiavl/db.go:174-199 | a directory of any origin loads at its own version, and a plain Load gives the same in any directory where it is current and the log does not go beyond it |
| DiskSteps.RestartIsExact | memiavl/db.go:146-199 | after losing any tail of the log, Load gives a committed state and loses a suffix only; no stray snapshot remains if and only if none is newer than that state |
| DiskSteps.RollbackIsExact | memiavl/db.go:201-236 | from a snapshot that is not stray, rolling back succeeds exactly when the log has the entry of the target; then the link points to the snapshot, the log ends with the target, exactly the snapshots up to it and those whose removal failed are left, and a plain Load gives exactly the target's state, whichever removals failed or were not reached |
| DiskSteps.MovedLinkIsExact | memiavl/db.go:207-219 | a rollback that is refused or stops after moving the link leaves a directory that loads as a committed state, the one from before if and only if the link did not move or the log reaches both snapshots |
| DiskSteps.TruncateKeeps | memiavl/db.go:530-538 | truncating the log after a prune never drops an entry that a remaining snapshot needs, and drops all others: the log starts with the entry of the version after the earliest snapshot, unless it does not have that entry, and keeps every entry from there on |
| DatabaseSafety.CommitKeeps | memiavl/db.go:543-591 | a commit adds exactly the state the process then has to the history, and keeps the invariant |
| DatabaseSafety.FlushKeeps | memiavl/db.go:600-626 | the log writer extends the log by exactly the next commit |
| DatabaseSafety.StartKeeps | memiavl/db.go:752-764 | starting a rewrite takes a committed state |
| DatabaseSafety.RenameKeeps | memiavl/db.go:686-694 | the new snapshot directory holds a committed state; if one of that version exists the rewrite ends without effect |
| DatabaseSafety.LinkKeeps | memiavl/db.go:695-695 | moving the current link forward keeps everything recoverable |
| DatabaseSafety.SwitchKeeps | memiavl/db.go:455-475 | installing the rewritten tree after catch-up leaves the live state equal, shapes and versions included |
| DatabaseSafety.RewriteNeverStuck | memiavl/db.go:455-475 | in every state with the invariant the new snapshot can be loaded, catching up succeeds, and once the log has all commits the switch can be made |
| DatabaseSafety.PruneRemoveKeeps | memiavl/db.go:506-528 | removing an old snapshot keeps everything else recoverable, also while a rewrite is under way |
| DatabaseSafety.PruneTruncateKeeps | memiavl/db.go:530-538 | so does truncating the log, even if newer snapshots have appeared meanwhile; the log starts with the version after the one that the prune had found |
| DatabaseSafety.RestartKeeps | memiavl/db.go:146-199 | after a crash at any moment the process has exactly the state of a commit, and only commits that had not reached the disk are lost |
| DatabaseSafety.OverwriteKeeps | memiavl/db.go:201-236 | a LoadForOverwriting that does not start from a stray snapshot leaves exactly the history up to the target and exactly the directories up to it or whose removal failed |
| DatabaseSafety.DowngradeKeeps | memiavl/db.go:207-219 | after a refused one the process has exactly the state of a commit, and the invariant holds with the link moved |
| DatabaseSafety.RunKeeps | memiavl/db.go:146-721 | every run of upgrades, changes, commits, flushes, rewrites, switches, prunes, crashes, and rollbacks that succeed, are refused or are interrupted keeps the invariant, if no rollback starts from a stray snapshot |
| DatabaseSafety.ReachableRecovers | memiavl/db.go:146-721 | in every state reachable from a new database, the directory loads as a committed state, and the live state is the newest commit with the pending log applied |
| StraySnapshots.StepKeepsTidy | memiavl/db.go:146-721 | a directory becomes stray exactly in a load that leaves it newer than the state loaded |
| StraySnapshots.RunKeepsTidy | memiavl/db.go:146-721 | a run in which no load leaves a newer directory has no stray ones, and keeps the invariant without any other condition |
| StraySnapshots.ReachableTargets | memiavl/db.go:174-236 | in every state reachable by such a run, loading any target from the snapshot it finds, rolling back to it, and being refused all end exactly as the history says |
| StraySnapshots.NewerTakesOver | memiavl/db.go:174-236 | if a load leaves a newer directory, there is a run of commits after which Load of its version gives a state that was never committed, and after a rollback to it, refused or not and with any part of the commits in the log, a plain Load gives that state |
| StraySnapshots.LostCommitComesBack | memiavl/db.go:686-695 | from any quiescent state, a crash between renaming and logging leads to such a run |
| StraySnapshots.ExactUntilNextLoad | memiavl/db.go:174-236 | after a load, with nothing stray from before it, every target stays exact in every run up to the next load if and only if the load left no directory newer than what it loaded |
| InitialVersions.SettingKeeps | memiavl/db.go:295-312 | from a database without commits, setting the initial version keeps the invariant, pending stores included, if and only if no store is pending, or none had been set, or the same is set again |
| DatabaseLimits.ReachableInStep | memiavl/multitree.go:426-447 | in every reachable state each tree's version plus one is the next version of the store, and the next commit gets the next log index |
| DatabaseLimits.RestartLogMatches | memiavl/db.go:64-65 | the invariant written at the log field holds after a restart exactly when the log had reached the current snapshot |
| DatabaseLimits.GapRejectsCommits | memiavl/db.go:1122-1126 | with a gap between log and snapshot, the next commit cannot be written |
| DatabaseLimits.FlushedProcessLosesNothing | memiavl/db.go:146-199 | if all commits are in the log, a crash loses only pending changes and creates no stray snapshot |
| DatabaseLimits.LatestVersionIsExact | memiavl/db.go:1075-1096 | the latest version read without loading is the version Load gives exactly under the stated conditions; an empty chain with an initial version is the exception |
| DatabaseLimits.TargetBelowInitialVersion | memiavl/multitree.go:329-342 | a target below the initial version less one silently loads the newest version, because its log index wraps |
| DatabaseLimits.RollbackToOldestIsRefused | memiavl/db.go:207-219 | after the log is pruned to the oldest snapshot, rolling back to that snapshot's own version is refused with the link moved; a later Load gives the state from before exactly when the log reaches the snapshot that was current, and otherwise an older one |
| DatabaseLimits.CommitInfoBinds | memiavl/multitree.go:292-308 | equal commit infos mean equal stores, unless strings hashed for one store collide; what the info holds is in MultiSnapshots.CommitInfoIsExact |
| DatabaseLimits.StateSyncIsGenesis | memiavl/import.go:67-263 | exporting every store of a committed state and importing the streams gives exactly the directory that a new database with that state starts from, in lockstep under the initial version that the importer records |
| SnapshotNames.NameRoundTrip | memiavl/db.go:916-927 | a snapshot name is read back exactly when its version is below 2^31 |
| SnapshotNames.ParsedNameIsName | memiavl/db.go:916-927 | a version that is read from a name without a sign has exactly that name; a minus sign gives a version that is not positive |
| SnapshotNames.TemporaryIsIgnored | memiavl/db.go:1071-1073 | a directory with anything after the name of a snapshot, as an interrupted write or removal leaves it, is not taken for a snapshot |
| SnapshotNames.NameOrder | memiavl/db.go:890-892 | zero-padded names sort as their versions do |
| SnapshotNames.SeekSnapshot | memiavl/db.go:931-952 | the traversal finds the greatest version not above the target, reports when there is none, and fails exactly when some name cannot be read back |
| SnapshotNames.FirstSnapshotVersion | memiavl/db.go:955-969 | the smallest version in the directory; it fails exactly when that is 0, when there is none, or when its name cannot be read back |
| SnapshotNames.PruneSnapshots | memiavl/db.go:505-528 | removes exactly the versions below the current one that have at least keepRecent newer ones below it, and nothing when some name cannot be read back |
| DatabaseObjects.DB.ApplyUpgrades | memiavl/db.go:316-330 | applies the upgrades and appends them to the pending log, or refuses; after a failure nothing is logged, and exactly which upgrades are applied |
| DatabaseObjects.DB.ApplyChangeSets | memiavl/db.go:334-403 | applies the change sets and merges them into the pending log, on the fast and on the slow path; after an unknown store name, exactly which changes are applied and which are logged |
| DatabaseObjects.EffectiveIsAll | memiavl/db.go:376-380 | when all stores are known, passing over empty change sets makes no difference |
| DatabaseObjects.DB.Commit | memiavl/db.go:543-583 | saves, queues or writes the entry under the index of the new version, and starts a new pending log; with what has changed when the trees are at the last version or the write fails; DatabaseCalls.Serve relates it to the history |
| DatabaseObjects.DB.WriteBatch | memiavl/db.go:614-624 | writes the entries the log does not have yet, all or none |
| DatabaseObjects.DB.FlushQueue | memiavl/db.go:593-626 | one round of the log writer takes a batch from the queue and writes it; if it cannot be written it is lost |
| DatabaseObjects.DB.RewriteSnapshot | memiavl/db.go:678-696 | adds the snapshot of the trees and makes it current, unless a directory of that version exists or the database is read-only |
| DatabaseObjects.DB.RewriteSnapshotBackground | memiavl/db.go:750-791 | refused when read-only or when a rewrite is under way; otherwise the new snapshot is current and a tree that has caught up with all commits is ready, unless a directory of that version exists |
| DatabaseObjects.BatchKeeps | memiavl/db.go:600-626 | in every reachable state without a gap any batch from the queue can be written and leads to a reachable state |
| DatabaseObjects.DB.SwitchTree | memiavl/db.go:445-475 | catches up, installs the tree and re-applies the pending log; if catching up fails the old tree stays, and if re-applying fails the new tree has exactly the upgrades, or the changes, before the first unknown store |
| DatabaseObjects.DB.Prune | memiavl/db.go:492-540 | leaves exactly the snapshots to be kept and those whose removal failed, unchanged, and the log from the version after the oldest of them on; everything left is still recoverable; does nothing when some name cannot be read back |
| DatabaseObjects.Load | memiavl/db.go:116-266 | refuses options that do not go together and a missing directory, and creates a new directory if asked to; a process opened at version 0 gets the initial stores exactly when their names are distinct and new: these stores, empty and in lockstep, sorted among the others, with a pending log that replays to them |
| InitialStores.AddsExactly | memiavl/db.go:254-262 | adding stores succeeds exactly when the names are distinct and new, and adds exactly these, empty and in lockstep; the upgrades as a log entry replay to the same |
| InitialStores.AddedAreEmpty | memiavl/db.go:254-262 | on plain maps, the new names have nothing in them and the other stores are as they were |
| DatabaseObjects.Open | memiavl/db.go:174-236 | the newest state, or the target's, or the rolled-back one, from any directory, with the errors for names, targets and refused rollbacks, and the directory as it is after each |
| DatabaseObjects.CommitsAreSkipped | memiavl/db.go:1116-1128 | versions committed again after opening an old version are not logged and a crash gives back the old ones; the new ones are among them exactly when they lead to the same state, as the same entries do |
| DatabaseCalls.Serve | memiavl/db.go:316-791 | every sequence of calls on a `DB` (upgrades, change sets, commits of both kinds, rounds of the log writer, rewrites in the foreground and in the background, switches, prunes) takes it exactly where the run of their steps takes the state machine, and keeps its invariant |
| DatabaseCalls.FlushesAreBatch | memiavl/db.go:600-626 | writing a batch is the same as writing its entries one by one |
| DatabaseCalls.RewriteFollows | memiavl/db.go:764-787 | writing, renaming, linking, loading and catching up in turn ends with the newest commit ready, and the invariant kept |
| DatabaseCalls.AfterPruneIsRun | memiavl/db.go:492-540 | a prune is a run of single removals, a look for the earliest snapshot and a truncation |
| DatabaseCalls.OpenIsStep | memiavl/db.go:146-236 | opening the directory of a process that has stopped is the restart step, or the rollback step; after a refused rollback the directory is the one that the refused step leaves |
| MergeHeaps.Down | versiondb/extsort/merge.go:43-51 | sifting down, with the swaps and comparisons of the merge, restores the heap below a position and permutes the entries |
| MergeHeaps.MultiWayMerge.constructor | versiondb/extsort/merge.go:17-36 | a valid heap over the non-empty streams that holds all their items |
| MergeHeaps.MultiWayMerge.Next | versiondb/extsort/merge.go:68-83 | delivers an item that nothing left has to come before, and removes exactly it; none only when nothing is left |
| MergeHeaps.Drain | versiondb/extsort/merge.go:67-83 | read to its end, the merge delivers a sorted permutation of all items |
| DeltaEncoding.DiffOffset | versiondb/extsort/delta_encoding.go:75-89 | the length of the longest common prefix |
| DeltaEncoding.DeltaEncoder.Write | versiondb/extsort/delta_encoding.go:17-36 | emits the shared length, the rest length and the rest of the key |
| DeltaEncoding.DeltaDecoder.Read | versiondb/extsort/delta_encoding.go:47-67 | reads one item after the last one, with the end of file, the errors and the out-of-range shared length |
| DeltaEncoding.ChunkRoundTrip | versiondb/extsort/delta_encoding.go:17-67 | decoding an encoded chunk gives back its items, in any order and with any lengths below 2^32 |
| ExtSorting.ChunkFileRoundTrip | versiondb/extsort/sort.go:174-198 | a saved chunk is read back, with or without delta encoding |
| ExtSorting.ExtSorter.Feed | versiondb/extsort/sort.go:104-116 | takes the item in, or refuses it when it is too long; the chunk is handed over exactly when its size reaches the limit, so the chunk being filled stays below it and only the last item of a chunk takes it there |
| ExtSorting.ExtSorter.FinishChunk | versiondb/extsort/sort.go:130-143 | any running chunk may finish next: it leaves the running ones, one sorted file is added, and nothing is lost or added |
| ExtSorting.ExtSorter.Finalize | versiondb/extsort/sort.go:148-202 | the merge over all chunk files, finished in any order, holds exactly what was fed |
| ExtSorting.Spawn | versiondb/extsort/sort.go:66-101 | for every input, chunk limit and order of completion, the output is a sorted permutation of the input |
| ChangeSetFiles.UvarintSizeIsExact | versiondb/client/changeset.go:355-364 | the computed size is the length that the encoder produces |
| ChangeSetFiles.EncodeKVPair | versiondb/client/changeset.go:125-142 | the buffer is filled exactly with the encoding of the pair |
| ChangeSetFiles.WriteChangeSet | versiondb/client/changeset.go:43-68 | header with version and payload size, then the pairs |
| ChangeSetReaders.ReadChangeSet | versiondb/client/changeset.go:74-106 | reads one version in full or skipping the payload, with every error and the signed size |
| ChangeSetReaders.VersionRoundTrip | versiondb/client/changeset.go:43-106 | a written version is read back, a deletion without its value, in full or skipped, ending at the same place |
| ChangeSetReaders.FileRoundTrip | versiondb/client/changeset.go:235-303 | iterating over any concatenation visits exactly the written versions and ends at the end of the file, with both functions |
| ChangeSetReaders.TornFile | versiondb/client/changeset.go:235-303 | a file that ends inside a version, wherever it was cut: exactly the versions before it are visited and the offset is their end, with both functions; the cut is reported unless nothing of the version is there, or its header is complete and, in a full read, the cut is between two fields |
| ChangeSetReaders.CutPair | versiondb/client/changeset.go:159-195 | a pair that is cut short is never read as another one, and looks like the end of the file exactly if it is cut between two fields |
| Encoding.UvarintFits | versiondb/client/changeset.go:165-187 | every length that is read is a 64-bit number |
| ChangeSetReaders.Iterate | versiondb/client/changeset.go:235-303 | the loop delivers all versions, the offset after the last complete one, and errors other than the end of file |
| ChangeSetReaders.PairConsumes | versiondb/client/changeset.go:108-120 | on any input the computed size is at most what was read, and equal exactly when the lengths are encoded minimally |
| ChangeSetReaders.SkippingAgrees | versiondb/client/changeset.go:74-106 | on any version that parses, skipping reports the same version and count, and stops at the same place exactly when every length in the payload is minimally encoded |
| ChangeSetReaders.StartsAgree | versiondb/client/changeset.go:235-303 | on any file, skipping starts every version that the full read parses at the same place exactly when every length in those versions is minimally encoded |
| ChangeSetReaders.IterationsAgree | versiondb/client/changeset.go:235-303 | then both functions report the same versions up to where the full read stops, and the same offset if that is the end of the file |
| ChangeSetReaders.PaddedDisagrees | versiondb/client/changeset.go:159-303 | a file of one version with a two-byte zero length, which the full read takes as complete and on which skipping fails |
| SorterItems.ItemRoundTrip | versiondb/client/convert_to_sst.go:205-263 | decoding an encoded item gives back the version and the pair |
| SorterItems.DecodedIsEncoded | versiondb/client/convert_to_sst.go:240-263 | an item that can be decoded is the encoding of the result exactly when its flag is 0 or 1 and a deletion has no value; only the flag 1 is a deletion |
| SorterItems.ItemOrderIsKeyOrder | versiondb/client/convert_to_sst.go:266-281 | items sort exactly as the timestamp comparator sorts prefix, key and version |
| SorterItems.ItemLessIsOrder | versiondb/client/convert_to_sst.go:266-281 | the item comparison is an order that the external sorter accepts |
| Bridge.ConvertConserves | x/cronos/keeper/ibc.go:29-57 | a conversion succeeds exactly when it is configured and the signer has the vouchers and may be paid; whoever signs, it mints ten to the tenth per escrowed voucher and keeps the backing |
| Bridge.TransferConserves | x/cronos/keeper/ibc.go:93-130 | exactly when a transfer succeeds, the IBC send included; it burns ten to the tenth times what it releases, keeps the backing, and leaves the remainder with the user |
| Bridge.VoucherSendConserves | x/cronos/keeper/ibc.go:132-145 | sending the vouchers themselves takes them from the signer and keeps the backing |
| Bridge.BridgeIsBlocked | app/app.go:1198-1206 | the bridge's own account is among the addresses that the bank refuses to pay |
| Bridge.ConvertTotals | x/cronos/keeper/ibc.go:21-65 | after any number of coins of a conversion, the sums converted so far and exactly when it has not failed |
| Bridge.TransferTotals | x/cronos/keeper/ibc.go:80-159 | the same for a transfer, where small amounts pass without effect |
| Bridge.MessageLeaves | x/cronos/keeper/ibc.go:21-159 | a message changes no balance but those of its signer and of the bridge, in the two denominations |
| Bridge.Keeper.ConvertVouchersToEvmCoins | x/cronos/keeper/ibc.go:21-65 | the loop over the coins. It succeeds exactly when every coin may pass and the signer has the sum of the vouchers; then exactly that sum is escrowed and ten to the tenth times it minted to the signer; otherwise nothing changes; no balance of anybody else changes |
| Bridge.Keeper.IbcTransferCoins | x/cronos/keeper/ibc.go:80-159 | the same for transfers of EVM tokens, vouchers and other coins, refused without a destination: it succeeds exactly when every coin may pass and balances and supplies cover the sums, and then burns, releases and sends exactly these |
| Bridge.RunConserves | x/cronos/keeper/ibc.go:21-145 | over every run of messages, whoever signs them, escrow times ten to the tenth less the EVM supply is constant |

## Left out

- File I/O, mmap, fsync, symbolic links, file locks, worker pools and contexts: a directory is a map of snapshots, a current version and a log; links and renames are single steps.
- The log library: only its index rules (consecutive writes, truncation within range) are modelled; its segment files and the repair of a corrupted tail in memiavl/wal.go are not.
- Protobuf encoding of log entries, metadata and commit infos: these are values here, with nil and empty byte strings identified.
- A `DB` opened at an old version without overwriting and then committed to again: `DatabaseObjects.CommitsAreSkipped` says what happens, but the state machine has no such run.
- `DB.SaveVersion` bumps the version without logging; it is no step of the state machine. `DB.SetInitialVersion` is one only on its own, in `InitialVersions.SettingKeeps`.
- Failed calls in the middle of a version (an unknown store name in a change set): the caller stops the node, and the state machine has no step for it.
- Amounts beyond 256 bits, telemetry, CRC21 conversions and IBC packet handling in the bridge; coins of other denominations succeed or fail without touching the escrow or the EVM supply. That the IBC transfer module burns the sender's vouchers and refuses blocked senders is taken from that module, whose code is not part of this model.
- The code of the ICS 23 library: its verifier is modelled from the proof specification for IAVL trees (leaf prefix 0, child size 33, inner prefix of 4 to 12 bytes, neighbouring paths); compressed and batched proofs, and its reading of the numbers in a prefix, are not.
- Snappy and zlib compression, RocksDB, SST files and the conversion commands around them.
- Callbacks that stop a scan or an iteration early; iterating over a tree while it is changed.
- MultiTreeObjects.MultiTree.ApplyChangeSet: holds trees as values, not as `MemTree` objects, because `MemTrees.MemTree.ApplyChangeSet` and `CopyOnWrite.Run` already relate those objects to the same values.
- UpgradeReplays.UpgradesDescribed: with change sets pending, a call with several upgrades must not give a name in use; this is sufficient only. For a single upgrade `UpgradeReplays.UpgradeIsFaithful` is exact.
- Disks.LoadTargetIsExact: leaves stray snapshots to `StraySnapshots.ExactUntilNextLoad`, because a stray directory can happen to hold the same state as the commit of its version.
- DiskSteps.RollbackIsExact: the same.
- DatabaseSafety.OverwriteKeeps: the same; `StraySnapshots.RunKeepsTidy` shows when no snapshot is stray.
- DiskSteps.MovedLinkIsExact: the same.
- DatabaseSafety.DowngradeKeeps: the same.
- DatabaseSafety.RunKeeps: the same.
- DatabaseSafety.ReachableRecovers: the same.
- DatabaseLimits.ReachableInStep: the same.
- PlainStores.HistoryIsPlain: needs upgrades that give no name in use, because a conflict that a later upgrade of the same list resolves has no meaning on maps; `PlainStores.CommitIsPlain` has no such condition.
- PlainStores.CommitIsExact: the same.
- PlainStores.StepsArePlain: the same.
- DatabaseCalls.Serve: calls that the state machine has no step for are left out (see above); the background goroutines run between calls, while the state machine interleaves their single steps with everything else.
- Bridge.ConvertTotals: the voucher denomination and the EVM denomination differ, as for all results on the bridge; the first is checked to start with `ibc/`.
- Bridge.TransferTotals: the same.
- DatabaseSafety.PruneRemoveKeeps: any old snapshot may be removed; how many the code keeps is stated by `SnapshotNames.PruneSnapshots`.
- Exports.ScanPostOrder: gives branch nodes an empty value; in the Go code they never have one.
- ExtSorting.ExtSorter.FinishChunk: chunk files always save; failures of the file system are not modelled.
- Bridge.ConvertConserves: balances are unbounded, because the overflow check of the 256-bit amounts aborts the message.
