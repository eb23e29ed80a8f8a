# MiniSQL: a verified model of storage, index, concurrency, recovery and query planning

MiniSQL is a small disk-based relational engine. This project models its layers in Dafny, each over an abstract
version of the layer below it, and proves that each keeps the simple promise it makes.

- **B+ tree index** (`TreePages`, `TreeShape`, `TreeGrow`, `TreeShrink`, `BPlusTree`, `TreeTheorems`,
  `IndexIterator`). Every run of Insert, Remove and GetValue behaves as a finite map, through all splits, merges,
  redistributions and root changes, also while others have pages of the tree pinned; separators, parent ids, the leaf
  chain, page sizes and equal depth are kept; pages are neither leaked nor freed twice, except that a pinned page is
  not deleted; pin counts are as found; range scans are exact. A key is its rank in the order of CompareKeys, which
  `KeyOrder` proves to be a total order on exactly the rows without NULL or a float that is no number. The sizes are
  those the source needs: at least two pairs in a leaf and four children in an internal page, because with fewer an
  internal page may be left with one child and no neighbour.
- **Recovery** (`RecoveryLog`, `Recovery`, `RecoveryManager`). Only committed effects survive, from any checkpoint
  taken after a log prefix and in whatever order the losers are undone, and recovering twice changes nothing. The
  hypotheses are that records of a transaction run from begin to at most one commit or abort, that nobody touches a
  key another unsettled transaction has touched, and that before-images are true; the last is shown to be exactly what
  undo needs, and dropping the second loses a committed write.
- **Lock manager** (`LockHistory`, `LockState`, `LockPhase`, `LockManager`, `LockRuns`, `WaitsFor`, `LockWaits`).
  Every call is cut where its thread is without the latch: after LockPrepare, at each wait, between the unlocks of
  Commit and Abort. A run is any interleaving of these steps and of detector passes, and in each of its states
  counters, flags, lock sets and grants agree, the accesses made are conflict-serializable, a transaction whose Commit
  or Abort has returned has left nothing behind, and every transaction is in the state that its own steps and the
  detector have put it in. The depth-first search is exact, and a detector pass breaks every cycle of the graph it
  builds. That graph lacks one kind of wait, that of a shared request for an announced upgrade: a deadlock without
  such a wait is gone once its victims have woken up and aborted, and a reachable one with such a wait goes unnoticed.
- **Buffer pool, replacers, disk allocator** (`BufferPool`, `LruReplacer`, `ClockReplacer`, `DiskAllocator`). The pool
  refines a plain page store exactly as long as clients unpin as dirty what they changed and fetch allocated pages.
  Its replacer gives up the frame that has been evictable longest. DeletePage on a page in memory leaves its frame
  both on the free list and in the replacer; the pool stays consistent exactly when the page was not in memory.
- **Table pages and heap** (`Bytes`, `SlotBitmap`, `TupleLayout`, `PageBytes`, `PageEdits`, `TablePage`,
  `InsertableList`, `TableHeap`, `TableIterator`). A table page is one buffer of 4096 bytes: header words, bitmaps,
  slot directory and tuples share it without overlap, every setter changes only what its getter reads, and moving
  bytes and rewriting offsets never changes what is read through another slot; the insertable list is exactly the
  pages with room; a scan visits every live row once.
- **Row and key format** (`RowFormat`, `Floats`, `KeyOrder`). Reading inverts writing for every schema and null
  pattern; CompareKeys on serialized keys is the lexicographic order of the values, floats being compared as the
  numbers their bits stand for. A row has a place in it if and only if no field is NULL or NaN.
- **Planner and index scan** (`Planner`, `ScanReading`, `IndexScanExecutor`). The index scan over real trees is
  compared with the sequential scan. It returns exactly the rows of a set computed from the clause and the indexed
  columns that meet the clause, so that it is right if and only if that set has every row that meets it. It never
  returns a wrong row. It can lose rows in two cases the code does not guard against: the planner compares the number
  of usable indexes with the number of columns, which two indexes on one column defeat, and the flag for "or" is set
  by the topmost connective only, so that a nested "or" is scanned as "and", with a filter or without. A guard on
  clause and indexes is enough for all tables, and exact for conjunctions.

`dafny verify dfyconfig.toml` checks the whole project.

## Model

| member | source | states |
|---|---|---|
| `TreePages.KeyIndex` | minisql-master/src/page/b_plus_tree_leaf_page.cpp:56-68 | the binary search finds the first position whose key is not below the key |
| `TreePages.ChildIndex` | minisql-master/src/page/b_plus_tree_internal_page.cpp:73-90 | the binary search finds the last child whose separator is not above the key, ignoring the meaningless first key; an empty page has none |
| `TreePages.ValueIndex` | minisql-master/src/page/b_plus_tree_internal_page.cpp:49-55 | the first position of a child id, or -1 exactly when it is not there |
| `BPlusTrees.BPlusTree.FindLeafPage` | minisql-master/src/index/b_plus_tree.cpp:515-540 | the descent ends, pinned, at the one leaf whose interval covers the key |
| `BPlusTrees.BPlusTree.FindLeftmostLeaf` | minisql-master/src/index/b_plus_tree.cpp:515-540 | with leftMost the descent ends at the leaf whose interval has no lower end |
| `BPlusTrees.BPlusTree.GetValue` | minisql-master/src/index/b_plus_tree.cpp:79-95 | returns exactly the binding of the finite map the tree represents; pins are as found |
| `BPlusTrees.BPlusTree.Insert` | minisql-master/src/index/b_plus_tree.cpp:107-113 | a new key is added to the map, a duplicate is refused and changes no page; the whole tree invariant and all pins are kept |
| `BPlusTrees.BPlusTree.StartNewTree` | minisql-master/src/index/b_plus_tree.cpp:120-130 | the first key makes a one-leaf tree that represents one binding |
| `BPlusTrees.BPlusTree.InsertIntoLeaf` | minisql-master/src/index/b_plus_tree.cpp:140-159 | the leaf takes the pair or the duplicate is refused; an overfull leaf is split up to a valid tree |
| `BPlusTrees.BPlusTree.SplitFullLeaf` | minisql-master/src/index/b_plus_tree.cpp:154-158 | splitting an overfull leaf and telling the parents gives a valid tree with the same map |
| `BPlusTrees.BPlusTree.InsertIntoParent` | minisql-master/src/index/b_plus_tree.cpp:197-226 | a pending split at any height is closed, by an entry in the parent, a recursive split or a new root, into a valid tree |
| `BPlusTrees.BPlusTree.PopulateNewRoot` | minisql-master/src/page/b_plus_tree_internal_page.cpp:101-106 | the new root stands above both halves, which name it as parent |
| `BPlusTrees.BPlusTree.InsertNodeAfter` | minisql-master/src/page/b_plus_tree_internal_page.cpp:113-126 | the new entry stands right after the old child, and the new page names the parent |
| `BPlusTrees.BPlusTree.SplitInternal` | minisql-master/src/index/b_plus_tree.cpp:168-176 | an internal page one entry too large becomes two of legal size, with the split pending at the parent |
| `BPlusTrees.BPlusTree.MoveHalfTo` | minisql-master/src/page/b_plus_tree_internal_page.cpp:135-161 | the upper half moves and every moved child names its new parent |
| `BPlusTrees.BPlusTree.Remove` | minisql-master/src/index/b_plus_tree.cpp:238-254 | exactly the key leaves the map; an absent key changes no page; the tree invariant and all pins are kept, whatever others have pinned; of the pages that leave the tree exactly the pinned ones are not deleted |
| `BPlusTrees.BPlusTree.CoalesceOrRedistribute` | minisql-master/src/index/b_plus_tree.cpp:264-296 | a page one entry short is repaired, through merges up to the root if need be, into a valid tree with the same map |
| `BPlusTrees.BPlusTree.FetchFamily` | minisql-master/src/index/b_plus_tree.cpp:279-287 | the parent, the index of the page in it and the sibling chosen are those the tree really has |
| `BPlusTrees.BPlusTree.ReleaseRoot` | minisql-master/src/index/b_plus_tree.cpp:413-435 | an empty root leaf gives the empty tree, a root with one child gives way to it, any other root stays |
| `BPlusTrees.BPlusTree.Redistribute` | minisql-master/src/index/b_plus_tree.cpp:374-402 | one entry moves from the sibling, in either direction, and the tree is valid with the same map |
| `BPlusTrees.BPlusTree.RedistributeLeaf` | minisql-master/src/page/b_plus_tree_leaf_page.cpp:208-249 | the pairs of both leaves stay in order, cut one place further on, and the separator is the new cut key |
| `BPlusTrees.BPlusTree.MoveFirstToEndOf` | minisql-master/src/page/b_plus_tree_internal_page.cpp:220-242 | the separator comes down, the first separator goes up, and the moved child is adopted |
| `BPlusTrees.BPlusTree.MoveLastToFrontOf` | minisql-master/src/page/b_plus_tree_internal_page.cpp:251-276 | the mirror move; the first key of the recipient keeps its old bytes |
| `BPlusTrees.BPlusTree.Coalesce` | minisql-master/src/index/b_plus_tree.cpp:309-363 | the right page of the pair is emptied into the left one and freed, and the parent is repaired in turn; valid tree, same map |
| `BPlusTrees.BPlusTree.CoalesceLeaf` | minisql-master/src/page/b_plus_tree_leaf_page.cpp:195-199 | the merged leaf holds the pairs of both and takes over the next-page link |
| `BPlusTrees.BPlusTree.CoalesceInternal` | minisql-master/src/page/b_plus_tree_internal_page.cpp:200-207 | the merged page holds the children of both with the parent separator between, and every moved child is adopted |
| `BPlusTrees.BPlusTree.MergeSiblings` | minisql-master/src/index/b_plus_tree.cpp:309-363 | the right page is gone from the tree, and from the pool unless somebody else has it pinned |
| `TreeGrow.LeafPutGood` | minisql-master/src/page/b_plus_tree_leaf_page.cpp:110-122 | a pair put at its search position keeps shape, sizes (one too many allowed) and adds exactly one binding |
| `TreeGrow.LeafSplitGood` | minisql-master/src/page/b_plus_tree_leaf_page.cpp:130-148 | after a leaf split the leaf chain, the intervals and the represented map are intact |
| `TreeGrow.InternalSplitGood` | minisql-master/src/page/b_plus_tree_internal_page.cpp:135-161 | after an internal split every child interval, parent id and size is right again |
| `TreeGrow.ParentPutGood` | minisql-master/src/index/b_plus_tree.cpp:197-226 | the new separator lies strictly between its neighbours and bounds its two subtrees |
| `TreeGrow.NewRootGood` | minisql-master/src/index/b_plus_tree.cpp:197-226 | the tree grows by one level with all leaves still equally deep |
| `TreeShrink.LeafCutGood` | minisql-master/src/page/b_plus_tree_leaf_page.cpp:176-186 | removing a pair keeps shape and sizes (one short allowed) and removes exactly one binding |
| `TreeShrink.LeafMergeGood` | minisql-master/src/index/b_plus_tree.cpp:309-335 | merging two leaves keeps shape, chain and map, and leaves the parent at most one entry short |
| `TreeShrink.LeafShiftGood` | minisql-master/src/index/b_plus_tree.cpp:374-386 | moving one pair between leaves settles both sizes and keeps shape and map |
| `TreeShrink.InternalMergeGood` | minisql-master/src/index/b_plus_tree.cpp:337-363 | merging two internal pages keeps shape and map |
| `TreeShrink.MergedFacts` | minisql-master/src/index/b_plus_tree.cpp:309-363 | after a merge at any height the map is the same, one page is gone and only the parent may be short |
| `TreeShrink.InternalShiftGood` | minisql-master/src/index/b_plus_tree.cpp:387-402 | moving one child between internal pages settles both sizes and keeps shape and map |
| `TreeShrink.CollapseGood` | minisql-master/src/index/b_plus_tree.cpp:413-435 | the only child of a root can take its place |
| `TreeShape.OnePagePerKey` | minisql-master/src/index/b_plus_tree.cpp:515-540 | pages of one height have disjoint intervals, so a lookup can only lead to one page |
| `TreeShape.KidsDistinct` | minisql-master/src/page/b_plus_tree_internal_page.cpp:113-126 | the children of a page are distinct pages that differ from the page, its parent and the root |
| `TreeShrink.OneLeafEndsAt` | minisql-master/src/page/b_plus_tree_leaf_page.cpp:195-199 | only one next-page link leads to a given leaf |
| `TreeTheorems.Run` | minisql-master/src/index/b_plus_tree.cpp:79-254 | every run of Insert, Remove and GetValue replies and ends exactly as a finite map does, with all pins as found and only pinned pages left undeleted |
| `TreeTheorems.EqualDepth` | minisql-master/src/index/b_plus_tree.cpp:168-226 | following parent ids, every leaf is as deep as every other |
| `TreeTheorems.NoPageLeaked` | minisql-master/src/index/b_plus_tree.cpp:120-435 | the allocated pages are exactly the pages reachable from the root |
| `TreeTheorems.SubtreeWhole` | minisql-master/src/index/b_plus_tree.cpp:34-62 | the subtree of a page is the page and the subtrees of its children |
| `TreeTheorems.SubtreesDisjoint` | minisql-master/src/index/b_plus_tree.cpp:34-62 | subtrees of different children share no page, so none is freed twice |
| `TreeTheorems.Destroy` | minisql-master/src/index/b_plus_tree.cpp:34-62 | drops exactly the pages of the subtree, of which exactly those pinned by others stay undeleted, and leaves all pins as found |
| `TreeTheorems.DestroyAll` | minisql-master/src/index/b_plus_tree.cpp:34-62 | drops every page the index holds |
| `TreeTheorems.DefaultSizesFit` | minisql-master/src/index/b_plus_tree.cpp:10-24 | behind a header of its words, a page of either kind holds one entry above the default maximum and no second one; every internal page but the root has at least two children |
| `TreeTheorems.HalfFull` | minisql-master/src/page/b_plus_tree_page.cpp:76-81 | every page but the root is at least half full, and none above its maximum |
| `IndexIterators.Begin` | minisql-master/src/index/b_plus_tree.cpp:445-496 | the iterator stands at the first stored key not below the start, or at the end |
| `IndexIterators.IndexIterator.Value` | minisql-master/src/index/index_iterator.cpp:21-25 | dereferencing gives the row id stored under the current key |
| `IndexIterators.IndexIterator.Advance` | minisql-master/src/index/index_iterator.cpp:30-50 | the next position is the next stored key in order, across leaf boundaries, and only the current leaf stays pinned; an end iterator stays where it is |
| `IndexIterators.NextLeaf` | minisql-master/src/index/b_plus_tree.cpp:178-186 | the next-page link of a leaf leads to the leaf holding the next keys, if there are any |
| `IndexIterators.OnePosition` | minisql-master/src/index/index_iterator.cpp:52-54 | equal keys have equal positions, so comparing positions stops a scan at the right key |
| `IndexIterators.ScanRange` | minisql-master/src/index/b_plus_tree_index.cpp:53-61 | lists exactly the stored keys of a half-open range, in order, each once |
| `IndexIterators.ScanAbove` | minisql-master/src/index/b_plus_tree_index.cpp:46-52 | lists exactly the stored keys above the key, whether or not the key itself is stored |
| `IndexIterators.ScanOthers` | minisql-master/src/index/b_plus_tree_index.cpp:68-75 | adds every row id but the one stored under the key |
| `IndexIterators.ScanKey` | minisql-master/src/index/b_plus_tree_index.cpp:40-81 | for each of the six comparisons exactly the row ids whose keys satisfy it, each once, are added; ">" first clears the result |
| `IndexIterators.ComparisonLaws` | minisql-master/src/index/b_plus_tree_index.cpp:40-81 | exactly one of less, equal and greater holds, and the other comparisons follow from these |
| `RecoveryLog.RedoCell` | minisql-master/src/include/recovery/recovery_manager.h:44-58 | a redone record leaves its after-image under the keys it touches, and every other key as it was |
| `RecoveryLog.UndoCell` | minisql-master/src/include/recovery/recovery_manager.h:95-113 | an undone record leaves its before-image under the keys it touches, and every other key as it was |
| `RecoveryLog.UndoInvertsRedo` | minisql-master/src/include/recovery/recovery_manager.h:44-58 | undoing a record takes back its effect if and only if its before-image was true |
| `RecoveryLog.RenameOntoExistingKeyLosesIt` | minisql-master/src/include/recovery/recovery_manager.h:52-58 | an update that renames onto an existing key is not undone exactly |
| `RecoveryLog.LogWriter.Append` | minisql-master/src/include/recovery/log_rec.h:43-65 | each record gets the next lsn and links to the previous record of its transaction |
| `RecoveryLog.LogWriter.CreateBeginLog` | minisql-master/src/include/recovery/log_rec.h:102-110 | a begin record starts a chain |
| `RecoveryLog.LogWriter.CreateInsertLog` | minisql-master/src/include/recovery/log_rec.h:55-65 | the log stays linked; the record carries the key and value inserted |
| `RecoveryLog.LogWriter.CreateDeleteLog` | minisql-master/src/include/recovery/log_rec.h:70-80 | the log stays linked; the record carries the before-image |
| `RecoveryLog.LogWriter.CreateUpdateLog` | minisql-master/src/include/recovery/log_rec.h:85-97 | the log stays linked; the record carries both images |
| `RecoveryLog.LogWriter.CreateCommitLog` | minisql-master/src/include/recovery/log_rec.h:115-123 | the log stays linked |
| `RecoveryLog.LogWriter.CreateAbortLog` | minisql-master/src/include/recovery/log_rec.h:128-136 | the log stays linked |
| `RecoveryManagers.RecoveryManager.Init` | minisql-master/src/include/recovery/recovery_manager.h:28-32 | restart state is the checkpoint |
| `RecoveryManagers.RecoveryManager.UndoTxn` | minisql-master/src/include/recovery/recovery_manager.h:90-118 | follows prev_lsn to the begin record, undoing each record |
| `RecoveryManagers.RecoveryManager.RedoPhase` | minisql-master/src/include/recovery/recovery_manager.h:37-70 | replays the whole log with inline undo at abort records, and keeps the transaction table |
| `RecoveryManagers.RecoveryManager.UndoPhase` | minisql-master/src/include/recovery/recovery_manager.h:75-81 | undoes the losers in whatever order the table yields them |
| `RecoveryManagers.RecoveryManager.Recover` | minisql-master/src/include/recovery/recovery_manager.h:28-118 | recovery ends in the effect of the committed transactions in lsn order |
| `RecoveryManagers.RecoveryManager.RecoverFromPrefix` | minisql-master/src/include/recovery/recovery_manager.h:28-118 | so it does from the checkpoint that any prefix of the log leaves, with its table of active transactions |
| `RecoveryManagers.RecoveryManager.RecoverTwice` | minisql-master/src/include/recovery/recovery_manager.h:28-118 | recovering again from the result gives the same database |
| `Recovery.UndoChainCell` | minisql-master/src/include/recovery/recovery_manager.h:90-118 | undoing a transaction puts back, key by key, what it first found |
| `Recovery.RedoInvariant` | minisql-master/src/include/recovery/recovery_manager.h:37-70 | at every point of redo an unsettled key has one owner, which first found the committed value |
| `Recovery.AttIsActive` | minisql-master/src/include/recovery/recovery_manager.h:41-65 | after redo the table holds exactly the unsettled transactions with their last lsn |
| `Recovery.BlindReplay` | minisql-master/src/include/recovery/recovery_manager.h:37-70 | redo from two starting points agrees on every key the log touches |
| `Recovery.ReplayFromCheckpoint` | minisql-master/src/include/recovery/recovery_manager.h:28-70 | redo on top of a checkpoint equals redo from the start |
| `Recovery.PrefixAgrees` | minisql-master/src/include/recovery/recovery_manager.h:28-70 | a checkpoint taken after any log prefix is good enough |
| `Recovery.RecoveredAgrees` | minisql-master/src/include/recovery/recovery_manager.h:28-118 | the recovered database is itself a good starting point |
| `Recovery.UndoAllCell` | minisql-master/src/include/recovery/recovery_manager.h:75-81 | each key is settled by the one loser that touched it, so the order of undo does not matter |
| `Recovery.OnlyCommittedEffectsSurvive` | minisql-master/src/include/recovery/recovery_manager.h:28-118 | for every good log, agreeing checkpoint and undo order the result is exactly the committed effect |
| `RecoveryManagers.DirtyWriteIsLost` | minisql-master/src/include/recovery/recovery_manager.h:75-118 | on a log that meets every hypothesis but strictness a committed write is lost: strictness is needed |
| `LockManagers.LockManager.LockPrepare` | minisql-master/src/concurrency/lock_manager.cpp:148-156 | which states throw, and that a shrinking transaction is aborted |
| `LockManagers.LockManager.Prepare` | minisql-master/src/concurrency/lock_manager.cpp:18-22 | a lock call before it takes the latch: exactly when it throws and which state it leaves; no other transaction is concerned |
| `LockManagers.LockManager.Acquire` | minisql-master/src/concurrency/lock_manager.cpp:23-29 | a lock call under the latch up to its return or its wait, started in whatever state the others have left meanwhile; no other transaction is concerned |
| `LockManagers.LockManager.LockShared` | minisql-master/src/concurrency/lock_manager.cpp:17-42 | without interference: throws, waits or is granted, and exactly when each; no other transaction is concerned |
| `LockManagers.LockManager.LockExclusive` | minisql-master/src/concurrency/lock_manager.cpp:47-72 | without interference: throws, waits or is granted, by way of an upgrade if a shared lock is held, and exactly when; no other transaction is concerned |
| `LockManagers.LockManager.LockUpgrade` | minisql-master/src/concurrency/lock_manager.cpp:77-110 | without interference: refuses without a lock, throws on a second upgrader, else waits or is granted, and exactly when; no other transaction is concerned |
| `LockManagers.LockManager.TryShared` | minisql-master/src/concurrency/lock_manager.cpp:28-41 | past its wait a shared request is granted iff nobody writes or upgrades, and the whole state after it |
| `LockManagers.LockManager.TryExclusive` | minisql-master/src/concurrency/lock_manager.cpp:58-71 | past its wait an exclusive request is granted iff nobody writes or shares, and the whole state after it |
| `LockManagers.LockManager.TryUpgrade` | minisql-master/src/concurrency/lock_manager.cpp:94-109 | past its wait an upgrade is granted iff its owner is the only sharer, and the whole state after it |
| `LockManagers.LockManager.Wake` | minisql-master/src/concurrency/lock_manager.cpp:30-37 | a woken call of an aborted transaction throws, waits no more and leaves no ungranted request; an aborted upgrader keeps its shared lock and leaves the flag clear; any other call waits on iff it truly waits for somebody, and else has the lock it asked for; no other transaction is concerned |
| `LockManagers.LockManager.CheckAbort` | minisql-master/src/concurrency/lock_manager.cpp:161-175 | an aborted waiter withdraws its request, an aborted upgrader keeps its shared lock |
| `LockManagers.LockManager.Unlock` | minisql-master/src/concurrency/lock_manager.cpp:115-142 | releases exactly a granted lock: the request and the row leave queue and lock set, a growing transaction starts to shrink and any other state stays, no other row changes; no other transaction is concerned |
| `LockManagers.LockManager.BeginEnd` | minisql-master/src/concurrency/txn_manager.cpp:16-46 | Commit or Abort up to its first Unlock: the state is set and the rows to unlock are read |
| `LockManagers.LockManager.UnlockNext` | minisql-master/src/concurrency/txn_manager.cpp:47-49 | one Unlock of ReleaseLocks, with any steps of others before and after: its row is still held, and leaves the rows to unlock |
| `LockManagers.LockManager.FinishEnd` | minisql-master/src/concurrency/txn_manager.cpp:47-50 | when the last row is unlocked no queue and no lock set mentions the transaction, whatever was interleaved |
| `LockManagers.LockManager.Commit` | minisql-master/src/concurrency/txn_manager.cpp:16-21 | without interference: afterwards no queue and no lock set mentions the transaction; others are untouched |
| `LockManagers.LockManager.Abort` | minisql-master/src/concurrency/txn_manager.cpp:23-28 | without interference: afterwards no queue and no lock set mentions the transaction; others are untouched |
| `LockManagers.LockManager.ReleaseLocks` | minisql-master/src/concurrency/txn_manager.cpp:39-50 | every lock in either set is released; others are untouched |
| `LockManagers.LockManager.Begin` | minisql-master/src/concurrency/txn_manager.cpp:7-14 | a fresh id in its growing phase |
| `LockManagers.LockManager.AccessRow` | minisql-master/src/concurrency/lock_manager.cpp:17-72 | an access under the lock for it enters the history |
| `LockState.GrantedSharedInv` | minisql-master/src/concurrency/lock_manager.cpp:28-41 | a shared grant keeps the invariant: counters, flags, lock sets and history agree on every row |
| `LockState.GrantedExclusiveInv` | minisql-master/src/concurrency/lock_manager.cpp:58-71 | so does an exclusive grant |
| `LockState.UpgradedInv` | minisql-master/src/concurrency/lock_manager.cpp:94-109 | so does an upgrade |
| `LockState.ReleasedInv` | minisql-master/src/concurrency/lock_manager.cpp:115-142 | so does a release, also by an aborted upgrader whose request still asks for an exclusive lock |
| `LockState.WithdrawnInv` | minisql-master/src/concurrency/lock_manager.cpp:161-175 | so does the withdrawal of an aborted request |
| `LockState.UpgradeAbandonedInv` | minisql-master/src/concurrency/lock_manager.cpp:161-175 | so does an abandoned upgrade |
| `LockState.EnqueuedInv` | minisql-master/src/include/concurrency/lock_manager.h:24-60 | so does a new request, of which there is at most one per transaction and row |
| `LockHistory.MutualExclusion` | minisql-master/src/concurrency/lock_manager.cpp:17-113 | no two transactions ever hold conflicting locks on a row |
| `LockHistory.ReleaseAfterLockPoint` | minisql-master/src/concurrency/lock_manager.cpp:115-156 | all grants of a transaction precede all its releases |
| `LockHistory.ConflictFollowsLockPoints` | minisql-master/src/concurrency/lock_manager.cpp:17-156 | conflicting accesses happen in the order of the lock points |
| `LockHistory.ConflictSerializable` | minisql-master/src/concurrency/lock_manager.cpp:17-156 | the precedence graph of a legal history has no cycle |
| `LockPhases.AcquiredStep` | minisql-master/src/concurrency/lock_manager.cpp:23-110 | the locked part of a lock call keeps the invariant and concerns no other transaction, even if the detector has aborted its own since LockPrepare |
| `LockPhases.AcquiredFacts` | minisql-master/src/concurrency/lock_manager.cpp:23-110 | right after LockPrepare: exactly when a call waits, is granted, refused or throws |
| `LockPhases.WokenStep` | minisql-master/src/concurrency/lock_manager.cpp:30-37 | a wake-up keeps the invariant and concerns no other transaction |
| `LockPhases.WokenFacts` | minisql-master/src/concurrency/lock_manager.cpp:161-175 | what a wake-up comes to for an aborted transaction and for any other |
| `LockPhases.WaitsForSomebody` | minisql-master/src/concurrency/lock_manager.cpp:30-101 | a blocked call goes on waiting iff it truly waits for somebody, counting the wait of a shared request for an upgrade |
| `LockPhases.ReleasedNextStep` | minisql-master/src/concurrency/txn_manager.cpp:47-49 | so does each Unlock of a Commit or Abort |
| `LockPhases.FinishedStep` | minisql-master/src/concurrency/txn_manager.cpp:47-50 | a call that has unlocked everything leaves nothing of its transaction behind |
| `LockPhases.BusyKept` | minisql-master/src/concurrency/txn_manager.cpp:39-50 | what a thread knows between two holds of the latch is not disturbed by the steps of others, and the upgrading flag is set only while an upgrade waits |
| `LockPhases.MarkedStep` | minisql-master/src/concurrency/lock_manager.cpp:296-304 | the detector may abort a transaction whatever its thread is doing |
| `LockRuns.TakeStep` | minisql-master/src/concurrency/lock_manager.cpp:17-304 | any step of any thread or of the detector keeps the invariant, what has ended stays ended, and every transaction changes state as the step says and not otherwise |
| `LockRuns.Run` | minisql-master/src/concurrency/lock_manager.cpp:17-304 | every state of every interleaving from the empty table: the invariant, mutual exclusion, conflict serializability, nothing left of what has ended, and every transaction in the state its steps have put it in |
| `LockRuns.StatesHaveCauses` | minisql-master/src/concurrency/lock_manager.cpp:115-175 | over a whole run a transaction is aborted only by its own Abort, a call of its own that threw or a detector pass that picked it, shrinks only by unlocking, and is committed only by its Commit |
| `LockRuns.SoundFacts` | minisql-master/src/concurrency/lock_manager.cpp:17-156 | what the invariant comes to for a reader |
| `WaitsFor.Dfs` | minisql-master/src/concurrency/lock_manager.cpp:212-235 | the recursive search reports a real cycle, or finishes the node and all it leads to |
| `WaitsFor.HasCycle` | minisql-master/src/concurrency/lock_manager.cpp:201-240 | true iff the graph has a cycle, and then the largest transaction id on a real cycle |
| `WaitsFor.AllFinishedAcyclic` | minisql-master/src/concurrency/lock_manager.cpp:201-240 | a search that finishes every node has proved acyclicity |
| `WaitsFor.DeleteNode` | minisql-master/src/concurrency/lock_manager.cpp:244-267 | removes the edges out of the victim and the listed edges into it, and no other |
| `WaitsFor.RemoveEdge` | minisql-master/src/concurrency/lock_manager.cpp:187-199 | removes one edge and no other |
| `WaitsFor.EveryCycleBroken` | minisql-master/src/concurrency/lock_manager.cpp:272-304 | once no cycle remains, every deadlock of the original graph has lost a transaction |
| `LockManagers.BuildGraph` | minisql-master/src/concurrency/lock_manager.cpp:276-295 | an edge for every ungranted request and every conflicting grant of the same row, and no other |
| `LockManagers.LockManager.PickVictims` | minisql-master/src/concurrency/lock_manager.cpp:296-304 | the victim loop ends, picks only the youngest transaction of a cycle, and leaves no cycle |
| `LockManagers.LockManager.DetectDeadlocks` | minisql-master/src/concurrency/lock_manager.cpp:272-304 | one detector pass: every cycle of the graph built loses a transaction, and only transactions on cycles are aborted |
| `LockWaits.DeadlockHolds` | minisql-master/src/concurrency/lock_manager.cpp:30-101 | no transaction of a ring of true waits gets anywhere unless it is aborted |
| `LockWaits.DeadlockStays` | minisql-master/src/concurrency/lock_manager.cpp:272-304 | nor do the steps of others end a ring whose waits all have edges |
| `LockWaits.SeenDeadlockIsCycle` | minisql-master/src/concurrency/lock_manager.cpp:276-295 | such a ring is a cycle of the graph |
| `LockWaits.DetectSeen` | minisql-master/src/concurrency/lock_manager.cpp:272-304 | after a pass every such ring has an aborted transaction |
| `LockWaits.GiveUp` | minisql-master/src/concurrency/lock_manager.cpp:161-175 | a victim that wakes up and aborts holds nothing and waits for nothing |
| `LockWaits.Resolve` | minisql-master/src/concurrency/lock_manager.cpp:272-304 | after a pass and the wake-ups and aborts of its victims no such ring of the old state is left |
| `LockWaits.UnnoticedDeadlock` | minisql-master/src/concurrency/lock_manager.cpp:276-304 | three transactions that reach, by lock calls, a ring in which one waits for an upgrade alone: the detector finds no victim and every wake-up goes on waiting |
| `LockWaits.StuckHasNoCycle` | minisql-master/src/concurrency/lock_manager.cpp:276-295 | the graph of that state has no cycle |
| `LruReplacers.LruReplacer.Victim` | minisql-master/src/buffer/lru_replacer.cpp:14-27 | over the history of pins and unpins: the frame that has been evictable longest, found iff any is |
| `LruReplacers.LruReplacer.Pin` | minisql-master/src/buffer/lru_replacer.cpp:35-43 | exactly the place of the frame is closed, so that the others keep their order; a frame not listed changes nothing |
| `LruReplacers.LruReplacer.Unpin` | minisql-master/src/buffer/lru_replacer.cpp:53-64 | a frame not listed goes to the end; one that is listed keeps its place |
| `LruReplacers.GoneInOrder` | minisql-master/src/buffer/lru_replacer.cpp:35-43 | taking a frame out leaves the others in the order in which they became evictable |
| `LruReplacers.FrontIsLongest` | minisql-master/src/buffer/lru_replacer.cpp:14-27 | the front of the list is the frame that has been evictable longest |
| `BufferPools.BufferPool.FetchPage` | minisql-master/src/buffer/buffer_pool_manager.cpp:36-79 | hands out what the plain page store holds, fails exactly when the page is not in memory and every frame is pinned, and moves no pinned page; the pool goes on refining the store iff it failed or the id was allocated |
| `BufferPools.BufferPool.NewPage` | minisql-master/src/buffer/buffer_pool_manager.cpp:90-126 | an unused id, zeroed, owed a dirty unpin |
| `BufferPools.BufferPool.UnpinPage` | minisql-master/src/buffer/buffer_pool_manager.cpp:179-208 | takes one pin, if there is one; the pool goes on refining the page store iff this was not a clean last unpin of a changed page |
| `BufferPools.BufferPool.FlushPage` | minisql-master/src/buffer/buffer_pool_manager.cpp:216-232 | the disk copy becomes the store content |
| `BufferPools.BufferPool.TakeFrame` | minisql-master/src/buffer/buffer_pool_manager.cpp:253-269 | the first free frame if there is one, and then the replacer is left alone; else the frame evictable longest; written back if dirty |
| `BufferPools.BufferPool.DeletePage` | minisql-master/src/buffer/buffer_pool_manager.cpp:138-168 | the pool stays consistent if and only if the page was not in memory |
| `BufferPools.InstalledOk` | minisql-master/src/buffer/buffer_pool_manager.cpp:56-79 | reusing a frame keeps the pool consistent: page table injective, each frame free, evictable or pinned |
| `BufferPools.InstalledContents` | minisql-master/src/buffer/buffer_pool_manager.cpp:56-79 | evicting a page changes no page for its clients |
| `BufferPools.UnpinnedOk` | minisql-master/src/buffer/buffer_pool_manager.cpp:179-208 | an unpin keeps the pool consistent and changes no page for its clients |
| `BufferPools.FlushedOk` | minisql-master/src/buffer/buffer_pool_manager.cpp:216-232 | a flush keeps the pool consistent and changes no page for its clients |
| `BufferPools.DeletedFrameServedTwice` | minisql-master/src/buffer/buffer_pool_manager.cpp:156-168 | after deleting a page in memory its frame can be served twice, evicting a pinned page |
| `BufferPools.CleanUnpinLosesWrite` | minisql-master/src/buffer/buffer_pool_manager.cpp:179-208 | after a clean last unpin of a changed page, eviction puts the old bytes of the disk in place of the change |
| `ClockReplacers.ClockReplacer.Victim` | minisql-master/src/buffer/clock_replacer.cpp:28-62 | the first evictable frame clockwise with a clear bit, or else the first evictable one on the second turn, within two turns; only bits passed are cleared |
| `ClockReplacers.ClockReplacer.Pin` | minisql-master/src/buffer/clock_replacer.cpp:70-85 | the frame is no longer evictable and size counts the evictable frames |
| `ClockReplacers.ClockReplacer.Unpin` | minisql-master/src/buffer/clock_replacer.cpp:97-116 | the frame is evictable with its bit set |
| `ClockReplacers.SweepOn` | minisql-master/src/buffer/clock_replacer.cpp:43-61 | a step without a victim clears exactly the bit under the hand |
| `ClockReplacers.SweepEnds` | minisql-master/src/buffer/clock_replacer.cpp:43-61 | the frame the hand stops at is the one the policy asks for |
| `ClockReplacers.NotTwiceRound` | minisql-master/src/buffer/clock_replacer.cpp:35-43 | the hand stops within two turns |
| `DiskAllocators.BitmapPage.AllocatePage` | minisql-master/src/page/bitmap_page.cpp:9-33 | the least free bit; the hint never skips a free one; the count is the population |
| `DiskAllocators.BitmapPage.DeAllocatePage` | minisql-master/src/page/bitmap_page.cpp:39-54 | clears exactly an allocated bit |
| `DiskAllocators.DiskManager.AllocatePage` | minisql-master/src/storage/disk_manager.cpp:59-93 | the least free logical id over all extents, and no other id changes; the counter grows by one; also with the meta page full, as long as an extent has room |
| `DiskAllocators.DiskManager.DeAllocatePage` | minisql-master/src/storage/disk_manager.cpp:98-120 | exactly the id is free afterwards |
| `DiskAllocators.DiskManager.IsPageFree` | minisql-master/src/storage/disk_manager.cpp:125-142 | true iff the id is not allocated |
| `DiskAllocators.FileChanged` | minisql-master/src/storage/disk_manager.cpp:59-120 | one bit changed and counters adjusted keep extents, bitmaps and meta page in agreement |
| `DiskAllocators.FileGrown` | minisql-master/src/storage/disk_manager.cpp:80-92 | a new extent starts with exactly its first page allocated |
| `DiskAllocators.MapPageIdIncreases` | minisql-master/src/storage/disk_manager.cpp:147-152 | logical pages lie on the disk in their own order |
| `DiskAllocators.MapPageIdLeavesNoGap` | minisql-master/src/storage/disk_manager.cpp:147-152 | every physical page but the meta page and the bitmap pages is that of a logical page |
| `DiskAllocators.BitmapBeforeItsPages` | minisql-master/src/storage/disk_manager.cpp:147-152 | a bitmap page stands right in front of the pages of its extent, the first right behind the meta page |
| `DiskAllocators.MapPageIdAvoidsMetadata` | minisql-master/src/storage/disk_manager.cpp:147-152 | no logical page lands on the meta page or a bitmap page |
| `SlotBitmaps.FindReusableSlot` | minisql-master/src/page/table_page.cpp:18-45 | the word-wise search equals a slot-by-slot one: the first free slot below the count |
| `SlotBitmaps.FindLiveSlot` | minisql-master/src/page/table_page.cpp:47-86 | the word-wise search equals a slot-by-slot one: the first live slot from the start on |
| `SlotBitmaps.PaddedWord` | minisql-master/src/page/table_page.cpp:27-31 | bits past the slot count read as occupied |
| `SlotBitmaps.LiveWord` | minisql-master/src/page/table_page.cpp:61-71 | the masked word has exactly the live slots in range |
| `PageBytes.HeaderIsTight` | minisql-master/src/include/page/table_page.h:166-186 | the header words, the two bitmaps and the directory entries follow one another without gap or overlap, and behind n slots the free space begins; the bitmaps have a bit for every slot there can be |
| `PageBytes.SetHeadWord` | minisql-master/src/include/page/table_page.h:84-100 | sets one of free space pointer, tuple count and live count and changes no other header word, no link and no slot |
| `PageBytes.SetTupleOffsetAtSlot` | minisql-master/src/include/page/table_page.h:110-112 | sets the offset of one slot and changes nothing else |
| `PageBytes.SetTupleSize` | minisql-master/src/include/page/table_page.h:118-120 | sets the size of one slot and changes nothing else |
| `PageBytes.SetSlotOccupied` | minisql-master/src/include/page/table_page.h:130-138 | sets or clears the occupied bit of one slot and changes nothing else |
| `PageBytes.SetSlotDeleted` | minisql-master/src/include/page/table_page.h:144-152 | sets or clears the deleted bit of one slot and changes nothing else |
| `PageBytes.BitmapsAreSlots` | minisql-master/src/include/page/table_page.h:122-142 | the 64-bit words say of every slot what its own bits say |
| `PageBytes.TupleInBuffer` | minisql-master/src/include/page/table_page.h:102-116 | a tuple lies behind header and directory and reads the same in the buffer |
| `Bytes.LittleWord` | minisql-master/src/include/page/table_page.h:86-120 | a 32-bit number lies in memory with its lowest byte first |
| `TablePages.TablePage.Init` | minisql-master/src/page/table_page.cpp:5-16 | an empty page has no rows and all its room |
| `TablePages.TablePage.InsertTuple` | minisql-master/src/page/table_page.cpp:94-122 | on the bytes of the page: succeeds iff the row fits, and then adds exactly one row; every other row, the directory and the link words read as before |
| `TablePages.TablePage.UpdateTuple` | minisql-master/src/page/table_page.cpp:141-177 | succeeds iff the row is live and the new bytes fit, hands back the old bytes, and changes exactly one row |
| `TablePages.TablePage.ApplyDelete` | minisql-master/src/page/table_page.cpp:179-217 | removes exactly one row, marked or not |
| `TablePages.TablePage.MarkDelete` | minisql-master/src/page/table_page.cpp:124-139 | marks exactly a live row; room is unchanged |
| `TablePages.TablePage.RollbackDelete` | minisql-master/src/page/table_page.cpp:219-234 | unmarks a row; room is unchanged |
| `TablePages.TablePage.GetTuple` | minisql-master/src/page/table_page.cpp:236-252 | reads exactly the live rows |
| `TablePages.TablePage.GetFirstTupleRid` | minisql-master/src/page/table_page.cpp:254-268 | the first live row; found iff there is one, although it trusts the live count |
| `TablePages.TablePage.GetNextTupleRid` | minisql-master/src/page/table_page.cpp:270-280 | the next live row |
| `TablePages.TablePage.CanHostAnyTuple` | minisql-master/src/page/table_page.cpp:88-92 | true iff a row of one byte would fit |
| `PageEdits.Format` | minisql-master/src/page/table_page.cpp:5-16 | the header of an empty page |
| `PageEdits.StoreTuple` | minisql-master/src/page/table_page.cpp:104-120 | the bytes then stand for the page with the row inserted |
| `PageEdits.Replace` | minisql-master/src/page/table_page.cpp:155-175 | the memmove, the new bytes and the offset fix-up together |
| `PageEdits.MoveTuples` | minisql-master/src/page/table_page.cpp:162-167 | the tuples below the slot are moved against its new end, the new bytes are in place, and header and directory are untouched |
| `PageEdits.FixOffsets` | minisql-master/src/page/table_page.cpp:170-175 | exactly the occupied slots below the bound are shifted |
| `PageEdits.StoreFlag` | minisql-master/src/page/table_page.cpp:135-137 | the delete flag, the deleted bit and the live count change together |
| `TupleLayout.InsertedOk` | minisql-master/src/page/table_page.cpp:111-119 | after an insert the tuples tile the end of the page |
| `TupleLayout.InsertedRows` | minisql-master/src/page/table_page.cpp:111-119 | an insert adds one row and changes no other |
| `TupleLayout.ReplacedOk` | minisql-master/src/page/table_page.cpp:155-216 | after an update that grows or shrinks, or a delete, the tuples tile the end of the page without gap or overlap |
| `TupleLayout.ReplacedRows` | minisql-master/src/page/table_page.cpp:155-216 | the bytes read through every other slot are unchanged despite the move |
| `TupleLayout.ReplacedTuple` | minisql-master/src/page/table_page.cpp:164-175 | a moved tuple reads the same at its new offset |
| `TupleLayout.FlaggedRows` | minisql-master/src/include/page/table_page.h:158-162 | setting or clearing the delete flag changes only the mark |
| `TupleLayout.DeleteFlagIsTopBit` | minisql-master/src/include/page/table_page.h:158-166 | the flag is the top bit of the 32-bit size, and setting or clearing it leaves the other bits alone |
| `TupleLayout.FewSlots` | minisql-master/src/include/page/table_page.h:166-171 | the slot directory never outgrows the 512-slot bitmaps |
| `TablePages.ReplacedLive` | minisql-master/src/page/table_page.cpp:186-209 | the live count stays the number of live slots |
| `TableHeaps.TableHeap.Create` | minisql-master/src/include/storage/table_heap.h:120-135 | a new heap is one empty page, which is the chain and the list |
| `TableHeaps.TableHeap.Open` | minisql-master/src/include/storage/table_heap.h:137-143 | a heap opened over a chain of pages is valid with its list still to be built |
| `TableHeaps.TableHeap.InsertTuple` | minisql-master/src/storage/table_heap.cpp:105-152 | a row too long is refused; otherwise it goes to an existing page iff one has room, and only else to a new page; exactly one row is added |
| `TableHeaps.TableHeap.InsertIntoListed` | minisql-master/src/storage/table_heap.cpp:111-127 | the walk over the list ends and finds room iff any page has it |
| `TableHeaps.TableHeap.AddPage` | minisql-master/src/storage/table_heap.cpp:129-151 | the new page joins the end of the chain, and the list if it still has room |
| `TableHeaps.TableHeap.EnsureHeapMetadata` | minisql-master/src/storage/table_heap.cpp:3-47 | the list rebuilt from the pages is the right one |
| `TableHeaps.TableHeap.RefreshInsertablePage` | minisql-master/src/storage/table_heap.cpp:95-103 | afterwards the page is on the list iff it can take some row |
| `TableHeaps.TableHeap.LinkInsertablePage` | minisql-master/src/storage/table_heap.cpp:54-67 | the page is put at the front of a well-formed list |
| `TableHeaps.TableHeap.UnlinkInsertablePage` | minisql-master/src/storage/table_heap.cpp:69-93 | the page is taken out of a well-formed list |
| `TableHeaps.TableHeap.UpdateTuple` | minisql-master/src/storage/table_heap.cpp:166-184 | one row changes and the list follows |
| `TableHeaps.TableHeap.ApplyDelete` | minisql-master/src/storage/table_heap.cpp:186-197 | one row goes and the list follows; a slot that is free stays so |
| `TableHeaps.TableHeap.MarkDelete` | minisql-master/src/storage/table_heap.cpp:154-164 | the list is still right although it is not refreshed |
| `InsertableLists.TrackedIsListed` | minisql-master/src/storage/table_heap.cpp:49-52 | the test on three fields is list membership |
| `InsertableLists.LinkedOk` | minisql-master/src/storage/table_heap.cpp:54-67 | linking keeps the doubly linked list well formed |
| `InsertableLists.UnlinkedOk` | minisql-master/src/storage/table_heap.cpp:69-93 | unlinking at any place keeps it well formed |
| `InsertableLists.AppendedOk` | minisql-master/src/storage/table_heap.cpp:23-37 | appending while rebuilding keeps it well formed |
| `TableIterators.TableIterator.Advance` | minisql-master/src/storage/table_iterator.cpp:56-102 | the rows still to come lose exactly the current one |
| `TableIterators.FindFrom` | minisql-master/src/storage/table_heap.cpp:232-249 | the first live row along the page chain |
| `TableIterators.ScanTable` | minisql-master/src/storage/table_iterator.cpp:56-102 | a full scan visits every live row exactly once |
| `TableIterators.LiveFromIs` | minisql-master/src/storage/table_iterator.cpp:56-102 | the list a scan follows holds every live row once and nothing else |
| `RowFormat.SerializeTo` | minisql-master/src/record/row.cpp:6-29 | writes exactly the encoding of the row and nothing else |
| `RowFormat.WriteBitmap` | minisql-master/src/record/row.cpp:15-21 | the null bitmap written bit by bit is the packed one |
| `RowFormat.DeserializeFrom` | minisql-master/src/record/row.cpp:31-49 | reads the row the buffer encodes |
| `RowFormat.RoundTrip` | minisql-master/src/record/row.cpp:6-59 | for every schema and row with any nulls, reading inverts writing and consumes exactly the serialized size |
| `RowFormat.RowLayout` | minisql-master/src/record/row.cpp:6-29 | the field count comes first, then a bit per field that is set iff the field is null, then the fields in order |
| `RowFormat.UnsignedIsCongruent` | minisql-master/src/record/types.cpp:79-85 | integers are stored in two's complement |
| `RowFormat.FieldRoundTrip` | minisql-master/src/record/types.cpp:79-102 | each field type reads back what it wrote |
| `RowFormat.NullsRoundTrip` | minisql-master/src/record/row.cpp:38-43 | the null bitmap reads back |
| `RowFormat.Encode` | minisql-master/src/record/row.cpp:51-59 | the encoding is as long as GetSerializedSize says |
| `KeyOrder.CompareStringsIsDictionaryOrder` | minisql-master/src/record/types.cpp:6-16 | memcmp and the length rule are dictionary order |
| `Floats.RankIsNumber` | minisql-master/src/record/types.cpp:195-217 | comparing two floats by their bits compares the numbers that sign, exponent and fraction stand for; the two zeros are one number |
| `Floats.NaNHasTopExponent` | minisql-master/src/record/types.cpp:195-217 | which bit patterns stand for no number |
| `KeyOrder.FieldSigns` | minisql-master/src/record/types.cpp:104-217 | on fields that are not null and not NaN the comparison is that of the integers, of the numbers the floats stand for, or of the dictionary |
| `KeyOrder.FieldSignsCompose` | minisql-master/src/record/types.cpp:104-150 | field comparison is transitive |
| `KeyOrder.SerializeFromKey` | minisql-master/src/include/index/generic_key.h:20-27 | the key buffer is the encoded row, padded with zeros |
| `KeyOrder.CompareKeys` | minisql-master/src/include/index/generic_key.h:35-57 | on serialized keys without NULL or NaN the first column in which the values differ decides, by the order of the values; zero iff no values differ |
| `KeyOrder.KeysFollowValues` | minisql-master/src/include/index/generic_key.h:43-54 | one row is below another iff it is in the first column in which their values differ |
| `KeyOrder.KeysAreAntisymmetric` | minisql-master/src/include/index/generic_key.h:35-57 | swapping the keys negates the result, and zero means equal values |
| `KeyOrder.KeysAreTransitive` | minisql-master/src/include/index/generic_key.h:35-57 | keys are totally ordered |
| `KeyOrder.Breaks` | minisql-master/src/include/index/generic_key.h:43-54 | every row with a NULL field or a float that is no number compares equal with two keys of which one is below the other |
| `KeyOrder.OrderedRowsAreTheKeys` | minisql-master/src/include/index/generic_key.h:35-57 | a row has a place in the order iff it has no such field |
| `KeyOrder.KeyRowFits` | minisql-master/src/catalog/indexes.cpp:87-113 | every key row within its column lengths fits the key size of its index |
| `KeyOrder.KeySizeIsLeast` | minisql-master/src/catalog/indexes.cpp:87-113 | the key size is the least power of two from 16 to 256 that leaves eight bytes beside the longest key row, and there is none iff that row is too long |
| `Planner.CollectColumns` | minisql-master/src/include/planner/statement/abstract_statement.h:101-129 | each column of the clause once |
| `Planner.PlanSelect` | minisql-master/src/planner/planner.cpp:36-56 | which scan is chosen, over which indexes, and with which flag |
| `Planner.CountDecidesCoverage` | minisql-master/src/planner/planner.cpp:53-55 | without two indexes on one column the count comparison is right: a filter is needed iff some column is not indexed |
| `Planner.EveryHolds` | minisql-master/src/include/planner/expressions/logic_expression.h:28-85 | a clause without "or" holds iff all its comparisons do |
| `ScanReadings.UnfilteredReading` | minisql-master/src/executor/index_scan_executor.cpp:49-86 | without a filter: the rows that meet every comparison if all are indexed, else none |
| `ScanReadings.FilteredReading` | minisql-master/src/executor/index_scan_executor.cpp:49-86 | with a filter: none if no comparison is indexed, else at least the rows that meet every indexed one |
| `ScanReadings.UnfilteredFindsAll` | minisql-master/src/executor/index_scan_executor.cpp:49-86 | without a filter no row is lost iff every row that meets the clause meets every comparison and all are indexed |
| `ScanReadings.GuardedFindsAll` | minisql-master/src/executor/index_scan_executor.cpp:49-86 | in both modes no row of any table is lost when no "or" has an indexed column under it and enough comparisons are indexed |
| `ScanReadings.FilteredOrLosesRow` | minisql-master/src/executor/index_scan_executor.cpp:49-86 | with a filter, too, a nested "or" over an indexed column can lose a row |
| `IndexScanExecutors.IndexScan` | minisql-master/src/executor/index_scan_executor.cpp:49-86 | in both modes the rows found are exactly those of the "empty side returns the other side" reading, sorted |
| `IndexScanExecutors.FoundBoth` | minisql-master/src/executor/index_scan_executor.cpp:51-67 | the two sides of a connective combine as that reading says, in both modes |
| `IndexScanExecutors.Intersection` | minisql-master/src/executor/index_scan_executor.cpp:62-66 | the merge of two sorted lists is their intersection, sorted, each once |
| `IndexScanExecutors.IndexScanExecutor.Next` | minisql-master/src/executor/index_scan_executor.cpp:88-112 | the next row that passes the filter |
| `IndexScanExecutors.RunIndexScan` | minisql-master/src/executor/index_scan_executor.cpp:49-112 | in both modes the rows returned are exactly those of the reading that meet the clause; they are the right answer iff the reading has every row that meets it |
| `IndexScanExecutors.SeqScan` | minisql-master/src/executor/seq_scan_executor.cpp:49-70 | exactly the rows that meet the clause |
| `IndexScanExecutors.Select` | minisql-master/src/planner/planner.cpp:36-56 | plan and execution return no wrong row, and agree with the sequential scan iff the plan is sequential or the reading has every row that meets the clause; under the guard they always do; for a conjunction iff the guard holds or no row meets it |
| `IndexScanExecutors.GuardSuffices` | minisql-master/src/planner/planner.cpp:36-56 | the guard on the indexes and the clause is enough on every table |
| `IndexScanExecutors.UnfilteredPlanIsExact` | minisql-master/src/planner/planner.cpp:53-55 | a plan without filter is right iff every row that meets the clause meets every comparison and every column is indexed |
| `IndexScanExecutors.GuardIsExact` | minisql-master/src/planner/planner.cpp:53-55 | for a conjunction the guard is exact: where it fails, every table with a row that meets the clause is answered wrongly |
| `IndexScanExecutors.DuplicateIndexDefeatsCount` | minisql-master/src/planner/planner.cpp:41-55 | two indexes on one column defeat the guard |
| `IndexScanExecutors.NestedOrIsReadAsAnd` | minisql-master/src/include/planner/statement/abstract_statement.h:101-111 | an "or" below the top connective is not noticed by the planner and is read as "and" |

## Left out

- File streams, seeking, the SQL parser, command dispatch, the catalog and its serializers, IndexRootsPage and HeaderPage, debug output: input and output, or flat records.
- Real threads and condition variables: the steps between two waits or two holds of the latch are atomic; a wait may end at any time; no timing, fairness or liveness is claimed. Each transaction has one thread, and reading and setting the state of a transaction is one indivisible action.
- Failure to allocate or fetch a page inside the index, the executor and the heap (assertions or null returns in the source); only the new page of TableHeap::InsertTuple may be refused.
- Pages of the tree and of the disk allocator are values of the layer itself, and the byte layout of index pages and bitmap pages is not modelled. The words that link a table page to others are bytes that no operation on rows touches; the heap keeps their values in maps. A 64-bit word of a slot bitmap is read as the vector of its bits and written one byte at a time.
- LockManagers.LockManager.Prepare: LockPrepare lets a committed transaction pass, as the source does; the lock calls themselves are modelled for transactions whose Commit or Abort has not been called.
- LockManagers.LockManager.Unlock: may clear the upgrading flag of another transaction, as the source does; mutual exclusion does not rest on that flag.
- The order in which unordered containers are walked is any order; the request list of a queue is a map from transaction to request.
- RecoveryManagers.RecoveryManager.Recover: the whole log is present and a record's lsn is its position.
- RecoveryManagers.RecoveryManager.RedoPhase: keys and values are a string and an integer; the persist lsn is stored and never used, as in the source.
- IndexScanExecutors.IndexScan: columns hold no NULL, every usable index is complete, and the comparisons are the six of ScanKey, so "is null" and "not null" are out.
- TablePages.TablePage.ApplyDelete: the source's test for a size of zero is dead code under the invariant and is not modelled.
- TableHeaps.TableHeap.InsertTuple: the insertion and its row are modelled on serialized bytes; RollbackDelete, GetTuple, DeleteTable and FreeTableHeap of the heap only pass on to the page and are left out.
- DiskAllocators.DiskManager.AllocatePage: when every extent is full it needs an entry left in the meta page, which the source does not check.
- KeyOrder.FieldSigns: the two float zeros are equal values.
- Integers are unbounded; sizes and counters stay far below the source's 32 bits under the invariants. PlanDelete and PlanUpdate repeat the choice of PlanSelect; the insert, update, delete and values executors, joins and the output schema of scans are not modelled.
