# A verified model of lwext4

lwext4 is the ext4 engine that eVFS bundles: a journal, hashed directories, a block map, files, a
write-back block cache and allocators, in C. This project models these parts in Dafny, in the form
that the C code has (classes whose methods update fields, loops over blocks, buffers and bitmaps),
and proves what they are for.

| part | modules |
|---|---|
| Journal: a ring of descriptor, data, revoke and commit blocks, checkpointed by a queue and recovered in three passes | `JournalFormat`, `JournalRecovery`, `JournalWalk`, `JournalReplay`, `JournalLayout`, `JournalState`, `JournalRing`, `JournalSession`, `JournalCheckpoint`, `JournalEvict`, `JournalFlush`, `JournalSpace`, `JournalSteps`, `JournalTags`, `JournalWriter`, `JournalCommit`, `JournalRuns`, `JournalLimits`, `JournalJam`, `JournalStale` |
| Directories: records that tile a block, and an index of up to two levels by hash, with splits and chains of equal hashes | `DirRecords`, `DirSplit`, `DirTree`, `DirSearch`, `DirUpdate`, `DirIndex`, `DirRuns` |
| Block map: direct, single, double and triple indirect blocks | `BlockTree`, `BlockMap`, `BlockPlaces`, `InodeBlocks`, `FileMap` |
| Files: reads, writes, seeks and truncation over bytes of a device | `ByteDevice`, `FileIO` |
| Block cache: buffers with reference counts, a tree of the unreferenced ones, a list of dirty ones | `BlockCache`, `CacheRuns` |
| Allocators: bitmaps with counts per group and for the file system | `Bitmap`, `GroupCounts`, `BlockGroups`, `BlockAlloc`, `BlockUse`, `InodeAlloc` |
| Red-black tree with parent pointers | `RbMemory`, `RbBalance`, `RbTree` |

Each part is set against a plain notion of what it stands for: transactions applied in order
without what later ones revoke; the bag of names added and not removed; a function from logical to
physical blocks; a sequence of bytes; an array of blocks; sets of free bits with their sizes; a
sequence of keys in order. `dafny verify dfyconfig.toml` checks it all.

How the journal is read. `View` (in `JournalSession`) is a session as one value: the disk, the
fields of `struct jbd_journal`, and the history, that is the transactions committed, split into those
that the log on disk still holds and those gone from it, and what home blocks and log held at first.
`Inv` is its invariant. `Consistent` says of a disk that recovery gives exactly the effect of a list of
transactions, over home blocks that hold nothing else than they held at first or what a committed
transaction logged. A `Journal` records every state in which a crash would meet its disk, each of them
with the invariant, and `DiskIsConsistent` says when a crash is safe: always over a log without ids to
come, and over any log just if the walk from its end meets no commit of an old transaction. The cache
writes back what it likes in between: the field `plan` says which blocks, for each buffer that the
commit takes, and `TakenAll` (in `JournalEvict`) what then becomes of the queue and the home blocks.

## Model

| member | source | states |
|---|---|---|
| JournalReplay.JbdFs.Recover | lib/third-party/lwext4/src/ext4_journal.c:1214-1253 | for every log whose walk ends, which a scan of as many records as the ring has blocks tells: each home block gets what the committed transactions of the log, applied in order and without what they or later ones revoke, leave for it; the journal is marked empty and its id becomes that of the last committed transaction |
| JournalReplay.JbdFs.IterateLog | lib/third-party/lwext4/src/ext4_journal.c:1061-1209 | on such a log the scan counts the commit records and finds the id of the last; the revoke pass builds the tree of revokes and the recover pass replays, both over just the records up to the last commit; no pass changes what belongs to another |
| JournalReplay.JbdFs.ReplayDescriptor | lib/third-party/lwext4/src/ext4_journal.c:1044-1054 | exactly the copies that the tags describe are replayed, and the walk goes on behind the last of them, around the ring |
| JournalReplay.JbdFs.ReplayTag | lib/third-party/lwext4/src/ext4_journal.c:879-949 | a copy goes home, its escaped word restored, unless the tree says that its transaction or a later one revoked the block |
| JournalReplay.JbdFs.SkipDescriptor | lib/third-party/lwext4/src/ext4_journal.c:1032-1042 | a pass that does not replay steps over exactly as many blocks as the replay reads |
| JournalRecovery.ThreePassesApplyInOrder | lib/third-party/lwext4/src/ext4_journal.c:1214-1253 | for any records with fewer than 2^31 commits, collecting revokes and replaying equal applying the committed transactions one after the other |
| JournalRecovery.RevokeTreeHoldsLatest | lib/third-party/lwext4/src/ext4_journal.c:955-976 | the tree of revokes holds for each block the id of the last committed transaction that revoked it, over what it held before, and nothing else |
| JournalRecovery.ReplayTxsAt | lib/third-party/lwext4/src/ext4_journal.c:866-949 | the replay leaves in a block the last copy that a transaction logged after the last one to revoke it, and else does not touch it |
| JournalRecovery.SurvivingIsLastUnrevoked | lib/third-party/lwext4/src/ext4_journal.c:879-949 | transactions applied in order leave in a block the last copy logged after the last revoke of it |
| JournalRecovery.TxsOfCommitted | lib/third-party/lwext4/src/ext4_journal.c:1061-1209 | records behind the last commit belong to no committed transaction, and there are as many transactions as commits |
| JournalFormat.IdDiffInWindow | lib/third-party/lwext4/src/ext4_journal.c:106-111 | ids of a window shorter than 2^31, compared by their signed 32-bit difference, are as far apart as their transactions, whatever wraps around |
| JournalWalk.WalkIsUnique | lib/third-party/lwext4/src/ext4_journal.c:1061-1209 | a log has at most one walk, so that what recovery does is determined |
| JournalWalk.WalkIsShort | lib/third-party/lwext4/src/ext4_journal.c:1061-1209 | a walk that ends meets no block twice, and so no more records than the ring has blocks |
| JournalWalk.WalkEndsIff | lib/third-party/lwext4/src/ext4_journal.c:1061-1209 | the walk over a log ends exactly if a scan of so many records ends, and then it meets what the scan meets |
| JournalWalk.SilentIff | lib/third-party/lwext4/src/ext4_journal.c:1061-1209 | the walk from a block ends without meeting a commit exactly if a scan of so many records does |
| JournalLimits.RecoveryRestarts | lib/third-party/lwext4/src/ext4_journal.c:1214-1253 | recovery that a crash cuts short, after any number of copies went home, and that is done again comes to the same home blocks |
| JournalLimits.OnlySurvivors | lib/third-party/lwext4/src/ext4_journal.c:879-949 | the recover pass never writes a block for which the committed transactions leave no copy |
| JournalTags.WriteBlockTag | lib/third-party/lwext4/src/ext4_journal.c:723-802 | a tag is written just if it fits, at its place, with the UUID behind it if it is the first, and without changing anything before or behind |
| JournalTags.TagsReadBack | lib/third-party/lwext4/src/ext4_journal.c:646-852 | a table of tags, closed by the last-tag flag or the end of the block, is read back as the same list of tags |
| JournalTags.RevokesReadBack | lib/third-party/lwext4/src/ext4_journal.c:1997-2082 | a revoke block is read back as the same list of blocks |
| JournalTags.EscapeReadBack | lib/third-party/lwext4/src/ext4_journal.c:1884-1967 | a logged copy never begins with the magic number, and is restored to the data it was made from |
| JournalWriter.TrimTail | lib/third-party/lwext4/src/ext4_journal.c:1822-1854 | from the end of the queue just the buffers up to the last dirty one leave; the count that is left is the position behind it |
| JournalWriter.FilledNext | lib/third-party/lwext4/src/ext4_journal.c:1856-1939 | with the count lowered for each buffer skipped so far, a dirty buffer is found to be the last one just if no dirty one follows |
| JournalWriter.Prepare | lib/third-party/lwext4/src/ext4_journal.c:1805-1991 | the dirty buffers, and only they, reach the log, in order, under tags of which the last alone carries the last-tag flag, in as many descriptor blocks as it takes; every state of the disk on the way is one that DiskIsConsistent speaks of, with the transactions committed before; it stops short just if the ring jams, and not if there is room |
| JournalWriter.PrepareRevoke | lib/third-party/lwext4/src/ext4_journal.c:1997-2082 | all blocks to revoke reach the log, in as many revoke blocks as it takes; every state of the disk on the way is one that DiskIsConsistent speaks of, with the transactions committed before |
| JournalLayout.ReadBack | lib/third-party/lwext4/src/ext4_journal.c:1061-1209 | the records of whole transactions followed by those of an unfinished one are read back as exactly the whole ones, with their ids |
| JournalLayout.LaidIsWalk | lib/third-party/lwext4/src/ext4_journal.c:1061-1209 | the walk from records laid one behind the other in the ring meets these and then certain others exactly if the walk from their end meets those |
| JournalLayout.WalkMeetsLaid | lib/third-party/lwext4/src/ext4_journal.c:1061-1209 | a walk that comes to the first of them meets all of them |
| JournalRing.RecordWritten | lib/third-party/lwext4/src/ext4_journal.c:1805-2082 | the block that completes a record adds just this record to those in the log, and if the rest of the ring was free of ids to come, it stays so |
| JournalRing.DropHolds | lib/third-party/lwext4/src/ext4_journal.c:1387-1405 | moving the start past whole transactions leaves exactly the later records in the log |
| JournalCommit.WriteCommitBlock | lib/third-party/lwext4/src/ext4_journal.c:1769-1799 | with the commit block, in one write, the transaction becomes the last committed one with all that it logged and revoked |
| JournalCommit.SettleRevokes | lib/third-party/lwext4/src/ext4_journal.c:2190-2216 | a block that the transaction revokes is pending for none of the transactions before it; the queue is what ending just these writes makes of it, and no home block changes |
| JournalCommit.Enqueue | lib/third-party/lwext4/src/ext4_journal.c:2218-2248 | the transaction goes to the end of the queue or, when it only revokes and would be the first, is skipped; no committed block is lost by it |
| JournalCommit.CommitTrans | lib/third-party/lwext4/src/ext4_journal.c:2158-2255 | every state that the disk goes through is one that DiskIsConsistent speaks of, with the transactions committed before or with the new one behind them. Whatever the cache writes back meanwhile, the commit succeeds if its blocks fit in front of what the superblock on disk names, or that is up to date, the first queued transaction is not finished and the queue is safe. If the cache writes nothing back, it jams exactly if neither do the blocks fit nor is the superblock up to date with an unfinished first transaction. Queue and home blocks are then what as many log blocks as the transaction needs make of them, each taken with its part of the plan: the ring is checkpointed when it is full, the blocks of the plan that are pending and not held go home, what is revoked is not pending any more, and the new transaction is last on the queue |
| JournalCommit.RoomIsSeen | lib/third-party/lwext4/src/ext4_journal.c:1455-1472 | between commits, the room in front of what the superblock on disk names is told by the fields of the journal |
| JournalCheckpoint.Journal.Start | lib/third-party/lwext4/src/ext4_journal.c:1267-1306 | over any log, a session begins at its first block, with the id after that in the superblock, and an empty history |
| JournalCheckpoint.Journal.EndWrite | lib/third-party/lwext4/src/ext4_journal.c:2100-2152 | once a block is home, just the transactions up to its owner count it as written, just those finished at the front leave the queue, by the rule of which one was first before the callbacks ran, and then the superblock on disk is up to date; no committed block is lost |
| JournalCheckpoint.Journal.EndEarlier | lib/third-party/lwext4/src/ext4_journal.c:1524-1589 | the pending writes of the block in earlier transactions are void; transactions that this finishes leave just from the front |
| JournalCheckpoint.Journal.PopHead | lib/third-party/lwext4/src/ext4_journal.c:1387-1405 | the log then starts behind the segment of the transaction that left, with the next id, in memory; what was committed is still home, pending or in the log |
| JournalCheckpoint.Journal.PurgeDone | lib/third-party/lwext4/src/ext4_journal.c:1367-1411 | without flushing, exactly the finished transactions at the front leave the queue |
| JournalFlush.FlushBuf | lib/third-party/lwext4/src/ext4_blockdev.c:144-171 | the cache may write back the last pending copy of a block at any time: every disk state is one that DiskIsConsistent speaks of, with all that is committed, and just the transactions that this finishes leave the queue |
| JournalFlush.FlushTrans | lib/third-party/lwext4/src/ext4_journal.c:1315-1352 | the first transaction, and those finished behind it, leave the queue, and the superblock on disk names the new first one; each block that it has pending gets its copy, with the magic word still blanked if a later transaction has the block pending, and no other home block changes |
| JournalFlush.PurgeHead | lib/third-party/lwext4/src/ext4_journal.c:1367-1411 | checkpointing the first transaction keeps the superblock on disk up to date exactly if it still had something to write, and writes just that home |
| JournalFlush.PurgeAll | lib/third-party/lwext4/src/ext4_journal.c:1367-1411 | with flushing, and not just once, the queue ends empty |
| JournalFlush.PopLeavesDiskBehind | lib/third-party/lwext4/src/ext4_journal.c:1255-1261 | a pop that writes no superblock leaves the start on disk behind the one in memory |
| JournalState.OwnerIsLast | lib/third-party/lwext4/src/ext4_journal.c:1611-1663 | the last queued transaction with a block pending is the last that logged it, unless the very last one revoked it |
| JournalState.HomeWriteKeeps | lib/third-party/lwext4/src/ext4_journal.c:2100-2152 | while a block is pending, its home block may hold anything and still nothing committed is lost |
| JournalState.EndKeepsHome | lib/third-party/lwext4/src/ext4_journal.c:2100-2152 | a write that ends in the right order leaves every committed block home, revoked or pending |
| JournalState.DropKeeps | lib/third-party/lwext4/src/ext4_journal.c:1367-1411 | when finished transactions leave the front of the queue, every committed block still is home, revoked or pending |
| JournalState.CommitKeepsPending | lib/third-party/lwext4/src/ext4_journal.c:2158-2255 | after a commit every pending buffer holds what its transaction logged last, and each later one that logged the block has it pending too |
| JournalRing.ImageIsConsistent | lib/third-party/lwext4/src/ext4_journal.c:1061-1253 | the crash theorem: a disk on which log and queue are as the invariant says recovers to all transactions committed so far, over home blocks that hold nothing uncommitted, if the walk from the end of the log meets no commit of an old transaction, and ends; if not, recovery finds more transactions than the log holds or does not end, and while none is gone from the log the disk is inconsistent |
| JournalSession.DiskIsConsistent | lib/third-party/lwext4/src/ext4_journal.c:1061-1253 | so it is with the disk of a session at any time; over a log that at first held no ids to come it always recovers |
| JournalRuns.Run | lib/third-party/lwext4/src/ext4_journal.c:2158-2287 | over any log, for any sequence of operations there is one event each, and the one that is due: a block is written back just if a committed buffer is all that the cache has of it, and a transaction commits just if there is room and it has something to commit; queue and home blocks are then what the write-backs on the way make of them. Of every state of the disk it is told whether it recovers to exactly the transactions committed by then, over the home blocks of the beginning: by the walk from the end of the log, and always if the log held no ids to come |
| JournalRuns.Step | lib/third-party/lwext4/src/ext4_journal.c:2158-2287 | one operation does that, and the states of the disk in between show the transactions of before or of after |
| JournalRuns.PlannedIsHome | lib/third-party/lwext4/src/ext4_blockdev.c:186-211 | a commit brings home each block that the cache chose to write back on the way, that is pending and that the transaction does not hold, with the data of its last pending copy |
| JournalRuns.CanLog | lib/third-party/lwext4/src/ext4_journal.c:1455-1472 | the fields of the journal decide exactly whether the next transaction can be committed |
| JournalRuns.CrashAndRecover | lib/third-party/lwext4/src/ext4_journal.c:1214-1253 | mounting after a crash: a block gets the last surviving copy; one that no committed transaction logged or revoked holds what it held when the session began, and any other that or a copy that a committed one logged |
| JournalRuns.Stop | lib/third-party/lwext4/src/ext4_journal.c:1416-1449 | a clean stop brings all that was committed home and marks the log empty, and changes nothing of what a crash on the way comes to |
| JournalRuns.AllHome | lib/third-party/lwext4/src/ext4_journal.c:1367-1411 | with an empty queue every committed block is home, and no other was touched |
| JournalSpace.AllocBlock | lib/third-party/lwext4/src/ext4_journal.c:1455-1472 | takes the block behind the last one; when that meets the start, the first transaction is checkpointed. While there is room, the part of the ring that the superblock on disk names is never reached; else the result says that the ring is jammed. Queue and home blocks are what the checkpoint of a full ring and the write-backs of the cache make of them |
| JournalSpace.Shake | lib/third-party/lwext4/src/ext4_blockdev.c:186-211 | of the blocks that the cache chooses just those that are pending and not held go home, with the data of their last pending copies, and no other home block changes; the queue is what their callbacks make of it, one after the other |
| JournalEvict.CopiesAfterAll | lib/third-party/lwext4/src/ext4_journal.c:2100-2152 | what is written back is not pending any more, and of all other blocks the same last copies still are |
| JournalEvict.StagesCarry | lib/third-party/lwext4/src/ext4_journal.c:1455-1472 | whatever is checkpointed and written back while a commit takes its log blocks, a block that is not held is pending with the same last copy as before, or has that copy at home |
| JournalEvict.VictimsAreHome | lib/third-party/lwext4/src/ext4_blockdev.c:186-211 | and it is home in the end if the cache chose it at any of them |
| JournalSpace.FullRing | lib/third-party/lwext4/src/ext4_journal.c:1455-1472 | with one block more, either the journal sees that the ring is full and has a transaction to checkpoint, or it does not see it and the ring is jammed, for want of room, or there still is room for the rest |
| JournalSpace.IdleIff | lib/third-party/lwext4/src/ext4_journal.c:1367-1411 | disk and memory name the same start exactly if each transaction in the log on disk is on the queue |
| JournalSpace.SticksIff | lib/third-party/lwext4/src/ext4_journal.c:2100-2152 | a write-back leaves a finished transaction at the front exactly if all up to the owner wait for that block only, the first among them, and there is more than one |
| JournalSpace.SafeIsSeen | lib/third-party/lwext4/src/ext4_journal.c:2100-2152 | whether a queue is safe can be told from the queue |
| JournalSpace.SafeNeverSticks | lib/third-party/lwext4/src/ext4_journal.c:2100-2152 | in a safe queue no write-back leaves a finished transaction at the front |
| JournalJam.SafeIff | lib/third-party/lwext4/src/ext4_journal.c:2100-2152 | a queue is safe exactly if no sequence of write-backs, whatever left the front before, leaves a finished transaction there |
| JournalJam.CanGetStuck | lib/third-party/lwext4/src/ext4_journal.c:2100-2152 | from an unsafe queue such a sequence is found |
| JournalJam.CommitAfter | lib/third-party/lwext4/src/ext4_journal.c:2158-2255 | when the cache writes back any list of blocks and then a transaction is committed, the ring jams exactly if that leaves a finished transaction at the front of the queue and the queued transactions and the new one do not fit the ring |
| JournalJam.JammedBlockIff | lib/third-party/lwext4/src/ext4_journal.c:1455-1472 | in a jammed ring the next block that is written keeps the disk consistent exactly if all that was committed is home already |
| JournalJam.LostSession | lib/third-party/lwext4/src/ext4_journal.c:2158-2255 | a session of three commits, one write-back and a fourth commit jams; after any next log block the disk no longer recovers the third transaction |
| JournalStale.OldLogIff | lib/third-party/lwext4/src/ext4_journal.c:1285-1293 | while nothing is gone from the log, a test on the log of before the session, for the lengths of the records written by then, is enough to know that a crash recovers what was committed; between two records it is exact |
| JournalStale.OverIff | lib/third-party/lwext4/src/ext4_journal.c:1061-1209 | that test tells just what the walk over the log as it is then would meet behind the records of the session: it ends among them, but for the beginning of a record not yet committed, where it goes round for ever |
| JournalStale.SessionIsSafeIff | lib/third-party/lwext4/src/ext4_journal.c:1267-1449 | a whole session is safe at every moment exactly if the old log passes the test for all records that it logs |
| JournalStale.LengthsDecide | lib/third-party/lwext4/src/ext4_journal.c:1061-1209 | the test depends on the lengths of the records only, and on which of them are commits |
| JournalStale.StartIsSafeIff | lib/third-party/lwext4/src/ext4_journal.c:1285-1293 | starting over an old log is safe to crash at once exactly if it passes the test for no records |
| JournalStale.StaleSession | lib/third-party/lwext4/src/ext4_journal.c:1416-1449 | a session that commits twice and stops, and one after it that begins with id 1 again and commits: recovery then takes the old second transaction for the one behind it, and undoes the commit |
| JournalLimits.FlushedCopyIff | lib/third-party/lwext4/src/ext4_journal.c:1338-1342 | flushing the copy in the log brings the block home exactly if it does not begin with the magic number |
| JournalLimits.EndlessWalk | lib/third-party/lwext4/src/ext4_journal.c:1061-1209 | a log of three blocks whose records jump over the start fails the scan, and has no walk that ends |
| DirRecords.FindInBlock | lib/third-party/lwext4/src/ext4_dir.c:654-695 | finds the first record of the name, with its offset, exactly if the block holds one |
| DirRecords.TryInsert | lib/third-party/lwext4/src/ext4_dir.c:580-652 | succeeds exactly if some free record is at least as long as the name takes, or some used one longer by that much than its own name takes; the first such record is taken whole, or cut; then the block still is tiled by its records and has just one entry more |
| DirSplit.RoomIff | lib/third-party/lwext4/src/ext4_dir.c:607-627 | that a leaf has room for a name means this of the lengths of its records |
| DirRecords.RemoveRec | lib/third-party/lwext4/src/ext4_dir.c:527-578 | the block still is tiled and has just this entry less |
| DirRecords.HoldsIffEntry | lib/third-party/lwext4/src/ext4_dir.c:654-695 | a name is held exactly if it is among the entries |
| DirSearch.SearchNode | lib/third-party/lwext4/src/ext4_dir_idx.c:535-636 | the binary search gives the last entry whose hash is not above the one searched |
| DirSearch.GetLeaf | lib/third-party/lwext4/src/ext4_dir_idx.c:535-636 | the path leads to the leaf in whose range of hashes the hash lies |
| DirSearch.NextBlock | lib/third-party/lwext4/src/ext4_dir_idx.c:645-712 | goes on to the next leaf in order exactly if that continues the same hash |
| DirSearch.PathLocates | lib/third-party/lwext4/src/ext4_dir_idx.c:535-636 | the positions found in root and index block locate the hash among all leaves |
| DirTree.OnlyInRun | lib/third-party/lwext4/src/ext4_dir_idx.c:714-831 | a name can only be in the leaf of its hash and in those chained to it by the continued bit |
| DirTree.InSomeLeafIff | lib/third-party/lwext4/src/ext4_dir.c:448-525 | some leaf holds a name exactly if it is among the contents |
| DirIndex.Directory.FindEntry | lib/third-party/lwext4/src/ext4_dir_idx.c:714-831 | finds a name exactly if some leaf holds it, and where |
| DirIndex.Directory.Scan | lib/third-party/lwext4/src/ext4_dir.c:448-525 | the linear scan finds exactly the same names, in the first leaf block that holds them |
| DirIndex.Directory.RemoveEntry | lib/third-party/lwext4/src/ext4_dir.c:527-578 | takes just one entry of the name from the contents, if there is one; the index stays sound |
| DirSplit.SplitRecords | lib/third-party/lwext4/src/ext4_dir_idx.c:893-1066 | the halves keep the entries as a multiset, both are tiled, each is taken up to half a block and one record more, and the bound separates their hashes but for the one that it chains |
| DirSplit.OrderIsUnique | lib/third-party/lwext4/src/ext4_dir_idx.c:934-962 | sorting by hash gives one order if no two hashes are equal |
| DirSplit.FindMid | lib/third-party/lwext4/src/ext4_dir_idx.c:984-1005 | a second half exists exactly if the entries take more than half a block |
| DirSplit.Pack | lib/third-party/lwext4/src/ext4_dir_idx.c:1012-1039 | packed entries tile the block and are the same |
| DirIndex.Directory.SplitData | lib/third-party/lwext4/src/ext4_dir_idx.c:893-1066 | a leaf becomes two neighbours with the same contents and an index entry between them, or nothing changes, exactly if no block is free |
| DirIndex.Directory.SplitIndex | lib/third-party/lwext4/src/ext4_dir_idx.c:1074-1229 | afterwards the index block has room for one entry more, leaves and contents are the same, and one block is taken just if it was full; it fails exactly if root and index block are full at two levels, or a block is needed and none free; an index of one level always grows if a block is free |
| DirTree.LimitsFill | lib/third-party/lwext4/src/ext4_dir_idx.c:404-412 | the entries that the root and an index block may have fill the block behind what it begins with |
| DirUpdate.NodeHalved | lib/third-party/lwext4/src/ext4_dir_idx.c:1135-1192 | an index block split in two leads to the same leaves in the same order, and the block on the path has room |
| DirUpdate.RootGrown | lib/third-party/lwext4/src/ext4_dir_idx.c:1193-1225 | growing by a level leads to the same leaves in the same order, and the block on the path has room |
| DirUpdate.EntryInserted | lib/third-party/lwext4/src/ext4_dir_idx.c:863-884 | an entry put behind the position of a path adds one leaf behind its leaf |
| DirUpdate.LeafSplit | lib/third-party/lwext4/src/ext4_dir_idx.c:893-1066 | two halves at a bound keep every name within the range of hashes of its leaf |
| DirIndex.Directory.AddEntry | lib/third-party/lwext4/src/ext4_dir_idx.c:1231-1363 | adds just the one entry, or fails with the contents as they were, exactly if its leaf has no room and splitting finds no block or no level; the name is lost under a reported success exactly if the half that it belongs to has no room, told by the sorted entries of the leaf, and never with blocks of 2048 bytes or more |
| DirIndex.HalfHasRoom | lib/third-party/lwext4/src/ext4_dir_idx.c:1325-1337 | from 2048 bytes on either half has room for any name |
| DirIndex.NameLost | lib/third-party/lwext4/src/ext4_dir_idx.c:1325-1337 | a directory of one full leaf of 1024 bytes, to which adding a name reports success and which does not hold it |
| DirIndex.RefusesHalfEmpty | lib/third-party/lwext4/src/ext4_dir_idx.c:988-1005 | a leaf that refuses a long name while its entries take no more than half of it, so that no second half exists |
| DirRuns.Run | lib/third-party/lwext4/src/ext4_dir_idx.c:714-1363 | for any sequence of operations there is one event each, and the one that the bag of the names added and not removed gives: a name is refused just if the directory cannot take it, lookups by hash and by scan find it just if it is in the bag, and a name reported as added is lost exactly if its leaf has no room, and the half that it goes to has none |
| DirRuns.Step | lib/third-party/lwext4/src/ext4_dir_idx.c:714-1363 | one operation does that |
| DirRuns.MayAdd | lib/third-party/lwext4/src/ext4_dir_idx.c:535-636 | decides exactly whether the directory can take a name |
| DirRuns.NewTakes | lib/third-party/lwext4/src/ext4_dir_idx.c:349-464 | a new directory takes and keeps every name that is valid |
| DirRuns.FirstName | lib/third-party/lwext4/src/ext4_dir.c:607-614 | a new directory to which a first name is added holds just that, whatever the size of its blocks and the space left |
| DirRuns.PathOnce | lib/third-party/lwext4/src/ext4_dir_idx.c:535-636 | one path only leads to a leaf |
| BlockMap.PathsDiffer | lib/third-party/lwext4/src/ext4_fs.c:92-103 | logical blocks of one level that differ take different paths |
| BlockTree.SlotRest | lib/third-party/lwext4/src/ext4_fs.c:1403-1451 | slot and rest of an offset are in range and give the offset back |
| InodeBlocks.InodeRef.Get | lib/third-party/lwext4/src/ext4_fs.c:1345-1457 | the block that the map holds for a logical block, 0 for a hole, an error exactly behind all levels |
| InodeBlocks.InodeRef.SetBlock | lib/third-party/lwext4/src/ext4_fs.c:1475-1638 | the logical block, and no other, leads to the new block; pointer blocks put in on the way are new, exactly as many as were missing, each block of the file stays in the map once, also on failure, and the count in the inode goes up by what was put in |
| BlockMap.PointerSet | lib/third-party/lwext4/src/ext4_fs.c:1569-1617 | changing one pointer changes the blocks of the file by just what is below it |
| BlockMap.ChildAdded | lib/third-party/lwext4/src/ext4_fs.c:1570-1610 | no logical block sees that an empty pointer block was put in |
| BlockMap.RootAdded | lib/third-party/lwext4/src/ext4_fs.c:1525-1558 | nor one in the inode itself |
| BlockMap.DataSet | lib/third-party/lwext4/src/ext4_fs.c:1612-1617 | setting the last pointer on a path sets that logical block only |
| InodeBlocks.InodeRef.Fill | lib/third-party/lwext4/src/ext4_fs.c:1665-1699 | a hole gets a block that was free; it fails for want of space exactly if less is free than the data block and the pointer blocks that are missing on the way, and with an error exactly behind all levels; what it took is then in the map or given back, and the count of the inode is that of its blocks |
| InodeBlocks.InodeRef.Append | lib/third-party/lwext4/src/ext4_fs.c:1641-1709 | the new last block leads to a block that was free and no other moves; it fails for want of space exactly if less is free than the data block and the missing pointer blocks, and with an error exactly behind all levels; then the size is as it was, and it fails again |
| BlockPlaces.PointedFollow | lib/third-party/lwext4/src/ext4_fs.c:1569-1617 | paths through a changed slot lead to what is below its new pointer, all others to what they did |
| BlockPlaces.ChildFilled | lib/third-party/lwext4/src/ext4_fs.c:1570-1610 | a pointer block put in fills just its own place among all places of pointer blocks |
| BlockPlaces.NeedStep | lib/third-party/lwext4/src/ext4_fs.c:1641-1709 | what appending so many blocks needs is what the first of them needs and what the rest needs after it: no pointer block is counted twice |
| BlockPlaces.ShortStep | lib/third-party/lwext4/src/ext4_fs.c:1641-1709 | whether the map or the free blocks will not do for so many blocks is the same after the first of them was appended |
| InodeBlocks.InodeRef.Release | lib/third-party/lwext4/src/ext4_fs.c:1078-1176 | just the data block of this logical block is given back, and it becomes a hole; the count of the inode stays that of its blocks |
| InodeBlocks.InodeRef.Truncate | lib/third-party/lwext4/src/ext4_fs.c:1178-1259 | exactly the data blocks behind the new end are given back, and all others lead where they led; the count of the inode stays that of its blocks |
| InodeBlocks.InodeRef.FreeInode | lib/third-party/lwext4/src/ext4_fs.c:933-1070 | a file without data gives back each of its pointer blocks, and nothing of others; its count is then 0 |
| InodeBlocks.InodeRef.Remove | lib/third-party/lwext4/src/ext4_fs.c:933-1259 | truncating to nothing and freeing the inode gives back every block of the file and no other, and leaves a count of 0 |
| InodeBlocks.Lifetime | lib/third-party/lwext4/src/ext4_fs.c:933-1709 | a new file takes a different free block for each append; it does not get to so many blocks exactly if the map ends before, or they and the pointer blocks they need are more than are free; when it is removed, it leaves the blocks in use as they were and a count of 0 |
| InodeBlocks.InodeRef.CountedIff | lib/third-party/lwext4/src/ext4_balloc.c:566-569 | what the inode counts, and each operation keeps, stands for as many bytes as its data and pointer blocks have: in units of 512 bytes, for blocks of whole sectors |
| InodeBlocks.EmptyMap | lib/third-party/lwext4/src/ext4_fs.c:933-1070 | a map of holes has just the pointer blocks left, each once |
| FileMap.MapInjective | lib/third-party/lwext4/src/ext4_fs.c:1345-1457 | different logical blocks lead to different blocks, or to none |
| ByteDevice.BlockDev.WriteBytes | lib/third-party/lwext4/src/ext4_blockdev.c:309-377 | for every offset and length exactly these bytes change; when the device fails, a first part of them and no other byte; a device without faults never fails inside of its bounds |
| ByteDevice.BlockDev.ReadBytes | lib/third-party/lwext4/src/ext4_blockdev.c:379-442 | for every offset and length exactly these bytes are returned |
| ByteDevice.BlockDev.SetDirect | lib/third-party/lwext4/src/ext4_blockdev.c:295-307 | whole blocks go to their place, or a first part of them |
| ByteDevice.BlockDev.GetDirect | lib/third-party/lwext4/src/ext4_blockdev.c:281-293 | whole blocks are read from their place |
| ByteDevice.BlockDev.StartIff | lib/third-party/lwext4/src/ext4_blockdev.c:327-330 | the place used for a byte is the right one exactly if the partition is aligned to sectors |
| ByteDevice.MaskIsMod | lib/third-party/lwext4/src/ext4_blockdev.c:330 | the mask gives the remainder, as the sector size is a power of two |
| FileIO.File.Fread | lib/third-party/lwext4/src/ext4.c:1672-1829 | returns exactly the requested slice of the contents, cut at the end of the file, and moves the position behind it; of a read that fails, a first part |
| FileIO.File.Fwrite | lib/third-party/lwext4/src/ext4.c:1831-2018 | the contents are the old ones with the written bytes from the position on, longer if need be, and no byte of the device outside of the blocks of the file changes; when the device fails, that holds for a first part. If it does not fail, all is written exactly if the file can grow to the blocks up to the end, told from the map and the free blocks before the call; else it is written up to the last block that the file can grow to. The result never shows an error, and write-back stays on exactly if the file cannot grow to the last whole block |
| FileIO.CutWrite | lib/third-party/lwext4/src/ext4.c:1962-1968 | two blocks written to a new file with one block free: one goes there, the call reports success, and write-back stays on |
| InodeBlocks.LimitStays | lib/third-party/lwext4/src/ext4_fs.c:1641-1709 | what a file cannot grow to is the same after a block was appended |
| InodeBlocks.LimitStands | lib/third-party/lwext4/src/ext4_fs.c:1641-1709 | and after an append that failed |
| FileIO.File.Ftruncate | lib/third-party/lwext4/src/ext4.c:1604-1670 | the contents are cut to the new size, or as they were if it is not smaller; the position stays inside |
| FileIO.File.TruncInode | lib/third-party/lwext4/src/ext4.c:819-888 | cutting in steps cuts to the same contents |
| FileIO.File.Fseek | lib/third-party/lwext4/src/ext4.c:2020-2045 | the position is where it was asked to be, or the request is refused exactly if that is outside of the file |
| FileIO.File.ReadBlocks | lib/third-party/lwext4/src/ext4.c:1772-1806 | the coalesced runs read together are the contents from the position on |
| FileIO.File.WriteBlocks | lib/third-party/lwext4/src/ext4.c:1914-1969 | the coalesced runs written together are the contents from the position on, over old and appended blocks |
| FileIO.File.Collect | lib/third-party/lwext4/src/ext4.c:1775-1790 | a run is the longest stretch of adjacent blocks up to the last one, and the block that ends it begins the next |
| FileIO.File.CollectGrow | lib/third-party/lwext4/src/ext4.c:1918-1945 | the same over appended blocks; when one cannot be appended, the run so far is kept, and the write stands as it did |
| FileIO.File.Grow | lib/third-party/lwext4/src/ext4_fs.c:1641-1709 | an append adds one block behind the blocks of the file and makes no hole |
| FileMap.ReadRun | lib/third-party/lwext4/src/ext4.c:1792-1799 | what is read of a run is what the file holds there |
| FileMap.WriteRun | lib/third-party/lwext4/src/ext4.c:1947-1954 | writing to a run changes just these bytes of the file |
| BlockCache.Cache.Get | lib/third-party/lwext4/src/ext4_blockdev.c:244-268 | returns what was stored last; after it the cache is within its limit or every buffer is in use, and the order of use and what is evicted are as for a buffer without its data |
| BlockCache.Cache.GetNoread | lib/third-party/lwext4/src/ext4_blockdev.c:213-242 | one reference more, buffers in use untouched, all blocks look as before; an error exactly for a block beyond the device, or a refused write; the block comes last in the order of use if nobody held it, and what is evicted for it, from a full cache only, was used before any other unheld buffer that stays |
| BlockCache.Cache.Free | lib/third-party/lwext4/src/ext4_bcache.c:270-315 | a write is tried exactly if this was the last reference, the buffer is dirty and write-back is off or the buffer is marked for flushing or temporary use; blocks look different exactly if that write is refused, the buffer is of temporary use and its data differ from the disk; it is dropped exactly if this was the last reference and the data invalid or temporary; the mark for flushing goes with the write |
| CacheRuns.LostBlock | lib/third-party/lwext4/src/ext4_bcache.c:299-306 | a cache in which a stored block shows its old data again after it was given back, with nothing waiting and no error |
| BlockCache.Cache.SetTemporary | lib/third-party/lwext4/src/ext4_journal.c:541-542 | just this flag is set, and all blocks look as before |
| BlockCache.Cache.FindGet | lib/third-party/lwext4/src/ext4_bcache.c:208-232 | found exactly if cached; then one reference more, and nothing else changes unless it is the first: with that the buffer leaves the tree of unreferenced ones and the list, and its LRU id is above those of all others, which keep theirs |
| BlockCache.Cache.Alloc | lib/third-party/lwext4/src/ext4_bcache.c:234-268 | a cached buffer, as above, or a new one without valid data and with an LRU id above all others; all blocks look as before |
| BlockCache.Cache.Shake | lib/third-party/lwext4/src/ext4_blockdev.c:186-211 | evicts no buffer in use and none used later than one that stays, from a full cache only and no more than needed; all blocks look as before |
| BlockCache.Cache.FlushBuf | lib/third-party/lwext4/src/ext4_blockdev.c:144-171 | the buffer is clean and off the list and all blocks look as before, or nothing changed |
| BlockCache.Cache.DropBuf | lib/third-party/lwext4/src/ext4_bcache.c:161-179 | a clean buffer goes without any block looking different |
| BlockCache.Cache.InvalidateLba | lib/third-party/lwext4/src/ext4_bcache.c:194-206 | clears just the buffers of the range if the first of it is cached, and else nothing |
| CacheRuns.ClearedIff | lib/third-party/lwext4/src/ext4_bcache.c:199-200 | the range shows the disk afterwards exactly if its first block is cached or nothing in it differed |
| CacheRuns.NotCleared | lib/third-party/lwext4/src/ext4_bcache.c:199-200 | a cache in which invalidating two freed blocks leaves the old data of the second waiting to be written |
| BlockCache.Cache.FlushLba | lib/third-party/lwext4/src/ext4_blockdev.c:173-184 | on success the block is on the disk; all blocks look as before |
| BlockCache.Cache.CacheFlush | lib/third-party/lwext4/src/ext4_blockdev.c:444-456 | ends with the list empty or a refused write; all blocks look as before |
| BlockCache.Cache.WriteBack | lib/third-party/lwext4/src/ext4_blockdev.c:458-471 | the switch nests, and when the last one goes off, nothing waits on the list or a write was refused |
| BlockCache.Cache.AllOnDisk | lib/third-party/lwext4/src/ext4_blockdev.c:458-471 | with nothing on the list, and so with write-back off, and no refused write, every block that nobody holds is on the disk |
| BlockCache.Cache.CleanIsOnDisk | lib/third-party/lwext4/src/ext4_blockdev.c:244-268 | a clean buffer with valid data equals the disk |
| CacheRuns.Run | lib/third-party/lwext4/src/ext4_blockdev.c:144-471 | for any sequence of operations, whatever is evicted and the device refuses, there is one event each, and the one that a plain array of blocks and a count of holders give; data are lost only by a device that refuses writes, with the last hold on a block marked for temporary use; at the end the disk holds the array if no write was refused and nothing waits. By the events, a block that is evicted was taken hold of from none before any other that nobody holds and that stays, and only a full cache evicts |
| CacheRuns.Step | lib/third-party/lwext4/src/ext4_blockdev.c:144-471 | one operation does that |
| CacheRuns.RankedMore | lib/third-party/lwext4/src/ext4_bcache.c:208-268 | the LRU ids are in the order in which the blocks were last taken hold of from none, by the events: an event that takes hold of one makes it the last, and leaves the order of the others |
| CacheRuns.GetEvicts | lib/third-party/lwext4/src/ext4_blockdev.c:186-211 | so that what a get evicts is told by the events alone |
| Bitmap.BitSet | lib/third-party/lwext4/include/ext4_bitmap.h:52-55 | just this bit is set |
| Bitmap.BitClr | lib/third-party/lwext4/include/ext4_bitmap.h:60-63 | just this bit is cleared |
| Bitmap.IsBitClr | lib/third-party/lwext4/include/ext4_bitmap.h:68-79 | tells whether this bit is clear |
| Bitmap.BitsFree | lib/third-party/lwext4/src/ext4_bitmap.c:45-88 | just the bits of the range are cleared, by single bits and whole bytes |
| Bitmap.FindClr | lib/third-party/lwext4/src/ext4_bitmap.c:90-158 | the first clear bit of the range, or none exactly if all are set |
| BlockGroups.AddrRoundTrip | lib/third-party/lwext4/src/ext4_balloc.c:61-84 | from an address to group and index and back |
| BlockGroups.IdxRoundTrip | lib/third-party/lwext4/include/ext4_fs.h:94-117 | from group and index to an address and back |
| BlockGroups.BeyondIff | lib/third-party/lwext4/src/ext4_super.c:64-74 | the count of a group takes in an address beyond the device exactly at the last index of the last group, when the first data block is 1 |
| GroupCounts.ClearIsCard | lib/third-party/lwext4/src/ext4_balloc.c:352-583 | the free count of a group is the number of its clear bits |
| GroupCounts.NoneFreeIff | lib/third-party/lwext4/src/ext4_balloc.c:352-583 | the superblock counts no free block exactly if every group is full |
| GroupCounts.GiveCounted | lib/third-party/lwext4/src/ext4_balloc.c:152-231 | giving a bit back keeps all counts right exactly if it was in use |
| GroupCounts.TakeCounted | lib/third-party/lwext4/src/ext4_balloc.c:352-583 | taking a clear bit keeps bitmap, group count and superblock count equal |
| BlockAlloc.BlockAllocator.AllocBlock | lib/third-party/lwext4/src/ext4_balloc.c:352-583 | fails exactly if no block is free; else one block that was free and in range is taken and no other: the first from the goal on in its group, or, if there is none, the first of its group, where each group that comes before it, going up from the one behind that of the goal and around the end, is full |
| BlockAlloc.BlockAllocator.TryAllocBlock | lib/third-party/lwext4/src/ext4_balloc.c:585-665 | takes the block exactly if it is free |
| BlockAlloc.BlockAllocator.FreeBlock | lib/third-party/lwext4/src/ext4_balloc.c:152-231 | just this block becomes free; the counts stay right exactly if it was in use |
| BlockAlloc.BlockAllocator.FreeBlocks | lib/third-party/lwext4/src/ext4_balloc.c:233-350 | the counts stay right exactly if the run lies in one group or groups fill their bitmaps, and then just these blocks become free |
| BlockAlloc.RunAcross | lib/third-party/lwext4/src/ext4_balloc.c:287-291 | an allocator of two half-full bitmaps whose counts a run across both groups spoils |
| BlockUse.AllocFor | lib/third-party/lwext4/src/ext4_balloc.c:352-583 | seen as a set of used blocks, as the block map sees it: an allocation takes one block that was not in the set, or all blocks are in it; the count of the inode grows as in the block map |
| BlockUse.GiveFor | lib/third-party/lwext4/src/ext4_balloc.c:152-231 | and a used block given back leaves the set, with the counts right; the count of the inode falls as in the block map |
| BlockAlloc.FindNear | lib/third-party/lwext4/src/ext4_balloc.c:409-464 | the search around the goal gives the first clear bit from it on |
| InodeAlloc.IdxRoundTrip | lib/third-party/lwext4/src/ext4_ialloc.c:62-92 | from group and index to an inode number and back |
| InodeAlloc.InodeRoundTrip | lib/third-party/lwext4/src/ext4_ialloc.c:62-92 | from an inode number to group and index and back |
| InodeAlloc.InodeAllocator.AllocInode | lib/third-party/lwext4/src/ext4_ialloc.c:229-367 | fails exactly if no inode is free; else one that was free is taken and no other, the first of its group, where each group that comes before it, going up from the last used one and around the end, is full; the directory count of just that group fits, and of the inodes never used just those behind it are left there |
| InodeAlloc.InodeAllocator.FreeInode | lib/third-party/lwext4/src/ext4_ialloc.c:158-227 | just this inode becomes free, with the directory count of its group; the counts stay right exactly if it was in use |
| RbTree.RbTree.Insert | lib/third-party/lwext4/include/misc/tree.h:628-658 | an equal key is returned and nothing changes, or just the new element is in its place in the order; the pointers are those of a red-black tree |
| RbTree.RbTree.Remove | lib/third-party/lwext4/include/misc/tree.h:560-626 | just this element is gone from the order; the pointers are those of a red-black tree |
| RbTree.RbTree.Find | lib/third-party/lwext4/include/misc/tree.h:660-677 | the element with the key, or none exactly if there is none |
| RbTree.RbTree.NFind | lib/third-party/lwext4/include/misc/tree.h:679-699 | the least element that is not below the key |
| RbTree.RbTree.Next | lib/third-party/lwext4/include/misc/tree.h:701-722 | the element that follows in the order, or none after the last |
| RbTree.RbTree.MinMax | lib/third-party/lwext4/include/misc/tree.h:747-761 | the first or the last element |
| RbTree.RbTree.ForEach | lib/third-party/lwext4/include/misc/tree.h:775-778 | visits all elements once, in order, and ends |
| RbTree.RbTree.InsertColor | lib/third-party/lwext4/include/misc/tree.h:436-479 | from a tree with at most one red node below a red one to a red-black tree with the same order |
| RbTree.RbTree.RemoveColor | lib/third-party/lwext4/include/misc/tree.h:481-558 | from a tree that lacks a black node in one place to a red-black tree with the same order |
| RbTree.RbTree.Rotate | lib/third-party/lwext4/include/misc/tree.h:344-382 | the pointer writes of a rotation, parents included, make exactly the rotated tree, with the same order |
| RbTree.RbTree.RemoveTwo | lib/third-party/lwext4/include/misc/tree.h:570-609 | the successor takes the place, colour and links of the node, and only that node leaves the order |
| RbMemory.RenamedOk | lib/third-party/lwext4/include/misc/tree.h:588-601 | memory in which one node took over the links of another holds the tree with the one for the other |
| RbBalance.HighOuter | lib/third-party/lwext4/include/misc/tree.h:458-459 | the last rotation of an insertion moves the only fault away from the colours |
| RbBalance.LowBlack | lib/third-party/lwext4/include/misc/tree.h:495-501 | turning a black sibling with black children red moves the lack of a black node up |
| RbBalance.LowNear | lib/third-party/lwext4/include/misc/tree.h:503-512 | a red near child is rotated to the far side with the lack unchanged |
| RbBalance.LowFar | lib/third-party/lwext4/include/misc/tree.h:513-517 | a red far child lets one rotation end the lack |
| RbBalance.HeightBound | lib/third-party/lwext4/include/misc/tree.h:436-558 | the height is at most twice the binary logarithm of the number of elements and one |

## Findings

Where the code does not do what it is for, the model keeps the code as it is; what fails is shown on
an input, and when it does not fail is stated exactly.

- **A finished transaction is left at the front of the checkpoint queue** (`ext4_journal.c:2100-2152`).
  `jbd_trans_end_write` looks up which transaction is first before the callbacks of earlier ones run.
  When one write-back finishes the first transaction and the one after it together, the second stays
  at the front. `JournalSpace.SticksIff` says for which write-backs, `JournalJam.SafeIff` for which
  queues. When the log is full then, `jbd_journal_alloc_block` (1466-1469) moves the start in memory
  only and goes on to write over blocks that the superblock on disk names. `JournalCommit.CommitTrans`
  and `JournalJam.CommitAfter` say when a commit comes to that, `JournalJam.JammedBlockIff` what is
  lost by it, and `JournalJam.LostSession` is a session in which a committed transaction is lost.
  A transaction that only revokes leaves the queue without a write of the superblock as well
  (`JournalFlush.PopLeavesDiskBehind`); `CommitTrans` covers the jams that this leads to,
  `CommitAfter` begins with a superblock that is up to date.
- **A stopped journal begins again with id 1 over its old log** (1291-1293, 1445-1446). What a crash
  comes to then is told at every moment by the walk from the end of the log
  (`JournalSession.DiskIsConsistent`), and by a test on the old log for the lengths of the records to
  be written (`JournalStale.OldLogIff`, `JournalStale.SessionIsSafeIff`).
  `JournalStale.StaleSession` is a session that stops and another that commits, where recovery takes
  back what was just committed. The same holds for a session after a recovery, whose unfinished
  transaction leaves records of the next id.
- **The walk over a log need not end** (1061-1209): records that jump over the start are walked
  round and round, as in `JournalLimits.EndlessWalk`. It ends exactly if a scan of as many records as
  the ring has blocks ends, by `JournalWalk.WalkEndsIff`.
- **A checkpoint copies blocks from the log without restoring the magic word** (1338-1342):
  right exactly for blocks that do not begin with it, `JournalLimits.FlushedCopyIff`.
- **A leaf is split although its entries take no more than half of it** (`ext4_dir_idx.c:988-1005`):
  no second half is found and the sorted entries are read before their first. `DirSplit.FindMid` says
  when, `DirIndex.RefusesHalfEmpty` is such a leaf.
- **A name is lost under a reported success** (1325-1337): the result of the insertion after a split
  is overwritten. `DirIndex.Directory.AddEntry` says exactly when, by the sorted entries of the leaf
  before the call; `DirIndex.NameLost` is a directory of 1024-byte blocks where it happens, and
  `DirIndex.HalfHasRoom` shows that it does not from 2048 bytes on.
- **Blocks freed together stay in the cache** (`ext4_bcache.c:199-200`) unless the first of them is
  cached: `CacheRuns.ClearedIff`, and `CacheRuns.NotCleared` for a cache that will write old data.
- **A refused write goes unnoticed when a buffer is released** (`ext4_bcache.c:299-300`):
  `BlockCache.Cache.Free` has no result to tell it, and says exactly when a write is tried and when
  the data are gone; `CacheRuns.LostBlock` is a cache that loses a block.
- **Freeing what is free spoils the counts** (`ext4_balloc.c:152-231`, `ext4_ialloc.c:158-227`):
  exactly then, by `BlockAlloc.BlockAllocator.FreeBlock` and `InodeAlloc.InodeAllocator.FreeInode`.
- **Freeing a run across groups counts bits of the bitmap, not blocks of the group**
  (`ext4_balloc.c:287-291`): right exactly if the run lies in one group or groups fill their bitmaps,
  by `BlockAlloc.BlockAllocator.FreeBlocks`; `BlockAlloc.RunAcross` is a run that spoils the counts.
- **The last group counts one block too many when the first data block is 1** (`ext4_super.c:64-74`):
  `BlockGroups.BeyondIff`.
- **A write reports success when blocks ran out or the device failed, and leaves write-back on**
  (`ext4.c:1962-1968`, `ext4.c:2008-2017`): `FileIO.File.Fwrite` says what is written then, and by the
  map and the free blocks before the call exactly when blocks run out and when write-back stays on;
  `FileIO.CutWrite` is such a write.
- **An offset in an unaligned partition is taken to the wrong place** (`ext4_blockdev.c:327-330`):
  `ByteDevice.BlockDev.StartIff`.

## Left out

Contracts that promise less than the code or its design:

- JournalReplay.JbdFs.Recover: block 0, which the code replays as the superblock with its mount state kept, is an ordinary block here; read and write errors and the recover feature flag are not modelled; it asks for a log whose walk ends, as on another one the code does not return.
- JournalReplay.JbdFs.IterateLog: the same for errors and for walks without an end; revoke blocks whose count reaches beyond the block are cut off.
- JournalReplay.JbdFs.ReplayDescriptor: the same for block 0 and for errors.
- JournalReplay.JbdFs.ReplayTag: the same for block 0 and for errors.
- JournalRecovery.ReplayTxsAt: block 0 is an ordinary block.
- JournalRecovery.ThreePassesApplyInOrder: block 0 is an ordinary block.
- JournalCommit.CommitTrans: aborted commits, their rollback and I/O errors are not modelled; a transaction logs a block once and does not revoke what it logs; blocks that it holds and that earlier ones have pending do not begin with the magic number. A buffer that it lets go of on the way may be written back from then on; at which of its log blocks that begins is left open.
- JournalFlush.FlushTrans: asks that blocks to be copied from the log do not begin with the magic number; what becomes of one that does is told by FlushedCopyIff, and not what a session makes of it later.
- JournalFlush.PurgeHead: the same as for FlushTrans.
- JournalFlush.PurgeAll: the same as for FlushTrans.
- JournalRuns.Stop: the same as for FlushTrans.
- JournalStale.OldLogIff: is for sessions from which nothing is gone from the log; afterwards DiskIsConsistent tells by the log as it is.
- JournalJam.CommitAfter: asks that the superblock on disk is up to date; for the other case see CommitTrans.
- DirIndex.Directory.AddEntry: asks that the leaf has room or is more than half full, since the code reads outside of an array otherwise.
- DirIndex.Directory.SplitData: the same.
- DirSplit.SplitRecords: the same.
- BlockAlloc.BlockAllocator.FreeBlocks: the blocks of the run are in use; for one that is not, see FreeBlock.
- InodeBlocks.InodeRef.Append: which free block is taken is left open; the allocator that chooses it is `BlockAlloc`, and `BlockUse` shows that it is one of those this allows.
- FileIO.File.Fread: asks that the file has no hole, as no call of this interface makes one; a hole in whole blocks would be read from block 0 of the device.
- FileIO.File.Fwrite: asks that the file has no hole.
- FileIO.File.Ftruncate: asks that the file has no hole.
- FileIO.File.TruncInode: asks that the file has no hole.
- FileIO.File.ReadBlocks: asks that the file has no hole.
- FileIO.File.WriteBlocks: asks that the file has no hole.
- FileIO.File.Collect: asks that the file has no hole.
- FileIO.File.CollectGrow: asks that the file has no hole.

Not modelled:

- Checksums of the journal and of metadata, 64-bit block numbers, and the order of bytes in a word.
- `jbd_trans_try_revoke_block`, which may leave out a revoke; the blocks to revoke are given.
- The cache evicting buffers while a transaction is flushed home; write-backs happen when a commit takes a buffer, and between operations.
- The bytes of directory entries, the dot entries of the root, types of entries, and directories without an index; hashing is any function with even values.
- `ext4_dir_dx_split_index` releasing a block that was never set, after an error.
- Extents, extended attributes, making a file system, superblock and inode fields, paths, mounting, and the eVFS layers above.
- Permission and open flags, symbolic links; write-back that a failed truncation leaves on.
- Device faults under the block map and the allocators, and failing memory allocation.
- Bitmaps that are not yet initialised, the split of counters into low and high halves, and allocators that begin with counts that do not match.
- The callback of a cached buffer, the references to the device, writes around the cache, and wrap-around of the counter of uses.
- The other side of each fix-up of the red-black tree as text of its own (the side is a variable), walking backwards, and walking while elements are removed.
