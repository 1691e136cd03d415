# CRYEXTS on-disk structures, modelled and proved in Dafny

CRYEXTS is a Linux filesystem with its own journals, extent trees, group allocator, directories, orphan list and
extended attributes. This project models the code that keeps these structures, in the same step-by-step form, and
proves what they promise. `dafny verify dfyconfig.toml` checks everything.

Each structure comes in three layers. A specification file says, as functions on values, what an operation decides,
writes and returns, for arbitrary disk contents wherever the code reads unchecked ones. A class holds the fields the
program updates in place; its methods have the program's loops and branches and are proved to do exactly what the
functions say. Lemmas then prove what the structure is for.

## What is in it

* **Ring redo journal** (`Device`, `RingLayout`, `RingSpec`, `RingLog`, `RingCrash`, `RingCommit`, `RingCheckpoint`,
  `RingRecord`, `RingCorners`, `RingReset`, `RingRecovery`, `RingRuns`, `RingWitness`, `RingJournal`). The disk is a sequence of typed
  blocks and every synchronous block write is one atomic step; the crash images of an operation are the prefixes of its list
  of writes. The abstract state is the image of the home blocks overlaid by the live segments in log order.
  `RingRuns.CrashSafety` is the theorem over whole runs. Its guard is what a caller could evaluate before a commit: one that
  goes through must not wrap the sequence number and needs a walkable placement; one that is refused needs nothing. A mount
  may stop again anywhere, also inside the log reset where that is survived. `RingCorners.RecoverableExactly` shows that the
  placement guard is exact, and `RingWitness` has runs from a new device to both cases it excludes.
* **Undo journal** (`UndoLayout`, `UndoSpec`, `UndoCrash`, `UndoLate`, `UndoSites`, `UndoFlag`, `UndoMount`, `UndoRuns`,
  `UndoJournal`). The block layer keeps, for each block, every value a crash may leave behind: a lazy write adds one, a
  synchronous write and a flush settle it. The crash theorem, `UndoRuns.UndoSafety`, holds for every choice among these
  values, the recovery flag in the superblock included. It is about the blocks that the journal can record and whose
  contents are to come back; all others may change at any time. Changes come behind the record of their block or in front
  of it, as the code makes them.
* **Allocators, extent tree, files** (`Allocator`, `AllocSearch`, `AllocRuns`, `Inodes`, `ExtentSpec`, `ExtentSteps`,
  `ExtentGrow`, `ExtentTree`, `SparseFile`, `SequentialFile`, `File`, `InodeSpec`, `InodeLayout`, `InodeDisk`). One allocator object is shared by everything that owns
  blocks; inodes have one over the same kind of bitmaps and counters. The tree refines a sparse map from logical to physical
  blocks and a set of owned blocks; files are its byte-level meaning; the reserved area of the inode and its leaf blocks are
  modelled byte by byte.
* **Directories** (`DirBlock`, `DirSpec`, `DirContent`, `Directory`, `DirSteps`, `DirRename`, `DirTree`, `DirGraph`,
  `DirRuns`, `RootIndex`, `DirLinks`, `DirFull`). Blocks are 4096 bytes; records are read and written at byte offsets. A
  directory refines a finite map from names to entries. Its bucket index is whatever is read from its block; an exact one
  stays exact, and a name that it does not hide is never hidden later. `DirSteps` and `DirRename` are the operations on
  stored directories with everything that can fail in them; `DirTree` is the graph of `..` links. `DirRuns` ties the two
  together: every run of the first is a run of the second. `DirLinks` keeps the link counts of the graph.
* **Orphan list** (`OrphanList`), **extended attributes** (`XattrSpec`, `Xattr`, `XattrRun`, over the byte codecs in `Bytes`).
* **mkfs and the checker** (`Mkfs`, `NewDevice`, `FsckSpec`, `FsckOwners`, `Fsck`, `FsckKernel`). The initial geometry starts
  the allocator's invariant. The checker's owner marks, recounts and bitmap repairs are specified on bitmaps and counters of
  any kind, and compared with that invariant and with what the kernel accepts.

## What the proofs found

Each of these is a lemma or a method contract that states the exact condition; where a failure needs a particular history,
another one goes through it.

* A ring commit whose new head meets the tail of a non-empty ring makes the ring look empty, and one that wraps while segments
  are live leaves a gap the readers do not skip. A completed commit can be recovered if and only if neither happens
  (`RingCorners.RecoverableExactly`, `ExactFitLosesLog`, `GapLosesTransaction`). On a ring of twelve blocks three transactions
  of four blocks are enough to lose all three, and one checkpoint before the third to get the gap (`RingWitness.ExactFitRun`,
  `GapRun`).
* When replay empties the ring, its sentinel descriptor and commit record can overwrite live segments. A crash right behind
  the first is survived if and only if the control block is idle or no live segment covers the start of the ring
  (`RingCorners.ResetCrashExactly`); one behind the second also if the last block of the ring ends no complete segment, or
  ends the only one and the control block knows of its commit (`RingReset.ResetCommitCrashExactly`). One transaction and two
  stops are enough (`RingWitness.ResetRun`).
* The code changes most metadata blocks before it records them, so the undo journal saves the content behind the change: the
  split of a directory record (`dir.c:621-623`, recorded at `dir.c:682`), extent leaves and the overflow leaf of older inodes
  (`inode.c:478-494`, `inode.c:389-405`), the index of a directory (`dir.c:74-81`), and new directory blocks (`dir.c:665-675`,
  `dir.c:788-809`). Such a change is undone by recovery if and only if the block was recorded before in the same transaction,
  or is never recorded, or keeps its content (`UndoLate.LateRecordExactly`; an input is `UndoSites.LateWitness`).
  `UndoRuns.UndoSafety` covers these changes: they are what recovery brings back in addition to the contents at begin
  (`UndoLate.LateCrash`). For a directory that is split, this is harmless if and only if the slack reads as an empty record
  (`UndoSites.HalfSplitExactly`); after a deleted name whose record was given to a shorter one it does not
  (`UndoSites.StaleName`).
* Replay of the undo journal flushes the restored blocks before it resets the journal. That flush is needed whenever there is
  something to restore (`UndoMount.FlushNeededExactly`).
* Begin and commit write the recovery flag of the superblock lazily, and a mount without the flag does not replay. Wherever
  a crash leaves it clear, the medium holds the image already (`UndoRuns.OpStages`, `RecoveredView`).
* A hole is refused exactly when it would split an extent of a leaf that is full (`ExtentSteps.RefusedExactly`,
  `FullLeafRefuses`). A file punch that is refused this way has already zeroed the partial blocks at both ends
  (`File.File.PunchHole`).
* A new extent that belongs into a full leaf in the middle of the tree is refused although other leaves have room
  (`ExtentTree.ExtentInode.AppendEntry`, `ResolveBlock`). Writing every second block of a file and then one between them is
  enough (`SparseFile.WriteGap`).
* Adding, deleting or renaming a directory entry can fail for lack of space after entries were changed, namely when a
  directory has no index block yet and no block is free (`Directory.Directory.AddEntry`, `DeleteEntry`,
  `DirRename.MoveEntry`). No mounted filesystem gets there: a mount asks for two groups (`super.c:224-227`), so a new one has
  at least 4080 free blocks (`Mkfs.RealHasRoom`), mkdir makes the index before the name, and the root gets its index with its
  first name. In every run from a new filesystem on, an operation that fails has changed the map of no directory, and a rename
  that passes its checks succeeds if and only if there is room for the name (`DirRuns.RunsAllOrNothing`, `RenameExactly`).
* The first name of the root makes its index in a block that nobody clears. What was left there is used if it can be read as
  an index (`dir.c:208-224`); only a failure to read it leads to a rebuild. So behind that name the index is exact if and only
  if the block could not be read, or showed the index of an empty root under the same hash, and a mount accepts the root if
  and only if the block could not be read, or the bits of both dots were set in it or by the name
  (`RootIndex.FirstNameExactly`, `MountExactly`). To format a device with one file in its root again a minute later, and to
  create that file again, is enough for a root that the next mount refuses (`RootIndex.Reformatted`). Every name entered is
  found all the same, directories made by mkdir are not affected, since their index is rebuilt before it is read
  (`DirRuns.RunsAllOrNothing`), and a root that is accepted stays so (`RootIndex.RootStays`).
* A mkdir whose name cannot be entered gives back the block of the new directory, but neither its inode nor the block of its
  index; and it reports success without making anything when no inode is free (`DirSteps.Mkdir`). The first happens when the
  twelve blocks of a directory are full (`DirFull.FailedMkdir`), the second when files were created as long as there were
  inodes, of which a group has 56 (`DirFull.NoInodeLeft`).
* A directory that a rename replaces keeps one of its two links, so that its inode and its blocks stay taken although nothing
  leads to it (`DirLinks.ReplacedStays`, `ReplacedInput`). Of all directories that have a name, the link counts are right in
  every run (`DirLinks.RunsCounted`).
* A user attribute of exactly 65536 bytes, the largest the VFS passes on, is stored empty, because its length is kept in 16
  bits (`XattrSpec.SetStoresExactly`, `XattrRun.SetThenGet`, `LargestRun`).
* The superblock's free count of a new filesystem is the sum of the group counts if and only if the last group has at least
  the six blocks of its own metadata (`Mkfs.CountsAgreeExactly`, `ShortTail`); the checker of groups, bitmaps and counts
  accepts exactly these filesystems (`Fsck.NewPassesExactly`). On the others more blocks are free than the superblock counts,
  and since the allocator goes by the groups that count passes below zero (`Mkfs.CountBelowZero`).
* The checker compares the superblock's free count with the blocks that have no owner, and looks at bitmaps only for marks
  that are missing. It passes if and only if everything needed is marked and the count is the number of clear bits plus the
  number of leaked blocks, less the journal blocks that files own as well (`FsckSpec.CleanExactly`). So lost blocks are always
  found, and leaked ones unless the count still has them as free: a new filesystem passes with every bit of every bitmap set
  (`FsckSpec.LeakUnnoticed`, `Fsck.LeaksPass`). Only when the count equals the clear bits does passing mean that exactly the
  owned blocks are marked (`FsckSpec.CleanIsOwned`).
* Bitmap repair sets bits without touching the group counters, so the allocator's invariant survives it only when nothing was
  missing (`FsckSpec.RepairConsistentExactly`; an input is `Fsck.RepairBreaks`).
* The checker does not look at the first logical block of an extent reference. The kernel opens an inode that the checker
  passed if and only if these agree with the leaves (`FsckKernel.OpensExactly`, `LogicalIgnored`; an input is
  `PassedNotOpened`).

## Model

| member | source | states |
|---|---|---|
| RingLayout.AllocateSafe | journal.c:1597-1637 | On every branch the segment lies inside the ring, never crosses its end, overlaps no live block, and the new head is in the ring |
| RingLayout.AllocateRefusal | journal.c:1606-1632 | A segment is refused exactly when it is not smaller than the ring or fits neither at the head nor at the start of the ring without touching a live block |
| RingLayout.ExactFit | journal.c:1610-1636 | With a non-empty ring the new head meets the tail exactly when the segment takes the last free block before it; an empty ring never ends up looking empty |
| RingLayout.WalkableExact | journal.c:1610-1636 | The guard a caller can evaluate before a commit holds exactly when the segment starts where readers arrive and the new head does not meet the tail |
| RingLayout.FoldedExactly | journal.c:1750-1771 | The checksum of the commit record goes over all payloads in order |
| RingRecord.CapacityIsLargest | journal.c:1243-1249 | A transaction may hold as many blocks as fit into the journal beside control block, descriptor and commit block, and into the descriptor |
| RingRecord.BeginExactly | journal.c:1639-1658 | When a transaction can be opened, with the error of every other case, and that it starts empty with the next sequence number |
| RingRecord.RecordExactly | journal.c:1660-1692 | A block is recorded exactly when the transaction is open without an error, the block lies on the device outside the journal, and is recorded already or has room; every refusal has its exact error, which is remembered and refuses all that follow |
| RingRecord.RecordAllExactly | journal.c:1660-1692 | Any list of blocks, in any order and with repetitions: all of them are recorded if and only if all may be and their number fits, and the first one for which this fails decides the error |
| RingLog.StoredAccepted | journal.c:1450-1523 | Writer and readers agree: a segment that record and commit produced passes every check of the checkpointer and of replay |
| RingLog.JudgedExactly | journal.c:2061-2156 | Over arbitrary contents: replay accepts exactly the segments that record and commit would have stored there, of a transaction younger than the last one |
| RingLog.CheckpointedExactly | journal.c:1450-1523 | So does the checkpointer, given that entries are distinct, which it does not check |
| RingLog.RecoverExactly | journal.c:1981-2058 | Over arbitrary contents: which control blocks end a mount with an error and no write, which end it with nothing to do, and when the log is emptied |
| RingLog.ControlExactly | journal.c:1267-1292 | A control block is accepted exactly when it is one that the journal writes for its ring, with head and tail inside, and the same when nothing is logged |
| RingLog.CopyStored | journal.c:1524-1533 | Copying a stored segment home writes exactly the contents of its transaction |
| RingLog.OverlayRestart | journal.c:2158-2171 | Redoing the logged home writes after any part of them was already done gives the same image |
| RingLog.WalkThrough | journal.c:2060-2176 | Replay goes through a chain of segments performing exactly the logged writes in order and continues at its end |
| RingLog.WalkChain | journal.c:2060-2176 | Replay of a chain, with or without a torn last segment, performs exactly the writes of the complete segments and reports the last sequence number |
| RingCrash.RecoverDurable | journal.c:1981-2176 | Replay of a durable disk succeeds and its home writes produce exactly the committed image |
| RingCrash.ReplayRestart | journal.c:2060-2191 | A crash after any number of home writes of replay leaves the disk durable with the same image, so replay can be restarted any number of times |
| RingCommit.CommitPrepared | journal.c:1780-1795 | Between the PREPARED control block and the commit block the old segments are still what replay recovers; the new one is torn |
| RingCommit.CommitDone | journal.c:1788-1811 | From the commit block on the new segment belongs to the log, before and after the COMMITTED control block |
| RingCommit.CommitCrash | journal.c:1694-1812 | A crash after any number of the writes of a commit: the old image before the commit block, the old image with the whole transaction from then on, never a part of it |
| RingCheckpoint.CheckpointDone | journal.c:1412-1563 | A checkpoint removes the oldest segment from the log without changing the logical image |
| RingCheckpoint.CheckpointCrash | journal.c:1484-1563 | A crash after any number of the writes of a checkpoint leaves the same image durable |
| RingCheckpoint.CheckpointExactly | journal.c:1412-1533 | Over arbitrary contents: a checkpoint of distinct blocks goes through exactly when the oldest segment is one that record and commit would have stored there, younger than the last one; otherwise the fields stay and nothing but the control block is written |
| RingCheckpoint.FlagLast | journal.c:1536-1563 | The recovery flag of the superblock is taken back exactly by the checkpoint that empties the ring, and with the writes in front of that one the image is in the home blocks |
| RingCheckpoint.DrainSafe | journal.c:1575-1587 | A drain terminates with head equal to tail and the logical image in the home blocks, and a crash between any two of its writes loses nothing |
| RingCheckpoint.ReplayDone | journal.c:1981-2199 | A completed replay leaves an empty log, the image in the home blocks and the last committed sequence number in memory |
| RingCheckpoint.ReplayMarks | journal.c:2177-2199 | A mount that finds the flag set or the log not idle takes the flag back, with the image in the home blocks and in front of the reset; any other mount writes nothing |
| RingCorners.ExactFitLosesLog | journal.c:1622-1634 | When the new head meets the tail of a non-empty ring, replay applies nothing at all and still reports success |
| RingCorners.GapLosesTransaction | journal.c:1624-1630 | When the segment went to the start of the ring while older ones are live, replay applies the older ones and never this one |
| RingCorners.RecoverableExactly | journal.c:1597-1637 | Replay after a completed commit succeeds and applies all live transactions and the new one if and only if the placement was walkable |
| RingCorners.ResetCrashExactly | journal.c:1924-1947 | After a crash right behind the sentinel descriptor of the log reset, the next mount recovers the image if and only if the control block is idle or no live segment covers the start of the ring |
| RingReset.SentinelsPaired | journal.c:1924-1947 | The blocks of the log reset belong together: empty descriptor and commit record at both ends of the ring name each other, and the idle control block names them and the area between |
| RingReset.ResetCommitCrashExactly | journal.c:1924-1947 | After a crash behind the sentinel commit record, the next mount recovers the image if and only if the control block is idle, or the sentinels overwrote no complete segment, or only the single one whose commit the control block knows |
| RingRecovery.StoppedDurable | journal.c:1924-2199 | A mount that stops after any of its writes, inside the log reset under the exact conditions, leaves the image durable |
| RingRuns.TransactExactly | journal.c:1639-1812 | A transaction goes through if and only if every block may be logged, with the superblock they are no more than a segment holds, and the ring has room; otherwise nothing is written, the fields are as before, and the error is that of the first block that failed |
| RingWitness.ExactFitRun | journal.c:1622-1634 | On a new ring of twelve blocks, three commits succeed and the next mount finds nothing of them |
| RingWitness.GapRun | journal.c:1624-1630 | A run with one checkpoint in which a commit succeeds and replay brings back the content before it |
| RingWitness.ResetRun | journal.c:1924-1947 | One transaction and a stop in the log reset make the next mount report corruption |
| RingRuns.OpCrash | journal.c:1639-1904 | One operation with its guard, also a commit that is refused: a crash after any number of its writes leaves the old image before its commit point and the new one after it |
| RingRuns.OpDone | journal.c:1639-1904 | One operation run to its end keeps the invariant. A transaction that goes through has given every block it recorded, and the superblock, the content of the buffer cache and changed nothing else of the image; any other operation has not changed it |
| RingRuns.StepSafe | journal.c:1639-2199 | One event, completed or cut off by a crash with any number of interrupted replays, which may stop between any two of their writes, inside the log reset only where that is survived: the mount succeeds and the image holds the whole transaction or nothing of it |
| RingRuns.FormattedMounts | tools/mkfs.cryexts.c:243-271 | A disk as mkfs leaves it mounts, and a run starts with what its home blocks hold |
| RingRuns.CrashSafety | journal.c:1639-2199 | Main theorem: in every guarded run of transactions, aborts and checkpoints with crashes between any two block writes, also of the mounts, every mount succeeds and the image is the initial one with exactly the transactions whose commit block was written, each with all the blocks that were given to it, whole and in order |
| RingJournal.Journal.Begin | journal.c:1639-1658 | Opens a transaction or refuses, as the specification of begin says, in place |
| RingJournal.Journal.RecordBlock | journal.c:1660-1692 | Records a block once, refuses internal ones and overflow, and remembers the error |
| RingJournal.Journal.WritePayloads | journal.c:1750-1771 | Writes the payloads in order and returns the entries and the folded checksum of exactly these payloads |
| RingJournal.Journal.Commit | journal.c:1694-1812 | Error, new fields and the exact list of synchronous writes are those of the commit whose crash safety is proved |
| RingJournal.Journal.Abort | journal.c:1906-1913 | Clears the open transaction and writes nothing |
| RingJournal.Journal.VerifyPayloads | journal.c:1500-1523 | Accepts a segment exactly when every entry, every payload checksum and the folded checksum agree |
| RingJournal.Journal.CheckpointOne | journal.c:1412-1563 | Error, new fields and writes are those of the specified checkpoint |
| RingJournal.Journal.CheckpointSync | journal.c:1575-1587 | The loop terminates on every disk and does what repeated checkpoints specify |
| RingJournal.Journal.JudgeSegment | journal.c:2061-2156 | The verdict on a segment, over arbitrary disk contents, is the specified one |
| RingJournal.Journal.WalkRing | journal.c:2060-2176 | The walk terminates on every disk and performs the specified home writes |
| RingJournal.Journal.Replay | journal.c:1981-2199 | Error, new fields and writes are those of the replay whose restart and result are proved |
| RingJournal.Journal.ResetDisk | journal.c:1915-1979 | Writes sentinel descriptor, sentinel commit and idle control block, in this order |
| UndoCrash.ReplayRestores | journal.c:742-857 | Replay accepts every medium the protocol can leave, and afterwards programs read exactly the image |
| UndoSpec.CapacityIsLargest | journal.c:94-100 | A transaction may hold as many before-images as fit into the journal and into the descriptor |
| UndoSpec.RecordExactly | journal.c:617-702 | A block is recorded exactly when it is a data block outside the journal and is recorded already or has room, with the exact error of every other case; it is saved exactly once |
| UndoSpec.ResetExactly | journal.c:500-545 | The blocks that turn the journal idle are valid where they have to be, agree on the sequence number, and ask for nothing to be restored |
| UndoSpec.RestoresExactly | journal.c:742-834 | Over arbitrary contents: before-images are restored exactly when descriptor and commit block are those of the transaction that the control block names, and count no more blocks than are listed |
| UndoSpec.RestoresInOrder | journal.c:836-857 | The restores go through the list in order, each block with its own before-image, and stop at the first block that may not be recorded |
| UndoSpec.ReplayExactly | journal.c:742-877 | When replay fails, when it restores, and the sequence number it goes on with, over arbitrary contents |
| UndoSpec.FailureKeepsJournal | journal.c:836-877 | A replay that fails has put back the blocks in front of the one that may not be recorded and leaves journal and recovery flag alone |
| UndoCrash.RestoreRestart | journal.c:836-857 | A crash after any number of restores, whichever of them reached the medium, still leads back to the same image |
| UndoCrash.BeginStages | journal.c:547-615 | From the first write of begin on an empty transaction is open, and stale descriptor or commit records are not applied |
| UndoCrash.RecordStages | journal.c:617-702 | Whatever number of the writes of a record is on the medium, the image at begin can be restored; after the last one the block may be changed, if its content at begin was saved |
| UndoCrash.HomeWrite | journal.c:617-702 | Changing a recorded block lazily, or one whose content need not come back, keeps the transaction undoable |
| UndoCrash.CommitStages | journal.c:704-728 | Until the idle control block is written the image at begin can be restored; from that write on the new contents are final |
| UndoLate.LateCrash | inode.c:478-494 | A block changed in front of its record, cut off anywhere: recovery brings back what the medium holds of it until the record is complete, and the change from then on |
| UndoLate.LateStages | dir.c:74-81 | Every prefix of a late change leads to that image, and behind it a transaction over the changed image is open |
| UndoLate.LateRecordExactly | dir.c:621-682 | Every crash behind a late change leads back to the contents at begin if and only if the block was recorded before, or need not come back, or did not change; also when the journal is full |
| UndoSites.LeafUndoneExactly | inode.c:478-494 | A crash brings back the extents a leaf had at begin if and only if the leaf was recorded before in the transaction, or they did not change |
| UndoSites.IndexUndoneExactly | dir.c:61-87 | The same for the index block of a directory |
| UndoSites.SplitUndoneExactly | dir.c:617-682 | A split in a block not yet recorded is not undone by some crash, and what comes back has the entries of before if and only if the slack reads as an empty record |
| UndoSites.HalfSplitExactly | dir.c:617-626 | The block in the middle of a split holds the same entries if and only if the bytes behind the old name read as an empty record |
| UndoSites.StaleName | dir.c:592-732 | After a long name was deleted and a shorter one took its record, the block in the middle of the next split does not hold the same entries |
| UndoSites.LateWitness | journal.c:617-702 | On a device of six blocks a late change is not undone, and the same change behind its record is |
| UndoMount.MountDone | journal.c:742-877 | A completed replay leaves the idle state with exactly the image |
| UndoMount.MountCrash | journal.c:742-877 | A crash anywhere in a replay, whatever lazy writes got through, leads back to the same image, so an interrupted replay can be rerun |
| UndoMount.FlushNeededExactly | journal.c:856-867 | Without the flush between the restores and the idle control block, every crash behind the reset would lead back to the image if and only if there was nothing to restore |
| UndoFlag.Closing | journal.c:156-171 | While the recovery flag is taken back behind a list of writes, no crash shows it clear before they are done |
| UndoFlag.EmptyMedium | journal.c:547-615 | A crash in begin, which may leave the flag clear, leaves a medium that holds the image and whose old records no later transaction takes for its own |
| UndoMount.MountStages | journal.c:2660-2681 | A mount cut off anywhere, whatever lazy writes got through, leaves a medium that the next mount brings to the same image; where that shows a clear flag, it holds the image already |
| UndoMount.MountEnds | journal.c:2660-2681 | A completed mount, with or without a replay, leaves the idle state with exactly the image and a clear flag |
| UndoRuns.OpSafe | journal.c:547-728 | Every prefix of every operation, also of a change in front of its record, leaves a medium that a replay brings to the right image |
| UndoRuns.OpStages | journal.c:547-728 | The same with the writes of the superblock in between: a mount, which replays only when it finds the flag set, brings every crash to the right image, and an operation that is done leaves the flag set exactly while a transaction is open |
| UndoRuns.UndoSafety | journal.c:547-877 | Main theorem: in every run with crashes, also of mounts, whatever lazy writes got through, that of the recovery flag included, recovery brings back the contents at begin with exactly the changes made in front of the record of their block, or the new contents once the idle control block was written |
| UndoRuns.RecoveredView | journal.c:2660-2681 | After a crash in any state of such a run and a mount, programs read exactly the image; the flag is found set exactly when a transaction was open, and a medium that shows it clear holds the image |
| UndoJournal.Journal.Begin | journal.c:547-615 | Performs exactly the specified writes of begin, those of the superblock included, and raises the sequence number |
| UndoJournal.Journal.RecordBlock | journal.c:617-702 | Error, writes and recorded list are the specified ones: payload before descriptor before commit |
| UndoJournal.Journal.Commit | journal.c:704-728 | Flushes everything before the three writes that turn the journal idle, then takes the flag back and flushes once more |
| UndoJournal.Journal.Replay | journal.c:742-877 | Over arbitrary contents: error, restores, reset and the writes of the superblock are the specified ones |
| UndoJournal.Journal.Mount | journal.c:2660-2681 | Replays exactly when the recovery flag is set, and goes on with the sequence number of the superblock otherwise |
| Allocator.MarkConsistent | balloc.c:300-312 | Setting a free bit and counting it down keeps every counter equal to its clear bits |
| Allocator.BitUse | balloc.c:208-226 | Changing one bit changes the use of exactly its block |
| Allocator.NoFreeBlocks | balloc.c:468-546 | The superblock counter is zero exactly when no group has a free block, and then every data block is in use |
| Allocator.UseDetermines | balloc.c:553-591 | The set of used blocks decides every bit that can be handed out and all counters, so freeing what was allocated restores both |
| Allocator.ChosenSame | balloc.c:468-546 | So does every later search: it takes the same block on any two states with the same blocks in use |
| Allocator.TwoScans | balloc.c:284-312 | The two scans of a group find nothing exactly when its counter is zero, and otherwise a clear bit that may be handed out |
| Allocator.HintChosen | balloc.c:284-300 | A free hint is the block that is taken |
| AllocSearch.SearchExactly | balloc.c:468-546 | As long as any block is free, the one that is taken is in the first group with a free block, round from the one the goal asks for, and there the first one behind the hint, or else the first one of all |
| AllocSearch.GoalChosen | balloc.c:490-523 | With preallocation a free goal block is taken unless another group is asked for, the group asked for is used as long as it has a free block, and then the block behind the last one taken if it is free; without it that block is taken |
| Allocator.Allocator.AllocInGroup | balloc.c:264-320 | Succeeds exactly when the group has a free block; takes the first free one from the hint on, else the first free one of the group, and nothing else |
| Allocator.Allocator.AllocBlockGoal | balloc.c:468-546 | Hands out a data block that was not in use, keeps all counters exact, and fails exactly when no data block is free, whatever goal and hint are; which block it is follows from the state, and the next search without a goal starts behind it |
| Allocator.Allocator.FreeBlock | balloc.c:553-591 | Removes exactly the block from the used ones and counts it once; freeing a free block changes nothing |
| Inodes.InodeBit | balloc.c:228-262 | Every inode but the root has a bit that can be handed out, and no other bit is |
| Inodes.Inodes.AllocInodeInGroup | balloc.c:228-262 | Takes the first free inode of a group, and fails exactly when its counter is zero |
| Inodes.Inodes.AllocInodeGoal | balloc.c:371-416 | Hands out the first free inode of the first group with one from the goal on, keeps all counters exact, and fails exactly when none is free |
| Inodes.Inodes.FreeInode | balloc.c:423-466 | Frees exactly the inode and counts it once; an inode out of range is refused |
| NewDevice.InodesConsistent | tools/mkfs.cryexts.c:813-940 | Inode bitmaps and counters of a new filesystem satisfy the invariant of that allocator |
| AllocRuns.RunsKeep | balloc.c:468-591 | In every run of allocations and frees the used blocks are those kept and those held; nobody gets a block that is kept or held by another, and nothing is lost |
| AllocRuns.JournalUntouched | tools/mkfs.cryexts.c:847-940 | From a new filesystem on, no run of allocations and frees ever reaches a journal block |
| ExtentSpec.PunchSorted | inode.c:1660-1745 | Punching keeps extents sorted, non-empty and disjoint |
| ExtentSpec.PunchResolves | inode.c:1647-1759 | The map after punching is the old map without the hole |
| ExtentSpec.FreedIsMapped | inode.c:1690-1730 | The freed blocks are exactly those the logical blocks of the hole were mapped to |
| ExtentSpec.PunchTree | inode.c:1647-1759 | The tree stays well formed, its map loses exactly the hole, and it gives up exactly the hole's blocks and those of emptied leaves |
| ExtentSpec.PunchTwice | inode.c:1428-1496 | Cutting a list at one block and then at another is cutting it at the smaller one |
| ExtentSpec.InsertResolves | inode.c:574-648 | Inserting a one-block extent adds exactly its mapping |
| ExtentSpec.BlockCountIsOwned | inode.c:1130-1152 | Mapped blocks and leaves together are the number of bitmap bits the tree owns |
| ExtentSpec.TreeHolds | cryexts_fs.h:366-368 | No well-formed tree maps more blocks than a file may have |
| ExtentSteps.TruncateTree | inode.c:1428-1496 | Truncation leaves a well-formed tree that maps exactly what was mapped below the limit |
| ExtentSteps.TruncateTwice | inode.c:1428-1496 | Truncating twice is truncating once to the smaller size |
| ExtentSteps.RefusedExactly | inode.c:650-686 | A hole is refused exactly when it would split an extent of a full leaf |
| ExtentSteps.FullLeafRefuses | inode.c:650-686 | A full leaf whose first extent is cut in the middle: the hole is refused |
| ExtentSteps.PunchOutcome | inode.c:1647-1759 | The whole outcome of a hole that is not refused, also of an empty one |
| ExtentGrow.GrowInsert | inode.c:574-648 | A new extent put into a leaf between its neighbours keeps the tree and adds exactly one mapping and one owned block |
| ExtentGrow.GrowLeaf | inode.c:501-527 | A new leaf behind all others does the same and owns its own block as well |
| ExtentGrow.GrowLast | inode.c:755-800 | Making the last extent one block longer adds exactly the mapping behind it |
| ExtentGrow.RoomExactly | inode.c:574-648 | Where a new extent has room: in the leaf it belongs into, if that holds fewer than 170, or in a new leaf behind a full last one, if there are fewer than four and a block is free |
| ExtentTree.ExtentInode.PunchExtent | inode.c:1660-1745 | Splits, removes or shortens one extent in place and frees exactly the blocks in the hole |
| ExtentTree.ExtentInode.PunchHoleBlocks | inode.c:1647-1759 | Exactly the hole leaves the map, exactly its blocks and emptied leaves are freed, or the hole is refused with nothing changed; both loops terminate |
| ExtentTree.ExtentInode.FreeBlocksFrom | inode.c:1428-1496 | Restricts the map to the blocks below the limit and frees exactly the rest and emptied leaves |
| ExtentTree.ExtentInode.BlockCount | inode.c:1130-1152 | Returns the number of blocks the tree owns in the bitmap |
| ExtentTree.ExtentInode.EntryAt | inode.c:282-304 | Finds leaf and place of the extent with a given number |
| ExtentTree.ExtentInode.Lookup | inode.c:1274-1297 | The scan is lookup in the map |
| ExtentTree.ExtentInode.AllocDataBlock | inode.c:182-224 | Hands out a free block, the one the allocator picks for the next block of the reservation window or for the hint, failing only when none is free; a block of the window in the group where the file goes on keeps the window, any other one starts a new one, of 64 blocks or what is left of its group |
| ExtentTree.ExtentInode.UpdateAllocHint | inode.c:107-123 | The next search starts behind a block and in its group; a block outside the reservation window drops the window |
| ExtentTree.ExtentInode.TryMergeLast | inode.c:755-800 | Merges exactly when the file goes on behind the last extent and the allocator picks the block behind it; then the last extent is one block longer and nothing else changed, otherwise tree and bitmap are as before |
| ExtentTree.ExtentInode.FindSlot | inode.c:585-600 | Finds the first extent that starts behind a logical block |
| ExtentTree.ExtentInode.AppendEntry | inode.c:574-648 | Inserts in order exactly when there is room where the extent belongs; a new leaf takes the block the allocator picks for the hint; otherwise nothing changes |
| ExtentTree.ExtentInode.ResolveBlock | inode.c:1261-1330 | A mapped block is returned unchanged, an unmapped one gets a fresh block and all other mappings stay: the block behind the last extent, which grows, when it merges, and otherwise an extent of its own, at the block the allocator picks, which goes on behind the one it picked in vain for the merge; it fails if and only if no block is free, or the last extent cannot be made longer and there is no room where the extent belongs, and then map and used blocks are as before |
| SparseFile.WriteGap | inode.c:1261-1330 | On any new filesystem: every second block of a file is written, and then one between them is refused although blocks and leaves are free |
| SequentialFile.MergesWhenFree | inode.c:755-800 | With preallocation, a file goes on in the block behind its last extent whenever that is free |
| SequentialFile.WriteOn | inode.c:1261-1330 | Any number of blocks written one after the other onto free space: the file takes exactly the blocks behind its last extent, which grows, and no extent and no leaf is added |
| DirBlock.RecordReadsBack | cryexts_fs.h:446-460 | A record stored in a block reads back field by field |
| DirBlock.RecordLayout | cryexts_fs.h:446-452 | Which bytes of a block a stored record sets, and that it sets no others |
| DirBlock.ValidExactly | dir.c:316-340 | Every reader accepts exactly the records that lie in the block, are a multiple of four, as long as their names need, and name no inode beyond the last one nor an unknown type |
| DirBlock.LiveSplit | dir.c:342-426 | The entries of a tiled block are those before and those from any record on |
| DirSpec.Replace | dir.c:601-629 | Replacing one record by records that tile the same bytes changes only its own entries |
| DirSpec.SplitLive | dir.c:617-626 | Splitting the slack of a record keeps the tiling and adds exactly the new entry |
| DirSpec.IndexAfterAdd | dir.c:216-224 | Adding to an index of any content makes it exact if and only if it agreed with the directory but for the bit of the new name; so an exact one stays exact, bit and count, in an old block and in a new one |
| DirSpec.MarksAfterAdd | dir.c:216-224 | Which names the index marks then: those it marked, and the others whose only missing bit was that of the new name |
| DirSpec.MarksNew | dir.c:216-224 | The new name is marked, whatever the index held |
| DirSpec.IndexAfterRemove | dir.c:231-296 | Removing keeps an exact index exact, and every name marked that was: the bit goes exactly when no other name of the bucket is left in the block |
| DirSpec.IndexStays | dir.c:816-838 | An index is as good for the same names with other inodes |
| DirSpec.ScanFinds | dir.c:506-567 | A search through a mask that covers the name is lookup in the list of entries |
| DirSpec.IndexedSearch | dir.c:520-534 | Of a name that the index marks, indexed lookup returns what the linear scan returns |
| DirContent.PlacedInDir | dir.c:592-632 | Placing an entry adds only its name to the map and keeps every block tiled |
| DirContent.AppendedToDir | dir.c:634-679 | A new block does the same |
| DirContent.RemovedFromDir | dir.c:705-734 | Erasing a record removes only its name |
| DirContent.RedirectedInDir | dir.c:816-838 | Redirecting an entry changes only where that name leads |
| DirContent.AddedToIndex | dir.c:216-224 | Entering a name into an index of any content hides no name, shows the new one, and gives an exact index exactly when it agreed before |
| DirContent.RemovedFromIndex | dir.c:274-293 | Taking a name out hides no name and keeps an exact index exact |
| DirContent.EntriesBound | dir.c:592-632 | A directory holds fewer than 4098 entries, so their count in 32 bits does not wrap |
| DirContent.SearchIsFind | dir.c:506-567 | The search for a name that the index does not hide is lookup in the map |
| DirContent.RoomExactly | dir.c:592-632 | A name has a slot exactly when some record of some block has as many bytes to give away, all of them when it is free, as the record of the name takes |
| DirContent.InitDirOk | dir.c:780-814 | A new directory is in order and maps exactly `.` and `..` |
| Directory.Directory.FindEntry | dir.c:506-567 | Over arbitrary contents the walk ends with the first match, absence, or the first bad record |
| Directory.Directory.FindSlot | dir.c:592-632 | Finds a record with room exactly when some block has one |
| Directory.Directory.IndexRebuild | dir.c:118-192 | Builds an exact index from all records, and fails exactly when its block cannot be allocated |
| Directory.Directory.IndexEnsure | dir.c:89-116 | Takes a block for the index if there is none, fails exactly when none is free, and from then on reads whatever that block shows |
| Directory.Directory.IndexAddName | dir.c:194-229 | Shows the new name and hides no other, keeps an exact index exact, enters just this name into an index that can be read, and rebuilds any other; a first index is what its block showed with the new name in it |
| Directory.Directory.IndexRemoveName | dir.c:231-296 | Hides no name, keeps an exact index exact, takes the block out of the bucket of the name exactly when it holds no other name of that bucket, and rebuilds an index that cannot be read |
| Directory.Directory.BucketInBlock | dir.c:231-296 | Tells exactly whether a block still holds a name of the bucket |
| Directory.Directory.AddEntry | dir.c:569-703 | Adds only an absent name, exactly when there is room, and gives the exact error otherwise, also the late one of the index, which depends on what was free before; the index as in the row of IndexAddName |
| Directory.Directory.DeleteEntry | dir.c:705-734 | Removes exactly the name, or reports that it is absent; the index as in the row of IndexRemoveName |
| Directory.Directory.UpdateParent | dir.c:816-838 | Only `..` changes |
| Directory.Directory.ParentIno | dir.c:840-859 | Returns the inode that `..` leads to in the map, or says that there is none |
| Directory.Directory.IsEmpty | dir.c:736-778 | True exactly when there is nothing but `.` and `..` |
| Directory.Directory.Release | inode.c:1579-1595 | Gives back exactly the blocks of the directory, that of the index included, each counted once |
| Directory.Directory.ValidateDirBlock | dir.c:342-426 | Over arbitrary contents: accepts exactly a directory whose blocks are tiled by valid records, whose index has the right size and the bit of every name, and that has both dots |
| Directory.Directory.CheckedExactly | dir.c:342-426 | That check accepts a directory in order exactly when its index hides no name |
| DirSteps.Link | dir.c:569-703 | Entering a name: exactly when there is room, with the blocks it takes and every error |
| DirSteps.Create | dir.c:986-1018 | Takes a free inode and enters its name, or says that there is none; a file that cannot be entered leaves the directory as it was and its inode taken |
| DirSteps.Unlink | dir.c:1100-1120 | Taking a name out: exactly that name, its record is free afterwards, and every error |
| DirSteps.Rmdir | dir.c:1152-1197 | A directory with entries is refused and nothing changes; otherwise exactly its name goes, and then its blocks, that of the index included, and its inode are free |
| DirSteps.Mkdir | dir.c:1022-1098 | The new directory with its index and its name, or exactly what each failure leaves: nothing, or a lost block and inode; success without a directory exactly when a block but no inode is free; what the block of the new index showed does not matter |
| DirRename.EnterTarget | dir.c:1286-1302 | Sets the name to the new entry, or fails with exactly the map each failure leaves |
| DirRename.RestoreTarget | dir.c:1311-1373 | The rollback of the target brings back its map |
| DirRename.MoveEntry | dir.c:1280-1376 | A rename into another directory succeeds if and only if there is room for the name and a free block for each missing index block; otherwise the maps of all directories are the stated ones, which are those of before when there was no room |
| DirRename.RenameEntry | dir.c:1280-1376 | A rename inside one directory succeeds if and only if the new name can be entered; then exactly the old name is gone and the new one leads to its inode |
| DirGraph.MovedIsRenamed | dir.c:1280-1320 | A rename of stored directories that succeeds is the rename of the graph |
| DirGraph.ViewEmpty | dir.c:736-778 | A stored directory with nothing but the two dots is one without entries in the graph |
| DirSteps.NewDirectory | dir.c:780-814 | A new directory holds the two dots and has an exact index, whatever the block of that showed |
| DirRuns.EnterGood | dir.c:986-1018 | In a volume in order, a name that is not in use is entered if and only if there is room, and a failure changes nothing |
| DirRuns.RemoveGood | dir.c:1100-1120 | In a volume in order, taking out a name never fails |
| DirRuns.MakeGood | dir.c:1022-1098 | In a volume in order with a free inode, a directory is made if and only if its blocks and its name have room; without one nothing is made, and that succeeds if and only if a block is free; otherwise no map changes |
| DirRuns.RemoveDirGood | dir.c:1152-1197 | In a volume in order, a directory is removed if and only if it is empty, and then exactly its blocks and its inode are free again |
| DirRuns.RenameExactly | dir.c:1199-1381 | In a volume in order, a rename with both names in range, without a cycle, and onto a free name, a file for a file or an empty directory for a directory, succeeds if and only if there is room for the name; otherwise every map is as before |
| DirRuns.StepGood | dir.c:986-1422 | Each operation on stored directories is the operation of the graph, keeps every directory but a new root indexed, and makes no index worse |
| DirRuns.RunsAllOrNothing | dir.c:986-1422 | Main theorem: in every run from a new filesystem on, whatever the block of the root's index shows, the stored directories are a tree with entries and `..` links that agree, every name is found through the index, which is exact in all directories but the root, each operation is that of the graph, and one that fails has changed the map of no directory |
| RootIndex.FirstNameExactly | dir.c:194-229 | Behind its first name, the index of a new root is exact if and only if its block could not be read or showed that of an empty root, and every name is found through it if and only if the block could not be read or both dots are marked in it or by the name |
| RootIndex.MountExactly | dir.c:342-426 | The check of a mount accepts an indexed directory in order if and only if every name is found through its index |
| RootIndex.RootStays | dir.c:194-296 | In every run from a new filesystem on, a root whose names are all found stays so, and an exact index of the root stays exact |
| RootIndex.Reformatted | dir.c:194-229 | On any new filesystem that was one with a file in its root a minute before: the same file is created, the index takes its old block, and the check of a mount refuses the root |
| DirFull.Fill | dir.c:569-703 | Names of the largest length are entered until none has room, and all their blocks are accounted for |
| DirFull.FailedMkdir | dir.c:1022-1098 | On any new filesystem with a full root directory: mkdir fails, the root is as before, and a block and an inode are lost |
| DirFull.NoInodeLeft | dir.c:1022-1098 | On any new filesystem, when files were created as long as there were inodes: mkdir succeeds and has made nothing |
| DirTree.ClimbAnswers | dir.c:861-907 | On a tree the depth bound always suffices, and the answer is yes exactly when the ancestor is on the way up |
| DirTree.ClimbMeans | dir.c:861-907 | On any graph: which way up leads to each answer, and when the climb gives up |
| DirTree.MoveExactly | dir.c:1303-1317 | Moving a directory keeps the graph a tree exactly when it is not above its new parent |
| DirTree.RenamedFacts | dir.c:1206-1381 | A rename changes exactly the named entries and the `..` link of a directory that gets a new parent |
| DirTree.RenameKeeps | dir.c:1206-1381 | A rename that is not refused keeps the tree and the agreement of entries and links |
| DirTree.RenameRefusedExactly | dir.c:1232-1285 | Every outcome of the checks of a rename, each with its exact condition on names, kinds, entries and the way up; it passes if and only if the name is there, both names are in range, no cycle results, and the new name is free with room or stands for an object of the same kind that is a file or an empty directory |
| DirTree.CycleExactly | dir.c:1250-1256 | A directory is above its new parent exactly when moving it there would break the tree, and the climb finds that out |
| DirTree.MkdirExactly | dir.c:1022-1098 | When a directory is made, with every error, and that the graph has exactly the new directory and its entry more |
| DirTree.RmdirExactly | dir.c:1152-1197 | A directory is removed exactly when nothing is entered in it, and then it and its entry are all that is gone |
| DirTree.MkdirKeeps | dir.c:1022-1098 | A new directory keeps tree and links |
| DirTree.RmdirKeeps | dir.c:1152-1197 | Removing an empty directory keeps tree and links; a directory with entries stays |
| DirTree.RenameOrder | dir.c:1286-1320 | The order of the updates in a rename does not matter for its result |
| DirTree.RunsKeepTree | dir.c:986-1422 | Over every run of mkdir, rmdir, rename, link and unlink every directory reaches the root |
| DirLinks.StepCounted | dir.c:1022-1345 | Each operation keeps the link count of every directory at two and its number of subdirectories |
| DirLinks.RunsCounted | dir.c:1022-1345 | So does every run |
| DirLinks.ReplacedStays | dir.c:1328-1346 | A directory that a rename replaces is left with one link and leaves the graph, so it is not released |
| DirLinks.ReplacedInput | dir.c:1328-1346 | Two empty directories in the root, one renamed to the other |
| DirTree.Namespace.HasAncestor | dir.c:861-907 | The climb ends on any graph with the specified answer |
| DirTree.Namespace.Mkdir | dir.c:1022-1098 | Error and graph are those of the specified operation |
| DirTree.Namespace.Rmdir | dir.c:1152-1197 | Error and graph are those of the specified operation |
| DirTree.Namespace.Rename | dir.c:1199-1381 | Error and graph are those of the specified operation; a refused rename changes nothing |
| OrphanList.SetPrepends | journal.c:1072-1123 | An absent inode is put in front of the list; one that is there changes nothing |
| OrphanList.ClearRemoves | journal.c:1125-1191 | Clearing removes exactly the inode and keeps the order of the rest |
| OrphanList.SetThenClear | journal.c:1072-1191 | Set and then clear of an absent inode restores the list |
| OrphanList.SetMeans | journal.c:1072-1123 | On any pointers, cyclic ones included: when entering fails, when it changes nothing, and what it changes otherwise |
| OrphanList.ClearMeans | journal.c:1125-1191 | The same for taking out |
| OrphanList.Orphans.Set | journal.c:1072-1123 | Over arbitrary pointers the walk ends with the specified result |
| OrphanList.Orphans.Clear | journal.c:1125-1191 | Over arbitrary pointers the walk ends with the specified result |
| OrphanList.Orphans.Cleanup | journal.c:1193-1241 | Releases the members in order, up to the first one that cannot be released, and leaves the rest as the list; succeeds exactly when there is no such member; on arbitrary pointers it still ends |
| XattrSpec.ParseUndoesPack | xattr.c:47-196 | Parsing a packed block gives back the items and the overflow pointer |
| XattrSpec.PackUndoesParse | xattr.c:47-110 | A block that parses is, up to its used bytes, the packing of what it parses to |
| XattrSpec.ParsedExactly | xattr.c:47-110 | Over arbitrary bytes: exactly the blocks whose used bytes are the packing of some list are accepted, and read as that list |
| XattrSpec.LoadedExactly | xattr.c:112-152 | Over arbitrary contents: a list is loaded exactly when root and overflow block spell it, in that order; the exact condition of EIO, and EUCLEAN in every other case |
| XattrSpec.GreedyIsLongest | xattr.c:252-261 | The first block takes the longest front of the list that fits |
| XattrSpec.StorableExactly | xattr.c:252-287 | A list can be stored if and only if there is any place at which it can be split over the two blocks; the greedy split finds one |
| XattrSpec.SplitLoads | xattr.c:112-152 | The split over root and overflow block loses and reorders nothing |
| XattrSpec.SetIsUpdate | xattr.c:481-523 | Setting, replacing or removing changes exactly one attribute of the map |
| XattrSpec.SetExactly | xattr.c:481-516 | When an edit is made, and the exact condition of each refusal, which leaves the list as it is |
| XattrSpec.SetStoresExactly | xattr.c:496-523 | What is set can be read back if and only if the value is shorter than 65536 bytes; a value of that length is stored empty |
| XattrSpec.LargestValue | xattr.c:496-523 | Setting a value of 65536 bytes succeeds and reads back empty |
| XattrRun.SetThenGet | xattr.c:440-553 | What is read back from disk after a successful set is what was set if and only if it is shorter than 65536 bytes |
| XattrRun.LargestRun | xattr.c:440-553 | On any new filesystem, a value of that length is set and an empty one is read back |
| Xattr.Pack | xattr.c:160-196 | The buffer holds the packed items, or the error says exactly that they do not fit |
| Xattr.Parse | xattr.c:47-110 | Over arbitrary bytes the loop returns the specified items or error |
| Xattr.XattrInode.Load | xattr.c:112-152 | Reads root and overflow block as specified, over arbitrary disk contents |
| Xattr.XattrInode.FreeStorage | xattr.c:634-666 | Frees exactly the attribute blocks |
| Xattr.XattrInode.PackBoth | xattr.c:252-287 | The greedy split, packed into both blocks, or a refusal exactly when the rest does not fit |
| Xattr.XattrInode.Prepare | xattr.c:198-287 | Allocates exactly the missing blocks; when the list cannot be stored everything is as before |
| Xattr.XattrInode.Write | xattr.c:198-322 | Load after a successful write returns the same list; a list that does not fit is refused before any block is written; owned blocks stay exact |
| Xattr.XattrInode.Set | xattr.c:440-553 | Loading after a successful set gives the edited list; it fails exactly when the name is empty or too long, the load or the edit fails, or the list cannot be stored, each with its error, and then nothing changes |
| File.HoleParts | file.c:479-521 | Head part, full blocks and tail part of a hole are exactly its bytes |
| File.FullBlocks | file.c:516-521 | The blocks that are given back are exactly those that lie in the hole as a whole |
| File.ResolveInjective | inode.c:1261-1297 | No two logical blocks share a physical one |
| File.File.FillPage | file.c:104-127 | Every byte of a page is the file's byte; holes and what lies behind the end read as zeros |
| File.File.ZeroRange | file.c:9-32 | Exactly the part of one block becomes zeros |
| File.File.PunchHole | file.c:479-521 | Exactly the bytes of the hole below the end of the file become zeros, and exactly its full blocks leave the map and are given back with emptied leaves; it is refused if and only if a full block splits an extent of a full leaf, and has zeroed exactly its partial blocks then |
| File.File.SetSize | file.c:576-613 | Behind a smaller size nothing but zeros is left, and exactly the blocks that start at or behind it are given back |
| File.File.ShrinkThenGrow | file.c:576-613 | After shrinking to n and growing to m every byte between reads as zero, all others as before |
| InodeSpec.LeafReadsBack | inode.c:412-499 | A written leaf is accepted under its reference and its extents are read back |
| InodeSpec.AreaReads | cryexts_fs.h:342-386 | Header, four references and trailer of the reserved area do not overlap: each reads back |
| InodeLayout.LeafLayout | cryexts_fs.h:342-354 | Where the fields of a leaf and of its extents lie, with zeros between them |
| InodeLayout.LeafTail | inode.c:458-498 | Behind its extents a leaf is zero |
| InodeLayout.LeafHolds | cryexts_fs.h:363-365 | A leaf may have exactly as many extents as a block holds |
| InodeLayout.AreaLayout | cryexts_fs.h:342-386 | Where the fields of header, references and trailer lie |
| InodeLayout.AreaExactly | inode.c:887-916 | Over arbitrary bytes: a reserved area is accepted exactly when it is the one that is written for what it holds |
| InodeLayout.LeafExactly | inode.c:412-476 | Over arbitrary bytes: a leaf is accepted exactly when the reference has its checksum and its header is the one written for that many extents |
| InodeSpec.LoadUndoesWrite | inode.c:412-499 | A tree that is written loads back to the same leaves, references and extra fields |
| InodeDisk.AcceptedExactly | inode.c:1843-1931 | Over arbitrary contents: an inode is accepted by validation if and only if it loads, its extents are in order and in use, its references start where the leaves do, its size covers every mapped block, and its sectors are those of the blocks it owns |
| InodeDisk.WrittenExactly | inode.c:1843-1931 | What the inode of a well-formed file writes is accepted if and only if its size covers every mapped block and its sectors are those of its blocks |
| InodeDisk.InodeBuffer.WriteToDisk | inode.c:2226-2328 | Writes each leaf and a reserved area that refers to it, with the sector count of what the tree owns, and no other block |
| InodeDisk.InodeBuffer.Load | inode.c:887-916 | Over arbitrary contents: the specified leaves and extra fields, or an error |
| InodeDisk.InodeBuffer.Validate | inode.c:1843-1931 | Over arbitrary contents: accepts exactly what the specified checks accept |
| Mkfs.CountsAgreeExactly | tools/mkfs.cryexts.c:774-792 | The free count of the superblock is the sum of the group counts if and only if the last group holds its own metadata |
| Mkfs.ShortTail | tools/mkfs.cryexts.c:774-792 | A device of 4099 blocks: the counts differ by three |
| Mkfs.CountBelowZero | balloc.c:468-546 | With a last group shorter than its metadata, the bitmaps have more free blocks than the superblock counts, by what is missing |
| Mkfs.RealIsOk | tools/mkfs.cryexts.c:595-672 | The numbers mkfs computes from the size of a device, which a mount accepts, tile it with groups that hold their metadata |
| Mkfs.RealNumbers | tools/mkfs.cryexts.c:595-672 | How many groups a device gets, where the root directory lies behind any number of descriptor blocks, and how long the journal is, whatever the size of the device |
| Mkfs.DataBlocksExactly | balloc.c:147-177 | On a formatted device the allocator takes a block for file data exactly when it lies on the device and behind the metadata of its group |
| Mkfs.Gibibyte | tools/mkfs.cryexts.c:595-672 | One gibibyte: 64 groups, two blocks of descriptors, the root directory in block 9, a journal of 512 blocks |
| Mkfs.RealHasRoom | tools/mkfs.cryexts.c:774-792 | Whatever the size of the device, a new filesystem that can be mounted has at least 4080 free blocks |
| Mkfs.FormatConsistent | tools/mkfs.cryexts.c:847-940 | Bitmaps and counters of a new filesystem satisfy the allocator's invariant |
| Mkfs.Format | tools/mkfs.cryexts.c:774-940 | The loops compute exactly the specified bitmaps, group counts and superblock count |
| FsckSpec.Census | tools/cryextsck.c:396-423 | Free blocks, data blocks in use and metadata make up the device, group by group |
| FsckSpec.CountExactly | tools/cryextsck.c:2597-2634 | The recount passes if and only if the superblock's free count is what journal and files leave of the data blocks; no bitmap has a part in it |
| FsckSpec.BitsExactly | tools/cryextsck.c:2636-2743 | On bitmaps of any content: the check passes if and only if the bits of metadata are set, and the root directory, the journal and all owned blocks are marked |
| FsckSpec.CleanExactly | tools/cryextsck.c:2597-2786 | Main result, for bitmaps and counters of any kind: both pass if and only if everything needed is marked and the superblock's count is the number of clear bits plus the leaked blocks, less the journal blocks that files own as well |
| FsckSpec.CleanIsOwned | tools/cryextsck.c:2597-2786 | Under the hypothesis that the superblock's count is the number of clear bits, and no file owns a journal block: exactly the bitmaps that mark what is owned and nothing else pass |
| FsckSpec.ConsistentTotal | tools/cryextsck.c:396-423 | The allocator's invariant gives such a count |
| FsckSpec.LeakUnnoticed | tools/cryextsck.c:2597-2743 | A device that passes still passes with any further bits set |
| FsckSpec.RepairPasses | tools/cryextsck.c:2636-2743 | Repaired bitmaps pass, repairing again changes nothing, and repair changes only bitmaps that did not pass |
| FsckSpec.InodesRepairPasses | tools/cryextsck.c:2699-2709 | The same for inode bitmaps |
| FsckSpec.RepairConsistentExactly | tools/cryextsck.c:2665-2743 | Bitmap repair does not touch the group counters: the allocator's invariant survives it if and only if no data block was missing from the bitmaps |
| FsckOwners.TreeStep | tools/cryextsck.c:2045-2107 | A tree passes with one leaf more exactly when the leaf continues it and shares no block |
| FsckOwners.OwnersStep | tools/cryextsck.c:2996-3008 | The inodes pass with one more exactly when it passes beside the owners before it, so that no block has two owners |
| Fsck.Checker.CheckExtents | tools/cryextsck.c:1748-1792 | Accepts exactly sorted extents whose blocks are data blocks nobody owns yet, and marks exactly these |
| Fsck.Checker.CheckTree | tools/cryextsck.c:2045-2107 | Over arbitrary bytes: accepts exactly the inodes whose tree loads as the kernel loads it, header and checksum of every leaf included, is well formed beside the owners seen before, and agrees with size and sector count |
| Fsck.Checker.CheckAll | tools/cryextsck.c:2996-3008 | No error exactly when the root is there, every inode passes and no block has two owners; marks exactly the inodes in use |
| Fsck.Checker.CheckCounts | tools/cryextsck.c:2597-2634 | Compares both free counts with metadata, journal and marks |
| Fsck.Checker.RepairBitmaps | tools/cryextsck.c:2636-2743 | Marks exactly what is missing in block and inode bitmaps, and only when asked to repair |
| Fsck.Checker.Run | tools/cryextsck.c:2996-3017 | Without repair, a device is clean exactly when owners, both counts and both kinds of bitmaps pass |
| Fsck.NewPassesExactly | tools/mkfs.cryexts.c:584-940 | The checker passes a new filesystem if and only if its last group holds its own metadata |
| Fsck.LeaksPass | tools/cryextsck.c:2597-2743 | A new filesystem passes with every bit of every bitmap set, although blocks have leaked whenever any was free |
| Fsck.RepairBreaks | tools/cryextsck.c:2636-2743 | A new filesystem that lost the mark of its root directory, with counters to match: repair breaks the allocator's invariant |
| FsckKernel.OpensExactly | inode.c:1843-1931 | The kernel opens an inode that the checker passed, on bitmaps that mark what it owns, if and only if its references start where their leaves do |
| FsckKernel.LogicalIgnored | tools/cryextsck.c:2050-2112 | Whatever first logical blocks the references name, the checker's verdict is the same |
| FsckKernel.PassedNotOpened | inode.c:1843-1931 | An inode with one leaf of one block and a reference that names logical block 1: the checker passes it, and the kernel does not open it |

## Left out

Journals:

- Journal v1, the fixed journal v3 layout without the ring, and the abort of the undo journal.
- The buffer cache. In the ring model home blocks change only in checkpoint and replay, as
  `doc/cryext_11_requirements.md:186` asks; the barrier of ordered data (`journal.c:207-216`) can push dirty home blocks
  out earlier.
- The superblock as a whole. In the ring model it is rewritten in place, so it is no part of the image and its new content
  is a parameter; in the undo model it is the recovery flag and the sequence number.
- Blocks that the undo journal cannot record (bitmaps, group descriptors, inode tables) and file data, which is never
  recorded: they change at any time in the runs of `UndoRuns.UndoSafety`, and nothing is said about what they hold
  afterwards. The same theorem leaves out changes that a full journal cannot record; `UndoLate.LateRecordExactly` has them.
- The bytes of journal records. A record is a typed block, so no data block is mistaken for one; checksums are arbitrary
  functions of a block, and everything holds whichever they are.
- Stale commit records of an earlier format of the same device. `RingRuns.Formatted` asks that there are none.
- Wrap-around of sequence numbers: the ring guard excludes it, the undo journal counts without bound.
- Read and write errors, memory allocation failures, and the lock that serialises begin to commit with checkpoints.

Blocks and files:

- Direct, indirect, inline and overflow extents of older inodes, and the flags of an extent. Filesystems without block groups
  or with a single group, which a mount refuses (`super.c:194-231`).
- The clearing of an inode that is freed.
- Data that starts outside the first group: the layout has it in group 0, where mkfs puts it.
- Zeroing of new blocks, writing of file data, encryption of data, timestamps, permissions and link counts of files.
- InodeDisk.AcceptedExactly: does not model direct and indirect fields, which a tree inode leaves zero.
- ExtentTree.ExtentInode.ResolveBlock: does not say which block a new leaf takes; AppendEntry does.

Directories:

- The hash of names is an arbitrary function, and the 16-bit masks of the index are sets of block numbers.
- Directory.Directory.AddEntry: does not model a name that the index hides. Only the dots of the root can be hidden, which
  nobody enters or asks the root for (`dir.c:875-876`). The same holds for deleting and redirecting.
- Read errors, and a second checksum over an index block: what cannot be read is one case.
- Directory.Directory.ValidateDirBlock: does not model the range check of the block numbers.
- DirTree.Namespace.Mkdir: does not model that the new inode or its blocks cannot be allocated, which `DirSteps.Mkdir` and
  `DirRuns` do; the room in the parent is a parameter.
- DirTree.Namespace.Rename: does not model a failure in the middle of a rename, which `DirRename` does; whether the target
  directory has room is a parameter, and a replaced directory leaves the graph.
- DirSteps.Rmdir: does not model the attribute blocks of the directory. In `DirRuns` they are held by something else, which
  can give blocks back at any time.
- DirRuns.RunsAllOrNothing: does not model crashes; a directory whose index number was lost in one is outside these runs.
  While the root has no name yet, what else is held is at most four blocks. The last group has room for its metadata; with
  a shorter one the free blocks are not those the superblock counts (`Mkfs.CountBelowZero`).
- Renaming between two links of one file, which the VFS answers itself.

Other parts:

- The policy attribute, and names with a zero byte inside, which the interface cannot pass.
- Fsck.Checker.CheckAll: does not model the contents of directory, attribute and policy blocks, links between inodes, and
  inodes with direct and indirect blocks; an inode is its tree and a list of the other blocks it names.
- Fsck.Checker.CheckCounts: does not model the write-back of repaired free counts.
- Fsck.Checker.Run: does not model the checks of super block, journal and orphan list, nor the early pass over reserved bits
  (`tools/cryextsck.c:1601-1699`), which asks for a part of what the bitmap check asks for.
- mkfs options and the writing of its blocks; the inspection and injection tools.
