# A Dafny model of the storage and memory core of xv6 with RAID

The repository extends the xv6 teaching kernel with software RAID. This project models the parts of
it that carry the hard invariants, and states and proves them for every input, every run and every
interleaving of the model. `dafny verify dfyconfig.toml` (Dafny 4.11) checks the whole project.

## What is modelled

**The RAID layer.** `Blocks` has exclusive-or algebra on 1024-byte blocks, `Layouts` the five address
maps. `ParityArray` describes RAID4 and RAID5 as one parametric array: any number of disks and rows, a
valid flag per disk, a loaded flag per cluster. `ParityRuns` proves the theorems about whole runs;
contents of failed disks are arbitrary there. `ParityDriver` is the same code as it runs, on page
buffers with nested loops, and is proved equal to `ParityArray`. `ParityThreads` is a small-step model
of any number of concurrent readers, writers and repairs with the gate, the ordered disk locks and the
cluster lock; `ParityThreadsProof`, `ParityThreadsSafety` and `ParityThreadsReturns` hold its invariant
and theorems. `DiskPair`, `DiskPairProof` and `DiskPairRuns` do the same for the readers/writer protocol
of mirrored pairs and the locks of their disks, where `sleep` and `wakeup` are modelled step by step.

**The crash-safe storage stack.** `LogCrash` is the redo log as sequences of block writes that may stop
anywhere, `LogReservation` the accounting of concurrent operations, `LogDriver` the code over the disk
and the pinned buffers. `BufferCache` is the LRU cache as a value, `CacheRuns` proves what it gives its
callers over whole runs, and `CacheDriver` is its doubly linked ring; `LogBuffers` runs log and cache together and says when a commit finds the buffers it needs.
`FsModel`, `FsFiles` and `FsDriver` are the bitmap allocator, the block map of inodes and file contents,
with a map that says which slot of which inode owns each block.

**Memory structures.** `PageTable` is the Sv39 radix tree (section 4.4 of the RISC-V Privileged
Architecture, volume II) over physical pages, `VmState` the invariant that accounts for every page,
`VmDriver` the code, and `ProcMemory` its use by processes, which all map one trampoline page. `HeapModel` and `HeapDriver` are the user-level allocator (section 8.7 of The C
Programming Language, 2nd edition).

Classes named `Driver`, `Vm` and `Allocator` follow the source statement by statement; a loop body or a
branch of the source is a method of its own where that keeps a proof small.

## Where the code falls short

- `raidrepair` of a disk that is valid reports success even when two other disks are lost
  (`ParityRuns.RepairOkIff`).
- The log that mkfs makes has LOGSIZE blocks, of which the header takes one, so three operations within
  their quota can reach the panic "too big a transaction"; exactly a log of more than LOGSIZE blocks
  rules that out (`LogReservation.NeverPanicsIff`). But then a full transaction pins as many blocks as
  there are buffers, and a commit finds its buffers exactly if fewer are logged
  (`LogBuffers.CommitPanicsIff`): whatever the size of the log, one of the two panics can be reached
  (`LogBuffers.SomePanicIsReachable`).
- `malloc` of more than 0x7fffffe0 bytes truncates the size it passes to `sbrk`, so the block it
  makes is larger than the memory granted (`HeapDriver.GrantedIff`). Exactly then the blocks cease to
  tile the memory granted (`HeapDriver.BackedIff`, `HeapDriver.Allocator.Malloc`), and what a later call
  does is left open.
- A failed `mappages` leaves the pages it mapped before the failure mapped, and tables that `walk`
  allocated stay allocated when `uvmalloc` or `uvmcopy` fails: the free pages are then exactly the old
  ones less those tables (`VmDriver.Vm.Uvmalloc`, `VmDriver.Vm.Uvmcopy`). When fork fails, freeing the
  page table of the child gives them back (`ProcMemory.ForkMemory`).
- A page table entry of 2^62 or more does not survive being unpacked and packed
  (`PageTable.PackRoundTrip`).

## Model

| member | source | states |
|---|---|---|
| Blocks.ReconstructIff | kernel/raid5.c:86-102 | the exclusive or of all the other blocks of a row equals block k exactly when the whole row cancels out to zero: rebuilding a lost block is right if and only if the parity was |
| Blocks.RmwKeepsSum | kernel/raid5.c:239-247 | writing new data and shifting the parity by old data and new data leaves the exclusive or of the row unchanged, whatever the row held |
| Blocks.RmwKeepsOthers | kernel/raid5.c:239-247 | a read-modify-write does not change what any third disk of the row would be rebuilt as |
| Blocks.DegradedWriteReconstructs | kernel/raid5.c:201-213 | shifting the parity by the rebuilt old block makes the lost block rebuild as the new data, although its disk was not written |
| Blocks.RebuiltRowCancels | kernel/raid.c:674-697 | a row whose block k is replaced by the exclusive or of the rest cancels out |
| Layouts.HomeThenResident | kernel/raid.c:74-99 | for each of the five layouts and every number and size of disks, every block below raidblockn() has a data slot, and the slot determines the block |
| Layouts.ResidentThenHome | kernel/raid5.c:117-120 | conversely every data slot, that is every slot that is neither a parity slot nor in the metadata row, is the home of a block below raidblockn() |
| Layouts.HomeInjective | kernel/raid0_1.c:28-29 | no two blocks share a slot |
| Layouts.InOrder | kernel/raid5.c:117-120 | blocks are laid out in order: a striped level puts each block on the unit next to that of the one before until the row is full and then starts the next row at its first unit, which for RAID5 is the one after the parity disk; RAID1 fills a pair and then the next. With the place of block 0 this determines every place |
| Layouts.ParityShared | kernel/raid5.c:118-120 | of any DISKS consecutive rows of RAID5 each disk has the parity of exactly one; RAID4 keeps all of it on the last disk |
| ParityRuns.LoadRowCancels | kernel/raid4.c:41-59 | with all disks valid the cluster loader leaves a row that cancels out |
| ParityRuns.LoadRowIs | kernel/raid5.c:36-66 | whatever disks are invalid, the loader changes the parity block alone, and only if its disk is valid; then what can be read of the row cancels out, so that a block on a lost disk rebuilds as zero |
| ParityRuns.IncrementalIsFull | kernel/raid4.c:220-237 | on a row that cancels out, the incremental parity update gives the very row that the loader would compute from scratch after the data write |
| ParityRuns.WriteRowStores | kernel/raid5.c:201-247 | after a write in any of its three forms the block is on its disk, or rebuilds as the new data if its disk is lost |
| ParityRuns.WriteRowKeepsNeighbour | kernel/raid5.c:201-247 | a write changes neither any other block of its row that is readable nor what a lost one rebuilds as |
| ParityRuns.StepSound | kernel/raid.c:417-437 | a write, a failure, junk on a failed disk and a repair each keep the array sound: parity exact while all disks are valid, and every block written since set-up held or rebuildable with its last data |
| ParityRuns.RunSound | kernel/raid5.c:108-273 | soundness over runs of any length, for RAID4 and RAID5, any number of disks and rows |
| ParityRuns.ReadsGiveLastWrite | kernel/raid5.c:108-149 | after set-up and any sequence of writes, failures, arbitrary contents on failed disks and repairs, a read that returns 0 gives the last successful write of its block |
| ParityRuns.OneLossServesAll | kernel/raid5.c:114-129 | a corollary of the entry checks: with at most one invalid disk a read, and a write, succeeds if and only if the block number is in range |
| ParityRuns.LostBlockReachableIff | kernel/raid5.c:124-129 | a corollary of the entry checks: a block whose own disk is lost can be read, and written, if and only if no second disk is lost |
| ParityRuns.TwoLossesAreFinal | kernel/raid.c:644-647 | once two disks are lost, no run of operations makes either valid again and every repair of one returns -1 and changes nothing |
| ParityRuns.RepairOkIff | kernel/raid.c:426-460 | raidrepair returns 0 if and only if the disk exists and is valid already or the only invalid one, in particular on a valid disk while two others are lost; raidfail returns 0 if and only if the disk exists; when they return -1 nothing changes |
| ParityRuns.ServedIff | kernel/raid5.c:114-129 | a read, and a write, succeeds if and only if the block is in range and its own disk, or every other disk, is valid; a write that fails changes nothing |
| ParityRuns.SetUpIs | kernel/raid.c:213-283 | set-up succeeds if and only if no two disks are invalid; it marks every cluster as not loaded, writes the metadata row and touches no data block |
| ParityRuns.ValidIff | kernel/raid.c:432 | after any run a disk is valid if and only if it was valid at the start and never failed, or a repair of it reported success after which it did not fail |
| ParityRuns.FlagsArePersisted | kernel/raid.c:45-69 | every event that changes a valid or a loaded flag writes its metadata block to every disk that writeraidmeta reaches, by the flags it leaves |
| ParityRuns.ReadsSurviveFailure | kernel/raid5.c:124-146 | the failure of any one disk of a sound array with all disks valid changes no read of a loaded cluster, whether the block was ever written or not |
| ParityRuns.OtherReadsStay | kernel/raid5.c:201-259 | a write changes no read of any other block that is on a valid disk or in a loaded cluster |
| ParityRuns.RepairKeepsReads | kernel/raid.c:674-697 | a repair changes no successful read of a block that is on another disk, on a valid one, or in a loaded cluster |
| ParityRuns.RepairTouches | kernel/raid.c:674-697 | a repair writes only to its own disk and only in loaded clusters, apart from the metadata row |
| ParityRuns.FailureIsTransparent | kernel/raid.c:642-721 | failing disk d, then any writes while it holds junk, then repairing it leaves every row of a cluster loaded before the failure, data and parity, byte for byte as the same writes without a failure would |
| ParityRuns.ParityInvariant | kernel/raid4.c:14-72 | after any run, while all disks are valid, the parity block of every row of a loaded cluster is the exclusive or of the data blocks |
| ParityDriver.XorInto | kernel/raid5.c:53-54 | the accumulation loop over a page buffer computes the exclusive or of the two blocks in place |
| ParityDriver.Driver.FoldRow | kernel/raid5.c:41-56 | the loop over disks leaves in the parity buffer the exclusive or of the valid data disks of the row |
| ParityDriver.Driver.LoadClusterBlocks | kernel/raid5.c:15-74 | the loader over the disks and buffers yields exactly the array LoadCluster describes |
| ParityDriver.Driver.ReadInvalid | kernel/raid5.c:79-106 | the buffer ends up holding the exclusive or of all other disks of the row |
| ParityDriver.Driver.ReadRaid | kernel/raid5.c:108-149 | result and data are those of Read, the function the run theorems are about; nothing is changed |
| ParityDriver.Driver.UpdateRow | kernel/raid5.c:201-259 | the three ways of updating a row, through buffers and single block transfers, change it as WriteRow does |
| ParityDriver.Driver.WriteRaid | kernel/raid4.c:148-251 | result and new array are those of Write |
| ParityDriver.Driver.RaidFail | kernel/raid.c:417-437 | result and new array are those of Fail |
| ParityDriver.Driver.RaidRepair | kernel/raid.c:440-721 | result and new array are those of Repair, for the RAID4 and the RAID5 arm |
| ParityDriver.Driver.SetRaidType | kernel/raid.c:213-283 | result and new array are those of Init |
| ParityDriver.Driver.WriteMetaRow | kernel/raid.c:45-69 | the metadata row is written on disk i when diskinfo[i] is valid, as the index in the source has it, and no other row changes |
| ParityThreadsSafety.ReachableInv | kernel/raid5.c:151-273 | the invariant of the concurrent model (lock ownership, gate counters, each thread between its two block writes, soundness of the completed rows) holds in every reachable state |
| ParityThreadsSafety.ParityBetweenUpdates | kernel/raid5.c:225-259 | in every interleaving of readers, writers, cluster loads and repairs, with all disks valid a row of a loaded cluster cancels out whenever no writer is between its data and its parity write, and such a writer holds the lock of the parity disk |
| ParityThreadsSafety.DataWrittenOnlyWhenLoaded | kernel/raid5.c:194-199 | a step that changes a data block happens in a loaded cluster and under the lock of that disk |
| ParityThreadsSafety.WritesTakeEffectOnce | kernel/raid5.c:201-247 | from anywhere inside a write, through any interleaving in which its thread starts no other call: the effects of the run contain this write exactly once, with its own block and data, if it has returned or passed its point of effect meanwhile, and not at all otherwise |
| ParityThreadsSafety.LastIsReplay | kernel/raid5.c:201-259 | the last data of every block is what is left when the effects of the run are applied to it one after the other, so the order of effects is a sequential order of the writes |
| ParityThreadsSafety.ReadsSeeLastEffect | kernel/raid5.c:124-146 | in every interleaving what a read takes from the disks, directly or by rebuilding, is the data of the last write that took effect |
| ParityThreadsSafety.QuietArrayIsSound | kernel/raid5.c:108-149 | when all calls have returned, a read that succeeds gives the last write that took effect |
| ParityThreadsSafety.GateExcludes | kernel/raid.c:651-658 | no write is under way while a repair is past its gate, so a repair that wants the cluster lock, which it takes after the disk locks, finds it free |
| ParityThreadsSafety.NoDeadlock | kernel/raid5.c:185-270 | in every reachable state in which some call has not returned, some thread can take a step |
| ParityThreadsSafety.NoLostWakeup | kernel/raid5.c:186-192 | a write asleep at the gate implies repairing > 0 and a repair that has announced itself; a repair asleep implies writecount > 0 and a write between its entry and its exit: whoever is to wake the sleeper is still there |
| ParityThreadsReturns.ReadsAndRepairsGetThroughOnce | kernel/raid5.c:124-146 | from anywhere inside a read or a repair, through any interleaving in which its thread starts no other call: once it is through, and in particular once it has returned, it has exactly once got data of its own block, or rebuilt its own disk, and not before |
| ParityThreadsReturns.DeedMeans | kernel/raid.c:699-707 | in every interleaving what a read got is the last write to have taken effect, and a disk that was rebuilt is valid |
| ParityThreadsReturns.ValidIs | kernel/raid.c:651-721 | in every interleaving a disk is valid exactly as the last failure of it, or the last repair of it that got through, says |
| ParityThreadsReturns.TurnedAwayIff | kernel/raid5.c:161-176 | a concurrent call is turned away at its entry if and only if the same call on an array at rest would return -1, or it is a repair with nothing to do |
| ParityThreadsReturns.FlagsAreNoted | kernel/raid4.c:60-69 | a step that sets a loaded or a valid flag leaves its thread owing the metadata row, only the step that writes it settles that, and a call that has returned owes nothing |
| DiskPairProof.StepKeeps | kernel/raid.c:286-385 | every single step of readers, writers, repairs and metadata writes on a mirrored pair, down to the disk locks and the steps inside sleep and wakeup, keeps the invariant |
| DiskPairProof.Exclusion | kernel/raid.c:292-316 | in every interleaving there is at most one writer or repairer, at most one reader per side, and no reader beside a writer |
| DiskPairProof.DiskExclusion | kernel/raid.c:45-69 | in every interleaving one thread at a time transfers blocks on a disk, writeraidmeta included, and it holds the lock of that disk |
| DiskPairProof.ReadsGiveLastWrite | kernel/raid.c:286-335 | what a read brings back is the last completed write of its row |
| DiskPairProof.SidesAgreeWhenIdle | kernel/raid.c:338-385 | when nobody is writing, every valid side holds the last write of every row written since set-up |
| DiskPairProof.NoLostWakeup | kernel/proc.c:537-586 | a process asleep on the pair implies that a flag is set or that a wakeup in progress has yet to reach it |
| DiskPairProof.NoDeadlock | kernel/raid.c:468-561 | in every reachable state in which some call has not returned, some thread can take a step, although calls wait for the mutex, for the flags, and for the locks of the two disks, for which writeraidmeta competes |
| DiskPairRuns.CallsAreDoneOnce | kernel/raid.c:286-385 | from anywhere inside a read, write or repair of a pair, through any interleaving in which its thread starts no other call: it comes to its end exactly if it has been done, once and as the job it is, or has found both sides invalid, which a repair never does |
| DiskPairRuns.ReturnedOnce | kernel/raid.c:338-385 | so a call that was let in and has returned was done exactly once, unless both sides were invalid when it looked |
| DiskPairRuns.DoneMeans | kernel/raid.c:344-384 | in every interleaving, done means: the data of a write is on every valid side, of which there is at least one; a read brought back the last write of its row; the side of a repair is valid |
| DiskPairRuns.LastIsReplay | kernel/raid.c:338-385 | the last write of each row is what is left when the writes done in the run are applied one after the other |
| DiskPairRuns.OnlyWritesChange | kernel/raid.c:373-376 | a block of a side that stays valid changes only to the data of a write of that row, or to that of the other side if a repair of this side is still under way |
| DiskPairRuns.WaitsIff | kernel/raid.c:295-319 | a reader waits exactly for a writer or, if every valid side is being read, for one of them; a writer or repairer exactly while the pair is in use |
| DiskPairRuns.EntersIff | kernel/raid.c:459-474 | a repair goes ahead exactly if its side is invalid and the other is not |
| LogCrash.HeadRoundTrip | kernel/log.c:86-114 | read_head gives back what write_head stored |
| LogCrash.CrashAtomic | kernel/log.c:178-203 | if the machine stops after any k block writes of commit, and recovery is itself cut short and restarted any number of times, then after a complete recovery the home blocks are exactly the old ones if k is at most the number of logged blocks, exactly the new ones otherwise |
| LogCrash.RunIsAtomic | kernel/log.c:68-123 | over any sequence of transactions, each committed or cut short at any write, the home blocks are those of the transactions whose header was written, whole and in order |
| LogCrash.InterruptedCommitted | kernel/log.c:116-123 | a recovery cut short anywhere, any number of times, keeps a committed transaction recoverable |
| LogReservation.StepReserved | kernel/log.c:126-175 | begin_op, log_write, end_op and commit keep the reservation: logged blocks distinct, and room left for all that outstanding operations may still log |
| LogReservation.BigLogNeverPanics | kernel/log.c:214-235 | with log.size greater than LOGSIZE no interleaving of operations of at most MAXOPBLOCKS calls reaches a panic, and commit runs only with no operation outstanding |
| LogReservation.SmallLogPanics | mkfs/mkfs.c:25 | with log.size at most LOGSIZE, as mkfs makes it, three such operations on any LOGSIZE distinct blocks reach the panic "too big a transaction" |
| LogReservation.NeverPanicsIff | kernel/log.c:220-221 | such operations can never make the log panic if and only if log.size is greater than LOGSIZE |
| LogReservation.CommitDueIff | kernel/log.c:146-175 | in every run, for a log of any size, a commit is due if and only if some operation was let in since the last one and all have ended |
| LogReservation.CommitKeepsOut | kernel/log.c:131-132 | from then until the commit nobody is let in and the header stays as it is |
| LogReservation.LetInIff | kernel/log.c:126-142 | in every run an operation is let in if and only if no commit is due and the log has room for the blocks logged and for MAXOPBLOCKS of every operation under way and of this one; in particular whenever nobody is at work and no commit is due |
| LogReservation.HeaderIs | kernel/log.c:225-233 | in every run the header lists exactly the blocks logged since the last commit, each once, and keeps their order |
| LogBuffers.BufferFoundIff | kernel/bio.c:58-89 | bget finds a buffer for a block if and only if the block is pinned or held, or fewer than NBUF blocks are |
| LogBuffers.CallsFinishIff | kernel/bio.c:92-151 | any sequence of bread, brelse and bunpin calls of a thread that has the cache to itself goes through if and only if at each read of a block that is not pinned fewer than NBUF blocks are pinned or held; it then leaves the pins and holders one expects, and otherwise bget panics |
| LogBuffers.CommitFitsIff | kernel/log.c:178-203 | the calls of a whole commit unpin and release everything, and meet that condition if and only if the transaction has fewer than NBUF blocks |
| LogBuffers.CommitFinishesIff | kernel/log.c:193-203 | so a commit that has the cache to itself, with exactly the logged blocks pinned, finishes with nothing pinned or held if and only if it has fewer than NBUF blocks, and panics otherwise |
| LogBuffers.RunKeeps | kernel/log.c:214-235 | in every joint run of the log and the cache, exactly the blocks in the log header are pinned, each once, and they are distinct home blocks that fit in the log |
| LogBuffers.CommitPanicsIff | kernel/log.c:193-203 | in every joint run, a commit panics for want of a buffer if and only if NBUF or more blocks are logged |
| LogBuffers.SomePanicIsReachable | kernel/param.h:9-11 | for every log.size of at least 1 and any LOGSIZE distinct home blocks, three well-behaved operations reach a panic: of log_write if log.size is at most LOGSIZE, of the bget in the commit otherwise |
| LogDriver.Driver.WriteLog | kernel/log.c:178-191 | the writes it makes, in order, are the logging half of CommitWrites |
| LogDriver.Driver.WriteHead | kernel/log.c:102-114 | the header block holds the count and block numbers, the rest of it unchanged |
| LogDriver.Driver.InstallTrans | kernel/log.c:68-83 | the writes it makes copy each log block to its home, in order, and unpin it unless recovering |
| LogDriver.Driver.Commit | kernel/log.c:193-203 | the disk, and the sequence of block writes, are those of CommitWrites, so CrashAtomic applies to every prefix of them |
| LogDriver.Driver.RecoverFromLog | kernel/log.c:116-123 | the disk and the sequence of block writes are those of RecoverWrites |
| LogDriver.Driver.ReadHead | kernel/log.c:86-97 | the in-memory header is what the header block says |
| LogDriver.Driver.BeginOp | kernel/log.c:126-142 | waits exactly when Begin says so, and changes the log state as Begin does |
| LogDriver.Driver.LogWrite | kernel/log.c:214-235 | verdict and log state are those of LogWrite: absorption of a block already logged, otherwise one more block pinned |
| LogDriver.Driver.EndOp | kernel/log.c:146-175 | verdict and log state are those of End; it has to commit exactly when it was the last operation, and exactly then it sets committing |
| LogDriver.Driver.EndOpCommits | kernel/log.c:166-174 | the transaction is at home, the header is clear, and the log is empty and open to new operations; the writes made are those of CommitWrites |
| BufferCache.FindsTheHolder | kernel/bio.c:66-73 | the search over the ring finds buffer b if and only if b holds the block: no block is held twice |
| BufferCache.RecyclesTheOldest | kernel/bio.c:77-87 | a miss recycles, of all unreferenced buffers, the one released longest ago |
| BufferCache.GetCoherent | kernel/bio.c:58-89 | bget keeps the cache coherent, and the buffer it returns holds the block asked for |
| BufferCache.ReleaseCoherent | kernel/bio.c:116-137 | brelse keeps the cache coherent and the ring in order of release |
| BufferCache.PinnedStays | kernel/bio.c:139-151 | through any run of cache operations, a buffer that the log has pinned keeps its block, and its contents unless a holder writes it, and whoever asks for the block gets that buffer |
| CacheRuns.RunFaithful | kernel/bio.c:58-104 | in every run a valid buffer holds what callers made of its block since it was read in, or else what the disk holds for that block |
| CacheRuns.BreadGivesLatest | kernel/bio.c:92-104 | in every run, unless bget finds no buffer, bread gives a valid buffer of the block asked for that holds what callers made of the block since it was read in, or else what the disk holds |
| CacheRuns.NothingIsLost | kernel/bio.c:106-113 | what bread would give for a block changes only by changing the block, as long as its changes are on the disk or its buffer is held or pinned |
| CacheRuns.MissRecyclesLongestFree | kernel/bio.c:77-87 | in every run a miss recycles a buffer that nobody uses and whose last release into disuse, as an event of the run, is no later than that of any other such buffer |
| CacheDriver.Driver.constructor | kernel/bio.c:36-53 | the next and prev links form one ring that holds each buffer once |
| CacheDriver.Driver.FindCached | kernel/bio.c:66-73 | the walk along next finds what FirstHolding finds |
| CacheDriver.Driver.FindUnused | kernel/bio.c:77-87 | the walk along prev finds what LastUnused finds |
| CacheDriver.Driver.Bget | kernel/bio.c:58-89 | result and cache are those of Get, links included |
| CacheDriver.Driver.Bread | kernel/bio.c:92-104 | result and cache are those of the function Bread that BreadGivesLatest is about |
| CacheDriver.Driver.MoveToFront | kernel/bio.c:128-133 | the six link updates leave one ring in which b comes first and the others keep their order |
| CacheDriver.Driver.Brelse | kernel/bio.c:116-137 | the cache is that of Release, links included |
| CacheDriver.Driver.Bpin | kernel/bio.c:139-144 | one more reference to the buffer and no other change, the links included |
| CacheDriver.Driver.Bunpin | kernel/bio.c:146-151 | one reference less and no other change, the links included |
| CacheDriver.LinkedInFront | kernel/bio.c:130-133 | linking a buffer in behind the head leaves a proper doubly linked ring |
| CacheDriver.Unlinked | kernel/bio.c:128-129 | unlinking any buffer leaves a proper doubly linked ring of the others |
| FsModel.SlotsDistinct | kernel/fs.c:382-421 | across all inodes no block number is stored in two places, and each is a data block marked used |
| FsModel.FreePlusOwned | kernel/fs.c:65-105 | free data blocks and owned ones are disjoint and always add up to all data blocks |
| FsModel.MarkIs | kernel/fs.c:75-77 | setting or clearing one bit of the bitmap changes the state of that block and of no other |
| FsModel.TakenOwned | kernel/fs.c:65-88 | a block that balloc takes belonged to nobody, and ownership of all other blocks is unchanged |
| FsModel.StoredOwned | kernel/fs.c:382-421 | storing the new block number in an empty slot gives the block exactly that owner |
| FsFiles.BmapIs | kernel/fs.c:382-421 | bmap, direct or indirect, with or without allocation, keeps ownership; it fills at most the slot asked for and the indirect slot on the way, leaves every other slot of every inode alone and every stored block in place, zeroes what it maps, and returns 0 only when the disk is full |
| FsFiles.BmapReads | kernel/fs.c:382-421 | no byte of any file reads differently after bmap, bytes without a block counting as zero |
| FsFiles.TruncatedOwned | kernel/fs.c:426-453 | once an inode is emptied and exactly its blocks are marked free, ownership holds again for all others |
| FsFiles.TruncatedContent | kernel/fs.c:426-453 | the truncated file is empty, and every other file reads as before |
| FsFiles.ContentPiece | kernel/fs.c:471-497 | a piece of a file within one mapped block is the corresponding slice of the flat contents |
| FsFiles.WroteContent | kernel/fs.c:505-539 | the state after writei refines the flat overlay: contents are the old ones with the bytes put at off over them, cut at the new size, every other file is as before, and files without holes stay so |
| FsFiles.OverlayAt | kernel/fs.c:516-531 | byte by byte, the overlay is the bytes written where they were written and the old contents elsewhere, and it is as long as the longer of the two ends |
| FsDriver.Driver.Balloc | kernel/fs.c:65-88 | the nested loops over bitmap blocks and bits take the first free block, mark it and zero it; 0 if there is none |
| FsDriver.Driver.Bfree | kernel/fs.c:91-105 | exactly the given block becomes free |
| FsDriver.WantedIs | kernel/fs.c:477-480 | a read owes byte i if and only if it was asked for, lies in the file, and offset plus length does not wrap around, and then it owes the byte at offset plus i |
| FsDriver.Driver.Bmap | kernel/fs.c:382-421 | ownership is kept, result and state are those of the function Bmap, and they are as BmapReads says |
| FsDriver.Driver.Itrunc | kernel/fs.c:426-453 | exactly the blocks of the inode become free, each bfree is of a block in use (so its panic is unreachable), ownership is kept, the file is empty and every other file reads as before |
| FsDriver.Driver.Readi | kernel/fs.c:471-497 | each byte that reaches the caller is one that is owed, the right one, and within the memory of the caller, and from a file without holes every such byte does; -1 exactly when that memory ran out; unmapped blocks read as zero, a read stops short of that only when the disk is full, no file changes, and a file without holes is not touched at all |
| FsDriver.Driver.Writei | kernel/fs.c:505-539 | -1 exactly for a refused offset or length; otherwise the flat contents become the overlay of the bytes put at off, cut at the new size, all other files keep theirs, and it stops early only when the disk is full or the source cannot be read within the next turn, in which case exactly the readable bytes are in the buffer |
| PageTable.PackRoundTrip | kernel/riscv.h:349-358 | with 64-bit shifts, a word gives back the address and flags it was made of if and only if the address is page aligned, and a word unpacks and packs to itself if and only if it is below 2^62 |
| PageTable.MadeFlags | kernel/vm.c:166 | an entry made by mappages has PTE_V and, of every other flag bit, exactly those asked for |
| PageTable.VpDistinct | kernel/riscv.h:349-358 | two addresses below MAXVA have the same three indices if and only if they are on the same page |
| PageTable.LinkedTrees | kernel/vm.c:103-108 | linking in a zeroed table keeps every page of memory at most one table of one tree |
| PageTable.LinkedPte | kernel/vm.c:103-108 | and it changes no translation of any address in any tree |
| PageTable.SetPteIs | kernel/vm.c:166 | writing a leaf entry changes the translation of that one page of that one tree |
| PageTable.CutTrees | kernel/vm.c:280-295 | cutting off a subtree keeps all other tables where they were |
| PageTable.RemoveTree | kernel/vm.c:280-295 | removing a whole tree leaves all translations of the others |
| PageTable.FramesMapped | kernel/vm.c:161-166 | mapping a managed frame that is mapped nowhere keeps every managed frame mapped at most once; frames outside managed memory may be mapped any number of times |
| VmState.FramesUnique | kernel/vm.c:178-200 | which frames are mapped, and where, follows from the translations alone |
| VmState.PlacedThenCleared | kernel/vm.c:233-257 | filling pages of a vacant range and unmapping them again restores every translation |
| VmState.CutAlike | kernel/vm.c:280-295 | freeing tables below which nothing is mapped changes no translation |
| VmState.Give | kernel/kalloc.c:46-63 | after a page in hand is freed every managed page is still exactly one of free, a table, a mapped frame or in hand |
| VmDriver.BetweenIs | kernel/vm.c:233-275 | the pages that uvmalloc and uvmdealloc deal with are exactly those that start between the two sizes |
| VmDriver.Vm.constructor | kernel/kalloc.c:33-40 | every whole page of the range is free, once, and none is a table or a frame |
| VmDriver.Vm.Kalloc | kernel/kalloc.c:68-82 | takes the first free page into hand, or 0 exactly if none is free |
| VmDriver.Vm.Walk | kernel/vm.c:93-111 | gives the page and index of the leaf entry; changes no translation; fails only past MAXVA, without a table if it must not allocate, or if memory ran out |
| VmDriver.Vm.Mappages | kernel/vm.c:150-173 | maps exactly the pages it was asked for, in order, to consecutive frames, managed ones from hand or any others such as the trampoline, each entry with PTE_V and, bit by bit, exactly the permissions asked for; changes no other translation, and on failure leaves exactly the first done of them mapped |
| VmDriver.Vm.Uvmunmap | kernel/vm.c:178-200 | removes exactly the pages of the range and no other translation; exactly their managed frames are freed, or given back if they are not to be freed, and others such as the trampoline are let go |
| VmDriver.Vm.Uvmcreate | kernel/vm.c:204-213 | a tree with no translation, other trees unchanged; 0 exactly if no page is free |
| VmDriver.Vm.Uvmalloc | kernel/vm.c:233-257 | each page that starts between the sizes is zeroed, in a frame of its own, and its entry has, bit by bit, PTE_V, PTE_R, PTE_U and exactly the permissions asked for; no other translation or content changes; on failure every translation and every mapped frame is as before, the free pages are the old ones less the tables added to this tree, so all are restored if and only if no table was added; it fails only past MAXVA or with less than three free pages for each page asked for |
| VmDriver.Vm.Uvmdealloc | kernel/vm.c:263-275 | unmaps and frees exactly the whole pages between the two sizes |
| VmDriver.Vm.Uvmcopy | kernel/vm.c:313-341 | each page of the child holds what the parent has there, with the same flags, in a frame of its own, and the parent is unchanged; on failure every translation and every mapped frame is as before, and the free pages are the old ones less the tables added to the tree of the child |
| VmDriver.Vm.FreeWalk | kernel/vm.c:279-295 | recursively frees every table of the subtree, each once, and no other page |
| VmDriver.Vm.Uvmfree | kernel/vm.c:299-305 | every frame and every table of the tree is free again, each once, and no other tree changes |
| ProcMemory.ProcPagetable | kernel/proc.c:176-206 | a tree with the trampoline and the trap frame mapped and nothing else; on failure tables, frames and free pages are exactly as before |
| ProcMemory.ProcFreepagetable | kernel/proc.c:210-216 | every table and every user page of the process is free again, the trap frame is back in hand, and no other process, all of which map the same trampoline, sees a change |
| ProcMemory.ForkMemory | kernel/proc.c:279-297 | the memory fork takes: the child has the trampoline, its own trap frame and a copy of each page of the parent, whose memory is unchanged; if any part cannot be had, everything is given back, tables included |
| ProcMemory.ChildIsCopy | kernel/vm.c:313-341 | what uvmcopy placed in a tree made by proc_pagetable is the memory of the parent page by page, in frames of its own, and the tree is that of a process of the same size |
| HeapModel.FreeListUnique | user/umalloc.c:24-44 | two heaps with the same free bytes have the same free list, whatever calls led to them |
| HeapModel.FreeAndUsedApart | user/umalloc.c:63-90 | no byte is both free and in use |
| HeapModel.JoinedTouch | user/umalloc.c:33-42 | after a block joins the ring, only it and its predecessor can end where another free block starts |
| HeapModel.MergedGood | user/umalloc.c:33-41 | coalescing two neighbours keeps the ring circular and in address order, and all blocks apart |
| HeapModel.SplitGood | user/umalloc.c:78-82 | splitting off the tail of a free block keeps the ring, and the bytes are divided exactly |
| HeapDriver.GrantedIff | user/umalloc.c:46-61 | sbrk, whose parameter is a 32-bit int, grants the memory that morecore writes into the header if and only if malloc was asked for at most 0x7fffffe0 bytes |
| HeapDriver.BackedIff | user/umalloc.c:46-61 | with everything granted before below the answer, the memory that the headers describe stays what sbrk granted, shrinking by a negative request included, if and only if malloc was asked for at most 0x7fffffe0 bytes |
| HeapDriver.Allocator.Search | user/umalloc.c:30-32 | the search from freep ends, and ends at the largest member of the ring below bp, after which bp belongs |
| HeapDriver.Allocator.Free | user/umalloc.c:24-44 | exactly the bytes of the block become free; the ring stays circular and in address order, no two free blocks touch, and free blocks and blocks in use tile the memory |
| HeapDriver.Allocator.Morecore | user/umalloc.c:46-61 | the memory described grows by the new area, the memory granted by what sbrk makes of the request, and some free block is then large enough; on failure nothing changes |
| HeapDriver.Allocator.Find | user/umalloc.c:74-89 | the search ends, asks for more memory at most once and exactly if no free block is large enough, and takes exactly the units asked for, from the end of the first block after freep that is large enough |
| HeapDriver.Allocator.Malloc | user/umalloc.c:63-90 | fails if and only if no free block is large enough and sbrk fails; otherwise one new block of the right size is in use beside the old ones, taken from the end of the first block after freep that is large enough if there is one, and free blocks and blocks in use tile the memory; they go on tiling just what sbrk granted if and only if sbrk is not asked, fails, or the request is at most 0x7fffffe0 bytes |

## Left out

- RAID0, RAID1 and RAID0+1 reads and writes as whole operations: their address maps are in `Layouts`, the pair protocol in `DiskPair`; what remains is one call.
- `raidfail` inside another operation, concurrent `setraidtype`, and kalloc failure in the RAID code: the code does not order or check these; in the concurrent models a disk fails only while no call is active.
- DiskPairProof.DiskExclusion: what writeraidmeta stores behind the data rows is left out, and with it the copy of that row in a repair.
- ParityThreadsSafety.ReachableInv: one step per row while all disk locks are held, and the sections under `repairlock` are single steps, because no other thread can observe their middle; scheduling fairness is not modelled.
- ParityDriver.Driver.WriteMetaRow: does not model what the metadata bytes mean or that they can be loaded after a reboot (`loadraid`); the block written is a parameter.
- The number of blocks per disk is a multiple of CLUSTER_SIZE, as in the default build; for other sizes the last cluster of the loader leaves the disk.
- Block transfers are atomic: virtio, interrupts and the device queue are not modelled.
- LogBuffers.CommitPanicsIff: a commit is one event that has the cache to itself; reads by others during it, which can only take buffers away, are not modelled, nor are a second device and the sleeplocks of buffers.
- LogDriver.Driver.BeginOp: one pass of the wait loop; sleeping and waking are left to `LogReservation`, where an operation that has to wait does not begin.
- FsDriver.Driver.Readi: a size beyond the largest file, which writei never sets, would make bmap panic and is excluded.
- FsDriver.Driver.Writei: blocks are as the buffer cache has them; bytes that a failing copy leaves in a buffer without log_write are lost if that buffer is recycled, which is not modelled.
- Inode table, directories, path names, reference counts and the inode cache: they add no harder property.
- VmDriver.Vm.Mappages: entries are kept unpacked, which loses nothing for the page-aligned addresses and ten-bit flags that callers pass (`PageTable.PackRoundTrip`), and addresses do not wrap at 64 bits.
- ProcMemory.ForkMemory: freeproc frees the trap frame before proc_freepagetable unmaps it, and here the order is reversed; the pages a failed fork gives back are the same.
- The junk with which `kalloc` and `kfree` fill a page: contents of pages that are not mapped are left open.
- `copyin`, `copyout`, `walkaddr`, `uvmclear` and the kernel page table: they only read entries, clear one flag, or map once at boot.
- HeapDriver.Allocator.Malloc: block sizes do not wrap at 32 bits, which needs a free block of 64 GiB, programs do not write outside their blocks, and calls after a truncated request are not covered.
- sbrk answers with memory above all memory it granted before: a program that shrinks its own heap with a negative `sbrk` is not modelled.
- Traps, scheduling, system calls, boot, consoles and all other user programs.
