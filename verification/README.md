# Verified model of the xv6-riscv kernel and tools

This project models the parts of an xv6-riscv kernel (with MLFQ and lottery
scheduling), its mkfs and two of its user programs that carry the most logic, and
proves properties of them in Dafny. `dafny verify dfyconfig.toml` checks everything.

The source's in-place code is written as classes and methods that update the same
fields in the same order, each proved against functions or predicates on values; what
the source promises is then proved about those. What several processors do at once is
a state machine whose steps are single lock-protected accesses.

* **Write-ahead log and buffer cache** (`LogDisk`, `LogState`, `LogCode`, `LogCrash`,
  `LogMachine`, `LogSafety`, `LogFaults`, `LogSpace`,
  `LogProjection`, `Lru`, `Bio`). A disk is a sequence of blocks
  with atomic block writes. `LogCode` is log.c in one thread, with the trace of its block
  writes; `LogCrash` cuts that trace anywhere. `LogMachine` interleaves operations, the
  cache, the committer and crashes; `LogSafety` proves group commit over all its runs,
  and `LogFaults` what a write that fails half way does to them. `LogSpace` is begin_op's
  admission and the log's room, and `LogProjection` carries it over to those runs.
  `Bio` is the LRU ring with its prev and next links.
* **Files** (`FsImage`, `FsBytes`, `FsSpace`, `FsCode`, `MkfsFiles`, `Mkfs`). A file is a byte sequence, and
  every block is owned by metadata or by exactly one slot of one inode. Allocation,
  block mapping, reading, writing, truncation and chunked writing are proved against
  both views, on all failure paths; a whole run of mkfs establishes them, exactly when
  its files fit.
* **Page tables** (`VmImage`, `VmSpace`, `VmMaps`, `VmFree`, `VmCode`, `VmCopy`). Physical memory is a map
  from page numbers to 512 words; page tables and the free list live in it. Every page
  has one owner: the free list, the kernel, a spot in one Sv39 tree (section 4.4 of the
  RISC-V Privileged Architecture, version 1.12), or one address of one tree. Trees act
  as finite maps, on out-of-memory paths too; copies to and from user memory go
  through them byte by byte.
* **User allocator** (`UmallocList`, `Umalloc`). The circular, address-ordered,
  coalesced free list of umalloc.c, with a partition of all units obtained from sbrk.
* **Processes** (`SleepLock`, `WaitExit`, `Mlfq`, `Lottery`). Sleep locks and
  wait/exit as interleaved steps; the queue edits and the lottery as code.
* **Shell and grep** (`ShSyntax`, `ShRoundTrip`, `ShAccepted`, `ShCode`, `Grep`). The
  parser on the characters of a line against a grammar on tokens with a printing round
  trip, and what any accepted line keeps; the matcher against the language that a
  pattern denotes.
* **Pipe** (`Pipe`). The ring buffer with wrapping counters, for any interleaving of
  readers and writers.

What the proofs showed to be false of the code, each with its exact condition:

* `log_write` can panic when each concurrent operation logs MAXOPBLOCKS blocks, the
  documented allowance; it cannot exactly when each stays below (`LogSpace.PanicFreeIff`, and over the runs of
  the concurrent machine `LogProjection.MachineNeverPanics`).
* A `writei` whose copy from user space faults has already changed the cached block
  past the bytes it reports; this shows in the file exactly when the disk has room for
  the write and such a byte lies inside the file and differs (`FsSpace.LeakShowsIff`,
  and at one input `FsCode.FaultingWrite`).
* It then releases that block without log_write. What a commit writes to the log is
  what log_write was handed exactly when no such release came later with other contents
  (`LogFaults.SlotHoldsHandedIff`, `LogFaults.RecoveredIsHandedIff`), and an
  unreferenced buffer equals the disk exactly when none left it changed
  (`LogFaults.UnreferencedIff`); `LogFaults.SpoiltSlot` and
  `LogFaults.SpoiltUnreferenced` are runs in which it happens.
* mkfs's rounding of the root directory leaves a hole exactly when the directory fills
  its last block (`MkfsFiles.RoundingLeavesHole`, and in one run `Mkfs.HoleRun`).
* mkfs gives out an inode number beyond its inode blocks exactly when there are more
  files than these have room for, all before the first such file fit, and that file's
  name has no slash (`MkfsFiles.Spills` in `Mkfs.Builder.Mkfs`, and in one run
  `Mkfs.SpiltRun`).
* `malloc` keeps its blocks within the memory obtained from sbrk exactly when a block
  fits, sbrk fails, or the request is below 2^27 units (`Umalloc.Heap.Malloc`, and at
  one input `Umalloc.HugeRequest`).
* A `pipewrite` that is killed after storing bytes returns without waking the readers
  that sleep: exactly when one sleeps and the kill comes after the first byte and before
  the last (`Pipe.Pipe.Write`, and at one input `Pipe.Pipe.KilledWriter`).

Conditions the code relies on are preconditions: logged blocks lie outside the log
region, `bget` finds a free buffer when it misses, user sizes stay below TRAPFRAME,
lottery tickets are below NPROC, and the MLFQ queues hold at most NPROC entries.

## Model

| member | source | states |
|---|---|---|
| `LogDisk.HeadRoundTrip` | initial-xv6/src/kernel/log.c:87-114 | what write_head stores, read_head reads back: the count in the header's first word and the block list in the next ones, the words after them as they were |
| `LogDisk.InstallAt` | initial-xv6/src/kernel/log.c:69-83 | installing the first k slots changes exactly the first k listed home blocks, each to the contents of its slot |
| `LogCode.Log.Initlog` | initial-xv6/src/kernel/log.c:55-65 | mounting a disk issues exactly the writes of recovery and leaves the replayed disk with an empty log, in memory and on disk |
| `LogCode.Log.ReadHead` | initial-xv6/src/kernel/log.c:87-97 | the in-memory list becomes the one named by the header on disk |
| `LogCode.Log.WriteHead` | initial-xv6/src/kernel/log.c:103-114 | one block write, of the header with the in-memory list; no other cached block changes |
| `LogCode.Log.WriteLog` | initial-xv6/src/kernel/log.c:179-191 | the writes issued are, in order, one per slot with the cached contents of the block logged there |
| `LogCode.Log.InstallTrans` | initial-xv6/src/kernel/log.c:69-83 | the writes issued copy each slot to its home block; outside recovery each listed block loses the pin log_write took, once |
| `LogCode.Log.RecoverFromLog` | initial-xv6/src/kernel/log.c:117-123 | recovery installs what the header names and then erases it |
| `LogCode.Log.Commit` | initial-xv6/src/kernel/log.c:194-203 | commit issues log, header, install and erase writes in that order, nothing when the transaction is empty, leaves the cached contents in the home blocks, and the header erased for the next one |
| `LogCode.UnpinAt` | initial-xv6/src/kernel/log.c:69-83 | after the unpins of install_trans every listed block has exactly one pin less and no other block any |
| `LogCode.FillThenInstall` | initial-xv6/src/kernel/log.c:179-203 | filling the slots and installing them updates exactly the listed home blocks, from the cache |
| `LogCode.Log.BeginOp` | initial-xv6/src/kernel/log.c:127-142 | begin_op's test and update: it sleeps exactly when a commit is running or the blocks logged plus MAXOPBLOCKS for each operation in progress and for this one exceed LOGSIZE; admitted, it is one operation more |
| `LogCode.Log.EndOp` | initial-xv6/src/kernel/log.c:147-175 | the last operation out, and only it, commits; the counters are as the source leaves them; it panics exactly when a commit is running |
| `LogCode.Log.LogWrite` | initial-xv6/src/kernel/log.c:215-235 | a block already in the log is absorbed; a new one is appended and pinned; it panics exactly when the log is full or no operation is in progress |
| `LogCrash.CommitCutForm` | initial-xv6/src/kernel/log.c:179-203 | the disk after any number k of commit's block writes, for every k |
| `LogCrash.CutRecoveryKeepsReplay` | initial-xv6/src/kernel/log.c:69-123 | recovery cut after any number of its own writes leaves a disk that recovers to the same home blocks |
| `LogCrash.RecoveryConverges` | initial-xv6/src/kernel/log.c:117-123 | any number of cut recoveries followed by a whole one gives what one recovery would have given, with an empty log |
| `LogCrash.CutCommitReplay` | initial-xv6/src/kernel/log.c:117-203 | recovering from a commit cut after k writes gives the old home blocks up to the header write and the new ones from it on |
| `LogCrash.CrashAtomicity` | initial-xv6/src/kernel/log.c:69-203 | commit cut anywhere, recovery cut anywhere any number of times, then one recovery finishes: all old, or all new exactly when the header write reached the disk |
| `LogCrash.CommitThenCrash` | initial-xv6/src/kernel/log.c:69-203 | the commit that the code performs, from whatever state its operations have left, is atomic in that sense: the block writes it issues, cut after any k, then recovered with any number of cuts |
| `LogSafety.StepKeeps` | initial-xv6/src/kernel/log.c:117-235 | every step of concurrent operations, buffer cache, committer, crash and recovery keeps the combined log, cache and disk invariant, also when a modified buffer is released without log_write |
| `LogSafety.RecoveredDiskIsPrefixOfGroups` | initial-xv6/src/kernel/log.c:117-203 | in every run with crashes anywhere, recovery yields the committed groups of changes to logged blocks applied in order to the disk first mounted, never part of one |
| `LogSafety.OperationsAreWhole` | initial-xv6/src/kernel/log.c:127-235 | all changes of an operation to logged blocks fall in one commit group, and no operation in progress has any committed |
| `LogSafety.CommitRunsAlone` | initial-xv6/src/kernel/log.c:127-175 | a commit runs with no operation outstanding; end_op's panic and a log_write during a commit cannot happen |
| `LogSafety.BeginIff` | initial-xv6/src/kernel/log.c:127-142 | in every run of the concurrent machine, crashes included, a process outside can begin an operation exactly when no commit runs and its blocks and the allowances fit LOGSIZE |
| `LogSafety.LoggedStaysCached` | initial-xv6/src/kernel/log.c:215-235 | from log_write until it is installed a logged block's buffer is referenced, valid and not recyclable; it holds the last change to it, which is what log_write was last handed exactly when no release spoilt it, and once committed what the commit gave the block |
| `LogSafety.WriteSlotSource` | initial-xv6/src/kernel/log.c:179-191 | write_log copies from the pinned buffer, never stale disk data; the contents are those last handed to log_write exactly when the buffer is not spoilt |
| `LogSafety.UnreferencedMatchesDisk` | initial-xv6/src/kernel/bio.c:59-89 | in every reachable state an unreferenced valid buffer equals the disk, so that recycling it loses nothing, exactly when it is not spoilt |
| `LogFaults.SlotHoldsHandedIff` | initial-xv6/src/kernel/log.c:179-235 | over any steps after the last log_write or modified release of a block and up to its commit: its slot gets the contents last handed to log_write exactly when that last one was a log_write, or a release that left what had been handed over |
| `LogFaults.UnreferencedIff` | initial-xv6/src/kernel/bio.c:59-137 | over any steps after a modified release of a block that is not logged: its unreferenced buffer equals the disk exactly when the release left what is on the disk |
| `LogFaults.CarefulBlock` | initial-xv6/src/kernel/log.c:117-235 | a block that no step releases modified keeps every guarantee in every run: slots, unreferenced buffers and committed groups hold what log_write was handed |
| `LogFaults.RecoveredIsHandedIff` | initial-xv6/src/kernel/log.c:117-235 | a recovered home block is what the committed log_writes alone make of it exactly when the last group that changes it ended with what log_write was handed |
| `LogFaults.RecoveredBlockIff` | initial-xv6/src/kernel/log.c:117-235 | over any run: after a commit of a block, and until a later commit changes it, recovery yields what the log_writes alone make of it exactly when the last log_write or modified release before that commit was a log_write, or a release that left what had been handed over |
| `LogFaults.SpoiltSlot` | initial-xv6/src/kernel/fs.c:516-528 | a run in which a slot gets contents that no log_write handed over: a second, failing change to a block just logged |
| `LogFaults.SpoiltUnreferenced` | initial-xv6/src/kernel/fs.c:516-528 | a run in which an unreferenced valid buffer is not what is on the disk: a failing change to a block that is not logged |
| `LogSpace.AdmissionReserves` | initial-xv6/src/kernel/log.c:127-142 | in every run the log's length plus what the operations in progress may still add stays within LOGSIZE |
| `LogSpace.SmallOperationsNeverPanic` | initial-xv6/src/kernel/log.c:215-235 | with nlog at least LOGSIZE, operations that newly log fewer than MAXOPBLOCKS blocks never meet the size panic |
| `LogSpace.FullOperationsPanic` | initial-xv6/src/kernel/log.c:215-235 | on a disk with LOGSIZE blocks outside the log, operations that use their whole allowance of MAXOPBLOCKS, all for such blocks, can run into it |
| `LogSpace.PanicFreeIff` | initial-xv6/src/kernel/log.c:127-235 | so the panic is unreachable exactly when every operation newly logs fewer than MAXOPBLOCKS blocks |
| `LogSpace.BeginIff` | initial-xv6/src/kernel/log.c:127-142 | in every run, an operation can begin exactly when no commit runs and the blocks logged, with MAXOPBLOCKS for each operation in progress and for the new one, fit LOGSIZE |
| `LogSpace.PartlyFull` | initial-xv6/src/kernel/log.c:127-142 | at one input: with six blocks logged and one operation in progress another is admitted, and not a third after it has been |
| `LogProjection.Projection` | initial-xv6/src/kernel/log.c:127-235 | every run of the concurrent machine, crashes included, in which each operation keeps its allowance of new blocks ends in a state of the log that a run of the admission model reaches |
| `LogProjection.MachineNeverPanics` | initial-xv6/src/kernel/log.c:215-235 | so in the concurrent machine no log_write meets the size panic while every operation newly logs fewer than MAXOPBLOCKS blocks |
| `LogProjection.MachineReserves` | initial-xv6/src/kernel/log.c:127-142 | and in it the log's length plus what the operations in progress may still add stays within LOGSIZE |
| `Lru.SortedByRecency` | initial-xv6/src/kernel/bio.c:117-137 | after any history of releases one buffer stands before another exactly when it was released later, or neither was and it did at the start |
| `Bio.Bcache.Binit` | initial-xv6/src/kernel/bio.c:37-53 | a ring of all NBUF buffers, the last one linked in first, all free and invalid |
| `Bio.Bcache.Unlink` | initial-xv6/src/kernel/bio.c:117-137 | taking a buffer out leaves a ring of the others in the same order |
| `Bio.Bcache.PushFront` | initial-xv6/src/kernel/bio.c:37-53 | linking a buffer in after the head leaves a ring with it in front |
| `Bio.Bcache.FindCached` | initial-xv6/src/kernel/bio.c:59-73 | the forward search finds a buffer of the block exactly when there is one |
| `Bio.Bcache.FindVictim` | initial-xv6/src/kernel/bio.c:75-88 | the backward search finds the free buffer that every other free buffer stands before |
| `Bio.Bcache.Bget` | initial-xv6/src/kernel/bio.c:59-89 | a hit gains a reference and its lock, or waits for the lock holding its reference; a miss recycles the free buffer nearest the tail; no other buffer changes and no block is cached twice |
| `Bio.Bcache.Bread` | initial-xv6/src/kernel/bio.c:93-103 | a locked valid buffer that holds what a client last changed it to since it was read or written, or else the disk's block; or, if another thread has it, the caller waits |
| `Bio.Bcache.Woken` | initial-xv6/src/kernel/bio.c:65-103 | the thread that waited gets the lock, and the block if it had not been read yet |
| `Bio.Bcache.Bwrite` | initial-xv6/src/kernel/bio.c:107-112 | the disk block becomes the buffer's contents and nothing else changes |
| `Bio.Bcache.Brelse` | initial-xv6/src/kernel/bio.c:117-137 | unlocks, drops a reference, and at zero moves the buffer to the front and extends the release history |
| `Bio.Bcache.Bpin` | initial-xv6/src/kernel/bio.c:140-144 | one reference more and nothing else |
| `Bio.Bcache.Bunpin` | initial-xv6/src/kernel/bio.c:147-151 | one reference less and nothing else |
| `Bio.Bcache.VictimIsLeastRecent` | initial-xv6/src/kernel/bio.c:59-137 | the buffer a miss recycles was released no later than any other free one |
| `Bio.Bcache.FreeMatchesDisk` | initial-xv6/src/kernel/bio.c:59-137 | a free valid buffer of a real device equals the disk exactly when no client has changed it since it was read or written, or the last change was to what is on the disk |
| `Bio.Bcache.ReleaseModified` | initial-xv6/src/kernel/bio.c:59-137 | a client that changes a buffer and releases it leaves a free valid buffer unlike the disk |
| `FsImage.OneHolder` | initial-xv6/src/kernel/fs.c:383-453 | with exact ownership no two slots, direct, root or indirect, of any inodes name the same block |
| `FsImage.ContentsAt` | initial-xv6/src/kernel/fs.c:383-421 | byte p of a file lies in block p / 1024 at p % 1024; the inode names the first 12 blocks, its indirect block the others |
| `FsImage.LowByteFirst` | initial-xv6/src/kernel/fs.c:408-417 | an entry of an indirect block is stored low byte first and no other byte changes |
| `FsImage.LinkKeeps` | initial-xv6/src/kernel/fs.c:383-421 | giving a held zeroed block to an empty slot keeps ownership exact and every file's bytes |
| `FsImage.LinkEntryKeeps` | initial-xv6/src/kernel/fs.c:383-421 | the same for an entry of an indirect block |
| `FsImage.TruncatedFrees` | initial-xv6/src/kernel/fs.c:426-453 | after truncation exactly the blocks the file's slots named are free and every other bit is as it was |
| `FsCode.FileSystem.Balloc` | initial-xv6/src/kernel/fs.c:66-88 | the first free block, zeroed and marked; 0 only when every bit is set |
| `FsCode.FileSystem.Bfree` | initial-xv6/src/kernel/fs.c:92-105 | clears the bit of an allocated block and nothing else; the panic check is a precondition that truncation always meets |
| `FsCode.FileSystem.BlockNumbers` | initial-xv6/src/kernel/fs.h:45-51 | the bits and inodes that share a block that log_write is passed are those of one stretch of BPB and of IPB |
| `FsCode.FileSystem.Bmap` | initial-xv6/src/kernel/fs.c:383-421 | the block of the slot, allocated with its indirect block if missing; ownership stays exact and no file's bytes change, also when the disk fills up half way; every block that changes is passed to log_write |
| `FsCode.FileSystem.WriteLoop` | initial-xv6/src/kernel/fs.c:516-528 | writei's loop writes its bytes across blocks and the direct/indirect split and touches no other byte of any file; it stops for lack of space exactly when the range needs more blocks than are free, and at a fault counts the chunks before it; every block that changes is passed to log_write, but for the faulting chunk's |
| `FsCode.FileSystem.Writei` | initial-xv6/src/kernel/fs.c:506-539 | refused exactly when it starts past the end or would end past the largest file; otherwise the count returned and the file's new bytes are determined by the state before: complete, stopped where the free blocks run out, or at the chunk that faults, and the file holds more than is reported exactly as LeakShowsIff says; no other file changes, ownership stays exact and files stay without holes; every data, bitmap and inode block that changes is passed to log_write, but for the block of a faulting chunk |
| `FsCode.FileSystem.Readi` | initial-xv6/src/kernel/fs.c:472-496 | reads exactly the slice of the byte sequence, cut at the end of the file, and changes nothing |
| `FsCode.FileSystem.Itrunc` | initial-xv6/src/kernel/fs.c:426-453 | the file becomes empty, all and only its blocks are freed, no bfree panics, every other file keeps its bytes, and every bitmap and inode block that changes is passed to log_write |
| `FsBytes.WroteContents` | initial-xv6/src/kernel/fs.c:506-539 | what the file holds after bytes have reached its blocks and the size has been raised over the first r of them |
| `FsSpace.LeakShowsIff` | initial-xv6/src/kernel/fs.c:516-528 | a write changes more of the file than it reports exactly when the disk has room for it, not all bytes can be copied in, and a byte copied from the failing chunk lands inside the file on a byte that differs |
| `FsCode.FaultingWrite` | initial-xv6/src/kernel/fs.c:516-528 | a write of three bytes over a file of two, of which two can be copied in, reports 0 and has changed both |
| `FsSpace.NeedStep` | initial-xv6/src/kernel/fs.c:383-421 | mapping a block uses up free blocks exactly as it reduces the number of blocks that the rest of the range needs, the indirect block included, on failure too |
| `FsSpace.RunsOutOnce` | initial-xv6/src/kernel/fs.c:516-528 | the free blocks run out at one place of a range only, so that a short write's length is determined before it |
| `FsBytes.FileStateMore` | initial-xv6/src/kernel/file.c:148-175 | a chunk starting where the last ended extends what has been written |
| `FsCode.FileSystem.ChunkLogsAtMostSeven` | initial-xv6/src/kernel/file.c:148-175 | one filewrite chunk on a disk with one bitmap block logs at most 7 distinct blocks |
| `FsCode.FileSystem.WriteTransaction` | initial-xv6/src/kernel/file.c:156-166 | one transaction writes one chunk, advances the offset by what was written and logs at most 7 blocks, among them every one that has changed but for a faulting chunk's |
| `FsCode.FileSystem.Filewrite` | initial-xv6/src/kernel/file.c:135-181 | the chunks together overwrite the file with the buffer, in one transaction for every three blocks of bytes; the result is n or -1, and for n > 0 it is n exactly when the offset has moved on by n |
| `Mkfs.Builder.constructor` | initial-xv6/src/mkfs/mkfs.c:93-117 | the empty image has exact ownership and no holes, and every file is empty |
| `Mkfs.Builder.Ialloc` | initial-xv6/src/mkfs/mkfs.c:221-232 | the next inode number with an empty file, unless it lies outside the inode blocks; all files keep their bytes |
| `Mkfs.Builder.Map` | initial-xv6/src/mkfs/mkfs.c:263-282 | the block for a file block, taken in order if missing, with the indirect block the first time; no other slot is filled; it succeeds exactly when the image has the blocks this takes, and hands out exactly these |
| `Mkfs.Builder.Iappend` | initial-xv6/src/mkfs/mkfs.c:253-294 | the files afterwards are the files before with the bytes appended to one; ownership stays exact and nothing lies past any end; it succeeds exactly when the file stays within MAXFILE blocks and the image has the blocks that its growth takes, and how many are handed out is determined either way |
| `Mkfs.Builder.CopyIn` | initial-xv6/src/mkfs/mkfs.c:157-158 | whatever the sizes of the reads, the file gets exactly the bytes, or the same blocks are handed out before it dies |
| `Mkfs.Builder.AddFile` | initial-xv6/src/mkfs/mkfs.c:130-161 | a new inode with the file's bytes and one root entry that names it, and nothing else changes, exactly when the name has no slash, the inode number is within the inode blocks, and entry and bytes fit |
| `Mkfs.Builder.Balloc` | initial-xv6/src/mkfs/mkfs.c:235-248 | the free map written at the end marks exactly the blocks handed out |
| `Mkfs.Builder.Mkfs` | initial-xv6/src/mkfs/mkfs.c:68-173 | a whole run, determined by its arguments: it completes exactly when there are inodes for all files, names, lengths and the directory are in range, and metadata, directory and files fit the image and one free map block; then every file holds its argument's bytes, the root lists them and is padded with zeros, ownership is exact under the free map written, and there are no holes exactly when the directory does not fill its last block |
| `Mkfs.SpiltRun` | initial-xv6/src/mkfs/mkfs.c:93-161 | with the sizes of the source, 2000 blocks of which 46 are metadata and 13 inode blocks, and 207 empty files mkfs gives out an inode number outside the inode blocks |
| `Mkfs.HoleRun` | initial-xv6/src/mkfs/mkfs.c:93-173 | with 62 empty files it completes and leaves a hole in the root directory |
| `MkfsFiles.ChunkNeeds` | initial-xv6/src/mkfs/mkfs.c:263-282 | mapping the block of a chunk takes as many blocks as the chunk makes a file without gaps grow by |
| `MkfsFiles.UsedMore` | initial-xv6/src/mkfs/mkfs.c:253-294 | appending twice hands out what appending at once does |
| `MkfsFiles.OneMore` | initial-xv6/src/mkfs/mkfs.c:130-161 | one file more fits exactly when its name, entry and bytes do, and the blocks add up |
| `MkfsFiles.RoundingLeavesHole` | initial-xv6/src/mkfs/mkfs.c:163-168 | rounding a file's size up adds zero bytes only, and leaves no hole exactly when the size was not already a multiple of the block size |
| `MkfsFiles.StillTidy` | initial-xv6/src/mkfs/mkfs.c:263-294 | appending leaves no block owned and no nonzero byte past the end of any file |
| `MkfsFiles.DirectoryEntry` | initial-xv6/src/mkfs/mkfs.c:152-155 | entry 2 + k of the root directory is the entry made for file k |
| `MkfsFiles.DirectoryReads` | initial-xv6/src/mkfs/mkfs.c:118-155 | read back from its bytes, the root directory names inode 1 as . and .. and inode 2 + k by file k's name, padded with zeros or cut at 14 bytes, and nothing else |
| `MkfsFiles.NamesAre` | initial-xv6/src/mkfs/mkfs.c:130-149 | a name loses one leading user/ and then one leading underscore, and nothing more |
| `MkfsFiles.UnfitIff` | initial-xv6/src/mkfs/mkfs.c:130-161 | a file is refused by itself exactly when a slash is left in its name or it is longer than 268 blocks |
| `MkfsFiles.InodeBlockIff` | initial-xv6/src/mkfs/mkfs.c:184-196 | winode writes outside the inode blocks exactly from the first inode number that they have no room for, and first over the free map |
| `VmImage.PteParts` | initial-xv6/src/kernel/vm.c:157-157 | the frame and the flags put into an entry are the ones read back from it |
| `VmImage.EntryFields` | initial-xv6/src/kernel/riscv.h:340-352 | an entry's bits as the hardware reads them: V, then R, W and X that make it a leaf, flags below bit 10 and the frame above |
| `VmImage.LookupWalk` | initial-xv6/src/kernel/riscv.h:354-357 | a page is translated by nine bits of its number at each of three levels, the highest first |
| `VmImage.OneMapping` | initial-xv6/src/kernel/vm.c:86-165 | a data page is mapped in one tree at one address only |
| `VmImage.LinkedKeeps` | initial-xv6/src/kernel/vm.c:93-101 | linking a fresh empty table changes no translation in any tree and keeps ownership exact |
| `VmImage.GiveLeafKeeps` | initial-xv6/src/kernel/vm.c:157-157 | setting one leaf entry changes that translation only |
| `VmImage.DropLeafKeeps` | initial-xv6/src/kernel/vm.c:190-190 | clearing one leaf entry removes that translation only |
| `VmCode.Kernel.constructor` | initial-xv6/src/kernel/kalloc.c:27-31 | at boot no page is free and every managed page is accounted for |
| `VmCode.Kernel.Freerange` | initial-xv6/src/kernel/kalloc.c:34-40 | exactly the whole pages inside the range become free |
| `VmCode.Kernel.Kfree` | initial-xv6/src/kernel/kalloc.c:47-63 | the page goes to the front of the list threaded through the free pages and is filled with junk |
| `VmCode.Kernel.Kalloc` | initial-xv6/src/kernel/kalloc.c:69-82 | the first page of the list, filled with junk; 0 exactly when the list is empty |
| `VmCode.Kernel.Descend` | initial-xv6/src/kernel/vm.c:92-101 | one level of the walk, adding an empty table when asked to |
| `VmCode.Kernel.Walk` | initial-xv6/src/kernel/vm.c:86-105 | finds the leaf table of the address and changes no translation; allocating, it fails exactly when fewer pages are free than the way there lacks tables, and takes exactly these |
| `VmCode.Kernel.Mappages` | initial-xv6/src/kernel/vm.c:143-165 | adds exactly the requested translations to consecutive frames; -1, with exactly a prefix of them mapped, exactly when the range lacks more tables than pages are free |
| `VmSpace.TablesStep` | initial-xv6/src/kernel/vm.c:86-105 | the walk to a page leaves the rest of a range to need exactly the tables less that it added, those shared by later pages included |
| `VmMaps.CanMapRest` | initial-xv6/src/kernel/vm.c:150-163 | after some pages of a range have been mapped the rest still can be, so remap never panics |
| `VmCode.Kernel.Uvmunmap` | initial-xv6/src/kernel/vm.c:171-192 | removes exactly the translations of the range and frees exactly its data pages; panics exactly when the address is not aligned or a page of the range is not mapped |
| `VmMaps.ExtendedUndone` | initial-xv6/src/kernel/vm.c:226-249 | unmapping what was mapped leaves every translation and every page as before, but for added tables |
| `VmCode.Kernel.NewPage` | initial-xv6/src/kernel/vm.c:234-245 | a fresh page with the given contents mapped at the address, exactly when one page and the tables it lacks are free; otherwise the page is given back |
| `VmCode.Kernel.Uvmalloc` | initial-xv6/src/kernel/vm.c:226-249 | grows the user space with zeroed pages of its own, each mapped with R and U set and with W and X as asked, exactly when as many pages are free as the data pages and the tables they lack; on failure only tables are left over and every data page is returned |
| `VmCode.UserPermEntry` | initial-xv6/src/kernel/vm.c:242-242 | an entry made with PTE_R|PTE_U|xperm lets the user in and read, and write and execute exactly as xperm says |
| `VmCode.PageCountLeast` | initial-xv6/src/kernel/riscv.h:338-338 | a size is rounded up to the fewest whole pages that hold it |
| `VmCode.Kernel.Uvmdealloc` | initial-xv6/src/kernel/vm.c:256-267 | unmaps and frees exactly the pages between the two sizes, none when the new size is not smaller |
| `VmMaps.SpaceShrunk` | initial-xv6/src/kernel/vm.c:256-267 | what is left of a user space after its top pages are unmapped is the smaller user space |
| `VmCode.Kernel.Uvmcreate` | initial-xv6/src/kernel/vm.c:197-205 | a new root page with a tree that maps nothing; 0 exactly when there is no page |
| `VmCode.Kernel.Uvmcopy` | initial-xv6/src/kernel/vm.c:306-333 | the child's user space has the parent's permissions and contents in pages of its own and the parent's is unchanged, exactly when as many pages are free as the pages copied and the tables they lack; on failure every data page is returned |
| `VmFree.BareSub` | initial-xv6/src/kernel/vm.c:272-287 | the tables of a tree without leaves are what freewalk expects, at every level |
| `VmCode.Kernel.Freewalk` | initial-xv6/src/kernel/vm.c:272-287 | frees exactly the table pages under the given one, each once, and never panics |
| `VmFree.TreeGone` | initial-xv6/src/kernel/vm.c:272-287 | after its tables are released the tree owns nothing and all other trees translate as before |
| `VmCode.Kernel.Uvmfree` | initial-xv6/src/kernel/vm.c:292-297 | at the matching size every data and table page of the tree is freed exactly once and nothing else is |
| `VmCopy.GetSetByte` | initial-xv6/src/kernel/vm.c:364-364 | storing one byte of a 64-bit word changes that byte only |
| `VmCopy.LowByteFirst` | initial-xv6/src/kernel/vm.c:364-364 | the eight bytes of a word lie at eight addresses in a row, lowest first |
| `VmCopy.StoredCopied` | initial-xv6/src/kernel/vm.c:352-371 | storing a byte in a page of the process's own changes that byte of that process's memory and no byte of any other |
| `VmCopy.SpaceIsOwn` | initial-xv6/src/kernel/vm.c:109-126 | in a user space the pages the user may access are the process's own |
| `VmCopy.Walkaddr` | initial-xv6/src/kernel/vm.c:109-126 | the frame behind the address exactly when it lies below MAXVA and its entry has V and U set; nothing changes |
| `VmCopy.Copyout` | initial-xv6/src/kernel/vm.c:352-371 | the bytes arrive at the user addresses across pages and no other byte of any process changes; -1 exactly at the first page that may not be accessed, with the bytes before it written |
| `VmCopy.Copyin` | initial-xv6/src/kernel/vm.c:377-396 | the bytes returned are those at the user addresses, up to the first page that may not be accessed |
| `VmCopy.Copyinstr` | initial-xv6/src/kernel/vm.c:403-439 | the string with its NUL when it ends within the limit; otherwise -1, at the limit or at the first page that may not be accessed |
| `VmCopy.CopiedReadsBack` | initial-xv6/src/kernel/vm.c:352-396 | what was copied out is what copying in reads back |
| `VmCopy.GrowThenRead` | initial-xv6/src/kernel/vm.c:226-396 | what uvmalloc has added may be accessed throughout, and copyin reads zeros from it |
| `VmCopy.ChildReadsSame` | initial-xv6/src/kernel/vm.c:306-396 | after uvmcopy the child may access the addresses that the parent may, and reads the same bytes there |
| `Umalloc.RequestFaithfulIff` | initial-xv6/src/user/umalloc.c:47-61 | the int that sbrk receives is the size asked for exactly when the request is below 2^27 units, and is never more |
| `Umalloc.HonestIff` | initial-xv6/src/user/umalloc.c:47-61 | the units that morecore's header claims are those that sbrk gave exactly for requests below 2^27 units |
| `Umalloc.HugeRequest` | initial-xv6/src/user/umalloc.c:64-90 | on a fresh heap a request for 2^32 - 1 bytes obtains one unit and returns a block of 2^28 + 1 |
| `Umalloc.LeftOver` | initial-xv6/src/user/umalloc.c:64-90 | where nothing fitted, a request below 4096 units is cut from the new memory and leaves a free block of at least 4096 units less the request |
| `Umalloc.TwoSmallRequests` | initial-xv6/src/user/umalloc.c:47-90 | on a fresh heap a first request that fits one call's memory asks sbrk for 4096 units, and a second one that fits what is left does not call it |
| `UmallocList.InsertKeeps` | initial-xv6/src/user/umalloc.c:25-44 | freeing a block into its gap leaves the list ordered and fully coalesced, with exactly the block's units more |
| `UmallocList.CarveOrdered` | initial-xv6/src/user/umalloc.c:75-84 | taking units from the end of a block leaves the list ordered and coalesced |
| `UmallocList.CarveUnits` | initial-xv6/src/user/umalloc.c:75-84 | and exactly those units leave the list |
| `UmallocList.LinkedJoin` | initial-xv6/src/user/umalloc.c:31-41 | joining two neighbours in the headers is joining them in the list |
| `UmallocList.LinkedRemove` | initial-xv6/src/user/umalloc.c:76-77 | bypassing a block in the headers is removing it from the list |
| `UmallocList.TakePartition` | initial-xv6/src/user/umalloc.c:64-90 | units taken from the free list become a live block disjoint from all others |
| `UmallocList.Conservation` | initial-xv6/src/user/umalloc.c:25-90 | free units plus live units are the units obtained from sbrk |
| `Umalloc.GapTest` | initial-xv6/src/user/umalloc.c:30-32 | free's search stops at the entry before the gap and at no other |
| `Umalloc.Heap.FindGap` | initial-xv6/src/user/umalloc.c:30-32 | the search over the circular list ends, at the entry before the gap |
| `Umalloc.Heap.LinkUp` | initial-xv6/src/user/umalloc.c:33-37 | joins the block with the entry above it when they touch, else points it there |
| `Umalloc.Heap.LinkDown` | initial-xv6/src/user/umalloc.c:38-43 | joins it with the entry below when they touch; the list is then the insertion, coalesced |
| `Umalloc.Heap.Free` | initial-xv6/src/user/umalloc.c:25-44 | the block leaves the live ones, exactly its units become free, the search starts next at the entry below it, and the heap invariant holds |
| `Umalloc.Heap.Morecore` | initial-xv6/src/user/umalloc.c:47-61 | a stretch of 4096 units, or of the size asked for when that is more, joins the free list at the entry the search starts from; the units obtained are those that sbrk gives for the int it receives; nothing changes when sbrk fails |
| `Umalloc.Heap.TakeFrom` | initial-xv6/src/user/umalloc.c:75-86 | the block found is removed or cut at its end and the cut becomes live |
| `Umalloc.Heap.Malloc` | initial-xv6/src/user/umalloc.c:64-90 | a live block disjoint from all others, from the first fit after freep; the search ends, asks for memory at most once and exactly when nothing fits, for 4096 units at least, and fails only when sbrk does; what is left of a small request's new memory stays free; the blocks are made of units obtained from sbrk exactly when something fitted, sbrk failed, or the request is below 2^27 units |
| `SleepLock.StepKeeps` | initial-xv6/src/kernel/sleeplock.c:22-52 | every interleaved step of acquire, release, query, sleep, wakeup, scheduler and kill keeps the lock invariant |
| `SleepLock.NoLostWakeup` | initial-xv6/src/kernel/sleeplock.c:22-41 | when the spinlock is free and the lock is not taken no process is asleep on it or committed to sleeping |
| `SleepLock.SleeperHasWaker` | initial-xv6/src/kernel/proc.c:869-915 | at any other moment every sleeper has someone to wake it: the owner, or a release whose wakeup has not passed it |
| `SleepLock.MutualExclusion` | initial-xv6/src/kernel/sleeplock.c:22-41 | at most one process owns the lock, and one does exactly when it is locked |
| `SleepLock.HoldingExact` | initial-xv6/src/kernel/sleeplock.c:44-52 | holdingsleep answers exactly whether its caller owns the lock |
| `SleepLock.KillWakes` | initial-xv6/src/kernel/proc.c:920-940 | kill wakes a process asleep on the lock and touches nothing of the lock |
| `WaitExit.StepKeeps` | initial-xv6/src/kernel/proc.c:321-580 | every interleaved step of fork, also when it fails, exit, reparent, wait, sleep, wakeup, kill and the scheduler keeps the invariant |
| `WaitExit.NoLostChild` | initial-xv6/src/kernel/proc.c:375-580 | when wait_lock is free no process is asleep in wait, or committed to it, with a zombie child, reparented children included |
| `WaitExit.OnlyInitLags` | initial-xv6/src/kernel/proc.c:375-387 | with wait_lock held the one exception is initproc, and the holder is about to wake it |
| `WaitExit.NoChildrenIsTrue` | initial-xv6/src/kernel/proc.c:558-563 | wait reports no children only when there are none |
| `WaitExit.WaitDecides` | initial-xv6/src/kernel/proc.c:540-578 | where wait's scan ends no child is a zombie, and it goes to sleep exactly if there is a child and the caller has not been killed, returns -1 as killed exactly if there is one and it has, and as childless exactly if there is none |
| `WaitExit.WaitAnswers` | initial-xv6/src/kernel/proc.c:543-575 | what wait answers is so: a caller told it has been killed has been, the child reaped has its slot freed, one whose status could not be copied out is still its zombie child |
| `WaitExit.ReapFrees` | initial-xv6/src/kernel/proc.c:552-564 | reaping clears the child's whole slot and no other, and a failing copyout clears nothing |
| `WaitExit.ForkMakesChild` | initial-xv6/src/kernel/proc.c:362-371 | fork ends with its slot a runnable child of the caller |
| `WaitExit.ExitGivesToInit` | initial-xv6/src/kernel/proc.c:375-387 | exit makes initproc the parent of a child, turns to waking it, and changes no other process |
| `WaitExit.KillWakes` | initial-xv6/src/kernel/proc.c:920-940 | kill marks the process, makes it runnable if it sleeps, and changes no other |
| `WaitExit.HasParent` | initial-xv6/src/kernel/proc.c:321-387 | every process but initproc that fork has finished has a parent until it is reaped |
| `WaitExit.ReapIsSafe` | initial-xv6/src/kernel/proc.c:543-555 | the slot wait frees is its own zombie child's, which has left its stack for good and has no children left |
| `WaitExit.ParentsAlive` | initial-xv6/src/kernel/proc.c:375-387 | no process is ever left with a zombie or a free slot as its parent |
| `Mlfq.Mlfq.Enqueue` | initial-xv6/src/kernel/proc.c:595-599 | the process goes to the end of the queue and no other queue changes |
| `Mlfq.Mlfq.Dequeue` | initial-xv6/src/kernel/proc.c:602-613 | the first process leaves the queue, the others move up in order |
| `Mlfq.Mlfq.PriorityBoost` | initial-xv6/src/kernel/proc.c:616-628 | queue 0 becomes the concatenation of queues 0 to 3 and the others empty; those that moved start at priority 0 with no ticks and a slice of 1, all others keep their accounting |
| `Mlfq.BoostKeeps` | initial-xv6/src/kernel/proc.c:616-628 | the boost keeps the entries as a multiset and their number |
| `Mlfq.Mlfq.Yield` | initial-xv6/src/kernel/proc.c:821-844 | the scan, which may move the process twice, ends with it once, at the end of its priority's queue, all others in order |
| `Mlfq.MovedOnly` | initial-xv6/src/kernel/proc.c:821-844 | after the move the process is at the end of that queue and nowhere else |
| `Mlfq.MovedTwice` | initial-xv6/src/kernel/proc.c:821-844 | meeting the process again further on changes nothing |
| `Mlfq.MovedKeeps` | initial-xv6/src/kernel/proc.c:821-844 | the move keeps the entries as a multiset and their number, so the bounds hold |
| `Mlfq.WithoutOrder` | initial-xv6/src/kernel/proc.c:821-844 | any two other processes of a queue keep their order |
| `Mlfq.Mlfq.Pick` | initial-xv6/src/kernel/proc.c:761-783 | the scheduler runs the first runnable process of the highest queue that has one |
| `Lottery.OneHolder` | initial-xv6/src/kernel/proc.c:727-740 | a winning number falls on one process only |
| `Lottery.Count` | initial-xv6/src/kernel/proc.c:699-713 | the total of the runnable tickets, and an earliest process for each number of tickets |
| `Lottery.Draw` | initial-xv6/src/kernel/proc.c:699-745 | the process selected is an earliest runnable one among those with as many tickets as the holder of the winning number; none only when nobody holds a ticket |
| `Lottery.WinnersCount` | initial-xv6/src/kernel/proc.c:727-740 | as many numbers fall on processes with t tickets as those processes hold tickets |
| `Lottery.Fairness` | initial-xv6/src/kernel/proc.c:699-745 | of all winning numbers exactly that many lead to running a process with t tickets |
| `ShSyntax.LexShow` | initial-xv6/src/user/sh.c:267-309 | tokens written out and read back are the same tokens |
| `ShSyntax.LexSpread` | initial-xv6/src/user/sh.c:263-309 | tokens spaced in any way, a newline at the end included, are read back, as long as two words, or two > that are not one >>, are kept apart |
| `ShRoundTrip.RoundTrip` | initial-xv6/src/user/sh.c:329-447 | every legal command tree, printed with parentheses where needed, is parsed back as it was |
| `ShRoundTrip.RoundTripSpaced` | initial-xv6/src/user/sh.c:263-447 | and however the printed tokens are spaced |
| `ShRoundTrip.Redirections` | initial-xv6/src/user/sh.c:376-447 | two words are a command and its argument; < reads a file, > writes it and >> appends to it |
| `ShRoundTrip.Operators` | initial-xv6/src/user/sh.c:346-414 | | makes a pipe, ; a list and & a background command, and parentheses group what a redirection applies to |
| `ShAccepted.RedirsAnywhere` | initial-xv6/src/user/sh.c:376-447 | redirections before, among and after the words give the same command as all of them at the end in that order |
| `ShAccepted.ParensParse` | initial-xv6/src/user/sh.c:401-414 | parentheses around any command leave its tree as it is |
| `ShAccepted.NothingLost` | initial-xv6/src/user/sh.c:329-447 | an accepted line has exactly the tokens of its tree, as often, but for parentheses, and closes as many of these as it opens |
| `ShRoundTrip.AcceptedIsStable` | initial-xv6/src/user/sh.c:329-447 | a line that is accepted gives a legal tree, and printing and parsing it again changes nothing |
| `ShRoundTrip.LineRound` | initial-xv6/src/user/sh.c:346-360 | a printed line followed by its end or ) is parsed as that line and no more |
| `ShRoundTrip.ExecRound` | initial-xv6/src/user/sh.c:401-447 | the same for a simple, redirected or parenthesised command followed by what ends it |
| `ShCode.Gettoken` | initial-xv6/src/user/sh.c:267-309 | returns the next token of the line and leaves the rest, with the exact span of a word |
| `ShCode.Peek` | initial-xv6/src/user/sh.c:312-321 | skips white space only and tells whether the next token starts with one of the characters |
| `ShCode.Parseredirs` | initial-xv6/src/user/sh.c:376-398 | follows the grammar for redirections, error included |
| `ShCode.Parseexec` | initial-xv6/src/user/sh.c:417-447 | follows the grammar for simple commands, with both of its panics |
| `ShCode.Parseblock` | initial-xv6/src/user/sh.c:401-414 | follows the grammar for parenthesised commands |
| `ShCode.Parsepipe` | initial-xv6/src/user/sh.c:363-373 | follows the grammar for pipelines |
| `ShCode.Parseline` | initial-xv6/src/user/sh.c:346-360 | follows the grammar for lines, with & and ; |
| `ShCode.ParseText` | initial-xv6/src/user/sh.c:329-340 | on every line ends with the tree of the grammar or its panic, leftovers included |
| `ShCode.Parsecmd` | initial-xv6/src/user/sh.c:329-343 | on the line's buffer: the tree of the grammar with every word a C string in the buffer, or its panic with the buffer unchanged |
| `ShCode.ParsePrinted` | initial-xv6/src/user/sh.c:329-494 | every legal command tree written into a buffer with any spacing and parsed there: the tree with its words read as C strings from the buffer is the one written |
| `ShCode.Nulterminate` | initial-xv6/src/user/sh.c:451-494 | writes a NUL at the end of every word of the tree and nowhere else |
| `ShCode.WordsTerminated` | initial-xv6/src/user/sh.c:451-494 | after that every word read as a C string is exactly the word parsed |
| `Grep.LitHere` | initial-xv6/src/user/grep.c:84-95 | a character or . matches one fitting character and then the rest |
| `Grep.StarHere` | initial-xv6/src/user/grep.c:98-105 | c* matches any number of fitting characters and then the rest |
| `Grep.Matchhere` | initial-xv6/src/user/grep.c:84-95 | true exactly when some prefix of the text, all of it under a final $, is in the pattern's language |
| `Grep.Matchstar` | initial-xv6/src/user/grep.c:98-105 | the same for c* followed by a pattern |
| `Grep.Match` | initial-xv6/src/user/grep.c:72-81 | true exactly when some substring, placed as ^ and $ demand, is in the pattern's language |
| `Grep.LiteralFound` | initial-xv6/src/user/grep.c:72-95 | a pattern of plain characters is found exactly where the text has it |
| `Grep.DotFound` | initial-xv6/src/user/grep.c:84-95 | '.' between plain characters stands for any one character |
| `Grep.StarFound` | initial-xv6/src/user/grep.c:84-105 | c* between plain characters stands for any number of c, and .* for anything |
| `Grep.AnchorsFound` | initial-xv6/src/user/grep.c:72-95 | ^ in front ties a match to the start of the text and $ behind to its end |
| `Pipe.CounterTests` | initial-xv6/src/kernel/pipe.c:83-124 | the empty and full tests and the slots computed from wrapped 32-bit counters are those of the unbounded counts |
| `Pipe.Pipe.constructor` | initial-xv6/src/kernel/pipe.c:23-56 | a new pipe is empty and open at both ends |
| `Pipe.Pipe.Write` | initial-xv6/src/kernel/pipe.c:77-103 | the bytes stored are the next ones of the buffer, in order, as many as fit before the pipe is full or the writer is killed; it sleeps only when full with a reader; it leaves a reader asleep beside data exactly when one sleeps and the writer is killed after at least one byte, before the last, and no later than the pipe fills or a byte cannot be copied in |
| `Pipe.Pipe.KilledWriter` | initial-xv6/src/kernel/pipe.c:77-128 | a reader asleep on an empty pipe stays asleep when a writer of two bytes is killed after the first |
| `Pipe.Pipe.Kill` | initial-xv6/src/kernel/proc.c:920-946 | a sleeper that kill has made runnable no longer waits for the pipe, and the others stay wakeable |
| `Pipe.Pipe.Readout` | initial-xv6/src/kernel/pipe.c:106-130 | takes the oldest bytes in order, as many as are there and fit; sleeps exactly when empty with a writer; a byte that cannot be copied out is lost |
| `Pipe.Pipe.Close` | initial-xv6/src/kernel/pipe.c:59-74 | closes one end, wakes those waiting for it, and reports when both are closed |

## Left out

- Device drivers, interrupts, assembly, context switching and start-up code: the disk is an atomic block map and a context switch is a step.
- Directories, path names, link counts and the inode cache with its locks; the system-call layer above the operations modelled.
- In file and pipe operations a faulting copy is a parameter that says how many bytes can be copied; `VmCopy` has the copies themselves.
- Bits of the free map are modelled as booleans, not packed in bytes; which bitmap block a bit is in is kept for counting logged blocks.
- Bio.Bcache.Bget: the sleep lock of a buffer is a flag here; a caller that finds it set has its reference and goes on in `Bio.Bcache.Woken`, and who is woken is left to `SleepLock`, which has the lock itself.
- FsCode.FileSystem.Iupdate: the inode block is one logged block and a copy of the inode; its byte layout is not modelled.
- Mkfs.Builder.Mkfs: files are given with their bytes, so opening them is not modelled; the superblock and the byte layout of inodes are not either. What an image holds after mkfs died, or after an inode was written outside the inode blocks, is not stated.
- VmCode.Kernel.Uvmunmap: pages that are mapped in the range are the tree's own data pages exactly when they are to be freed; freeing pages that somebody else owns is not modelled.
- VmCode.Kernel.Walk: kernel and trampoline mappings appear as pages outside the allocator or pinned ones; the hardware's use of the tables is not modelled.
- ShCode.Parseexec: words and redirections are put together at the end, where the source fills a node that redirections already surround; the pointer sharing is not modelled.
- WaitExit.StepKeeps: the transfer of system-call counts in exit, file descriptors, memory and the timing fields are left out.
- SleepLock.StepKeeps: processes are named by table index, not by pid, and progress of the scheduler is not a property here.
- MLFQ properties are about the queue operations on well-formed queues, not over fork and exit, which leave entries of freed slots behind.
- Lottery.Fairness: on a table that does not change during the draw; `rand` is a parameter.
- FsCode.FileSystem.Writei: `data` is what the buffer cache shows; the bytes of a faulting chunk are lost again when their buffer is recycled or the system crashes before the block is logged.
- LogSafety.StepKeeps: a failing write is a release of a modified buffer, whatever it contains; blocks are not tied to files there.
- Pipe.Pipe.Write: killed() is a parameter that counts rounds; sleeping processes are sets, and copying bytes in is a prefix of the buffer.
- The network programs, the alarm system calls, console.c and the uart ring.
- The loop of grep over its input buffer, and running the commands the shell parsed.
