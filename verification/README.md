# Verified model of a demand-paging xv6 kernel

This project models the hard parts of an xv6-riscv kernel extended with demand paging and swapping,
two of its user programs' cores, and proves properties of them for all inputs, states and runs.
`dafny verify dfyconfig.toml` checks all of it.

Code that updates state step by step is modelled as classes and methods with the same loops and
branches, proved against specification functions; protocols between processes, or between the
driver and the device, are state machines over the steps their locks allow, in every interleaving.

- **Write-ahead log** (`LogFormat`, `LogPlan`, `LogCode`, `LogRuns`). The code issues exact lists
  of block writes; every prefix of such a list is a crash. The main results are `CrashAtomicity`
  (over whole runs with any number of crashes) and `ProtocolSafe` (every interleaving of
  begin_op, log_write, end_op and commit).
- **Buffer cache** (`BufferCache`, `CommitBuffers`). The linked ring, least-recently-released
  recycling, pinning, "a read returns the latest contents", and when a commit can get its buffers.
- **Files** (`BlockData`, `FileBlocks`, `FileContents`, `InodeCalls`, `InodeCode`). Bitmap bytes,
  little-endian addresses in indirect blocks and inode addresses refine one byte sequence per file.
  Each block is owned by one use, because ownership is a function of the block. `Budget`, `FileWrite`
  and `SwapBudget` say how many blocks one transaction logs; `OverfullDisk` is a disk on which that
  is one too many.
- **Page tables and frames** (`Sv39`, `TableSteps`, `TableRelations`, `TableTrees`, `Frames`,
  `TableCalls`, `PageTable`). Memory is frames of 512 words; the free list runs through free pages.
  The three-level tree refines a flat map, against the translation algorithm of section 4.3.2 and
  the Sv39 format of section 4.4 of the RISC-V Privileged Architecture, v1.12.
- **Demand paging** (`MemStat`, `Swap`, `Residency`, `Permissions`, `Loader`, `UserMemory`, `Fault`,
  `Paging`). The residency table and victim choice, the swap store, lazy loading against the eager
  image of chapter 5 (Program Header) of the System V gABI, a process's frames with its table pages,
  the fault handlers, allocproc, exec, sbrk and freeproc, and "never writable and executable" over every
  run. `PageAt` is what an access sees at an address, wherever the page is; the handlers are specified
  by it. `Fate` and `ExecResult` list the ways a fault and an exec end, panics and hangs included.
- **Sleep/wakeup and wait/exit** (`SleepWakeup`, `WaitExit`). Lock-level state machines.
- **Virtio disk driver** (`Virtio`). The rings of section 2.6 and the block requests of section 5.2
  of VIRTIO 1.1, against a device that completes requests in any order.
- **Smaller pieces**: the pipe ring (`Pipe`), the K&R allocator (`HeapBlocks`, `Malloc`) and the
  shell's parser (`ShellGrammar`, `ShellLexer`, `ShellParser`).

Where the code does not do what one would expect, the model follows the code, and a lemma or
contract says exactly when it does:

- log_write tests for a full log before it looks for the block in the log, so it panics on a full
  log even for a block it would absorb (`LogWritePanicsWhenFull`); three operations within their
  budgets can fill the log (`FullLogReachable`).
- A commit panics in bget exactly if every buffer is in use and a log block is not cached; a full log
  pins every buffer there is (`CommitBuffers.WriteLog`, `OnlyTheLog`, `FullLogCannotCommit`).
- The swap table has 1024 slots, but a swap file holds 67 pages, so at most 67 pages are ever swapped
  out (`Swap.Store.SwapOut`).
- Swapping out an address that is stored already is visible to the next swap-in exactly if the first
  free slot is lower than the one it is stored in (`Swap.Store.SwapOut`, `StaleCopy`).
- The write of a swapped page stays within MAXOPBLOCKS except in one family of states, in which it
  takes eleven blocks (`SwapBudget.SwapWrite`, `OverfullDisk.FourthPage`). They need five bitmap
  blocks; the shipped disk has one.
- mappages that fails part-way leaves the earlier pages mapped; it fails exactly if the range lacks
  more tables than there are free frames, and panics if it meets a mapped page first
  (`PageTable.Memory.Mappages`).
- A page evicted with a clean record is dropped. A heap page read first is mapped writable with a
  clean record, so its contents survive eviction exactly if the record says dirty or they are what
  the page started from (`UserFault`, `CleanPageIsLost`).
- vmfault does not look in the swap store (`KernelFault`, `KernelMissesSavedPage`).
- A fault that had to evict leaves no frame for a table page, so it kills the process if one is
  missing (`Fault.Process.Room`).
- usertrap looks a page up in the residency table by the low 32 bits of its address. While a page is
  swapped out, an access at any address that agrees in them is taken for it: at or past MAXVA the
  kernel panics in walk, from 2^32 on the process is killed (`UserFault`, `FarReadPanics`). Pages that
  share a record can also leave a stored copy behind that the record denies (`Fate.Torn`).
- A swapped-out page past a shrunken break is served when it is touched, because the store is looked at
  before the break. The page then outlives its address space: exec and exit unmap up to the break only,
  and freewalk panics on it (`Paging.Exec`, `Freeproc`, `ExecPanics`, `ExitPanics`).
- exec jumps to its error exit with the file's inode locked and locks it again there, so a file without
  an ELF header, an unacceptable program header, or too little memory for a page table hangs the
  process inside its transaction (`Paging.Exec`, `ExecHangs`).
- A segment that ends in the last page of the 64-bit address space makes the stack wrap around to
  address 0, inside the segment. No page becomes writable and executable even then, but if the
  arguments fill the stack page the guard test misses the guard page, and an access to it is a remap
  panic (`ExecFences`, `RemapRun`).
- exec does not forget what is stored for the old image: a page still stored shows through, which is
  why `ExecThenTouch` is about pages that are not.
- Growing the break eagerly over a page that is still mapped past it panics (`Paging.Sbrk`).
- morecore passes its byte count as a C int, so a request that finds no free block yields memory
  nobody granted exactly if it exceeds 2^31 - 32 bytes, sbrk does not refuse and the process survives
  writing the block's header at the old break (`Malloc.Allocator.Malloc`, `HugeRequest`).
- The disk driver panics when the device reports an error (`Virtio.Disk.Interrupt`).

## Model

| member | source | states |
|---|---|---|
| `LogFormat.OwedTarget` | DemandPaging&Swapping/kernel/log.c:66-84 | recovery owes a block named in the on-disk header the contents of its log slot, for every slot |
| `LogPlan.CrashDuringCommit` | DemandPaging&Swapping/kernel/log.c:179-204 | for every crash point k among the 2n+2 block writes of a commit and every home block, recovery owes the old contents if the header is not yet on disk and the new contents from then on, never a mix; after the last write the log is empty and the home blocks are current |
| `LogPlan.CrashDuringRecovery` | DemandPaging&Swapping/kernel/log.c:116-124 | a recovery cut after any number of its block writes owes every home block what the disk before it owed; completed, it leaves that in place and an empty log |
| `LogPlan.RecoverySurvivesCrashes` | DemandPaging&Swapping/kernel/log.c:66-124 | after any list of recoveries each cut at any write, a completed recovery leaves every home block with what the first disk owed |
| `LogCode.Log.LogWrite` | DemandPaging&Swapping/kernel/log.c:215-236 | a block is recorded once however often it is logged, in order, pinned on its first recording; refused exactly when the log is full, before looking for absorption, or when no operation is running |
| `LogCode.Log.WriteLog` | DemandPaging&Swapping/kernel/log.c:179-192 | the block writes issued are exactly the copies of the logged buffers into the slots, in order |
| `LogCode.Log.InstallTrans` | DemandPaging&Swapping/kernel/log.c:66-84 | the block writes issued are exactly the installs of the slots to their home blocks, in order, in commit and in recovery; only a commit unpins |
| `LogCode.Log.WriteHead` | DemandPaging&Swapping/kernel/log.c:100-114 | one block write: the count and the first n names over what the header block held |
| `LogCode.Log.ReadHead` | DemandPaging&Swapping/kernel/log.c:86-98 | the in-memory header becomes the names of the on-disk header |
| `LogCode.Log.Commit` | DemandPaging&Swapping/kernel/log.c:194-204 | the code issues exactly the write sequence the crash theorems are about, and clears the in-memory header |
| `LogCode.Log.RecoverFromLog` | DemandPaging&Swapping/kernel/log.c:116-124 | boot-time recovery issues exactly the write sequence of the recovery theorems |
| `LogRuns.StepKeepsInv` | DemandPaging&Swapping/kernel/log.c:126-176 | begin_op, log_write within its budget, end_op, each block write of a commit or recovery, crash and reboot each keep the protocol invariant |
| `LogRuns.LogWritePanicsWhenFull` | DemandPaging&Swapping/kernel/log.c:215-222 | log_write panics exactly when the log holds LOGBLOCKS blocks, which takes an operation that has used its whole budget; it panics then even for a block already logged |
| `LogRuns.FullLogReachable` | DemandPaging&Swapping/kernel/log.c:126-236 | from any power-on state with nothing to recover, three operations within their budgets reach a full log, where log_write panics on a block already logged |
| `LogRuns.ProtocolSafe` | DemandPaging&Swapping/kernel/log.c:126-236 | in every interleaving of operations that each keep their budget: no panic of log.c is reached, a running commit means that no operation is, logged blocks are distinct, and the log always has room for all unused budgets |
| `LogRuns.CrashAtomicity` | DemandPaging&Swapping/kernel/log.c:66-236 | in every state of every run with any number of crashes, recovery yields exactly the memory image at the last commit point, where no operation was in progress, or the initial contents before the first commit |
| `LogRuns.QuietDiskIsCurrent` | DemandPaging&Swapping/kernel/log.c:146-204 | outside commit and recovery the home blocks themselves hold what recovery owes, and memory differs from disk only on logged blocks |
| `BufferCache.UnlinkKeepsRing` | DemandPaging&Swapping/kernel/bio.c:126-128 | unlinking any buffer by its own two pointers leaves a doubly linked ring of all the others in order |
| `BufferCache.InsertKeepsRing` | DemandPaging&Swapping/kernel/bio.c:129-132 | linking a buffer in after the head leaves a doubly linked ring with it in front |
| `BufferCache.MoveKeepsAge` | DemandPaging&Swapping/kernel/bio.c:117-137 | moving an entry to the front keeps the ring a permutation of all buffers sorted by the time of their last move |
| `BufferCache.Cache.constructor` | DemandPaging&Swapping/kernel/bio.c:36-54 | binit links all NBUF buffers into one ring; every block reads as it is on disk |
| `BufferCache.Cache.FindFree` | DemandPaging&Swapping/kernel/bio.c:76-85 | the backward scan finds the unreferenced buffer whose last move to the front is oldest, and fails exactly when all are referenced |
| `BufferCache.Cache.Bget` | DemandPaging&Swapping/kernel/bio.c:58-90 | a hit adds a reference; a miss recycles the least recently moved unreferenced buffer; panic exactly when the block is absent and every buffer is referenced; at most one buffer per block and no contents change |
| `BufferCache.Cache.Bread` | DemandPaging&Swapping/kernel/bio.c:92-103 | the buffer returned is valid and holds the latest contents of its block |
| `BufferCache.Cache.Bwrite` | DemandPaging&Swapping/kernel/bio.c:106-113 | the disk gets the buffer's data and no block's latest contents change |
| `BufferCache.Cache.Brelse` | DemandPaging&Swapping/kernel/bio.c:116-138 | one reference less; at zero the buffer moves to the front; nothing is lost if the buffer was written or is still pinned |
| `BufferCache.Cache.Bpin` | DemandPaging&Swapping/kernel/bio.c:139-145 | one more reference, so the buffer is not recycled; contents unchanged |
| `BufferCache.Cache.Bunpin` | DemandPaging&Swapping/kernel/bio.c:146-152 | one reference less; contents unchanged when a last reference to modified data is not dropped |
| `BufferCache.Cache.MoveToFront` | DemandPaging&Swapping/kernel/bio.c:124-133 | the pointer updates bring the buffer to the front and leave the ring and the age order intact |
| `CommitBuffers.WriteLog` | DemandPaging&Swapping/kernel/log.c:179-192 | against the buffer cache, with every logged block's buffer in use and any others besides: write_log gets its buffers and copies every logged block to its slot exactly if some buffer is unused or every slot is cached; otherwise bget panics; buffers are in use afterwards as before |
| `CommitBuffers.OnlyTheLog` | DemandPaging&Swapping/kernel/log.c:179-192 | when only the log uses buffers, that holds exactly if it holds fewer blocks than there are buffers |
| `CommitBuffers.FullLogCannotCommit` | DemandPaging&Swapping/kernel/param.h:9-11 | NBUF equals LOGBLOCKS, and a cache in which a full log of any NBUF distinct blocks is pinned has no buffer for the commit |
| `BlockData.SetBit` | DemandPaging&Swapping/kernel/fs.c:77-80 | setting the mask of a clear bit changes that bit of the bitmap block and no other |
| `BlockData.ClearBit` | DemandPaging&Swapping/kernel/fs.c:96-103 | clearing the mask of a set bit changes that bit and no other |
| `BlockData.SetWord` | DemandPaging&Swapping/kernel/fs.c:429-437 | storing a 32-bit address in an indirect block reads back, and every other entry is unchanged |
| `FileBlocks.AllocateKeepsInv` | DemandPaging&Swapping/kernel/fs.c:66-90 | marking and zeroing a free block keeps every file's block map, exactly-one ownership and the bitmap in agreement |
| `FileBlocks.FreeKeepsInv` | DemandPaging&Swapping/kernel/fs.c:92-106 | clearing the bit of a block no file uses keeps the whole invariant |
| `FileBlocks.LinkDirectKeepsInv` | DemandPaging&Swapping/kernel/fs.c:411-417 | linking an allocated block as the next direct block gives it one owner and disturbs no other file |
| `FileBlocks.LinkIndirectKeepsInv` | DemandPaging&Swapping/kernel/fs.c:422-428 | linking a zeroed block as indirect block adds no data block and gives it one owner |
| `FileBlocks.LinkEntryKeepsInv` | DemandPaging&Swapping/kernel/fs.c:429-438 | storing an address in the indirect block links the next data block and disturbs no other file |
| `FileContents.WriteData` | DemandPaging&Swapping/kernel/fs.c:540-551 | rewriting the block behind block bn of file i changes that block of that file only |
| `InodeCode.FileSystem.constructor` | DemandPaging&Swapping/mkfs/mkfs.c:236-250 | a disk on which exactly the blocks before the data area are marked used and every file is empty satisfies the invariant that all calls keep |
| `InodeCode.FileSystem.ScanBitmap` | DemandPaging&Swapping/kernel/fs.c:76-84 | the lowest free block among the bits of one bitmap block, or none |
| `InodeCode.FileSystem.Balloc` | DemandPaging&Swapping/kernel/fs.c:64-90 | the lowest free block of the disk, zeroed and marked, logging its bitmap block and itself; 0 exactly when every data block is owned; no file changes |
| `InodeCode.FileSystem.Bfree` | DemandPaging&Swapping/kernel/fs.c:92-106 | frees exactly the given block; no file changes |
| `InodeCode.FileSystem.Bmap` | DemandPaging&Swapping/kernel/fs.c:404-443 | the address of a block of the file or of a new zeroed one after its last; 0 only when the disk is full; exactly which blocks are allocated and logged; existing blocks keep their contents |
| `InodeCode.FileSystem.Writei` | DemandPaging&Swapping/kernel/fs.c:528-562 | the file's byte sequence becomes the old one with the written prefix of src patched in at off, size the larger of old size and end; a short count only on a full disk; -1 exactly for an offset past the end, 32-bit overflow or more than MAXFILE blocks; every other file unchanged; exactly the blocks logged; no indirect block before the thirteenth block |
| `InodeCode.FileSystem.Readi` | DemandPaging&Swapping/kernel/fs.c:494-521 | returns the slice of the byte sequence cut at its end, allocates and logs nothing |
| `InodeCode.FileSystem.Itrunc` | DemandPaging&Swapping/kernel/fs.c:446-476 | exactly the blocks the file owned become free, the file is empty, every other file reads the same, and exactly the bitmap blocks of the freed blocks and the inode block are logged |
| `Budget.ChunkWithinBudget` | DemandPaging&Swapping/kernel/file.c:149-173 | one filewrite chunk at any offset logs at most MAXOPBLOCKS distinct blocks, and at most 7 with one bitmap block |
| `Budget.SwapWithinBudget` | DemandPaging&Swapping/kernel/swap.c:178-184 | the write of one swapped page logs at most MAXOPBLOCKS blocks when the bitmap has at most four blocks, at most 7 with one, and never more than 11 |
| `Budget.SwapOverBudget` | DemandPaging&Swapping/kernel/swap.c:178-184 | a swapped page whose indirect block and four data blocks come from five bitmap blocks logs 11 blocks, one over MAXOPBLOCKS, so four bitmap blocks is the exact limit |
| `FileWrite.Transaction` | DemandPaging&Swapping/kernel/swap.c:178-184 | writei inside its own transaction: its byte-sequence contract together with the bound on the blocks logged |
| `SwapBudget.SwapWrite` | DemandPaging&Swapping/kernel/swap.c:178-184 | the transaction that writes a swapped page logs more than MAXOPBLOCKS blocks exactly if it writes the fourth page of a file of three pages without an indirect block and the next five free blocks lie under five bitmap blocks; then it logs one more |
| `SwapBudget.OverMeansTooMuch` | DemandPaging&Swapping/kernel/swap.c:178-184 | the condition is necessary: a write over budget took five blocks under five bitmap blocks, the first indirect block among them, so it started in such a state |
| `SwapBudget.TakesNext` | DemandPaging&Swapping/kernel/fs.c:71-86 | repeated allocations take the lowest free blocks in order, so which blocks a write will take is decided by the bitmap before it |
| `OverfullDisk.InOrder` | DemandPaging&Swapping/kernel/fs.c:64-106 | a disk of six bitmap blocks, cut into 3415 files with one free block at the end of each run of 8192, satisfies the file-system invariant |
| `OverfullDisk.FourthPage` | DemandPaging&Swapping/kernel/swap.c:178-184 | on that disk the write of the fourth page takes eleven log blocks |
| `FileWrite.Filewrite` | DemandPaging&Swapping/kernel/file.c:142-173 | any length is written in chunks that each stay within MAXOPBLOCKS; success exactly when all of src is in the file, otherwise a prefix is; other files unchanged |
| `Sv39.AddressRoundTrip` | DemandPaging&Swapping/kernel/riscv.h:364-369 | PTE2PA undoes PA2PTE under any flags exactly for page-aligned addresses, and the flags read back |
| `Sv39.PxIsDigit` | DemandPaging&Swapping/kernel/riscv.h:371-374 | PX extracts the base-512 digit of the page number at its level |
| `Sv39.HardwareSeesFlatMap` | DemandPaging&Swapping/kernel/vm.c:87-119 | for every address below MAXVA, the Sv39 translation algorithm run on raw memory finds exactly what the flat map of leaf words says |
| `PageTable.Memory.constructor` | DemandPaging&Swapping/kernel/kalloc.c:26-40 | after kinit every frame past the kernel image is on the free list exactly once |
| `PageTable.Memory.Freerange` | DemandPaging&Swapping/kernel/kalloc.c:33-40 | exactly the whole pages of the range become free |
| `PageTable.Memory.Kalloc` | DemandPaging&Swapping/kernel/kalloc.c:68-82 | the frame freed last, or 0 exactly when none is free; the flat map and all ownership else unchanged |
| `PageTable.Memory.Kfree` | DemandPaging&Swapping/kernel/kalloc.c:46-63 | a frame the caller holds goes on top of the list; no other frame, table or mapping changes |
| `PageTable.Memory.Walk` | DemandPaging&Swapping/kernel/vm.c:99-119 | the flat map is unchanged; the slot returned is the page's; failure exactly when a table is missing without alloc, or when fewer frames are free than tables are missing |
| `PageTable.Memory.Mappages` | DemandPaging&Swapping/kernel/vm.c:147-176 | succeeds exactly if no page of the range is mapped and there are frames for all the table pages it still lacks, and then adds exactly the pages of the range onto consecutive frames; panics exactly if frames last up to a page that is mapped; out of frames, the pages before stay mapped and no frame is free; nothing else but added tables changes |
| `PageTable.Memory.Uvmunmap` | DemandPaging&Swapping/kernel/vm.c:194-214 | removes exactly the mapped pages of the range, skipping holes, and frees or hands over exactly the frames they owned |
| `PageTable.Memory.Uvmdealloc` | DemandPaging&Swapping/kernel/vm.c:248-260 | removes exactly the pages between the two rounded sizes and returns the smaller size |
| `PageTable.Memory.Uvmalloc` | DemandPaging&Swapping/kernel/vm.c:218-242 | succeeds exactly if there are frames for the new pages and the tables they lack, and then gives each page a zeroed frame of its own that was free, with the requested rights; failure restores the flat map and every frame's owner but for added tables |
| `PageTable.Memory.Uvmcopy` | DemandPaging&Swapping/kernel/vm.c:298-326 | succeeds exactly if there are frames for the mapped pages below sz and the tables the child lacks for them, and then gives the child each of those pages on a frame that was free, with equal bytes and flags; failure leaves the child with none; the parent is unchanged |
| `PageTable.Memory.Uvmcreate` | DemandPaging&Swapping/kernel/vm.c:178-189 | an address space with no mappings on a frame that was free, or 0 exactly when none is |
| `PageTable.Memory.Freewalk` | DemandPaging&Swapping/kernel/vm.c:262-280 | panics exactly if a page is mapped through the subtree; otherwise exactly its table pages return to the free list, each once |
| `PageTable.Memory.Uvmfree` | DemandPaging&Swapping/kernel/vm.c:282-290 | panics exactly if the range up to sz reaches past the last address or a page is mapped at or past sz; otherwise all pages and tables of the address space are free again and nothing else changed |
| `PageTable.Memory.Evict` | DemandPaging&Swapping/kernel/vm.c:630-668 | unmapping the victim, freeing its frame and allocating returns the victim's own frame; the free list is as before |
| `TableRelations.Undone` | DemandPaging&Swapping/kernel/vm.c:228-239 | unmapping all that a partial allocation built gives back the flat map and owners of before |
| `TableCalls.UserStoreKeeps` | DemandPaging&Swapping/kernel/vm.c:147-176 | a process's stores to its own pages keep the tables and the flat map intact |
| `MemStat.Table.FindIndex` | DemandPaging&Swapping/kernel/vm.c:547-558 | the entry already carrying the address, or else the first unmapped one, claimed for it; -1 exactly when there is neither |
| `MemStat.Table.MarkResident` | DemandPaging&Swapping/kernel/vm.c:561-570 | records the page as resident, clean and newest; other pages' records unchanged; nothing recorded exactly when the table is full |
| `MemStat.Table.MarkUnmapped` | DemandPaging&Swapping/kernel/vm.c:572-580 | the page is no longer recorded; every other record unchanged |
| `MemStat.Table.MarkSwapped` | DemandPaging&Swapping/kernel/vm.c:582-590 | the page's record says swapped with its slot, or, unrecorded, it takes a free entry if there is one; every other record unchanged; load times stay right for a recorded page |
| `MemStat.Table.NoteSwapOut` | DemandPaging&Swapping/kernel/swap.c:194-205 | swap-out's scan updates the first entry naming its page, dead or alive, and that is the page's record afterwards; no such entry, no change; every other record unchanged |
| `MemStat.Table.NoteSwapIn` | DemandPaging&Swapping/kernel/swap.c:244-252 | swap-in's scan updates the first entry naming its page, dead or alive, and that is the page's record afterwards; no such entry, no change; every other record unchanged |
| `MemStat.Table.NoteWrite` | DemandPaging&Swapping/kernel/trap.c:217-223 | a write fault marks exactly its page dirty |
| `MemStat.Table.NoteResidentWrite` | DemandPaging&Swapping/kernel/trap.c:177-185 | a write to a mapped heap or stack page marks its record dirty exactly if it says resident |
| `MemStat.Table.SelectFifo` | DemandPaging&Swapping/kernel/vm.c:592-607 | the victim is the resident page whose latest marking is oldest; none exactly when no page is resident |
| `MemStat.Table.SelectCleanFirst` | DemandPaging&Swapping/kernel/vm_bonus.c:598-623 | the oldest clean resident page, or the FIFO choice when none is clean |
| `Swap.FirstFreeCounts` | DemandPaging&Swapping/kernel/swap.c:167-176 | the first free slot is at most the number of used slots, and below 67 exactly when fewer than 67 are used |
| `Swap.SlotOfInsert` | DemandPaging&Swapping/kernel/swap.c:161-192 | the lookup after an insertion, for every address, including one already stored |
| `Swap.Store.FirstFree` | DemandPaging&Swapping/kernel/swap.c:167-176 | the lowest free slot; its offset is never past the end of the swap file |
| `Swap.Store.SwapOut` | DemandPaging&Swapping/kernel/swap.c:161-207 | succeeds exactly when the swap file can be had, fewer than 67 pages are stored and the disk has room; takes the lowest free slot of the table before; a failure disturbs no stored page; on success only this page's contents change, to the new bytes exactly if that slot is below the one it is stored in |
| `Swap.Store.SwapIn` | DemandPaging&Swapping/kernel/swap.c:209-255 | returns the bytes stored for the page and forgets them; fails exactly when none are stored; other pages unchanged |
| `Swap.StaleCopy` | DemandPaging&Swapping/kernel/swap.c:161-255 | a page swapped out twice in a row comes back with the bytes of the first time |
| `Swap.Store.Cleanup` | DemandPaging&Swapping/kernel/swap.c:111-150 | nothing is stored any more and the count of freed slots is the number used |
| `Residency.Book.Evict` | DemandPaging&Swapping/kernel/vm.c:618-664 | a page leaves memory: saved bytes are what the store then holds, and store and table stay in step; saving fails exactly without a swap file, a slot or disk room, and then nothing changes |
| `Residency.Book.BringIn` | DemandPaging&Swapping/kernel/swap.c:209-255 | a swapped page comes back with the bytes last saved; store and table stay in step |
| `Residency.Book.Load` | DemandPaging&Swapping/kernel/trap.c:161-175 | a loaded page is recorded resident with its dirty state and the next sequence number |
| `Permissions.NoRemap` | DemandPaging&Swapping/kernel/trap.c:186-263 | a fault on a file page maps over an existing kernel-only page in no process whose guard page is the one its stack top fences |
| `Permissions.ExecFences` | DemandPaging&Swapping/kernel/exec.c:85-160 | an exec leaves such a process exactly if the arguments leave a byte of the stack page free or no segment of a wrapped program covers address 0; in the other case a read at 0 is a remap panic |
| `Permissions.NeverRemaps` | DemandPaging&Swapping/kernel/trap.c:127-288 | over every run in which each exec meets that condition no fault is a remap panic |
| `Permissions.RemapRun` | DemandPaging&Swapping/kernel/trap.c:256-263 | a run that ends in one: a text segment of 2^64 - 1 bytes at 0, arguments that fill the stack page |
| `Permissions.FaultKeepsSafe` | DemandPaging&Swapping/kernel/trap.c:127-288 | every user fault, kernel fault and eviction keeps: no page writable and executable, execute only on text pages |
| `Permissions.ResizeKeepsSafe` | DemandPaging&Swapping/kernel/vm.c:218-260 | eager, lazy and shrinking sbrk keep it |
| `Permissions.ExecIsSafe` | DemandPaging&Swapping/kernel/exec.c:50-143 | an exec that succeeds establishes it, whatever the program headers say, a program wrapped around the end of the address space included |
| `Permissions.NeverWritableAndExecutable` | DemandPaging&Swapping/kernel/trap.c:127-288 | over every run of exec, fork, sbrk, faults, kernel copies and exits that does not panic, no leaf entry of any process is both writable and executable |
| `Loader.ScanHeaders` | DemandPaging&Swapping/kernel/exec.c:50-83 | the program-header loop records what the recursive description says, rejects exactly the unacceptable headers, and yields how far the segments reached when it stopped |
| `Loader.ScannedAccepts` | DemandPaging&Swapping/kernel/exec.c:53-60 | a list of headers is accepted exactly if each is not loadable, or has filesz <= memsz, ends below 2^64 and starts on a page boundary |
| `Loader.OneSegmentRecorded` | DemandPaging&Swapping/kernel/exec.c:50-83 | a lone loadable segment of its kind is recorded as its header gives it, wherever it stands |
| `Loader.LazyIsEager` | DemandPaging&Swapping/kernel/trap.c:230-255 | each byte of a page built on demand equals the eagerly loaded byte: file bytes up to filesz, then zeros |
| `Loader.FaultBuildsEagerPage` | DemandPaging&Swapping/kernel/trap.c:230-255 | for one executable and one other segment with disjoint pages, the page a fault builds equals that page of the eager image of the whole program |
| `Loader.UserLoad` | DemandPaging&Swapping/kernel/trap.c:230-255 | the loader of usertrap builds the page BuiltPage describes |
| `Loader.KernelLoad` | DemandPaging&Swapping/kernel/vm.c:480-508 | the loader of vmfault builds the same page |
| `UserMemory.Space.Kalloc` | DemandPaging&Swapping/kernel/kalloc.c:68-82 | a free frame, or -1 exactly when none is free; no page, table or held frame changes |
| `UserMemory.Space.Walk` | DemandPaging&Swapping/kernel/vm.c:99-119 | adds the tables an address lacks; succeeds exactly if there are frames for them, and keeps those it got otherwise |
| `UserMemory.Space.MapPage` | DemandPaging&Swapping/kernel/vm.c:147-176 | maps the frame in hand at the page, taking frames for missing tables; fails exactly for lack of them, with every free frame used up; no other page changes |
| `UserMemory.Space.Unmap` | DemandPaging&Swapping/kernel/vm.c:194-214 | unmaps one page and frees its frame; tables stay; no other page changes |
| `UserMemory.Space.Grow` | DemandPaging&Swapping/kernel/vm.c:218-242 | zeroed pages for the range exactly if none of it is mapped and there are frames for the pages and the tables they lack; out of frames, every page is as before; panics exactly if frames last up to a page that is mapped already |
| `UserMemory.Space.Shrink` | DemandPaging&Swapping/kernel/vm.c:248-260 | exactly the mapped pages of the range go, exactly their frames become free, and no other page changes |
| `UserMemory.Space.NewTable` | DemandPaging&Swapping/kernel/proc.c:218-248 | a page table for the kernel's own pages takes three frames; with fewer, nothing stays behind |
| `UserMemory.Space.Dismantle` | DemandPaging&Swapping/kernel/vm.c:282-290 | uvmfree for a size: panics exactly if the rounded size reaches past the last address or a page is mapped at or past it; otherwise every page and table is free again, and frames in other hands are untouched |
| `Fault.Process.constructor` | DemandPaging&Swapping/kernel/proc.c:124-170 | a new process with nothing mapped satisfies the fault invariant |
| `Fault.Process.Replace` | DemandPaging&Swapping/kernel/vm.c:611-664 | evicts the page loaded longest ago exactly if it is mapped and, when its record says dirty, can be saved; the store then holds the page's bytes if it was dirty and nothing otherwise; with no victim nothing was unmapped |
| `Fault.Process.Alloc` | DemandPaging&Swapping/kernel/vm.c:611-668 | a free frame, or exactly the frame of the page loaded longest ago, which is saved if dirty; -1 exactly when there is neither; every other page keeps frame, rights and bytes, in memory or in the store |
| `Fault.Process.UserFault` | DemandPaging&Swapping/kernel/trap.c:77-290 | four outcomes, each with its exact condition. The record is looked up by the low 32 bits of the page address. Panic: a match for an address past the last one, or a file page that is mapped but not the user's. Survival: the access is allowed and the page is mapped, or there are frames for it and the tables it lacks (none for tables after an eviction) and its contents can be had, which they cannot for a match from 2^32 on. Torn: the page evicted for it is the one its record names, and dirty. The page then has exactly the granted rights and holds what it held before, whether swapped out, in the program or zero; exactly the frames it needed are taken; every other page holds what it held, except a page evicted with a clean record, which holds what it started from, and pages from 2^32 on that share a record with a page swapped in or out |
| `Fault.Process.KernelFault` | DemandPaging&Swapping/kernel/vm.c:461-529 | the frame mapped for a kernel access below the last address, or -1, with its exact condition; it brings in what the page starts from even when a saved copy is stored; other pages as for a user fault |
| `Paging.FarReadPanics` | DemandPaging&Swapping/kernel/trap.c:96-127 | a state in which a read at 2^44 + 0x3000 panics in walk, because page 0x3000 is swapped out |
| `Paging.RunFaults` | DemandPaging&Swapping/kernel/trap.c:77-290 | over any run of survived faults, a page below 2^32 outside memory that is not touched stays outside and holds what it held |
| `Paging.OutAndBack` | DemandPaging&Swapping/kernel/trap.c:77-290 | a page evicted by a fault, after any faults elsewhere, comes back with its old bytes if its record said dirty, and with what it started from otherwise |
| `Paging.CleanPageIsLost` | DemandPaging&Swapping/kernel/vm.c:634-660 | a state in which a written page with a clean record is evicted and comes back as zeros |
| `Paging.KernelMissesSavedPage` | DemandPaging&Swapping/kernel/vm.c:461-529 | a state in which a kernel access to a swapped-out page finds zeros |
| `Paging.Sbrk` | DemandPaging&Swapping/kernel/sysproc.c:40-65 | eager growth maps zeroed pages, all or none, exactly if the range is unmapped, ends by the trap frame and there are frames for pages and tables; lazy growth moves the break; shrinking frees exactly the pages past the new break and their frames, and a shrink below zero changes nothing; exactly when mappages panics |
| `Paging.Exec` | DemandPaging&Swapping/kernel/exec.c:14-201 | four outcomes, each with its exact condition. Executed: an ELF file, all headers acceptable, a stack that ends by the trap frame, arguments that fit, frames for stack and tables, and no page of the old image past its break; then the layout is that of the headers, only guard and stack page are mapped and every frame of the old image is free. Panicked: the same but with such a page, or segments that reach past the last address, or a stack that reaches the kernel's pages while there are frames. Hung: no ELF header, an unacceptable or unreadable program header, or no frames for a page table. Refused: the rest. Refused or hung, the old image is as it was |
| `Paging.Allocproc` | DemandPaging&Swapping/kernel/proc.c:110-185 | a process that satisfies the fault invariant, exactly if four frames are free, and those are taken, one for the trap frame; otherwise every frame is given back |
| `Paging.Freeproc` | DemandPaging&Swapping/kernel/proc.c:191-213 | panics exactly if a page is mapped past the break; otherwise no page or table is left and every frame is free but other trap frames |
| `Paging.BornAndGone` | DemandPaging&Swapping/kernel/proc.c:110-213 | setting a process up and tearing it down again, or failing to, leaves the same frames free |
| `Paging.ExecPanics` | DemandPaging&Swapping/kernel/exec.c:139-144 | a run that ends in the leaf panic: a page is swapped out, the break shrinks below it, the page is read, exec commits |
| `Paging.ExitPanics` | DemandPaging&Swapping/kernel/proc.c:191-199 | the same run ended by exit |
| `Paging.ExecHangs` | DemandPaging&Swapping/kernel/exec.c:59-60 | exec of a program with a misaligned segment hangs, however many frames are free |
| `Paging.ExecThenTouch` | DemandPaging&Swapping/kernel/exec.c:50-143 | for one text and one data segment, the first access to any address of a segment after exec, other than on the stack of a program that wraps around the address space, sees the page an eager loader would have built |
| `SleepWakeup.StepKeepsInv` | DemandPaging&Swapping/kernel/proc.c:609-654 | every lock-level step of sleep, wakeup, the scheduler and kill keeps the protocol invariant |
| `SleepWakeup.NoLostWakeup` | DemandPaging&Swapping/kernel/proc.c:609-654 | in every reachable state with the condition lock free, nobody sleeps or is about to sleep on a channel whose condition holds |
| `SleepWakeup.WakeupReachesAll` | DemandPaging&Swapping/kernel/proc.c:640-654 | when a wakeup by the lock's holder ends, every process that tested under the lock before is awake |
| `WaitExit.StepKeepsInv` | DemandPaging&Swapping/kernel/proc.c:368-482 | every lock-level step of kfork, reparent, kexit, kwait and kkill keeps the protocol invariant |
| `WaitExit.NoSleepingParentOfZombie` | DemandPaging&Swapping/kernel/proc.c:368-482 | in every reachable state with wait_lock free, no process asleep or falling asleep in kwait has a zombie child, its own or one given to init |
| `WaitExit.FreedOnlyWhenDead` | DemandPaging&Swapping/kernel/proc.c:447-468 | a slot is freed only by the process's parent and only once the process has left its stack for good |
| `Virtio.IndexWraps` | DemandPaging&Swapping/kernel/virtio_disk.c:266-272 | 16-bit ring indices may wrap: slot and successor are those of the running count |
| `Virtio.SubmitSplits` | DemandPaging&Swapping/kernel/virtio_disk.c:216-262 | laying out a chain on three free descriptors keeps the split into free descriptors and disjoint chains |
| `Virtio.FinishSplits` | DemandPaging&Swapping/kernel/virtio_disk.c:184-198 | taking a chain apart frees exactly its three descriptors and keeps the split |
| `Virtio.Disk.TwoInFlight` | DemandPaging&Swapping/kernel/virtio_disk.c:216-289 | at most two requests are in flight, so neither ring is ever full |
| `Virtio.Disk.AllocDesc` | DemandPaging&Swapping/kernel/virtio_disk.c:156-166 | the lowest free descriptor, or -1 exactly when none is free |
| `Virtio.Disk.Alloc3` | DemandPaging&Swapping/kernel/virtio_disk.c:203-213 | three distinct free descriptors exactly when three are free; otherwise everything is put back |
| `Virtio.Disk.Submit` | DemandPaging&Swapping/kernel/virtio_disk.c:215-278 | queues a chain for this buffer exactly when fewer than two requests are in flight, overwriting no entry the device has yet to take |
| `Virtio.Disk.DeviceTake` | DemandPaging&Swapping/kernel/virtio_disk.c:264-272 | the device takes live chains in the order they were queued |
| `Virtio.Disk.DeviceComplete` | DemandPaging&Swapping/kernel/virtio_disk.c:294-327 | requests may complete in any order and with any status; every used entry names a live chain |
| `Virtio.Disk.Interrupt` | DemandPaging&Swapping/kernel/virtio_disk.c:294-327 | panics exactly if some completed request has a non-zero status, having seen exactly the requests completed before the first of those; otherwise exactly the completed requests become seen; no buffer but one of theirs is released |
| `Virtio.Disk.FreeChain` | DemandPaging&Swapping/kernel/virtio_disk.c:184-198 | following the next links frees exactly the three descriptors of the chain |
| `Virtio.Disk.TryFinish` | DemandPaging&Swapping/kernel/virtio_disk.c:280-289 | virtio_disk_rw returns exactly when its own request has completed and gives back exactly its own descriptors |
| `Pipe.CountersDecide` | DemandPaging&Swapping/kernel/pipe.c:77-134 | full and empty tests on wrapping 32-bit counters decide exactly full and empty, and their difference modulo 2^32 is the number of bytes in flight |
| `Pipe.Ring.Write` | DemandPaging&Swapping/kernel/pipe.c:77-103 | appends exactly the bytes it consumed to what was sent; when it stops, sleeps, is refused or meets a bad address, exactly as specified, with killed read anew for every byte |
| `Pipe.Ring.Read` | DemandPaging&Swapping/kernel/pipe.c:105-134 | returns the next bytes in order; a byte whose copyout fails is not consumed; bytes received are always a prefix of bytes sent |
| `Pipe.Ring.Close` | DemandPaging&Swapping/kernel/pipe.c:58-73 | closing an end leaves the bytes in flight; the last close is reported exactly once both ends are closed |
| `HeapBlocks.FreeNeverAdjacent` | DemandPaging&Swapping/user/umalloc.c:33-42 | any two free blocks are in address order with a gap between them |
| `HeapBlocks.CoalesceKeepsInv` | DemandPaging&Swapping/user/umalloc.c:33-43 | merging a freed block with its neighbours keeps the address-ordered ring, the gaps and every unit |
| `HeapBlocks.TakeKeepsInv` | DemandPaging&Swapping/user/umalloc.c:76-77 | unlinking a whole free block keeps the invariant and every unit |
| `HeapBlocks.CarveKeepsInv` | DemandPaging&Swapping/user/umalloc.c:78-82 | cutting the tail off a free block keeps the invariant and every unit |
| `Malloc.Allocator.Search` | DemandPaging&Swapping/user/umalloc.c:29-32 | free's search ends, wherever it starts, at the block below in address order, the wrap point included |
| `Malloc.Allocator.Free` | DemandPaging&Swapping/user/umalloc.c:24-44 | the block's units become free, merged with the blocks it touches; all other live blocks keep size and units; no unit is lost |
| `Malloc.Allocator.Morecore` | DemandPaging&Swapping/user/umalloc.c:46-61 | a free block of at least the request appears, ending where the recorded units end; live blocks are kept; 0 exactly when sbrk is asked to grow and refuses, or the process is killed writing the header; killed exactly if the break did not move up and the page there is not mapped; the recorded units are granted ones if the byte count fits an int |
| `Malloc.Allocator.Malloc` | DemandPaging&Swapping/user/umalloc.c:63-90 | for every 32-bit request, a live block with room for nbytes made of free or new units; live blocks kept; sbrk is called exactly if no free block is big enough; failure exactly when it refuses or the process is killed; the block lies in granted memory exactly if a free block was big enough, sbrk refused, or the request is at most 2^31 - 32 bytes, and then the process is not killed |
| `Malloc.NUnits` | DemandPaging&Swapping/user/umalloc.c:69-69 | the payload of the units asked for holds nbytes and wastes less than a header |
| `Malloc.HugeRequest` | DemandPaging&Swapping/user/umalloc.c:46-61 | three request sizes for which sbrk is asked to shrink by 2^31 bytes, for nothing, and for one unit; the last always, the others unless the process is killed because the page at the break is not mapped, get a block past the break |
| `Malloc.GrantedEnd` | DemandPaging&Swapping/user/umalloc.c:52-54 | where the break is after the truncated sbrk: at the end of the recorded units exactly if their byte count fits an int |
| `ShellGrammar.PrintThenParse` | DemandPaging&Swapping/user/sh.c:333-452 | for every command with at most nine arguments per exec, printing it with minimal parentheses and parsing the tokens gives the same tree |
| `ShellLexer.CmdParsesText` | DemandPaging&Swapping/user/sh.c:333-452 | parsing never looks into words: parsing positions and then reading their text is parsing the texts |
| `ShellLexer.RenderThenParse` | DemandPaging&Swapping/user/sh.c:271-452 | the text of any command with well-formed words lexes and parses to a tree whose words read as the original's |
| `ShellParser.Parser.GetToken` | DemandPaging&Swapping/user/sh.c:271-314 | the cursor moves over exactly one token; a word is a maximal run of word characters |
| `ShellParser.Parser.Peek` | DemandPaging&Swapping/user/sh.c:316-326 | tells whether the next token starts with one of the characters and loses no token |
| `ShellParser.Parser.ParseExec` | DemandPaging&Swapping/user/sh.c:421-452 | the loop over arguments and redirections builds what the grammar says, with the same errors, on every input |
| `ShellParser.Parser.ParseLine` | DemandPaging&Swapping/user/sh.c:350-365 | the recursive parse of a line ends on every input with the grammar's tree or error |
| `ShellParser.Parser.ParseCmd` | DemandPaging&Swapping/user/sh.c:333-348 | the cursor-level parser agrees with the grammar on the line's tokens for every input |
| `ShellParser.NulTerminate` | DemandPaging&Swapping/user/sh.c:455-499 | writes NUL at the ends of exactly the words of the tree |
| `ShellParser.WordsAreStrings` | DemandPaging&Swapping/user/sh.c:455-499 | after nulterminate, every argument and file is exactly its scanned token as a C string |
| `ShellParser.ParseBuffer` | DemandPaging&Swapping/user/sh.c:333-348 | parsing a buffer in place: the tree of its tokens with every word a C string in it, or the grammar's error with the buffer untouched |

## Left out

- Console, UART, PLIC, boot code, assembly, interrupt enabling, TLB fences and memory ordering:
  sections under a spinlock are single steps, or run between acquire and release steps.
- Directories, path names, inode reference counts, ialloc, iget and the on-disk copy of an inode:
  `FileBlocks.Inode` is the in-memory copy, and iupdate only counts as a logged block.
- readi and writei with user addresses: a copy that fails part-way is not modelled; buffers are
  kernel memory.
- The combination of the cores: the log, the files and the disk driver are proved each on its own.
  `PageTable` works on the words of the tables, while `UserMemory` has the leaf entries and the table
  pages as maps; the trampoline and trap frame entries are not among its pages.
- The counters resident_pages, swapped_pages and num_resident_pages.
- Parsing the ELF header and copying the argument strings in kexec (`Paging.Exec` takes the headers, whether they
  could be read, and the argument area), fork's copy of a paged process, swap I/O inside another transaction, kvmmake, walkaddr and copyin/copyout.
- The file permissions, modes and descriptors a redirection opens, runcmd, and the cd built-in:
  the tree records only which of the three redirections it is.
- InodeCode.FileSystem.Bmap: block numbers beyond the next one after the file's last are excluded, because
  readi and writei never ask for them; holes do not arise.
- Malloc.Allocator.Sbrk: addresses are whole multiples of the header size, no other caller shrinks the heap, and
  whether the kernel can grow the process is a parameter.
- Malloc.Allocator.Morecore: whether the page at the old break is mapped is a parameter; with a page-aligned break
  and no swapped-out page past it, it is not.
- PageTable.Memory.Uvmalloc: a page mapped in the range is excluded here; `UserMemory.Space.Grow` states that panic.
- PageTable.Memory.Uvmfree: every mapped page has a right, as all callers of mappages give one; freewalk would take
  an entry without rights for a table.
- MemStat.Table.MarkResident: sequence numbers are unbounded; the code's wrap after 2^31 faults.
- Swap.Store.SwapOut: how much disk space is left, and whether a swap file can be created, are parameters.
- Budget.SwapWithinBudget: states the limits by the number of bitmap blocks alone; SwapBudget.SwapWrite has the
  exact condition.
- SleepWakeup and WaitExit: time-slice preemption inside the protocol steps; a step of a preempted process is
  only taken later.
- Fault.Process.UserFault: after a panic, and after the outcome Torn, nothing is said of the state.
- Paging.Exec: the file lookup, and creating the swap file after the image is committed; after a panic nothing
  is said of the state. A hang is an outcome: no other process's wait for the same lock is modelled.
- Virtio.Disk: the data transferred; a request is its buffer, direction and sector.
