# xv6: storage, allocators, processes and language code, verified

This project models the cores of xv6 (the annotated copy in `pdos/xv6-comment`) in Dafny and
proves what they are for. Each core file has a module with the specification (state, steps,
invariants, theorems over all runs) and, where the C code changes things in place, a class
whose methods do what the C functions do and are proved against that specification.

| part of the program | specification | code in place |
|---|---|---|
| redo log with group commit (log.c) | Log, LogOps, FsLog | LogCode |
| blocks, inodes and file contents (fs.c) | FsState, FsBlocks, FsFiles | FsCode |
| buffer cache (bio.c) and its synchronous disk (memide.c) | MemIde | Bio |
| disk queue (ide.c) against memide.c | Ide | IdeCode |
| directories and link counts (sysfile.c, fs.c) | Links | LinksCode |
| user allocator (umalloc.c) | FreeList | Umalloc |
| page tables and frames (vm.c, kalloc.c) | Vm, VmCount, VmSpaces | VmCode |
| processes (proc.c) | Proc | ProcCode |
| pipes (pipe.c) | Pipe | PipeCode |
| shell parser (sh.c) | Sh, ShGrammar, ShRoundTrip | ShCode |
| pattern matcher (grep.c) | Grep | Grep |

`Blocks` holds bytes, 32-bit words and disk blocks. `dafny verify dfyconfig.toml` checks the
whole project.

How the program is read:

- A section of C code that runs with its spin lock held is one atomic step, and a method for
  it ends where the code sleeps or returns. Where a function gives a lock up in between, it
  has a method or step for each section.
- A panic is a result that the method reports, or, where only a caller's mistake leads to it,
  a precondition.
- A crash may happen after any block write of the log; the `trace` of `LogDevice` lists the
  disk after every one of them.
- Pointers are indices: a buffer, a header unit, a process slot, a page frame, a character of
  the line.
- Every lemma carries `{:induction false}`: the inductions are written out.

What the properties assume, because the code or the image that mkfs makes does not give it:

- `log.size > LOGSIZE`, for the absence of panics in `log_write`. mkfs sets `nlog = LOGSIZE`;
  `LogOps.SmallLogPanics` shows what follows.
- An operation makes at most `MAXOPBLOCKS` calls of `log_write`, on home sectors. A chunk of
  `filewrite` may exceed this.
- The blocks of the log are marked in the bitmap, so that `balloc` does not hand them out.
  mkfs leaves them clear (`FsFiles.MkfsBitmap`).
- The device number -1, which `binit` gives to all buffers, is not asked for.
- The static `base` of umalloc.c lies below the heap.
- The linker puts the kernel's data on a page boundary past its text.

What turned out not to hold, with the exact condition under which it does:

- A killed writer strands readers (`Pipe.StepKeepsNobodyStuck`).
- `sys_link` and `create` miscount in an unlinked directory or past 32767 links
  (`Links.SafeStepsAreExact`, `Links.CreateInRemovedDirectory`); a new directory in an unlinked
  one even links that one again.
- `deallocuvm` may step over mapped pages after a missing table (`VmSpaces.ShrunkClears`,
  `VmSpaces.MissedPage`). It does not where all pages below the size are mapped
  (`VmSpaces.WholeMapClears`).
- `allocuvm` does not notice that `mappages` failed and loses the frame
  (`VmCode.Machine.AllocUvm`, `VmSpaces.OneFrameIsLost`), as does `copyuvm`; `setupkvm` loses all
  of its frames (`VmCode.Machine.CopyUvm`, `VmCode.Machine.SetupKvm`).
- `malloc` gives a block without room to the largest requests (`Umalloc.LargeRequests`).
- `allocproc` leaves `killed` as it finds it, so that `kill(0)` kills a process to come
  (`Proc.CleanSlotsKept`, `Proc.KillZeroKillsNextChild`).
- A disk error during a read leaves a buffer marked valid (`Ide.ErrorShows`).

## Model

| member | source | states |
|---|---|---|
| Log.CommitIsAtomic | pdos/xv6-comment/log.c:178-234 | After a crash at any block write of commit and any number of crashes inside the recoveries that follow, the first recovery that completes leaves the home blocks equal to the whole old disk (before write_head) or the whole new one (from write_head on) |
| Log.RecoveryIsAtomic | pdos/xv6-comment/log.c:67-126 | The same for a recovery that starts from any image with a readable log: cut at any write and restarted any number of times, it ends in the one committed state |
| Log.CrashInRecovery | pdos/xv6-comment/log.c:119-126 | Any prefix of recovery's writes keeps the committed state and a readable log; all of them leave an empty log |
| Log.RecoveryCompletes | pdos/xv6-comment/log.c:119-126 | A finished recovery has installed exactly the committed state |
| Log.Reboots | pdos/xv6-comment/log.c:52-65 | A list of interrupted recoveries changes neither the committed state nor the readability of the log |
| Log.CrashesDuringRecovery | pdos/xv6-comment/log.c:52-65 | However often recovery is interrupted, its completion gives the committed state of the first crash |
| Log.InstallPrefix | pdos/xv6-comment/log.c:67-81 | The first k installed blocks are the home disk overlaid by the first k log blocks, and the log itself is untouched |
| Log.CrashInCommit | pdos/xv6-comment/log.c:199-234 | The committed state after each write of commit: old up to write_log, new from write_head |
| Log.CommitPoint | pdos/xv6-comment/log.c:98-117 | Writing the header turns the committed state into the cached one |
| Log.CommitCompletes | pdos/xv6-comment/log.c:199-234 | After commit the log is empty and the home blocks are the cached ones |
| Log.CommitSteps | pdos/xv6-comment/log.c:199-234 | write_log, write_head, install_trans, write_head in that order pass through exactly the disks of CommitTrace |
| Log.OverlayIs | pdos/xv6-comment/log.c:67-81 | Installing distinct logged sectors gives the target disk, whatever was there |
| Log.CommittedAt | pdos/xv6-comment/log.c:67-97 | Block for block from the raw header: word w of it names the home sector that log block w restores, and all other home sectors are as on disk |
| Log.InstallWritesAt | pdos/xv6-comment/log.c:67-81 | What the writes of install_trans do to each block of a disk |
| Log.LogWritesAt | pdos/xv6-comment/log.c:178-197 | What the writes of write_log do to each block of a disk |
| LogOps.OperationsAreAtomic | pdos/xv6-comment/log.c:128-270 | Over every interleaving of operations, commits and crashes, what a crash would recover is the cached content at the last commit point, with no operation in progress then |
| LogOps.CommitIsDurable | pdos/xv6-comment/log.c:149-234 | Once a commit has finished, a crash recovers the cached content at its start until the next commit point, and no later crash goes back behind it |
| LogOps.RunKeepsTwoCopies | pdos/xv6-comment/log.c:128-270 | Over every run, cache and recoverable disk are the two copies told from the events alone: log_write changes the cached copy, a commit point makes it the durable one, a crash makes the durable one the cached one |
| LogOps.CommitTakesLastWrites | pdos/xv6-comment/log.c:178-270 | At a commit point every sector in the log becomes durable with the data of its last log_write since the last crash, and every other block stays as it was |
| FsLog.FilesSurviveCrashes | pdos/xv6-comment/log.c:13-27 | Over every run whose operations keep a file system, any crash and recovery leave a file system in order, with exactly the files of the last commit |
| FsLog.SettledByHome | pdos/xv6-comment/fs.h:4-9 | Whether the blocks hold a file system, and which files, depends on the home blocks alone |
| FsLog.QuietHoldsFiles | pdos/xv6-comment/log.c:128-234 | Whenever no operation is in progress, after crashes too, the cached blocks are a file system |
| LogOps.StepIsAtomic | pdos/xv6-comment/log.c:128-270 | A step changes the recoverable state only at the header write, with no operation in progress, and a crash returns exactly the recoverable state |
| LogOps.StepKeepsInv | pdos/xv6-comment/log.c:128-176 | lh.n plus the unused budgets of the active operations stays within LOGSIZE at every step |
| LogOps.NoLogPanic | pdos/xv6-comment/log.c:249-270 | With log.size above LOGSIZE no log_write within its budget panics |
| LogOps.SmallLogPanics | pdos/xv6-comment/log.c:254-255 | With a log of at most LOGSIZE blocks, as mkfs makes, three operations within their budgets reach a panic |
| LogOps.CommitRunsAlone | pdos/xv6-comment/log.c:150-176 | While commit runs no operation is in progress and none is admitted |
| LogOps.Record | pdos/xv6-comment/log.c:259-266 | Log absorption enters a sector once and loses none |
| LogCode.LogDevice.constructor | pdos/xv6-comment/log.c:52-65 | initlog ends with the committed state on disk, an empty log, and recovery's writes as its trace |
| LogCode.LogDevice.BeginOp | pdos/xv6-comment/log.c:128-145 | A pass of begin_op admits exactly when no commit runs and lh.n plus MAXOPBLOCKS for each operation in progress and one more is at most LOGSIZE |
| LogCode.LogDevice.LogWrite | pdos/xv6-comment/log.c:249-270 | log_write panics exactly in the two cases of the source; else the cache holds the new data, and the sector is in the log, once |
| LogCode.LogDevice.EndOp | pdos/xv6-comment/log.c:149-176 | The last operation out commits, and the disk passes through exactly CommitTrace; the others only leave |
| LogCode.LogDevice.WriteLog | pdos/xv6-comment/log.c:178-197 | Log block i gets the cached content of the i-th logged sector, in order, and no other block changes |
| LogCode.LogDevice.InstallTrans | pdos/xv6-comment/log.c:67-81 | The i-th logged sector gets log block i, in order, and no other block changes |
| LogCode.LogDevice.ReadHead | pdos/xv6-comment/log.c:83-95 | lh becomes the list of sectors in the header block |
| LogCode.LogDevice.WriteHead | pdos/xv6-comment/log.c:97-117 | The header block on disk becomes lh, its other words kept |
| LogCode.LogDevice.RecoverFromLog | pdos/xv6-comment/log.c:119-126 | Runs exactly the writes of recovery and leaves cache and disk equal |
| LogCode.LogDevice.Commit | pdos/xv6-comment/log.c:199-234 | Home blocks become the cached ones, the log empty, with CommitTrace as the trace; an empty transaction writes nothing |
| FsState.InodeRoundTrip | pdos/xv6-comment/fs.h:26-34 | The 16 words of a dinode decode to the inode that was encoded |
| FsState.MarkBits | pdos/xv6-comment/fs.c:65-68 | Setting the bit of a block sets that bit of the bitmap and no other; clearing it likewise |
| FsState.UpdateInodes | pdos/xv6-comment/fs.c:208-225 | iupdate writes one dinode, which reads back, and no other dinode of its block changes |
| FsState.UsedIs | pdos/xv6-comment/fs.c:61-67 | The bit of block b in the raw bytes of the bitmap |
| FsState.DinodeAt | pdos/xv6-comment/fs.h:28-43 | Where each field of a dinode stands, byte for byte |
| FsState.LayoutOrder | pdos/xv6-comment/fs.h:4-10 | Boot block and superblock, inodes, bitmap, data and log follow each other without overlap |
| FsBlocks.AllocGood | pdos/xv6-comment/fs.c:51-76 | Storing a freshly allocated block keeps: bitmap exact, one owner for each block, indirect blocks included |
| FsBlocks.AllocAddr | pdos/xv6-comment/fs.c:368-396 | An allocation changes one block pointer of one inode and no other |
| FsBlocks.AllocFiles | pdos/xv6-comment/fs.c:368-396 | An allocation changes no file block other than the new, zeroed one |
| FsBlocks.ReleaseGood | pdos/xv6-comment/fs.c:80-99 | Freeing an owned block and clearing its pointer keeps the bitmap exact and the ownership unique |
| FsBlocks.ReleaseFiles | pdos/xv6-comment/fs.c:80-99 | Freeing a block changes no other file block |
| FsBlocks.WriteGood | pdos/xv6-comment/fs.c:503-509 | Writing a data block keeps pointers, ownership and bitmap |
| FsBlocks.WriteFiles | pdos/xv6-comment/fs.c:503-509 | Writing a data block changes that file block and no other of any file |
| FsFiles.BmapKeepsShape | pdos/xv6-comment/fs.c:368-396 | bmap of the next block extends an exact map of n blocks to one of n + 1 |
| FsFiles.MappedBelowSize | pdos/xv6-comment/fs.c:472-479 | Below the size of a well-shaped file bmap finds a block, so that readi never allocates |
| FsFiles.ContentsAt | pdos/xv6-comment/fs.c:366-396 | Each byte of a file from the raw blocks: the first twelve blocks are those of addrs, the others those of the words of the indirect block |
| FsFiles.WriteStep | pdos/xv6-comment/fs.c:503-509 | One turn of writei's loop, through bmap and the splice, extends the part written by that chunk |
| FsFiles.WriteEnd | pdos/xv6-comment/fs.c:511-514 | After the loop and the final iupdate all inodes are well shaped and equal to their copies on disk |
| FsFiles.WritingFixed | pdos/xv6-comment/fs.c:484-515 | writei never changes the boot block, the superblock or the log |
| FsFiles.WriteThenRead | pdos/xv6-comment/fs.c:453-515 | The bytes written read back, and those before and after them are as they were |
| FsFiles.TrimStep | pdos/xv6-comment/fs.c:412-431 | One bfree of itrunc frees exactly the block at that position, which was in use |
| FsFiles.TrimEnd | pdos/xv6-comment/fs.c:404-440 | itrunc leaves an empty inode that agrees with the disk, frees exactly its blocks and keeps all other files |
| FsFiles.EmptyImageSettled | pdos/xv6-comment/fs.h:5-10 | An empty file system, without a root directory and with the log marked in the bitmap, meets everything that the operations rely on |
| FsCode.FileSystem.constructor | pdos/xv6-comment/fs.h:5-10 | Such a file system |
| FsFiles.MkfsBitmap | pdos/xv6-comment/mkfs.c:155 | The bitmap that mkfs writes marks no block of the log; it is exact for the files in place only if there is no log |
| FsCode.FileSystem.FirstClear | pdos/xv6-comment/fs.c:62-65 | The first clear bit of a bitmap block below the size |
| FsCode.FileSystem.Balloc | pdos/xv6-comment/fs.c:51-76 | The first block whose bit is clear is marked and zeroed, and no other bit or block changes; panics exactly when all are in use |
| FsCode.FileSystem.Bfree | pdos/xv6-comment/fs.c:80-99 | Clears the bit of the block and changes nothing else; panics exactly if it is clear already |
| FsCode.FileSystem.Bmap | pdos/xv6-comment/fs.c:366-396 | addrs[bn] for a direct block, word bn - NDIRECT of the block addrs[NDIRECT] for another, allocating what is missing and changing nothing else; a mapped index changes nothing |
| FsCode.FileSystem.Iupdate | pdos/xv6-comment/fs.c:208-225 | The dinode becomes the inode, all other dinodes and blocks stay; bitmap and ownership are kept |
| FsCode.FileSystem.Readi | pdos/xv6-comment/fs.c:456-481 | Returns exactly the slice of the contents clipped to the size, -1 in the cases of the source, and changes no state |
| FsCode.FileSystem.Writei | pdos/xv6-comment/fs.c:484-515 | Contents become old[..off] + src + old[off+n..], other inodes keep theirs, all inodes stay well shaped and in agreement with the disk, and superblock and log are not written; -1 exactly in the cases of the source |
| FsCode.FileSystem.Itrunc | pdos/xv6-comment/fs.c:404-440 | Empties the inode, frees exactly the blocks it owned, keeps all other contents, and never reaches the panic of bfree |
| FsCode.FileSystem.FreeIndirect | pdos/xv6-comment/fs.c:421-435 | Frees every entry of the indirect block and then the block itself |
| MemIde.SyncAgrees | pdos/xv6-comment/memide.c:36-58 | Afterwards buffer and disk agree, whichever way the data went, and no other sector changed |
| Bio.UnlinkKeeps | pdos/xv6-comment/bio.c:128-129 | The two assignments that unlink a buffer leave a ring of the others in the same order |
| Bio.LinkFrontKeeps | pdos/xv6-comment/bio.c:130-133 | The four assignments that relink it leave a ring with it in front |
| Bio.MoveFrontIsOrder | pdos/xv6-comment/bio.c:127-134 | brelse permutes the NBUF buffers |
| Bio.BCache.constructor | pdos/xv6-comment/bio.c:38-59 | All buffers are in the ring, the last one of the array first, and the cache is empty |
| Bio.BCache.Get | pdos/xv6-comment/bio.c:60-95 | A hit is the one buffer of the sector; a miss recycles the least recently used buffer that is neither busy nor dirty, so no dirty buffer is lost and no sector gets a second buffer |
| Bio.BCache.Bread | pdos/xv6-comment/bio.c:97-107 | The buffer returned holds the data last recorded for the sector |
| Bio.BCache.Bwrite | pdos/xv6-comment/bio.c:109-117 | The held data become those of the disk and of the sector |
| Bio.BCache.Pin | pdos/xv6-comment/log.c:263-269 | log_write records the held data and pins the buffer, without touching the disk |
| Bio.BCache.Brelse | pdos/xv6-comment/bio.c:119-140 | The buffer moves to the front of the ring and the others keep their order |
| Bio.BCache.Iderw | pdos/xv6-comment/memide.c:36-58 | The method does what Sync says |
| Ide.QueueRefinesSync | pdos/xv6-comment/ide.c:68-155 | Over every interleaving of calls, error-free interrupts and changes of idle buffers, buffers and disk are those of memide's iderw run call by call in queue order |
| Ide.SubmitRefines | pdos/xv6-comment/ide.c:125-148 | Appending a request is, for the callers, memide's iderw at that moment |
| Ide.InterruptRefines | pdos/xv6-comment/ide.c:90-119 | An interrupt without a read error is invisible |
| Ide.ErrorShows | pdos/xv6-comment/ide.c:104-105 | A read error is visible exactly when the stale data differ from those of the sector |
| Ide.StepKeepsInv | pdos/xv6-comment/ide.c:68-155 | Queued buffers stay distinct and busy, and the head of the queue is the command in progress |
| Ide.ReturnSeesSync | pdos/xv6-comment/ide.c:149-154 | When a caller's wait ends nothing is pending for its buffer |
| IdeCode.Driver.Iderw | pdos/xv6-comment/ide.c:124-148 | Walks the linked queue to its end, appends the buffer and starts the disk exactly when the queue was empty |
| IdeCode.Driver.IdeIntr | pdos/xv6-comment/ide.c:90-119 | Completes the head of the queue and starts the next request |
| IdeCode.Driver.IdeStart | pdos/xv6-comment/ide.c:68-88 | The command is a write of the data of a dirty buffer, else a read |
| Links.SafeStepsAreExact | pdos/xv6-comment/sysfile.c:114-281 | After a step every link count is the number of entries that name the inode exactly if the step has to make no entry in an unlinked directory and overflows no count, both told from the state before; and which steps panic |
| Links.CreateInRemovedDirectory | pdos/xv6-comment/sysfile.c:238-281 | From a new file system, mkdir, unlink and create in the removed directory lead to a wrong count |
| Links.LinkCountsAreExact | pdos/xv6-comment/sysfile.c:114-281 | At each system call boundary of every such run, nlink is the number of entries other than "." that name the inode in linked directories |
| Links.LinkBeginKeeps | pdos/xv6-comment/sysfile.c:137-139 | nlink++ ahead of the new entry is accounted for while other calls run, exactly up to the largest short |
| Links.LinkEndKeeps | pdos/xv6-comment/sysfile.c:141-161 | Success keeps the counts in a linked directory and breaks them in an unlinked one; the rollback always keeps them |
| Links.FailedLinkUndone | pdos/xv6-comment/sysfile.c:155-161 | A sys_link that fails leaves no trace, even if the count had overflowed |
| Links.UnlinkKeeps | pdos/xv6-comment/sysfile.c:180-236 | Unconditionally keeps the counts and the tree, and never meets an nlink below 1 |
| Links.UnlinkNamed | pdos/xv6-comment/sysfile.c:180-236 | What sys_unlink does to each inode, told from the entry that has the name; it never panics |
| Links.EmptyDirCount | pdos/xv6-comment/sysfile.c:210-225 | An empty directory is named once, so that unlinking it brings its count to 0 |
| Links.HolderCount | pdos/xv6-comment/sysfile.c:218-221 | The directory that holds it stays linked when its count is lowered |
| Links.CreateKeeps | pdos/xv6-comment/sysfile.c:238-281 | Making an inode keeps the counts and the tree exactly if the parent is linked and its count has room |
| Links.CreatedEffect | pdos/xv6-comment/sysfile.c:255-280 | What create does to each inode for a new name |
| Links.LinkedNames | pdos/xv6-comment/fs.c:558-586 | The entry that dirlink makes is the one that a lookup finds, in the first free place |
| Links.CreateUnlinkedBreaks | pdos/xv6-comment/sysfile.c:258-276 | In an unlinked parent it always breaks them |
| Links.FreeKeeps | pdos/xv6-comment/fs.c:329-348 | Freeing an inode without links changes no count |
| Links.InitialInv | pdos/xv6-comment/mkfs.c:107-118 | The root directory that mkfs makes satisfies the invariant |
| LinksCode.FileSystem.DirLookup | pdos/xv6-comment/fs.c:526-556 | The first entry in use with the name |
| LinksCode.FileSystem.DirLink | pdos/xv6-comment/fs.c:558-586 | Fails if the name is there, else fills the first free entry or extends the directory; a lookup then finds the new entry |
| LinksCode.FileSystem.IsDirEmpty | pdos/xv6-comment/sysfile.c:164-178 | No entry past the second is in use |
| LinksCode.FileSystem.SysLinkBegin | pdos/xv6-comment/sysfile.c:130-139 | Refuses directories, raises the count |
| LinksCode.FileSystem.SysLinkEnd | pdos/xv6-comment/sysfile.c:141-161 | Makes the entry or lowers the count again |
| LinksCode.FileSystem.SysUnlink | pdos/xv6-comment/sysfile.c:180-236 | Fails for the dots, a missing name and a directory with entries; else takes the entry with the name away and lowers the count of its inode and, for a directory, of the parent |
| LinksCode.FileSystem.Ialloc | pdos/xv6-comment/fs.c:180-206 | The first free inode, cleared |
| LinksCode.FileSystem.Create | pdos/xv6-comment/sysfile.c:238-281 | Returns the inode that the name's entry names: the one it named before, or else one that was free, with one link and the dots of a directory |
| LinksCode.FileSystem.constructor | pdos/xv6-comment/mkfs.c:107-118 | The root directory and free inodes |
| FreeList.BlocksDisjoint | pdos/xv6-comment/umalloc.c:24-44 | Distinct blocks, free or handed out, share no unit |
| FreeList.FreedGood | pdos/xv6-comment/umalloc.c:33-43 | The stores of free, with both merges, leave one circular list with a single wrap, disjoint blocks and no two adjacent free ones |
| FreeList.FreedKeepsLive | pdos/xv6-comment/umalloc.c:33-43 | free touches no unit of a block that stays handed out |
| FreeList.FreedKeepsUnits | pdos/xv6-comment/umalloc.c:33-43 | free loses no unit, and the freed ones lie in a free block at least as large |
| FreeList.TakeGood | pdos/xv6-comment/umalloc.c:75-84 | Taking a whole block or its tail keeps the list in order |
| FreeList.TakeKeeps | pdos/xv6-comment/umalloc.c:75-84 | It touches no unit of any other block |
| FreeList.UnitsConserved | pdos/xv6-comment/umalloc.c:24-90 | The sizes of free and handed-out blocks add up to the units obtained |
| FreeList.GrowGood | pdos/xv6-comment/umalloc.c:57-58 | Fresh units from sbrk form a block of their own |
| Umalloc.RequestFits | pdos/xv6-comment/umalloc.c:69 | The largest request for which no 32-bit computation overflows: exactly up to it the payload holds nbytes and sbrk is asked for enough |
| Umalloc.LargeRequests | pdos/xv6-comment/umalloc.c:52-54 | For which requests sbrk is asked for the right number of bytes, and for which the payload is large enough: past the wrap-around malloc makes a block of one unit |
| Umalloc.Allocator.constructor | pdos/xv6-comment/umalloc.c:21-22 | No list before the first malloc |
| Umalloc.Allocator.Search | pdos/xv6-comment/umalloc.c:30-32 | free's search ends, at the free block after which bp belongs, past the wrap included |
| Umalloc.Allocator.Free | pdos/xv6-comment/umalloc.c:24-44 | The block is free again, no unit is lost, the other handed-out blocks are untouched |
| Umalloc.Allocator.MoreCore | pdos/xv6-comment/umalloc.c:46-61 | On success exactly the requested units join the free list, one block of which is large enough; on failure nothing changes |
| Umalloc.Allocator.Malloc | pdos/xv6-comment/umalloc.c:63-90 | For every request: ends after at most one successful morecore; the new block has the computed units, which hold nbytes exactly up to the wrap-around, is disjoint from all others, and free plus handed-out units are those obtained; 0 only if no free block fits and sbrk fails, or stops where sbrk would get a wrong number |
| Umalloc.Allocator.Walk | pdos/xv6-comment/umalloc.c:74-89 | malloc's loop: every free block is looked at before morecore, and a large enough one is met after it |
| Umalloc.Allocator.UserWrite | pdos/xv6-comment/umalloc.c:84 | Writing to the payload of a block that was handed out keeps the allocator's state |
| Umalloc.Allocator.Sbrk | pdos/xv6-comment/umalloc.c:54-56 | Fresh units past all earlier ones, or none |
| Vm.SetPte | pdos/xv6-comment/vm.c:83 | Writing an entry changes the flat map at that page and nowhere else |
| Vm.PteIs | pdos/xv6-comment/mmu.h:106-145 | What the processor finds for a page, in the raw words of directory and table |
| Vm.PackIs | pdos/xv6-comment/vm.c:83 | The word that mappages stores |
| Vm.AddTable | pdos/xv6-comment/vm.c:54-63 | A cleared frame from the pool becomes a table without changing the flat map |
| Vm.SameTables | pdos/xv6-comment/vm.c:45-65 | A write to a frame that is no table of the space does not change its map |
| Vm.UserAfterUserMap | pdos/xv6-comment/vm.c:231-241 | Mapping a frame in hand makes it the space's, and every user page keeps a frame of its own |
| Vm.UserAfterKernelMap | pdos/xv6-comment/vm.c:139-143 | Kernel mappings leave the user's part and the frame accounting alone |
| Vm.UserAfterUnmap | pdos/xv6-comment/vm.c:263-269 | Clearing an entry leaves its frame in hand and the rest of the map as it was |
| VmSpaces.ShrunkClears | pdos/xv6-comment/vm.c:258-271 | deallocuvm clears its whole range exactly if it steps over no mapped page; a range that begins at a table or in one that is present is never stepped over |
| VmSpaces.MissedPage | pdos/xv6-comment/vm.c:261-262 | A space with page 1024 mapped and no table before it: deallocuvm from page 1 on leaves that page mapped |
| VmSpaces.WholeMapClears | pdos/xv6-comment/vm.c:258-271 | Where all pages below the old size are mapped, as in every process, the whole range is cleared |
| VmSpaces.ShrinkUndoesGrow | pdos/xv6-comment/vm.c:218-273 | deallocuvm after allocuvm, also one that stopped, restores the user's map and contents and exactly the frames that were free, save the new tables and a lost frame |
| VmSpaces.GrowStep | pdos/xv6-comment/vm.c:232-240 | One turn of allocuvm maps a cleared frame, or loses it when mappages has no memory for a table |
| VmCount.NeedDecides | pdos/xv6-comment/vm.c:231-241 | The number of free frames at the call decides whether allocuvm maps all pages and whether it loses a frame |
| VmCount.NewTabsFresh | pdos/xv6-comment/vm.c:51-63 | A run of pages without tables needs one table for each directory entry that it touches |
| VmSpaces.OneFrameIsLost | pdos/xv6-comment/vm.c:232-240 | With one free frame and an empty space, allocuvm of one page loses it |
| VmSpaces.KernelLineTabs | pdos/xv6-comment/vm.c:115-143 | Each line of kmap needs exactly the tables that earlier lines have not added, 64 in all |
| VmSpaces.CopyDecides | pdos/xv6-comment/vm.c:319-335 | The number of free frames at the call decides whether copyuvm makes the child and whether it loses a frame |
| VmSpaces.KernelPteAbove | pdos/xv6-comment/vm.c:115-125 | The lines of kmap do not overlap and leave the user's part empty |
| VmSpaces.KernelPteIs | pdos/xv6-comment/vm.c:97-125 | Page by page the frame and the flags of the kernel's part |
| VmSpaces.CopyStep | pdos/xv6-comment/vm.c:319-331 | One turn of copyuvm copies flags and contents of a page to a frame from the pool |
| VmSpaces.ParentKept | pdos/xv6-comment/vm.c:309-337 | Nothing done on frames of the pool changes the parent's map or contents |
| VmSpaces.FreeUndoesCopy | pdos/xv6-comment/vm.c:275-337 | freevm of the child returns to the pool exactly the frames that copyuvm took, tables included |
| VmSpaces.AllFreed | pdos/xv6-comment/vm.c:275-292 | freevm frees the user pages, every table and the directory, each once |
| VmCode.Machine.Kalloc | pdos/xv6-comment/kalloc.c:79-95 | Pops the linked free list |
| VmCode.Machine.Kfree | pdos/xv6-comment/kalloc.c:54-77 | Pushes the frame on the linked free list |
| VmCode.Machine.FreeRange | pdos/xv6-comment/kalloc.c:45-52 | Frees exactly the frames of the range |
| VmCode.Machine.WalkPgDir | pdos/xv6-comment/vm.c:42-65 | The table of the page, added from the pool if asked for and missing, at the cost of exactly one frame then; the flat map does not change |
| VmCode.Machine.MapPages | pdos/xv6-comment/vm.c:67-90 | Maps exactly the pages from PGROUNDDOWN(va) to PGROUNDDOWN(va+size-1) to consecutive frames and nothing else, at the cost of exactly the missing tables, up to the first page that is mapped already or whose table is missing with no frame left |
| VmCode.Machine.SetupKvm | pdos/xv6-comment/vm.c:127-144 | A directory made of 65 frames of the pool alone, with exactly the kernel map; 0 exactly with fewer frames, and then none is left |
| VmCode.Machine.AllocUvm | pdos/xv6-comment/vm.c:218-243 | Maps cleared frames at exactly the new pages, exactly if there are frames for them and their missing tables; otherwise undoes its work; loses one frame exactly if it was the last and a table is missing for it |
| VmCode.Machine.DeallocUvm | pdos/xv6-comment/vm.c:245-273 | Clears and frees exactly the pages of the range that it does not step over |
| VmCode.Machine.FreeVm | pdos/xv6-comment/vm.c:275-292 | All frames of the space and no others are in the pool |
| VmCode.Machine.CopyUvm | pdos/xv6-comment/vm.c:307-337 | The child has the same flags and equal contents on frames of the pool, and no other frame is written; 0 exactly if there are too few frames, and exactly which frames are lost then |
| Proc.ParentsCanWait | pdos/xv6-comment/proc.c:182-265 | In every run with ptable.lock free: no process asleep in wait has a ZOMBIE child, and every parent is a live process |
| Proc.ReapedOnce | pdos/xv6-comment/proc.c:240-253 | Between two reapings of a slot a process was born there and exited, and it is the one reported |
| Proc.PidReportedOnce | pdos/xv6-comment/proc.c:226-253 | wait reports each process id at most once, until nextpid wraps around |
| Proc.KillHits | pdos/xv6-comment/proc.c:432-450 | kill finds the one process with the id, in whatever slot, marks it, makes it RUNNABLE if it slept, and changes nothing else |
| Proc.WakesExactly | pdos/xv6-comment/proc.c:371-450 | A sleeping process becomes RUNNABLE exactly by a wakeup of its channel, a kill of its id or the exit of a child it waits for; no other step touches its state or channel |
| Proc.ExitIsReported | pdos/xv6-comment/proc.c:182-265 | In every reachable state: after the exit of a process whose parent is in wait, the parent can be scheduled and reaps a ZOMBIE child |
| Proc.WaitersDoNotFork | pdos/xv6-comment/proc.c:131-265 | In every run a process in wait is not in the middle of a fork |
| Proc.ForkMakesChild | pdos/xv6-comment/proc.c:38-175 | In every reachable state with a free slot an undisturbed fork makes a RUNNABLE child of the caller with the next id, and changes nothing else |
| Proc.FailedForkFrees | pdos/xv6-comment/proc.c:142-150 | A fork that fails frees the slot, which keeps the id |
| Proc.SleeperRunsOn | pdos/xv6-comment/proc.c:340-426 | A process that sleeps runs on as it was after a wakeup of its channel, and so does one that yields; the other sleepers on the channel wake, too |
| Proc.CleanSlotsKept | pdos/xv6-comment/proc.c:436-447 | Free slots keep their killed flag clear exactly if no kill finds a free slot and no fork fails after its child was killed; then a new process is born not killed |
| Proc.KillZeroKillsNextChild | pdos/xv6-comment/proc.c:436-447 | After boot kill(0) by the first process succeeds and its first child is born killed |
| Proc.StepKeepsInv | pdos/xv6-comment/proc.c:37-450 | Family, fork slots, missed exits and the record of births, exits and reapings are kept by every step |
| Proc.FamilyExit | pdos/xv6-comment/proc.c:206-219 | exit passes its children to init, so that no parent is a ZOMBIE |
| Proc.NoMissedExitExit | pdos/xv6-comment/proc.c:206-219 | exit wakes its parent, and init when it inherits a ZOMBIE |
| Proc.PidsKept | pdos/xv6-comment/proc.c:51-53 | Ids count the births until nextpid wraps around |
| ProcCode.Table.constructor | pdos/xv6-comment/proc.c:80-106 | userinit's table |
| ProcCode.Table.AllocProc | pdos/xv6-comment/proc.c:43-53 | The first UNUSED slot becomes an EMBRYO with the next id |
| ProcCode.Table.Wakeup1 | pdos/xv6-comment/proc.c:409-418 | Wakes exactly the sleepers on the channel |
| ProcCode.Table.Exit | pdos/xv6-comment/proc.c:204-219 | The interleaved loop of reparenting and waking: field for field what becomes of every slot |
| ProcCode.Table.Wait | pdos/xv6-comment/proc.c:232-264 | Reaps the first ZOMBIE child and returns its id, or returns -1, or sleeps, exactly in the cases of the source |
| ProcCode.Table.Kill | pdos/xv6-comment/proc.c:432-450 | The first slot with the id is killed and not SLEEPING, RUNNABLE exactly if it slept, and nothing else changes; -1 exactly if there is none |
| Pipe.BytesComeOutInOrder | pdos/xv6-comment/pipe.c:76-120 | For any number of readers and writers, killed ones included, the bytes read are a prefix of the bytes stored in lock order and the pipe holds the rest; each call moved exactly the bytes it reports |
| Pipe.NobodyStuckWithoutKill | pdos/xv6-comment/pipe.c:76-120 | Without kill, a sleeping reader means empty and writeopen, a sleeping writer full and readopen |
| Pipe.StepKeepsNobodyStuck | pdos/xv6-comment/pipe.c:84-91 | That is kept by a step exactly if it is not a killed writer that fills the pipe and fails beside a sleeping reader |
| Pipe.NobodyStuckUntilStranded | pdos/xv6-comment/pipe.c:76-120 | With kill it holds over every run without such a step |
| Pipe.KilledWriterStrandsReader | pdos/xv6-comment/pipe.c:85-88 | The smallest run that ends in such a step, from a new pipe |
| Pipe.NoDeadlock | pdos/xv6-comment/pipe.c:76-120 | Readers and writers never all sleep; a reader that remains has read everything stored |
| Pipe.StepKeepsInv | pdos/xv6-comment/pipe.c:58-120 | The histories of stored and taken bytes account for every operation |
| Pipe.WakesExactly | pdos/xv6-comment/pipe.c:58-120 | A sleeping operation is made ready exactly by a kill, the closing of the end it waits for, a read that finds bytes or the end, or a write that is done or goes to sleep |
| Pipe.FreedPipeIsUnused | pdos/xv6-comment/pipe.c:69-71 | When pipeclose frees the pipe no operation is left to use it |
| PipeCode.CountersTell | pdos/xv6-comment/pipe.c:84-105 | Equality tests on wrapped 32-bit counters tell empty and full |
| PipeCode.StoreKeepsRing | pdos/xv6-comment/pipe.c:92 | Storing at nwrite appends, across the wrap of the counter |
| PipeCode.TakeKeepsRing | pdos/xv6-comment/pipe.c:115 | Taking at nread removes the first byte, across the wrap of the counter |
| PipeCode.PipeBuffer.constructor | pdos/xv6-comment/pipe.c:32-35 | An empty pipe, both ends open |
| PipeCode.PipeBuffer.PipeWrite | pdos/xv6-comment/pipe.c:76-97 | From the lock to the sleep or return: as many bytes as fit are stored, and the count, the outcome and the wakeup are those of the source |
| PipeCode.PipeBuffer.PipeRead | pdos/xv6-comment/pipe.c:99-120 | From the lock to the sleep or return: the bytes removed from the front of the queue are those in the buffer; it sleeps or fails only on an empty pipe that is open for writing |
| PipeCode.PipeBuffer.PipeClose | pdos/xv6-comment/pipe.c:58-74 | Closes one end and wakes the sleepers of the other; freed exactly when both are closed |
| Sh.StringsReadBack | pdos/xv6-comment/sh.c:449-494 | After nulterminate every string of an accepted line reads back as exactly its word |
| Sh.LineIsParsed | pdos/xv6-comment/sh.c:345-447 | Every string of a parsed command is a whole word of the line, and every exec has at most MAXARGS - 1 words |
| Sh.WordToken | pdos/xv6-comment/sh.c:266-309 | A word token is a maximal run of word characters |
| ShGrammar.ParserIsGrammar | pdos/xv6-comment/sh.c:266-447 | The parser accepts exactly the lines of the grammar, with any space between the tokens, whose simple commands have at most MAXARGS - 1 words, and reads each as the command that it means |
| ShGrammar.TypedLineReads | pdos/xv6-comment/sh.c:266-447 | A typed line is read as what it means: pipes and lists to the right, one node for each '&', and one for each redirection, in order, the first innermost; with too many words it is rejected |
| ShGrammar.CommandIsRead | pdos/xv6-comment/sh.c:375-447 | A command typed alone is read with one redirection for each one typed, in that order, the first innermost, around its words or its block |
| ShGrammar.NestAdds | pdos/xv6-comment/sh.c:385-394 | Each redirection typed is one node at the top of the tree, none is dropped |
| ShGrammar.PieceAdds | pdos/xv6-comment/sh.c:429-442 | Each word is one argument and each redirection one node, at its place among the others |
| ShGrammar.LineReads | pdos/xv6-comment/sh.c:345-447 | The same at any place of a line before its end or a closing parenthesis |
| ShGrammar.PiecesRead | pdos/xv6-comment/sh.c:416-447 | A simple command with redirections before, between and after its words: all words and all redirections in order |
| ShGrammar.DirsRead | pdos/xv6-comment/sh.c:375-398 | Any number of redirections after a block |
| ShGrammar.WrapMeans | pdos/xv6-comment/sh.c:375-398 | The first redirection of a command is the innermost node |
| ShGrammar.LineParsed | pdos/xv6-comment/sh.c:345-447 | What the parser accepts from any place is spelled by a line of the grammar |
| ShRoundTrip.RoundTrip | pdos/xv6-comment/sh.c:328-447 | The fully parenthesised printing of a tree parses to that tree exactly if no exec has more than MAXARGS - 1 words; otherwise it fails |
| ShRoundTrip.TerminatedShowsText | pdos/xv6-comment/sh.c:449-494 | On every accepted line the pointers show the words of the line |
| ShRoundTrip.ParseCmdShowsTree | pdos/xv6-comment/sh.c:328-494 | Printing, parsing and terminating a tree shows the tree |
| ShRoundTrip.TypedLineShowsMeaning | pdos/xv6-comment/sh.c:328-494 | The same on any line that may be typed: after nulterminate the user sees what the line means |
| ShCode.Parser.constructor | pdos/xv6-comment/sh.c:334 | es is the first NUL |
| ShCode.Parser.GetToken | pdos/xv6-comment/sh.c:266-309 | The token and the cursor of the specification |
| ShCode.Parser.Peek | pdos/xv6-comment/sh.c:311-321 | Skips space and looks at the next character |
| ShCode.Parser.ParseRedirs | pdos/xv6-comment/sh.c:375-398 | The loop over redirections ends and reads those of the specification |
| ShCode.Parser.ParseBlock | pdos/xv6-comment/sh.c:400-414 | A parenthesised line and its redirections, all of them, or a panic |
| ShCode.Parser.ParseExec | pdos/xv6-comment/sh.c:416-447 | The loop over words ends, with at most MAXARGS - 1 of them and every redirection among them, or a panic |
| ShCode.Parser.ParsePipe | pdos/xv6-comment/sh.c:362-373 | A pipeline, or a panic |
| ShCode.Parser.ParseLine | pdos/xv6-comment/sh.c:345-360 | Ends on every input, with the command of the specification or a panic |
| ShCode.Parser.NulTerminate | pdos/xv6-comment/sh.c:449-494 | Writes a NUL after every string of the command and changes nothing else |
| ShCode.Parser.ParseCmd | pdos/xv6-comment/sh.c:328-343 | Ends on every input; succeeds exactly on the lines of the grammar, and then what the pointers show is what the line means; on a panic the buffer is as before |
| Grep.Match | pdos/xv6-comment/grep.c:71-81 | Returns true exactly if the declarative meaning of the pattern holds at some start of the text |
| Grep.MatchHere | pdos/xv6-comment/grep.c:83-95 | The same at the start of the text, by mutual recursion that ends on all inputs |
| Grep.MatchStar | pdos/xv6-comment/grep.c:97-105 | The same for c* followed by the rest of the pattern |
| Grep.StartsIs | pdos/xv6-comment/grep.c:83-105 | The meaning of a typed pattern at the start of a text, read off its characters: empty, c*, a final $, '.' and literals |
| Grep.MatchesIs | pdos/xv6-comment/grep.c:71-81 | A leading ^ pins the match to the start, otherwise it may be anywhere |
| Grep.StartsStar | pdos/xv6-comment/grep.c:97-105 | c* then p starts a text exactly if p starts it after some run of characters that c fits |
| Grep.StartsOne | pdos/xv6-comment/grep.c:91-92 | One character then p, likewise |
| Grep.ReadOfPrint | pdos/xv6-comment/grep.c:83-95 | Every pattern reads back from what is typed for it exactly if no '*' that is to be a plain character follows a literal and none ends in a plain '$' |
| Grep.PrintOfRead | pdos/xv6-comment/grep.c:83-95 | Reading loses nothing of the pattern that was typed |

## Left out

- Ide.QueueRefinesSync: for runs whose interrupts report no read error and complete the
  command in progress, because the handler trusts both.
- LogOps.NoLogPanic: needs `log.size > LOGSIZE` and the budget of each operation, because the
  code checks neither.
- VmSpaces.FreeUndoesCopy: for a copyuvm that did not run out of memory; VmCode.Machine.CopyUvm
  says what comes back of one that did.
- Proc.PidReportedOnce: while nextpid has not wrapped around, because ids repeat after that.
- Proc.KillHits: likewise.
- Umalloc.Allocator.Malloc: stops where the source would call sbrk with a number of bytes that
  has overflowed; what sbrk and the memory do then is not modelled.
- FsFiles.EmptyImageSettled: an image with the bits of the log set and without the root directory
  and files that mkfs adds, because directories are modelled in Links.
- FsCode.FileSystem.constructor: likewise.
- FsLog.FilesSurviveCrashes: takes as given that the operations of a run, between two moments
  without any, keep a file system; each operation of FsCode does, one at a time.
- ShCode.Parser.ParseExec: builds the redirections of a command as a list that is wrapped
  around the finished exec, where the source wraps them around a node that it still fills.
- FsCode.FileSystem.Writei: says nothing of the state after a panic of balloc, which stops the
  machine.
- LinksCode.FileSystem.Create: says nothing of the state after a panic, likewise.
- The superblock is a constant; reading it is not modelled.
- The inode cache (iget, idup, the locks and reference counts of inodes): inodes are indexed by
  number, and the last iput of an inode is a step that its link count permits.
- Path walking (namex, skipelem): the parent directory and the name are parameters, so that the
  link counts are right for every directory and name.
- A directory is a list of entries in Links; that its bytes are those of a file is not modelled.
- There is one file system device, so that sys_link never meets an inode of another one.
- Device inodes, pipes as files, the file table and the system call arguments.
- Running out of buffers, inodes or disk blocks beyond reporting it.
- Frees and exits of kernel stacks, open files and address spaces inside exit and wait.
- The number of processors: any runnable process may be scheduled at any time.
- inituvm, loaduvm, copyout, clearpteu and switching page tables.
- The matcher's callers: grep's buffered reading loop.
- runcmd, getcmd and the user programs.
- Hardware, boot and console code, locks as memory operations, and time.
