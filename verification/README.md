# Verified model of the xv6 copies

The repository holds three modified copies of xv6. This project models their
hardest parts in Dafny and proves what they are for:

- **Redo log over the buffer cache** (`blocks`, `bio`, `recovery`, `admission`,
  `log`). The cache is a class with an LRU ring of slots over an in-memory disk.
  The log's disk protocol is a list of one-block writes; a crash is a prefix of
  the list. The logger class performs exactly these lists, and the lists are
  proved crash-atomic over whole runs of transactions with recoveries that crash
  too. The admission rule is a state machine whose invariant the class keeps.
- **Inodes and block allocation** (`bitmap`, `fsstate`, `fscontent`, `fsbill`,
  `fstrunc`, `fslog`, `fsinode`, `fschunks`, `fs`, `file`). Every block number has
  one owner and the free map is exact, from a formatted disk on; inodes are packed
  into their blocks; `readi` and `writei` refine a byte sequence; every block that
  changes is given to `log_write`, and a `filewrite` chunk is one transaction of at
  most MAXOPBLOCKS blocks.
- **Files over the log** (`fscrash`, `mount`). After a crash anywhere in a run of file
  system operations, and any number of crashed recoveries, the recovered disk is a sound
  file system that holds exactly the operations whose commit reached its header write;
  for a `filewrite`, whatever other files' operations come between its chunks, that is
  its whole committed chunks. A mounted file system is the inode layer, the logger and
  the cache run together from mkfs's disk on: each operation's `log_write` calls reach
  the log, the crash theorem holds of the disk writes made, and a machine booted again
  from what the crash left goes on from the surviving operations.
- **The K&R allocator** (`freelist`, `umalloc`). A ring in address order over flat
  memory, with all units from `sbrk` partitioned into blocks.
- **Page tables over the page allocator** (`pagetables`, `kalloc`, `vm`, `uvm`,
  `spaces`). Every physical page has one role; each operation says which entries and
  which pages change, on the out-of-memory paths too. Over any run of `sbrk`, guard
  pages, `fork` and `exit` of any number of live processes, the counted pages of each
  are ceil(sz / PGSIZE) exactly when `growproc` never took away its whole size, the
  whole kernel is mapped in each and closed to user code, and once all are gone the
  free pages are those of the start. Nothing fails for want of memory while a page is
  left.
- **The aging scheduler** (`sched`), the **process lifecycle** (`proc`), **pipes**
  (`pipe`), the **regular expression matcher** (`grep`).
- **The shell's parser** (`shgrammar`, `shlex`, `sh`). A grammar of command lines and of
  the characters that spell them, written without reference to the parser; the parser
  accepts exactly that language and builds its one tree in the line buffer.

The log, the cache, the file system, `umalloc.c`, `grep.c` and `pipe.c` follow
`xv6-public_1`, the scheduler `xv6-public_2`, and the page tables, the process
lifecycle and the shell `xv6-public_3`.

How the model reads the source:

- A region executed under a spinlock (`bcache.lock`, `log.lock`, `ptable.lock`, a
  pipe's lock) is one method call, so interleavings are sequences of calls.
- A panic is a result (`ok == false`, `Panics`, `Panic`), after which the machine
  has stopped, or an assertion that it cannot happen.
- Pointers become indices: cache slots, memory units, page frame numbers, table
  entries, positions in a line. Frame 0, unit 0 and index -1 are null pointers.
- Widths of 32 bits are written out where a wrap matters: `readi`/`writei`
  offsets, `nunits`, pipe counters, `sz + n` in `growproc`, the kernel map's
  device range.

Results worth knowing:

- A log of LOGSIZE blocks, which is what mkfs makes (xv6-public_1/mkfs.c:26), is
  one block too small: an operation within its budget can still panic in
  `log_write`. `AddingNeverPanicsIff` gives the exact size. With a larger log all
  LOGSIZE == NBUF buffers can be pinned, and then commit's first `bread` panics:
  `CommitFindsBufferIff`, and `FillEveryBuffer` gets there. Re-logging a block while
  the log is exactly full panics as well, although it adds nothing: `PanicsExactly`,
  `AbsorptionCanPanic`.
- `malloc` of one of the seven largest sizes wraps and returns a block with no
  payload: `EnoughUnitsIff`, `WrappedRequest`.
- For the sizes from 2^31 - 15 to 2^32 - 8 `morecore` passes `sbrk` an argument that
  is negative or zero, obtains nothing, and goes on as if it had: `SbrkArgIff`,
  `BadRequests`. `Malloc` is stated for every size and says exactly when it stays
  sound.
- `iput` of an unlinked inode logs one map block for every stretch of 4096 blocks the
  file touches, so it fits a transaction exactly when there are at most nine:
  `TruncFitsIff`. On a disk as large as FSSIZE there is one: `SmallDiskTruncFits`.
- `growproc` by minus the whole size unmaps everything, reports failure and keeps
  the old size: `Growproc` says this is the only case.
- A killed writer that fills the pipe in one go leaves sleeping readers asleep:
  `Pipe.Write` gives the exact condition, and `ReaderLeftAsleep` gets there.
- `kill` compares pids in unused entries too: those start with pid 0, and a fork that
  fails leaves its pid behind. A kill with such a pid marks the unused entry, and the
  next child made there is born killed: `Kill`, `KillHitsIff`, `BornKilled`.
- The ten blocks of a transaction are tight: an unaligned chunk that grows the file into
  three new blocks and a new indirect block logs ten when the four lowest free blocks
  lie under four different map blocks: `WriteWorst`, `WorstFollows`, `TenBlocks`.

Premises that the code does not supply, stated as `requires`: during commit one
buffer at least is neither recorded nor in use, and the buffers that other
processes use hold none of the blocks the commit touches (it would wait for those);
the on-disk log header is one the logger wrote; every block below an inode's size
is allocated (`writei` keeps this; the rounding of the root directory in
xv6-public_1/mkfs.c:159-163 can break it when the size is a multiple of BSIZE);
`free` is given a block in use.

## Model

| member | source | states |
|---|---|---|
| `Bio.Bcache.constructor` | xv6-public_1/bio.c:38-57 | after binit the prev/next ring is a permutation of all NBUF buffers, all unreferenced with key (0,0) |
| `Bio.Bcache.FindKey` | xv6-public_1/bio.c:68-77 | the walk through next finds the block's buffer exactly when there is one |
| `Bio.Bcache.FindVictim` | xv6-public_1/bio.c:79-91 | the walk through prev finds the least recently used buffer that is unreferenced and clean, or there is none |
| `Bio.Bcache.Bget` | xv6-public_1/bio.c:61-93 | panics exactly when the block is not cached and nothing is recyclable; a dirty or referenced buffer is never recycled; the key then has one buffer |
| `Bio.Bcache.LockAndFill` | xv6-public_1/bio.c:95-106 | whatever was evicted, the reader gets the value last given to bwrite or log_write for the block, else the disk's |
| `Bio.Bcache.Bwrite` | xv6-public_1/memide.c:35-60 | exactly one disk write, of this block; the buffer is no longer pinned |
| `Bio.Bcache.Brelse` | xv6-public_1/bio.c:117-141 | the ring stays a permutation; the buffer moves to the front when its last reference goes and the order of the rest is kept |
| `Bio.UnlinkRing` | xv6-public_1/bio.c:130-133 | the two relinkings take one buffer out of the doubly linked ring and nothing else |
| `Bio.PushFrontRing` | xv6-public_1/bio.c:134-137 | the four assignments put a buffer at the front of the ring |
| `Bio.Bcache.Available` | xv6-public_1/bio.c:79-92 | with fewer than NBUF buffers pinned, held or in use by others, bget cannot panic |
| `Bio.Bcache.AllPinned` | xv6-public_1/bio.c:79-92 | with every buffer pinned, bget panics for any other block |
| `Recovery.HeadRoundTrip` | xv6-public_1/log.c:84-113 | write_head's words are the count and the block numbers in order, and read_head after it gives the list back, whatever the header block held |
| `Recovery.RecoveryPrefix` | xv6-public_1/log.c:115-122 | redo is idempotent: a crash after any prefix of recovery's writes, then recovery, gives the same home blocks |
| `Recovery.RepeatedCrashes` | xv6-public_1/log.c:115-122 | the same for any number of crashed recoveries in a row |
| `Recovery.RecoveredElsewhere` | xv6-public_1/log.c:68-82 | recovery changes no home block that is not in the header |
| `Recovery.CrashInCommit` | xv6-public_1/log.c:176-202 | after a crash between any two writes of commit, recovery yields all old or all committed contents, decided by the header write |
| `Recovery.CrashAtomicity` | xv6-public_1/log.c:68-122 | crash anywhere in commit, any number of crashes in recovery, one completed recovery: all or nothing, no other home block changed, empty header |
| `Recovery.CrashInRun` | xv6-public_1/log.c:192-202 | over a whole run of transactions exactly those whose header write happened survive |
| `Recovery.CommitPhases` | xv6-public_1/log.c:192-202 | write_log, write_head, install_trans and write_head compose to the commit's write list and install the transaction |
| `Recovery.RunOneMore` | xv6-public_1/log.c:192-202 | a run and one more commit is the longer run: the writes of the parts are the writes of the whole |
| `Recovery.SameRun` | xv6-public_1/log.c:176-202 | the disk writes of a run do not depend on what the cache holds of the log area |
| `Blocks.WordBytes` | xv6-public_1/fs.c:401-407 | a uint of a block is its four bytes, the lowest first |
| `Bitmap.BlockBitWeight` | xv6-public_1/fs.c:64-65 | a bit of a map block is the one of weight 2^(bi % 8) in byte bi / 8 |
| `Admission.StepKeepsInv` | xv6-public_1/log.c:124-174 | every step keeps lh.n plus the unused budgets within LOGSIZE, recorded numbers distinct, and no outstanding operation during commit |
| `Admission.RunKeepsInv` | xv6-public_1/log.c:124-234 | the same over every interleaving |
| `Admission.PanicsExactly` | xv6-public_1/log.c:213-233 | with log.size > LOGSIZE the only possible panic of a disciplined step is re-logging a recorded block while the log is full; end_op's panic is unreachable |
| `Admission.FrozenDuringCommit` | xv6-public_1/log.c:126-174 | lh does not change until the commit is over |
| `Admission.AddingNeverPanicsIff` | xv6-public_1/log.c:213-221 | a block-adding log_write within its budget can never panic if and only if log.size > LOGSIZE |
| `Admission.AbsorptionCanPanic` | xv6-public_1/log.c:213-229 | a run within the budgets whose absorbed log_write panics |
| `Log.Logger.constructor` | xv6-public_1/log.c:53-66 | initlog runs recovery: the disk is the recovered one, the log is empty and the cache agrees with the disk |
| `Log.Logger.RecoverFromLog` | xv6-public_1/log.c:115-122 | performs exactly the recovery's write list |
| `Log.Logger.ReadHead` | xv6-public_1/log.c:84-97 | the in-memory list is the one on disk |
| `Log.Logger.WriteHead` | xv6-public_1/log.c:99-113 | one disk write, of the header with the list encoded in it |
| `Log.Logger.WriteLog` | xv6-public_1/log.c:176-190 | writes the cached contents of each recorded block into the log area, in order, and nothing else |
| `Log.Logger.InstallTrans` | xv6-public_1/log.c:68-82 | writes each log block to its home, which unpins it; always finds its buffers |
| `Log.Logger.BeginOp` | xv6-public_1/log.c:124-142 | admits or sleeps exactly as the admission machine does |
| `Log.Logger.EndOp` | xv6-public_1/log.c:144-163 | the last operation out, and only it, starts a commit |
| `Log.Logger.LogWrite` | xv6-public_1/log.c:204-234 | records the block once, pins it, does not touch the disk; panics exactly as the admission machine says |
| `Log.Logger.LogOp` | xv6-public_1/log.c:213-233 | a whole operation within its budget, while other processes use other buffers: log_write panics if and only if a call finds the log full; otherwise every block given to it is recorded and the cache holds what was written |
| `Log.Logger.OnlyRelogging` | xv6-public_1/log.c:213-221 | with log.size > LOGSIZE a call finds the log full only for a block that is recorded already |
| `Log.Logger.Commit` | xv6-public_1/log.c:164-202 | while others use other buffers: never runs out of buffers, performs exactly the commit's write list, leaves the disk with the cache's contents, an empty log and the other buffers untouched; the writes since boot are those of the transactions committed so far, this one last |
| `Log.Logger.CrashedSinceBoot` | xv6-public_1/log.c:192-202 | a crash after any of the logger's own disk writes since boot, crashed recoveries, recovery: the home blocks hold exactly the transactions whose header write happened |
| `Log.Logger.CommitFindsBufferIff` | xv6-public_1/log.c:176-190 | write_log's first bread succeeds if and only if fewer than NBUF blocks are recorded |
| `Log.Logger.FillEveryBuffer` | xv6-public_1/log.c:176-190 | with log.size > LOGSIZE three operations of ten blocks each pin every buffer, and commit's first bget then panics |
| `Bitmap.SetBlockBitBits` | xv6-public_1/fs.c:63-70 | setting a free-map bit changes that bit and no other |
| `Bitmap.ClearBlockBitBits` | xv6-public_1/fs.c:88-93 | clearing a free-map bit changes that bit and no other |
| `FsState.AllocKeepsInv` | xv6-public_1/fs.c:55-78 | balloc's block was unowned; afterwards no block is held twice, the map is exact, and every other slot and its data are as before |
| `FsState.FreeKeepsInv` | xv6-public_1/fs.c:80-95 | the freed block's bit was set ("freeing free block" cannot happen) and exactly that block leaves the owned set |
| `FsState.NoSharing` | xv6-public_1/fs.c:378-413 | no block number is held by two slots, over all addrs and indirect blocks |
| `FsState.FreeIff` | xv6-public_1/fs.h:49-53 | a block is free exactly when its bit, in the map block bmapstart + b / 4096, is clear |
| `FsState.WriteKeepsInv` | xv6-public_1/fs.c:509-515 | new data in one slot's block leaves every other slot and its data alone |
| `FsInode.InodeRoundTrip` | xv6-public_1/fs.c:224-243 | ilock reads back exactly what iupdate wrote, and the other seven inodes of the block are untouched |
| `FsInode.StoredIff` | xv6-public_1/fs.c:309-319 | the words on disk are the inode's if and only if ilock would read that inode |
| `FsInode.InodesRead` | xv6-public_1/fs.c:296-320 | reading every inode of a sound file system's disk gives its inodes |
| `FsInode.DiskWords` | xv6-public_1/fs.h:29-47 | where each field of an inode lies on disk |
| `FsInode.FileByte` | xv6-public_1/fs.c:383-413 | byte o of a file is byte o % 512 of a direct block, or of a block the indirect block lists |
| `FsInode.UpdateStores` | xv6-public_1/fs.c:224-243 | iupdate makes the record of its inode current and leaves every other record as it was |
| `FsInode.Updated` | xv6-public_1/fs.c:224-243 | an operation on one inode followed by iupdate leaves a sound file system, every file reading as before the iupdate |
| `FsInode.Formatted` | xv6-public_1/mkfs.c:243-256 | with the metadata's bits set the disk is sound and exactly the data blocks are free |
| `Fs.FileSys.constructor` | xv6-public_1/mkfs.c:243-256 | formatting establishes the invariant: bitmap exact, every inode free and empty |
| `Fs.FileSys.LogWrite` | xv6-public_1/fs.c:41-51 | the one place where a block changes: it is then among the logged |
| `Fs.FileSys.Balloc` | xv6-public_1/fs.c:55-78 | returns the lowest free block, zeroed, with only its bit set; of fs.c's panics, exactly the one for no free block |
| `Fs.FileSys.Bfree` | xv6-public_1/fs.c:80-95 | keeps the ownership invariant and every slot, and gives up exactly that block |
| `Fs.FileSys.Bmap` | xv6-public_1/fs.c:383-413 | returns the block's address, allocating it and the indirect block only if missing, and logs exactly the blocks of the bill; of fs.c's panics, only those past MAXFILE and out of blocks |
| `Fs.FileSys.Readi` | xv6-public_1/fs.c:463-489 | the clipped slice of the file's bytes, or -1 past the end or on 32-bit overflow; allocates, logs and changes nothing |
| `Fs.FileSys.Writei` | xv6-public_1/fs.c:492-524 | content becomes old[..off] + src + old[off+n..], every other file unchanged, -1 exactly on a bad range; every block that differs is logged, at most MAXOPBLOCKS of them for a chunk of 3 blocks' bytes, and each data, map, indirect and inode block the bill names is among them |
| `FsContent.WriteRound` | xv6-public_1/fs.c:509-515 | one round of the loop keeps "tot bytes written, the rest as before" |
| `FsContent.WriteDone` | xv6-public_1/fs.c:517-521 | the finished loop and the size update give the overwritten content |
| `Fs.FileSys.WriteThenRead` | xv6-public_1/fs.c:463-524 | a readi of the stretch a writei has just written returns those bytes |
| `FsContent.ReadBack` | xv6-public_1/fs.c:463-524 | the overwritten content holds the written bytes where they were written, and the old ones elsewhere |
| `FsContent.OverwrittenTwice` | xv6-public_1/file.c:140-158 | consecutive writes are one write of the concatenation |
| `FsBill.PayRound` | xv6-public_1/fs.c:383-413 | one round costs one data block, one map block if the block is new, and the indirect block once |
| `FsBill.ChunkRounds` | xv6-public_1/file.c:129-144 | a chunk takes 3 rounds, or 4 when it starts inside a block that is then already there: at most 10 blocks |
| `FsBill.ChargeRound` | xv6-public_1/fs.c:509-515 | one more round logs at least its data block, the map block of each new block, and the indirect block if a block is new in it |
| `FsBill.TenBlocks` | xv6-public_1/file.c:129-144 | the bound is tight: three new blocks and a new indirect block under four different map blocks, the block the chunk starts in, and the inode of a growing file make ten |
| `FsBill.WorstFollows` | xv6-public_1/fs.c:55-78 | such a chunk can be told before it is written: when the four lowest free blocks lie under four different map blocks, those are the four that balloc gives it |
| `Fs.FileSys.WriteWorst` | xv6-public_1/fs.c:492-524 | a writei of a chunk told so beforehand logs exactly MAXOPBLOCKS blocks |
| `FsTrunc.TruncFitsIff` | xv6-public_1/fs.c:415-448 | a truncation logs at most MAXOPBLOCKS blocks if and only if the inode's blocks lie under at most nine map blocks |
| `FsTrunc.SmallDiskTruncFits` | xv6-public_1/param.h:13 | on a disk of at most nine map blocks every truncation does |
| `FsTrunc.EmptyFile` | xv6-public_1/fs.c:415-448 | the truncated file is empty and every other file reads as before |
| `FsTrunc.TruncatedMap` | xv6-public_1/fs.c:415-448 | the blocks that became free are exactly the inode's |
| `Fs.FileSys.Itrunc` | xv6-public_1/fs.c:415-448 | frees exactly the inode's blocks, its size becomes 0 on disk too, no other file changes; logs exactly the inode's block and the map blocks over what it freed |
| `Fs.FileSys.Iput` | xv6-public_1/fs.c:337-365 | frees the inode and its blocks if and only if it is valid, has no links and is held once, within the budget exactly when its blocks lie under nine map blocks at most; otherwise only the reference goes, and a file with a link keeps its bytes |
| `Fs.FileSys.IputAll` | xv6-public_1/fs.c:337-365 | over any sequence of iputs a file with a link keeps its bytes, and one without is emptied exactly when it is valid and all its references have gone |
| `File.OpenFile.Fileread` | xv6-public_1/file.c:94-115 | the next bytes of the file; the offset moves past them |
| `File.OpenFile.WriteChunk` | xv6-public_1/file.c:145-158 | from begin_op to end_op, in any sound state: the chunk is written whole or not at all, as one transaction of at most MAXOPBLOCKS blocks holding every block changed |
| `File.OpenFile.Filewrite` | xv6-public_1/file.c:117-161 | all of the buffer, or -1 with exactly the whole chunks that fit; the transactions are one for every three blocks' bytes, each within the budget, the file holding exactly k chunks after the k-th; "short filewrite" cannot happen |
| `FsChunks.FileAfter` | xv6-public_1/file.c:140-158 | in a run of operations where some are the chunks of a filewrite and the others leave its file alone, after any m operations the file holds exactly the chunks among them |
| `FsChunks.AloneIsFileTxs` | xv6-public_1/file.c:140-158 | a filewrite by itself is such a run |
| `FsCrash.OpsWrote` | xv6-public_1/log.c:204-234 | every block that a sequence of operations changed has been logged by one of them |
| `FsCrash.DurableOps` | xv6-public_1/log.c:192-202 | what the disk writes have made durable is the store after a whole number of operations |
| `FsCrash.AllGood` | xv6-public_1/log.c:11-15 | after any number of whole operations the file system is sound |
| `FsCrash.AloneIsCommit` | xv6-public_1/log.c:144-174 | any one operation within the budget can be a commit by itself |
| `FsCrash.CrashKeepsFiles` | xv6-public_1/log.c:9-23 | crash anywhere, crashed recoveries, recovery: a sound file system with exactly the surviving steps' inodes and bytes, and an empty log; a step is an operation, or several that interleave in one commit |
| `FsCrash.CrashOfLogger` | xv6-public_1/log.c:9-23 | when the logger's commits are those of a run of operations, whatever its cache holds of the log area: a crash after any of its disk writes since boot, crashed recoveries, recovery leave a sound file system with exactly the surviving operations' inodes and bytes |
| `FsCrash.AllSurvive` | xv6-public_1/log.c:192-202 | after a run's last disk write every operation of it survives |
| `Mount.Mounted.constructor` | xv6-public_1/log.c:53-66 | boot on any disk that recovery turns into a sound file system: the files are those of that file system, and nothing is pending |
| `Mount.Format` | xv6-public_1/mkfs.c:243-256 | mkfs's disk boots, with every file empty |
| `Mount.Mounted.Begin` | xv6-public_1/log.c:124-142 | an operation is admitted exactly when its budget fits beside what is recorded and admitted |
| `Mount.Mounted.Write` | xv6-public_1/file.c:145-151 | the file is overwritten at the offset, or -1 with nothing changed, and the operation is ready for its end_op |
| `Mount.Mounted.Iput` | xv6-public_1/fs.c:337-365 | the file is freed if and only if it is valid, has no links and is held once; otherwise no file changes; the operation is ready for its end_op |
| `Mount.Mounted.LogCalls` | xv6-public_1/log.c:204-234 | the operation's log_write calls, in order: the cache then holds what the operation left, and the log records its blocks |
| `Mount.Mounted.EndOp` | xv6-public_1/log.c:144-174 | the operation is done, and if it is the last one out it and all the pending ones are committed; fails if and only if a log_write finds the log full or commit finds no buffer |
| `Mount.Mounted.WriteAlone` | xv6-public_1/file.c:145-158 | begin_op to end_op with nothing else going on, log.size > MAXOPBLOCKS + 1: committed, or the disk has no free block left |
| `Mount.Mounted.Crash` | xv6-public_1/log.c:9-23 | after a crash behind any disk write since boot, and crashed recoveries, recovery finds a sound file system with exactly the surviving operations' inodes and bytes |
| `Mount.Mounted.NothingLost` | xv6-public_1/log.c:192-202 | a commit that has ended survives every crash that loses no finished disk write |
| `Mount.Mounted.Reboot` | xv6-public_1/log.c:53-66 | booted again from what the crash left, the machine runs on with exactly the surviving operations' files |
| `Mount.TwoWrites` | xv6-public_1/log.c:9-23 | two commits on a new disk: wherever the machine crashes the file holds nothing, the first write or both |
| `FsCrash.CrashInFilewrite` | xv6-public_1/file.c:129-158 | after a crash in a run that holds a filewrite, other operations between its chunks included, the file holds exactly the filewrite's committed chunks, whole, and is otherwise as it was |
| `FreeList.UnitsConserved` | xv6-public_1/umalloc.c:24-90 | every unit got from sbrk lies in exactly one block, free or allocated |
| `FreeList.LinkKeepsInv` | xv6-public_1/umalloc.c:33-42 | linking a block in at its place keeps the ring in address order and the blocks disjoint |
| `FreeList.MergeKeepsInv` | xv6-public_1/umalloc.c:33-42 | merging two adjacent blocks keeps the ring and the partition |
| `FreeList.FreedKeepsInv` | xv6-public_1/umalloc.c:33-43 | after free no two free blocks are adjacent, no unit is lost, and no other allocated block changes |
| `FreeList.FreeCodeIsFreed` | xv6-public_1/umalloc.c:33-42 | the four branch combinations are linking, then merging forward, then merging backward |
| `FreeList.UnlinkKeepsInv` | xv6-public_1/umalloc.c:76-77 | taking a whole block keeps the invariant |
| `FreeList.CarveKeepsInv` | xv6-public_1/umalloc.c:78-82 | taking the tail of a block keeps the invariant |
| `FreeList.AddKeepsInv` | xv6-public_1/umalloc.c:57-58 | new memory joins as one block |
| `Umalloc.Heap.FindPlace` | xv6-public_1/umalloc.c:29-32 | the search loop ends, at the block's place in the ring |
| `Umalloc.Heap.Free` | xv6-public_1/umalloc.c:24-44 | the block leaves the allocated set; the ring stays ordered and coalesced; no unit is lost; other blocks keep place and contents |
| `Umalloc.Heap.Morecore` | xv6-public_1/umalloc.c:46-61 | one call of sbrk: max(nu, 4096) units join the list, at freep or just after it, or nothing changes; sound exactly when sbrk's 32-bit signed argument is positive |
| `Umalloc.Heap.Search` | xv6-public_1/umalloc.c:74-89 | the loop ends, asks for memory once exactly when no listed block fits, and otherwise takes the first fitting block after freep |
| `Umalloc.Heap.Malloc` | xv6-public_1/umalloc.c:63-90 | for every size: sound if and only if a listed block fits or sbrk's argument is positive; 0 only when nothing fits and sbrk fails; else a new block of exactly nunits; memory grows by 0 or max(nunits, 4096), asked for once; nothing allocated earlier is moved or written |
| `Umalloc.SbrkArgIff` | xv6-public_1/umalloc.c:52-54 | sbrk's argument is positive, and what morecore wants, if and only if nbytes <= 2^31 - 16 or nbytes + 7 >= 2^32 |
| `Umalloc.BadRequests` | xv6-public_1/umalloc.c:52-54 | 2^31 - 15 bytes ask sbrk for -2^31, and 2^32 - 8 bytes for 0 |
| `Umalloc.Heap.Sbrk` | xv6-public_1/sysproc.c:66-78 | a positive amount is got or refused; any other obtains nothing, though the old end is returned |
| `Umalloc.EnoughUnitsIff` | xv6-public_1/umalloc.c:69 | the block covers the request if and only if nbytes + 7 < 2^32 |
| `Umalloc.WrappedRequest` | xv6-public_1/umalloc.c:69 | the largest request gets one unit |
| `Kalloc.Kmem.Kalloc` | xv6-public_3/kalloc.c:79-95 | the page at the head of the list, or 0 exactly when none is free |
| `Kalloc.Kmem.Release` | xv6-public_3/kalloc.c:59-77 | the page is free again; no other page changes |
| `Kalloc.Kmem.Freerange` | xv6-public_3/kalloc.c:46-53 | exactly the whole pages inside the range become free |
| `PageTables.MapUser` | xv6-public_3/vm.c:94 | a user entry takes over a page and every page still has one owner |
| `PageTables.Unmap` | xv6-public_3/vm.c:290-297 | clearing an entry and freeing its page keeps every page with one owner |
| `Vm.OtherSpaces` | xv6-public_3/vm.c:242-319 | operations on one address space leave the entries and pages of every other alone |
| `Vm.Walks` | xv6-public_3/vm.c:53-76 | the entry for an address is the one the processor's two-level walk finds, and a directory entry restricts nothing |
| `Vm.Walkpgdir` | xv6-public_3/vm.c:53-76 | the entry's place; fails exactly when the table is missing and may not or cannot be made; no mapping changes |
| `Vm.Mappages` | xv6-public_3/vm.c:78-101 | the whole range is mapped, or -1 with a prefix mapped and no page free; "remap" cannot happen |
| `Vm.Setupkvm` | xv6-public_3/vm.c:138-157 | a fresh space with no user page and exactly the kernel's mappings, the wrapping device range included: each entry's frame, writable but for the kernel's text, closed to user code; or 0 with every page given back, and then only when no page was left |
| `Vm.RowMapped` | xv6-public_3/vm.c:131-136 | each row of kmap adds its part of the kernel's mapping |
| `PageTables.KEntryBits` | xv6-public_3/vm.c:131-136 | the bits of the kernel's entries |
| `Vm.Deallocuvm` | xv6-public_3/vm.c:272-300 | exactly the pages from PGROUNDUP(newsz) up to oldsz are unmapped and freed: the 4 MB jump passes over no present page |
| `Vm.ShrunkSkip` | xv6-public_3/vm.c:288-289 | jumping over a stretch with nothing mapped is the same as unmapping it |
| `Vm.Freevm` | xv6-public_3/vm.c:302-319 | every page of the space, and no other, is freed once |
| `Vm.FreshThenFreed` | xv6-public_3/vm.c:138-157 | a space made from free pages and then freed leaves the free pages exactly as they were |
| `Uvm.PutPage` | xv6-public_3/vm.c:255-267 | kalloc, fill and mappages: one new page, or nothing changed but the page in hand |
| `Uvm.Allocuvm` | xv6-public_3/vm.c:240-270 | exactly the missing pages, new, zeroed, present, writable and the user's; or 0 with the old mapping and every data page restored, and then only when no page was left |
| `Uvm.TakenBack` | xv6-public_3/vm.c:256-266 | deallocuvm on the failure path takes back exactly what the loop mapped |
| `Uvm.Growproc` | xv6-public_3/proc.c:178-198 | the mapped pages are those below sz again if and only if the call does not shrink by the whole size; says when it fails: shrinking exactly when it reaches 0, growing only past KERNBASE or when no page was left |
| `Uvm.Copyuvm` | xv6-public_3/vm.c:334-366 | the same user pages, flags and contents in pages that were free, the kernel's mappings closed to user code, the parent untouched; or 0 with the free pages exactly as before, and then only when no page was left; panics if and only if it does not return 0 and a page below sz is missing, and then at the first such page |
| `Uvm.Clearpteu` | xv6-public_3/vm.c:321-332 | the guard page keeps its frame and loses only user access, every size of space is kept; panics exactly when the table is missing |
| `Uvm.Countphysicalpages` | xv6-public_3/vm.c:16-30 | the number of pages mapped below KERNBASE |
| `Uvm.CountIsCeil` | xv6-public_3/vm.c:16-30 | in a space of size sz that is ceil(sz / PGSIZE) |
| `Uvm.CopySpace` | xv6-public_3/vm.c:334-366 | a copy of a space of size sz is a space of size sz |
| `Spaces.FamilyFrames` | xv6-public_3/vm.c:242-332 | an operation on one live space leaves every other whole with its size right, and touches no page outside the live ones |
| `Spaces.FamilyGrows` | xv6-public_3/vm.c:138-157 | a fresh space joins the live ones, which stay whole, and every page taken belongs to one of them |
| `Spaces.FamilyShrinks` | xv6-public_3/vm.c:302-319 | freeing one space frees its pages and leaves the other live ones whole |
| `Spaces.CountExact` | xv6-public_3/vm.c:16-30 | the count is ceil(sz / PGSIZE) if and only if growproc has not taken away the whole size |
| `Spaces.ForkStep` | xv6-public_3/proc.c:200-230 | the parent and its copy are both live, or no page was left and the live spaces are as they were; panics only when the parent's whole size was taken away |
| `Spaces.RunStep` | xv6-public_3/proc.c:178-230 | any growproc, clearpteu, fork or exit of any live space takes the family of live spaces to the next one, on every failure path; every live space maps the whole kernel, closed to user code; panics exactly at clearpteu with the page table missing, and else only at a fork of an emptied space |
| `Spaces.Lifetimes` | xv6-public_3/vm.c:138-366 | from setupkvm over any run of such steps by any number of live processes to the last freevm: each count is ceil(sz / PGSIZE) exactly when no growproc took away that process's whole size, and the free pages end as they began; a run stops early only at such a panic |
| `Sched.Scheduler.Scan` | xv6-public_2/proc.c:716-756 | every process that is RUNNABLE and not in the background ages by one; the choice among them has the greatest init_priority - rtime + 2 * waiting_time, the lowest pid on ties |
| `Sched.Scheduler.Turn` | xv6-public_2/proc.c:709-794 | one round, every field of every process: the refund, the burst added to rtime, the execution limit, the first CPU time recorded once, a context switch counted exactly when the choice changes |
| `Sched.RoundRanks` | xv6-public_2/proc.c:691-762 | each tick of its burst puts the chosen process back by one, each round waited puts a process forward by two |
| `Sched.RunLeastFirst` | xv6-public_2/proc.c:691-762 | of processes that started equal and have waited as long, one that has run least is chosen |
| `Sched.GapsShrink` | xv6-public_2/proc.c:691-762 | while p waits no priority gap grows and the chosen process's falls by BETA at least |
| `Sched.PotentialFalls` | xv6-public_2/proc.c:697-796 | the sum of D / BETA + 1 over gaps D >= 0 falls with every round that chooses another |
| `Sched.BoundedWaiting` | xv6-public_2/proc.c:697-796 | a process that stays eligible is chosen within that many rounds |
| `Grep.Match` | xv6-public_1/grep.c:72-82 | true exactly when the pattern matches at some place of the text, or at the front if it starts with '^' |
| `Grep.Matchhere` | xv6-public_1/grep.c:84-96 | true exactly when a prefix of the text is in the pattern's language, all of it after '$'; "x*" binds before '$' |
| `Grep.Matchstar` | xv6-public_1/grep.c:98-106 | true exactly when some number of fitting characters is followed by a match |
| `Grep.HereByChars` | xv6-public_1/grep.c:84-106 | the matching of a pattern, character by character: the empty pattern, c* with any number of fitting characters, none included, '$' at the end, one character |
| `Grep.ItemsOfSpelling` | xv6-public_1/grep.c:84-96 | every list of items that can be spelt is what its spelling reads as |
| `Grep.SpellingOfItems` | xv6-public_1/grep.c:84-96 | every pattern is the spelling of the items read from it |
| `Grep.HereStar` | xv6-public_1/grep.c:98-106 | the language of c* followed by a rest |
| `Grep.HereSingle` | xv6-public_1/grep.c:93-94 | the language of one character followed by a rest |
| `Pipe.Pipe.Counters` | xv6-public_1/pipe.c:85-112 | the wrapping 32-bit counters tell full and empty exactly |
| `Pipe.Pipe.Write` | xv6-public_1/pipe.c:77-98 | the bytes that fit join the stream in order; sleeps exactly when bytes are left, the read end is open and the writer is not killed; sleepers stay right unless a killed writer with more than PIPESIZE bytes to go meets a sleeping reader |
| `Pipe.ReaderLeftAsleep` | xv6-public_1/pipe.c:77-98 | a new pipe, a sleeping reader and a killed writer of PIPESIZE + 1 bytes: the reader sleeps on a full pipe |
| `Pipe.Pipe.Read` | xv6-public_1/pipe.c:100-121 | returns the oldest unread bytes; sleeps exactly when empty with the write end open and the reader not killed |
| `Pipe.Pipe.KillWakes` | xv6-public_1/proc.c:517-535 | a killed sleeper is no longer among the sleepers, who stay right |
| `Pipe.Pipe.Close` | xv6-public_1/pipe.c:59-75 | wakes the other side; sleepers stay right exactly when no reader sleeps as the read end closes; nobody sleeps on a freed page |
| `Proc.OneEntry` | xv6-public_3/proc.c:95-138 | any allowed change of one table entry keeps parents live, pids distinct and no exit lost |
| `Proc.ExitedKeeps` | xv6-public_3/proc.c:271-285 | exit keeps them too: the parent, and init when it inherits a zombie, are awake |
| `Proc.WokenKeeps` | xv6-public_3/proc.c:476-487 | so does wakeup1 |
| `Proc.Ptable.Wakeup` | xv6-public_3/proc.c:476-497 | exactly the processes asleep on the channel become runnable, and nothing else changes |
| `Proc.Ptable.Allocproc` | xv6-public_3/proc.c:95-116 | the first unused entry, and no other, becomes EMBRYO with a pid that no entry holds and none held before; its other fields, the kill mark included, stay |
| `Proc.Ptable.ForkParent` | xv6-public_3/proc.c:222 | the child's parent is the running caller |
| `Proc.Ptable.Exit` | xv6-public_3/proc.c:271-285 | field by field: the parent is woken, the children go to init, init is woken if one is a zombie, the caller is a zombie |
| `Proc.Ptable.Wait` | xv6-public_3/proc.c:292-334 | reaps a zombie child and returns its pid, never returned before; sleeps only with children and no zombie among them |
| `Proc.Ptable.Kill` | xv6-public_3/proc.c:499-519 | the first entry with the pid, used or not, is marked and, if asleep, woken; -1 exactly when no entry has it; unused entries stay unmarked if and only if the kill fails or hits a used one |
| `Proc.KillHitsIff` | xv6-public_3/proc.c:499-519 | a kill hits a process if and only if one has the pid; a nonzero pid is in one entry at most |
| `Proc.BornKilled` | xv6-public_3/proc.c:95-116 | kill(0) on a fresh table, and the next child is born with the mark |
| `ShGrammar.ParseCmdIff` | xv6-public_3/sh.c:327-446 | the grammar of command lines: the parser accepts a token list with a tree if and only if the grammar derives that tree from it, so each line has one tree |
| `ShGrammar.ParseShow` | xv6-public_3/sh.c:327-446 | parsing a command tree's parenthesised token list returns the tree |
| `ShGrammar.ParseShowParse` | xv6-public_3/sh.c:327-446 | printing what was parsed and parsing again changes nothing |
| `ShGrammar.LineLegal` | xv6-public_3/sh.c:344-446 | every parsed tree has legal words and fewer than MAXARGS arguments |
| `ShLex.LexIff` | xv6-public_3/sh.c:262-320 | the tokens read from a line are the only ones it spells, with white space anywhere between them |
| `ShLex.LexPrint` | xv6-public_3/sh.c:262-308 | printed tokens are read back |
| `ShLex.ParsePrinted` | xv6-public_3/sh.c:262-446 | the round trip on characters, for every tree of legal words and at most MAXARGS - 1 arguments |
| `Sh.Shell.Gettoken` | xv6-public_3/sh.c:265-308 | the first token of the rest of the line, its exact span, and the cursor past it |
| `Sh.Shell.Peek` | xv6-public_3/sh.c:310-320 | whether the next token starts with one of the symbols; only white space is passed |
| `Sh.Shell.Parseredirs` | xv6-public_3/sh.c:374-397 | consumes exactly the redirections, or panics exactly where a file is missing |
| `Sh.Shell.Parseexec` | xv6-public_3/sh.c:415-446 | agrees with the grammar on tree, rest of line and panic |
| `Sh.Shell.Parseblock` | xv6-public_3/sh.c:399-413 | agrees with the grammar; its own panic cannot happen |
| `Sh.Shell.Parsepipe` | xv6-public_3/sh.c:361-372 | agrees with the grammar |
| `Sh.Shell.Parseline` | xv6-public_3/sh.c:344-359 | agrees with the grammar, and ends |
| `Sh.Shell.Nulterminate` | xv6-public_3/sh.c:448-493 | NULs go exactly to the ends of the words, which are white space, symbols or the end |
| `Sh.CTreeIsSpelt` | xv6-public_3/sh.c:448-493 | afterwards every argv and file string is exactly its token |
| `Sh.Shell.Parsecmd` | xv6-public_3/sh.c:327-342 | the tree that the grammar gives the line, with its words as C strings in the buffer, or a panic exactly when the line is not in the language; only white space and symbols are overwritten |

## Left out

- Fs.FileSys.WriteWorst: no disk that meets its condition is built; it needs more than 12288 blocks.
- Fs.FileSys.constructor: an empty file system; the root directory and the files mkfs adds are not part of this model.
- Mount.Mounted.Write: the operations admitted together run one after another, and each one's log_write calls are made at its end; that regions of fs.c which interleave inside one commit leave a sound file system is a premise of FsCrash's steps.
- Mount.Mounted.EndOp: no other process holds a buffer between operations (LogOp and Commit allow it).
- Fs.FileSys.Readi: regular files only; device files go to devsw, which is not part of this model.
- Log.Logger.Commit: the buffers other processes use are taken to stay as they are until it ends; NBUF recorded blocks are excluded because the commit then panics (FillEveryBuffer).
- Bio.Bcache.LockAndFill: waiting for the sleep lock is a precondition; fairness of sleep locks is not modelled.
- Umalloc.Heap.Malloc: when sbrk's argument is not positive the source goes on to write a header at the old end of memory; the model stops there (ok == false).
- Kalloc.Kmem.Kalloc: the free list is threaded through frame numbers; the constant shift between physical and kernel addresses is not modelled.
- Sched.Scheduler.Turn: ticks pass only while a process runs, by the burst given as an argument; priorities are unbounded integers.
- Sched.BoundedWaiting: one CPU and a fixed set of processes.
- Pipe.Pipe.Write: a negative count is covered only by the invariants, since sys_write never passes one.
- Proc.Ptable.Allocproc: pids are unbounded, so the wrap of nextpid after 2^31 processes is not modelled; the kernel stack and context set-up are left out.
- Proc.Ptable.Sleep: the channels other than a process's own entry are abstract addresses.
- Sh.Shell.Parseexec: the shared execcmd node that redirections already point to is built when the arguments are complete; malloc is taken to succeed.
- Grep.Match: texts and patterns without NUL characters; grep's own line buffering is left out.
- ialloc, directory lookup and path walking: they would add easy members over readi and writei.
- Link counts in sysfile.c, exec's ELF loading, inituvm, loaduvm, copyout, collect_proc_pages, argument fetching, mkfs and the scripts.
- Interrupts, spinlocks, memory ordering, context switching, boot code and device drivers other than the in-memory disk.
- The signals and console commands of xv6-public_2, which set process states directly.
