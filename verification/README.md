# A verified model of xv6's storage stack, allocators and sleep protocols

This project models the parts of an x86 xv6 kernel (with an unfinished stride scheduler) that are
hardest to get right, and proves what they are for:

- **Write-ahead log over the buffer cache** (`log.c`, `bio.c`, `memide.c`). The cache is a class over
  the doubly linked ring and its buffers, the log a class over the cache. Every block write appends to
  the list of images the disk has held, and a crash keeps a prefix of that list. Stopping a commit
  after any write, and the recovery after it any number of times, leaves the home blocks all old or
  all new. `LogSystem` puts begin_op, log_write, end_op, commit and crashes of any number of processes
  into one state machine, with log_write's test outside the lock as in the source, and proves for which
  machines the disk always stands for a moment without operations; `LogRuns` has runs for the others.
  `LogHistory` says the same in terms of the steps taken: the disk has what was last written before it.
- **File system** (`fs.c`, `file.c`). The free map, the block map of every inode and the contents of
  every file: a marked block is named by exactly one slot, writei and readi act on plain byte strings,
  itrunc frees exactly a file's blocks, and a chunk of filewrite logs at most MAXOPBLOCKS blocks.
  `FileCrash` puts operations of several processes on top of the log: a crash leaves all files as they
  were between two operations, and a crash anywhere in filewrite leaves whole chunks.
- **User allocator** (`umalloc.c`). The circular free list in an array of headers, with a ghost
  partition of all memory obtained from sbrk into blocks that are free, live or on the way.
- **Virtual memory** (`vm.c`, `kalloc.c`). Page tables as words in pages, next to a ghost record of what
  every page is used for. Nothing leaks, nothing is freed twice, copies share nothing.
- **Processes** (`proc.c`, `sleeplock.c`, `pipe.c`). fork, exit, wait, sleep, wakeup and kill on the
  process table; the sleep lock at the granularity of single spin-lock steps; pipes with 32-bit
  counters.
- **Shell parser, grep's matcher, the stride scheduler's heap** (`sh.c`, `grep.c`, `strideheap.c`). The
  parser accepts exactly the lines of a language that is defined without it, and gives what they mean.

A method stands for the code between taking a lock and giving it up, unless it says otherwise. Where
the source panics, a method returns a result that says so; contracts say when.

## What does not hold as one might expect

- `log_write` tests the length of the list before it takes `log.lock`. Two operations can pass the test
  together and both append. One process never lists more blocks than the log area holds; for two or more
  that is so exactly if the area has more than LOGSIZE blocks, or one (`LogFits`, and `Overrun` for a run
  with every other layout, mkfs's `nlog = LOGSIZE` among them).
- What the disk is for survives that except with two or more processes and an area of 2 to NBUF - 1 blocks
  (`DiskHasMoment`, `CommitsStay`). With such an area the commit that follows copies a block
  behind the log area before it writes the header, and a crash leaves a disk that stands for no moment
  without operations (`OverrunReachesDisk`). With an area of LOGSIZE blocks the list that is one too long
  has NBUF entries; all buffers are then dirty, and the commit panics in bget before it writes anything
  (`FullLogHasNoBuffer`, `Commit`).
- The same panic meets every transaction of NBUF blocks. begin_op admits them, as LOGSIZE equals NBUF.
- The test comes before the search for the block, and compares also with `log.size - 1`. So an operation
  within its budget can be refused a new block if the area has no more than LOGSIZE blocks, and only then
  (`GuardIsExact`, `GuardRefuses`); and with any area an operation can be refused a block that is in the log
  already, once LOGSIZE blocks are (`GuardRefusesListed`).
- What `itrunc` logs is bounded by the bitmap, not by MAXOPBLOCKS: it stays within MAXOPBLOCKS exactly if
  the file's blocks have fewer than MAXOPBLOCKS bitmap blocks (`TruncationFits`). mkfs makes one.
- `malloc` serves a request exactly up to 0x7FFF_FFF0 bytes (`RequestServed`). Above that the argument of
  sbrk is negative or wraps, and a block that does not exist is entered in the free list; above
  0xFFFF_FFF8 the rounding wraps, and the block is too small (`HugeRequests`).
- A pipe reader can sleep on with data in the pipe: when a killed writer fills the pipe, pipewrite
  returns without a wakeup. `Pipe.Write` states the exact condition, `KilledWriterStrandsReader` a run.
- A failed `allocuvm` deallocates the whole range it was asked for. It restores the mapping exactly
  when none of that range was mapped before (`FailureRestores`, and `FailedGrowthLosesPage` for a run in
  which a page is lost). The callers (exec.c:52, exec.c:66, proc.c:182) start at the end of what is mapped.
- The shell opens the file of `>>` in the same mode as that of `>`: the two forms are one command.
- `writei` stores the inode only when the size grows. That is enough because no file has a hole
  (`Writei` keeps the stored and the cached inodes equal).

## Model

| member | source | states |
|---|---|---|
| Blocks.WordRoundTrip | solution/log.c:101-113 | A 32-bit word stored in a block reads back, and every other word is untouched |
| Blocks.WordBytes | solution/log.c:101-113 | The bytes of a stored word, the lowest first, and no other byte of the block changes |
| BufferCache.MovedIsOrdered | solution/bio.c:120-141 | Moving a buffer to the front keeps the ring in order of last release |
| BufferCache.UnlinkKeepsRing | solution/bio.c:129-131 | Taking a buffer out of the ring leaves next and prev inverse over the rest |
| BufferCache.PushFrontKeepsRing | solution/bio.c:132-135 | Putting a buffer behind the head leaves next and prev inverse over one ring with it in front |
| BufferCache.RoomByCount | solution/bio.c:78-92 | While fewer than NBUF buffers are referenced or dirty there is one to recycle |
| BufferCache.RecycleKeepsCoherent | solution/bio.c:80-90 | Giving a free clean buffer to another block keeps every cached block right and at most one buffer to a block |
| BufferCache.ModifyKeepsCoherent | solution/bio.c:96-106 | A change by the holder becomes the latest contents of that block only |
| BufferCache.WriteKeepsCoherent | solution/bio.c:109-116 | Writing a buffer makes disk and latest contents agree there and unpins it |
| BufferCache.Cache.PinsAreCached | solution/log.c:231 | Pinned blocks have a buffer |
| BufferCache.Cache.constructor | solution/bio.c:38-56 | binit makes one ring of the head and all NBUF buffers, each once, with nothing cached |
| BufferCache.Cache.FindCached | solution/bio.c:68-76 | The forward scan ends and finds the one buffer of the block, if there is one |
| BufferCache.Cache.FindVictim | solution/bio.c:78-91 | The backward scan finds the least recently released buffer that is clean and unreferenced, exactly when there is one |
| BufferCache.Cache.Bget | solution/bio.c:61-93 | The cached buffer or the least recently released free one; fails exactly when the block is not cached and no buffer is free |
| BufferCache.Cache.Bread | solution/bio.c:96-106 | The buffer returned is locked and has the latest contents of the block, whatever was recycled since |
| BufferCache.Cache.Modify | solution/bio.c:96-106 | Changes by the holder are what later reads of the block return |
| BufferCache.Cache.Pin | solution/log.c:231 | A dirty buffer stays in the cache |
| BufferCache.Cache.Bwrite | solution/bio.c:109-116 | One block of the disk changes, in one step that is recorded as an image |
| BufferCache.Cache.Fill | solution/memide.c:38-60 | Reading fills the buffer from the disk; panics for another device or a block that is not there |
| BufferCache.Cache.Brelse | solution/bio.c:120-141 | The ring stays intact, and with its last reference the buffer becomes the most recently released one |
| LogSpec.HeadRoundTrip | solution/log.c:85-113 | read_head recovers the block list write_head stored, whatever the header block held before |
| LogSpec.InstallIsIdempotent | solution/log.c:69-82 | Installing again after any part of an installation gives the same disk |
| LogSpec.RecoveryIsRestartable | solution/log.c:115-122 | After a crash at any write of recovery the disk is still sound and recovers to the same home blocks |
| LogSpec.RecoveredIsEmpty | solution/log.c:115-122 | Recovery ends with an empty log, and another recovery changes no home block |
| LogSpec.CommittedRecovers | solution/log.c:192-202 | A disk whose header has been written recovers to the new home blocks |
| LogSpec.CommitFinishes | solution/log.c:192-202 | A commit that runs to its end leaves the new home blocks and an empty log |
| LogSpec.BeforeCommitPoint | solution/log.c:177-202 | Before the header is written, recovery finds the old home blocks; none has changed on disk |
| LogSpec.AfterCommitPoint | solution/log.c:192-202 | From the header write on, every image recovers to the new home blocks |
| LogSpec.CommitIsAtomic | solution/log.c:192-202 | Stopped after any write, a commit recovers all-old or all-new, and all-new exactly when the header was written |
| LogSpec.CrashChainConverges | solution/log.c:115-122 | Recovery crashed and restarted any number of times ends where an undisturbed one does |
| LogSpec.CrashAtomicity | solution/log.c:69-202 | Both together: a crash anywhere in commit, then any number of crashed recoveries, ends all-old or all-new, the latter exactly from the commit point on |
| Log.Log.WriteLog | solution/log.c:177-190 | Produces exactly the images that copy the cached blocks into the log area, in order |
| Log.Log.EncodeHead | solution/log.c:101-113 | The loop stores the count and the block numbers |
| Log.Log.WriteHead | solution/log.c:101-113 | Exactly one block write, of the encoded header |
| Log.Log.InstallTrans | solution/log.c:69-82 | Produces exactly the images that copy the log blocks home, and unpins them; cannot run out of buffers while they are cached and one is free |
| Log.Log.ReadHead | solution/log.c:85-96 | Reads the list of the header block and writes nothing |
| Log.Log.InstallAndClear | solution/log.c:192-202 | Installation followed by the empty header, one image a write |
| Log.Log.RecoverFromLog | solution/log.c:115-122 | Produces exactly the recovery images, from any disk a crash can leave, and ends with an empty log |
| Log.Log.Seal | solution/log.c:192-197 | The first half of commit: the cached blocks in the log and the header listing them |
| Log.FullLogHasNoBuffer | solution/bio.c:66-92 | When as many blocks are listed, and so pinned, as there are buffers, no buffer can be recycled and no other block is cached |
| Log.Log.Commit | solution/log.c:192-202 | Writes exactly the images of LogSpec; the disk ends with the cached home blocks, the cache is unchanged, the pins are gone. With something to commit it runs out of buffers exactly when none is free to begin with, and always with NBUF blocks, and has then written nothing |
| Log.Log.LogWrite | solution/log.c:213-233 | For a call that no other overlaps: the block is listed once however often it is written, and pinned; panics exactly when the list or the area is full or no operation runs |
| LogSystem.AdmissionKept | solution/log.c:125-174 | Every step of every process keeps the reservations within LOGSIZE and outstanding equal to the operations in progress |
| LogSystem.LogAdmission | solution/log.c:125-174 | In every interleaving lh.n stays within LOGSIZE by the reservation alone; a commit runs without operations; a process asleep on the log has a commit or an end_op to come, and sleeps only while begin_op could not admit it |
| LogSystem.TransactionalKept | solution/log.c:145-202 | Every step, crash included, keeps the disk at the contents of a moment without operations, as long as a list that can be committed fits the log area |
| LogSystem.LimitedKept | solution/log.c:213-233 | With the test before the lock and the append after it, the entries and the processes between the two stay within what n processes can reach together |
| LogSystem.LogFits | solution/log.c:213-233 | In every interleaving the list fits the log area if one process runs, or the area has more than LOGSIZE blocks, or one |
| LogSystem.DiskIsTransactional | solution/log.c:125-233 | In every run with crashes anywhere, of one process or with an area of one block or of NBUF or more, the home blocks on disk are the cached contents of a moment when no operation was in progress |
| LogSystem.NotBeforeKept | solution/log.c:145-202 | No step, crash included, takes a disk that stands for a moment without operations back behind one it has reached |
| LogSystem.CommitsAreDurable | solution/log.c:192-202 | Once a commit has finished, in every later state of such a run the home blocks are those of the moment it committed or of a later one |
| LogSystem.GuardIsExact | solution/log.c:218-223 | In every reachable state the test fails, for any block, exactly from as many entries on as LOGSIZE and the area allow; one process never lists more, n processes at most n - 1 more; with more than LOGSIZE blocks of area every operation in progress has then used its whole budget, so no new block within a budget is refused |
| LogHistory.ViewIsLatest | solution/log.c:213-233 | In every run the cache has, for each block, the data of the last log_write since the machine came up, also when the block was listed already, or what the disk had then |
| LogHistory.QuietIsMoment | solution/log.c:145-174 | What LogSystem lists as quiet are the cached contents at the start and whenever the last operation in progress ended |
| LogHistory.MomentIsQuiet | solution/log.c:145-174 | And it lists all of them |
| LogHistory.DiskHasMoment | solution/log.c:125-233 | In every run of a machine as in DiskIsTransactional, every home block on disk is what had been written to it last at some moment without operations, the same one for all blocks |
| LogHistory.CommitWritesLatest | solution/log.c:177-202 | When a commit finishes, every home block on disk is what was written to it last |
| LogHistory.CommitsStay | solution/log.c:115-202 | And through every later crash: what was written last at that commit, or at a later moment |
| LogRuns.GuardRefuses | solution/mkfs.c:25 | With an area of LOGSIZE blocks or fewer, as mkfs has it, and any number of processes from two on, a run in which a new block within the budget is refused |
| LogRuns.GuardRefusesListed | solution/log.c:218-227 | With any bigger area, a run in which an operation is refused a block that it has logged before |
| LogRuns.Overrun | solution/log.c:218-229 | For every area of 2 to LOGSIZE blocks and any number of processes from two on, a run past every test and within all budgets that lists one block more than the area holds |
| LogRuns.OverrunReachesDisk | solution/log.c:177-202 | With an area of 2 to NBUF - 1 blocks such a run, followed by a crash in write_log, leaves a disk that has the cached contents of no moment without operations |
| Umalloc.Disjoint | solution/umalloc.c:24-44 | Two blocks of the partition do not overlap |
| Umalloc.SplitKeepsPartition | solution/umalloc.c:79-81 | Cutting a block in two keeps every unit in exactly one block |
| Umalloc.MergeKeepsPartition | solution/umalloc.c:33-42 | Joining two adjacent blocks keeps every unit in exactly one block |
| Umalloc.GrowKeepsPartition | solution/umalloc.c:46-61 | So does memory obtained from sbrk |
| Umalloc.RingAscends | solution/umalloc.c:24-44 | The free list is in address order with one wrap point |
| Umalloc.SlotIsUnique | solution/umalloc.c:30-32 | The loop test and the wrap test of free pick out the one place where the block belongs |
| Umalloc.InsertKeepsRing | solution/umalloc.c:33-43 | The list stays circular, ordered, and without abutting blocks, whichever neighbours merge |
| Umalloc.InsertKeepsConsistent | solution/umalloc.c:24-44 | Free and live blocks stay disjoint and cover what sbrk gave |
| Umalloc.TakeKeepsConsistent | solution/umalloc.c:76-77 | So does handing out a whole block |
| Umalloc.CutKeepsConsistent | solution/umalloc.c:78-82 | So does handing out the end of a block |
| Umalloc.GrowKeepsConsistent | solution/umalloc.c:46-61 | So does a fresh block from sbrk |
| Umalloc.RequestServed | solution/umalloc.c:52-69 | The block has room for the request and sbrk is asked for all its units exactly up to 0x7FFF_FFF0 bytes; each half on its own has its exact range |
| Umalloc.HugeRequests | solution/umalloc.c:52-69 | Requests for which sbrk is asked for nothing, for a negative amount, and for which the block is too small |
| Umalloc.FullCircle | solution/umalloc.c:74-89 | A scan that is back at freep has seen every block |
| Umalloc.WritesOutside | solution/umalloc.c:24-90 | A write to a header or outside the live blocks leaves what users have in theirs |
| Umalloc.Allocator.Search | solution/umalloc.c:29-32 | free's search ends, at the greatest free block below the one freed |
| Umalloc.Allocator.Insert | solution/umalloc.c:24-44 | The block joins the free list, and the list keeps its shape |
| Umalloc.Allocator.Free | solution/umalloc.c:24-44 | Exactly the freed block stops being live; no unit is lost; what is behind the headers of the live blocks is kept |
| Umalloc.Allocator.Morecore | solution/umalloc.c:46-61 | At least the units asked for join the free list, or sbrk failed and nothing changed; overrun exactly when sbrk answers but its 32-bit argument was not that of the units |
| Umalloc.Allocator.Carve | solution/umalloc.c:75-84 | The block handed out has the size asked for and ends where the free block it was taken from did; what is in the live blocks is kept |
| Umalloc.Allocator.Malloc | solution/umalloc.c:63-90 | Terminates; a new live block of the rounded size, disjoint from all others; null only if none was big enough and sbrk failed or overran; sbrk asked at most once and only then; overrun exactly for requests from 0x7FFF_FFF1 to 0xFFFF_FFF8 bytes that sbrk answers; what is behind the headers of the live blocks is kept |
| Bitmap.SetBitChanges | solution/fs.c:66-69 | Or with the mask 1 << (bi % 8), in 8-bit arithmetic, sets that bit and changes no other |
| Bitmap.BitNumbering | solution/fs.c:65-92 | Bit i is digit i % 8 of byte i / 8, counted from the lowest; setting and clearing it add and take away that power of two, if it changes, and change no other byte |
| Bitmap.ClearBitChanges | solution/fs.c:89-92 | And with the complement of the mask clears that bit and changes no other |
| FsSpec.AllocMarks | solution/fs.c:56-78 | Marking a block changes the mark of that block only |
| FsSpec.FreeMarks | solution/fs.c:81-95 | Unmarking likewise |
| FsSpec.MarkedIsBit | solution/fs.h:45-48 | A block is marked exactly if its bit of the free map is set, the bit given by integer arithmetic on the bytes of the disk |
| FsSpec.AllocBits | solution/fs.c:56-78 | Marking a block sets its bit and no other |
| FsSpec.FreeBits | solution/fs.c:81-95 | Unmarking clears it and no other |
| FsSpec.AttachKeeps | solution/fs.c:372-400 | A fresh block put into an empty slot keeps: marked exactly when named, and by one slot |
| FsSpec.AttachKeepsData | solution/fs.c:372-400 | No block in use changes but the inode's own indirect block |
| FsSpec.EmptyKeepsNamed | solution/fs.c:407-435 | Emptying an inode keeps the names of all others |
| FsSpec.FreeKeeps | solution/fs.c:407-435 | Freeing a block a slot names keeps the free map right for the rest, so bfree does not panic |
| FsSpec.BlocksAtAll | solution/fs.c:407-435 | The slots itrunc goes through are all of the file's |
| FileContents.WroteBlock | solution/fs.c:498-504 | One turn of writei's loop changes exactly its bytes of the file |
| FileContents.WrittenTwice | solution/file.c:127-152 | Writing two adjacent pieces is writing them at once |
| FileContents.WroteContents | solution/fs.c:481-511 | The blocks written amount to the byte string with src in place, longer if need be |
| FileContents.FileBytes | solution/fs.c:372-400 | Byte x of a file is byte x % 512 of the block in address x / 512, or in word x / 512 - 12 of the block the last address names |
| FileContents.WroteOthers | solution/fs.c:481-511 | No other file changes |
| FileContents.FinishWrite | solution/fs.c:506-509 | With the new size the file has its new contents, the others have theirs, and none has a hole |
| FileContents.ReadBlock | solution/fs.c:469-474 | A piece of a block is the slice of the file it stands for |
| FileContents.MetadataIsNoMatter | solution/fs.c:407-435 | Truncating a file leaves the contents of the others |
| Inodes.InodeRoundTrip | solution/fs.c:220-236 | The size and addresses iupdate stores read back, and the other inodes of the block are untouched |
| Inodes.InodeWords | solution/fs.c:220-236 | The size goes to word 2 of the inode's sixteen, the addresses to words 3 to 15, and every other word of the block is kept |
| Inodes.StoredAt | solution/fs.h:39-42 | Inode j is read from block j / 8 of the inode blocks, at word 16 * (j % 8) |
| Inodes.UpdateStores | solution/fs.c:220-236 | iupdate changes the stored copy of that inode only |
| Inodes.UpdateKeeps | solution/fs.c:220-236 | It leaves the free map and the block map alone |
| FsSpec.AttachTraced | solution/fs.c:372-400 | Allocating for a slot changes only blocks that it logs, none of them an inode block |
| Transaction.ChunkSpans | solution/file.c:127-152 | A chunk at any offset touches at most four blocks of the file, and the indirect block |
| Transaction.NewBlocksAt | solution/fs.c:372-400 | Without holes, new blocks are only those past the end and the indirect block |
| Transaction.TransactionFits | solution/file.c:127-152 | A chunk logs at most 4 data, 1 indirect, 1 inode and 4 bitmap blocks: MAXOPBLOCKS, at any offset |
| Transaction.LogsHome | solution/file.c:127-152 | Everything a chunk logs lies behind the log area |
| Transaction.StopIsFitting | solution/file.c:135-153 | The first chunk that does not fit comes after exactly the chunks that do |
| Transaction.ChunkedMore | solution/file.c:135-153 | The states between the chunks are operations, with the file written so far in each |
| Fs.Fs.Balloc | solution/fs.c:56-78 | The lowest block whose bit of the free map is clear, with that bit set and the block zeroed; panics exactly when there is none |
| Fs.Fs.Bfree | solution/fs.c:81-95 | Clears the block's bit of the free map and no other; panics exactly when it was not set |
| Fs.Fs.AllocSlot | solution/fs.c:376-397 | A new block for an empty slot; marks, names and data of other blocks are kept |
| Fs.Fs.Bmap | solution/fs.c:372-400 | The block of the file's block bn; allocates only if there was none, at most it and the indirect block; fails only beyond MAXFILE or with the disk full |
| Fs.Fs.Iupdate | solution/fs.c:220-236 | The inode block gets the inode, and the block map is kept |
| Transaction.TruncationFits | solution/fs.c:407-435 | What itrunc logs stays within MAXOPBLOCKS exactly if the file's blocks have fewer than MAXOPBLOCKS bitmap blocks, and so for every file of a disk with fewer |
| Fs.Fs.Itrunc | solution/fs.c:407-435 | Frees exactly the file's blocks, each once, so the panic in bfree is never reached; logs exactly the bitmap blocks of the file's blocks and the inode's block; the stored inodes are kept up |
| Fs.Fs.Truncate | solution/fs.c:407-435 | The file becomes the empty string and all others stay as they were |
| Fs.Fs.WriteBlock | solution/fs.c:498-504 | One turn of the loop writes its bytes, keeps files dense and logs only blocks of the range |
| Fs.Fs.WriteBlocks | solution/fs.c:498-504 | The loop writes exactly src at off, across direct and indirect blocks and unaligned ends |
| Fs.StoredAfterWrite | solution/fs.c:506-509 | Storing the inode only when the size grows leaves every inode stored, and only logged blocks changed |
| Fs.Fs.Writei | solution/fs.c:481-511 | Contents s become s[..off] + src + the old bytes past it; -1 exactly beyond the size or MAXFILE, wrap-around included; other files keep theirs; every inode is stored; only logged blocks change; fails only with the disk full |
| Fs.Fs.WriteChunk | solution/file.c:136-145 | One operation of filewrite: at most MAXOPBLOCKS blocks logged, no other block changed, files complete before and after |
| Fs.Fs.FileWrite | solution/file.c:117-156 | All of src is written, or exactly the chunks before the first that does not fit, or nothing past the end; f->off moves by as much; between the operations the file has a whole number of chunks |
| Fs.Fs.ReadPiece | solution/fs.c:469-474 | One turn of readi's loop |
| Fs.Fs.Readi | solution/fs.c:452-476 | Exactly the slice asked for, as far as the file goes; nothing changes and bmap never allocates |
| FileCrash.AtKept | solution/log.c:125-202 | While processes perform operations, overlapping or not, the moments without an operation are those after the operations counted, in order, and a commit covers all that have ended |
| FileCrash.CrashKeepsOperations | solution/log.c:115-202 | For several processes whose operations may share a commit, on a machine as in DiskIsTransactional: after a crash the home blocks are those between two operations, at a moment when none was in progress, not before the last finished commit |
| FileCrash.HomeHasFiles | solution/fs.c:452-476 | A file can be read off the home blocks alone: inode, indirect block and data |
| FileCrash.FilesSurviveCrash | solution/log.c:115-202 | Likewise for the contents: whatever the operations are, all files on disk are as they were between two of them, at such a moment |
| FileCrash.FileSurvivesCrash | solution/file.c:117-156 | When the operations are the chunks of one filewrite: a crash anywhere in it, with any number of recoveries, leaves the file written up to a whole number of chunks, at least those committed, and every other file as it was |
| FileCrash.OwnListKept | solution/log.c:145-233 | While one process runs alone, what is listed during an operation was logged by that operation |
| FileCrash.FileWriteIsNotRefused | solution/log.c:218-219 | While one process runs alone, log_write never panics in filewrite, blocks logged twice included, if the log area holds more than MAXOPBLOCKS blocks |
| FileCrash.OperationsCanRun | solution/file.c:135-145 | Such runs exist: from any disk with an empty log one process can perform and commit all the operations |
| VmSpec.MakeParts | solution/mmu.h:100-101 | An entry gives back the page and the flags it was made from |
| VmSpec.EntryBits | solution/vm.c:61-79 | An entry has the present bit, the permission bits asked for and the page above them |
| VmSpec.Translation | solution/vm.c:36-55 | The entry for an address is the one the processor finds: ten bits pick the table, ten the entry |
| VmSpec.TakenOk | solution/kalloc.c:82-95 | A page kalloc returns was free, and all page tables stay right |
| VmSpec.GivenOk | solution/kalloc.c:59-77 | So they do when a page in nobody's table is freed and overwritten |
| VmSpec.WithTableOk | solution/vm.c:35-55 | A zeroed page put in as a table keeps every page used once |
| VmSpec.WithEntryOk | solution/vm.c:60-80 | So does an entry that fits the uses of the pages |
| VmSpec.ExtendMore | solution/vm.c:233-247 | One more page allocated, filled and mapped, and no other entry changed |
| VmSpec.UnmapOk | solution/vm.c:269-276 | Freeing the page at v and clearing its entry keeps every page used once |
| VmSpec.UnmapShrinks | solution/vm.c:269-276 | It takes exactly that page from the address space |
| VmSpec.RowIsEmpty | solution/vm.c:266-268 | Under a missing directory entry no page is mapped, so the jump skips nothing |
| VmSpec.OthersUntouched | solution/vm.c:221-279 | Growing or shrinking one address space leaves all others as they were |
| VmSpec.TornIsGone | solution/vm.c:283-298 | Freeing user pages, tables and directory frees each page of the address space once and no other |
| VmSpec.FailureRestores | solution/vm.c:233-247 | A failed allocuvm restores the mapping exactly when nothing in its range was mapped |
| VmSpec.KmapIsOk | solution/vm.c:105-115 | The rows of kmap are in the kernel part and do not overlap, so setupkvm never maps a page twice |
| VmSpec.KernelPart | solution/vm.c:105-115 | What kmap asks for at every page: physical memory below PHYSTOP at KERNBASE, devices where they are, writable all but the kernel's text, nothing elsewhere |
| VmSpec.CloneGone | solution/vm.c:342-344 | A new address space given up again leaves every page with the use it had |
| VmSpec.ClonedPte | solution/vm.c:315-345 | A new address space leaves the entries and pages of the others |
| VmSpec.CopyIsMade | solution/vm.c:325-339 | The loop's pages make a copy with the same bytes and flags |
| VmSpec.PagesDiffer | solution/vm.c:315-345 | No two user pages, of one or of two address spaces, are the same physical page |
| Vm.Kernel.constructor | solution/kalloc.c:31-44 | Before kinit nothing is free |
| Vm.Kernel.FreeRange | solution/kalloc.c:46-53 | Every page of the range becomes free, once |
| Vm.Kernel.Kalloc | solution/kalloc.c:82-95 | A free page, or none exactly when the list is empty |
| Vm.Kernel.Kfree | solution/kalloc.c:59-77 | The page is overwritten and becomes the head of the list |
| Vm.Kernel.Walk | solution/vm.c:35-55 | Finds the table for an address; changes no entry; fails exactly when there is none and none may or can be made |
| Vm.Kernel.MapPage | solution/vm.c:60-80 | Sets one entry; panics exactly when it was present; fails exactly when a table was needed and no page free |
| Vm.Kernel.MapPages | solution/vm.c:60-80 | The loop maps a whole range of the kernel part |
| Vm.Kernel.DeallocUvm | solution/vm.c:255-279 | With its jump over missing tables, frees exactly the pages mapped in the range, clears their entries and changes nothing else |
| Vm.Kernel.GrowPage | solution/vm.c:233-247 | One zeroed page more, or the whole range given up again |
| Vm.Kernel.AllocUvm | solution/vm.c:221-249 | Adds zeroed, formerly free pages for the range; on failure none of the range is left mapped and the rest is as before; fails only when memory is short |
| Vm.AddedPages | solution/vm.c:219-247 | The pages allocuvm adds are present, writable, the user's and all zero, in memory that was free |
| Vm.Kernel.FreeVm | solution/vm.c:283-298 | Every page of the address space becomes free once, and no other |
| Vm.Kernel.NewDir | solution/vm.c:124-126 | A directory with no entry, or none exactly when no page is free |
| Vm.Kernel.SetupKvm | solution/vm.c:118-136 | A directory with exactly the kernel mappings, or every page as before; fails only when memory is short |
| Vm.Kernel.CopyPage | solution/vm.c:325-339 | One page copied into a page that was free, or everything as before |
| Vm.Kernel.CopyUvm | solution/vm.c:315-345 | Every page below sz has a fresh copy with the same bytes and flags, the parent is unchanged; on failure every page has the use it had |
| Vm.FailedGrowthLosesPage | solution/vm.c:233-239 | A run, on pages above the kernel, in which a failed allocuvm loses a page that was mapped before |
| ProcTable.ExitKeepsTable | solution/proc.c:255-296 | exit keeps: live parents, no sleeper in wait with a zombie child or without children, distinct pids |
| ProcTable.ReplaceKeepsTable | solution/proc.c:79-122 | So does every change of one slot that fork, wait, sleep, yield and the scheduler make |
| ProcTable.WakeKeepsTable | solution/proc.c:650-658 | So does wakeup |
| ProcTable.KillKeepsTable | solution/proc.c:672-690 | So does kill |
| ProcTable.ExitKeepsAccount | solution/proc.c:255-296 | A process exits once, and its pid is then held by its zombie |
| ProcTable.ReapKeepsAccount | solution/proc.c:300-340 | The pid wait returns has exited and has not been returned before |
| ProcTable.WaiterHasRunningChild | solution/proc.c:300-340 | A process asleep in wait has a child still to exit and none that has |
| ProcTable.EveryExitIsCollected | solution/proc.c:255-340 | An exited process has been returned by one wait, or is a zombie whose parent is alive and not asleep in wait |
| ProcTable.SleeperSleepsOn | solution/proc.c:610-690 | A process asleep on an address sleeps on through any sequence of calls without a wakeup of that address and without its own kill |
| ProcTable.SleeperIsWoken | solution/proc.c:610-690 | And the first wakeup of that address makes it runnable |
| ProcTable.Ptable.constructor | solution/proc.c:127-170 | The table with the first process only |
| ProcTable.Ptable.AllocProc | solution/proc.c:79-122 | The first unused slot with a pid nobody has had, or none exactly when all are in use |
| ProcTable.Ptable.Abandon | solution/proc.c:209-214 | A fork that fails gives the slot back |
| ProcTable.Ptable.Adopt | solution/proc.c:216 | The child's parent is a live process |
| ProcTable.Ptable.Launch | solution/proc.c:232-234 | The child becomes runnable |
| ProcTable.Ptable.Wakeup1 | solution/proc.c:650-658 | Afterwards nobody is asleep on the channel; whoever was is runnable and otherwise as before; nobody else has changed |
| ProcTable.Ptable.Wakeup | solution/proc.c:661-667 | The same under the lock |
| ProcTable.Ptable.Sleep | solution/proc.c:610-645 | The process sleeps on its channel |
| ProcTable.Ptable.Dispatch | solution/proc.c:357-395 | A runnable process runs, with its channel cleared |
| ProcTable.Ptable.Yield | solution/proc.c:576-585 | The process becomes runnable |
| ProcTable.Ptable.Kill | solution/proc.c:672-690 | The first slot with the pid has killed set and, if it was asleep, is runnable; nothing else changes; fails exactly when no slot has the pid |
| ProcTable.Ptable.Exit | solution/proc.c:255-296 | The loop passes all children to init, wakes it if one has exited, wakes the parent and leaves a zombie |
| ProcTable.Ptable.Wait | solution/proc.c:300-340 | Returns the first zombie child's pid exactly when there is one, and leaves its slot unused, without pid, parent or killed; gives up without children or when killed; otherwise sleeps |
| SleepLock.InvKept | solution/sleeplock.c:22-42 | Every single step of every process and scheduler keeps the invariant |
| SleepLock.RunKeepsInv | solution/sleeplock.c:22-42 | It holds in every reachable state, for any number of processes |
| SleepLock.MutualExclusion | solution/sleeplock.c:22-42 | At most one process has the sleep lock |
| SleepLock.NoLostWakeup | solution/proc.c:610-667 | While a process sleeps on the lock, another has it or has yet to run its wakeup |
| SleepLock.NoDeadlock | solution/proc.c:610-667 | Unless some process keeps the lock, somebody in the protocol can take a step |
| SleepLock.AcquireReturnsHolding | solution/sleeplock.c:22-31 | A process that has called acquiresleep leaves it only by coming to hold the lock |
| SleepLock.HoldsUntilFinish | solution/sleeplock.c:22-42 | And holds it until it calls releasesleep itself |
| Pipe.FullTestIsExact | solution/pipe.c:85 | The tests for full and empty in 32-bit arithmetic are exact however often the counters wrapped |
| Pipe.Pipe.constructor | solution/pipe.c:33-37 | An empty pipe with both ends open |
| Pipe.Pipe.Store | solution/pipe.c:93 | A byte goes to its place without overwriting one that has not been read |
| Pipe.Pipe.Write | solution/pipe.c:78-98 | Appends as much as there is room for, in order; finishes exactly when all fits; nobody is left asleep with what they wait for exactly unless a killed writer fills an empty pipe with a reader asleep |
| Pipe.Pipe.Read | solution/pipe.c:100-121 | Returns the next bytes written, at most PIPESIZE behind; empty only at end of file; nobody is left asleep with what they wait for |
| Pipe.Pipe.Close | solution/pipe.c:59-75 | Wakes the other side; frees exactly when both ends are closed, with nobody asleep |
| Pipe.KilledWriterStrandsReader | solution/pipe.c:85-89 | A run that leaves a reader asleep with the pipe full |
| StrideHeap.CompareIsTotalOrder | solution/strideheap.c:22-30 | compare orders entries totally |
| StrideHeap.CompareIsByFields | solution/strideheap.c:22-30 | The smaller pass comes first, among equal passes the smaller runtime, and among those the smaller pid |
| StrideHeap.LiftKeepsHeap | solution/strideheap.c:45-48 | One turn of push's loop leaves at most one entry out of place |
| StrideHeap.SinkKeepsHeap | solution/strideheap.c:58-69 | One level of heapify likewise |
| StrideHeap.RootIsLeast | solution/strideheap.c:53-55 | The first entry of a heap is at most every other |
| StrideHeap.MinHeap.Push | solution/proc.c:428-439 | Adds one entry and keeps the heap; refuses exactly when it is full |
| StrideHeap.MinHeap.GetMin | solution/proc.c:441-443 | An entry of the heap that no other comes before by pass, runtime and pid |
| StrideHeap.MinHeap.Heapify | solution/strideheap.c:58-69 | Restores the heap with the same entries |
| StrideHeap.MinHeap.Pop | solution/strideheap.c:72-76 | Removes the first entry and keeps the heap |
| StrideHeap.MinHeap.GetSorted | solution/strideheap.c:94-105 | A permutation of the entries, ascending by pass, runtime and pid, with the heap holding the same entries as before |
| StrideHeap.Gather | solution/proc.c:473-479 | The heap holds exactly the runnable processes |
| StrideHeap.Choose | solution/proc.c:469-483 | The process chosen is runnable; no runnable one has a smaller pass, among equal passes none a smaller runtime, among those none a smaller pid; none exactly when none is runnable |
| Grep.BeginsSplit | solution/grep.c:85-106 | A match of a pattern is a match of its first item and of the rest |
| Grep.BeginsJoin | solution/grep.c:85-106 | And the other way round |
| Grep.ItemsAreAll | solution/grep.c:85-96 | The items of a pattern, written down, are the pattern |
| Grep.ItemsOfShown | solution/grep.c:85-96 | And items written down, a star behind its character and an end as a dollar, are read back |
| Grep.MatchHere | solution/grep.c:85-96 | True exactly when a piece of text that starts here is in the pattern's language |
| Grep.MatchStar | solution/grep.c:99-106 | True exactly when some run of the character is followed by a match of the rest |
| Grep.Match | solution/grep.c:72-82 | True exactly when some substring, the one at the start for ^, is in the pattern's language |
| ShellRoundTrip.RedsTaken | solution/sh.c:374-397 | Redirections written with <, > or >> are taken in their order, the latter two as output |
| ShellRoundTrip.ItemsTaken | solution/sh.c:429-445 | Words and redirections of a simple command are taken in any order, each kind in its own |
| ShellRoundTrip.ApplyIsWrap | solution/sh.c:374-397 | Which is what they mean, acting from left to right |
| ShellRoundTrip.LineParses | solution/sh.c:344-359 | Every way to write a line is parsed as what it means, whatever may follow it |
| ShellRoundTrip.BackParses | solution/sh.c:349-353 | So is a command with its &s |
| ShellRoundTrip.PipeParses | solution/sh.c:361-372 | So is a pipeline |
| ShellRoundTrip.ExecParses | solution/sh.c:399-446 | So are simple commands and lines in parentheses |
| ShellRoundTrip.LexSpell | solution/sh.c:265-308 | The tokens of a line are those written, however they are spaced |
| ShellRoundTrip.WrittenParses | solution/sh.c:327-342 | Every line that writes a command, as a C string, is parsed as what it means |
| ShellRoundTrip.PrintedParses | solution/sh.c:327-342 | Every command with legal words and fewer than MAXARGS arguments each is what its printed form parses to |
| ShellSound.ArgsSound | solution/sh.c:429-445 | What is taken for a simple command has been written as one |
| ShellSound.LineSound | solution/sh.c:344-446 | What is parsed as a line has been written as one |
| ShellSound.LexIsSpelled | solution/sh.c:265-308 | Every line is its tokens with blanks around them |
| ShellSound.ParserIsLanguage | solution/sh.c:327-342 | The parser accepts exactly the lines that write a command, and gives what they mean |
| Shell.Parser.GetToken | solution/sh.c:265-308 | The next token of the buffer, with the word's first and last position |
| Shell.Parser.Peek | solution/sh.c:310-320 | Whether the next token is one of the symbols, consuming none |
| Shell.Parser.ParseRedirs | solution/sh.c:374-397 | The loop takes the redirections the grammar says |
| Shell.Parser.ParseArgs | solution/sh.c:429-445 | The loop fills argv within its bounds, as the grammar says |
| Shell.Parser.ParseExec | solution/sh.c:415-446 | The command the grammar gives, or its error |
| Shell.Parser.ParseBlock | solution/sh.c:399-413 | The same in parentheses |
| Shell.Parser.ParsePipe | solution/sh.c:361-372 | The same for pipelines |
| Shell.Parser.ParseLine | solution/sh.c:344-359 | The same for lines; terminates on the remaining input |
| Shell.NulTerminate | solution/sh.c:449-493 | Writes NULs past the ends of the words of the tree and nowhere else |
| Shell.ReadsBack | solution/sh.c:449-493 | No NUL falls into a word, so every string reads back as its token |
| Shell.Parser.ParseCmd | solution/sh.c:327-342 | Accepts the line exactly if it writes a command; the strings of the tree, read as C strings after NUL termination, then make up what it means; leftovers are an error |
| Shell.ParseWritten | solution/sh.c:327-342 | Any line that writes a command, put into a buffer with its NUL and parsed there, is what the C strings of the tree in that buffer say |
| Shell.ParsePrinted | solution/sh.c:327-342 | So is every legal command, printed |

## Left out

- Directories, path names, link counts and the inode cache (iget, iput, ilock): not modelled; inodes are a table of cached copies, stored in the inode blocks.
- Type, device numbers and link count of a stored inode: iupdate stores the size and the addresses only.
- The file system runs on an image, not on the cache: that reads return the latest contents is proved for the cache. FileCrash takes the images of several processes' operations through the log, given the files that the operations so far lead to at every moment when none is in progress; that two interleaved system calls lead to the files of some order of the two is not modelled.
- BufferCache.Cache.Bread: is for a buffer that can be locked at once; the waiting is in SleepLock.
- BufferCache.Cache.Brelse: demands that the holder has passed its changes to bwrite or log_write, because the source leaves that to its callers.
- Fs.Fs.Writei: is about files; writes to devices go elsewhere in the source.
- Log.Log.LogWrite: makes the test and the append in one step; LogSystem has them apart.
- A commit whose list does not fit the log area is followed up to its first header write.
- Umalloc.Allocator.Malloc: takes the answer of sbrk as a parameter and base as lying below the heap, and returns null when Morecore stops with overrun.
- Umalloc.Allocator.Morecore: stops with overrun where the source goes on with a block that does not exist; what becomes of the memory then is not modelled.
- kmem.freelist is a sequence; that the links are kept in the free pages themselves is not modelled.
- Vm.Kernel.DeallocUvm: is for sizes up to KERNBASE, which all callers respect.
- Vm.Kernel.CopyUvm: likewise for sizes up to KERNBASE.
- Vm.Kernel.MapPage: mappages of a user page is one turn of its loop, as every caller asks for one page.
- copyout, uva2ka, loaduvm, inituvm, clearpteu, segments and switching page tables: not modelled.
- Shell.Parser.ParseExec: the tree is a value; the source puts redirections around the command first and fills in its arguments afterwards, through the pointer they share.
- The mode and descriptor of a redirection: reduced to input or output, the two combinations the parser makes.
- runcmd, getcmd and the rest of the shell: not modelled.
- ProcTable.Ptable.AllocProc: is the part under the lock; a slot for which there is then no page for the kernel stack goes back through Abandon.
- ProcTable.Ptable.Adopt: fork stores the parent without holding ptable.lock; the model takes that store as one step.
- Trap frames, kernel stacks, open files and the stride fields of fork: they would only add fields.
- sched_stride after its choice: it changes a copy in the heap and never advances pass, so there is nothing to prove about it.
- Interrupts, spin locks, memory ordering, real disks and the boot code: an acquire or a release is one step and a block write is atomic.
- grep's line buffering, the console and all user programs but the matcher, the allocator and the parser.
