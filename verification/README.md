# Verified models of the kernel and its user programs

The system is a small Unix-like teaching kernel for 32-bit x86 with a logging file system, lazy
page allocation and a two-priority scheduler, together with a handful of user programs. This
project models its algorithmic core in Dafny and proves what that core is for. Every module below
is one part of the system.

| module | file | what it is about |
|---|---|---|
| `RedoLog`, `LogRuns`, `LogRoom`, `KernelLog` | Log, LogRuns, LogRoom, KernelLog | the write-ahead log of log.c: the disk writes of a commit and of a recovery, all runs of the log under concurrent operations and crashes, how long a transaction's list can get, and the code that issues the writes |
| `BufferCache` | Bio | bio.c's doubly linked ring of buffers |
| `FsBlocks`, `FileBlocks`, `Files` | FsBlocks, FileBlocks, Files | fs.c's blocks, bitmap, inodes and file contents |
| `InodeRuns`, `InodeCache` | InodeRuns, Inodes | the life of an inode: every interleaving of iget, ilock, ialloc, the link count and iput, and the code that takes those steps |
| `Dirs`, `Paths` | Dirs, Paths | directories as files, path names, the references a walk takes and drops |
| `Names`, `Walks` | Names, Walks | link counts and the directory tree under every sequence of create, mkdir, link and unlink, and which walks can meet a freed inode |
| `PageTables`, `Vm` | PageTables, Vm | page ownership, page tables, fork's copy, lazy allocation, and what each costs in free pages |
| `ProcTable`, `Scheduling` | Proc, Scheduler | fork, exit, wait, kill and wakeup on the process table; scheduler rounds |
| `SleepWakeup`, `SleepLocks` | Wakeups, SleepLock | sleep and wakeup for any condition under every interleaving; sleep locks as one use of them |
| `Pipes` | Pipe | the pipe's ring buffer |
| `Allocator` | Umalloc | malloc and free |
| `ShellGrammar`, `ShellPrint`, `ShellAppend`, `Shell` | ShellGrammar, ShellPrint, ShellAppend, Shell | the shell's tokens, grammar, parser and string cutting |
| `Grep` | Grep | the regular expression matcher |
| `Bresenham`, `Screen` | Bresenham, Screen | the cells of a line between any two points, and where they are on the text screen |
| `Storage` | Storage | blocks, disks and sequences of disk writes |

Code that changes things in place is modelled by classes and methods; each method's contract ties
the new state to the old one, and the properties are invariants of the class or lemmas about the
specification functions. Concurrency is modelled in three ways. `LogRuns`, `SleepWakeup`,
`SleepLocks` and `InodeRuns` are explicit state machines whose theorems speak of every run, cut where
the code takes and releases its locks; the methods of `KernelLog` and `InodeCache` are proved to be
their steps. In `ProcTable`, `Pipes` and `BufferCache` a method is one stretch of code under a lock, so
an interleaving is a sequence of calls (brelse takes two locks one after the other and is one call).
`Vm`, `Files`, `Dirs`, `Paths` and `Names` describe one operation at a time.

Conventions. A disk block is 128 words in `Storage` (log.c reads and writes the header by words)
and 512 bytes in `FsBlocks` (fs.c works on bytes); both are views of the same block. Physical
memory is a map from page numbers to 1024-word pages, so a kernel pointer to a page is its page
number. 32-bit wrap-around is written out where the code depends on it: log and pipe counters,
`PGROUNDUP` in the page-fault handler, deallocuvm's addresses, `malloc`'s sizes. Disk, memory and process-table contents
that the code reads come in as state; answers of the environment (`sbrk`, a full disk, the table
left behind by a context switch, whether the caller was killed) come in as parameters or results.

## Findings

Where the code does not do what it or its documentation promises, the model follows the code, and
a lemma says exactly when the promise holds.

- log_write tests the size of the transaction before it takes the lock. Two operations that test
  together can both append, and the list outgrows the log area; the last copy is then written over the
  first block behind it, before the header, and a crash leaves that block damaged. With operations of
  at most u blocks no run does this, and every crash recovers exactly the committed transactions, if
  and only if u is 0, the log area is one block, or it has more than MAXOPBLOCKS + 2u blocks
  (`LogRoom.OverrunIff`, `LogRoom.RecoversIff`, `LogRoom.OverrunClobbers`). For operations that use
  their whole reservation that is more than LOGSIZE blocks; mkfs.c:26 makes LOGSIZE, which does for
  operations of at most nine (`LogRoom.RoomNeeded`).
- An operation within its budget of MAXOPBLOCKS blocks can also meet log_write's panic
  `too big a transaction`. For an operation that has logged u blocks the guard stays silent in every
  reachable state exactly when u < MAXOPBLOCKS and the log area has more than
  LOGSIZE - MAXOPBLOCKS + u + 1 blocks (`LogRoom.GuardSilentIff`). The log mkfs makes is enough for
  filewrite's seven blocks (`LogRoom.FilewriteNeverTooBig`) but not for the whole budget. In a full
  log, whatever its size, the guard fires even for a block that is already listed
  (`LogRoom.FullLogRejectsAbsorption`).
- iput tests the reference count under one lock and decrements it later under another. Two holders of a
  file without a name that test together both leave it, allocated for good (`InodeRuns.TwoHolders`).
  A run loses an inode exactly if the last holder still to test finds another reference counted, or
  has never read the inode (`InodeRuns.OrphanIff`). An inode is freed under a holder exactly if a
  reference is taken between the test and the freeing (`InodeRuns.EarlyStep`,
  `InodeRuns.LateHolder`).
- A removed directory keeps its `..`, which its parent's link count no longer counts. Make a and a/b,
  stand in a/b, remove both: a is freed, and the path `..` ends in ilock's panic
  (`Walks.StrandedParent`). Every other entry leads to an allocated inode (`Names.EntriesLive`): a path
  meets a freed inode exactly at the `..` of a removed directory whose parent has been freed
  (`Walks.FreedIff`), and never from the root or from a directory that has not been removed
  (`Walks.AbsoluteSafe`, `Walks.AttachedSafe`).
- kill(0) marks a slot that is not in use, and nothing clears the mark when the slot is given out. New
  processes start unmarked as long as kill never picks a slot that is not in use
  (`ProcTable.PTable.Kill`, `ProcTable.KillZero`).
- The scheduler's comment promises that a normal process runs only when no high-priority one is
  ready. That holds for every behaviour of the processes exactly when some high-priority process is
  ready at the start of the round or nothing below the last slot is
  (`Scheduling.SafeStartKeepsPromise`, `Scheduling.UnsafeStartBreaksPromise`).
- The page-fault handler refuses addresses inside a last page that lies only partly below the
  process size, and accepts the size itself when it is page-aligned (`Vm.InRangeExact`).
- pipewrite that gives up, because the process was killed or the read end is closed, returns without
  waking readers. A reader is then left asleep with data in the pipe exactly when one was asleep and
  more than PIPESIZE bytes were left to write (`Pipes.PipeRing.Pipewrite`).
- malloc's size arithmetic wraps for requests above 2^31 - 16 bytes (`Allocator.RequestHonest`).
- drawline stops short of the end point, and on a line at least twice as high as wide before that
  (`Bresenham.DrawsItAll`). It does not check its end points: every index it writes is inside the
  screen exactly when those of a few corner cells are (`Screen.InsideExactly`), which end points on
  the screen guarantee (`Screen.OnScreenInside`); row 0 does not (`Screen.RowZeroOutside`).
- `>>` in the shell opens the file exactly as `>` does: replacing it by `>` and a blank changes
  nothing in what any line means (`ShellAppend.AppendIsOut`).

## Model

| member | source | states |
|---|---|---|
| RedoLog.CommitAtomic | log.c:176-202 | after a crash behind any prefix of a commit's disk writes, recovery yields all old home blocks if the header was not written and all new ones if it was, and an empty log |
| RedoLog.RecoverAtomic | log.c:115-122 | a crash behind any prefix of recovery's own writes is harmless: recovering again reaches the same home blocks |
| RedoLog.CrashesHarmless | log.c:115-122 | so are any number of crashed recoveries in a row |
| RedoLog.CrashSafe | log.c:115-202 | a crash anywhere in a commit, then any number of crashes in recovery, then one recovery: the whole transaction or none of it |
| RedoLog.CommitEnd | log.c:192-202 | a finished commit has installed exactly the transaction's blocks and emptied the log |
| RedoLog.HeaderWriteCommits | log.c:98-113 | the header write is the commit point: from then on the disk alone determines the transaction |
| RedoLog.InstallKeepsCommitted | log.c:69-82 | installing any prefix of the blocks leaves the transaction recoverable |
| RedoLog.LogWritesInvisible | log.c:176-190 | before the header write no home block changes and the log still counts as empty |
| RedoLog.RecoverCommitted | log.c:69-96 | recovery of a disk that carries a committed transaction, partly installed or not, yields that transaction |
| LogRuns.StepKeepsInv | log.c:124-233 | every step of every process, log_write's test and its critical section apart, every single disk write, a crash and a recovery step keep reservation and history and, with a spacious log area, durability and pinning |
| LogRuns.CrashRecoversCommitted | log.c:115-202 | with a spacious log area, in every state reachable from any bootable disk by any interleaving, a crash recovers exactly the committed transactions applied in order |
| LogRuns.OperationAllOrNothing | log.c:124-174 | the writes of each operation are all in one committed transaction or in none |
| LogRuns.CommittedGrows | log.c:143-202 | along every run, crashes included, a committed transaction is never taken back |
| LogRuns.ReadersSeeLatest | log.c:204-233 | with a spacious log area, outside recovery a reader sees the committed transactions and every log_write of the one being built, also while its blocks are being installed |
| LogRuns.QuiescentDurable | log.c:143-174 | with a spacious log area and no operation in progress, what readers see is what a crash would restore |
| LogRuns.NoCommitWhileOutstanding | log.c:143-174 | no commit runs while an operation is in progress, so end_op's panic is not reached |
| LogRuns.HeaderNeverOverrun | log.c:124-141 | whatever the log area's size, logged blocks plus the unused budgets of all operations never exceed LOGSIZE, and no block is listed twice |
| LogRuns.AppendFits | log.c:223-231 | so the store into lh.block stays inside it, though nothing is tested under the lock |
| LogRoom.OverrunIff | log.c:213-233 | for every bound u on the blocks of an operation, the list fits the log area in every reachable state exactly when the area is spacious for u |
| LogRoom.RecoversIff | log.c:115-233 | and exactly then every crash in every run recovers the committed transactions |
| LogRoom.OverrunClobbers | log.c:176-190 | otherwise a run in which a home block behind the log area is overwritten before anything is committed |
| LogRoom.RoomNeeded | mkfs.c:26-26 | spacious means more than LOGSIZE blocks when operations use their whole reservation; mkfs's LOGSIZE blocks are spacious exactly for operations of at most nine |
| LogRoom.PinsLeave | log.c:231-231 | an operation that has logged u blocks finds at most LOGSIZE - MAXOPBLOCKS + u buffers pinned, so with LOGSIZE buffers at least MAXOPBLOCKS - u unpinned |
| LogRoom.GuardSilentIff | log.c:204-233 | for an operation that has logged u blocks, the size panic is met in no reachable state exactly when u is below the budget and the log area has more than LOGSIZE - MAXOPBLOCKS + u + 1 blocks |
| LogRoom.FilewriteNeverTooBig | log.c:213-219 | with the log area mkfs makes, an operation of at most seven blocks, filewrite's bound, never meets it |
| LogRoom.FullLogRejectsAbsorption | log.c:214-221 | a reachable state in which logging again a block that is already listed panics |
| KernelLog.Log.WriteLog | log.c:176-190 | issues exactly the specified copies into the log area and leaves the cache alone |
| KernelLog.Log.WriteHead | log.c:98-113 | one write puts the list into the header block, word by word, the rest of the block unchanged |
| KernelLog.Log.InstallTrans | log.c:69-82 | issues exactly the home writes, in order, from the log blocks, and unpins exactly those buffers |
| KernelLog.Log.ReadHead | log.c:84-96 | the in-memory list becomes the one on disk |
| KernelLog.Log.RecoverFromLog | log.c:115-122 | its disk trace is the specified recovery sequence, and it ends with an empty log |
| KernelLog.Log.Commit | log.c:192-202 | its disk trace is the specified commit sequence; afterwards the disk shows what the cache showed, and the log is empty |
| KernelLog.Log.Initlog | log.c:53-66 | recovery at boot issues the specified writes and leaves the log in a state of the runs |
| KernelLog.Log.BeginOp | log.c:124-141 | an operation is let in exactly when the runs allow one to begin, and is then that step; otherwise the process sleeps, and nobody sleeps there who could go on |
| KernelLog.Log.LeaveOp | log.c:143-163 | end_op's first critical section: the last operation out is to commit, any other wakes everybody asleep in begin_op; the panic is exactly a commit under way |
| KernelLog.Log.FinishCommit | log.c:165-174 | commits everything logged, and wakes everybody who has gone to sleep in begin_op, also since the commit was decided |
| KernelLog.Log.LeaveRunningOp | log.c:143-163 | in every state of the runs it does not panic and is the run's step |
| KernelLog.Log.FinishRunningCommit | log.c:165-202 | with a spacious log area it leads where the run's steps for a whole commit lead |
| KernelLog.Log.LogRunningTest | log.c:218-221 | panics exactly when the guard of the runs fires, and otherwise is the run's step |
| KernelLog.Log.LogRunningAppend | log.c:223-233 | within the budget it is the run's step, whatever has been listed since the test |
| KernelLog.Log.LogTest | log.c:218-221 | the two panics, on what is read without the lock |
| KernelLog.Log.LogAppend | log.c:223-233 | a block is listed once however often it is logged, and its buffer is pinned |
| BufferCache.Cache.constructor | bio.c:38-56 | the ring holds every buffer once, last inserted first, and is doubly linked both ways |
| BufferCache.Cache.Bget | bio.c:58-93 | the cached buffer if there is one, else the least recently released one that is neither used nor pinned; no other buffer changes, no block ever has two buffers, and what readers see of any block does not change |
| BufferCache.Cache.RoomLeft | bio.c:79-92 | with fewer buffers pinned or held than there are, bget does not panic |
| BufferCache.Cache.FindVictim | bio.c:79-90 | walking prev links finds the unused clean buffer released longest ago, and none only if all are busy |
| BufferCache.Cache.Recycle | bio.c:79-90 | relabelling a buffer loses nothing the disk lacks and keeps labels unique |
| BufferCache.Cache.Lock | bio.c:95-106 | the holder has the current contents of the block, read from disk only if needed |
| BufferCache.Cache.Bwrite | bio.c:108-116 | disk and buffer agree, and only that block's contents change for readers |
| BufferCache.Cache.Pin | log.c:231-231 | marking a buffer dirty makes its contents what every reader sees until it is written |
| BufferCache.Cache.Brelse | bio.c:118-141 | the buffer loses its lock and one reference and nothing else; the last user moves it to the front, nothing else moves, and the ring stays in order of last release |
| BufferCache.MoveKeepsOrder | bio.c:127-136 | moving the released buffer to the front keeps the ring sorted by time of last release |
| BufferCache.Splice | bio.c:127-136 | the pointer assignments turn a doubly linked ring into the ring with that buffer first |
| FsBlocks.SetWordGet | fs.c:374-402 | a stored 32-bit word reads back, and other words of the block are untouched |
| FsBlocks.SetBitGet | fs.c:57-79 | setting a bitmap bit changes that bit only |
| FsBlocks.ClearBitGet | fs.c:82-97 | clearing a bitmap bit changes that bit only |
| FileBlocks.AllocInInode | fs.c:374-386 | filling an empty slot of an inode with a fresh block keeps every block owned by exactly one slot and the bitmap exact |
| FileBlocks.AllocInIndirect | fs.c:388-399 | the same for an entry of the indirect block |
| FileBlocks.FreeDirect | fs.c:415-420 | freeing a direct block keeps ownership and bitmap exact |
| FileBlocks.FreeEntry | fs.c:422-429 | the same for an entry of the indirect block, with the entry still written in it |
| FileBlocks.FreeIndirect | fs.c:430-433 | and for the indirect block itself at the end |
| Files.Fs.Balloc | fs.c:54-79 | returns the first free block, zeroed and marked, changing no other bit; fails only on a full disk |
| Files.Fs.Bfree | fs.c:81-97 | clears exactly that bit; the panic is exactly freeing a free block |
| Files.Fs.Bmap | fs.c:374-402 | the block for a file position, allocated and zeroed if missing; no other file's block and no byte of this file changes; an existing one is returned unchanged |
| Files.Fs.Iupdate | fs.c:220-238 | the disk inode becomes the in-memory one and nothing else changes |
| Files.EncodeInodeInjective | fs.c:222-238 | the 64-byte inode encoding loses nothing |
| Files.Fs.Readi | fs.c:454-478 | returns exactly the file's bytes in the range, cut at its size; the error cases are exact; nothing changes |
| Files.Fs.Writei | fs.c:483-513 | the contents become the old ones with the source spliced in at the offset, the size is the larger of the two ends, no other inode's contents or blocks change, inodes that were up to date on disk still are, and the number of logged blocks is bounded |
| Files.WrittenContents | fs.c:497-507 | bytes written so far determine the contents: a splice |
| Files.OtherContents | fs.c:483-513 | a write to one inode leaves the contents of every other inode equal |
| Files.Fs.Itrunc | fs.c:409-437 | exactly this inode's blocks become free, each once, bfree's panic is not reached, and no other file changes |
| Files.LogBudget | file.c:127-133 | with a one-block bitmap the distinct blocks a write logs are the data blocks it touches and at most three more |
| Files.Fs.WriteOp | file.c:134-146 | one chunk of filewrite logs at most seven blocks, within the budget the log reserves |
| Files.Fs.Filewrite | file.c:117-156 | the chunks together append the bytes in order as one splice; a short count happens only at the size limits; after each operation, so after any crash, the file on disk holds a prefix of whole chunks |
| InodeRuns.StepKeepsInv | fs.c:192-354 | every step of every holder keeps references, link counts and the state of each iput consistent |
| InodeRuns.OrphanStep | fs.c:334-354 | a step leaves an inode allocated with no name and nobody to free it exactly if it is a test that finds another reference counted, or the inode never read, when all other holders have tested |
| InodeRuns.OrphanIff | fs.c:334-354 | so a run loses an inode exactly if it has such a test |
| InodeRuns.OrphanLeftBehind | fs.c:351-353 | once no iput is under way a lost inode has no name and no reference |
| InodeRuns.TwoHolders | file.c:76-78 | two holders who close a file without a name together lose it |
| InodeRuns.EarlyStep | fs.c:337-346 | an inode is freed while another holds it exactly if a reference is taken after iput's test |
| InodeRuns.HoldersStep | fs.c:288-317 | otherwise every holder's inode stays allocated unless a reference is taken to a free one |
| InodeRuns.ProperRunSafe | fs.c:192-354 | in every run that takes references by name or by copying its own, no inode is freed early and every holder's inode is allocated |
| InodeRuns.LateHolder | fs.c:334-354 | a run in which the new holder of a removed directory finds it freed and panics in ilock |
| InodeCache.Cache.Iget | fs.c:243-286 | is the run's step, for any inode |
| InodeCache.Cache.Ilock | fs.c:288-317 | is the run's step; it panics exactly when the inode is free |
| InodeCache.Cache.Ialloc | fs.c:192-215 | the first free inode becomes a blank one of the type, on disk too, with one reference and no block; panics exactly when none is free; no other file changes; is the run's step |
| InodeCache.Cache.Relink | sysfile.c:255-257 | a changed link count is on disk at once and no other file changes |
| InodeCache.Cache.IputTest | fs.c:334-343 | is the run's step: it frees exactly when the inode has been read, has no name and one reference |
| InodeCache.Cache.IputFree | fs.c:343-349 | gives back exactly the inode's blocks and makes its type on disk 0, with every other file as it was; is the run's step |
| InodeCache.Cache.IputDrop | fs.c:351-353 | is the run's step |
| Dirs.FieldRoundTrip | fs.c:573-576 | a name stored in a 14-byte field reads back cut to 14 bytes |
| Dirs.Dir.Namecmp | fs.c:518-522 | the comparison is equality of names as far as a field can hold them |
| Dirs.FindFirst | fs.c:526-550 | the entry found is the first in use with that name |
| Dirs.LinkBinds | fs.c:553-580 | after a link the name is bound to the inode |
| Dirs.LinkKeepsOthers | fs.c:553-580 | and every other name is bound as before |
| Dirs.Dir.Dirlookup | fs.c:526-550 | the binding of the name in the directory as a finite map, with its offset; the panic is exactly a ragged directory |
| Dirs.Dir.Dirlink | fs.c:553-580 | a present name changes nothing; otherwise exactly one binding is added, in the first empty entry or else at the end |
| Paths.ElementsSlash | fs.c:582-596 | a slash anywhere only separates: the elements are those before it followed by those after it, so repeated, leading and trailing slashes do not matter |
| Paths.Skipelem | fs.c:597-620 | splits off the first element, cut to 14 bytes, and leaves a path with the remaining elements |
| Paths.ParentThenLast | fs.c:626-659 | resolving a path is resolving its parent and looking the last name up there |
| Paths.Icache.Namex | fs.c:626-659 | from any directory, removed ones included: returns the fold of directory lookups, and the last name for the parent form, or the panic of the walk's ilock where the fold meets a free inode; the caller ends with one reference on the result and none elsewhere, on failure too, and no inode is freed on the way |
| Names.StepKeepsInv | sysfile.c:146-312 | create, mkdir, link, unlink, removing a directory and freeing an inode each keep the tree, and at least as many links on every inode as entries that count |
| Names.EntriesLive | fs.c:526-550 | in every run, every entry leads to an allocated inode except the .. of a removed directory |
| Names.AttachedLive | fs.c:526-550 | in every run, from a directory below the root every entry leads to an allocated inode, and to directories below the root only |
| Names.UnlinkCounts | sysfile.c:239-240 | in every run unlink's panic over a missing link is not reached |
| Walks.AttachedSafe | fs.c:626-659 | no walk from a directory below the root meets a free inode |
| Walks.AbsoluteSafe | fs.c:626-659 | nor does any absolute path |
| Walks.FreedIff | fs.c:626-659 | from any held directory a path meets a free inode exactly at the .. of a removed directory whose parent has been freed |
| Walks.StrandedParent | sysfile.c:212-268 | a run that ends in such a directory, with its bytes, and the walk that meets the free inode |
| PageTables.MapUserKeeps | vm.c:66-86 | mapping an unowned page keeps the rule that every page has exactly one owner that maps it |
| PageTables.UnmapKeeps | vm.c:272-281 | clearing an entry and freeing its page keeps it |
| PageTables.NewTableKeeps | vm.c:43-53 | adding a page table keeps it and changes no mapping |
| PageTables.FreeTableKeeps | vm.c:297-302 | so does freeing a table that maps no user page |
| Vm.Machine.Kalloc | kalloc.c:82-95 | hands out the head of the free list, which nothing else owns, and 0 exactly when the list is empty |
| Vm.Machine.Kfree | kalloc.c:59-77 | the page goes to the head of the list exactly once, filled with junk |
| Vm.Machine.Walkpgdir | vm.c:36-56 | a table exists afterwards exactly when it did or could be allocated; no entry of any space changes |
| Vm.Machine.MapPage | vm.c:66-86 | exactly one entry of one space changes, ownership moves with it, and remap and out-of-memory are exact |
| Vm.Machine.Setupkvm | vm.c:124-142 | a new space maps the kernel exactly as kmap says and nothing for the user; it fails exactly when fewer than 65 pages are free, and then memory is as before |
| Vm.KmapDone | vm.c:111-141 | kmap's regions need exactly 64 tables, and mapping them all gives the kernel part |
| Vm.KmapIsKernelEntry | vm.c:111-121 | the four kmap regions do not overlap and give each kernel address its one mapping |
| Vm.Machine.Copyuvm | vm.c:322-352 | the child maps exactly the parent's present pages below the size, with equal flags and contents, in pages nobody else has; it fails exactly when fewer pages are free than the kernel part, the parent's pages and the tables above these need, and then everything is given back |
| Vm.CopyCostMore | vm.c:332-345 | what one more page of the parent adds to that cost: nothing, a page, or a page and a table |
| Vm.CopiedReadsSame | vm.c:322-352 | the child reads what the parent reads at every address below the size, mapped or not |
| Vm.FreshUntouched | vm.c:322-352 | building the child changes no mapping and no byte of any other space |
| Vm.OthersUntouched | vm.c:66-86 | an operation on one space leaves the user memory of every other space as it was |
| Vm.Machine.Deallocuvm | vm.c:261-285 | in 32-bit arithmetic the loop ends, and exactly the pages between the two sizes are released and unmapped, skipping whole missing tables |
| Vm.FollowingIs | vm.c:270-274 | the next address, PGADDR(PDX(a) + 1, 0, 0) or a + PGSIZE, neither wraps round nor passes KERNBASE |
| Vm.Machine.Freevm | vm.c:289-305 | every page of the space is freed exactly once and no other page is touched |
| Vm.Machine.Allocuvm | vm.c:227-255 | user memory reads as before with every page of the new part mapped; it fails exactly when the free list is too short for the new pages and the tables they lack, and then none of the new part is mapped and the rest of the space is as before; no other space changes |
| Vm.Machine.PageFault | trap.c:84-121 | a served fault maps one zeroed page, changing no other entry and no byte the process can read; killed and panicking exactly in the stated cases; a refused fault changes nothing |
| Vm.InRangeExact | trap.c:96-96 | the addresses served, as a condition on address and size, in 32-bit arithmetic |
| Vm.LastPartialPageRefused | trap.c:96-96 | an address below the size that is refused, and one at the size that is served |
| Vm.ZeroPageInvisible | trap.c:111-113 | a zeroed page where nothing was mapped changes no byte that can be read |
| Vm.Machine.TearDown | proc.c:262-340 | at the end of a process each of its pages, tables, directory and kernel stack is freed exactly once |
| ProcTable.PTable.Wakeup1 | proc.c:544-556 | everyone asleep on the channel becomes runnable and nobody else changes |
| ProcTable.PTable.Wakeup | proc.c:558-565 | afterwards nobody sleeps on the channel |
| ProcTable.PTable.Kill | proc.c:567-589 | marks the first slot with the pid, wakes it if asleep, and fails exactly when no slot has the pid; with no unused slot marked before, none is after exactly when that slot is in use |
| ProcTable.KillZero | proc.c:567-589 | kill(0) picks a slot that is not in use |
| ProcTable.PTable.Allocproc | proc.c:103-126 | a pid no process ever had goes to the first unused slot, unmarked if no unused slot was marked; fails only on a full table |
| ProcTable.PTable.FinishFork | proc.c:221-257 | the child becomes runnable with the parent's priority, or the slot is unused again |
| ProcTable.PTable.Dispatch | proc.c:423-428 | a process runs on one processor and a processor runs one process |
| ProcTable.PTable.Stop | proc.c:472-542 | giving up the processor keeps that matching and loses no child |
| ProcTable.PTable.Exit | proc.c:262-307 | init may not exit; otherwise the status is on record, the parent is awake, every child has a live parent, and a zombie child finds init awake |
| ProcTable.ExitLeavesNoMissedChild | proc.c:277-303 | after exit no parent sleeps in wait with a zombie child |
| ProcTable.ExitKeepsAdoption | proc.c:290-297 | after exit every process but init still has a live parent |
| ProcTable.PTable.Wait | proc.c:311-355 | hands over a status exactly when there is a zombie child, each exactly once and to the parent; -1 exactly without one when killed or without children; otherwise it sleeps, changing nothing else |
| ProcTable.StatusesReap | proc.c:322-340 | a reaped status was recorded by exit and not reaped before |
| SleepWakeup.StepKeepsInv | proc.c:505-565 | for any condition and any number of processes that set it, every step of sleep, wakeup, a setter, kill or the scheduler keeps the wakeup obligation |
| SleepWakeup.NoLostWakeup | sleep1.p:116-133 | in every run, whoever is asleep or on the way to it although its condition holds is owed a wakeup by somebody awake, whether wakeup comes before or after the lock is released |
| SleepWakeup.WakeupWakes | proc.c:544-565 | in every run, when a wakeup has gone through the table nobody is asleep on the channel and the debt is paid |
| SleepLocks.StepKeepsInv | sleeplock.c:22-42 | every step of any process, the scheduler or kill keeps who has the lock and in which order it was taken and given back |
| SleepLocks.RunSimulates | sleeplock.c:22-42 | every run of a sleep lock is a run of sleep and wakeup with the lock word as the condition |
| SleepLocks.MutualExclusion | sleeplock.c:22-42 | in every run at most one process has the sleep lock |
| SleepLocks.NoMissedWakeup | sleeplock.c:22-42 | so in every run, when the lock is free and no release is under way, nobody sleeps on it or is about to |
| SleepLocks.TakenInTurn | sleeplock.c:22-42 | in every run the lock is taken and given back in turn, by the same process |
| SleepLocks.NoDeadlock | sleeplock.c:22-42 | in every run, while anyone is inside the lock's code or holds it, some process can move or be dispatched, at most after another use of the table lock begins or ends |
| Scheduling.RunRound | proc.c:414-441 | the two loops compute the specified round for every behaviour of the processes in between |
| Scheduling.RoundPicks | proc.c:414-441 | each slot runs at most once per round, only when ready, in ascending order; with a high-priority process ready at the start only such processes run |
| Scheduling.FirstPick | proc.c:414-441 | somebody runs exactly when somebody is ready, and the first is the first ready one of the highest priority |
| Scheduling.HighServed | proc.c:417-428 | a process that stays ready with high priority runs in that very round |
| Scheduling.NormalServed | proc.c:430-440 | so does one that stays ready when no high-priority process is ready at the start |
| Scheduling.SafeStartKeepsPromise | proc.c:402-441 | from a safe start no normal process runs while a high-priority one is ready, whatever happens in between |
| Scheduling.UnsafeStartBreaksPromise | proc.c:402-441 | from any other start some behaviour of the processes breaks that, through tables that keep the process table's invariant |
| Scheduling.UpsetKeepsInv | proc.c:402-441 | the table that breaks it is one the kernel can have: one process has taken high priority and yielded, the next slot was woken or forked |
| Pipes.WrapKeepsSlot | pipe.c:93-93 | wrapping a counter at 2^32 does not move its slot in the ring |
| Pipes.FullTest | pipe.c:85-85 | the full and empty tests are right with wrapped counters |
| Pipes.PutQueue | pipe.c:93-93 | storing a byte appends it to the bytes in flight and damages none of them |
| Pipes.GetQueue | pipe.c:116-116 | fetching a byte takes the oldest |
| Pipes.PipeRing.Pipewrite | pipe.c:77-98 | over any interleaving the bytes written so far are those read so far followed by those in flight; stops early only with the ring full; leaves nobody asleep who could go on, with the exact exception |
| Pipes.PipeRing.Piperead | pipe.c:100-121 | hands over the oldest bytes; with n > 0 it returns none only when none are left and the write end is closed |
| Pipes.PipeRing.Killed | pipe.c:86-89 | a sleeper that is killed leaves the channel, and nobody else is forgotten |
| Pipes.PipeRing.Pipeclose | pipe.c:59-75 | any process that is awake may close an end: it wakes the other side, loses no byte, and frees the page exactly when both ends are closed |
| Allocator.RingInsert | user/umalloc.c:38-42 | linking a block at its place keeps the free list one circle in address order |
| Allocator.RingRemove | user/umalloc.c:76-77 | so does unlinking one |
| Allocator.TiledApart | user/umalloc.c:24-90 | no two blocks, free or allocated, share a unit |
| Allocator.FreeKeeps | user/umalloc.c:24-44 | free keeps the ring, the disjoint cover of all units and the absence of adjacent free blocks |
| Allocator.Heap.FindPlace | user/umalloc.c:30-32 | the search ends, at the free block right below the one being freed |
| Allocator.Heap.Free | user/umalloc.c:24-44 | the block's units are free, no unit is lost, no other allocated block changes |
| Allocator.Heap.Search | user/umalloc.c:74-89 | one turn round the ring meets every free block, and finds one long enough exactly if there is one |
| Allocator.Heap.Morecore | user/umalloc.c:46-61 | the new units join the heap as a free block long enough for the request |
| Allocator.Heap.Malloc | user/umalloc.c:63-90 | a block of the right length that was not allocated, other allocated blocks unchanged, units conserved; fails exactly when no free block is long enough and sbrk gives none; morecore runs at most once |
| Allocator.RequestHonest | user/umalloc.c:52-69 | the size arithmetic gives room for the request, and sbrk is asked for at least that, exactly up to 2^31 - 16 bytes |
| ShellGrammar.CmdWords | user/sh.c:278-459 | whatever the line, every argument and file name of a parsed command is a whole word of it |
| ShellPrint.RoundTrip | user/sh.c:340-459 | for every command tree with proper words and at most MAXARGS - 1 arguments, parsing its fully parenthesised printing rebuilds it |
| ShellPrint.LineAt | user/sh.c:357-459 | the same inside any line, up to its end or a closing parenthesis |
| ShellPrint.TooManyArgs | user/sh.c:444-455 | with MAXARGS words or more the parser gives up |
| ShellAppend.AppendIsOut | user/sh.c:387-410 | for every line, a `>>` and a `>` with a blank give the same command tree, open modes included, or the same failure |
| Shell.Parser.Next | user/sh.c:278-321 | the token at the cursor, and the cursor at the next one |
| Shell.Parser.ParseRedirs | user/sh.c:387-410 | wraps the command in the redirections the grammar finds, in order |
| Shell.Parser.Arguments | user/sh.c:442-458 | arguments and redirections in any order, the arguments filled into the innermost command |
| Shell.Parser.Block | user/sh.c:412-426 | terminates with the grammar's parse of a parenthesised block |
| Shell.Parser.Pipeline | user/sh.c:374-385 | terminates with the grammar's parse of a pipeline |
| Shell.Parser.Sequence | user/sh.c:357-372 | terminates with the grammar's parse of a line |
| Shell.Parser.Parse | user/sh.c:340-352 | accepts exactly the lines the grammar covers completely |
| Shell.NulTerminate | user/sh.c:461-506 | writes a NUL right after each token and nowhere else |
| Shell.CutReads | user/sh.c:461-506 | each token then reads as itself, so no NUL fell inside another token |
| Shell.Parsecmd | user/sh.c:340-355 | after a successful parse every argument and file name, read as a C string, is its token |
| Grep.MatchHere | user/grep.c:84-96 | true exactly when some prefix of the text, all of it under a final '$', can be cut into parts fitting the pattern's items |
| Grep.MatchStar | user/grep.c:98-106 | the same for a starred character followed by a pattern |
| Grep.Match | user/grep.c:72-82 | true exactly when the pattern matches at some position, or at the first under a leading '^' |
| Grep.FrontCons | user/grep.c:84-106 | a pattern matches in front exactly when its first item takes some characters there and the rest matches after them |
| Bresenham.Trace | console.c:240-259 | for all end points that differ the loop ends after as many cells as `Steps` says, at most the longer of the two extents; each lies in the end points' bounding box and is the nearest to the true line; a flat line ends at the end point |
| Bresenham.Cells | console.c:219-259 | the same for the whole of drawline, from its two points |
| Bresenham.LoopFits | console.c:240-258 | with coordinates up to 2^24 no value of the loop, the index included, leaves 32 bits |
| Screen.InsideExactly | console.c:249-249 | every index written lies in the screen exactly when those of the first and last cell do, and on a flat line that goes one way in columns and the other in rows those beside its first and last change of row |
| Screen.OnScreenInside | console.c:249-249 | end points on the screen are enough |
| Screen.RowZeroOutside | sysproc.c:134-146 | a line the system call accepts that writes outside the screen |
| Screen.Drawline | console.c:219-260 | when they all do, the ink is on exactly the cells of the rounded line and no other cell changes |
| Bresenham.NearestIsOffset | console.c:247-258 | the cell chosen at each step is the one within half a cell of the true line |
| Bresenham.EndsAtTarget | console.c:247-259 | after all its steps the loop stands at the end point, which a flat line, with exactly as many cells as columns to go, reaches |
| Bresenham.DrawsItAll | console.c:247-259 | everything short of the end point is drawn exactly on flat lines, lines less than twice as high as wide, and vertical lines of length one |

## Left out

- Files.Fs.Writei: leaves the state open after the out-of-blocks panic, because the system halts there.
- Files.Fs.Filewrite: one process at a time; the interleaving of its operations with others is covered by the log's runs only.
- Files.Fs.Bmap: requires a block number below MAXFILE, which its callers establish; beyond it the code panics.
- BufferCache.Cache.Brelse: requires that the caller holds the buffer's lock; without it the code panics. The same goes for Bwrite.
- KernelLog.Log.Commit: requires that the list fits the log area, and so do WriteLog, InstallTrans and FinishCommit; `LogRoom.OverrunIff` says when it does.
- Paths.Icache.Namex: directory contents do not change while a path is being walked, and no inode has been left behind (`InodeRuns.OrphanIff`); freeing an inode is a mark here, and `InodeCache.Cache.IputFree` does it.
- Names.StepKeepsInv: each system call is one step, and link counts are unbounded, while the code's are 16 bits wide.
- Walks.FreedIff: the directories are those that a run of `Names` leaves, shown by the bytes of their files.
- InodeCache.Cache.Iget: the limit of NINODE entries and its panic, and the sleep lock inside ilock, which `SleepLocks` covers.
- Vm.Machine.Allocuvm: page tables allocated before memory ran out stay, because the code keeps them.
- Vm.Machine.Setupkvm: when it fails is stated for one process at a time, as for Copyuvm and Allocuvm; other processes may take free pages meanwhile.
- Vm.Machine.Unmap: clears the entry before the page goes to the free list, the code after; no other code runs in between.
- Vm.Machine.PageFault: assumes a process size of at most KERNBASE.
- ProcTable.PTable.Allocproc: pids are unbounded; the code's counter wraps after 2^31 processes.
- ProcTable.PTable.Exit: open files and the current directory are not part of the process table model.
- Allocator.Heap.Malloc: takes the units it asks sbrk for as granted when sbrk does not fail, which `RequestHonest` shows to be so up to 2^31 - 16 bytes, and writes the code's single loop as one turn round the ring before morecore and one after it.
- Shell.Parser.Arguments: the execcmd node that the code fills in place after wrapping it is filled when the loop ends.
- Screen.Drawline: requires that every index it writes is inside the screen; `Screen.InsideExactly` says when, and `Bresenham.Trace` has no such condition.
- Bresenham.Trace: requires end points that differ; with equal ones the loop runs away from its end and writes until it has wrapped round.
- Devices and the interrupt side: ide.c, uart.c, lapic.c, ioapic.c, kbd.c, consoleintr.
- Device inodes and the file system calls themselves (open, link, unlink, mkdir).
- Guard pages (clearpteu) and handing the kernel's memory to the allocator at boot (freerange, kinit): out of scope, the model starts from a machine that is up.
- exec, the ELF loader, system call argument fetching, boot code, multiprocessor start-up.
- Spinlock implementation and memory ordering: locks are taken as atomic.
- Fairness and liveness beyond one scheduler round and beyond absence of deadlock.
- mkfs, cat, ls, wc and the other user programs: out of scope, the user side covered here is the shell, the allocator and grep.
