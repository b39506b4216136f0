# Verified models of three xv6 variants

The repository holds three modified copies of x86 xv6. This project models the parts of them whose
correctness is decided by the code itself, and proves what those parts are for. Files that are the
same in all three copies are modelled once.

| files | component |
|---|---|
| Blocks, LogDisk, Log, LogProtocol | the redo log of log.c: commit and recovery block write by block write, group commit, crashes at any point |
| FsLayout, Fs, Dir, CrashedFs | fs.c: block allocator, files through direct and indirect pointers, directories; what a crash leaves of them |
| Bio, CacheRuns | the buffer cache of bio.c over the disk of memide.c, call by call and over whole runs |
| ShellGrammar, ShellLanguage, ShellRoundTrip, ShellParens, ShellTokens, ShellParser | the command parser of sh.c, including in-place NUL termination |
| Scheduler, Counting | the ageing priority scheduler of Signal-Scheduler-xv6/proc.c |
| Umalloc | the user-level allocator of umalloc.c |
| PageTables, AddressSpaces, Vm | page tables and physical frames: vm.c and kalloc.c |
| Swap | the swap area of Memory-Swap-xv6/pageswap.c, on top of PageTables and Vm |
| Sleeplock | sleeplock.c on sleep, wakeup and kill |
| Pipe | the pipe of pipe.c with its wrapping counters |
| Grep | the pattern matcher of grep.c |

Code that updates structures in place is a class whose methods are proved against specification
functions; protocols between processes (the log, the sleeplock) are transition systems over all
interleavings; recursive descent and the matcher are proved against a grammar and a denotational
meaning. The environment enters as parameters: what sbrk answers, which process is killed, where
the machine crashes, which frames the linker leaves free.

Six places where the code does not do what one would expect are stated exactly:

* `log_write` can panic with "too big a transaction" on an operation that has logged fewer than
  MAXOPBLOCKS blocks exactly when the superblock gives the log no more than LOGSIZE blocks, which is
  what mkfs.c does (`LogProtocol.PanicReachableIff`); on one that has logged MAXOPBLOCKS and logs
  one of them again, whatever the size (`LogProtocol.AbsorbPanicIff`). Sizes here and below are
  subject to NBUF as the theorems say.
* `log_write` tests for room before it takes log.lock and records the block after, so two processes
  can both pass for the last block. The list can outgrow the log exactly when the log has 2 to
  LOGSIZE blocks (`LogProtocol.OverrunReachableIff`), and a commit of such a list writes the block
  behind the log (`LogProtocol.OverrunLeavesLog`, `LogProtocol.Torn`). Recovery restores exactly the
  committed transactions in every reachable state if and only if the log has more than LOGSIZE
  blocks, or at least NBUF, or nothing but its header (`LogProtocol.CrashSafeIff`): with 30 blocks, as
  mkfs.c makes it, it does, because a list that has outgrown the log has pinned the whole cache.
* A transaction of NBUF blocks cannot be committed: write_log finds no buffer for its first log block
  and bget panics (`CacheRuns.FullCachePanics`). Such a transaction can be logged exactly if NBUF is
  at most LOGSIZE and the log, with what operations can outgrow it by together, takes as many
  (`LogProtocol.NoBufferIff`): LOGSIZE and NBUF are the same number, so it can with 29 blocks or more.
* `malloc` returns too small a block exactly for the last seven request sizes below 2^32, and
  `morecore` asks for more memory only below 2^28 units (`Umalloc.LargeEnough`,
  `Umalloc.SbrkGrowsIff`).
* `pipewrite` leaves a reader asleep on a full pipe exactly when a reader sleeps, the bytes do not
  fit, and the writer has been killed or the read end is closed (`Pipe.Pipe.Pipewrite`;
  `Pipe.StrandedReader` is such a run).
* `swapPageIn` on a page that was never mapped, in a page table that exists, takes over swap slot 0
  if another page is in it, and that page is lost (`Swap.InExclusive`, `Swap.Swapper.SwapPageIn`;
  `Swap.TakeOver` is such a run).

## Model

| member | source | states |
|---|---|---|
| LogDisk.HeadRoundTrip | Enhanced-Shell-xv6/log.c:86-113 | a header written by write_head is read back by read_head as the same list of block numbers |
| LogDisk.CommitStepIsOneWrite | Enhanced-Shell-xv6/log.c:192-202 | consecutive disks of the commit sequence differ in at most one block, so every point between two block writes is a crash point of the model |
| LogDisk.RecoverStepIsOneWrite | Enhanced-Shell-xv6/log.c:115-123 | the same for the recovery sequence |
| LogDisk.RecoveryRestarts | Enhanced-Shell-xv6/log.c:115-123 | recovery cut short after any of its writes and started again ends with the same home blocks, and a completed one leaves an empty log |
| LogDisk.BeforeCommitPoint | Enhanced-Shell-xv6/log.c:176-202 | a crash before the header write recovers to the disk before the transaction: none of its writes is visible |
| LogDisk.AfterCommitPoint | Enhanced-Shell-xv6/log.c:192-202 | from the header write on, every crash point recovers to all of the transaction's writes |
| LogDisk.CommittedContents | Enhanced-Shell-xv6/log.c:176-202 | once the header is written, recovery produces what the cache showed for every home block |
| Log.LogManager.constructor | Enhanced-Shell-xv6/log.c:53-66 | initlog leaves an empty log and the disk as its last commit had it, by way of exactly the recovery sequence |
| Log.LogManager.WriteLog | Enhanced-Shell-xv6/log.c:176-190 | the disk passes through exactly the log copies of the cached blocks, in order, also for a list that has outgrown the log; pins are untouched unless it has, and then exactly the blocks written behind the log lose theirs |
| Log.LogManager.WriteHead | Enhanced-Shell-xv6/log.c:98-113 | one block write, after which the header lists exactly lh.block |
| Log.LogManager.InstallTrans | Enhanced-Shell-xv6/log.c:68-82 | each logged block reaches its home location, in order, and no buffer stays pinned |
| Log.LogManager.ReadHead | Enhanced-Shell-xv6/log.c:84-96 | the in-memory header is what the disk header lists |
| Log.LogManager.RecoverFromLog | Enhanced-Shell-xv6/log.c:115-123 | the k-th disk written is RecoverDisk(k); it ends with an empty log and the recovered home blocks |
| Log.LogManager.Commit | Enhanced-Shell-xv6/log.c:192-202 | the k-th disk written is CommitDisk(k), the disk that LogProtocol lets a crash leave behind, for every k: log copies, header, installation, erased header; with NBUF blocks or more nothing is written and bget panics |
| LogProtocol.BeginReserves | Enhanced-Shell-xv6/log.c:124-141 | admitting an operation under begin_op's two tests keeps lh.n plus the blocks that all outstanding operations may still log within LOGSIZE |
| Log.LogManager.EndOp | Enhanced-Shell-xv6/log.c:145-174 | the committing end_op takes the disk through CommitDisk(1), CommitDisk(2) and so on and reopens the log; the others change nothing on disk; the panics are a commit already running, and a list of NBUF blocks or more |
| Log.LogManager.Record | Enhanced-Shell-xv6/log.c:223-232 | the block goes to the end of the list unless it is on it (absorption) and is pinned with its new contents; the list still fits the log if and only if the block was on it or there is room now |
| LogProtocol.CrashAtomicity | Enhanced-Shell-xv6/log.c:68-233 | if the log has more than LOGSIZE blocks, or at least NBUF (as mkfs.c makes it), or nothing but its header: in every reachable state of any interleaving with any crashes, recovering from the disk as it is yields exactly the writes of the committed transactions, each operation wholly in or wholly out |
| LogProtocol.RecoveryCompletes | Enhanced-Shell-xv6/log.c:115-123 | under the same condition: a crash in any reachable state, followed by any number of crashes during recovery, comes up with exactly the transactions committed before it |
| LogProtocol.CommittedIsNeverLost | Enhanced-Shell-xv6/log.c:192-202 | under the same condition: once durable, the history of committed writes only ever gets longer |
| LogProtocol.CommittedWhenEndOpReturns | Enhanced-Shell-xv6/log.c:145-174 | under the same condition: when the committing end_op is done, everything logged so far is durable and in its home location |
| LogProtocol.CrashSafeIff | Enhanced-Shell-xv6/log.c:176-233 | for every NBUF, and every MAXOPBLOCKS and LOGSIZE with room for two operations, recovery yields exactly the committed transactions in every reachable state if and only if the log has more than LOGSIZE blocks, or at least NBUF, or nothing but its header |
| LogProtocol.OverrunReachableIff | Enhanced-Shell-xv6/log.c:218-230 | some run records more blocks than the log holds if and only if the log has 2 to LOGSIZE blocks, and no more than NBUF |
| LogProtocol.OverrunLeavesLog | Enhanced-Shell-xv6/log.c:176-190 | once the commit of such a list has begun, its write number g.size goes to the block just behind the log, before the header is written, and no other home block has changed by then |
| LogProtocol.Torn | Enhanced-Shell-xv6/log.c:176-233 | for 2 to LOGSIZE blocks, and fewer than NBUF, a run in which the block behind the log has been overwritten, the log is empty on disk and nothing is committed |
| LogProtocol.NoBufferIff | Enhanced-Shell-xv6/log.c:176-230 | for every size of the log, some run has a commit due that write_log cannot begin, if and only if NBUF is at most LOGSIZE and at most the log's blocks less 2 plus LOGSIZE / MAXOPBLOCKS |
| LogProtocol.OutgrownByFew | Enhanced-Shell-xv6/log.c:213-230 | lh.n stays below the log's blocks plus the number of operations that fit in LOGSIZE together |
| LogProtocol.DurableIsQuiet | Enhanced-Shell-xv6/log.c:145-202 | what is durable is exactly what had been logged at some earlier moment of the run when no operation was in progress |
| CrashedFs.RecoveredInOrder | Enhanced-Shell-xv6/fs.c:53-445 | if free map, pointers and sizes are in order on the disk that bread shows whenever no operation is in progress, they are so on the disk recovered from any state of any run |
| LogProtocol.ReservationHolds | Enhanced-Shell-xv6/log.c:124-141 | for every size of the log: if each operation logs at most MAXOPBLOCKS different blocks, each as often as it likes, lh.n plus the blocks that all outstanding operations may still log never exceeds LOGSIZE, and block numbers are distinct |
| LogProtocol.RoomInHeader | Enhanced-Shell-xv6/log.c:218-230 | an operation with blocks left finds room in lh.block, and so does one between log_write's test and its record; end_op finds no commit in progress |
| LogProtocol.NoPanicIfLogIsLarger | Enhanced-Shell-xv6/log.c:213-221 | with more than LOGSIZE log blocks no reachable log_write panics on an operation that has blocks left |
| LogProtocol.PanicReachableIff | Enhanced-Shell-xv6/log.c:218-219 | some run reaches the panic on an operation that has blocks left, with a block that has a buffer, if and only if the log has at most LOGSIZE blocks, and at most NBUF + 1 |
| LogProtocol.AbsorbPanicIff | Enhanced-Shell-xv6/log.c:218-227 | on an operation that logs one of its blocks again it is reached whatever the size of the log, given the buffers: the test comes before the search for the block |
| Bio.Cache.constructor | Enhanced-Shell-xv6/bio.c:38-56 | binit leaves a well-formed ring of all buffers, all empty, stamped in order of insertion |
| Bio.Cache.Lookup | Enhanced-Shell-xv6/bio.c:68-76 | the scan from the front finds the block's only buffer, or there is none |
| Bio.Cache.FindIdle | Enhanced-Shell-xv6/bio.c:78-91 | the scan from the back finds the clean unreferenced buffer released longest ago, or there is none |
| Bio.Cache.Bget | Enhanced-Shell-xv6/bio.c:61-93 | a cached block keeps its buffer; otherwise the victim is the buffer released longest ago among those without references or pins, and the panic comes exactly if there is none; every block of the logical disk reads as before |
| Bio.Cache.Iderw | Enhanced-Shell-xv6/memide.c:35-60 | a dirty buffer goes to its block and an empty one is filled from it; the logical disk does not change |
| Bio.Cache.Bread | Enhanced-Shell-xv6/bio.c:95-106 | waits exactly if another process has the block's buffer, and else returns it locked, with one reference more and the logical contents of the block; no other buffer changes |
| Bio.Cache.Awake | Enhanced-Shell-xv6/bio.c:101-105 | once the buffer is free, bread ends with it locked and holding the logical contents of the block |
| Bio.Cache.SetData | Enhanced-Shell-xv6/bio.c:95-106 | the holder's change to a locked buffer is the only change of the logical disk |
| CacheRuns.RunShows | Enhanced-Shell-xv6/bio.c:58-141 | over any interleaving of bget, acquiresleep, iderw, stores, pins and brelse, readers see exactly what the stores do to a plain disk |
| CacheRuns.PinnedStays | Enhanced-Shell-xv6/log.c:204-232 | over any such run a pinned block stays in its buffer, looking it up finds it, and its place on disk is not written, until that buffer itself goes through iderw |
| CacheRuns.BreadAgrees | Enhanced-Shell-xv6/log.c:176-190 | the log's bread, pinned copy or disk block, is what a reader of the cache gets for every block that is not locked without being pinned |
| CacheRuns.RunTracks | Enhanced-Shell-xv6/log.c:68-82 | over any run the log's map of pinned blocks, kept by its own rules, is that of the dirty buffers, so its bread stays the cache's |
| CacheRuns.FullCachePanics | Enhanced-Shell-xv6/bio.c:78-92 | no more blocks are pinned than there are buffers, and when as many are, bget of any block that is not cached panics |
| Bio.Cache.Bwrite | Enhanced-Shell-xv6/bio.c:108-116 | the block on disk becomes the buffer's contents and the buffer is clean |
| Bio.Cache.Brelse | Enhanced-Shell-xv6/bio.c:118-141 | the last release stamps the buffer and moves it to the front, keeping the ring and its order of release |
| Bio.Evict | Enhanced-Shell-xv6/bio.c:82-87 | giving an idle buffer to another block changes no logical block and leaves no block with two buffers |
| Bio.Unlink | Enhanced-Shell-xv6/bio.c:132-133 | taking a buffer out of the ring leaves a well-formed ring of the others |
| Bio.PushFront | Enhanced-Shell-xv6/bio.c:134-137 | putting it in at the front gives a well-formed ring again |
| FsLayout.UsedIffOwnedOnce | Enhanced-Shell-xv6/fs.c:55-95 | a data block's bit is set if and only if some pointer names it, and no two pointers name the same block |
| FsLayout.LinkEntry | Enhanced-Shell-xv6/fs.c:396-408 | storing a fresh block in an empty indirect entry keeps ownership unique and every other pointer as it was |
| FsLayout.EntryAllocated | Enhanced-Shell-xv6/fs.c:396-408 | the same through balloc, with the free map in step |
| FsLayout.WrittenChunk | Enhanced-Shell-xv6/fs.c:506-512 | one turn of writei's loop puts the next bytes in place and changes no other byte of any file |
| FsLayout.WrittenAll | Enhanced-Shell-xv6/fs.c:491-521 | when the loop is done and the size updated, the file is the old bytes overwritten or extended and every other file is unchanged |
| FsLayout.CutIndirect | Enhanced-Shell-xv6/fs.c:429-441 | dropping the indirect pointer gives up exactly the indirect block and the blocks it names |
| Fs.FileSystem.Balloc | Enhanced-Shell-xv6/fs.c:55-78 | the lowest free block is zeroed and marked; 0 only if every block is in use; an owned block is never handed out; boot block, superblock, log and inodes are untouched |
| Fs.FileSystem.Bfree | Enhanced-Shell-xv6/fs.c:80-95 | the block's bit is cleared and no data block changes; the panic happens exactly on a free block |
| Fs.FileSystem.Bmap | Enhanced-Shell-xv6/fs.c:382-410 | the file block's address, allocated and zeroed only if it was missing; no pointer changes but its own and perhaps the indirect one, and nothing any file holds; the panic exactly when fewer blocks are free than it lacks |
| Fs.FileSystem.Readi | Enhanced-Shell-xv6/fs.c:462-486 | exactly the bytes at off up to the end of the file, refused exactly when out of range, and no state change: readi never allocates |
| FsLayout.FullIff | Enhanced-Shell-xv6/fs.c:55-78 | the free map is full if and only if the files own as many blocks as there are data blocks |
| Fs.FileSystem.WriteBlocks | Enhanced-Shell-xv6/fs.c:506-512 | all bytes of src are in place and no other byte of any file has changed; exactly the blocks the range lacks are taken, the indirect block counted, and the panic comes exactly when fewer are free |
| Fs.FileSystem.Writei | Enhanced-Shell-xv6/fs.c:491-521 | the file is the old bytes overwritten or extended at off, every other file and all metadata but the free map are unchanged, no block changes hands and exactly as many are taken as the range lacks; refused exactly when out of range, the panic exactly when fewer blocks are free than that |
| Fs.FileSystem.FreeEntries | Enhanced-Shell-xv6/fs.c:432-438 | every block named in the indirect block is freed exactly once, and bfree does not panic |
| Fs.FileSystem.Itrunc | Enhanced-Shell-xv6/fs.c:413-445 | exactly the file's blocks become free, the file is empty, every other file is unchanged, and "freeing free block" is not reached |
| Dir.Namecmp | Enhanced-Shell-xv6/fs.c:526-530 | names compare equal exactly when their first DIRSIZ bytes, cut at NUL, are equal |
| Dir.PaddedStored | Enhanced-Shell-xv6/string.c:69-79 | a name copied into an entry is read back as its first DIRSIZ bytes |
| Dir.FindIsLookup | Enhanced-Shell-xv6/fs.c:534-558 | searching the entries is looking the name up in the finite map the directory stands for |
| Dir.LinkAddsBinding | Enhanced-Shell-xv6/fs.c:561-588 | an unbound name put in a cleared or new entry adds exactly that binding and live names stay distinct |
| Dir.EntriesAfterWrite | Enhanced-Shell-xv6/fs.c:583-585 | writing 16 bytes at an entry's offset replaces or appends that entry and no other |
| Dir.DirLookup | Enhanced-Shell-xv6/fs.c:534-558 | if it finds the name, the number the directory's map gives it and an offset at which the file has a live entry with that name and number; if it does not, the map has no such name; the panic exactly if the file is no directory or the name is not there and the last entry is cut short; the file system is not changed |
| Dir.ClearedByWrite | Enhanced-Shell-xv6/sysfile.c:225-238 | a cleared entry written at the offset dirlookup gave takes exactly that binding out of the directory's map, and leaves it well-formed and as long |
| Dir.DirLink | Enhanced-Shell-xv6/fs.c:561-588 | fails exactly if the name is bound and panics exactly if an unbound one has nowhere to go; otherwise the directory's map gains exactly that binding, a cleared entry is reused before the file grows, and other files are unchanged |
| ShellRoundTrip.RoundTrip | Enhanced-Shell-xv6/sh.c:424-605 | every well-formed command tree, printed, is parsed back to exactly that tree |
| ShellParens.FewestParentheses | Enhanced-Shell-xv6/sh.c:486-605 | no text that parses to a tree opens fewer parentheses than the printed one |
| ShellRoundTrip.PrintingIsInjective | Enhanced-Shell-xv6/sh.c:486-605 | different trees print differently |
| ShellTokens.ParsedTokens | Enhanced-Shell-xv6/sh.c:424-605 | the words of a parsed tree are disjoint maximal words of the source, at most nine arguments a command; arguments of a command ascend in the text, and so do its redirections, and the left of a pipe or list comes before its right; a redirection is one for writing exactly if the last sign before its file is > and one for reading exactly if it is < |
| ShellLanguage.LexCuts | Enhanced-Shell-xv6/sh.c:424-467 | the tokens cut the text into maximal words, >> and single symbols with nothing but blanks between them; a > before another > is read with it |
| ShellLanguage.ParsesExactly | Enhanced-Shell-xv6/sh.c:486-605 | a text without NULs is accepted with tree t if and only if its tokens derive t in a grammar told without positions or lookahead: lists of pipelines with & after them, pipelines of items, items with redirections anywhere or in parentheses; so a text has at most one tree |
| ShellTokens.PrintingIsStable | Enhanced-Shell-xv6/sh.c:486-605 | whatever parses prints to a line that parses to the same tree |
| ShellTokens.StringsSurvive | Enhanced-Shell-xv6/sh.c:608-652 | no word's end lies inside another word, so after termination each word reads as a C string equal to its token |
| ShellParser.Parser.Next | Enhanced-Shell-xv6/sh.c:424-467 | the token the grammar defines at this position, for every input, and the position after it |
| ShellParser.Parser.Peek | Enhanced-Shell-xv6/sh.c:469-479 | whether the next character after blanks is one of the given ones; only blanks are skipped |
| ShellParser.Parser.Redirections | Enhanced-Shell-xv6/sh.c:533-556 | agrees with the grammar, including the panic on a missing file name |
| ShellParser.Parser.Words | Enhanced-Shell-xv6/sh.c:590-602 | agrees with the grammar, including the panics on a stray token and on too many arguments |
| ShellParser.Parser.Item | Enhanced-Shell-xv6/sh.c:574-605 | agrees with the grammar; terminates by remaining input and grammar rank |
| ShellParser.Parser.Block | Enhanced-Shell-xv6/sh.c:558-572 | agrees with the grammar, including both panics |
| ShellParser.Parser.Pipeline | Enhanced-Shell-xv6/sh.c:520-531 | agrees with the grammar |
| ShellParser.Parser.Line | Enhanced-Shell-xv6/sh.c:503-518 | agrees with the grammar |
| ShellParser.Parser.Nulterminate | Enhanced-Shell-xv6/sh.c:608-652 | the buffer differs from before exactly in a NUL at the end of each word of the tree |
| ShellParser.Parser.Command | Enhanced-Shell-xv6/sh.c:486-501 | the tree the grammar defines or a panic, and every word of it now reads as a C string equal to its source text |
| Scheduler.BestIsBest | Signal-Scheduler-xv6/proc.c:426-446 | the selection holds an eligible process that beats every other eligible one or is the first of its equals, and there is one whenever any is eligible |
| Scheduler.ChosenIsBest | Signal-Scheduler-xv6/proc.c:416-446 | told from the table before the round: the slot to run is runnable, unsuspended and within its time limit, and has the highest priority with this round's waiting counted, then the lowest pid, then the lowest index; there is none only if no slot can run |
| Scheduler.AgeTable | Signal-Scheduler-xv6/proc.c:416-424 | every runnable, unsuspended process gains one unit of waiting time and its priority becomes initial_priority - ALPHA * total_ticks + BETA * waiting_time; nothing else changes |
| Scheduler.Select | Signal-Scheduler-xv6/proc.c:426-446 | of the runnable, unsuspended processes with time left, the one of highest priority, ties going to the lowest pid; exactly those out of time become zombies with end_time set |
| Scheduler.RunRound | Signal-Scheduler-xv6/proc.c:416-470 | the whole table after one locked round: the chosen slot runs with no waiting time and its response time kept from its first run, and only the slot that ran before counts a context switch, unless it is the same or slot 1 is chosen |
| Scheduler.ChangesKeep | Signal-Scheduler-xv6/proc.c:110-129 | no change another process or the allocator of slots can make lets a waiting time grow or a counter go negative |
| Scheduler.WinnerWaited | Signal-Scheduler-xv6/proc.c:416-446 | whoever is picked over a ready process has waited nearly as long, up to ceil(ALPHA * ticks / BETA) |
| Scheduler.NoSecondPick | Signal-Scheduler-xv6/proc.c:449-464 | from that many rounds on, no slot is picked twice before the waiting process is |
| Scheduler.NoStarvation | Signal-Scheduler-xv6/proc.c:415-464 | a process that stays runnable, unsuspended and unexpired is picked within ceil(ALPHA * ticks / BETA) + NPROC rounds, whatever happens to the other slots between rounds |
| Umalloc.LargeEnough | Enhanced-Shell-xv6/umalloc.c:69-69 | the units malloc computes hold the request if and only if nbytes is at most 2^32 - 8, and then one unit less would not |
| Umalloc.SbrkGrowsIff | Enhanced-Shell-xv6/umalloc.c:52-54 | morecore's argument to sbrk is positive if and only if the request is below 2^28 units |
| Umalloc.CanonicalList | Enhanced-Shell-xv6/umalloc.c:24-44 | a valid free list is determined by the set of free bytes: order and coalescing leave one representation |
| Umalloc.FreedOk | Enhanced-Shell-xv6/umalloc.c:33-43 | the two link updates keep one circular, ordered, fully coalesced list and add exactly the bytes of the block |
| Umalloc.FreeUndoesTake | Enhanced-Shell-xv6/umalloc.c:24-85 | freeing a block just taken gives back the same list with the same sizes |
| Umalloc.RunInOneBlock | Enhanced-Shell-xv6/umalloc.c:46-90 | because the list is coalesced, memory obtained from sbrk ends up in one block large enough for the request |
| Umalloc.NextFitIsFirst | Enhanced-Shell-xv6/umalloc.c:74-84 | next fit told by addresses: of the free blocks that are large enough, the one taken from is the first one after freep, going up and round |
| Umalloc.Allocator.Search | Enhanced-Shell-xv6/umalloc.c:29-32 | free's search halts from any roving freep, just before the block's place in address order |
| Umalloc.Allocator.Free | Enhanced-Shell-xv6/umalloc.c:24-44 | exactly the block's bytes become free; other live blocks and the memory obtained are unchanged; the rover is left just before the block |
| Umalloc.Allocator.Morecore | Enhanced-Shell-xv6/umalloc.c:46-61 | the larger of 4096 units and the request becomes free, and some block now fits; without memory nothing changes |
| Umalloc.Allocator.Take | Enhanced-Shell-xv6/umalloc.c:75-84 | the last nunits of the block leave the free list and become a live block disjoint from every other |
| Umalloc.Allocator.Scan | Enhanced-Shell-xv6/umalloc.c:74-89 | the scan halts, asks sbrk at most once, and takes the tail of the first block after freep that fits, or the tail of the new memory if none did |
| Umalloc.Allocator.Malloc | Enhanced-Shell-xv6/umalloc.c:63-90 | a fresh live block, from the first fit after freep or from the end of new memory, or 0 exactly when nothing fits and sbrk has nothing; free and live bytes stay a partition of the bytes obtained |
| PageTables.MakeTable | Enhanced-Shell-xv6/vm.c:42-53 | linking in a zeroed page table changes no page table entry of any space |
| PageTables.OnePteChanges | Enhanced-Shell-xv6/vm.c:73-73 | writing one entry changes that entry and no other one of any space |
| PageTables.UnmapUser | Enhanced-Shell-xv6/vm.c:269-276 | clearing an entry and freeing its frame keeps every frame in exactly one role |
| PageTables.NoTableNoPages | Enhanced-Shell-xv6/vm.c:266-268 | the jump over a missing page table skips no page |
| PageTables.StopsShort | Enhanced-Shell-xv6/vm.c:57-80 | a mapping that stops for want of a page table had fewer free frames than the whole range lacks page tables |
| AddressSpaces.RollsBack | Enhanced-Shell-xv6/vm.c:235-246 | unmapping the range again after a failed growth leaves every user page of every space as it was |
| AddressSpaces.TearEnds | Enhanced-Shell-xv6/vm.c:283-298 | when pages, page tables and directory are gone, no frame belongs to the space and the others are untouched |
| AddressSpaces.SourceKmapOk | Enhanced-Shell-xv6/vm.c:110-115 | the kernel's four regions are page-aligned, disjoint, ordered and above KERNBASE |
| AddressSpaces.DirectMap | Enhanced-Shell-xv6/vm.c:104-115 | the kernel's entries map KERNBASE + x to physical x below PHYSTOP, text and read-only data without the right to write, and the devices to their own addresses; no other page has one |
| AddressSpaces.SourceTables | Enhanced-Shell-xv6/vm.c:110-136 | the source's four regions fall under 64 directory entries wherever the kernel's data begins, so that setupkvm succeeds exactly from 65 free frames on |
| AddressSpaces.UserTablesApart | Enhanced-Shell-xv6/vm.c:313-345 | the first n user pages need a page table for every 1024 of them, none of which the kernel's regions use |
| AddressSpaces.CopyEnds | Enhanced-Shell-xv6/vm.c:315-345 | a finished copy has equal contents and flags on frames nobody had before, and the kernel's entries |
| AddressSpaces.FreeUndoesCopy | Enhanced-Shell-xv6/vm.c:283-345 | freevm after copyuvm restores ownership and contents of every frame |
| Vm.Machine.constructor | Enhanced-Shell-xv6/kalloc.c:31-53 | every frame in the range is on the free list, the last one first |
| Vm.Machine.KernelFrame | Enhanced-Shell-xv6/proc.c:102-105 | a frame taken for a kernel stack or a pipe belongs to no space and disturbs none |
| Vm.Machine.FreeKernelFrame | Enhanced-Shell-xv6/proc.c:323-324 | it goes back without touching any frame in use |
| Vm.Machine.Kalloc | Enhanced-Shell-xv6/kalloc.c:79-95 | the first free frame leaves the free list; every frame stays free once or owned |
| Vm.Machine.Kfree | Enhanced-Shell-xv6/kalloc.c:55-77 | the frame goes back to the free list and has no owner |
| Vm.Machine.Walkpgdir | Enhanced-Shell-xv6/vm.c:32-55 | the table that holds the page's entry, made with a frame exactly if it is missing, wanted and a frame is free; a frame taken is a page table of this space and no entry changes |
| Vm.Machine.Mappages | Enhanced-Shell-xv6/vm.c:57-80 | exactly the pages of the range are mapped to consecutive frames if the page tables it lacks are at most the free frames, which are then fewer by that number; otherwise a prefix is, up to a page without a table, and no frame is left; other spaces, contents and roles are kept |
| Vm.Machine.Deallocuvm | Enhanced-Shell-xv6/vm.c:251-279 | exactly the user pages of the range are unmapped and their frames freed, as if every page had been visited |
| Vm.Machine.Allocuvm | Enhanced-Shell-xv6/vm.c:219-249 | zeroed pages are added if the free frames are at least those pages and the page tables they lack, and exactly these are taken; otherwise every user page is as before and only page tables of the range may have been added |
| Vm.Machine.Freevm | Enhanced-Shell-xv6/vm.c:281-298 | every frame of the space becomes free and nothing else changes |
| Vm.Machine.Setupkvm | Enhanced-Shell-xv6/vm.c:117-136 | a new space with exactly the kernel's entries, or every frame back as it was; the latter exactly if the free frames are no more than the page tables of the regions |
| Vm.Machine.Copyuvm | Enhanced-Shell-xv6/vm.c:313-345 | an equal copy on fresh frames with none left in hand, or every frame back as it was; the former exactly if the free frames are at least the directory, the kernel's page tables, the pages and one page table for every 1024 of them, which is what it takes |
| Vm.Machine.ForkAndExit | Enhanced-Shell-xv6/vm.c:219-345 | copyuvm, then any allocuvm or deallocuvm of the copy, then freevm: every frame is as it was before, in use with the same contents or free; the copy comes about exactly if there are frames for it |
| Swap.ImagesHold | Memory-Swap-xv6/pageswap.c:167-173 | the eight blocks of a slot hold exactly the 4096 bytes of the page |
| Swap.OutExclusive | Memory-Swap-xv6/pageswap.c:149-177 | after a page-out each slot in use is still named by exactly one entry |
| Swap.OutSameViews | Memory-Swap-xv6/pageswap.c:149-177 | after a page-out every page of every space has the same flags and contents, in memory or on disk |
| Swap.InExclusive | Memory-Swap-xv6/pageswap.c:179-223 | after a page-in each slot is named by exactly one entry, if and only if the entry was not the empty one with slot 0 held by a page; in that case no bookkeeping can make it so |
| Swap.InSameViews | Memory-Swap-xv6/pageswap.c:195-223 | after a page-in of a swapped page every page of every space has the same flags and contents, and the page is mapped with the saved flags |
| Swap.Swapper.constructor | Memory-Swap-xv6/pageswap.c:46-59 | every slot is free |
| Swap.Swapper.FindFreeSlot | Memory-Swap-xv6/pageswap.c:61-75 | the lowest free slot is taken, or there is none |
| Swap.Swapper.SwapAndPageOut | Memory-Swap-xv6/pageswap.c:149-177 | exactly the slot's blocks and the page's entry change; on failure the slot taken stays in use |
| Swap.Swapper.PageOut | Memory-Swap-xv6/pageswap.c:296-308 | the page goes to the lowest free slot, its frame is free, no other entry changes and every page reads as before; otherwise at most one slot is used up |
| Swap.Swapper.SwapOutPages | Memory-Swap-xv6/pageswap.c:288-309 | of whichever pages are picked, those up to some place in the list are out, and if that is not its end no slot is free; no other entry changes, every frame freed is paid for with a slot, and an empty free list gains a frame exactly if a picked page was a user page in memory and a slot was free; every page reads as before |
| Swap.Swapper.SwapPageIn | Memory-Swap-xv6/pageswap.c:179-230 | succeeds exactly on a present page, or on an entry naming a slot in use if a frame is free or a picked user page and a free slot can yield one; contents and low twelve flag bits come back and the slot is free; no other entry changes but those of pages paged out, and free frames plus free slots stay the same; slots stay exclusive if and only if no empty entry took slot 0 from its page |
| Swap.TakeOver | Memory-Swap-xv6/pageswap.c:179-230 | a run from an empty machine that ends with page 0 naming a slot that is free |
| Sleeplock.StepKeepsInv | Enhanced-Shell-xv6/sleeplock.c:22-42 | every step of every process, and kill, keeps lock ownership and the sleep condition |
| Sleeplock.MutualExclusion | Enhanced-Shell-xv6/sleeplock.c:22-42 | in every reachable state at most one process has the lock, and lk->pid is its pid |
| Sleeplock.HoldingIff | Enhanced-Shell-xv6/sleeplock.c:44-54 | what holdingsleep looks at, locked and pid, is true of a process exactly while it owns the lock, and pid is 0 exactly while nobody does |
| Sleeplock.CallsReturn | Enhanced-Shell-xv6/sleeplock.c:22-42 | a call of acquiresleep ends owning the lock and in no other way, one of releasesleep without it; one process does nothing to another but wake it if it sleeps on the lock |
| Sleeplock.NoLostWakeup | Enhanced-Shell-xv6/proc.c:450-530 | a process sleeps on the lock, or is past the test and bound to, only while it is taken or a releaser holding lk->lk has still to wake it |
| Sleeplock.NoDeadlock | Enhanced-Shell-xv6/sleeplock.c:22-42 | in every reachable state some process can run, or all wait for a lock held by a process outside the lock code |
| Sleeplock.Settles | Enhanced-Shell-xv6/sleeplock.c:22-42 | from any reachable state, without new calls or kills, the n processes execute at most 10 n (n + 1) statements more, and then all are outside or asleep on the lock while a process outside has it |
| Pipe.WrapIsHarmless | Enhanced-Shell-xv6/pipe.c:93-93 | a counter that wraps at 2^32 still goes round the ring, because PIPESIZE divides 2^32 |
| Pipe.Push | Enhanced-Shell-xv6/pipe.c:93-93 | storing at nwrite appends a byte to the ring's contents, wrapped or not |
| Pipe.Pop | Enhanced-Shell-xv6/pipe.c:116-116 | reading at nread removes the oldest byte, wrapped or not |
| Pipe.FullIff | Enhanced-Shell-xv6/pipe.c:85-85 | the tests for full and empty are right when the counters wrap |
| Pipe.Pipe.Pipewrite | Enhanced-Shell-xv6/pipe.c:77-98 | bytes accepted equal bytes delivered followed by the ring, in order; when it sleeps or fails the ring is full; nobody is left asleep who could go on, unless a reader slept before, the bytes do not fit, and the writer is killed or the read end closed |
| Pipe.StrandedReader | Enhanced-Shell-xv6/pipe.c:77-121 | a run that leaves a reader asleep beside a full ring |
| Pipe.Pipe.Piperead | Enhanced-Shell-xv6/pipe.c:100-121 | the oldest bytes, as many as there are up to n; sleeps exactly when empty and open for writing; nobody is left asleep who could go on |
| Pipe.Pipe.Pipeclose | Enhanced-Shell-xv6/pipe.c:59-75 | the other side is woken; the pipe is given back exactly when both ends are closed |
| Grep.Match | Enhanced-Shell-xv6/grep.c:72-82 | true if and only if the pattern's meaning holds at the start (with ^) or at some suffix of the text |
| Grep.MatchHere | Enhanced-Shell-xv6/grep.c:84-96 | true if and only if some prefix of the text is in the pattern's language, reaching the end with $ |
| Grep.MatchStar | Enhanced-Shell-xv6/grep.c:98-106 | true if and only if the star can take some characters and the rest match there; the recursion terminates |
| Grep.ConsumesOne | Enhanced-Shell-xv6/grep.c:93-94 | a literal or . consumes exactly one accepted character |
| Grep.ConsumesStar | Enhanced-Shell-xv6/grep.c:98-106 | a starred character consumes any run of accepted characters |

## Left out

- LogProtocol.CrashAtomicity: for logs of 2 to LOGSIZE blocks and fewer than NBUF it is false of the code, as CrashSafeIff says. The same goes for RecoveryCompletes, CommittedIsNeverLost and CommittedWhenEndOpReturns.
- Log.LogManager: sleeping and waking in begin_op and end_op are the guard of a step in LogProtocol; that a sleeper is eventually admitted is not claimed.
- LogProtocol.PanicReachableIff: MAXOPBLOCKS and LOGSIZE are to leave room for two operations at a time, and the header is to fit a block, as initlog demands; the same for AbsorbPanicIff, OverrunReachableIff, CrashSafeIff and NoBufferIff. The directions that rule a panic or an overrun out need neither.
- Log.LogManager.Commit: buffers that other processes refer to can make bget panic with fewer blocks pinned than NBUF; a block behind the log and beyond the disk, which the disk driver panics on, is excluded by a precondition.
- Fs.FileSystem.Bmap: the panic for block numbers of MAXFILE and above is a precondition; readi and writei never ask for them.
- Fs.FileSystem.Readi: what the device table does with a call for a device inode is not part of this model; the same for Fs.FileSystem.Writei.
- Fs: works on blocks as bread and log_write show them. That a cache shows one plain disk is CacheRuns.RunShows, that the log's view of it is the cache's is CacheRuns.RunTracks, and what a crash leaves of that view is LogProtocol and CrashedFs; that the calls of Fs are made inside transactions, and the order of their log_writes, are not modelled.
- Fs: writing an inode back (iupdate), the inode cache with its reference and link counts, path lookup and the system calls.
- Fs.FileSystem.Writei: log_write's own panic is not among the results: a range of more blocks than the transaction takes stops there first, which filewrite avoids by cutting its calls to writei short. After a panic for lack of blocks only the free map's state is described, since nothing runs any more.
- Fs.FileSystem.WriteBlocks: the same.
- Dir.DirLink: the same, for its one call of writei.
- Bio.Cache.Lock: acquiresleep on a buffer is a step that is possible once nobody has the buffer; how waiting works is in Sleeplock.
- Bio.Cache.Iderw: the panics for another device, a block out of range and an unlocked buffer are preconditions.
- Bio.Cache.Brelse: asks that the buffer is pinned or agrees with the disk, which is the rule the callers keep (bio.c's header comment); the source does not check it.
- ShellParser.Parser.Item: arguments are collected and redirections put around the finished command, where the source mutates the exec node while parsing; >> is parsed like >, as both open the file in the same mode.
- ShellGrammar: running commands, history and the shell's other built-in commands.
- Scheduler: 32-bit overflow of waiting_time and of the priority; preemption by interrupts inside a round; the process running between rounds is part of the environment.
- Scheduler.NoStarvation: assumes that all slots in use start with the same priority and ALPHA >= 0, BETA > 0, as the build sets them.
- Umalloc.Allocator.Malloc: requests of 2^28 units and more, for which morecore shrinks the process instead (SbrkGrowsIff); what programs write into the blocks they hold.
- Umalloc.Allocator.Morecore: sbrk is a parameter that answers with memory at or above all memory obtained so far, below KERNBASE, or with failure.
- Vm.Machine.Mappages: the panic "remap" is a precondition, and so is that the frames of user pages are in the caller's hand.
- Vm.Machine.Kalloc: the free list is a sequence; the links inside free frames and kmem.lock are not modelled.
- Vm: an operation runs to its end before another process's goes on, though others may have frames in hand when it starts; copying into user memory, loading programs, clearing PTE_U, the bits the hardware sets in entries, and switching page tables.
- Swap.Swapper.SwapPageIn: only addresses below KERNBASE; the pages that are paged out when memory is short are a parameter; rss is not counted.
- Swap: choosing victims, with the accessed bits that are cleared on the way, the adaptive threshold, duplicating slots on fork, and freeing slots on exit.
- Sleeplock: which of the waiting processes gets the lock, and that each of them does in the end; memory ordering; the spinlocks' own implementation.
- Pipe: the locked stretch between two sleeps is one step; the wait queues are sets of processes, and waking them all is emptying the set.
- Grep: splitting input into lines, which drops a last line without a newline.
- Hardware, boot code, console, login, and the context-switch and turnaround statistics: no property beyond what a body says.
