# xv6 for LoongArch: a verified model

A Dafny model of the parts of xv6-loongarch that are hardest to get right, with
proofs about them: the crash-safe storage stack, the file system above it, the
page tables, the process protocols, pipes, the user heap allocator, the shell's
parser and grep's matcher. `dafny verify dfyconfig.toml` checks everything.

## How it is organised

| files | subject |
|---|---|
| `RedoLog`, `BufferCache`, `LogLayer`, `StorageMachine` | the redo log: its writes as data, the cache and the log as classes, and all interleavings with crashes as a state machine |
| `LogRuns`, `CrashInvariant` | runs of that machine in which the log or the cache is full; invariants that survive every crash |
| `Volume`, `Bitmap`, `FileSystem`, `FileContents`, `Truncate` | block ownership, allocation, file contents, truncation |
| `PartialWrite`, `DiskView` | a write that fails part way; the file system on the words of the disk, and its ownership after a crash |
| `InodeTable`, `Links`, `SysFile` | the inode table under interleaving; link counts; create, link and unlink |
| `PageTable`, `Kalloc`, `Vm`, `ForkMemory`, `PteBits` | page-table trees, the page allocator, user address spaces, the memory side of fork, entry bits |
| `SleepLock`, `ProcTree`, `Pipe` | sleep and wakeup, fork, exit and wait, pipes |
| `Heap`, `Umalloc` | the user heap allocator |
| `Shell`, `ShellParser`, `Grep` | the shell's parser and the regular-expression matcher |

Code that changes things step by step is a class or a method with loops, proved
against a value-level specification; a protocol between processes is a state
machine whose theorems range over every run. A `panic` is a call that does not
return: it appears as a refusal (`None`, `false`, a named outcome), or as a
precondition where the caller must rule it out. Predicates that are always
true, such as `Index`, `Open` or `AtNode`, only direct the verifier to the facts
a proof needs.

## What the code does not quite promise

- Log capacity. `begin_op` reserves up to `LOGSIZE` blocks but `log_write` stops
  at `log.size - 1`, and `mkfs` makes the log exactly `LOGSIZE` blocks.
  `LogRuns.FullLogReached` gives, for any clean disk, a run that reaches the
  panic with an operation inside its budget. A larger log does not cure it:
  `log_write` tests the capacity before it looks for the block in the list, so
  with `LOGSIZE` blocks listed a second write of one of them panics as well
  (`LogRuns.ListedRefused`, a run for every log of at least `LOGSIZE + 1`
  blocks). `StorageMachine.Admission` gives the exact condition for every
  in-budget write, in every state of every run: it is refused if and only if the
  list already fills the on-disk log, or the block is listed and the list has
  `LOGSIZE` blocks. So with a log of at least `LOGSIZE + 1` blocks a block not
  yet listed is never refused.
- Buffers for the commit. A larger log moves the problem: `NBUF` equals
  `LOGSIZE`, and a list of `LOGSIZE` pinned blocks leaves `write_log` no buffer
  (`LogRuns.FullCacheReached`, a run). `LogRuns.FindsBuffer` is exact: `bget`
  can recycle a buffer if and only if pins and borrowed buffers are together
  fewer than `NBUF`.
- These three runs use arbitrary operations inside the budget that `begin_op`
  reserves, ten distinct blocks each. The kernel's own calls may log fewer: how
  many a write chunk logs depends on the number of bitmap blocks of the image.
- A write that fails part way. If the user's memory ends inside a piece, the
  bytes before the end are already in the buffer, but the result does not count
  them and `log_write` is not called. `PartialWrite.ByteLeftUnlogged` is such a
  call: two bytes over a one-block file, the second unreadable.
  `FileContents.Writei` is exact: every changed block is logged afterwards if
  and only if not `Spoils`, that is, unless the readable bytes end inside a
  block that the file had before the call, that was not logged yet, and that
  those bytes alter. A caller can check this beforehand. A block the call itself
  allocates is logged by `balloc`.
- Directories that have been removed but are still open. `create` and `link` do
  not test for them. A file made there has a link count of 1 and no entry that
  counts: `SysFile.LostFile`. `SysFile.Files.Create` and `LinkEnd` are exact:
  the link counts stay right if and only if nothing was made or the directory
  is still linked. There `..` may name a free inode, on which `ilock` panics.
- A killed pipe writer. `pipewrite` returns at once when it finds itself killed,
  without waking the readers of bytes it has stored. Nobody is left asleep
  wrongly if and only if not `Strands`: the read end is open, readers sleep, and
  the kill lands after the first byte stored since the lock was taken and before
  the last one, within the bytes the user can supply and before the ring is full
  (`Pipe.Pipe.Write`; `Pipe.KilledWriterStrandsReader` is a run). With no kill
  in that stretch all wakeups are right. The kill has to land while the pipe's
  spinlock is held. `acquire` turns interrupts off (kernel/spinlock.c:24), so
  this takes a second CPU, and kernel/param.h:2 sets NCPU to 1.
- Flags in fork. `uvmcopy` keeps an entry's flags in a 32-bit variable. A copied
  entry has its parent's flags if and only if those have no bit above bit 31:
  the last clause of `Vm.ForkCopies`, with an entry that loses one in
  `ForkMemory.FlagsLost`. No caller in this kernel maps such user pages.
- The comment above `walk` describes 48-bit addresses; the code's `MAXVA` is
  `1 << 20`. The model uses the code's bound as a limit on arguments, while the
  tree and its lemmas cover all four levels.
- The comment above `uvmdealloc` allows an old size beyond the mapped memory;
  `uvmunmap` panics there. `Vm.Vm.Uvmdealloc` returns if and only if every page
  of the range is mapped; `ForkMemory.DeallocBeyondPanics` is a call that does not.

## Model

| member | source | states |
|---|---|---|
| RedoLog.InstallKeepsSealed | kernel/log.c:69-83 | after any number of install writes the log still recovers to the new home blocks |
| RedoLog.CommitPrefix | kernel/log.c:179-203 | after any k writes of a commit the disk is still the old state, or recovers to the new one, split exactly at the header write |
| RedoLog.CrashesDurable | kernel/log.c:117-123 | any number of recoveries, each cut short anywhere, keeps the outcome already decided |
| RedoLog.CrashAtomicity | kernel/log.c:68-203 | a commit stopped after any k block writes, then any interrupted recoveries, then one complete recovery, leaves an empty log and exactly the old home blocks before the header write, exactly the new ones after it |
| BufferCache.UnlinkFront | kernel/bio.c:127-128 | the two pointer updates that unlink a buffer leave a circular list of the other buffers in the same order |
| BufferCache.PushFront | kernel/bio.c:129-132 | linking a buffer behind the head gives the circular list with that buffer first |
| BufferCache.Bcache.constructor | kernel/bio.c:36-52 | an empty cache whose list holds every buffer once, in reverse order of number |
| BufferCache.Bcache.Find | kernel/bio.c:65-72 | the buffer of the block, or the head exactly when no buffer has it |
| BufferCache.Bcache.LeastRecent | kernel/bio.c:76-86 | the unreferenced buffer nearest the tail of the list, or the head exactly when all are referenced |
| BufferCache.Bcache.Bget | kernel/bio.c:58-88 | the cached buffer if there is one, else the unreferenced one nearest the tail of the list; waits exactly if that buffer is locked, with its reference counted; panics exactly if the block is not cached and every buffer is referenced; no block is ever cached twice and no contents that differ from the disk are dropped |
| BufferCache.Bcache.Bread | kernel/bio.c:92-102 | a locked buffer with the latest contents of the block, a wait exactly for a locked one, or the panic |
| BufferCache.Bcache.Bwrite | kernel/bio.c:106-111 | exactly one atomic block write, of the latest contents |
| BufferCache.Bcache.Brelse | kernel/bio.c:116-136 | drops one reference; on the last one exactly this buffer moves to the front of the list; the cache stays coherent if and only if another reference remains or the contents are on disk |
| BufferCache.Bcache.Bpin | kernel/bio.c:139-143 | one more reference and nothing else, whoever holds the lock |
| BufferCache.Bcache.Bunpin | kernel/bio.c:146-150 | one reference fewer and nothing else, whoever holds the lock; the cache stays coherent if and only if another reference remains, or the buffer is unlocked and its contents are on disk |
| LogLayer.Log.WriteLog | kernel/log.c:179-191 | issues, in order, the write of the latest contents of every listed block to its log slot; all of them if no other thread holds those buffers and one buffer is unreferenced |
| LogLayer.Log.WriteHead | kernel/log.c:103-114 | one write: the header block with the list in it |
| LogLayer.Log.ReadHead | kernel/log.c:87-97 | the in-memory list becomes the list on disk; nothing is written |
| LogLayer.Log.InstallTrans | kernel/log.c:69-83 | issues, in order, the write of every log slot to its home, and drops each pin unless recovering; the same condition for finishing |
| LogLayer.Log.Commit | kernel/log.c:194-203 | wherever it stops, what reached the disk is a prefix of the writes of a commit; if it ends, all of them, with every pin dropped, the references and locks of other threads as they were, and the log ready for the next transaction; it ends if others hold none of its blocks and one buffer is unreferenced |
| LogLayer.Log.RecoverFromLog | kernel/log.c:117-123 | wherever it stops, a prefix of the recovery's writes; if it ends, the recovered disk in disk and cache, ready for transactions; it ends if two buffers are unreferenced and no one holds its blocks |
| LogLayer.Log.LogWrite | kernel/log.c:215-235 | a block already listed is absorbed, a new one is appended and pinned once; the exact condition of the two panics |
| LogLayer.Log.BeginOp | kernel/log.c:127-142 | admitted exactly when no commit runs and one more full reservation fits |
| LogLayer.Log.EndOp | kernel/log.c:147-175 | the last operation out issues every write of the commit and leaves the log ready for the next one; the others change nothing on disk; it returns whenever no commit runs already and its own can finish |
| LogLayer.Committed | kernel/log.c:194-203 | after all writes of a commit the log is empty, cache and disk agree everywhere, and the home blocks are the latest contents |
| LogLayer.CommitCrashSafe | kernel/log.c:178-203 | a commit by these methods stopped anywhere and recovered leaves the home blocks as the disk had them or as the cache had them, the latter exactly when the header reached the disk |
| StorageMachine.BgetMissKeeps | kernel/bio.c:76-86 | recycling a buffer under any interleaving loses no contents that are not on disk |
| StorageMachine.LogCopyKeeps | kernel/log.c:179-191 | write_log copies the latest contents of the pinned block |
| StorageMachine.StepKeeps | kernel/log.c:126-235 | every step of every thread, of the commit, of a crash and of recovery keeps the invariant of cache, log and disk |
| StorageMachine.Durability | kernel/log.c:117-203 | in every state of every run with crashes, recovery ends with exactly the home blocks of the last header write |
| StorageMachine.Atomicity | kernel/log.c:147-203 | the durable home blocks change only at a header write with no operation active, and then to the latest contents of every block |
| StorageMachine.Coherence | kernel/bio.c:57-150 | in every state of every run no block is cached twice, and a valid buffer that is neither listed nor being modified equals its disk block |
| StorageMachine.Admission | kernel/log.c:126-235 | listed blocks plus unused budgets never exceed LOGSIZE, listed blocks are distinct, commits run alone; any in-budget write is refused if and only if the on-disk log is full, or the block is listed and LOGSIZE blocks are |
| LogRuns.FullLogReached | kernel/log.c:126-235 | with a log of LOGSIZE blocks, any clean disk and any LOGSIZE home blocks, a run in which an operation inside its budget meets the log-too-big panic |
| LogRuns.ListedRefused | kernel/log.c:215-235 | with any log of at least LOGSIZE + 1 blocks, a run in which an operation is refused a second write of a block it has logged itself |
| LogRuns.FindsBuffer | kernel/bio.c:76-88 | in every invariant state bget can recycle a buffer for an uncached block if and only if the pins and the buffers others refer to are together fewer than NBUF |
| LogRuns.CommitFindsBuffers | kernel/log.c:179-191 | a commit alone with the cache finds a buffer for a log block if and only if its list is shorter than NBUF |
| LogRuns.FullCacheReached | kernel/log.c:126-191 | with a log of more than LOGSIZE blocks, a run in which the commit of LOGSIZE blocks finds no buffer at all |
| CrashInvariant.SurvivesCrash | kernel/log.c:117-203 | a property of the home blocks that every group of operations keeps holds of the recovered disk after a crash in any state of any run, however often recovery is interrupted |
| Volume.NoSharing | kernel/fs.c:378-405 | no block number stands in two places: no two files share a block and the map of each inode is injective |
| Volume.NoLeak | kernel/fs.c:65-103 | every block marked in use beyond the metadata has a place in some inode |
| Volume.LeadsOwn | kernel/fs.c:65-437 | no sequence of allocations, stores and truncations, of any length, breaks block ownership |
| Bitmap.DecodesSet | kernel/fs.c:74-76 | setting the bit marks exactly that block in use |
| Bitmap.DecodesCleared | kernel/fs.c:96-100 | clearing the bit marks exactly that block free |
| FileSystem.FileSystem.FindFree | kernel/fs.c:71-84 | the lowest free block, or none exactly when all are in use |
| FileSystem.FileSystem.Balloc | kernel/fs.c:65-86 | the lowest free block, now in use and zeroed; panics exactly when none is free; logs exactly its bitmap block and itself, which are all it changes |
| FileSystem.FileSystem.Bfree | kernel/fs.c:90-103 | the block is free afterwards; panics exactly when it was free |
| FileSystem.FileSystem.Bmap | kernel/fs.c:378-405 | the block of the file block; an existing one is found without any change; a new one is logged and leaves every other block of every file as it was; ownership is kept; the logged blocks only grow, by few, and include every changed block |
| FileSystem.FileSystem.Iupdate | kernel/fs.c:222-237 | the inode on disk becomes the one in memory |
| FileSystem.EffectOwned | kernel/fs.c:378-517 | whatever the effect of an operation on bitmap, data and inodes, blocks owned before are owned after; Writei, FileWrite and Itrunc state that they have such an effect |
| FileContents.ChunkFits | kernel/file.c:153-165 | three blocks' worth of bytes at any offset log at most MAXOPBLOCKS blocks, counting data, bitmap, indirect and inode blocks |
| FileContents.Writei | kernel/fs.c:487-517 | refuses exactly the offsets and lengths the code refuses; otherwise every byte the copy could read is in its place, whole pieces are reported, the file stays free of holes, the size grows only at the end, the effect is one that keeps ownership; every changed block is logged if and only if not Spoils; panics only without a free block |
| FileContents.WriteRefines | kernel/fs.c:487-517 | the file's byte sequence is replaced exactly at the bytes copied, extended only at its end and only by the bytes reported; every other file is as it was |
| PartialWrite.ByteLeftUnlogged | kernel/fs.c:497-505 | a write of which only the first byte can be read: nothing is reported, the byte is in the file, and its block is changed without being logged |
| FileContents.Readi | kernel/fs.c:456-477 | returns exactly the slice of the file's byte sequence, over direct and indirect blocks and any alignment, and allocates and logs nothing |
| FileContents.FileWrite | kernel/file.c:133-179 | outside the panic for lack of blocks, fails if and only if there is something to write and it starts beyond the end, is too long or cannot all be read; a chain of operations, each of which logs at most MAXOPBLOCKS blocks and every block it changes, but for the piece cut short at the end; success stores all bytes; the offset moves by the bytes reported |
| Truncate.Itrunc | kernel/fs.c:410-437 | never panics; every block of the inode is freed and no other; size 0; every changed block is logged, and nothing but the bitmap blocks of the freed blocks and the inode block |
| Truncate.TruncateFreesExactly | kernel/fs.c:410-437 | a block is in use afterwards exactly if it was and did not belong to the inode; other files keep their contents |
| DiskView.WordOfBytes | kernel/fs.h:28-38 | a block of the log, 256 words, read as bytes and then as little-endian words gives its words |
| DiskView.OwnershipSurvives | kernel/fs.h:14-52 | with bitmap, inodes and data read off the words of the disk: if blocks were owned at the start and the disk changed only by file-system operations, then after a crash in any state of any run and any interrupted recoveries no block is shared and none is lost |
| InodeTable.StepKeeps | kernel/fs.c:195-358 | every step of iget, idup, ilock, iupdate, iunlock, iput and ialloc by any process keeps the invariant of table and disk |
| InodeTable.OneEntry | kernel/fs.c:243-273 | in every state of every run at most one entry in use per inode number |
| InodeTable.HeldStays | kernel/fs.c:243-273 | in every run, as long as a process holds a reference to an entry it stands for the same inode: iget never recycles it |
| InodeTable.Coherent | kernel/fs.c:289-358 | a valid unlocked entry in use equals its inode on disk, which is not a free one |
| InodeTable.PutNeverWaits | kernel/fs.c:337-342 | the sleep-lock that iput takes under itable.lock is always free |
| InodeTable.AllocFindsFree | kernel/fs.c:196-215 | ialloc takes a number that some valid entry still has only while that entry's iput is about to invalidate it |
| Links.CreatedKeeps | kernel/sysfile.c:242-284 | a file or directory created in a linked directory keeps all link counts, dots, parents and unique names right |
| Links.CreatedBreaks | kernel/sysfile.c:242-284 | one created in a directory without links makes a link count wrong |
| Links.NoChildren | kernel/sysfile.c:170-182 | a directory that isdirempty accepts is the parent of no linked directory |
| Links.OnlyLink | kernel/sysfile.c:213-232 | the entry being removed is the only link of an empty directory, so its count becomes 0 |
| Links.UnlinkedKeeps | kernel/sysfile.c:185-239 | an unlink keeps all link counts, dots, parents and unique names right |
| Links.EndedKeeps | kernel/sysfile.c:145-152 | the entry written by link turns a pending link into a counted one |
| Links.EndedBreaks | kernel/sysfile.c:145-152 | in a directory without links it makes the count wrong |
| Links.LinkCounts | kernel/sysfile.c:119-284 | with no link pending, nlink is the number of entries naming the inode in linked directories, not counting "." |
| Links.UniqueNames | kernel/fs.c:557-583 | no two entries of a linked directory have the same name |
| Links.NoDangling | kernel/fs.c:530-553 | every entry of a linked directory names an inode in use with at least one link |
| SysFile.Files.Dirlookup | kernel/fs.c:530-553 | the first entry with the name, or past the end exactly when there is none |
| SysFile.Files.Dirlink | kernel/fs.c:557-583 | fails exactly if the name is present; otherwise the entry goes to the first empty place |
| SysFile.Files.Isdirempty | kernel/sysfile.c:170-182 | true exactly if every entry after the dots is empty |
| SysFile.Files.Create | kernel/sysfile.c:242-284 | which of existing file, refusal, new inode or panic it is, with the whole new state; the link invariant kept if and only if nothing is made or the directory is still linked; ilock panics only for .. of a removed directory |
| SysFile.Files.Unlink | kernel/sysfile.c:185-239 | in any directory, succeeds exactly for a present name other than the dots whose inode is no directory with entries; the panic on nlink is unreachable; the link invariant kept |
| SysFile.Files.LinkBegin | kernel/sysfile.c:120-144 | refuses directories; counts the new link before its entry exists |
| SysFile.Files.LinkEnd | kernel/sysfile.c:145-165 | writes the entry, or takes the count back if the name is present; the link invariant kept if and only if it fails or the directory is still linked |
| SysFile.LinkThenUnlink | kernel/sysfile.c:120-239 | link followed by unlink of the new name restores every link count |
| SysFile.LostFile | kernel/sysfile.c:185-284 | on a fresh image, mkdir, unlink and create in the removed directory leave a file with one link that no entry names |
| PageTable.AddTableKeeps | kernel/vm.c:53-63 | a new table page changes no mapping of any address space |
| PageTable.SetLeafKeeps | kernel/vm.c:105-141 | a single map or unmap changes exactly its own entry of the abstract page map and keeps the trees and ownership right |
| PageTable.DropTableKeeps | kernel/vm.c:224-239 | giving back an empty table changes no mapping and leaves at most the entry above it to clear |
| Kalloc.Kmem.constructor | kernel/kalloc.c:24-28 | exactly the pages of RAM are free |
| Kalloc.Kmem.Freerange | kernel/kalloc.c:31-37 | exactly the whole pages in the range become free |
| Kalloc.Kmem.Kfree | kernel/kalloc.c:44-60 | the page goes to the front of the free list and only its contents change |
| Kalloc.Kmem.Kalloc | kernel/kalloc.c:66-79 | the page freed last, none exactly when the list is empty |
| Vm.Vm.Walk | kernel/vm.c:48-65 | finds the leaf table of the page; without alloc nothing changes; with it only tables are added, even when memory runs out half way, which happens if and only if the missing tables are more than the free pages |
| Vm.Vm.Mappages | kernel/vm.c:95-117 | maps the pages of the range in order; succeeds if and only if the missing tables are no more than the free pages; otherwise exactly the first k stay mapped and nothing else changed |
| Vm.Vm.Uvmunmap | kernel/vm.c:123-144 | exactly the pages in the range lose their mappings and, if asked, exactly their frames become free; panics exactly if a page of the range is not mapped |
| Vm.Vm.Uvmcreate | kernel/vm.c:149-157 | a new tree that maps nothing, if and only if a page is free; no change otherwise |
| Vm.Vm.Uvmalloc | kernel/vm.c:178-201 | succeeds if and only if the free pages suffice for the new pages and the missing tables; then zeroed pages of its own up to the new size; otherwise every mapping as it was and every frame returned |
| Vm.Vm.Uvmdealloc | kernel/vm.c:208-219 | exactly the pages above the new size go, with their frames; returns if and only if all of them are mapped |
| Vm.Vm.Freewalk | kernel/vm.c:224-239 | every table below goes back to the free list; no table beside or above and no mapping changes |
| Vm.Vm.Uvmfree | kernel/vm.c:244-249 | every frame and table of the tree is free again and no other page changes hands |
| Vm.Vm.Uvmcopy | kernel/vm.c:258-285 | succeeds if and only if the free pages suffice for the copies and the missing tables; then each page is copied into a frame of the child's own; otherwise every mapping as it was and every frame returned |
| Vm.Vm.Uvmclear | kernel/vm.c:290-298 | only that entry changes, and only its privilege level |
| Vm.Vm.Partition | kernel/kalloc.c:43-79 | free list, table pages, user frames and kernel pages are pairwise disjoint and together all of RAM; no frame is mapped twice |
| Vm.UsersPrivate | kernel/vm.c:66-88 | in every valid state a frame a user can reach is reached through one page of one table only |
| Vm.UndoneGrew | kernel/vm.c:186-199 | adding pages and giving them back leaves every mapping as it was; only tables of that tree stay taken |
| Vm.ForkCopies | kernel/vm.c:258-285 | after a successful uvmcopy every user address reads the same through child and parent, guard page included, no frame is shared, and flags are equal if and only if they fit in 32 bits |
| Vm.ForkReads | kernel/vm.c:258-348 | copyin of any range gives the same result and the same bytes through the child as it gave through the parent |
| ForkMemory.ProcPagetable | kernel/proc.c:173-190 | with at least four free pages a new tree that maps the trapframe and nothing else; with fewer, every page with its owner as before |
| ForkMemory.ProcFreepagetable | kernel/proc.c:195-199 | every frame and table of the process is free again, the trapframe page still its owner's |
| ForkMemory.Allocproc | kernel/proc.c:105-145 | with at least five free pages a trapframe and its page table; with fewer, every page with its owner as before |
| ForkMemory.Fork | kernel/proc.c:266-285 | succeeds if and only if five pages more are free than the parent has; then the child reads the same bytes at every user address and shares no frame; otherwise, wherever an allocation failed, every page has the owner it had and no mapping changed |
| ForkMemory.DeallocBeyondPanics | kernel/vm.c:203-219 | a call with a size beyond the mapped memory does not return |
| Vm.SameRead | kernel/vm.c:329-348 | a copyin is determined by the readable bytes |
| Vm.Vm.Walkaddr | kernel/vm.c:71-88 | the frame of a present user page, and none for any other address |
| Vm.Vm.Copyin | kernel/vm.c:329-348 | the bytes up to the first address the user may not read; success exactly if there is none |
| Vm.Vm.Copyout | kernel/vm.c:304-323 | writes exactly the bytes up to the first address the user may not use, and no other byte of any address space |
| Vm.WriteThenRead | kernel/vm.c:304-348 | what copyout wrote is what copyin reads back |
| PteBits.WordPointer | kernel/loongarch.h:291-305 | a page address and its flags survive the trip through the 64-bit entry |
| PteBits.FlagChanges | kernel/vm.c:270-297 | the truncation in uvmcopy and the mask in uvmclear are the changes of the model |
| SleepLock.StepKeeps | kernel/sleeplock.c:21-41 | every step of every process keeps the protocol's invariant |
| SleepLock.MutualExclusion | kernel/sleeplock.c:21-52 | in every run at most one process owns the lock, and it is the one the lock records |
| SleepLock.NoLostWakeup | kernel/proc.c:522-567 | whenever the spinlock and the sleep-lock are free, no process is SLEEPING on it or committed to sleeping on it |
| ProcTree.StepKeeps | kernel/proc.c:265-421 | every step of fork, failed or not, exit, reparent, wait, sleep, wakeup and kill by any process keeps the tree's invariant |
| ProcTree.LiveParents | kernel/proc.c:316-372 | in every state of every run each slot in use but init and a child inside fork has a parent that is neither UNUSED nor ZOMBIE |
| ProcTree.NoOverlookedZombie | kernel/proc.c:333-421 | whenever wait_lock is free no parent is asleep in wait, or committed to it, with a ZOMBIE child |
| ProcTree.ReapedOnce | kernel/proc.c:377-421 | a child is reaped at most once, with the status it exited with |
| Pipe.Pipe.Counters | kernel/pipe.c:87-113 | the tests for empty and full are right across 2^32 wrap-around |
| Pipe.Pipe.Stream | kernel/pipe.c:77-130 | the bytes delivered are a prefix of the bytes sent, with at most PIPESIZE on the way |
| Pipe.Pipe.Write | kernel/pipe.c:77-103 | exactly which bytes enter the ring and how the call ends; nobody is left asleep wrongly if and only if no kill lands between the first and the last byte it stores while a reader sleeps |
| Pipe.Pipe.Read | kernel/pipe.c:106-130 | exactly which bytes are delivered, in order, and how the call ends; nobody is left asleep wrongly |
| Pipe.Pipe.Close | kernel/pipe.c:59-74 | the other end is woken; the pipe is freed exactly when both ends are closed |
| Pipe.KilledWriterStrandsReader | kernel/pipe.c:83-86 | a run, on a machine with a second CPU, in which a killed writer leaves a reader asleep on a non-empty pipe |
| Heap.NoOverlap | user/umalloc.c:24-90 | no unit belongs to two blocks, live or free |
| Heap.Covered | user/umalloc.c:24-90 | every unit obtained from sbrk belongs to a live or free block |
| Heap.FreedValid | user/umalloc.c:25-44 | a freed block merged with its neighbours keeps the list in address order and no two free blocks adjacent |
| Umalloc.Allocator.Search | user/umalloc.c:30-32 | the search ends, at the one place in the circular list where the block belongs |
| Umalloc.Allocator.Free | user/umalloc.c:25-44 | only that block stops being live, the list is the merged one, and every unit of every other live block is untouched |
| Umalloc.Allocator.Morecore | user/umalloc.c:47-61 | the new units, at least 4096, are on the free list and no unit of a live block is touched; fails exactly when sbrk fails |
| Umalloc.Allocator.Scan | user/umalloc.c:74-88 | finds a block exactly if one is large enough, and ends after one turn otherwise |
| Umalloc.Allocator.Malloc | user/umalloc.c:64-90 | a new live block of exactly the units asked for, disjoint from all others, every unit of which is untouched; null exactly if no block is large enough and sbrk fails; sbrk called only then |
| Shell.RoundTrip | user/sh.c:328-446 | parsing the fully parenthesised printing of any command tree gives back that tree |
| ShellParser.Reparse | user/sh.c:328-446 | whatever line was parsed, printing the command and parsing that gives the same command |
| ShellParser.Parser.Gettoken | user/sh.c:266-308 | kind, bounds and following position of the next token |
| ShellParser.Parser.Redirs | user/sh.c:375-397 | the redirections at the cursor, in order, or a panic |
| ShellParser.Parser.Line | user/sh.c:345-359 | the mutually recursive parser ends on every line, with the command of the grammar or a panic |
| ShellParser.LineParsed | user/sh.c:416-446 | every word of a parsed command is a maximal run of letters of the line, with fewer than MAXARGS of them |
| ShellParser.WordsTerminated | user/sh.c:450-493 | no NUL falls inside a word, so each argv string and file name is its word |
| ShellParser.Nulterminate | user/sh.c:450-493 | exactly the ends of the words become NUL |
| ShellParser.Parsecmd | user/sh.c:328-342 | the command of the line or a syntax error, and every word a C string in the buffer |
| Grep.MatchHere | user/grep.c:83-94 | true exactly if some beginning of the text is in the language of the pattern |
| Grep.MatchStar | user/grep.c:97-104 | true exactly if some run of fitting characters is followed by a match of the rest |
| Grep.Match | user/grep.c:70-80 | true exactly when the text satisfies the declarative meaning of the pattern |

## Left out

- BufferCache.Bcache.Bget: a call that waits is followed only up to the wait; StorageMachine has the interleavings, with a nondeterministic choice among unreferenced buffers instead of the least recently used one.
- LogLayer.Log.Commit: a commit that waits for a buffer is followed only up to the wait, and other threads take no step in between; StorageMachine interleaves commit with all other threads.
- StorageMachine.StepKeeps: recovery works on the disk directly, since the cache is empty then; one device; the panic for lack of buffers is a step that is missing, exactly when LogRuns.FindsBuffer says.
- FileContents.Writei: a panic implies that a block of the range was unmapped and that the call has used up all free blocks, but how many it needed is not counted; the user copy can read a prefix of the bytes whose length is given as an argument.
- FileSystem.FileSystem.Iupdate: writes a record; where its bytes stand in the inode block is in DiskView.
- DiskView.OwnershipSurvives: that concurrent operations of a group take effect on the disk one after another, each as FileSystem.Effect says, is a hypothesis about the run; the inode locks that make it so are in InodeTable.
- FileContents.FileWrite: no other call on the inode between two chunks; inside a chunk the inode is locked.
- InodeTable.StepKeeps: holders of the lock call iupdate after every change, as the comment above iupdate demands; contents of the truncated file are in Truncate.
- SysFile.Files.Create: the 16-bit width of nlink.
- SysFile.Files.Unlink: one step, since both inodes are locked at its middle point; link is two steps and interleaves with everything.
- Vm.Vm.Mappages: addresses are page numbers, so the alignment panics do not arise; a page already mapped is the remap panic and the caller rules it out.
- Vm.Vm.Uvmcopy: parent entries whose only flags besides the valid bit lie above bit 31, which a copy would turn into pointers to tables; no caller makes such user mappings.
- Vm.Vm.Uvmfree: the trapframe must have been unmapped first, as ForkMemory.ProcFreepagetable does.
- ForkMemory.Fork: freeproc gives the trapframe page back before it unmaps it, the model after; the process table, registers and open files are in ProcTree or left out.
- PteBits.WordPointer: the model's page number stands for bits 12 to 47 of the word; the two are related by this lemma and not by a conversion.
- ProcTree.StepKeeps: a scan of wait may return or sleep whether or not there are children or a kill, so its runs include all the code's runs; sleeping elsewhere than in wait is not distinguished from running.
- Pipe.Pipe.Write: a kill is an index from which on the process counts as killed; user copies fail from a given byte on.
- Umalloc.Allocator.Malloc: requests whose byte count overflows sbrk's int argument.
- Shell.RoundTrip: parseexec fills a command while redirections are wrapped around it; the model keeps words and redirections apart and wraps at the end.
- Path name lookup (skipelem, namex), file descriptors and file reference counts: sequencing over the operations modelled here.
- copyinstr, uvminit and exec: more of the same walk over pages.
- runcmd and grep's line buffer: process plumbing around the parser and the matcher.
- The scheduler's choice, spinlocks' memory barriers, traps, devices and assembly: hardware and policy outside the properties proved.
- mkfs: the initial image is taken to be hole-free and to satisfy the invariants.
