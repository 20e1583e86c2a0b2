# A verified model of the xv6 kernel's storage, process and memory core

This project models, in Dafny, the hard parts of this RISC-V xv6 kernel and of its
user programs, and proves what they promise. Nothing here runs the original: every
statement is about the model, for all inputs, all runs and all reachable states.

- `bio.dfy` (BufferCache), `crash.dfy` (CrashLog), `log.dfy` (WriteAheadLog): the buffer
  cache with its LRU ring, the redo log on top of it, and what the disk means after a
  crash between any two block writes. The cache records every disk image it writes;
  the log's methods are proved to write exactly the images that CrashLog reasons about,
  one by one and with reads by other processes in between, and it is an invariant of
  the log that every image so far means the groups committed by then.
- `inodes.dfy` (Inodes), `bitmap.dfy` (Bitmap), `fs.dfy` (FileSystem), `mkfs.dfy` (Mkfs):
  who owns each disk block, the byte sequence that a file is, and the image builder
  that establishes the invariant.
- `recovery.dfy` (Recovery): the two together: what the blocks of an image hold, in the
  format of mkfs and iupdate, and that the image which any crash and recovery leave holds
  the file system of the last commit, in which every block has at most one owner.
- `links.dfy` (Links), `paths.dfy` (Paths): link counts and directory entries under link,
  unlink and create, and the inode that a path name leads to.
- `proc.dfy` (Processes), `ticks.dfy` (TickAccounting): fork, exit, wait, sleep, wakeup and
  kill as a step machine over `wait_lock` and the process locks, and the tick counters.
- `pagetree.dfy` (PageTree), `vm.dfy` (VirtualMemory), `usercopy.dfy` (UserCopy): Sv39 page
  tables (section 4.4 of the RISC-V Privileged Architecture) in physical memory, over the
  page allocator, and the copies between kernel and user memory through them.
- `umalloc.dfy` (Malloc): the K&R allocator (section 8.7 of The C Programming Language).
- `virtio.dfy` (VirtioDisk): the virtio block driver and its device (sections 2.6 and 5.2
  of VIRTIO 1.1).
- `sh.dfy` (Shell), `grammar.dfy` (Grammar): the shell's parser, and the language that it
  parses, given without it.
- `grep.dfy` (Grep), `pipe.dfy` (Pipes), `rand.dfy` (ParkMiller): the pattern matcher and line
  reader, the pipe ring, the random step.
- `common.dfy` (Common), `seqs.dfy` (Seqs): optional values and 32-bit words, and facts
  about sets and sequences.

Conventions. Code that updates state in place is a class (or a method on an array)
whose methods say what the new state is; ghost fields give the abstract value and
`Valid()` ties them to the real ones. A `panic` is a result (`None`, `false`, `Fail`,
`Panic`) where the code can reach it, and an `assert false` or a precondition where it
is the caller's mistake. Sleeping is a result that means "try again". Acquiring and
releasing a lock is atomic, and a method or action is a stretch of code during which the
locks it needs are held. Fixed-width arithmetic is written out (`% UINT`, `% U16`).

Where the code and what one would expect of it differ, the code is modelled:

- mkfs makes a log of LOGSIZE blocks, header included. In a log of that size operations
  within their budgets can come to log_write's panic (`WriteAheadLog.Log.Overfill`), and
  in exactly the larger ones they cannot (`WriteAheadLog.NeverTooBigIff`). But NBUF is
  LOGSIZE too: in a larger log NBUF blocks can be logged, every buffer is then pinned,
  and the first bread of the commit panics (`WriteAheadLog.Log.FillAndCommit`). A commit
  comes to its end exactly if some buffer is not referenced
  (`WriteAheadLog.Log.Commit`), as is always so in a log of LOGSIZE blocks when no other
  block is in use (`WriteAheadLog.Log.SmallLogCommits`).
- mkfs rounds the root directory's size up even when it is a whole number of blocks:
  `Mkfs.RoundedMappedIff` says when every block below the size is still mapped.
- sys_link and create do not look whether the directory of the new name is still linked.
  A directory can be unlinked and open (`Links.Orphan`), and the link counts stay right
  exactly if it is not (`Links.Directories.LinkFinish`, `Links.Directories.Create`).
- nlink is a short and nothing looks at its size: the count stays right exactly below
  32767 (`Links.Directories.LinkStart`), and after one more sys_link sys_unlink panics on
  every name of the file (`Links.LinkPanicIff`, `Links.SaturateBreaks`).
- readi allocates blocks: bmap maps whatever block below the size is not mapped. fileread
  calls it outside of transactions, so such a read can come to log_write's panic
  (`FileSystem.Fs.Readi`).
- A process killed while it is in wait() can go to sleep there all the same: exactly if the kill
  comes between its look at `killed` and the moment when sleep() has its lock
  (`Processes.KilledSleepsIff`, `Processes.LateKill`).
- The driver computes a block's sector in 32 bits: it is the block's own exactly for block
  numbers below 2^31 (`VirtioDisk.Sector`).
- namex locks whatever an entry names: a path through an inode that is not in use, which the
  ".." of an unlinked directory can lead to, ends in ilock's panic (`Paths.Namex`,
  `Paths.LostPath`).
- grep stops at a line that does not fit in its buffer: `Grep.ShownIff`.

## Model

| member | source | states |
|---|---|---|
| `BufferCache.Cache.constructor` | kernel/bio.c:36-53 | binit's chaining makes one ring over all NBUF buffers, linked both ways, and cache plus disk is the disk |
| `BufferCache.Cache.Find` | kernel/bio.c:66-73 | finds the buffer of a block of any device if any buffer holds it, wherever it is in the ring |
| `BufferCache.Cache.LeastRecent` | kernel/bio.c:75-87 | of the buffers nobody references, the one released longest ago; none exactly if all are referenced |
| `BufferCache.Cache.Bget` | kernel/bio.c:58-89 | recycles only an unreferenced, hence unpinned, buffer and keeps every block in at most one; panics exactly if the block is not cached and all buffers are referenced |
| `BufferCache.AtMostOnce` | kernel/bio.c:58-89 | no two buffers of any device but 0 hold the same block |
| `BufferCache.Cache.AcquireSleep` | kernel/bio.c:70-71 | a waiter for the buffer becomes its holder; reference counts still count waiters, holder and pins |
| `BufferCache.Cache.Wake` | kernel/bio.c:92-103 | a waiter that gets the lock has the block's latest contents, whatever was written while it slept |
| `BufferCache.Cache.Bread` | kernel/bio.c:92-103 | the buffer locked, with the block's latest contents, stored or on disk; or, exactly if another process has it locked, one more waiter for it; panics exactly if the block is not cached and all buffers are referenced |
| `BufferCache.Cache.Store` | kernel/bio.c:92-103 | changing the data of a locked buffer changes that block, and no other, of the block map that cache plus disk implement |
| `BufferCache.Cache.Bwrite` | kernel/bio.c:106-112 | one atomic disk write, recorded in the trace, that leaves the block map alone |
| `BufferCache.Cache.ReleaseSleep` | kernel/bio.c:119-122 | the first step of brelse: the lock is free and the reference still counts |
| `BufferCache.Cache.Drop` | kernel/bio.c:124-136 | the second step, under bcache.lock: with the last reference gone the buffer is the most recently released and first in the ring, else the ring is untouched; no block is lost if and only if other references remain or the block is on disk |
| `BufferCache.Cache.Brelse` | kernel/bio.c:116-137 | both steps with nobody in between: lock and reference are given up, and no block is lost if and only if other references remain or the block is on disk |
| `BufferCache.RelinkLinked` | kernel/bio.c:126-132 | the six pointer writes of brelse move a buffer to the front of the ring and keep it one ring of the same buffers |
| `BufferCache.Cache.Bpin` | kernel/bio.c:139-144 | one more reference, counted as a pin |
| `BufferCache.Cache.Bunpin` | kernel/bio.c:146-151 | one pin less |
| `BufferCache.Cache.IdleClean` | kernel/bio.c:116-151 | when no buffer is in use the disk holds every block's latest contents |
| `BufferCache.RoomIff` | kernel/bio.c:58-89 | for a block nobody uses bget panics if and only if every buffer is referenced |
| `BufferCache.NoRoom` | kernel/bio.c:75-88 | NBUF different blocks in use leave no buffer |
| `BufferCache.SomeRoom` | kernel/bio.c:75-88 | fewer than NBUF blocks in use leave one |
| `CrashLog.InstallKeeps` | kernel/log.c:68-83 | copying logged blocks home, cut off anywhere, does not change what the disk means |
| `CrashLog.InstallPlaces` | kernel/log.c:68-83 | once all are copied every home block is what the log said |
| `CrashLog.RecoveryKeeps` | kernel/log.c:116-123 | every image of a recovery means what the crashed disk meant, and the last one has an empty log |
| `CrashLog.LogKeeps` | kernel/log.c:178-191 | writing log slots changes no home block and not what the disk means |
| `CrashLog.HeadCommits` | kernel/log.c:102-114 | the header write alone turns the old meaning into the new one |
| `CrashLog.CommitAtomic` | kernel/log.c:193-203 | each image of a group commit means all of the old contents before the header write and all of the new ones from it on |
| `CrashLog.CommitAt` | kernel/log.c:178-203 | which block each write of a commit changes, and to what: a slot, the header, a home block from its slot, the header again |
| `CrashLog.Reboots` | kernel/log.c:116-123 | recoveries cut off after any number of writes, any number of times, and then completed, keep the meaning |
| `CrashLog.Crash` | kernel/log.c:178-203 | a crash after any number of a commit's writes leaves all of the transaction exactly if the header was written, else none |
| `CrashLog.RunAtomic` | kernel/log.c:68-203 | over every sequence of transactions, crashes and crashes in recovery the home blocks are those transactions applied in order, each in full or not at all |
| `WriteAheadLog.ReadHeader` | kernel/log.c:86-97 | reads the count and block numbers that the header block encodes; panics exactly if every buffer is referenced |
| `WriteAheadLog.WriteHeader` | kernel/log.c:102-114 | one write, of the header that names these blocks; or, exactly if every buffer is referenced, the panic and no write |
| `WriteAheadLog.WriteSlot` | kernel/log.c:184-189 | one write, of the cached block to its slot, and every reference given back; or, exactly if every buffer is referenced, the panic and no write |
| `WriteAheadLog.InstallSlot` | kernel/log.c:74-81 | one write, of the slot to its home, and in a commit one pin less; or, exactly if every buffer is referenced, the panic and no write |
| `WriteAheadLog.Ready` | kernel/bio.c:58-103 | whether a round would panic, exactly if every buffer is referenced, or sleep, exactly if another process has the block locked |
| `WriteAheadLog.Log.SlotRound` | kernel/log.c:183-190 | with other processes' reads since the last round: the next image of the atomic commit, unless the round panics or sleeps, and when it does |
| `WriteAheadLog.Log.HeadRound` | kernel/log.c:198-198 | the same for the header write, which is the write that commits the group |
| `WriteAheadLog.Log.InstallRound` | kernel/log.c:73-82 | the same for each home block, whose pin is given up |
| `WriteAheadLog.Log.ClearRound` | kernel/log.c:200-201 | the same for the last header write, after which disk and cache agree and nothing is pinned |
| `WriteAheadLog.Log.WriteLog` | kernel/log.c:178-191 | run without a break: all slot writes of the commit, or none, exactly if blocks are logged and every buffer is referenced |
| `WriteAheadLog.Log.InstallTrans` | kernel/log.c:68-83 | run without a break: all home writes of the commit and every pin given up, or none, exactly if every buffer is referenced |
| `WriteAheadLog.JournalRound` | kernel/log.c:178-203 | a write of a commit changes what the disk means exactly if it is the header write, and then by that group |
| `WriteAheadLog.Log.constructor` | kernel/log.c:53-66 | an empty log with nothing outstanding |
| `WriteAheadLog.Log.BeginOp` | kernel/log.c:126-142 | admits an operation exactly if the log is not committing and has room for MAXOPBLOCKS more blocks of it and of every operation admitted |
| `WriteAheadLog.Log.EndOp` | kernel/log.c:146-163 | the operation's reservation is given back; the last one commits |
| `WriteAheadLog.Log.EndCommit` | kernel/log.c:165-174 | operations are admitted again |
| `WriteAheadLog.Log.LogWrite` | kernel/log.c:214-235 | logs each block once, pinning it when it is new; panics exactly on log_write's guard, which a new block within the budget never meets if the log has LOGSIZE slots |
| `WriteAheadLog.Log.Commit` | kernel/log.c:193-203 | run without a break: writes all images of the atomic commit of the logged blocks as cached, then the log is empty and disk and cache agree; panics, with nothing written, if and only if blocks are logged and every buffer is referenced |
| `WriteAheadLog.Log.InstallRecovering` | kernel/log.c:68-83 | at boot, writes exactly the images InstallImages |
| `WriteAheadLog.Log.RecoverFromLog` | kernel/log.c:116-123 | always comes to its end: writes exactly RecoveryImages; then the disk is what the crashed disk meant and the log is empty |
| `WriteAheadLog.Log.Read` | kernel/file.c:120-124 | in an operation or not, before, during and after a commit: a block read is its latest contents; panics exactly if it is not cached and every buffer is referenced |
| `WriteAheadLog.Log.Resume` | kernel/file.c:120-124 | so is one read after waiting for its buffer |
| `WriteAheadLog.Log.Modify` | kernel/log.c:205-213 | within an operation, changing a block that is held changes it in the block map that the next commit writes, and nothing on disk |
| `WriteAheadLog.Log.Release` | kernel/log.c:205-213 | a block let go clean, or logged, or at any time by a reader, keeps its latest contents in the block map: it can leave the cache only after it is on disk |
| `WriteAheadLog.Log.LogKeepsIt` | kernel/log.c:205-213 | a held block whose latest contents are not on disk is pinned, unless its operation has still to log it |
| `WriteAheadLog.Log.CommitsOnDisk` | kernel/log.c:193-203 | between commits the home blocks on disk are the groups committed since boot, in order |
| `WriteAheadLog.CrashRecovers` | kernel/log.c:68-203 | from every disk image of a run of the log, crashes and recoveries cut off any number of times lead to exactly the groups committed by then |
| `WriteAheadLog.Log.CommitRoom` | kernel/log.c:178-203 | with fewer than NBUF blocks logged and no other block in use a commit has its buffer |
| `WriteAheadLog.Log.SmallLogCommits` | mkfs/mkfs.c:25-25 | so it always has in a log of LOGSIZE blocks, unless other blocks are in use |
| `WriteAheadLog.Log.FullLog` | kernel/param.h:9-11 | with NBUF blocks logged it has none |
| `WriteAheadLog.Log.Fill` | kernel/log.c:126-235 | three operations can log any blocks that there are slots for, each within its budget |
| `WriteAheadLog.Log.Overfill` | kernel/log.c:214-221 | in any log of at most LOGSIZE blocks they come to log_write's panic on one more block within the budget |
| `WriteAheadLog.Log.FillAndCommit` | kernel/log.c:178-203 | in any larger log they come to a commit that panics |
| `WriteAheadLog.ReservedWrite` | kernel/log.c:214-235 | an operation within its budget leaves room for what the others may still log |
| `WriteAheadLog.ReservedBegin` | kernel/log.c:126-142 | admission keeps logged blocks plus unused reservations at most LOGSIZE |
| `WriteAheadLog.ReservedEnd` | kernel/log.c:146-175 | so does the end of an operation |
| `WriteAheadLog.NeverTooBigIff` | mkfs/mkfs.c:25-25 | within the budgets no new block meets log_write's panic if and only if the log is larger than LOGSIZE blocks |
| `Bitmap.SetFirstClear` | kernel/fs.c:64-86 | sets the lowest clear bit below the size and no other, and changes one block of the bitmap; or there is none |
| `Bitmap.ClearBit` | kernel/fs.c:89-103 | clears that bit and no other; fails exactly if it was clear |
| `Bitmap.MaskShift` | kernel/fs.c:74-74 | the mask of bit k of a byte is 1 shifted by k, and tests the k-th bit from below |
| `Bitmap.SetFirst` | mkfs/mkfs.c:234-248 | exactly the first bits are set |
| `FileSystem.Fs.Balloc` | kernel/fs.c:64-86 | a zeroed data block that no slot of any inode owned and no other process had in flight; panics exactly if there is none or no transaction is running; every block it changes is logged |
| `FileSystem.Capacity` | kernel/fs.c:64-86 | slots and blocks in flight never outnumber the data blocks, and equal them exactly if no block is free |
| `FileSystem.Fs.Bmap` | kernel/fs.c:377-405 | the address of a file's block, direct or indirect; fills exactly the slots that the block needs and changes nothing for a mapped block; logs every block it changes, and no more than those slots' blocks and the bitmap blocks of the empty ones; panics exactly beyond MAXFILE, if those slots would need more blocks than there are, or if the block is not mapped and no transaction is running |
| `FileSystem.Fs.DirectSlot` | kernel/fs.c:383-391 | an address field that was 0 gets a block of its own; panics exactly if it was 0 and no block is free or no transaction is running |
| `FileSystem.Fs.IndirectSlot` | kernel/fs.c:389-402 | so does an entry of the indirect block, which is allocated first if need be |
| `FileSystem.Fs.Bfree` | kernel/fs.c:89-103 | the bit of an owned block, and no other, is cleared, and its bitmap block logged; the panic is unreachable |
| `FileSystem.Fs.Itrunc` | kernel/fs.c:409-437 | every block of the file is freed once, the file is empty and every other file keeps its slots and contents; every block changed is logged |
| `FileSystem.Fs.TruncDirect` | kernel/fs.c:414-419 | the direct blocks are given back |
| `FileSystem.Fs.TruncIndirect` | kernel/fs.c:421-432 | the entries of the indirect block and then the block itself are given back, each once |
| `FileSystem.Fs.Readi` | kernel/fs.c:455-477 | the bytes of the file from off up to off + n or its size, whichever is less; none, and nothing changes, exactly for an offset past the size or a sum that overflows 32 bits; no file's bytes change, and nothing at all if every block below the size is mapped; panics exactly if bmap would for a block it reads, for want of blocks or, at a hole, for want of a transaction at that moment |
| `FileSystem.Fs.Writei` | kernel/fs.c:486-517 | the bytes are spliced into the file's byte sequence, growing it if need be, other files are unchanged; every block changed is logged, and no more than the file's blocks written, its indirect block, the bitmap blocks of new ones and its inode block; -1 exactly for an offset past the end, an overflow or too large a file; panics exactly if the slots it needs are more than there are blocks |
| `FileSystem.SplicedAt` | kernel/fs.c:486-517 | after a write each byte of the file is the one written if it is in the range, else the one that was there, and the size is the larger of the old size and the end of the range |
| `FileSystem.ReadBack` | kernel/fs.c:455-517 | readi of any range around a write gets the bytes written and, before and behind them, those that were there |
| `FileSystem.Fs.WriteRead` | kernel/fs.c:455-517 | writei and then readi of a range around it reads what was written; in a file without holes it fails exactly if the write does, for want of blocks |
| `FileSystem.WrittenBytes` | kernel/fs.c:497-509 | the block-by-block copies of writei add up to one splice of the byte sequence |
| `FileSystem.WrittenOthers` | kernel/fs.c:497-509 | and leave every other file's bytes alone |
| `FileSystem.ChunkBudget` | kernel/file.c:148-155 | a write of at most filewrite's maximum to a file without holes logs at most MAXOPBLOCKS different blocks |
| `FileSystem.Fs.WriteChunk` | kernel/file.c:157-167 | so does each transaction of filewrite, whose bytes are spliced into the file |
| `FileSystem.Fs.Filewrite` | kernel/file.c:148-175 | the transactions add up to one splice of all the bytes at the file's offset; all are written, or, exactly if the offset is past the end or the file would get too large, only whole chunks, and the result is -1 |
| `FileSystem.TracksThen` | kernel/fs.c:64-517 | changes that are all logged, one after the other, are all logged |
| `Recovery.WordOf` | kernel/fs.c:394-396 | the entries of an indirect block, read as bytes, are the words of its buffer |
| `Recovery.InodeBack` | kernel/fs.c:221-237 | what iupdate stores in its slot of an inode block ilock reads back, for every inode whose fields are in range, and the other inodes of the block are as before |
| `Recovery.DinodeBytes` | kernel/fs.h:32-39 | an inode's type, nlink, size and addresses are read from their places in the 64 bytes of struct dinode, low byte first |
| `Recovery.OwnedNow` | kernel/fs.c:64-437 | with nothing in flight and every inode written back, the bitmap, inodes and blocks are those of a file system in which each block has at most one owner, and a set bit exactly if it has one or is metadata |
| `Recovery.CommitEncodes` | kernel/log.c:193-203 | a group that carries the cached contents of every block in which the file system changed takes the image of the old file system to the image of the new one |
| `Recovery.OwnershipSurvives` | kernel/log.c:116-203 | after a crash between any two writes of any run of the log, and any number of crashes in recovery, the disk holds exactly the file system of the last group whose header was written, with at most one owner for each block and the bits to match |
| `Mkfs.Image.constructor` | mkfs/mkfs.c:93-111 | an image of zeroed blocks owns nothing |
| `Mkfs.Image.Ialloc` | mkfs/mkfs.c:220-232 | the next inode, empty, with one link |
| `Mkfs.Image.BlockFor` | mkfs/mkfs.c:262-280 | the file's block, newly taken from the counter if it had none, owned by that slot alone; fails exactly if the slots it needs are more than the image has blocks |
| `Mkfs.Image.Iappend` | mkfs/mkfs.c:252-294 | the bytes are appended to the file's byte sequence, whose blocks are exactly those below its size; fails exactly for a block beyond MAXFILE or if the slots it needs are more than the image has blocks |
| `Mkfs.Image.RoundRoot` | mkfs/mkfs.c:163-168 | the root directory's size goes up to the next whole block, even if it is one; it reads as before up to the old size, and every block below the new size is mapped if and only if the old one was not a whole number of blocks |
| `Mkfs.Image.Finish` | mkfs/mkfs.c:170-170 | the finished image meets the invariant that the kernel keeps: a bit is set exactly for metadata and blocks owned by one slot |
| `Mkfs.RoundedMappedIff` | mkfs/mkfs.c:163-168 | rounding the root's size up keeps every block below it mapped if and only if the size was not a whole number of blocks |
| `Links.Directories.constructor` | mkfs/mkfs.c:117-128 | the root directory alone, whose one link is its own ".." |
| `Links.Directories.Dirlookup` | kernel/fs.c:529-553 | the first entry in use with the name, none exactly if no entry in use has it |
| `Links.Directories.Dirlink` | kernel/fs.c:556-583 | a new entry in the first empty place, if and only if the name is not there |
| `Links.Directories.IsDirEmpty` | kernel/sysfile.c:169-182 | whether no entry after the first two is in use |
| `Links.Directories.Iget` | kernel/fs.c:242-275 | one more reference, whatever the inode is |
| `Links.Directories.Iput` | kernel/fs.c:332-358 | one reference less; the inode is freed exactly with the last one and no link, and then no entry of a linked directory names it |
| `Links.Directories.LinkStart` | kernel/sysfile.c:133-142 | a link on its way is counted, unless it is to a directory; the short nlink stays the number of links if and only if it was below 32767 |
| `Links.Directories.LinkFinish` | kernel/sysfile.c:144-166 | the counted link becomes an entry, exactly if the name is free, or the count is taken back; nlink stays right if and only if no entry was made or its directory is linked |
| `Links.Directories.Unlink` | kernel/sysfile.c:184-239 | nlink stays the number of entries that count; removes exactly a file's name or an empty directory's, never "." or "..", and then that name is found no more and every other name as before; the nlink panic is unreachable; frees the inode exactly if that was its last link and reference |
| `Links.UnlinkForgets` | kernel/sysfile.c:184-239 | in a directory whose names are all different, clearing an entry makes its name unknown and no other |
| `Links.Directories.Ialloc` | kernel/fs.c:195-216 | the unused inode with the lowest number, or there is none |
| `Links.Directories.Create` | kernel/sysfile.c:241-284 | under a name that is not there: the lowest unused inode, with one link, in the first empty place, a directory with its dots and one link more to its parent, or the panic, exactly if no inode is unused; under one that is there: the existing inode exactly if a file is wanted and it is a file or device, the panic exactly if it is not in use, and else a refusal; every nlink stays right if and only if nothing was made, or the directory is linked and, for a new directory, has fewer than 32767 links |
| `Links.EmptyDir` | kernel/sysfile.c:209-222 | an empty directory has one link, and its parent keeps one besides the ".." that goes |
| `Links.NotNamed` | kernel/fs.c:337-351 | an inode whose nlink is 0 is named by no entry of a linked directory |
| `Links.LinkKeepsIff` | kernel/sysfile.c:144-153 | the new entry keeps nlink right if and only if its directory is linked |
| `Links.LinkPanicIff` | kernel/sysfile.c:141-212 | after one more sys_link, sys_unlink panics on a name of the file if and only if its count was 32767 |
| `Links.Directories.LinkMany` | kernel/sysfile.c:119-166 | any number of sys_links to new names in a linked directory, up to a count of 32767, each add one to it |
| `Links.Saturate` | kernel/sysfile.c:119-166 | so a file with 32767 names in two directories is reached from mkfs's tree, in a valid state |
| `Links.SaturateBreaks` | kernel/sysfile.c:141-212 | one sys_link more, and sys_unlink of its first name meets the nlink panic |
| `Links.NewFileWrong` | kernel/sysfile.c:263-280 | a file made in an unlinked directory has one link and no entry that counts |
| `Links.NewDirWrong` | kernel/sysfile.c:263-280 | a directory made in an unlinked directory links that one again, whose ".." then counts for a directory that has given up the link |
| `Links.GoodRight` | kernel/sysfile.c:119-284 | in a valid state the nlink of an inode is the number of entries other than "." in linked directories that name it, plus the links on their way |
| `Links.Orphan` | kernel/sysfile.c:184-284 | making a directory, keeping a reference and unlinking it leads to a valid state with an unlinked directory |
| `Links.OrphanBreaks` | kernel/sysfile.c:241-284 | creating anything in it then makes some count wrong |
| `Paths.Skipelem` | kernel/fs.c:599-622 | the first name of the path, cut to DIRSIZ, and the path behind it, which does not start with a slash and is empty exactly if that was the last name; none exactly if the path has no name |
| `Paths.ElementsJoin` | kernel/fs.c:599-622 | every sequence of names is that of a path |
| `Paths.ElementsSlash` | kernel/fs.c:599-622 | the names of two paths with a slash between them are those of the first and then those of the second |
| `Paths.ElementsOne` | kernel/fs.c:599-622 | a path without a slash has one name, its first DIRSIZ characters |
| `Paths.Namex` | kernel/fs.c:628-661 | leads to the inode that the names of the path lead to, from the root or the current directory, or to the directory of the last name; every inode is as before, and every reference it took is given back but the one to the result |
| `Paths.LostPath` | kernel/fs.c:628-661 | making a directory in a directory, keeping it open and unlinking both leads to a valid state in which "../x" ends in ilock's panic |
| `Paths.ResolveOn` | kernel/fs.c:638-655 | a path behind another leads on from where the first one leads |
| `Paths.ResolveParent` | kernel/fs.c:644-659 | nameiparent leads where namei leads without the last name, if that is a directory |
| `Paths.CreateKeepsPaths` | kernel/sysfile.c:241-284 | after create every path that led somewhere leads there still |
| `Paths.CreatedIsFound` | kernel/sysfile.c:241-284 | and the directory's path with the new name leads to the new inode |
| `Processes.InvStep` | kernel/proc.c:376-553 | every step of fork, exit, wait, sleep, wakeup, kill, the scheduler, and a timer's yield wherever no lock is held, by any process, keeps the invariant of the protocol: who holds which lock, which children are passed on, that no wakeup of a parent is missed, and that a process has a parent from fork to its reaping |
| `Processes.RunInv` | kernel/proc.c:376-553 | so every state of every run from boot satisfies it |
| `Processes.NoMissedExit` | kernel/proc.c:457-553 | in every reachable state where wait_lock and the sleeper's own lock are free, a process sleeping in wait() has no ZOMBIE child |
| `Processes.ParentsAlive` | kernel/proc.c:440-499 | in every reachable state a parent is neither UNUSED nor ZOMBIE |
| `Processes.ReapStep` | kernel/proc.c:503-553 | a process is reaped only by its parent's scan, as a ZOMBIE whose lock the scheduler has released |
| `Processes.ReapedOnce` | kernel/proc.c:503-553 | over every run each exit of a slot is reaped at most once before the slot exits again |
| `Processes.ZombieUntilReaped` | kernel/proc.c:457-553 | over every run a ZOMBIE stays one until it is reaped |
| `Processes.WaitTakesChild` | kernel/proc.c:515-538 | wait() that comes to a ZOMBIE child ends there with wait_lock released; the slot is free exactly if the status could be copied out, else the child is as it was |
| `Processes.WaitEndsIff` | kernel/proc.c:543-551 | at the end of its scan wait() gives up if and only if the process has no children or is killed, and else goes on to sleep |
| `Processes.KillSticks` | kernel/proc.c:966-995 | over every run a process is killed from the kill to the end of its life |
| `Processes.KillWakes` | kernel/proc.c:966-995 | and does not sleep, until it goes to sleep again |
| `Processes.KilledLeavesWait` | kernel/proc.c:543-548 | a killed process that finds no ZOMBIE child leaves wait() and has released wait_lock |
| `Processes.KilledSleepsIff` | kernel/proc.c:543-551 | over every run, a process on its way into wait()'s sleep is killed if and only if a kill came after the end of its scan and before sleep() had its lock |
| `Processes.LateKill` | kernel/proc.c:543-551 | a run from boot in which this happens: init is killed, and asleep, while its child can run |
| `Processes.WakeupWakes` | kernel/proc.c:937-962 | over every run, once wakeup has looked at a process it does not sleep on that channel until it goes to sleep on it again |
| `Processes.SleepsUntilWoken` | kernel/proc.c:907-962 | over every run a sleeper sleeps on, on its channel, until a kill, a wakeup on that channel, or the wakeups of an exit that concern it |
| `Processes.ComesBack` | kernel/proc.c:855-935 | over every run a process that yields or goes to sleep does nothing until it is switched in, and then goes on where it was |
| `Processes.ForkMakesChild` | kernel/proc.c:376-437 | fork ends with a new process that can run, whose parent is the one that forked |
| `Processes.NoneLost` | kernel/proc.c:376-553 | in every reachable state every process but init has a parent, from fork's end until it is reaped |
| `Processes.ExitPassesOn` | kernel/proc.c:440-499 | over every run, when exit makes a process a ZOMBIE exactly its children have been passed to init, and no other parent has changed |
| `TickAccounting.Clock.constructor` | kernel/proc.c:116-128 | at boot every slot is UNUSED and no tick has passed |
| `TickAccounting.Clock.Allocproc` | kernel/proc.c:193-212 | a life begins now with no ticks counted |
| `TickAccounting.Clock.Clockintr` | kernel/trap.c:193-208 | a tick ages every living process by one, in the state it is in; the 32-bit counters stay the true counts modulo 2^32 |
| `TickAccounting.Clock.UpdateTime` | kernel/proc.c:1121-1135 | charges the tick to the counter of the process's state |
| `TickAccounting.Clock.Move` | kernel/proc.c:855-961 | changes of state between allocation and exit keep the account |
| `TickAccounting.Clock.Exit` | kernel/proc.c:488-492 | etime is birth plus age, modulo 2^32 |
| `TickAccounting.Clock.Waitx` | kernel/proc.c:1084-1088 | reports the ticks run, and the ticks slept, runnable or USED, exactly when the life was shorter than 2^32 ticks and modulo 2^32 always: no underflow |
| `PageTree.TranslateFlat` | kernel/vm.c:68-98 | translation through three levels of tables in memory is look-up in a flat map from virtual page to entry |
| `PageTree.MappedTranslate` | kernel/vm.c:137-160 | after mappages exactly the pages of its range translate to the new entries; every other address of every page table translates as before |
| `PageTree.UnmappedTranslate` | kernel/vm.c:165-187 | after uvmunmap exactly the pages of its range do not translate |
| `PageTree.SameSlot` | kernel/riscv.h:352-357 | two addresses share a leaf entry if and only if they are in the same page of the same page table |
| `PageTree.Indices` | kernel/riscv.h:352-357 | the three indices are bits 30 to 38, 21 to 29 and 12 to 20 of the address |
| `PageTree.UserPte` | kernel/vm.c:237-237 | the entries that uvmalloc makes let the user read, write and execute |
| `PageTree.Rollback` | kernel/vm.c:228-241 | giving back all leaves mapped so far leaves the old leaf map, and only table pages, still in the tree, as difference |
| `VirtualMemory.Memory.constructor` | kernel/kalloc.c:26-40 | every whole page from `end` to PHYSTOP is on the free list |
| `VirtualMemory.Memory.Kfree` | kernel/kalloc.c:46-63 | the page joins the free list, once |
| `VirtualMemory.Memory.Kalloc` | kernel/kalloc.c:68-82 | the page freed last, or none exactly if the free list is empty |
| `VirtualMemory.Memory.Walk` | kernel/vm.c:80-98 | the place of the leaf entry; with alloc it fails exactly if the free pages are fewer than the tables missing on the way, and what it added stays in the tree |
| `VirtualMemory.Memory.Walkaddr` | kernel/vm.c:103-121 | the page of a user mapping, 0 exactly if there is none |
| `VirtualMemory.Memory.Mappages` | kernel/vm.c:137-160 | maps the range page by page; succeeds exactly if there are pages for all missing tables, else the pages before the failure stay mapped |
| `VirtualMemory.Memory.Uvmunmap` | kernel/vm.c:165-187 | removes exactly the range's mappings; the pages it owned are free, each once, or handed back |
| `VirtualMemory.Memory.Uvmcreate` | kernel/vm.c:191-200 | an empty page table in a page that was free |
| `VirtualMemory.Memory.Uvmalloc` | kernel/vm.c:220-244 | if nothing below MAXVA is mapped in its way it succeeds exactly if there are pages for the new leaves and their missing tables, with zeroed pages of its own; else the leaf map is as before; at MAXVA or at a mapped page it panics exactly if a page is left when it gets there, and else fails |
| `VirtualMemory.Memory.Uvmdealloc` | kernel/vm.c:250-262 | gives back the pages between the two sizes, rounded up |
| `VirtualMemory.Memory.Freewalk` | kernel/vm.c:266-282 | every table page below, and the page itself, is free again, once, and no other |
| `VirtualMemory.Memory.Uvmfree` | kernel/vm.c:286-292 | every leaf page and table page of the page table is free, and no other page changes its role |
| `VirtualMemory.Memory.Uvmcopy` | kernel/vm.c:300-328 | the child's pages are its own, with the parent's contents and flags, exactly if there are pages enough; else the child has no page |
| `UserCopy.BytesFrom` | kernel/vm.c:359-359 | a page made of bytes has these bytes |
| `UserCopy.Copyout` | kernel/vm.c:346-366 | page by page, the bytes are spliced into the user's memory, up to the first page that the user may not touch; no other byte of any process and no page of another role changes; succeeds exactly if the user may touch every page of the range |
| `UserCopy.Copyin` | kernel/vm.c:371-391 | page by page, the slice of the user's memory; fails exactly if the user may not touch some page of the range |
| `UserCopy.CopiedBack` | kernel/vm.c:346-391 | what copyin gets after copyout is what copyout put |
| `UserCopy.CopiedApart` | kernel/vm.c:346-391 | and elsewhere, in this or another process, copyin gets what it got before |
| `UserCopy.Copyinstr` | kernel/vm.c:397-434 | the bytes before the first null; succeeds exactly if there is one within max bytes and the user may touch every page up to it |
| `UserCopy.AllocedOwn` | kernel/vm.c:220-328 | uvmalloc and uvmcopy keep every process's user pages its own, and their bytes |
| `UserCopy.GrownBytes` | kernel/vm.c:220-244 | after uvmalloc the user may read, write and execute every new byte, and it is 0 |
| `UserCopy.ForkedBytes` | kernel/vm.c:300-328 | after uvmcopy the child reads at every address what the parent read |
| `Malloc.Heap.constructor` | user/umalloc.c:21-22 | before the first malloc nothing is free, live or from sbrk |
| `Malloc.Heap.Search` | user/umalloc.c:29-32 | free's search ends, at the last free block before the one freed |
| `Malloc.Heap.Free` | user/umalloc.c:24-44 | the list stays one address-ordered cycle with no two neighbours touching, the block is part of a free one, every other live block is untouched, and the next search starts at the last free block below it |
| `Malloc.Heap.Morecore` | user/umalloc.c:46-61 | the new units join the free list in a block large enough, or nothing happens |
| `Malloc.Heap.Malloc` | user/umalloc.c:63-90 | ends; a live block, disjoint from all others, of the fewest headers that hold nbytes bytes behind the first; if a free block holds them, it is cut from the end of the first such block after freep; fails exactly if none does and sbrk fails; takes units from sbrk exactly if none does, 4096 or the block's own if that is more |
| `Malloc.Heap.Take` | user/umalloc.c:75-83 | unlinks an exact fit or cuts the tail off a larger block; the next search starts at the block before it |
| `Malloc.Conserved` | user/umalloc.c:24-90 | free and live blocks do not overlap and add up to the units obtained from sbrk |
| `VirtioDisk.Disk.constructor` | kernel/virtio_disk.c:133-138 | all descriptors are free and nothing is in flight |
| `VirtioDisk.Disk.AllocDesc` | kernel/virtio_disk.c:144-154 | the free descriptor with the lowest number, or there is none |
| `VirtioDisk.Disk.Alloc3` | kernel/virtio_disk.c:189-201 | three different free descriptors, or, exactly if there are not three, everything as before |
| `VirtioDisk.Disk.FreeDesc` | kernel/virtio_disk.c:157-170 | the descriptor is cleared and free |
| `VirtioDisk.Disk.FreeChain` | kernel/virtio_disk.c:173-185 | following the links frees the three descriptors of the chain and no other |
| `VirtioDisk.Sector` | kernel/virtio_disk.c:206-206 | the sector, in 32-bit arithmetic, is that of the block if and only if the block number is below 2^31 |
| `VirtioDisk.Disk.Start` | kernel/virtio_disk.c:203-267 | offers a well-formed request for the buffer exactly if fewer than two are in flight; no offered head that the device has not fetched is overwritten |
| `VirtioDisk.Disk.Fetch` | kernel/virtio_disk.c:259-267 | the device gets the heads in the order offered and reads the request from the descriptors |
| `VirtioDisk.Disk.Complete` | kernel/virtio_disk.c:298-302 | the device serves the request: the buffer gets its two sectors, or they get its data, and no other buffer or sector changes; completing requests in any order overwrites no used entry that the driver has not read |
| `VirtioDisk.ServedAs` | kernel/virtio_disk.c:226-252 | a device that goes by the descriptors alone does with the chain what was asked: the data moves the right way, between the right sectors and buffer, and the status is 0 |
| `VirtioDisk.Disk.Transfer` | kernel/virtio_disk.c:203-315 | from an idle driver back to one, for every block number below 2^31: after a read the buffer holds the block, after a write the block holds the buffer, and all else stays |
| `VirtioDisk.Disk.Intr` | kernel/virtio_disk.c:282-315 | every completed request is handled once, clearing its own buffer's mark and no other; across the 16-bit wrap; the status panic is unreachable |
| `VirtioDisk.Disk.Finish` | kernel/virtio_disk.c:269-279 | the chain's descriptors are free again once the buffer is no longer marked |
| `VirtioDisk.TwoChains` | kernel/virtio_disk.c:189-201 | every descriptor is free or in exactly one chain of three; so at most two are in flight, and three descriptors are free exactly if fewer are |
| `VirtioDisk.ShortRings` | kernel/virtio_disk.c:259-311 | at most two entries of each ring are waiting, so the wrapped indices tell empty from not |
| `Shell.Gettoken` | user/sh.c:265-308 | the token at a position, its span and the next position |
| `Shell.PeekToken` | user/sh.c:310-320 | whether one of some characters comes next |
| `Shell.ParseRedirs` | user/sh.c:374-397 | wraps the command in all the redirections that follow, the first innermost, or Fail; which they are is what Grammar.RedirsComplete and Grammar.RedirsSound say |
| `Shell.ParseExec` | user/sh.c:415-446 | arguments and redirections in any order, or a block; Fail for ten arguments or a stray symbol |
| `Shell.ParseBlock` | user/sh.c:399-413 | a line in parentheses and its redirections |
| `Shell.ParsePipe` | user/sh.c:361-372 | commands joined by pipes, to the right |
| `Shell.ParseLine` | user/sh.c:344-359 | background marks and sequences; ends on every input |
| `Shell.ParseCommand` | user/sh.c:327-342 | after parsing and nulterminate every word of the command reads from the buffer exactly as it stood in the line |
| `Shell.Nulterminate` | user/sh.c:449-493 | a NUL after each word of the tree and nowhere else |
| `Shell.WordsRead` | user/sh.c:449-493 | no terminator lands inside another word |
| `Shell.LineWhole` | user/sh.c:344-446 | every argument and file of a parsed line is a maximal run of word characters |
| `Shell.RoundTrip` | user/sh.c:265-446 | parsing the fully parenthesised printing of any command, of up to 9 words each free of blanks and symbols, gives the command back |
| `Grammar.LexedIs` | user/sh.c:265-308 | what gettoken finds, one after the other, are the lexemes of the line: maximal words, ">>" before ">", and nothing but blanks between them |
| `Grammar.LexingUnique` | user/sh.c:265-308 | a line has only one such sequence of lexemes |
| `Grammar.RedirsComplete` | user/sh.c:374-397 | any number of redirections in front of something else is parsed as just these, in their order |
| `Grammar.RedirsSound` | user/sh.c:374-397 | and what is parsed is what stands there, up to something else |
| `Grammar.ArgsComplete` | user/sh.c:415-446 | words with any number of redirections after any of them are parsed as these words and all the redirections, in their order |
| `Grammar.ArgsSound` | user/sh.c:415-446 | and what is parsed stands there, every word and redirection of it |
| `Grammar.ExecComplete` | user/sh.c:399-446 | so for a command, or a line in parentheses, with redirections before, between and behind |
| `Grammar.ExecSound` | user/sh.c:399-446 | and conversely |
| `Grammar.PipeComplete` | user/sh.c:361-372 | a pipeline of commands is parsed as nested to the right |
| `Grammar.PipeSound` | user/sh.c:361-372 | and conversely |
| `Grammar.LineComplete` | user/sh.c:344-359 | a line of pipelines, each with any number of "&", joined by ";", is parsed as nested to the right, each pipeline in the background as often as it says |
| `Grammar.LineSound` | user/sh.c:344-359 | and conversely |
| `Grammar.ParseIff` | user/sh.c:327-446 | for all lines: a line parses to a command if and only if its lexemes, all of them, are derived from the grammar with that command as meaning |
| `Grammar.FailIff` | user/sh.c:327-446 | and fails if and only if they have no derivation with at most 9 words in each command |
| `Grep.MatchhereIff` | user/grep.c:83-94 | matchhere holds if and only if a start of the text is made up of a string for each item of the pattern, ending the text if the pattern ends in "$" |
| `Grep.MatchstarIff` | user/grep.c:97-104 | matchstar holds if and only if some repetition of c is followed by such a start |
| `Grep.MatchIff` | user/grep.c:70-80 | match holds if and only if the text has a part in the pattern's language, at its start if the pattern begins with "^" |
| `Grep.MatchhereAt` | user/grep.c:83-94 | the recursion computes Matchhere and ends |
| `Grep.MatchstarAt` | user/grep.c:97-104 | the loop computes Matchstar and ends |
| `Grep.MatchAt` | user/grep.c:70-80 | the loop computes Match and ends |
| `Grep.GrepFile` | user/grep.c:10-34 | however read splits the input, what is written is the matching terminated lines up to the first that does not fit in the buffer |
| `Grep.ShownIff` | user/grep.c:17-32 | those are all matching lines, for every pattern, if and only if every terminated line has at most 1023 bytes with its newline |
| `Pipes.Pipe.constructor` | kernel/pipe.c:33-36 | an empty pipe, open at both ends |
| `Pipes.Pipe.Counters` | kernel/pipe.c:87-112 | across the 32-bit wrap the counters' tests tell full and empty, and index the right place |
| `Pipes.Pipe.Write` | kernel/pipe.c:76-103 | stores bytes behind those stored before, never more than PIPESIZE ahead of the readers; stops only at the end, at a fault, when full, with no reader, or when killed, which may happen between any two bytes |
| `Pipes.Pipe.Read` | kernel/pipe.c:105-130 | takes the oldest stored bytes, so that those removed are always a prefix of those stored; a byte whose copyout fails is taken too |
| `Pipes.Pipe.Close` | kernel/pipe.c:58-74 | closes one end; the pipe is dead exactly when both are closed |
| `ParkMiller.Random.DoRand` | user/grind.c:16-40 | the next value is the Park-Miller step of the last one, in range |
| `ParkMiller.Schrage` | user/grind.c:27-35 | the division trick computes 16807 x modulo 2^31 - 1 exactly, every intermediate value is within 31 bits and a sign, and the result is never 0 |
| `ParkMiller.Bijection` | user/grind.c:16-40 | the step is a bijection on 0 .. 2^31 - 3 |

## Left out

- The FCFS, PBS and MLFQ scheduling policies (kernel/proc.c:562-845): the scheduler is modelled as picking any RUNNABLE process.
- Spinlock internals and the memory model: acquire and release are atomic steps.
- Deadlock and liveness: the step machine of Processes states safety only, and a sleeping call is one that is tried again.
- BufferCache.Cache.Bread: is stated for the root device, the only one that the kernel ever reads and whose blocks are `view`; a process that sleeps goes on with the separate step Wake.
- BufferCache.Cache.Bget: is stated for the root device too.
- WriteAheadLog.Log.Release: is brelse in one step.
- WriteAheadLog.Log.Commit: is the run of the commit with nobody in between, and so requires that no process holds a logged block. Readers do hold some, since fileread takes no part in transactions; then the commit is the rounds SlotRound, HeadRound, InstallRound and ClearRound, between which Read, Resume and Release may come in any order.
- WriteAheadLog.Log.WriteLog: requires the same, and so the rounds stand for it when a reader holds a logged block.
- WriteAheadLog.Log.InstallTrans: the same.
- WriteAheadLog.Log.SlotRound: a round is one step; it is not split between its two breads, its bwrite and its two brelses, and a round that would sleep is one that is tried again.
- WriteAheadLog.Log.InstallRound: the same.
- WriteAheadLog.Log.RecoverFromLog: starts from a cold cache, as at boot.
- WriteAheadLog.Log.LogWrite: the budget of MAXOPBLOCKS different blocks for each operation is a precondition; that filewrite keeps it is proved, on files without holes, that other system calls keep it is not.
- FileSystem.Fs.Writei: user copies are all or nothing; a copy that fails half-way, after changing the cached block, is not modelled.
- FileSystem.Fs.Readi: user copies are all or nothing here too.
- FileSystem.Fs.Bmap: other processes' changes to other files come before or after it as a whole; the blocks they have in flight meanwhile are `busy`.
- Recovery.OwnershipSurvives: FileSystem works on bits, inodes and blocks in memory, not through BufferCache and WriteAheadLog. That the cached blocks hold them when a group is committed, and that log_write is called with the blocks that FileSystem says are logged, is what `Recovery.Carries` supposes; FileSystem proves that these are all the blocks that changed.
- Links models a directory's entries as a sequence, not as the bytes of its file, and names as strings already cut to DIRSIZ; the inode table's limit and device numbers are not modelled.
- Paths.Namex: runs with nobody in between; the inode that it starts from is in the table.
- Links.Directories.Unlink: starts from a valid state; what it does once a count is wrong is said only by LinkPanicIff.
- TickAccounting treats the clock interrupt's walk over the process table as one step.
- Processes gives wait() as the only sleeper on a process; other sleeps and wakeups are on channels apart from processes, and waitx is wait() with two more results.
- PageTree has no caches of translations (TLB) and no superpages; kvmmake, uvminit and uvmclear would add only easy members.
- VirtualMemory.Memory.Mappages: takes a range that is not mapped yet, on which it would panic; Uvmalloc does not.
- VirtualMemory.Memory.Uvmalloc: takes an old size up to MAXVA.
- UserCopy.Copyout: takes a page table whose user pages are its own, as uvmalloc and uvmcopy leave them.
- UserCopy.Copyin: takes a page table whose user pages are in memory; so does Copyinstr.
- Malloc.Heap.Malloc: takes requests whose byte count fits sbrk's int argument, sbrk results above all earlier ones, addresses in whole headers, and a heap below 2^32 headers.
- VirtioDisk: the device completes only requests it fetched, each once, has every sector, and moves data at the moment of completion; feature negotiation, interrupts and memory barriers are not modelled.
- Shell: running commands, and the "leftovers" message; a panic is the result Fail.
- Grep.GrepFile: takes input without NUL bytes; writing to the output does not fail.
- Pipes: wakeups are not modelled; a stretch that sleeps is resumed by calling again.
- exec, traps, context switch, system-call dispatch, console, UART, PLIC, boot code and the remaining user programs.
