# UZI filesystem, pipes and processes

UZI is a small Unix kernel; this project is a Dafny model of the parts of its port to the NES
that keep data: the write-back buffer cache, the block free list kept inside the blocks it
hands out, the block map of an inode with its indirect blocks, byte reads and writes in 16-bit
arithmetic, the in-core inode table and the inode allocator, directories, pipes, the process
table, the passing of arguments to a new program, and the two utilities that share the disk
format, mkfs and fsck (passes 1 and 2).

Each file models one layer on top of the layers below it:

| file | what it models |
|---|---|
| Types | bytes, 16-bit words, blocks, disks |
| BufferCache | the four-buffer pool; `logical` is what clients see of the devices |
| FreeList, FreeOrder | the free stack as stored, and the order in which a tree is freed |
| BlockMap | positions that hold block numbers, and who owns which block |
| Volume | a mounted filesystem as a store of blocks: class `Vol` |
| Inode, FileBytes | the 64-byte inode, positions in a file, contents as bytes |
| FileSystem | bmap, f_trunc, readi and writei: class `FileSys` |
| InodeTable | i_open, i_deref, i_alloc, i_free, sync: class `Inodes` |
| Directory | namecomp, srch_dir, ch_link |
| Links | names and inodes together: newfile, _unlink |
| Mkfs, Fsck | the initial image; lookup, bitmap and rebuilt free list: class `Check` |
| Pipe | a pipe and the processes at its ends: class `PipePair` |
| PipeWait | the ends of a pipe as processes of the table |
| Process | the process table and its steps: class `ProcTable` |
| Args | wargs and rargs |
| History | the log of a run's writes and truncations, and the files that it describes |
| Session | whole runs with files, directories and pipes: class `System` |
| Lifetime | from mkfs over a run, a sync and a restart to fsck |
| Exhaustion | how a system runs out of inode numbers |

The central invariant (`GoodLayout`, kept by every method of `FileSys`, `Inodes`, `PipePair` and
`System`) says that each block of [isize, fsize) is in exactly one place: once on the free
stack, or at one position (inode, slot, path) of one inode. A ghost map records that position.
Everything else hangs on it: that a freed block is nobody's buffer, that the chain inside free
blocks is not overwritten, that files do not share blocks, and so that none of the panics and
"corrupt" exits on these paths can be reached, but for the one of i_alloc (below). A panic or exit shown unreachable is an assertion
with a comment, or a precondition that every caller here meets.

The main result about whole runs is `Session.System.Run`: any sequence of opens, creations, removals,
closes, truncations, reads, writes, syncs and uses of pipes keeps the invariant of the system, which
adds to the above that every file holds at each position what was written there last (a ghost log of
changes says what that is), every directory has unique names, and every pipe holds what was sent and
not yet received. The states of the run are a trace in which each two in a row differ by one call;
`Served` says what each call does; `Untouched` says that no inode shows a
difference except those that `MayTouch` lists, and `RunFrame` sums that up over a run. `Lifetime.Restart` and `Lifetime.WholeLife` lead from
such a run over a sync to a restarted system and to fsck.

Where the code does less than one might expect, the exact condition is proved: the buffer taken
is the least recently used as long as none is out of use for 65536 accesses (`LeastRecentlyUsed`,
`OldBufferSeemsNew`); `addoff` subtracts
exactly unless the amount is -0x8000 (`AddOffAdds`); readi's end-of-file test is exact under
`ReadLimitHolds` and passes the end in two concrete cases; a file's size after a write is the greater
of the old size and the end exactly if the end can be expressed as an offset (`SizeIsExact`), and a
byte at the last offset ends up behind the size (`LastByteIsBehindSize`); a chunk fits its block exactly up to
0x7FFF remaining bytes (`ChunkFits`); fsck's lookup reads the boot block where a middle block is
missing (`GetblknoAgrees`, `BootBlockIsTaken`); a fresh image is sound exactly from isize 3 on (`FreshPartition`);
init can be left waiting beside a dead child (`InitMissesOrphans`, `InitWaitsBesideOrphan`), and an
exit of init itself breaks the process table's invariant (`Doexit`). A file whose name cannot be
entered stays on disk, in use and in no directory (`Newfile`).

The inode allocator loses numbers. A pipe's number stays pending, that is handed out and free on
disk, because its inode is not written (`PipeInode`); and when i_open finds no slot for a new inode,
the number that i_alloc gave stays taken and the count of free inodes stays one short (`IOpen`). A
rescan finds both again, with the count as it is. It keeps the cached numbers and the count exact
if and only if every number still pending has at least fifty free numbers below it
(`RescanIsExact`). Otherwise the same number is cached while it is in use or uncounted: with a count
of zero i_alloc then takes its corrupt exit (`IAlloc` has the exact condition), which marks the
superblock so that nothing can be allocated any more. Two runs from a fresh image end there: in
`PipeAndFiles` every inode is in use, in `FullTable` two are free. What remains in every state, exact or
not, is `SafeNumbers`: cached numbers are in range, the count is never too high, and i_open refuses a
number that is in use.

Where comments in the repository and its code differ, the code is followed: writei's comment at its
psleep speaks of an empty pipe, the code waits for room; bread's description knows one meaning of a
set rewrite flag, the code also clears the buffer for 2, and only if the block was not cached.

## Model

| member | source | states |
|---|---|---|
| BufferCache.SomeBufferIsFree | uzi-nes-port/drivers/devio.c:151-161 | With fewer than four buffers held, freebuf's scan finds one that is not busy, so "no free buffers" is unreachable |
| BufferCache.EvictionIsTransparent | uzi-nes-port/drivers/devio.c:163-167 | Writing a dirty buffer out to reuse it keeps the whole cache invariant and shows clients nothing new: the logical disk is the same before and after |
| BufferCache.LoadShowsOneBlock | uzi-nes-port/drivers/devio.c:61-77 | Renaming a reusable buffer to an uncached block changes what clients see of that block alone, and no two buffers name one block |
| BufferCache.UpdateShowsOneBlock | uzi-nes-port/drivers/devio.c:79-82 | Taking, changing or releasing a named buffer in place changes what clients see of its own block alone |
| BufferCache.UnnamingIsTransparent | uzi-nes-port/drivers/devio.c:113-116 | Taking a buffer's name away (zerobuf) shows clients nothing new |
| BufferCache.ReleaseIsTransparent | uzi-nes-port/drivers/devio.c:95-98 | Releasing a buffer, dirty or clean, shows clients nothing new |
| BufferCache.SyncIsTransparent | uzi-nes-port/drivers/devio.c:120-128 | Writing a buffer out without clearing its dirty mark shows clients nothing new |
| BufferCache.SyncedAt | uzi-nes-port/drivers/devio.c:120-128 | After bufsync a block on the device is the data of the dirty buffer that names it, or what it was |
| BufferCache.SyncMakesDevicesCurrent | uzi-nes-port/drivers/devio.c:120-128 | After bufsync with nothing held, every block of every device is what clients see |
| BufferCache.Cache.Bfind | uzi-nes-port/drivers/devio.c:130-140 | Finds the one buffer that names the block, or reports that there is none |
| BufferCache.Cache.Freebuf | uzi-nes-port/drivers/devio.c:142-169 | Returns the buffer that is not busy with the greatest age, the last of equals; unless a stamp is ahead of the 16-bit clock, no other such buffer has a lower stamp. It is written out if dirty, with nothing else changed and nothing shown to clients |
| BufferCache.LeastRecentlyUsed | uzi-nes-port/drivers/devio.c:151-161 | Counting accesses without a bound, the buffer taken is the least recently used of those not busy, also when the clock has started over, as long as none has been out of use for 65536 accesses |
| BufferCache.OldBufferSeemsNew | uzi-nes-port/drivers/devio.c:151-156 | Two buffers, one out of use for 65536 accesses, of which the newer is taken |
| BufferCache.Cache.Bread | uzi-nes-port/drivers/devio.c:52-83 | A cached block is handed out from its buffer; otherwise the buffer with the lowest stamp is taken over; the clock, stamp, marks and what is written back are stated, and clients see what they saw unless the block is to be overwritten |
| BufferCache.Cache.Miss | uzi-nes-port/drivers/devio.c:61-82 | A block that is not cached: the LRU buffer is written back if dirty and then read (rewrite 0), left as it was (1) or cleared (2) |
| BufferCache.Cache.Bfree | uzi-nes-port/drivers/devio.c:95-107 | The new pool, device and result for the three dirty flags; the logical disk is unchanged |
| BufferCache.Cache.Zerobuf | uzi-nes-port/drivers/devio.c:109-118 | A block of zeroes that names no block; the logical disk is unchanged |
| BufferCache.Cache.Bufsync | uzi-nes-port/drivers/devio.c:120-128 | The devices become exactly the synced devices; the logical disk is unchanged |
| FreeList.ChainIsFunctional | uzi-nes-port/fs/filesys.c:484-506 | What the superblock array and the chained blocks hold determines the free stack |
| FreeList.ChainIsCanonical | uzi-nes-port/fs/filesys.c:543-551 | Conversely the stack determines nfree and every entry of the array in use, across the 50-entry boundary |
| FreeList.ChainFrame | uzi-nes-port/fs/filesys.c:497-506 | The chain depends on no block but those on the stack |
| FreeList.PushSpills | uzi-nes-port/fs/filesys.c:543-551 | Freeing onto a full array: the freed block takes the 50 entries over and the stack grows by that block |
| FreeList.PopInCore | uzi-nes-port/fs/filesys.c:488-495 | Allocating from the array takes the top of the stack off |
| FreeList.PopRefills | uzi-nes-port/fs/filesys.c:489-506 | The last entry of the array is 0 exactly when the stack is empty, and is otherwise a block that stores the next 50 entries |
| FreeList.StackIsSmall | uzi-nes-port/fs/filesys.c:474-553 | A duplicate-free stack of data blocks has at most as many entries as there are data blocks |
| Volume.PopTop | uzi-nes-port/fs/filesys.c:484-517 | Popping and zeroing the top keeps the free list good, with the array in core or refilled from the popped block itself; the top is 0 exactly when the stack is empty, and then tfree is 0 |
| Volume.PushBlock | uzi-nes-utils/fs/mkfs.c:124-132 | One push of the rebuilding loops of mkfs and fsck keeps the free list good, with or without a spill |
| Volume.Fmount | uzi-nes-port/fs/filesys.c:881-898 | Mounting fails exactly if the superblock is not marked or its sizes are wrong; otherwise it copies it, and the free stack in core is the one the device stores |
| Volume.Vol.PutBack | uzi-nes-port/drivers/devio.c:95-107 | The held block becomes the data given: on the device at once if it is released with 2, and with the device unchanged if with 1 |
| Volume.Vol.BlkAlloc | uzi-nes-port/fs/filesys.c:474-526 | Returns 0 with ENOSPC exactly when the stack is empty; otherwise pops the top and zeroes that block alone. The three corrupt exits and validblk's panic are asserted unreachable |
| Volume.Vol.ReloadFree | uzi-nes-port/fs/filesys.c:499-506 | The refill copies nfree and all 50 entries out of the block |
| Volume.Vol.BlkFree | uzi-nes-port/fs/filesys.c:530-553 | Pushes the block; 0 is ignored; no block but the freed one changes, and that only to take over a full array |
| Volume.Vol.FreeBlk | uzi-nes-port/fs/filesys.c:690-706 | Pushes exactly the blocks of the tree, in the order of the recursion, changes no other block, and holds one buffer per level (at most 3 of the 4), so that no panic of bread is reachable |
| Volume.KidFreeable | uzi-nes-port/fs/filesys.c:697-701 | While an indirect block is held, the tree of each of its entries can be freed: it was not touched by freeing later entries and does not contain the held block |
| BlockMap.PartitionMeaning | uzi-nes-port/fs/filesys.c:474-553 | Ownership spelled out: a stored block number is a data block, not free and stored at one position only; a data block stored nowhere is free |
| BlockMap.InstallChangesOnePointer | uzi-nes-port/fs/filesys.c:763-791 | Storing a freshly zeroed block at a missing position changes what is stored there and at no other position of any inode |
| BlockMap.InstallKeepsPartition | uzi-nes-port/fs/filesys.c:763-791 | Moving the top of the free stack to a missing position keeps every data block in exactly one place |
| BlockMap.InstallKeepsFiles | uzi-nes-port/fs/filesys.c:733-791 | Installing an indirect block or the requested block changes no file's contents, no other translation and no inode block |
| BlockMap.LookupIsInjective | uzi-nes-port/fs/filesys.c:716-796 | Distinct allocated logical blocks, of one file or of two, are distinct disk blocks |
| BlockMap.DataWriteKeepsPartition | uzi-nes-port/kernel/scall1.c:578-593 | Writing the data of a file block keeps every stored block number and so the ownership of every block |
| BlockMap.BlocksAreConserved | uzi-nes-port/fs/filesys.c:474-553 | Free blocks and blocks in use together are always fsize - isize |
| FileSystem.FileSys.AllocSlot | uzi-nes-port/fs/filesys.c:733-742 | Bmap's allocation into an inode slot: the zeroed block is in the slot and the inode dirty, or there is no space and nothing changed |
| FileSystem.FileSys.AllocEntry | uzi-nes-port/fs/filesys.c:784-791 | Bmap's allocation into an indirect block that is held: the entry holds the new block, every block is still in one place, or nothing changed |
| FileSystem.FileSys.Descend | uzi-nes-port/fs/filesys.c:773-793 | One level of bmap's walk returns what the position stores; in read mode or if it is present nothing changes |
| FileSystem.FileSys.BmapIndirect | uzi-nes-port/fs/filesys.c:744-796 | Bmap beyond the direct blocks; also when allocation fails between two levels every block is in exactly one place and no file's contents change |
| FileSystem.FileSys.Bmap | uzi-nes-port/fs/filesys.c:716-796 | Returns the translation of the logical block; read mode changes nothing; write mode allocates it, changes no other translation and no file's contents, and returns NULLBLK only with an empty free stack |
| FileSystem.Walk | uzi-nes-port/fs/filesys.c:744-782 | The arithmetic of the walk: slot, shifts and indices address the position of the logical block, for all 65536 |
| FreeOrder.SlotsAreOwned | uzi-nes-port/fs/filesys.c:665-680 | The blocks that truncation frees are exactly the blocks the inode owns |
| FreeOrder.OwnedSlotsNoDup | uzi-nes-port/fs/filesys.c:665-680 | They are pairwise different, not free, and data blocks |
| FreeOrder.LaterBlocksFirst | uzi-nes-port/fs/filesys.c:665-702 | The order in terms of the file: of two blocks of it, through all three ways of addressing, the later one is freed first, so that the stack hands them out again from the start of the file on |
| FreeOrder.HolderComesLast | uzi-nes-port/fs/filesys.c:690-706 | An indirect block is freed after every block whose number it holds |
| FreeOrder.OrderFrame | uzi-nes-port/fs/filesys.c:690-706 | The tree that freeblk sees depends only on the blocks of that tree |
| FreeOrder.TruncationKeepsPartition | uzi-nes-port/fs/filesys.c:665-682 | With them pushed and the slots cleared every block is again in exactly one place and no other inode's tree changed |
| FileSystem.FileSys.Ftrunc | uzi-nes-port/fs/filesys.c:665-687 | Pushes exactly the inode's blocks, raises tfree by their number, clears addresses and size, and leaves every other file's contents, blocks and inode; the invariant, so every precondition of the buffer cache, is kept |
| FileBytes.AddOffAdds | uzi-nes-port/kernel/scall1.c:647-664 | Addoff keeps offsets in 0..511, and adds exactly modulo the range of block numbers if and only if the amount is not -0x8000 |
| FileBytes.ReadLimitIsExact | uzi-nes-port/kernel/scall1.c:471-482 | The end-of-file computation of readi in 16 bits gives the bytes left in the file if and only if ReadLimitHolds, a condition on size, offset and count |
| FileBytes.ShortReadsAreExact | uzi-nes-port/kernel/scall1.c:471-482 | It is exact for every read of at most 32257 bytes that starts at or before the end, through the 64-block shortcut |
| FileBytes.LongReadPassesEnd | uzi-nes-port/kernel/scall1.c:474-481 | 32258 bytes from 64 blocks before the end run one byte past it |
| FileBytes.EmptyReadPastEnd | uzi-nes-port/kernel/scall1.c:471-482 | A read of nothing just behind the end sets out to read 65535 bytes |
| FileBytes.ChunkFits | uzi-nes-port/kernel/scall1.c:507-509 | A chunk stays in its block if and only if the remaining count is at most 0x7FFF, min being signed |
| FileBytes.FilledStep | uzi-nes-port/kernel/scall1.c:500-515 | One round of readi's loop extends the bytes read by those of the file, holes as zeroes |
| FileBytes.WroteStep | uzi-nes-port/kernel/scall1.c:580-595 | One round of writei's loop extends the bytes written and changes no other byte of any file |
| FileBytes.WriteThenRead | uzi-nes-port/kernel/scall1.c:457-635 | A read where a complete write was made returns the data written, in files and around the ring of a pipe |
| FileSystem.FileSys.ReadLoop | uzi-nes-port/kernel/scall1.c:498-519 | The loop reads exactly the bytes of the file or ring, moves base, offset and pipe size by their number, and wakes the other end of a pipe if and only if it moved a byte |
| FileSystem.FileSys.WriteLoop | uzi-nes-port/kernel/scall1.c:578-607 | The loop writes a prefix of the data, all of it unless the free stack is empty, and nothing else; a short write stops at a block that the file did not have |
| FileSystem.FileSys.Readi | uzi-nes-port/kernel/scall1.c:457-536 | For files, directories and pipes: the count, the bytes in memory, the rest of memory, offset, pipe size and wakeups; ENODEV otherwise; a pipe sleeps exactly when it is empty with another user |
| FileSystem.FileSys.Writei | uzi-nes-port/kernel/scall1.c:539-635 | Changes exactly the bytes it wrote. A file's size becomes the greater of the old size and the offset reached (the offset itself if nothing was written), and that is the greater of the old size and the end if and only if the end is below 2^25; a pipe without room sleeps, or fails with EPIPE and SIGPIPE for its last user; a short write leaves an empty free stack and ENOSPC, and stops at a block that was missing |
| FileSystem.SizeIsExact | uzi-nes-port/kernel/scall1.c:609-618 | The size after a write is the greater of the old size and the end if and only if the end can be expressed as an offset |
| FileSystem.LastByteIsBehindSize | uzi-nes-port/kernel/scall1.c:609-618 | One byte written at the last offset: the offset starts over, the file stays empty, and its block lies behind its size |
| BlockMap.SameDataBlocks | uzi-nes-port/fs/filesys.c:716-796 | What is written to inode blocks, the superblock and free blocks changes no file's blocks and contents |
| FileBytes.WrittenWithin | uzi-nes-port/kernel/scall1.c:578-607 | A write reaches no block behind its end: a file without blocks behind its size has none behind its new size |
| Inode.EncodeDecode | uzi-nes-port/fs/filesys.c:643-647 | Writing one 64-byte inode of a block reads back as that inode and leaves the other seven as they were |
| Inode.InodeFormat | uzi-nes-port/include/unix.h:116-126 | Mode, links, size and the twenty addresses are at their words of the 64 bytes |
| Inode.CoherentUpdate | uzi-nes-port/include/unix.h:174-181 | Changing a referenced inode in core keeps the table coherent if it is marked dirty, unlinked or equal to the disk |
| InodeTable.WriteBack | uzi-nes-port/fs/filesys.c:636-649 | Writing a slot back makes the disk equal to the slot, changes no other inode on disk, and keeps ownership and coherence |
| InodeTable.LoadSlot | uzi-nes-port/fs/filesys.c:210-219 | Reusing an unreferenced slot for an inode that is not in the table changes the current contents of no inode and keeps one slot per inode |
| InodeTable.Inodes.WrInode | uzi-nes-port/fs/filesys.c:636-649 | Its inode on disk becomes the one in core, on the device itself and not only in the buffers; every other inode number reads as before, the mark is cleared, and no data block changes |
| InodeTable.Inodes.IFree | uzi-nes-port/fs/filesys.c:457-470 | Counts the inode as free and caches its number unless fifty are cached |
| InodeTable.Inodes.IDeref | uzi-nes-port/fs/filesys.c:608-632 | Drops one reference; the last one writes a changed inode through to the device, and for an unlinked one frees its blocks and its number; a pipe is woken first; no other slot, inode or file changes, and this one only if it was the last reference to an unlinked one; all invariants of blocks, table and numbers are kept, whether the numbers are exact or not |
| InodeTable.Inodes.WriteLast | uzi-nes-port/fs/filesys.c:624-631 | The write after the last reference, through to the device, with the mode cleared and the number freed exactly if there are no links; no data block, no other slot and no other inode changes |
| InodeTable.Inodes.Scan | uzi-nes-port/fs/filesys.c:421-433 | The rescan lists the first fifty inodes that are free on disk, in order, and nothing else changes |
| InodeTable.Inodes.IAlloc | uzi-nes-port/fs/filesys.c:395-451 | For every state: the number, the count one less, the cache and the pending numbers; the corrupt exit if and only if the count is zero and a number is cached or, for a rescan, free on disk; 0 otherwise if and only if the cache is empty and every number is in use. With exact numbers, and none that a rescan would find pending, the number was not in use and the corrupt exit is not taken |
| InodeTable.Inodes.PopNumber | uzi-nes-port/fs/filesys.c:406-413 | The number taken from the cache: count and cache one less, in range, and with exact numbers free on disk, empty and in use nowhere; no other number changes |
| InodeTable.Inodes.Rescan | uzi-nes-port/fs/filesys.c:415-440 | The sync and the scan: the numbers stay exact if and only if fifty free numbers are below every number still pending; it finds nothing if and only if no inode is free on disk, and then the count is zero; no inode's contents change |
| InodeTable.RescanIsExact | uzi-nes-port/fs/filesys.c:415-440 | The exact condition for a rescan to keep the cached numbers free and the count right, for all disks and pending numbers: every number that the sync left pending has at least fifty free numbers below it |
| InodeTable.RescanLists | uzi-nes-port/fs/filesys.c:421-433 | The step behind it: a number that is free on disk, pending or not, is listed if and only if fewer than fifty free numbers are below it |
| InodeTable.TakeNumber | uzi-nes-port/fs/filesys.c:406-413 | The cached number handed out is in range, and with exact numbers the count is not zero and the number is free, empty and in use nowhere; count and cache stay right |
| InodeTable.ReleaseNumber | uzi-nes-port/fs/filesys.c:466-469 | Freeing keeps what is known of cache and count, also when the number is dropped because fifty are cached; no other number changes between used and free |
| InodeTable.WriteUsed | uzi-nes-port/fs/filesys.c:636-649 | Writing an inode in use keeps what is known of cache and count, it is no longer pending, and no inode changes between used and free |
| InodeTable.TransferKeepsNumbers | uzi-nes-port/kernel/scall1.c:457-635 | Reading and writing files and pipes keeps what is known of inode numbers |
| InodeTable.Inodes.FindSlot | uzi-nes-port/fs/filesys.c:190-204 | The search from behind the last one finds the inode's slot if it is in the table, else the last unreferenced slot in that order if there is one |
| InodeTable.Inodes.IGet | uzi-nes-port/fs/filesys.c:190-230 | The slot of the inode with one more reference; no inode's current contents change and no referenced slot is taken; it fails exactly for an unlinked or untyped inode or, with ENFILE, a full table |
| InodeTable.Inodes.IOpen | uzi-nes-port/fs/filesys.c:162-235 | For a number: exactly when it fails, and the slot with one more reference otherwise. For 0: succeeds if and only if i_alloc gives a number that is free on disk and in no slot, and there is an unreferenced slot; the inode is then empty, with one reference. With a full table the number is taken, pending and in no slot, and the count one less. A rescan may be due, with any numbers pending; when the corrupt exit is taken is exact |
| InodeTable.Inodes.NewInode | uzi-nes-port/fs/filesys.c:342-357 | A new empty file with one link that is on the device when the call returns, so that its number is not pending; other referenced slots, all data blocks, and every other inode and file are as before; it fails exactly without a number from i_alloc, with one that is not free, or with a full table, and then the number is lost as in IOpen |
| InodeTable.Inodes.Setftime | uzi-nes-port/fs/filesys.c:862-872 | Marks an inode dirty, which nobody can see |
| InodeTable.Inodes.Sync | uzi-nes-port/kernel/scall1.c:840-869 | Writes every referenced changed inode, a superblock that stores the free stack, the cached numbers and both counts, and all buffers: the device then equals what clients see, and no inode's contents change |
| InodeTable.FreshNumbers | uzi-nes-utils/fs/mkfs.c:121 | Mkfs' count of free inodes is right, and exact with an empty cache and nothing pending |
| Directory.Namecomp | uzi-nes-port/fs/filesys.c:320-332 | True if and only if the two names, cut at a NUL, a slash or 14 characters, are equal |
| Directory.Filename | uzi-nes-port/fs/filesys.c:307-316 | The rest of the path behind its last slash |
| Directory.SrchDir | uzi-nes-port/fs/filesys.c:115-140 | Finds a number if and only if the directory lists the name, and then that number |
| Directory.FindEntry | uzi-nes-port/fs/filesys.c:259-270 | The search reads entry by entry and stops behind the first with the name, or at the end of the directory |
| Directory.BackUpIsExact | uzi-nes-port/fs/filesys.c:281-287 | Going back 16 bytes, across a block boundary too, leads to the very entry that was read |
| Directory.EntryWritten | uzi-nes-port/fs/filesys.c:289-291 | Writing 16 bytes at an entry's place replaces that entry and no other |
| Directory.LinkUpdatesMap | uzi-nes-port/fs/filesys.c:244-303 | With unique names, replacing an entry inserts, renames or removes exactly one name, and names stay unique |
| Directory.LinkedBounds | uzi-nes-port/fs/filesys.c:296-300 | The length after a link is a whole number of blocks that reaches past the entry and the old length by less than a block |
| Directory.ListedOnce | uzi-nes-port/fs/filesys.c:115-140 | With unique names a name has one number |
| Directory.ChLink | uzi-nes-port/fs/filesys.c:244-303 | Replaces the first entry with the old name (or appends), rounds the length up to blocks, and updates the map for these names alone. On every exit the directory is open, well formed and without a gap, and no other slot, inode or file differs; a failure changes no entry and says why: no permission, the old name not in the directory, or no space for an entry at its end |
| Links.DirectoryStays | uzi-nes-port/fs/filesys.c:115-140 | A directory that is not written keeps its form and its entries |
| Links.LinkAndFind | uzi-nes-port/fs/filesys.c:115-303 | After a successful ch_link, srch_dir for the new name finds the number just linked |
| Links.FreshRoot | uzi-nes-utils/fs/mkfs.c:98-148 | The root directory of a fresh image is well formed, with unique names, and lists . and .. and nothing else |
| Links.LinkName | uzi-nes-port/fs/filesys.c:244-303 | Ch_link over the whole inode table: tables, numbers and every other file stay; it fails with permission only if the old name is not listed, or, for a new entry, with an empty free stack |
| Links.Newfile | uzi-nes-port/fs/filesys.c:342-371 | A new empty file under its name: number, link count, references and entry; no other file differs; if the name cannot be entered the inode stays on disk, in use and in no directory. With exact numbers, and none that a rescan would find pending, there is no number only if all are in use or the table is full; the corrupt exit needs a count of zero |
| Links.Unlink | uzi-nes-port/kernel/scall1.c:318-355 | The name is gone and the file has a link less; with its last link and reference its blocks and number are free, otherwise its contents stay; with the last reference the inode is written through to the device |
| Links.NameEntered | uzi-nes-port/fs/filesys.c:244-303 | A new entry adds exactly one name to the directory's map |
| Links.NameCleared | uzi-nes-port/fs/filesys.c:244-303 | A cleared entry takes exactly one name out of it |
| Mkfs.Mkfs | uzi-nes-utils/fs/mkfs.c:86-156 | The image has a superblock that stores the descending free stack, the counts, the root directory and the first inodes |
| Mkfs.FreshPartition | uzi-nes-utils/fs/mkfs.c:110-148 | A fresh image has every data block in exactly one place if and only if isize is at least 3 |
| Mkfs.AllocateAll | uzi-nes-port/fs/filesys.c:474-526 | On a volume mounted on a fresh image blk_alloc yields isize+1, isize+2, ... up to fsize-1 in this order, and then 0 with ENOSPC |
| Mkfs.FreshLayout | uzi-nes-utils/fs/mkfs.c:110-151 | The invariant of all file operations holds when a fresh image is mounted |
| Mkfs.SuperBlockFields | uzi-nes-utils/fs/mkfs.c:113-121 | Every superblock field reads back from the block that was written |
| Fsck.GetblknoAgrees | uzi-nes-utils/fs/fsck.c:636-668 | Getblkno equals the kernel's translation if and only if the block is direct or singly indirect, there is no double-indirect block, its middle block is present, or the boot block is 0 at that index |
| Fsck.BootBlockIsTaken | uzi-nes-utils/fs/fsck.c:636-668 | A concrete disk on which fsck looks a missing block up as a block named by the boot block |
| Fsck.GetblknoAgreesEverywhere | uzi-nes-utils/fs/fsck.c:636-668 | With an all-zero boot block they agree on all 65536 logical blocks |
| Fsck.Check.Pass1 | uzi-nes-utils/fs/fsck.c:122-283 | With a zero boot block and file sizes for which its loops end: marked are exactly the owned blocks at positions that pass 1 looks at; the link map is right; the number of free inodes that it computes is that of the inodes with a zero mode, and it asks to fix the superblock if and only if that holds another number |
| Fsck.BitmapIsExact | uzi-nes-utils/fs/fsck.c:190-268 | The bitmap is the complement of the free list if and only if every owned position is one that pass 1 looks at; `Lifetime.AllVisited` says which runs lead to such disks |
| Fsck.RebuildKeepsPartition | uzi-nes-utils/fs/fsck.c:308-323 | Writing only to free blocks and the superblock keeps all inodes and trees; every block is again in one place |
| Fsck.Check.Pass2 | uzi-nes-utils/fs/fsck.c:289-330 | The superblock stores a free stack of exactly the unmarked blocks, descending, and nothing but it and free blocks was written |
| Fsck.CheckImage | uzi-nes-utils/fs/fsck.c:44-115 | Both passes over an image on which pass 1 looks at every owned position: the same free blocks, in descending order, the same owners and counts, no other block written, and the question about the number of free inodes exactly if it is wrong; `Lifetime.CheckStopped` discharges the conditions for what a run leaves |
| Fsck.FreshUnmarked | uzi-nes-utils/fs/fsck.c:308-323 | On a fresh image the unmarked blocks are mkfs' free stack |
| Fsck.CheckFreshImage | uzi-nes-utils/fs/fsck.c:44-115 | Both passes over a fresh image rebuild mkfs' free list, with the same fields in the superblock |
| Pipe.ReadTakesNext | uzi-nes-port/kernel/scall1.c:485-522 | A read takes the next unread bytes in the order they were sent |
| Pipe.WriteAppends | uzi-nes-port/kernel/scall1.c:562-605 | A write appends to the unread bytes and overwrites none, as long as they are at most 8192 |
| Pipe.PipePair.Read | uzi-nes-port/kernel/scall1.c:485-522 | Delivers the next bytes sent, at most as many as wanted; sleeps exactly if the pipe is empty with a writer; wakes a sleeping writer if and only if it took a byte |
| Pipe.PipePair.Write | uzi-nes-port/kernel/scall1.c:562-605 | Appends what it wrote; sleeps exactly if there is too little room with a reader; without a reader the result is -1 with EPIPE and SIGPIPE |
| Pipe.PipePair.CloseReader | uzi-nes-port/fs/filesys.c:615-621 | The wakeup before the reference is dropped leaves no writer asleep on a pipe without a reader |
| Pipe.PipePair.CloseWriter | uzi-nes-port/fs/filesys.c:615-621 | Nor a reader asleep on a pipe without a writer |
| Pipe.PipePair.CloseLast | uzi-nes-port/fs/filesys.c:618-631 | The blocks of the ring and the inode number are free again; no other slot, inode or file changes |
| Pipe.BothAsleep | uzi-nes-port/kernel/scall1.c:485-521 | In a pipe's invariant both ends sleep only if the writer wants to write more than 8192 bytes; otherwise the other end of a sleeper is awake |
| Pipe.PipeSurvives | uzi-nes-port/kernel/scall1.c:457-635 | What other calls do leaves a pipe's invariant and its unread bytes |
| Pipe.PipeInode | uzi-nes-port/kernel/scall1.c:212-232 | A new pipe: two references, no links, no blocks, and a number that stays pending because the inode is not written; other slots, inodes and files are as before; it fails exactly without a number from i_alloc, with one that is not free, or with a full table, and then the number is lost as in IOpen |
| PipeWait.SleepsForAReason | uzi-nes-port/kernel/scall1.c:485-574 | Whenever the process table and a pipe fit together, which all steps below keep: the slot of the reader sleeps on the pipe's inode only with an empty pipe and a writer, that of the writer only without room and with a reader, and both only if the writer wants to write more than 8192 bytes |
| PipeWait.Read | uzi-nes-port/kernel/scall1.c:485-522 | The current process reads: its slot sleeps in the table exactly if the pipe is empty with a writer; if it takes a byte the writer's slot no longer sleeps there |
| PipeWait.Write | uzi-nes-port/kernel/scall1.c:562-605 | The current process writes: its slot sleeps exactly if there is too little room with a reader; without one SIGPIPE is pending, unless ignored; after a byte the reader's slot no longer sleeps there |
| PipeWait.Close | uzi-nes-port/fs/filesys.c:608-632 | Closing an end while the other is open leaves no slot asleep on the inode |
| PipeWait.Signal | uzi-nes-port/kernel/process.c:392-411 | A signal, for any process: it is pending unless ignored, and one that sleeps at an end is then ready, so that this end will look at the pipe again; the other end is as it was |
| PipeWait.Exit | uzi-nes-port/kernel/scall2.c:505-540 | The exit of the process at one end, as after a deadly signal: the end is closed, the other one is awake, and nobody sleeps on the pipe |
| PipeWait.Dispatch | uzi-nes-port/kernel/process.c:265-291 | The choice of the next process keeps table and pipe together |
| Process.ReachesInit | uzi-nes-port/kernel/process.c:19-42 | Every process's chain of parents reaches init |
| Process.WokenStaysGood | uzi-nes-port/kernel/process.c:242-254 | Waking keeps the invariant of the process table |
| Process.SignalledStaysGood | uzi-nes-port/kernel/process.c:392-411 | So does a signal |
| Process.AsleepStaysGood | uzi-nes-port/kernel/process.c:216-237 | So does going to sleep, if a process that waits has no dead child |
| Process.PreemptedStaysGood | uzi-nes-port/kernel/process.c:447-453 | So does the end of a time slice |
| Process.DispatchedStaysGood | uzi-nes-port/kernel/process.c:317-350 | So does running a ready process, after which it alone runs |
| Process.ForkedStaysGood | uzi-nes-port/kernel/process.c:76-106 | So does a fork: one process runs, numbers differ, the child's parent lives |
| Process.ExitedStaysGood | uzi-nes-port/kernel/scall2.c:515-540 | So does the exit of any process but init: children go to init, a waiting parent is woken |
| Process.CollectedStaysGood | uzi-nes-port/kernel/scall2.c:455-472 | So does taking a dead child out of the table |
| Process.InitMissesOrphans | uzi-nes-port/kernel/scall2.c:518-538 | Init is left waiting beside a dead child if and only if a process whose parent is another one exits and leaves dead children |
| Process.InitWaitsBesideOrphan | uzi-nes-port/kernel/scall2.c:518-538 | A concrete table in which it happens |
| Process.ReadyIsChosen | uzi-nes-port/kernel/process.c:49-67 | A process that stays ready sees at most nineteen choices of others |
| Process.ChoiceComesNearer | uzi-nes-port/kernel/process.c:53-66 | Each choice brings every other ready process nearer in the round |
| Process.Pigeonhole | uzi-nes-port/kernel/process.c:126-133 | Numbers tried in vain are different and all in the table, so there are no more of them than slots |
| Process.ProcTable.Getproc | uzi-nes-port/kernel/process.c:49-67 | Ends if some process is ready, with the first ready one behind the cursor; no process is running, so "extra running" is unreachable |
| Process.ProcTable.FreshPid | uzi-nes-port/kernel/process.c:124-133 | Ends after at most 21 tries with a number in 1..32001 that no process has |
| Process.ProcTable.PtabAlloc | uzi-nes-port/kernel/process.c:110-140 | The first empty slot as a forking process with such a number, or -1 exactly if there is none |
| Process.ProcTable.Dofork | uzi-nes-port/kernel/process.c:76-106 | The table after the fork, with the child current, or no change if it is full |
| Process.ProcTable.Psleep | uzi-nes-port/kernel/process.c:216-237 | The process sleeps, pauses or waits according to the event; "voodoo" is unreachable |
| Process.ProcTable.Wakeup | uzi-nes-port/kernel/process.c:242-254 | Exactly the processes that wait for the event become ready |
| Process.ProcTable.Ssig | uzi-nes-port/kernel/process.c:392-411 | Unless it ignores the signal, the process has it among its pending ones, besides those it had, waits for nothing, and is ready if it slept, waited or paused; nobody else changes |
| Process.ProcTable.Dispatch | uzi-nes-port/kernel/process.c:265-291 | The chosen process becomes the current and only running one |
| Process.ProcTable.WaitOnce | uzi-nes-port/kernel/scall2.c:422-479 | No child (exactly then), an interrupt (exactly with a caught signal and a child), the first dead child of the caller in the table removed with its number and exit value, or asleep with no dead child |
| Process.ProcTable.Doexit | uzi-nes-port/kernel/scall2.c:505-540 | The table after the exit, slot by slot, with the 16-bit exit value; the invariant survives if and only if it is not init that exits |
| Args.Wargs | uzi-nes-port/kernel/scall2.c:297-329 | Succeeds if and only if the strings with their NULs take at most 499 bytes; then the block holds count, length and strings, whatever it held, and no other block changes |
| Args.PackOne | uzi-nes-port/kernel/scall2.c:310-322 | One string is copied with its NUL unless the 500th byte is reached |
| Args.FlatAt | uzi-nes-port/kernel/scall2.c:310-322 | Where each string lies among the packed bytes |
| Args.Rargs | uzi-nes-port/kernel/scall2.c:331-360 | Below the given address: a vector of as many addresses as strings, then NULL, then the strings without gap or overlap; the rest of memory is untouched |
| Args.VectorStays | uzi-nes-port/kernel/scall2.c:331-360 | A vector depends only on the memory it occupies |
| Args.PassVectors | uzi-nes-port/kernel/scall2.c:176-292 | Execve succeeds in packing if and only if arguments and environment each take at most 499 bytes; then, with room below the given address, the program's stack holds both vectors, the environment below the arguments, with argc and argv below that, and memory outside it is as before; otherwise memory is untouched |
| History.LastByteIs | uzi-nes-port/kernel/scall1.c:578-607 | The byte that a log of writes and truncations leaves at a position is the one of the last change that reaches it |
| History.PutGood | uzi-nes-port/kernel/scall1.c:539-635 | After a write the file holds what the longer log says, and has no blocks behind its size while ends stay in range |
| History.EntryGood | uzi-nes-port/fs/filesys.c:244-303 | The same for a directory and a new entry, and its names stay unique |
| History.NewfileGood | uzi-nes-port/fs/filesys.c:342-371 | The same for a new file and its directory together |
| History.FilesAfter | uzi-nes-port/kernel/scall1.c:18-869 | A step keeps what is known of all files that it does not touch |
| Session.StateAfter | uzi-nes-port/kernel/scall1.c:18-869 | The invariant of a run after a step that touched only some inodes, and at most one pipe |
| Session.System.DoOpen | uzi-nes-port/fs/filesys.c:162-235 | Succeeds exactly for a linked inode that is in the table or finds a slot, which has one more reference; no other slot's references change, and nothing is shown to anybody else |
| Session.System.DoClose | uzi-nes-port/kernel/scall1.c:79-96 | A reference less in one slot; the file is emptied and free exactly if it was the last to an unlinked file; otherwise nothing changes |
| Session.System.DoTruncate | uzi-nes-port/kernel/scall1.c:138-140 | The file has no blocks and no size, and nothing else of its inode, the table or any other file changes |
| Session.System.DoRead | uzi-nes-port/kernel/scall1.c:377-396 | Returns as many bytes as are in the file, and they are those written last at each position; no references change |
| Session.System.DoWrite | uzi-nes-port/kernel/scall1.c:410-429 | Logs what it wrote and grows the size to its end; a short count only on a full disk; of the inode only addresses and size change, and no other slot or file |
| Session.System.DoCreate | uzi-nes-port/kernel/scall1.c:149-156 | A new file is in the directory under its name, with one link and one reference; nothing else changed the names, the directory's inode but for its size and addresses, or any other slot's references; the directory's slot gives up the reference that n_open took. With a new name, a slot, exact numbers of which one is free, and none pending that a rescan due would find, it fails only on a full disk, and then changes no name. The numbers stay exact unless a rescan finds one pending, and the superblock is marked as corrupt only with a count of zero |
| Session.System.DoRemove | uzi-nes-port/kernel/scall1.c:318-355 | Succeeds if and only if the name is that of a regular file that can be opened; then exactly that name is gone from the directory. The file is emptied and free if and only if that was its only link and nobody had it open; otherwise it has a link less, and its size, its blocks and every block of its contents are as before. No other slot's references change but the directory's, as in DoCreate |
| Session.RemovalKeepsBytes | uzi-nes-port/kernel/scall1.c:318-355 | Every byte of a removed file that goes on existing is the one written last before the removal |
| Session.System.DoSync | uzi-nes-port/kernel/scall1.c:840-869 | The device equals what clients see, the superblock is saved, referenced slots are marked clean, and nobody sees a difference |
| Session.System.DoPipe | uzi-nes-port/kernel/scall1.c:194-236 | A new empty pipe in an unreferenced slot, with a reference for each end and a number of its own, whenever there is a slot and the numbers are as DoCreate needs them; otherwise perhaps not, and then no pipe and no file differs |
| Session.System.DoReadPipe | uzi-nes-port/kernel/scall1.c:485-522 | One attempt to read takes the next bytes sent; every other pipe and file is as before |
| Session.System.DoWritePipe | uzi-nes-port/kernel/scall1.c:562-605 | One attempt to write appends to what was sent; every other pipe and file is as before |
| Session.System.DoCloseEnd | uzi-nes-port/fs/filesys.c:608-632 | Closing an end wakes the other and drops one reference; the last end takes the pipe, its blocks and its number away; no other slot's references change |
| Session.System.Serve | uzi-nes-port/kernel/scall1.c:18-869 | Each call does what `Served` says: result, log of changes, directory names, references, pipes; only inodes that it names change; the numbers stay exact as `Counted` says, and the system is sound unless the superblock is marked as corrupt |
| Session.System.Run | uzi-nes-port/kernel/scall1.c:18-869 | Any sequence of opens, creations, removals, closes, truncations, reads, writes, syncs and uses of pipes: a trace of states from the first to the last, of which each two in a row differ by one served call (`StepDone`), and a good system at the end: every block in one place, every file as last written, every directory with unique names, every pipe intact. All calls are served unless one marks the superblock as corrupt |
| Session.RunFrame | uzi-nes-port/kernel/scall1.c:18-869 | Over every part of such a trace: an inode that no call of it touched has the same contents, blocks and inode, and only touched inodes are in the longer log |
| Session.SoundMeans | uzi-nes-port/fs/filesys.c:474-796 | In every state of a run every data block is in exactly one place and the count of free blocks is right; the count of free inodes is never too high, and right while the numbers are exact |
| Session.PipesGoOn | uzi-nes-port/kernel/scall1.c:485-605 | In every state of a run one of a pipe's two processes can go on, unless the writer wants to write more than 8192 bytes |
| Lifetime.FreshIsSound | uzi-nes-utils/fs/mkfs.c:86-156 | Every fresh image with isize from 3 to 8193 is one that a run can start on, with the root directory's block as its only change |
| Lifetime.Boot | uzi-nes-port/kernel/process.c:188-194 | Starting fails exactly without a filesystem; otherwise the system is sound, with the owners, free blocks, files and free inodes of the device |
| Lifetime.SavedIsSound | uzi-nes-port/kernel/scall1.c:840-869 | A synced device on which every open inode is linked is such an image, with exact numbers if they were and nothing is pending |
| Lifetime.Shutdown | uzi-nes-port/kernel/scall1.c:840-869 | After a sync without pipes and removed open files the device holds the owners, free blocks, files, inodes and counts that the system saw |
| Lifetime.Restart | uzi-nes-port/kernel/process.c:188-194 | A sync, and a start from what is then on the device: the same files, inodes, owners, free stack, cached numbers and counts, in a sound system |
| Lifetime.AllVisited | uzi-nes-utils/fs/fsck.c:190-268 | If no write of a run ended behind block 65534, fsck's pass 1 looks at every owned position |
| Lifetime.CheckStopped | uzi-nes-utils/fs/fsck.c:44-115 | Fsck on what such a run left rebuilds the same set of free blocks, and the disk is sound with the same files; pass 1 asks about the number of free inodes exactly if the superblock's is not that of the inodes i_alloc would find, which it is when the numbers were exact |
| Lifetime.ZeroModesAreFree | uzi-nes-utils/fs/fsck.c:136-137 | On a sound image the inodes that fsck counts as free are those that i_alloc's rescan takes for free |
| Lifetime.WholeLife | uzi-nes-utils/fs/fsck.c:44-115 | Mkfs, a start, any calls, a sync and fsck: with every write in range, no pipe or removed file open at the end and no mark of a corrupt superblock, the rebuilt free list is the set of blocks that the system had free, and with exact numbers of which none is pending pass 1 asks nothing about their count |
| Exhaustion.NextFile | uzi-nes-port/fs/filesys.c:342-451 | With exact numbers, a slot and a free number newfile's inode is made: one slot and one number fewer, nothing more pending |
| Exhaustion.FirstPipe | uzi-nes-port/kernel/scall1.c:194-236 | The same for a pipe on a system that has allocated nothing: its number is the only one pending |
| Exhaustion.LoseNumber | uzi-nes-port/fs/filesys.c:162-204 | Asking for a new inode with a full table loses a number: pending, in no slot, count and cache one less |
| Exhaustion.NoMore | uzi-nes-port/fs/filesys.c:395-451 | With count and cache at zero and a pending number that the sync does not write, asking for a new inode marks the superblock as corrupt, although that number is free on disk |
| Exhaustion.PipeAndFiles | uzi-nes-port/fs/filesys.c:395-451 | A run on every fresh image with isize 3 that ends so: a pipe, five files and one more request; the pipe's number is found by the rescan with a count of zero |
| Exhaustion.FullTable | uzi-nes-port/fs/filesys.c:162-204 | A run on every fresh image with isize 5 that ends so: twenty files fill the table, two requests lose two numbers, and the next one marks the superblock as corrupt with two inodes free on disk and in no slot |

## Left out

- Vol: the device is the same for the whole mount table; one mounted filesystem is modelled at a time, others only as untouched devices.
- FileSystem.FileSys.Bmap: block-device inodes, for which bmap returns its argument, and with them the device branches of readi, writei, i_deref and f_trunc.
- BufferCache.Cache.Bread: transfers succeed; EIO is not modelled.
- Volume.Fmount: a marked superblock with plausible sizes whose free list is damaged.
- FileSystem.FileSys.ReadLoop: a remaining count above 0x7FFF, for which min is negative and a chunk leaves its block (`ChunkFits` says so); Readi and Writei require what keeps counts below it, and room in memory.
- FileSystem.FileSys.WriteLoop: the same.
- FileSystem.FileSys.Readi: the same, of the count that the end-of-file test leaves.
- FileSystem.FileSys.Writei: the same, for files.
- InodeTable.Inodes.IDeref: the reference count is stored after the writes instead of before, which no other process can see, so that the slot counts as referenced while it is written.
- InodeTable.Inodes.NewInode: the new node is marked dirty for the moment between its change and its write.
- InodeTable.Inodes.IAlloc: after the mark of a corrupt superblock (s_mounted is 1) i_alloc, i_free, blk_alloc and blk_free return at once and _sync leaves the superblock alone; this is not modelled, and a run ends there.
- InodeTable.Inodes.Sync: writes the superblock also when it was not modified (s_fmod), and only for the one mounted filesystem.
- InodeTable.Inodes.IOpen: isize is at most 8193, beyond which inode numbers do not fit in 16 bits; the device number and c_magic are not modelled.
- Directory.ChLink: the permission check is a parameter; access times; directories of 32766 blocks or more, where a signed block count overflows; oldname and newname are sequences of characters rather than addresses.
- Directory.SrchDir: the i_open of the number it finds is InodeTable.Inodes.IOpen; n_open's walk along a path and mount points.
- Fsck.Check.Pass1: every repair question is answered no; sizes for which its 16-bit loops never end (isize above 8193, a file whose last block is 65535); a boot block that is not zero, for which GetblknoAgrees applies.
- Fsck.CheckImage: images with a block behind a file's size, which BitmapIsExact is about, and a boot block that is not zero.
- Fsck.Check.Pass2: the rebuild question is answered yes. Passes 3 to 5 and setblkno.
- Mkfs.Mkfs: the sizes are those its command line lets through; the prompt and the file that receives the image.
- Pipe.PipePair.Write: a write of more than 8192 bytes sleeps until the reader closes; BothAsleep is about the others. Several processes at one end, and the marking of the inode as dirty by rwsetup.
- Pipe.PipePair.Read: counts above 0x7FFF, as for ReadLoop.
- PipeWait.Close: the last end is Pipe.PipePair.CloseLast, with nobody left to wake.
- Process.ProcTable.Doexit: closing files and dropping the current directory is the file system's part; the exit times that overlay p_wait are separate, so that a dead process waits for nothing.
- Process.ProcTable.WaitOnce: whether a caught signal is pending is a parameter (chksigs); the user's address for the status and the tick counts.
- Process.ProcTable.Dispatch: saving and restoring memory; swapout's chksigs is a call of Doexit, or nothing.
- Args.Wargs: strings are sequences of characters without NUL rather than addresses in the caller's memory.
- Links.Newfile: the directory has a link itself; an inode whose name was not entered is not given back, as in the code.
- Links.Unlink: removing a directory, which the superuser may do, and an inode without links, for which the code prints a warning; the name is looked up and its inode opened before (Session.System.DoRemove).
- Session.System.Run: a call whose checks fail does nothing; paths are one name in an open directory; reads start in the file and are at most 32257 bytes, within what ShortReadsAreExact covers; it ends with the first call that marks the superblock as corrupt. The process table is beside it, one process at each end of a pipe.
- Session.System.DoRead: reads from behind the end or of more than 32257 bytes.
- Session.System.DoRemove: inodes of devices, and directories, which the superuser may remove.
- Session.System.DoWrite: the result is the number of bytes written; _write returns the count asked for, also when the disk filled up, as Writei says of uCount; writes of more than 0x7FFF bytes.
- Session.System.DoCreate: the directory stays below 32766 blocks; the mode is that of a regular file without permissions, and times are not modelled.
- Lifetime.Boot: one root filesystem; an image with isize above 8193 or with inodes of pipes on it.
- Lifetime.WholeLife: fsck runs after a stop without pipes and without removed open files; after a stop with them their blocks are owned by inodes on disk that no directory names, which is for passes 3 to 5.
- Long operations are split: loop bodies and branches of bmap, freeblk, f_trunc, readi, writei, i_alloc, i_open, ch_link, rargs and _sync are methods of their own, with the contracts their callers need.
- The open file table, file descriptors, _seek, _link, _mknod, _stat, permissions, times, mount and umount, ioctl.
- The terminal, keyboard, clock, PPU, bank switching and assembly; interrupts appear only as signals and wakeups between steps.
