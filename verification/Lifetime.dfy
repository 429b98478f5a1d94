/** From mkfs to fsck: starting the system on a disk (fmount and start_init's part of it,
    kernel/process.c), stopping it after a sync, starting it again from the device, and checking
    what it left. */
module Lifetime {
  import opened Types
  import opened BufferCache
  import opened FreeList
  import opened BlockMap
  import opened Volume
  import opened Inode
  import opened FileBytes
  import opened FileSystem
  import opened InodeTable
  import opened Directory
  import opened Links
  import opened History
  import opened Session
  import opened Mkfs
  import opened Fsck

  // ----- Disks that a system can be started on -----

  /** Every inode on the disk holds what the log says. */
  ghost predicate FilesOnDisk(d: Disk, isize: Word, log: seq<Change>, ranged: bool)
    requires 2 <= isize
  {
    forall n: Word | 0 < n < 8 * (isize - 2) :: FileGood(d, DiskInodes(d, isize), DiskNode(d, n), n, log, ranged)
  }

  /** A filesystem with these owners, free stack and files, none of them pipes. */
  ghost predicate SoundImage(d: Disk, isize: Word, fsize: Word, owner: map<Word, Pos>, stack: seq<Word>,
      log: seq<Change>, ranged: bool, exact: bool) {
    && Mountable(d, stack) && SbIsize(d(1)) == isize && SbFsize(d(1)) == fsize && 3 <= isize <= 8193
    && d(0) == ZERO_BLOCK
    && Partition(d, DiskInodes(d, isize), owner, stack, isize, fsize)
    && GoodNumbers(d, isize, WordAt(d(1), 54), WordsOf(d(1), 55, 105), WordAt(d(1), 109), {}, exact)
    && OwnsNothing(d, DiskInodes(d, isize), 0) && FilesOnDisk(d, isize, log, ranged)
  }

  /** A table in which nothing is loaded. */
  ghost predicate NothingLoaded(tab: seq<Cinode>) {
    && |tab| == ITABSIZE
    && forall s | 0 <= s < ITABSIZE ::
         tab[s].num == 0 && tab[s].refs == 0 && !tab[s].dirty && GoodDinode(tab[s].node)
  }

  lemma {:induction false} ImageSizes(
      d: Disk, isize: Word, fsize: Word, owner: map<Word, Pos>, stack: seq<Word>, log: seq<Change>, ranged: bool,
        exact: bool)
    requires SoundImage(d, isize, fsize, owner, stack, log, ranged, exact)
    ensures 3 <= isize <= 8193 && isize < fsize && IsFilesystem(d(1)) && Mountable(d, stack)
    ensures SbIsize(d(1)) == isize && SbFsize(d(1)) == fsize && d(0) == ZERO_BLOCK
  {
    hide Chain, NoDup, Partition, GoodNumbers, OwnsNothing, FilesOnDisk;
  }

  /** With nothing loaded, the layout is the one on disk. */
  lemma {:induction false} ImageLayout(
      d: Disk, isize: Word, fsize: Word, owner: map<Word, Pos>, stack: seq<Word>, log: seq<Change>, ranged: bool,
        exact: bool,
        tab: seq<Cinode>)
    requires SoundImage(d, isize, fsize, owner, stack, log, ranged, exact) && NothingLoaded(tab)
    ensures GoodLayout(d, Layout(DiskInodes(d, isize), owner, stack), tab, isize, fsize)
    ensures FilesGood(d, DiskInodes(d, isize), tab, {}, log, ranged) && OwnsNothing(d, DiskInodes(d, isize), 0)
    ensures forall n: Word | 0 < n :: Current(d, tab, n) == DiskNode(d, n)
  {
    ImageSizes(d, isize, fsize, owner, stack, log, ranged, exact);
    hide Partition, Mountable, DecodeInode, FileGood, GoodNumbers, OwnsNothing;
    assert forall n: Word | n < 8 * (isize - 2) :: DiskInodes(d, isize)[n] == DiskNode(d, n).addr;
    forall n: Word | 0 < n
      ensures Current(d, tab, n) == DiskNode(d, n)
    {
      NotCurrent(d, tab, n);
    }
  }

  /** The i_tab of a system that has just been started. */
  method NewTable() returns (itab: array<Cinode>)
    ensures fresh(itab) && itab.Length == ITABSIZE && NothingLoaded(itab[..])
  {
    itab := new Cinode[ITABSIZE](_ => Cinode(0, EMPTY_INODE, 0, false));
  }

  /** Starts the system on a device; null if there is no filesystem on it. */
  method Boot(
      devices: Storage, dev: int, ghost isize: Word, ghost fsize: Word, ghost owner: map<Word, Pos>,
        ghost stack: seq<Word>,
      ghost log: seq<Change>, ghost ranged: bool, ghost exact: bool) returns (sys: System?)
    requires ValidDev(dev) && (IsFilesystem(devices[dev](1)) ==>
                               SoundImage(devices[dev], isize, fsize, owner, stack, log, ranged, exact))
    ensures sys == null <==> !IsFilesystem(devices[dev](1))
    ensures sys != null ==>
              && fresh(sys) && fresh(sys.Parts()) && sys.Sound() && sys.pipes == [] && sys.log == log
              && sys.ranged == ranged && sys.tab.exact == exact && sys.tab.pending == {}
              && sys.tab.fs.vol.isize == isize && sys.tab.fs.vol.fsize == fsize && sys.tab.fs.vol.stack == stack
              && sys.tab.fs.vol.disk == devices[dev]
              && sys.tab.fs.layout == Layout(DiskInodes(devices[dev], isize), owner, stack)
              && NothingLoaded(sys.tab.fs.itab[..]) && sys.tab.ninode == WordAt(devices[dev](1), 54)
              && sys.tab.sinode[..] == WordsOf(devices[dev](1), 55, 105)
              && sys.tab.tinode == WordAt(devices[dev](1), 109)
  {
    hide Mountable, Consistent, SoundImage, IsFilesystem, NothingLoaded, System.Sound, Vol.Valid;
    var cache := new Cache(devices);
    assert !IsHeld(cache.held, Key(dev, 1));
    if IsFilesystem(devices[dev](1)) {
      ImageSizes(devices[dev], isize, fsize, owner, stack, log, ranged, exact);
    }
    var vol, sb := Fmount(cache, dev, stack);
    if vol == null {
      return null;
    }
    var itab := NewTable();
    sys := BootVolume(vol, sb, itab, owner, log, ranged, exact);
  }

  /** The rest of the start: tables over a mounted volume. */
  method BootVolume(vol: Vol, sb: Block, itab: array<Cinode>, ghost owner: map<Word, Pos>, ghost log: seq<Change>,
      ghost ranged: bool, ghost exact: bool)
    returns (sys: System)
    requires vol.Valid() && vol.cache.held == map[] && sb == vol.disk(1) && itab.Length == ITABSIZE
             && NothingLoaded(itab[..])
    requires SoundImage(vol.disk, vol.isize, vol.fsize, owner, vol.stack, log, ranged, exact)
    ensures fresh(sys) && fresh(sys.tab) && fresh(sys.tab.sinode) && fresh(sys.tab.fs)
    ensures sys.Sound() && sys.pipes == [] && sys.log == log && sys.ranged == ranged
            && sys.tab.exact == exact && sys.tab.pending == {}
    ensures sys.tab.fs.vol == vol && sys.tab.fs.itab == itab
            && sys.tab.fs.layout == Layout(DiskInodes(vol.disk, vol.isize), owner, vol.stack)
    ensures sys.tab.ninode == WordAt(sb, 54) && sys.tab.sinode[..] == WordsOf(sb, 55, 105)
            && sys.tab.tinode == WordAt(sb, 109)
  {
    hide GoodLayout, GoodFreeList, Consistent, GoodNumbers, OwnsNothing, FilesGood, SoundImage, TableUses, WordAt;
    hide System.Sound, NothingLoaded, GoodState;
    ghost var d, isize, fsize, stack := vol.disk, vol.isize, vol.fsize, vol.stack;
    ImageSizes(d, isize, fsize, owner, stack, log, ranged, exact);
    ImageLayout(d, isize, fsize, owner, stack, log, ranged, exact, itab[..]);
    ImageNumbers(d, isize, fsize, owner, stack, log, ranged, exact);
    NothingOpen(itab[..]);
    var fs := new FileSys(vol, itab, Layout(DiskInodes(d, isize), owner, stack));
    var sinode := new Word[NINODES](i requires 0 <= i < NINODES => WordAt(sb, 55 + i));
    assert sinode[..] == WordsOf(sb, 55, 105);
    var tab := new Inodes(fs, WordAt(sb, 54), sinode, WordAt(sb, 109), exact);
    sys := new System(tab, log, ranged);
  }

  lemma {:induction false} NothingOpen(tab: seq<Cinode>)
    requires NothingLoaded(tab)
    ensures |tab| == ITABSIZE && forall s | 0 <= s < ITABSIZE :: tab[s].refs == 0
  {
  }

  lemma {:induction false} ImageNumbers(
      d: Disk, isize: Word, fsize: Word, owner: map<Word, Pos>, stack: seq<Word>, log: seq<Change>, ranged: bool,
        exact: bool)
    requires SoundImage(d, isize, fsize, owner, stack, log, ranged, exact)
    ensures GoodNumbers(d, isize, WordAt(d(1), 54), WordsOf(d(1), 55, 105), WordAt(d(1), 109), {}, exact)
  {
    hide Mountable, Partition, GoodNumbers, OwnsNothing, FilesOnDisk;
  }

  // ----- What mkfs leaves -----

  /** Inode 1 of a fresh image is the root directory, the others are free but for inode 0. */
  lemma {:induction false} FreshNodes(d: Disk, isize: Word, fsize: Word, n: Word)
    requires FreshImage(d, isize, fsize) && isize >= 3 && 0 < n < 8 * (isize - 2)
    ensures n == ROOTINODE ==> DiskNode(d, n) == RootInode(isize)
    ensures n != ROOTINODE ==> LooksFree(DiskNode(d, n)) && IsEmpty(DiskNode(d, n))
  {
    hide Mountable, WordAt, EncodeInode, DecodeInode, Descending;
    if n == ROOTINODE {
      EncodeDecode(EncodeInode(ZERO_BLOCK, 0, RESERVED_INODE), 1, RootInode(isize), 1);
    }
    FreshNode(d, isize, fsize, n);
  }

  lemma {:induction false} NothingRecorded(d: Disk, log: seq<Change>, n: int)
    requires OnlyAbout([], log, n)
    ensures Recorded(d, NO_BLOCKS, log, n)
  {
    hide FileByte;
    forall p | 0 <= p < FILE_MODULUS
      ensures FileByte(d, NO_BLOCKS, p) == LastByte(log, n, p)
    {
      EmptyByte(d, p);
      SameLastByte([], log, n, p);
    }
  }

  lemma {:induction false} RootRecorded(d: Disk, isize: Word)
    requires d(isize) == DirBlock() && isize != 0
    ensures Recorded(d, NO_BLOCKS[0 := isize], [Put(ROOTINODE, 0, DirBlock())], ROOTINODE)
  {
    hide FileByte, DirBlock, LastByte;
    RootBytes(d, isize);
    forall p | 0 <= p < FILE_MODULUS
      ensures FileByte(d, NO_BLOCKS[0 := isize], p) == LastByte([Put(ROOTINODE, 0, DirBlock())], ROOTINODE, p)
    {
      assert [] + [Put(ROOTINODE, 0, DirBlock())] == [Put(ROOTINODE, 0, DirBlock())];
      OneMoreChange([], Put(ROOTINODE, 0, DirBlock()), ROOTINODE, p);
      SmallMod(p);
      NothingYet(ROOTINODE, p);
    }
  }

  lemma {:induction false} NothingYet(n: int, p: int)
    ensures LastByte([], n, p) == 0
  {
  }

  /** The root directory of a fresh image is a good file; the other inodes are empty. */
  lemma {:induction false} FreshFiles(d: Disk, isize: Word, fsize: Word)
    requires FreshImage(d, isize, fsize) && isize >= 3
    ensures FilesOnDisk(d, isize, [Put(ROOTINODE, 0, DirBlock())], true)
    ensures OwnsNothing(d, DiskInodes(d, isize), 0)
  {
    hide FreshImage, FileGood, OwnsNothing, DiskNode, IsEmpty, LooksFree;
    var ino, log := DiskInodes(d, isize), [Put(ROOTINODE, 0, DirBlock())];
    FreshAddresses(d, isize, fsize, 0);
    EmptyOwnsNothing(d, ino, 0);
    forall n: Word | 0 < n < 8 * (isize - 2)
      ensures FileGood(d, ino, DiskNode(d, n), n, log, true)
    {
      FreshNodes(d, isize, fsize, n);
      FreshAddresses(d, isize, fsize, n);
      if n == ROOTINODE {
        FreshRootGood(d, isize, fsize);
      } else {
        UnusedGood(d, ino, DiskNode(d, n), n, log);
      }
    }
  }

  lemma {:induction false} UnusedGood(d: Disk, ino: seq<Addr>, node: Dinode, n: int, log: seq<Change>)
    requires 0 <= n < |ino| && ino[n] == NO_BLOCKS && LooksFree(node) && IsEmpty(node) && n != ROOTINODE
             && OnlyAbout([], log, n)
    ensures FileGood(d, ino, node, n, log, true)
  {
    hide Recorded, Within, OwnsNothing, GoodDirectory, UniqueNames;
    NothingRecorded(d, log, n);
    EmptyOwnsNothing(d, ino, n);
    FreeIsPlain(node);
  }

  lemma {:induction false} FreshRootGood(d: Disk, isize: Word, fsize: Word)
    requires FreshImage(d, isize, fsize) && isize >= 3
    ensures FileGood(d, DiskInodes(d, isize), RootInode(isize), ROOTINODE, [Put(ROOTINODE, 0, DirBlock())], true)
  {
    hide Recorded, OwnsNothing, GoodDirectory, UniqueNames, EntriesOf, DirBlock, Mountable, Listed;
    hide FreshImage, DiskInodes, Extent, FileByte, WordAt;
    var ino, node := DiskInodes(d, isize), RootInode(isize);
    FreshAddresses(d, isize, fsize, ROOTINODE);
    FreshRoot(d, isize, fsize);
    FreshRootBlock(d, isize, fsize);
    RootRecorded(d, isize);
    RootExtent(d, ino, isize);
  }

  lemma {:induction false} FreshRootBlock(d: Disk, isize: Word, fsize: Word)
    requires FreshImage(d, isize, fsize) && isize >= 3
    ensures d(isize) == DirBlock() && |DiskInodes(d, isize)| == 8 * (isize - 2)
  {
    hide DirBlock, Mountable, Descending, WordAt;
  }

  lemma {:induction false} RootExtent(d: Disk, ino: seq<Addr>, isize: Word)
    requires |ino| > ROOTINODE && ino[ROOTINODE] == NO_BLOCKS[0 := isize]
    ensures Extent(d, ino, RootInode(isize), ROOTINODE)
  {
    RootWithin(d, ino, isize);
  }

  lemma {:induction false} RootWithin(d: Disk, ino: seq<Addr>, isize: Word)
    requires |ino| > ROOTINODE && ino[ROOTINODE] == NO_BLOCKS[0 := isize]
    ensures Within(d, ino, ROOTINODE, 1)
  {
    forall p: Pos | ValidPos(ino, p) && p.n == ROOTINODE && PtrAt(d, ino, p) != 0
      ensures UpTo(p, 1)
    {
      assert p == PosOf(ROOTINODE, 0);
    }
  }

  /** A fresh image with an inode block is one that the system can be started on. */
  lemma {:induction false} FreshIsSound(d: Disk, isize: Word, fsize: Word)
    requires FreshImage(d, isize, fsize) && 3 <= isize <= 8193
    ensures SoundImage(d, isize, fsize, map[isize := Pos(ROOTINODE, 0, Root)], Descending(fsize, isize + 1),
                       [Put(ROOTINODE, 0, DirBlock())], true, true)
  {
    hide FilesOnDisk, OwnsNothing, Partition, GoodNumbers, Mountable, Descending, DirBlock, WordAt;
    FreshFiles(d, isize, fsize);
    FreshOwner(d, isize, fsize);
    FreshNumbers(d, isize, fsize, WordsOf(d(1), 55, 105));
  }

  // ----- Stopping -----

  /** A disk that holds what a system saw after a sync, with every open inode linked and written. */
  lemma {:induction false} SavedIsSound(
      d: Disk, m: Layout, t: seq<Cinode>, lo: Word, hi: Word, ninode: int, sinode: seq<Word>, tinode: int,
        pending: set<Word>, exact: bool,
      log: seq<Change>, ranged: bool, d': Disk)
    requires GoodLayout(d, m, t, lo, hi) && AllWritten(t) && Saved(d, lo, hi, m.stack, ninode, sinode, tinode)
    requires GoodNumbers(d, lo, ninode, sinode, tinode, pending, exact) && FilesGood(d, m.ino, t, {}, log, ranged)
    requires OwnsNothing(d, m.ino, 0) && d(0) == ZERO_BLOCK && forall b: Word :: d'(b) == d(b)
    ensures SoundImage(d', lo, hi, m.owner, m.stack, log, ranged, exact && pending == {}) && DiskInodes(d', lo) == m.ino
    ensures WordAt(d'(1), 54) == ninode && WordsOf(d'(1), 55, 105) == sinode && WordAt(d'(1), 109) == tinode
    ensures OtherFiles(d, m.ino, d', m.ino, {})
    ensures forall n: Word | 0 < n < |m.ino| :: DiskNode(d', n) == Current(d, t, n)
  {
    hide Partition, Coherent, Mountable, GoodNumbers, OwnsNothing, FilesGood, FileGood, DiskNode, WordAt, OtherFiles;
    hide Current;
    SameDataBlocks(d, d', m.ino, m.owner, m.stack, lo, hi);
    SamePartition(d, d', m.ino, m.owner, m.stack, lo, hi);
    SameImage(d, d', m.stack);
    NumbersBounds(d, lo, ninode, sinode, tinode, pending, exact, 0);
    CountIsWord(d, lo, ninode, sinode, tinode, pending, exact);
    NothingPending(d, lo, ninode, sinode, tinode, pending, exact);
    forall n: Word
      ensures DiskNode(d', n) == DiskNode(d, n)
    {
      SameNode(d, d', n);
    }
    SameNumbers(d, d', lo, ninode, sinode, tinode, {}, exact && pending == {});
    forall n: Word | n < |m.ino|
      ensures m.ino[n] == DiskNode(d', n).addr && (n != 0 ==> Current(d, t, n) == DiskNode(d', n))
    {
      WrittenNodes(d, m, t, lo, hi, n);
    }
    InodesOnDisk(d', lo, m.ino);
    OwnsNothingStays(d, m.ino, d', m.ino, {}, 0);
    SavedFiles(d, m.ino, t, d', lo, log, ranged);
  }

  /** Without the memory of what was pending the numbers are still safe. */
  lemma {:induction false} NothingPending(
      d: Disk, isize: Word, ninode: int, sinode: seq<Word>, tinode: int, pending: set<Word>, exact: bool)
    requires GoodNumbers(d, isize, ninode, sinode, tinode, pending, exact)
    ensures GoodNumbers(d, isize, ninode, sinode, tinode, {}, exact && pending == {})
  {
    hide DiskNode, IsEmpty, NoDup, LooksFree, Untyped;
  }

  lemma {:induction false} SameNode(d: Disk, d': Disk, n: Word)
    requires forall b: Word :: d'(b) == d(b)
    ensures DiskNode(d', n) == DiskNode(d, n)
  {
  }

  lemma {:induction false} InodesOnDisk(d: Disk, isize: Word, ino: seq<Addr>)
    requires 2 <= isize && |ino| == 8 * (isize - 2) && forall n: Word | n < |ino| :: ino[n] == DiskNode(d, n).addr
    requires isize <= 8193
    ensures DiskInodes(d, isize) == ino
  {
    hide DecodeInode;
  }

  lemma {:induction false} SameImage(d: Disk, d': Disk, stack: seq<Word>)
    requires Mountable(d, stack) && forall b: Word :: d'(b) == d(b)
    ensures Mountable(d', stack)
  {
    hide GoodFreeList;
    FreeListFrame(d, d', SbIsize(d(1)), SbFsize(d(1)), SbNfree(d(1)), SbFree(d(1)), SbTfree(d(1)), stack);
  }

  lemma {:induction false} SavedFiles(
      d: Disk, ino: seq<Addr>, t: seq<Cinode>, d': Disk, isize: Word, log: seq<Change>, ranged: bool)
    requires FilesGood(d, ino, t, {}, log, ranged) && OtherFiles(d, ino, d', ino, {})
    requires 2 <= isize && |ino| == 8 * (isize - 2) && DiskInodes(d', isize) == ino
    requires forall n: Word | 0 < n < |ino| :: DiskNode(d', n) == Current(d, t, n)
    ensures FilesOnDisk(d', isize, log, ranged)
  {
    hide FileGood, Current, DiskNode, OtherFiles;
    forall n: Word | 0 < n < |ino|
      ensures FileGood(d', ino, DiskNode(d', n), n, log, ranged)
    {
      FileStays(d, ino, d', ino, {}, Current(d, t, n), n, log, log, ranged, ranged);
    }
  }

  /** Every open inode has a link. */
  predicate AllLinked(t: seq<Cinode>) {
    forall s | 0 <= s < |t| && t[s].refs > 0 :: t[s].node.nlink != 0
  }

  lemma {:induction false} SyncedTable(d: Disk, m: Layout, t: seq<Cinode>, lo: Word, hi: Word, t': seq<Cinode>)
    requires GoodLayout(d, m, t, lo, hi) && AllLinked(t) && |t'| == |t|
    requires forall s | 0 <= s < |t| :: t'[s] == if t[s].refs > 0 then t[s].(dirty := false) else t[s]
    ensures AllWritten(t') && AllLinked(t')
  {
    hide Partition, DiskNode;
    forall s | 0 <= s < |t'|
      ensures !t'[s].dirty && (t'[s].refs == 0 || t'[s].node.nlink != 0)
    {
      assert SlotOk(t[s], m.ino, d);
    }
  }

  lemma {:induction false} NoPipes(
      d: Disk, ino: seq<Addr>, t: seq<Cinode>, special: set<int>, log: seq<Change>, ranged: bool)
    requires GoodState(d, ino, t, [], special, log, ranged)
    ensures d(0) == ZERO_BLOCK && OwnsNothing(d, ino, 0) && FilesGood(d, ino, t, {}, log, ranged)
  {
    hide FileGood, Current, OwnsNothing;
    assert forall n: int :: !IsNumber(t, [], n);
  }

  lemma {:induction false} StoppedFiles(
      d0: Disk, i0: seq<Addr>, t0: seq<Cinode>, d: Disk, ino: seq<Addr>, t: seq<Cinode>, d': Disk)
    requires Untouched(d0, i0, t0, d, ino, t, {}) && OtherFiles(d, ino, d', ino, {})
    requires forall n: Word | 0 < n < |ino| :: DiskNode(d', n) == Current(d, t, n)
    ensures |ino| == |i0| && OtherFiles(d0, i0, d', ino, {})
    ensures forall n: Word | 0 < n < |i0| :: DiskNode(d', n) == Current(d0, t0, n)
  {
    hide OtherFiles, Current, DiskNode;
    OtherFilesSize(d0, i0, d, ino, {});
    OtherFilesTrans(d0, i0, d, ino, d', ino, {}, {});
    var none: set<int> := {};
    assert none + none == none;
  }

  /** A sync, with which the system can stop: no pipe and no removed file is open. The device then
      holds a sound image with the files, owners and free blocks that the system saw. */
  method Shutdown(sys: System, garbage: Block)
    requires sys.Sound() && sys.pipes == [] && AllLinked(sys.tab.fs.itab[..])
    modifies sys.Parts()
    ensures sys.Sound() && sys.pipes == [] && sys.log == old(sys.log) && sys.ranged == old(sys.ranged)
    ensures AllLinked(sys.tab.fs.itab[..])
    ensures sys.tab.exact == old(sys.tab.exact)
    ensures sys.tab.fs.layout == old(sys.tab.fs.layout) && sys.tab.fs.vol.stack == old(sys.tab.fs.vol.stack)
    ensures sys.tab.ninode == old(sys.tab.ninode) && sys.tab.sinode[..] == old(sys.tab.sinode[..])
            && sys.tab.tinode == old(sys.tab.tinode)
    ensures Stopped(sys, old(sys.tab.fs.vol.disk), old(sys.tab.fs.layout.ino), old(sys.tab.fs.itab[..]))
  {
    hide System.Sound, System.Apart, Inodes.Ready, Inodes.Valid, FileSys.Ready, FileSys.Valid, Vol.Valid, Vol.Linked;
    hide GoodState;
    hide GoodLayout, GoodNumbers, TableUses, FilesGood, OwnsNothing, Saved, Untouched, SoundImage, OtherFiles;
    hide OtherInodes, AllWritten, AllLinked;
    hide Current, DiskNode, WordAt;
    var tab, fs := sys.tab, sys.tab.fs;
    ghost var d0, i0, t0 := fs.vol.disk, fs.layout.ino, fs.itab[..];
    sys.SoundIs();
    tab.ReadyMeans();
    sys.DoSync(garbage);
    sys.SoundIs();
    tab.ReadyMeans();
    SyncedTable(d0, old(fs.layout), t0, fs.vol.isize, fs.vol.fsize, fs.itab[..]);
    NoPipes(fs.vol.disk, fs.layout.ino, fs.itab[..], sys.special, sys.log, sys.ranged);
    fs.StackIs();
    SavedIsSound(fs.vol.disk, fs.layout, fs.itab[..], fs.vol.isize, fs.vol.fsize, tab.ninode, tab.sinode[..],
                 tab.tinode, tab.pending, tab.exact,
                 sys.log, sys.ranged, fs.vol.cache.store[fs.vol.dev]);
    StoppedFiles(d0, i0, t0, fs.vol.disk, fs.layout.ino, fs.itab[..], fs.vol.cache.store[fs.vol.dev]);
  }

  /** The numbers that the system has saved are exact: no number was lost. */
  ghost predicate Settles(sys: System)
    reads sys.tab
  {
    sys.tab.exact && sys.tab.pending == {}
  }

  /** The device holds the image of the system, and every file and inode as before. */
  ghost predicate Stopped(sys: System, d: Disk, ino: seq<Addr>, t: seq<Cinode>)
    reads sys, sys.tab, sys.tab.sinode, sys.tab.fs, sys.tab.fs.vol, sys.tab.fs.vol.cache
  {
    var fs := sys.tab.fs;
    && ValidDev(fs.vol.dev)
    && var d' := fs.vol.cache.store[fs.vol.dev];
       && SoundImage(d', fs.vol.isize, fs.vol.fsize, fs.layout.owner, fs.vol.stack, sys.log, sys.ranged, Settles(sys))
       && WordAt(d'(1), 54) == sys.tab.ninode && WordsOf(d'(1), 55, 105) == sys.tab.sinode[..]
       && WordAt(d'(1), 109) == sys.tab.tinode
       && 2 <= fs.vol.isize && DiskInodes(d', fs.vol.isize) == fs.layout.ino
       && OtherFiles(d, ino, d', fs.layout.ino, {})
       && forall n: Word | 0 < n < |ino| :: DiskNode(d', n) == Current(d, t, n)
  }

  // ----- Starting again -----

  /** A sync, a stop, and a start from the device: the same inodes, files, owners and free blocks, and
      the counts and lists of free inodes as they were saved. */
  method Restart(sys: System, garbage: Block) returns (again: System?)
    requires sys.Sound() && sys.pipes == [] && AllLinked(sys.tab.fs.itab[..])
    modifies sys.Parts()
    ensures again != null && fresh(again) && again.Sound() && again.pipes == []
    ensures again.log == old(sys.log) && again.ranged == old(sys.ranged)
    ensures again.tab.fs.vol.stack == old(sys.tab.fs.vol.stack)
            && again.tab.fs.layout.owner == old(sys.tab.fs.layout.owner)
    ensures again.tab.ninode == old(sys.tab.ninode) && again.tab.sinode[..] == old(sys.tab.sinode[..])
            && again.tab.tinode == old(sys.tab.tinode)
    ensures Untouched(old(sys.tab.fs.vol.disk), old(sys.tab.fs.layout.ino), old(sys.tab.fs.itab[..]),
                      again.tab.fs.vol.disk, again.tab.fs.layout.ino, again.tab.fs.itab[..], {})
  {
    hide System.Sound, SoundImage, OtherFiles, OtherInodes, WordAt, IsFilesystem, NothingLoaded, Current, DiskNode;
    hide AllLinked;
    ghost var d0, i0, t0 := sys.tab.fs.vol.disk, sys.tab.fs.layout.ino, sys.tab.fs.itab[..];
    Shutdown(sys, garbage);
    again := BootStopped(sys, d0, i0, t0);
  }

  /** The start from the device of a system that was stopped. */
  method BootStopped(sys: System, ghost d: Disk, ghost ino: seq<Addr>, ghost t: seq<Cinode>) returns (again: System?)
    requires Stopped(sys, d, ino, t)
    ensures again != null && fresh(again) && again.Sound() && again.pipes == []
    ensures again.log == sys.log && again.ranged == sys.ranged && again.tab.exact == Settles(sys)
    ensures again.tab.fs.vol.stack == sys.tab.fs.vol.stack && again.tab.fs.layout.owner == sys.tab.fs.layout.owner
    ensures again.tab.ninode == sys.tab.ninode && again.tab.sinode[..] == sys.tab.sinode[..]
            && again.tab.tinode == sys.tab.tinode
    ensures Untouched(d, ino, t, again.tab.fs.vol.disk, again.tab.fs.layout.ino, again.tab.fs.itab[..], {})
  {
    hide System.Sound, SoundImage, OtherFiles, OtherInodes, WordAt, IsFilesystem, NothingLoaded, Current, DiskNode;
    hide AllLinked;
    hide GoodLayout, FilesGood, OwnsNothing, Mountable, DiskInodes, Untouched;
    var fs := sys.tab.fs;
    ghost var d' := fs.vol.cache.store[fs.vol.dev];
    ImageSizes(d', fs.vol.isize, fs.vol.fsize, fs.layout.owner, fs.vol.stack, sys.log, sys.ranged, Settles(sys));
    again := Boot(fs.vol.cache.store, fs.vol.dev, fs.vol.isize, fs.vol.fsize, fs.layout.owner, fs.vol.stack, sys.log,
                  sys.ranged, Settles(sys));
    ImageLayout(d', fs.vol.isize, fs.vol.fsize, fs.layout.owner, fs.vol.stack, sys.log, sys.ranged, Settles(sys),
                again.tab.fs.itab[..]);
    SeenAgain(d, ino, t, d', again.tab.fs.layout.ino, again.tab.fs.itab[..]);
  }

  lemma {:induction false} SeenAgain(d0: Disk, i0: seq<Addr>, t0: seq<Cinode>, d: Disk, ino: seq<Addr>, t: seq<Cinode>)
    requires OtherFiles(d0, i0, d, ino, {}) && forall n: Word | 0 < n < |i0| :: DiskNode(d, n) == Current(d0, t0, n)
    requires forall n: Word | 0 < n :: Current(d, t, n) == DiskNode(d, n)
    ensures Untouched(d0, i0, t0, d, ino, t, {})
  {
    hide OtherFiles, Current, DiskNode;
  }

  // ----- Checking -----

  /** Of a sound image whose writes were in range, pass 1 visits every position that owns a block. */
  lemma {:induction false} AllVisited(
      d: Disk, isize: Word, fsize: Word, owner: map<Word, Pos>, stack: seq<Word>, log: seq<Change>, exact: bool)
    requires SoundImage(d, isize, fsize, owner, stack, log, true, exact)
    ensures 2 <= isize && forall b | b in owner :: 0 <= owner[b].n < 8 * (isize - 2) && Visited(d, isize, owner[b])
    ensures forall n | 1 <= n < 8 * (isize - 2) && IsFile(NodeAt(d, isize, n)) :: NodeAt(d, isize, n).sizeBlk < 0xFFFF
  {
    hide Mountable, GoodNumbers, FileGood, NodeAt, DiskNode, Visited, PtrAt, NoDup, OwnsNothing, DecodeInode;
    ImageSizes(d, isize, fsize, owner, stack, log, true, exact);
    var ino := DiskInodes(d, isize);
    forall n: Word | 0 < n < 8 * (isize - 2)
      ensures NodeAt(d, isize, n) == DiskNode(d, n) && Extent(d, ino, DiskNode(d, n), n)
    {
      NodeIs(d, isize, n);
      FileExtent(d, ino, DiskNode(d, n), n, log);
    }
    forall b | b in owner
      ensures 0 <= owner[b].n < 8 * (isize - 2) && Visited(d, isize, owner[b])
    {
      OwnedIsVisited(d, isize, ino, owner[b]);
    }
  }

  lemma {:induction false} NodeIs(d: Disk, isize: Word, n: Word)
    requires 2 <= isize && n < 8 * (isize - 2)
    ensures NodeAt(d, isize, n) == DiskNode(d, n)
  {
  }

  lemma {:induction false} FileExtent(d: Disk, ino: seq<Addr>, node: Dinode, n: int, log: seq<Change>)
    requires FileGood(d, ino, node, n, log, true)
    ensures Extent(d, ino, node, n)
  {
    hide Extent, Recorded, GoodDirectory, UniqueNames;
  }

  lemma {:induction false} OwnedIsVisited(d: Disk, isize: Word, ino: seq<Addr>, p: Pos)
    requires 2 <= isize && |ino| == 8 * (isize - 2) <= 0x1_0000 && ValidPos(ino, p) && PtrAt(d, ino, p) != 0
             && OwnsNothing(d, ino, 0)
    requires p.n > 0 ==> Extent(d, ino, NodeAt(d, isize, p.n), p.n)
    ensures Visited(d, isize, p)
  {
    hide PtrAt, UpTo, Interior, NodeAt;
  }

  /** Fsck's count of free inodes is that of the inodes that i_alloc would find. */
  lemma {:induction false} ZeroModesAreFree(
      d: Disk, isize: Word, fsize: Word, owner: map<Word, Pos>, stack: seq<Word>, log: seq<Change>, exact: bool)
    requires SoundImage(d, isize, fsize, owner, stack, log, true, exact)
    ensures 2 <= isize && (set n | 1 <= n < 8 * (isize - 2) && NodeAt(d, isize, n).mode == 0) == FreeSet(d, isize)
    ensures exact ==> WordAt(d(1), 109) == |FreeSet(d, isize)|
  {
    hide Mountable, Partition, FilesOnDisk, OwnsNothing, NodeAt, DiskNode, NoDup, WordAt, IsEmpty, DiskInodes;
    forall n | 1 <= n < 8 * (isize - 2)
      ensures NodeAt(d, isize, n).mode == 0 <==> n in FreeSet(d, isize)
    {
      NodeIs(d, isize, n);
      NotUntyped(DiskNode(d, n));
    }
  }

  lemma {:induction false} NotUntyped(n: Dinode)
    ensures n.mode == 0 ==> Untyped(n)
  {
  }

  /** Fsck after a run: from an image with every write in range, passes 1 and 2 rebuild the same set of
      free blocks, and leave a sound image with the same files. */
  method CheckStopped(d: Disk, behind: int -> Block, ghost isize: Word, ghost fsize: Word, ghost owner: map<Word, Pos>,
                      ghost stack: seq<Word>, ghost log: seq<Change>, ghost exact: bool)
    returns (d': Disk, asks: bool)
    requires SoundImage(d, isize, fsize, owner, stack, log, true, exact)
    ensures exists stack' ::
              && (forall b: Word :: b in stack' <==> b in stack)
              && (forall i, j | 0 <= i < j < |stack'| :: stack'[i] > stack'[j])
              && SoundImage(d', isize, fsize, owner, stack', log, true, exact)
    ensures forall b: Word | b != 1 && b !in stack :: d'(b) == d(b)
    ensures 2 <= isize && (asks <==> WordAt(d(1), 109) != |FreeSet(d, isize)|) && (exact ==> !asks)
  {
    hide SoundImage, Mountable, Partition, Visited, NodeAt, WordAt, DiskInodes, FreeSet;
    ImageSizes(d, isize, fsize, owner, stack, log, true, exact);
    AllVisited(d, isize, fsize, owner, stack, log, exact);
    ImagePartition(d, isize, fsize, owner, stack, log, exact);
    d', asks := CheckImage(d, behind, owner, stack);
    ZeroModesAreFree(d, isize, fsize, owner, stack, log, exact);
    ghost var stack' :|
      && Mountable(d', stack') && (forall i, j | 0 <= i < j < |stack'| :: stack'[i] > stack'[j])
      && (forall b: Word :: b in stack' <==> b in stack)
      && Partition(d', DiskInodes(d', isize), owner, stack', isize, fsize);
    RebuiltIsSound(d, isize, fsize, owner, stack, log, exact, d', stack');
  }

  /** Rebuilding the free list leaves the files and inodes. */
  lemma {:induction false} RebuiltIsSound(
      d: Disk, isize: Word, fsize: Word, owner: map<Word, Pos>, stack: seq<Word>, log: seq<Change>, exact: bool,
        d': Disk,
        stack': seq<Word>)
    requires SoundImage(d, isize, fsize, owner, stack, log, true, exact)
    requires Mountable(d', stack') && SbIsize(d'(1)) == isize && SbFsize(d'(1)) == fsize
    requires Partition(d', DiskInodes(d', isize), owner, stack', isize, fsize)
    requires WordAt(d'(1), 54) == 0 && WordAt(d'(1), 109) == WordAt(d(1), 109)
    requires forall b: Word | b != 1 && b !in stack :: d'(b) == d(b)
    ensures SoundImage(d', isize, fsize, owner, stack', log, true, exact)
  {
    hide Mountable, Partition, GoodNumbers, OwnsNothing, FileGood, WordAt, OtherFiles, DecodeInode;
    var ino := DiskInodes(d, isize);
    FreeBlocksAreData(d, ino, owner, stack, isize, fsize);
    SameDataBlocks(d, d', ino, owner, stack, isize, fsize);
    assert forall n: Word | n < 8 * (isize - 2) :: 2 <= InodeBlock(n) < isize;
    assert forall n: Word | n < 8 * (isize - 2) :: DiskNode(d', n) == DiskNode(d, n);
    assert forall n | 0 <= n < 8 * (isize - 2) :: 2 <= n / 8 + 2 < isize;
    assert DiskInodes(d', isize) == ino;
    hide DiskNode, DiskInodes;
    OwnsNothingStays(d, ino, d', ino, {}, 0);
    NumbersDropped(d, isize, WordAt(d(1), 54), WordsOf(d(1), 55, 105), WordAt(d(1), 109), exact, d',
                   WordsOf(d'(1), 55, 105));
    forall n: Word | 0 < n < 8 * (isize - 2)
      ensures FileGood(d', ino, DiskNode(d', n), n, log, true)
    {
      FileStays(d, ino, d', ino, {}, DiskNode(d, n), n, log, log, true, true);
    }
  }

  /** The cached numbers may be forgotten. */
  lemma {:induction false} NumbersDropped(
      d: Disk, isize: Word, ninode: int, sinode: seq<Word>, tinode: int, exact: bool, d': Disk, sinode': seq<Word>)
    requires GoodNumbers(d, isize, ninode, sinode, tinode, {}, exact) && |sinode'| == NINODES
    requires forall n: Word | n < 8 * (isize - 2) :: DiskNode(d', n) == DiskNode(d, n)
    ensures GoodNumbers(d', isize, 0, sinode', tinode, {}, exact)
  {
    hide DiskNode, IsEmpty, LooksFree;
    SameNumbers(d, d', isize, ninode, sinode, tinode, {}, exact);
    hide FreeSet;
  }

  lemma {:induction false} ImagePartition(
      d: Disk, isize: Word, fsize: Word, owner: map<Word, Pos>, stack: seq<Word>, log: seq<Change>, exact: bool)
    requires SoundImage(d, isize, fsize, owner, stack, log, true, exact)
    ensures 3 <= isize && Partition(d, DiskInodes(d, isize), owner, stack, isize, fsize)
  {
    hide Mountable, Partition, GoodNumbers, OwnsNothing, FilesOnDisk;
  }

  // ----- From mkfs to fsck -----

  /** Mkfs, a start, any calls, a sync and fsck. If the run stops without pipes and removed open files
      and its writes were in range, passes 1 and 2 rebuild the very set of blocks that the system had
      free, and leave every file as it was. */
  method WholeLife(
      others: Storage, dev: int, fsize: Word, isize: Word, behind: int -> Block, calls: seq<Call>, mem: array<Byte>,
        garbage: Block)
    returns (sys: System, checked: bool, d': Disk, asks: bool)
    requires ValidDev(dev) && 3 <= isize < fsize && isize <= 8193 && mem.Length == 0x8000
    modifies mem
    ensures sys.Good() && sys.tab.fs.vol.isize == isize && sys.tab.fs.vol.fsize == fsize
    ensures checked <==>
              && !sys.tab.corrupt && sys.pipes == [] && AllLinked(sys.tab.fs.itab[..])
              && forall i | 0 <= i < |calls| :: InRange(calls[i])
    ensures checked ==> exists stack' ::
              && (forall b: Word :: b in stack' <==> b in sys.tab.fs.vol.stack)
              && (forall i, j | 0 <= i < j < |stack'| :: stack'[i] > stack'[j])
              && SoundImage(d', isize, fsize, sys.tab.fs.layout.owner, stack', sys.log, true, Settles(sys))
    ensures checked && Settles(sys) ==> !asks
  {
    hide System.Sound, System.Good, SoundImage, FreshImage, Descending, DirBlock, IsFilesystem, InRange, NothingLoaded;
    hide WordAt;
    hide AllLinked, Untouched, StepDone, System.Now, Settles, SbIsize, SbFsize, Write, Mountable;
    var img := Mkfs.Mkfs(fsize, isize, behind);
    var devices: Storage := others[dev := DiskOf(img[..])];
    FreshIsSound(devices[dev], isize, fsize);
    ghost var owner, stack, log := map[isize := Pos(ROOTINODE, 0, Root)], Descending(fsize, isize + 1),
      [Put(ROOTINODE, 0, DirBlock())];
    ImageSizes(devices[dev], isize, fsize, owner, stack, log, true, true);
    sys := Boot(devices, dev, isize, fsize, owner, stack, log, true, true);
    sys.SoundIsGood();
    ghost var disks, cores, steps;
    var served;
    served, disks, cores, steps := sys.Run(calls, mem, garbage);
    checked, d', asks := StopAndCheck(sys, behind, garbage, forall i | 0 <= i < |calls| :: InRange(calls[i]));
  }

  /** The end of that life. */
  method StopAndCheck(sys: System, behind: int -> Block, garbage: Block, inRange: bool)
    returns (checked: bool, d': Disk, asks: bool)
    requires sys.Good() && (inRange && !sys.tab.corrupt ==> sys.ranged)
    modifies sys.Parts()
    ensures sys.Good() && sys.tab.corrupt == old(sys.tab.corrupt)
    ensures (checked <==> !sys.tab.corrupt && sys.pipes == [] && AllLinked(sys.tab.fs.itab[..]) && inRange)
    ensures checked ==> exists stack' ::
              && (forall b: Word :: b in stack' <==> b in sys.tab.fs.vol.stack)
              && (forall i, j | 0 <= i < j < |stack'| :: stack'[i] > stack'[j])
              && SoundImage(d', sys.tab.fs.vol.isize, sys.tab.fs.vol.fsize, sys.tab.fs.layout.owner, stack', sys.log,
                            true, Settles(sys))
    ensures checked && Settles(sys) ==> !asks
  {
    hide System.Sound, System.Good, SoundImage, WordAt, AllLinked, Untouched, OtherFiles;
    sys.SoundIsGood();
    checked := !sys.tab.corrupt && sys.pipes == [] && AllLinked(sys.tab.fs.itab[..]) && inRange;
    d', asks := sys.tab.fs.vol.cache.store[0], false;
    if checked {
      Shutdown(sys, garbage);
      var fs := sys.tab.fs;
      d', asks := CheckStopped(fs.vol.cache.store[fs.vol.dev], behind, fs.vol.isize, fs.vol.fsize, fs.layout.owner,
                         fs.vol.stack, sys.log, Settles(sys));
      sys.SoundIsGood();
    }
  }
}
