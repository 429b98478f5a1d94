/** Files of one mounted filesystem (fs/filesys.c and the file half of kernel/scall1.c):
    the in-core inode table on top of the block store. An inoptr of the source is an index
    into the table. */
module FileSystem {
  import opened Types
  import opened BufferCache
  import opened FreeList
  import opened FreeOrder
  import opened BlockMap
  import opened Volume
  import opened Inode
  import opened FileBytes

  /** Where blocks are: the addresses of every inode, the owner of every block in use, and
      the free stack. */
  datatype Layout = Layout(ino: seq<Addr>, owner: map<Word, Pos>, stack: seq<Word>)

  /** Each block of [lo, hi) is in one place and the table is coherent. */
  ghost predicate GoodLayout(d: Disk, m: Layout, tab: seq<Cinode>, lo: Word, hi: Word) {
    && 2 <= lo < hi && |m.ino| == 8 * (lo - 2)
    && Partition(d, m.ino, m.owner, m.stack, lo, hi)
    && Coherent(tab, m.ino, d)
  }

  /** The layout after popping a block off the free stack and storing it at p. */
  function Installed(m: Layout, p: Pos): Layout
    requires ValidPos(m.ino, p) && m.stack != []
  {
    Layout(InstallIno(m.ino, p, Top(m.stack)), m.owner[Top(m.stack) := p], m.stack[..|m.stack| - 1])
  }

  /** The disk after zeroing that block and storing its number at p. */
  function InstalledDisk(d: Disk, m: Layout, p: Pos): Disk
    requires ValidPos(m.ino, p) && m.stack != []
  {
    InstallDisk(Write(d, Top(m.stack), ZERO_BLOCK), m.ino, p, Top(m.stack))
  }

  /** A place where a block is missing and could be installed. */
  ghost predicate Missing(d: Disk, m: Layout, p: Pos) {
    ValidPos(m.ino, p) && PtrAt(d, m.ino, p) == 0 && HasParent(d, m.ino, p)
  }

  /** p is on the way to logical block bn of inode n. */
  predicate Toward(p: Pos, n: int, bn: Word) {
    p.n == n && (p == PosOf(n, bn) || (Interior(p) && bn >= NDIRECT))
  }

  /** Installing a block in an inode slot. */
  lemma {:induction false} InstallInSlot(
      d: Disk, m: Layout, tab: seq<Cinode>, lo: Word, hi: Word, ip: int, c: Cinode, k: int, bn: Word)
    requires GoodLayout(d, m, tab, lo, hi) && m.stack != [] && 0 <= ip < ITABSIZE && 0 <= k < 20
    requires tab[ip].num != 0 && tab[ip].refs > 0 && tab[ip].node.addr[k] == 0
    requires Toward(Pos(tab[ip].num, k, Root), tab[ip].num, bn)
    requires c == tab[ip].(node := tab[ip].node.(addr := tab[ip].node.addr[k := Top(m.stack)]), dirty := true)
    ensures ValidPos(m.ino, Pos(c.num, k, Root)) && lo <= Top(m.stack) < hi
    ensures InstalledDisk(d, m, Pos(c.num, k, Root)) == Write(d, Top(m.stack), ZERO_BLOCK)
    ensures Installed(m, Pos(c.num, k, Root)).ino == m.ino[c.num := c.node.addr]
    ensures GoodLayout(Write(d, Top(m.stack), ZERO_BLOCK), Installed(m, Pos(c.num, k, Root)), tab[ip := c], lo, hi)
    ensures Keeps(d, m.ino, Write(d, Top(m.stack), ZERO_BLOCK), Installed(m, Pos(c.num, k, Root)).ino, c.num, bn)
  {
    hide Partition, Keeps, NoDup, DiskNode;
    var n, nb := tab[ip].num, Top(m.stack);
    var p := Pos(n, k, Root);
    assert SlotOk(tab[ip], m.ino, d);
    assert ValidPos(m.ino, p) && PtrAt(d, m.ino, p) == 0;
    FreeBlocksAreData(d, m.ino, m.owner, m.stack, lo, hi);
    InstallKeepsPartition(d, m.ino, m.owner, m.stack, lo, hi, p, nb);
    InstallKeepsFiles(d, m.ino, m.owner, m.stack, lo, hi, p, nb, n, bn);
    CoherentUpdate(tab, m.ino, d, ip, c);
    CoherentFrame(tab[ip := c], m.ino[n := c.node.addr], d, Write(d, nb, ZERO_BLOCK), lo);
  }

  /** Installing a block in an indirect block. */
  lemma {:induction false} InstallInBlock(
      d: Disk, m: Layout, tab: seq<Cinode>, lo: Word, hi: Word, p: Pos, n: int, bn: Word)
    requires GoodLayout(d, m, tab, lo, hi) && m.stack != []
    requires Missing(d, m, p) && !p.path.Root? && Toward(p, n, bn)
    ensures GoodLayout(InstalledDisk(d, m, p), Installed(m, p), tab, lo, hi)
    ensures Keeps(d, m.ino, InstalledDisk(d, m, p), Installed(m, p).ino, n, bn)
    ensures lo <= Top(m.stack) < hi && Installed(m, p).ino == m.ino
    ensures PtrAt(InstalledDisk(d, m, p), m.ino, p) == Top(m.stack)
  {
    hide Partition, Keeps, Coherent, PtrAt, NoDup, Interior, PosOf, WordAt;
    var nb, d' := Top(m.stack), InstalledDisk(d, m, p);
    FreeBlocksAreData(d, m.ino, m.owner, m.stack, lo, hi);
    InstallKeepsPartition(d, m.ino, m.owner, m.stack, lo, hi, p, nb);
    InstallKeepsFiles(d, m.ino, m.owner, m.stack, lo, hi, p, nb, n, bn);
    InstallWritesData(d, m.ino, m.owner, m.stack, lo, hi, p, nb);
    CoherentFrame(tab, m.ino, d, d', lo);
  }

  lemma {:induction false} InstallFreeList(
      d: Disk, d': Disk, isize: Word, fsize: Word, nfree: int, free: seq<Word>, tfree: int, stack: seq<Word>, b: Word,
        x: Block)
    requires GoodFreeList(d, isize, fsize, nfree, free, tfree, stack) && b !in stack
    requires d' == Write(d, b, x)
    ensures GoodFreeList(d', isize, fsize, nfree, free, tfree, stack)
  {
    FreeListFrame(d, d', isize, fsize, nfree, free, tfree, stack);
  }

  lemma {:induction false} KeepsRefl(d: Disk, ino: seq<Addr>, n: int, bn: Word)
    ensures Keeps(d, ino, d, ino, n, bn)
  {
  }

  /** The indirect block that holds p is in use: not free, so it is nobody else's buffer. */
  lemma {:induction false} ParentIsOwned(d: Disk, m: Layout, tab: seq<Cinode>, lo: Word, hi: Word, p: Pos, dev: int)
    requires GoodLayout(d, m, tab, lo, hi) && ValidPos(m.ino, p) && !p.path.Root? && ParentBlock(d, m.ino, p) != 0
    ensures ParentBlock(d, m.ino, p) !in m.stack && HasParent(d, m.ino, p)
    ensures NoneHeld(map[], dev, [ParentBlock(d, m.ino, p)])
  {
    ParentIsData(d, m.ino, m.owner, m.stack, lo, hi, p);
  }

  lemma {:induction false} EntryOfParent(d: Disk, ino: seq<Addr>, p: Pos)
    requires ValidPos(ino, p) && !p.path.Root? && ParentBlock(d, ino, p) != 0
    ensures 0 <= LastIndex(p.path) < 256
    ensures PtrAt(d, ino, p) == WordAt(d(ParentBlock(d, ino, p)), LastIndex(p.path))
  {
  }

  lemma {:induction false} PtrIsOwned(d: Disk, m: Layout, tab: seq<Cinode>, lo: Word, hi: Word, p: Pos)
    requires GoodLayout(d, m, tab, lo, hi) && ValidPos(m.ino, p)
    ensures PtrAt(d, m.ino, p) != 0 ==> lo <= PtrAt(d, m.ino, p) < hi && PtrAt(d, m.ino, p) !in m.stack
  {
  }

  /** The two stores of an installation in an indirect block, in the order they happen. */
  lemma {:induction false} InstalledDiskIs(d: Disk, m: Layout, tab: seq<Cinode>, lo: Word, hi: Word, p: Pos)
    requires GoodLayout(d, m, tab, lo, hi) && m.stack != []
    requires ValidPos(m.ino, p) && !p.path.Root? && HasParent(d, m.ino, p)
    ensures 0 <= LastIndex(p.path) < 256 && ParentBlock(d, m.ino, p) != Top(m.stack)
    ensures ParentBlock(d, m.ino, p) !in m.stack
    ensures InstalledDisk(d, m, p) ==
            Write(Write(d, Top(m.stack), ZERO_BLOCK), ParentBlock(d, m.ino, p),
                  PutWord(d(ParentBlock(d, m.ino, p)), LastIndex(p.path), Top(m.stack)))
  {
    hide Partition, Coherent, NoDup;
    FreeBlocksAreData(d, m.ino, m.owner, m.stack, lo, hi);
    ParentIsData(d, m.ino, m.owner, m.stack, lo, hi, p);
    InstallWritesData(d, m.ino, m.owner, m.stack, lo, hi, p, Top(m.stack));
  }

  lemma {:induction false} OneHeld(dev: int, s: seq<Word>, i: int, held: map<int, Hold>)
    requires i in held && held == map[i := held[i]] && held[i].name.blk !in s
    ensures NoneHeld(held, dev, s) && |held| == 1
  {
    assert held.Keys == {i};
    assert |held| == |held.Keys|;
  }

  /** The slots other than ip are the same; slot ip holds the same inode, of the same kind. */
  ghost predicate SameSlot(tab: seq<Cinode>, tab': seq<Cinode>, ip: int) {
    && |tab'| == |tab| && 0 <= ip < |tab|
    && (forall s | 0 <= s < |tab| && s != ip :: tab'[s] == tab[s])
    && tab'[ip] == tab[ip].(dirty := tab'[ip].dirty, node := tab[ip].node.(
                     addr := tab'[ip].node.addr, sizeBlk := tab'[ip].node.sizeBlk, sizeOff := tab'[ip].node.sizeOff))
    && (tab[ip].dirty ==> tab'[ip].dirty)
  }

  lemma {:induction false} ResizeSlot(t: seq<Cinode>, t1: seq<Cinode>, t2: seq<Cinode>, ip: int, size: Off)
    requires SameSlot(t, t1, ip) && GoodOff(size)
    requires t2 == t1[ip := Resized(t1[ip], size)] || t2 == t1[ip := Resized(t1[ip], size).(dirty := true)]
    ensures SameSlot(t, t2, ip) && Getsize(t2[ip]) == size
  {
  }

  lemma {:induction false} SameSlotTrans(t1: seq<Cinode>, t2: seq<Cinode>, t3: seq<Cinode>, ip: int)
    requires SameSlot(t1, t2, ip) && SameSlot(t2, t3, ip)
    ensures SameSlot(t1, t3, ip)
  {
  }

  lemma {:induction false} SameSlotRefl(t: seq<Cinode>, ip: int)
    requires 0 <= ip < |t|
    ensures SameSlot(t, t, ip)
  {
  }

  lemma {:induction false} SameSlotKind(t: seq<Cinode>, t': seq<Cinode>, ip: int)
    requires SameSlot(t, t', ip)
    ensures |t'| == |t| && 0 <= ip < |t|
    ensures t'[ip].num == t[ip].num && t'[ip].refs == t[ip].refs
    ensures t'[ip].node.mode == t[ip].node.mode && t'[ip].node.nlink == t[ip].node.nlink
  {
  }

  /** Only the addresses of the inode in slot ip may differ, and then it is marked dirty. */
  ghost predicate OnlyAddr(tab: seq<Cinode>, tab': seq<Cinode>, ip: int) {
    && |tab'| == |tab| && 0 <= ip < |tab|
    && (forall s | 0 <= s < |tab| && s != ip :: tab'[s] == tab[s])
    && tab'[ip] == tab[ip].(node := tab[ip].node.(addr := tab'[ip].node.addr), dirty := tab'[ip].dirty)
    && (tab[ip].dirty || tab'[ip].node.addr != tab[ip].node.addr ==> tab'[ip].dirty)
  }

  lemma {:induction false} OnlyAddrSlot(t: seq<Cinode>, t': seq<Cinode>, ip: int)
    requires OnlyAddr(t, t', ip)
    ensures |t'| == |t| && 0 <= ip < |t|
    ensures t'[ip].num == t[ip].num && t'[ip].refs == t[ip].refs && t'[ip].node.mode == t[ip].node.mode
    ensures t'[ip].node.nlink == t[ip].node.nlink && Getsize(t'[ip]) == Getsize(t[ip]) && SameSlot(t, t', ip)
  {
  }

  lemma {:induction false} SlotOfTable(d: Disk, m: Layout, tab: seq<Cinode>, lo: Word, hi: Word, ip: int)
    requires GoodLayout(d, m, tab, lo, hi) && 0 <= ip < |tab| && tab[ip].num != 0
    ensures |tab| == ITABSIZE && tab[ip].num < |m.ino| && m.ino[tab[ip].num] == tab[ip].node.addr
    ensures forall k | 0 <= k < 20 && tab[ip].node.addr[k] != 0 :: lo <= tab[ip].node.addr[k] < hi
  {
    assert SlotOk(tab[ip], m.ino, d);
    forall k | 0 <= k < 20 && tab[ip].node.addr[k] != 0
      ensures lo <= tab[ip].node.addr[k] < hi
    {
      assert ValidPos(m.ino, Pos(tab[ip].num, k, Root));
      PtrIsOwned(d, m, tab, lo, hi, Pos(tab[ip].num, k, Root));
    }
  }

  /** The way to logical block bn of inode n. */
  lemma {:induction false} Walk(d: Disk, ino: seq<Addr>, n: int, bn: Word)
    requires 0 <= n < |ino|
    ensures ValidPos(ino, PosOf(n, bn)) && Toward(PosOf(n, bn), n, bn)
    ensures PtrAt(d, ino, PosOf(n, bn)) == Lookup(d, ino[n], bn)
    ensures bn < 18 ==>
              && PosOf(n, bn) == Pos(n, bn, Root) && Lookup(d, ino[n], bn) == ino[n][bn]
    ensures 18 <= bn < 274 ==>
              && Toward(Pos(n, 18, Root), n, bn)
              && PosOf(n, bn).path == Mid(bn - 18) && ParentBlock(d, ino, PosOf(n, bn)) == ino[n][18]
              && (ino[n][18] == 0 ==> Lookup(d, ino[n], bn) == 0)
    ensures bn >= 274 ==>
              var mid := Pos(n, 19, Mid((bn - 274) / 256));
              && Toward(Pos(n, 19, Root), n, bn) && Toward(mid, n, bn) && ValidPos(ino, mid)
              && ParentBlock(d, ino, mid) == ino[n][19]
              && PosOf(n, bn).path == Leaf((bn - 274) / 256, (bn - 274) % 256)
              && ParentBlock(d, ino, PosOf(n, bn)) == PtrAt(d, ino, mid)
              && (ino[n][19] == 0 ==> PtrAt(d, ino, mid) == 0)
              && (PtrAt(d, ino, mid) == 0 ==> Lookup(d, ino[n], bn) == 0)
  {
  }

  // ----- Frames -----

  /** Apart from the inodes in ex, no inode, no stored block number and no contents of a file
      differ. */
  ghost predicate Untouched(
      d: Disk, ino: seq<Addr>, tab: seq<Cinode>, d': Disk, ino': seq<Addr>, tab': seq<Cinode>, ex: set<int>)
  {
    OtherFiles(d, ino, d', ino', ex) && OtherInodes(d, tab, d', tab', |ino|, ex)
  }

  lemma {:induction false} UntouchedRefl(d: Disk, ino: seq<Addr>, tab: seq<Cinode>, ex: set<int>)
    ensures Untouched(d, ino, tab, d, ino, tab, ex)
  {
    OtherFilesRefl(d, ino, ex);
    OtherInodesRefl(d, tab, |ino|, ex);
  }

  lemma {:induction false} UntouchedTrans(
      d1: Disk, ino1: seq<Addr>, t1: seq<Cinode>, d2: Disk, ino2: seq<Addr>, t2: seq<Cinode>,
      d3: Disk, ino3: seq<Addr>, t3: seq<Cinode>, ex: set<int>, ex': set<int>)
    requires Untouched(d1, ino1, t1, d2, ino2, t2, ex) && Untouched(d2, ino2, t2, d3, ino3, t3, ex')
    ensures Untouched(d1, ino1, t1, d3, ino3, t3, ex + ex')
  {
    OtherFilesTrans(d1, ino1, d2, ino2, d3, ino3, ex, ex');
    assert |ino2| == |ino1| by {
      OtherFilesSize(d1, ino1, d2, ino2, ex);
    }
    OtherInodesTrans(d1, t1, d2, t2, d3, t3, |ino1|, ex, ex');
    hide OtherFiles, OtherInodes;
  }

  lemma {:induction false} OtherFilesSize(d: Disk, ino: seq<Addr>, d': Disk, ino': seq<Addr>, ex: set<int>)
    requires OtherFiles(d, ino, d', ino', ex)
    ensures |ino'| == |ino|
  {
  }

  lemma {:induction false} UntouchedMore(
      d: Disk, ino: seq<Addr>, tab: seq<Cinode>, d': Disk, ino': seq<Addr>, tab': seq<Cinode>, ex: set<int>,
        ex': set<int>)
    requires Untouched(d, ino, tab, d', ino', tab', ex) && ex <= ex'
    ensures Untouched(d, ino, tab, d', ino', tab', ex')
  {
    OtherFilesMore(d, ino, d', ino', ex, ex');
    OtherInodesMore(d, tab, d', tab', |ino|, ex, ex');
  }

  /** Changes to one slot and the data blocks of its inode. */
  lemma {:induction false} OneFileDiffers(
      d: Disk, m: Layout, tab: seq<Cinode>, d': Disk, m': Layout, tab': seq<Cinode>, lo: Word, hi: Word, ip: int)
    requires GoodLayout(d, m, tab, lo, hi) && GoodLayout(d', m', tab', lo, hi) && SameInodeBlocks(d, d', m.ino)
    requires 0 <= ip < ITABSIZE && tab'[ip].num == tab[ip].num && forall s | 0 <= s < ITABSIZE
             && s != ip :: tab'[s] == tab[s]
    requires OtherFiles(d, m.ino, d', m'.ino, {tab[ip].num as int})
    ensures Untouched(d, m.ino, tab, d', m'.ino, tab', {tab[ip].num as int})
  {
    hide OtherFiles, Partition;
    assert forall n: Word | n < |m.ino| :: InodeBlock(n) < lo;
    assert forall n: Word | n < |m.ino| :: DiskNode(d', n) == DiskNode(d, n);
    OneSlotDiffers(d, m.ino, tab, d', m'.ino, tab', ip);
  }

  /** A transfer of readi or writei. */
  lemma {:induction false} TransferUntouched(
      d: Disk, m: Layout, tab: seq<Cinode>, d': Disk, m': Layout, tab': seq<Cinode>, lo: Word, hi: Word, ip: int,
      start: int, done: int, data: seq<Byte>, ispipe: bool)
    requires GoodLayout(d, m, tab, lo, hi) && GoodLayout(d', m', tab', lo, hi) && SameSlot(tab, tab', ip)
    requires Wrote(d, m.ino, d', m'.ino, tab[ip].num, start, done, data, ispipe)
    ensures Untouched(d, m.ino, tab, d', m'.ino, tab', {tab[ip].num as int})
    ensures SameInodeBlocks(d, d', m.ino)
  {
    WroteOthers(d, m.ino, d', m'.ino, tab[ip].num, start, done, data, ispipe);
    SameSlotKind(tab, tab', ip);
    hide OtherFiles, Partition, FileBlock, PtrAt, FileByte, StillMapped, PointersWritten, Ahead;
    assert |tab| == ITABSIZE;
    OneFileDiffers(d, m, tab, d', m', tab', lo, hi, ip);
  }

  /** The file in slot ip apart, nothing differs; the slot still holds the same inode, of the
      same kind. */
  ghost predicate OnlyFile(
      d: Disk, ino: seq<Addr>, tab: seq<Cinode>, d': Disk, ino': seq<Addr>, tab': seq<Cinode>, ip: int)
  {
    && SameSlot(tab, tab', ip) && SameInodeBlocks(d, d', ino)
    && Untouched(d, ino, tab, d', ino', tab', {tab[ip].num as int})
  }

  /** A transfer that moved no byte to the disk. */
  lemma {:induction false} SlotMoved(
      d: Disk, m: Layout, tab: seq<Cinode>, m': Layout, tab': seq<Cinode>, lo: Word, hi: Word, ip: int)
    requires GoodLayout(d, m, tab, lo, hi) && GoodLayout(d, m', tab', lo, hi) && SameSlot(tab, tab', ip)
             && m'.ino == m.ino
    ensures OnlyFile(d, m.ino, tab, d, m'.ino, tab', ip)
  {
    hide Partition, OtherFiles, OtherInodes;
    OtherFilesRefl(d, m.ino, {tab[ip].num as int});
    OneFileDiffers(d, m, tab, d, m', tab', lo, hi, ip);
  }

  lemma {:induction false} FileWritten(
      d: Disk, m: Layout, tab: seq<Cinode>, d': Disk, m': Layout, tab': seq<Cinode>, lo: Word, hi: Word, ip: int,
      start: int, done: int, data: seq<Byte>, ispipe: bool)
    requires GoodLayout(d, m, tab, lo, hi) && GoodLayout(d', m', tab', lo, hi) && SameSlot(tab, tab', ip)
    requires Wrote(d, m.ino, d', m'.ino, tab[ip].num, start, done, data, ispipe)
    ensures OnlyFile(d, m.ino, tab, d', m'.ino, tab', ip)
  {
    hide GoodLayout, Wrote, Untouched;
    TransferUntouched(d, m, tab, d', m', tab', lo, hi, ip, start, done, data, ispipe);
  }

  lemma {:induction false} OnlyFileSlot(
      d: Disk, ino: seq<Addr>, tab: seq<Cinode>, d': Disk, ino': seq<Addr>, tab': seq<Cinode>, ip: int)
    requires OnlyFile(d, ino, tab, d', ino', tab', ip)
    ensures SameSlot(tab, tab', ip) && SameInodeBlocks(d, d', ino) && 0 <= ip < |tab| && |tab'| == |tab|
    ensures Untouched(d, ino, tab, d', ino', tab', {tab[ip].num as int})
    ensures tab'[ip].num == tab[ip].num && tab'[ip].refs == tab[ip].refs
    ensures tab'[ip].node.mode == tab[ip].node.mode && tab'[ip].node.nlink == tab[ip].node.nlink
    ensures forall s | 0 <= s < |tab| && s != ip :: tab'[s] == tab[s]
  {
    hide Untouched;
  }

  lemma {:induction false} SlotFreeable(
      d: Disk, now: Disk, dev: int, isize: Word, fsize: Word, addr: Addr, k: nat, stack: seq<Word>)
    requires k < 20 && 0 < isize && NoDup(stack + Slots(d, addr, 0)) && SameOff(d, now, Slots(d, addr, k + 1))
    requires forall b | b in Slots(d, addr, 0) :: isize <= b < fsize
    ensures Freeable(now, map[], dev, isize, fsize, stack + Slots(d, addr, k + 1), addr[k], Level(k))
    ensures Order(now, addr[k], Level(k)) == Order(d, addr[k], Level(k))
    ensures Slots(d, addr, k) == Slots(d, addr, k + 1) + Order(d, addr[k], Level(k))
    ensures Level(k) <= 2 && Level(19) == 2 && Level(18) == 1
  {
    hide Order, Slots, NoDup;
    NextSlot(d, now, addr, k, stack);
  }

  /** The layout after truncating inode n. */
  ghost function Truncated(m: Layout, n: int, freed: seq<Word>): Layout
    requires 0 <= n < |m.ino|
  {
    Layout(m.ino[n := NO_BLOCKS], map b | b in m.owner && m.owner[b].n != n :: m.owner[b], m.stack + freed)
  }

  lemma {:induction false} TruncStart(d: Disk, m: Layout, tab: seq<Cinode>, lo: Word, hi: Word, ip: int, dev: int,
      l: Storage)
    requires GoodLayout(d, m, tab, lo, hi) && 0 <= ip < |tab| && tab[ip].num != 0
    ensures var freed := Slots(d, tab[ip].node.addr, 0);
            0 < lo && NoDup(m.stack + freed) && forall b | b in freed :: lo <= b < hi
    ensures Slots(d, tab[ip].node.addr, 20) == [] && m.stack + [] == m.stack && SameOff(d, d, [])
    ensures OtherDevices(l, l, dev)
    ensures forall k | 0 <= k < 18 :: Level(k) == 0
  {
    hide Slots;
    SlotOfTable(d, m, tab, lo, hi, ip);
    OwnedSlotsNoDup(d, m.ino, m.owner, m.stack, lo, hi, tab[ip].num);
    SlotsStep(d, tab[ip].node.addr, 20);
  }

  lemma {:induction false} TruncEnd(
      d: Disk, d': Disk, m: Layout, tab: seq<Cinode>, lo: Word, hi: Word, ip: int, c: Cinode)
    requires GoodLayout(d, m, tab, lo, hi) && 0 <= ip < |tab| && tab[ip].num != 0 && tab[ip].refs > 0
    requires SameOff(d, d', Slots(d, tab[ip].node.addr, 0))
    requires c == tab[ip].(node := tab[ip].node.(addr := NO_BLOCKS, sizeBlk := 0, sizeOff := 0), dirty := true)
    ensures c.num < |m.ino| && m.ino[c.num] == tab[ip].node.addr
    ensures GoodLayout(d', Truncated(m, c.num, Slots(d, tab[ip].node.addr, 0)), tab[ip := c], lo, hi)
    ensures SameInodeBlocks(d, d', m.ino)
    ensures Untouched(d, m.ino, tab, d', m.ino[c.num := NO_BLOCKS], tab[ip := c], {c.num as int})
  {
    hide Slots, NoDup, DiskNode;
    SlotOfTable(d, m, tab, lo, hi, ip);
    var n := c.num;
    assert SlotOk(tab[ip], m.ino, d);
    OwnedSlotsNoDup(d, m.ino, m.owner, m.stack, lo, hi, n);
    TruncationKeepsPartition(d, d', m.ino, m.owner, m.stack, lo, hi, n);
    CoherentUpdate(tab, m.ino, d, ip, c);
    assert forall b: Word | b < lo :: d'(b) == d(b);
    CoherentFrame(tab[ip := c], m.ino[n := NO_BLOCKS], d, d', lo);
    OthersAfterTruncation(d, d', m, lo, hi, n);
    hide OtherFiles, Partition;
    OneFileDiffers(d, m, tab, d', Truncated(m, n, Slots(d, tab[ip].node.addr, 0)), tab[ip := c], lo, hi, ip);
  }

  lemma {:induction false} OthersAfterTruncation(d: Disk, d': Disk, m: Layout, lo: Word, hi: Word, n: int)
    requires Partition(d, m.ino, m.owner, m.stack, lo, hi) && 0 < lo && 0 <= n < |m.ino|
    requires SameOff(d, d', Slots(d, m.ino[n], 0)) && d'(0) == d(0)
    requires forall p: Pos | ValidPos(m.ino, p) && p.n != n :: PtrAt(d', m.ino, p) == PtrAt(d, m.ino, p)
    ensures OtherFiles(d, m.ino, d', m.ino[n := NO_BLOCKS], {n})
  {
    hide Slots, NoDup, Partition, FileBlock, Lookup;
    forall k, b: Word | 0 <= k < |m.ino| && k != n
      ensures FileBlock(d', m.ino[k], b) == FileBlock(d, m.ino[k], b)
    {
      OtherFileUntouched(d, d', m, lo, hi, n, k, b);
    }
  }

  lemma {:induction false} OtherFileUntouched(
      d: Disk, d': Disk, m: Layout, lo: Word, hi: Word, n: int, k: int, b: Word)
    requires Partition(d, m.ino, m.owner, m.stack, lo, hi) && 0 < lo && 0 <= n < |m.ino|
    requires SameOff(d, d', Slots(d, m.ino[n], 0)) && 0 <= k < |m.ino| && k != n
    requires forall p: Pos | ValidPos(m.ino, p) && p.n != n :: PtrAt(d', m.ino, p) == PtrAt(d, m.ino, p)
    ensures Lookup(d', m.ino[k], b) == Lookup(d, m.ino[k], b)
    ensures FileBlock(d', m.ino[k], b) == FileBlock(d, m.ino[k], b)
  {
    hide Slots, NoDup;
    Walk(d, m.ino, k, b);
    Walk(d', m.ino, k, b);
    assert PtrAt(d', m.ino, PosOf(k, b)) == PtrAt(d, m.ino, PosOf(k, b));
    var x := Lookup(d, m.ino[k], b);
    SlotsAreOwned(d, m.ino, m.owner, m.stack, lo, hi, n, x);
  }

  /** Storing data in an allocated block of a file. */
  lemma {:induction false} StoreStays(
      d: Disk, d': Disk, m: Layout, tab: seq<Cinode>, lo: Word, hi: Word, n: int, bn: Word, off: int, data: seq<Byte>)
    requires GoodLayout(d, m, tab, lo, hi) && 0 <= n < |m.ino| && Lookup(d, m.ino[n], bn) != 0
    requires 0 <= off && off + |data| <= 512
    requires d' == Write(d, Lookup(d, m.ino[n], bn), Splice(d(Lookup(d, m.ino[n], bn)), off, data))
    ensures GoodLayout(d', m, tab, lo, hi)
    ensures Lookup(d, m.ino[n], bn) !in m.stack
    ensures OnlyBlock(d, m.ino, d', m.ino, n, bn, Splice(FileBlock(d, m.ino[n], bn), off, data))
  {
    hide NoDup, DiskNode, Splice;
    var b := Lookup(d, m.ino[n], bn);
    Walk(d, m.ino, n, bn);
    PtrIsOwned(d, m, tab, lo, hi, PosOf(n, bn));
    DataWriteKeepsPartition(d, m.ino, m.owner, m.stack, lo, hi, n, bn, d'(b));
    CoherentFrame(tab, m.ino, d, d', lo);
    forall k, c: Word | 0 <= k < |m.ino|
      ensures FileBlock(d', m.ino[k], c) == if k == n && c == bn then d'(b) else FileBlock(d, m.ino[k], c)
      ensures Lookup(d', m.ino[k], c) == Lookup(d, m.ino[k], c)
    {
      Walk(d, m.ino, k, c);
      Walk(d', m.ino, k, c);
      DataWriteKeepsPointers(d, m.ino, m.owner, m.stack, lo, hi, n, bn, d'(b), PosOf(k, c));
      if Lookup(d, m.ino[k], c) == b {
        LookupIsInjective(d, m.ino, m.owner, m.stack, lo, hi, n, k, bn, c);
      }
    }
  }

  lemma {:induction false} StoreAfterMap(
      d: Disk, ino: seq<Addr>, d1: Disk, d2: Disk, ino': seq<Addr>, n: int, bn: Word, off: int, data: seq<Byte>)
    requires Keeps(d, ino, d1, ino', n, bn) && 0 <= n < |ino| && 0 <= off && off + |data| <= 512
    requires OnlyBlock(d1, ino', d2, ino', n, bn, Splice(FileBlock(d1, ino'[n], bn), off, data))
    ensures OnlyBlock(d, ino, d2, ino', n, bn, Splice(FileBlock(d, ino[n], bn), off, data))
  {
    hide Splice, FileBlock;
  }

  function SizeOf(n: Dinode): Off {
    Off(n.sizeBlk, n.sizeOff)
  }

  function Getsize(c: Cinode): Off {
    SizeOf(c.node)
  }

  /** A slot with another file size. */
  function Resized(c: Cinode, size: Off): Cinode
    requires 0 <= size.offset < 512
  {
    c.(node := c.node.(sizeBlk := size.blkno, sizeOff := size.offset))
  }

  /** The size of an unlinked file may change without the dirty mark. */
  lemma {:induction false} ResizePipe(d: Disk, m: Layout, tab: seq<Cinode>, lo: Word, hi: Word, ip: int, size: Off)
    requires GoodLayout(d, m, tab, lo, hi) && 0 <= ip < |tab| && tab[ip].num != 0 && tab[ip].refs > 0
    requires tab[ip].node.nlink == 0 && GoodOff(size)
    ensures GoodLayout(d, m, tab[ip := Resized(tab[ip], size)], lo, hi)
  {
    hide Partition, DiskNode;
    assert SlotOk(tab[ip], m.ino, d);
    CoherentUpdate(tab, m.ino, d, ip, Resized(tab[ip], size));
    assert m.ino[tab[ip].num := tab[ip].node.addr] == m.ino;
  }

  /** Only the size in slot ip differs: it is n bytes less. */
  ghost predicate ShrunkBy(tab: seq<Cinode>, tab': seq<Cinode>, ip: int, n: int) {
    && 0 <= ip < |tab| && |tab'| == |tab| && GoodOff(Getsize(tab'[ip]))
    && tab' == tab[ip := Resized(tab[ip], Getsize(tab'[ip]))]
    && Position(Getsize(tab'[ip])) == Position(Getsize(tab[ip])) - n
  }

  lemma {:induction false} ShrunkStep(t: seq<Cinode>, t1: seq<Cinode>, t2: seq<Cinode>, ip: int, done: int, amount: int)
    requires ShrunkBy(t, t1, ip, done) && 0 < amount <= 512 && 0 <= done && done + amount <= Position(Getsize(t[ip]))
    requires GoodOff(AddOff(Getsize(t1[ip]), -amount))
    requires t2 == t1[ip := Resized(t1[ip], AddOff(Getsize(t1[ip]), -amount))]
    ensures ShrunkBy(t, t2, ip, done + amount)
  {
    hide AddOff;
    AddOffAdds(Getsize(t1[ip]), -amount);
    assert 0 <= Position(Getsize(t1[ip])) - amount < FILE_MODULUS;
  }

  /** Part of a read is done: done bytes are in memory, the file offset is o, and the size of
      a pipe is done bytes less. */
  ghost predicate Midway(
      mem: seq<Byte>, was: seq<Byte>, base: int, done: int, d: Disk, start: int, ispipe: bool, o: Off,
      tab: seq<Cinode>, tab': seq<Cinode>, ip: int)
  {
    && 0 <= done && |mem| == |was| && 0 <= ip < |tab|
    && Filled(mem, was, base, done, d, tab[ip].node.addr, start, ispipe)
    && GoodOff(o) && (ispipe ==> o.blkno < 18) && Position(o) == Around(start + done, ispipe)
    && if ispipe then ShrunkBy(tab, tab', ip, done) else tab' == tab
  }

  lemma {:induction false} MidwayStart(mem: seq<Byte>, base: int, d: Disk, o: Off, ispipe: bool, tab: seq<Cinode>,
      ip: int)
    requires 0 <= base <= |mem| && GoodOff(o) && (ispipe ==> o.blkno < 18) && 0 <= ip < |tab|
    requires ispipe ==> GoodOff(Getsize(tab[ip]))
    ensures Midway(mem, mem, base, 0, d, Position(o), ispipe, o, tab, tab, ip)
  {
  }

  lemma {:induction false} MidwaySlot(
      mem: seq<Byte>, was: seq<Byte>, base: int, done: int, d: Disk, start: int, ispipe: bool, o: Off,
      tab: seq<Cinode>, tab': seq<Cinode>, ip: int)
    requires Midway(mem, was, base, done, d, start, ispipe, o, tab, tab', ip)
    ensures 0 <= ip < |tab| && |tab'| == |tab| && tab'[ip].node.addr == tab[ip].node.addr
            && tab'[ip].node.nlink == tab[ip].node.nlink
    ensures tab'[ip].node.mode == tab[ip].node.mode && tab'[ip].num == tab[ip].num && tab'[ip].refs == tab[ip].refs
    ensures GoodOff(o) && |mem| == |was|
    ensures ispipe ==>
            GoodOff(Getsize(tab'[ip])) && forall a | -512 <= a <= 512 :: GoodOff(AddOff(Getsize(tab'[ip]), a))
  {
    hide AddOff, Filled;
    if ispipe {
      forall a | -512 <= a <= 512
        ensures GoodOff(AddOff(Getsize(tab'[ip]), a))
      {
        AddOffAdds(Getsize(tab'[ip]), a);
      }
    }
  }

  lemma {:induction false} MidwayStep(
      mem: seq<Byte>, mem': seq<Byte>, was: seq<Byte>, base: int, done: int, d: Disk, start: int, ispipe: bool, o: Off,
      tab: seq<Cinode>, tab1: seq<Cinode>, tab2: seq<Cinode>, ip: int, amount: int)
    requires Midway(mem, was, base, done, d, start, ispipe, o, tab, tab1, ip)
    requires 0 < amount <= 512 - o.offset && 0 <= base && base + done + amount <= |mem|
    requires mem' == mem[..base + done] + FileBlock(d, tab1[ip].node.addr, o.blkno)[o.offset..o.offset + amount]
             + mem[base + done + amount..]
    requires ispipe ==> done + amount <= Position(Getsize(tab[ip])) && GoodOff(AddOff(Getsize(tab1[ip]), -amount))
    requires tab2 == if ispipe then tab1[ip := Resized(tab1[ip], AddOff(Getsize(tab1[ip]), -amount))] else tab1
    ensures Midway(mem', was, base, done + amount, d, start, ispipe, NextOff(o, amount, ispipe), tab, tab2, ip)
  {
    hide Filled, FileBlock, AddOff, NextOff;
    assert |mem'| == |mem|;
    NextOffSteps(o, amount, ispipe, start, done);
    FilledStep(mem, mem', was, base, done, d, tab[ip].node.addr, start, ispipe, o, amount);
    if ispipe {
      ShrunkStep(tab, tab1, tab2, ip, done, amount);
    }
  }

  lemma {:induction false} MidwayEnd(
      mem: seq<Byte>, was: seq<Byte>, base: int, done: int, d: Disk, start: int, ispipe: bool, o: Off,
      tab: seq<Cinode>, tab': seq<Cinode>, ip: int)
    requires Midway(mem, was, base, done, d, start, ispipe, o, tab, tab', ip)
    ensures 0 <= ip < |tab| && Filled(mem, was, base, done, d, tab[ip].node.addr, start, ispipe)
    ensures GoodOff(o) && (ispipe ==> o.blkno < 18) && Position(o) == Around(start + done, ispipe)
    ensures if ispipe then ShrunkBy(tab, tab', ip, done) else tab' == tab
  {
  }

  /** Part of a write is done: done bytes are in the file, the file offset is o, and a pipe is
      done bytes longer. */
  ghost predicate MidWrite(
      d: Disk, ino: seq<Addr>, d': Disk, ino': seq<Addr>, start: int, done: int, data: seq<Byte>, ispipe: bool, o: Off,
      tab: seq<Cinode>, tab': seq<Cinode>, ip: int)
  {
    && SameSlot(tab, tab', ip)
    && Wrote(d, ino, d', ino', tab[ip].num, start, done, data, ispipe)
    && GoodOff(o) && (ispipe ==> o.blkno < 18) && Position(o) == Around(start + done, ispipe)
    && if ispipe then
         && GoodOff(Getsize(tab'[ip])) && tab[ip].node.nlink == 0
         && Position(Getsize(tab'[ip])) == Position(Getsize(tab[ip])) + done
         && 0 <= Position(Getsize(tab[ip])) && Position(Getsize(tab[ip])) + |data| <= 8192
       else Getsize(tab'[ip]) == Getsize(tab[ip])
  }

  lemma {:induction false} MidWriteStart(
      d: Disk, ino: seq<Addr>, data: seq<Byte>, ispipe: bool, o: Off, tab: seq<Cinode>, ip: int)
    requires 0 <= ip < |tab| && tab[ip].num < |ino| && GoodOff(o) && (ispipe ==> o.blkno < 18)
    requires ispipe ==>
             GoodOff(Getsize(tab[ip])) && tab[ip].node.nlink == 0 && Position(Getsize(tab[ip])) + |data| <= 8192
    ensures MidWrite(d, ino, d, ino, Position(o), 0, data, ispipe, o, tab, tab, ip)
  {
    hide Wrote;
    WroteStart(d, ino, tab[ip].num, Position(o), data, ispipe);
  }

  lemma {:induction false} MidWriteSlot(
      d: Disk, ino: seq<Addr>, d': Disk, ino': seq<Addr>, start: int, done: int, data: seq<Byte>, ispipe: bool, o: Off,
      tab: seq<Cinode>, tab': seq<Cinode>, ip: int)
    requires MidWrite(d, ino, d', ino', start, done, data, ispipe, o, tab, tab', ip)
    ensures 0 <= ip < |tab| && |tab'| == |tab| && tab'[ip].node.nlink == tab[ip].node.nlink
    ensures tab'[ip].node.mode == tab[ip].node.mode && tab'[ip].num == tab[ip].num && tab'[ip].refs == tab[ip].refs
    ensures GoodOff(o) && (ispipe ==> GoodOff(Getsize(tab'[ip])))
  {
    hide Wrote;
  }

  lemma {:induction false} SubChunk(mem: seq<Byte>, base: int, count: int, done: int, amount: int)
    requires 0 <= base && 0 <= done && 0 <= amount && done + amount <= count && base + count <= |mem|
    ensures mem[base..base + count][done..done + amount] == mem[base + done..base + done + amount]
  {
    var data := mem[base..base + count];
    assert forall k | 0 <= k < count :: data[k] == mem[base + k];
  }

  lemma {:induction false} MidWriteStep(
      d: Disk, ino: seq<Addr>, d1: Disk, ino1: seq<Addr>, d2: Disk, ino2: seq<Addr>, start: int, done: int,
        data: seq<Byte>,
      ispipe: bool, o: Off, tab: seq<Cinode>, tab1: seq<Cinode>, tab2: seq<Cinode>, ip: int, amount: int)
    requires MidWrite(d, ino, d1, ino1, start, done, data, ispipe, o, tab, tab1, ip)
    requires 0 < amount <= 512 - o.offset && 0 <= done && done + amount <= |data| <= 0x7FFF
    requires 0 <= tab1[ip].num < |ino1| && ino1[tab1[ip].num] == tab1[ip].node.addr
    requires OnlyBlock(d1, ino1, d2, ino2, tab1[ip].num, o.blkno,
                       Splice(FileBlock(d1, tab1[ip].node.addr, o.blkno), o.offset, data[done..done + amount]))
    requires SameSlot(tab1, tab2, ip)
    requires Getsize(tab2[ip]) == if ispipe then AddOff(Getsize(tab1[ip]), amount) else Getsize(tab1[ip])
    ensures MidWrite(d, ino, d2, ino2, start, done + amount, data, ispipe, NextOff(o, amount, ispipe), tab, tab2, ip)
  {
    hide Wrote, FileBlock, AddOff, NextOff, OnlyBlock, Splice, SameSlot, Around;
    MidWriteAt(start, done, ispipe, o);
    SameSlotTrans(tab, tab1, tab2, ip);
    SameSlotKind(tab, tab1, ip);
    if ispipe {
      GrowPipe(Getsize(tab1[ip]), amount);
    }
    NextOffSteps(o, amount, ispipe, start, done);
    WroteStep(d, ino, d1, ino1, d2, ino2, tab[ip].num, start, done, data, ispipe, o, amount,
              Splice(FileBlock(d1, tab1[ip].node.addr, o.blkno), o.offset, data[done..done + amount]));
    MidWriteAt(start, done + amount, ispipe, NextOff(o, amount, ispipe));
  }

  lemma {:induction false} MidWriteAt(start: int, done: int, ispipe: bool, o: Off)
    ensures Position(o) == Around(start + done, ispipe) <==> Position(o) == (start + done) % Modulus(ispipe)
    ensures 0x7FFF <= FILE_MODULUS && 8192 <= Modulus(true)
  {
  }

  lemma {:induction false} GrowPipe(size: Off, amount: int)
    requires GoodOff(size) && 0 <= amount <= 512
    ensures GoodOff(AddOff(size, amount))
    ensures Position(size) + amount < FILE_MODULUS ==> Position(AddOff(size, amount)) == Position(size) + amount
  {
    hide AddOff;
    AddOffAdds(size, amount);
  }

  lemma {:induction false} MidWriteStop(
      d: Disk, ino: seq<Addr>, d1: Disk, ino1: seq<Addr>, d2: Disk, ino2: seq<Addr>, start: int, done: int,
        data: seq<Byte>,
      ispipe: bool, o: Off, tab: seq<Cinode>, tab1: seq<Cinode>, tab2: seq<Cinode>, ip: int)
    requires MidWrite(d, ino, d1, ino1, start, done, data, ispipe, o, tab, tab1, ip)
    requires Keeps(d1, ino1, d2, ino2, tab1[ip].num, o.blkno) && SameSlot(tab1, tab2, ip)
    requires 0 <= tab1[ip].num < |ino2| && Lookup(d2, ino2[tab1[ip].num], o.blkno) == 0
    requires Getsize(tab2[ip]) == Getsize(tab1[ip])
    ensures MidWrite(d, ino, d2, ino2, start, done, data, ispipe, o, tab, tab2, ip)
  {
    hide Wrote, Keeps, SameSlot;
    SameSlotTrans(tab, tab1, tab2, ip);
    SameSlotKind(tab, tab1, ip);
    WroteNothing(d, ino, d1, ino1, d2, ino2, tab[ip].num, start, done, data, ispipe, o.blkno);
  }

  /** A write stops at a block that was not allocated before it began. */
  lemma {:induction false} StoppedAtHole(
      d: Disk, ino: seq<Addr>, d1: Disk, ino1: seq<Addr>, start: int, done: int, data: seq<Byte>, ispipe: bool, o: Off,
      tab: seq<Cinode>, tab1: seq<Cinode>, ip: int)
    requires MidWrite(d, ino, d1, ino1, start, done, data, ispipe, o, tab, tab1, ip)
    requires 0 <= tab1[ip].num < |ino1| && ino1[tab1[ip].num] == tab1[ip].node.addr
    requires 0 <= tab[ip].num < |ino| && ino[tab[ip].num] == tab[ip].node.addr
    requires Lookup(d1, tab1[ip].node.addr, o.blkno) == 0
    ensures Lookup(d, tab[ip].node.addr, FirstBlockOf(start + done, ispipe)) == 0
  {
    hide FileBlock, FileByte, Lookup, Ahead;
    SameSlotKind(tab, tab1, ip);
    InBlock(o.blkno, o.offset);
  }

  lemma {:induction false} MidWriteEnd(
      d: Disk, ino: seq<Addr>, d': Disk, ino': seq<Addr>, start: int, done: int, data: seq<Byte>, ispipe: bool, o: Off,
      tab: seq<Cinode>, tab': seq<Cinode>, ip: int)
    requires MidWrite(d, ino, d', ino', start, done, data, ispipe, o, tab, tab', ip)
    ensures SameSlot(tab, tab', ip) && |tab'| == |tab| && 0 <= ip < |tab|
    ensures Wrote(d, ino, d', ino', tab[ip].num, start, done, data, ispipe)
    ensures GoodOff(o) && (ispipe ==> o.blkno < 18) && Position(o) == Around(start + done, ispipe)
    ensures ispipe ==> GoodOff(Getsize(tab'[ip])) && Position(Getsize(tab'[ip])) == Position(Getsize(tab[ip])) + done
    ensures !ispipe ==> Getsize(tab'[ip]) == Getsize(tab[ip])
  {
  }

  predicate IsFile(n: Dinode) {
    Getmode(n.mode) == F_REG || Getmode(n.mode) == F_DIR
  }

  predicate IsPipe(n: Dinode) {
    Getmode(n.mode) == F_PIPE
  }

  /** A pipe is in no directory, holds at most 8192 bytes, and its offsets stay in 18 blocks. */
  predicate GoodPipe(n: Dinode, o: Off) {
    n.nlink == 0 && n.sizeOff < 512 && Position(SizeOf(n)) <= 8192 && o.blkno < 18
  }

  function Lesser(a: int, b: int): int {
    if a < b then a else b
  }

  /** n bytes were moved: memory address and file offset went ahead by n. */
  ghost predicate Transferred(base: int, o: Off, base': int, o': Off, n: int, ispipe: bool) {
    && base' == base + n && GoodOff(o') && (ispipe ==> o'.blkno < 18)
    && Position(o') == Around(Position(o) + n, ispipe)
  }

  lemma {:induction false} PositionOrder(o: Off, size: Off)
    requires GoodOff(o) && GoodOff(size)
    ensures Position(o) > Position(size) <==> o.blkno > size.blkno || (o.blkno == size.blkno && o.offset > size.offset)
  {
  }

  function Larger(a: int, b: int): int {
    if a > b then a else b
  }

  /** The size after a write that leaves the offset at o'. */
  function GrownSize(size: Off, o': Off): Off {
    if Position(o') > Position(size) then o' else size
  }

  /** After n bytes from o the size is the greater of the old size and the end exactly if the
      end can be expressed as an offset. */
  lemma {:induction false} SizeIsExact(size: Off, o: Off, o': Off, n: int)
    requires GoodOff(o) && GoodOff(size) && 0 <= n <= 0xFFFF && Position(o') == Around(Position(o) + n, false)
    ensures Position(GrownSize(size, o')) == Larger(Position(size), Position(o) + n) <==> Position(o) + n < FILE_MODULUS
  {
    PositionIsSmall(o);
    PositionIsSmall(size);
    if Position(o) + n < 0x200_0000 {
      FileMod(Position(o) + n, 0, Position(o) + n);
    } else {
      FileMod(Position(o) + n, 1, Position(o) + n - 0x200_0000);
    }
    hide Position;
  }

  lemma {:induction false} PositionIsSmall(o: Off)
    requires GoodOff(o)
    ensures 0 <= Position(o) < 0x200_0000
  {
  }

  /** The last byte that an offset can express, written to an empty file: the offset starts
      over and the file stays empty, with the byte in block 65535. */
  lemma {:induction false} LastByteIsBehindSize()
    ensures var size, o := Off(0, 0), Off(0xFFFF, 511);
            && GoodOff(o) && NextOff(o, 1, false) == Off(0, 0) && GrownSize(size, NextOff(o, 1, false)) == size
            && Position(o) + 1 == FILE_MODULUS && FirstBlockOf(Position(o), false) == 0xFFFF
  {
    var o := Off(0xFFFF, 511);
    AddOffInBlock(o, 1);
    NextWord(0xFFFF);
    FileMod(Position(o), 0, 0x1FF_FFFF);
  }

  lemma {:induction false} PsizeIs(size: Off)
    requires GoodOff(size) && Position(size) <= 8192
    ensures Psize(size) == Position(size) >= 0 && ToWord(16 * 512 - Psize(size)) == 8192 - Position(size)
  {
  }

  lemma {:induction false} MinIs(a: int, b: int)
    requires 0 <= a <= 0x7FFF && 0 <= b <= 8192
    ensures ToWord(Min16(a, b)) == Lesser(a, b)
  {
  }

  lemma {:induction false} ResizeFile(d: Disk, m: Layout, tab: seq<Cinode>, lo: Word, hi: Word, ip: int, size: Off)
    requires GoodLayout(d, m, tab, lo, hi) && 0 <= ip < |tab| && tab[ip].num != 0 && tab[ip].refs > 0 && GoodOff(size)
    ensures GoodLayout(d, m, tab[ip := Resized(tab[ip], size).(dirty := true)], lo, hi)
  {
    hide Partition, DiskNode;
    assert SlotOk(tab[ip], m.ino, d);
    CoherentUpdate(tab, m.ino, d, ip, Resized(tab[ip], size).(dirty := true));
    assert m.ino[tab[ip].num := tab[ip].node.addr] == m.ino;
  }

  class FileSys {
    const vol: Vol
    const itab: array<Cinode>
    ghost var layout: Layout
    var uBase: int          // udata: where the data is in memory
    var uCount: Word        // how much to move
    var uOffset: Off        // where in the file
    var wakeups: nat        // calls of wakeup on a pipe

    ghost function Repr(): set<object> {
      {this, itab} + vol.Repr()
    }

    ghost predicate Valid()
      reads this, itab, vol, vol.free, vol.cache, vol.cache.pool
    {
      && vol.Valid() && itab.Length == ITABSIZE && layout.stack == vol.stack
      && {this as object, itab} !! vol.Repr()
      && GoodLayout(vol.disk, layout, itab[..], vol.isize, vol.fsize)
    }

    /** Between system calls: no buffer is held. */
    ghost predicate Ready()
      reads this, itab, vol, vol.free, vol.cache, vol.cache.pool
    {
      Valid() && vol.cache.held == map[]
    }

    /** ip is a referenced slot of the table. */
    ghost predicate Open(ip: int)
      reads itab
    {
      0 <= ip < itab.Length && itab[ip].num != 0 && itab[ip].refs > 0
    }

    lemma StackIs()
      requires Ready()
      ensures layout.stack == vol.stack
    {
      hide GoodLayout, GoodFreeList, Consistent;
    }

    lemma LayoutIs()
      requires Ready()
      ensures itab.Length == ITABSIZE && GoodLayout(vol.disk, layout, itab[..], vol.isize, vol.fsize)
    {
      hide GoodLayout, GoodFreeList, Consistent;
    }

    constructor (vol: Vol, itab: array<Cinode>, ghost layout: Layout)
      requires vol.Valid() && itab.Length == ITABSIZE && layout.stack == vol.stack
      requires GoodLayout(vol.disk, layout, itab[..], vol.isize, vol.fsize)
      ensures Valid() && this.vol == vol && this.itab == itab && this.layout == layout
    {
      this.vol, this.itab, this.layout := vol, itab, layout;
      uBase, uCount, uOffset, wakeups := 0, 0, Off(0, 0), 0;
    }

    // ----- Block map -----

    /** Bmap's "allocate and store in i_addr[k]"; 0 means that there is no space. */
    method AllocSlot(ip: int, k: int, ghost bn: Word) returns (nb: Word)
      requires Ready() && Open(ip) && 0 <= k < 20 && itab[ip].node.addr[k] == 0
      requires Toward(Pos(itab[ip].num, k, Root), itab[ip].num, bn)
      modifies `layout, itab, vol.Repr()
      ensures Ready() && OtherDevices(old(vol.cache.logical), vol.cache.logical, vol.dev)
      ensures Keeps(old(vol.disk), old(layout.ino), vol.disk, layout.ino, itab[ip].num, bn)
      ensures nb == 0 ==>
                && vol.disk == old(vol.disk) && layout == old(layout) && itab[..] == old(itab[..])
                && vol.stack == [] && vol.error == ENOSPC
      ensures nb != 0 ==>
                && vol.isize <= nb < vol.fsize && vol.error == old(vol.error)
                && vol.disk == Write(old(vol.disk), nb, ZERO_BLOCK)
                && itab[..] == old(itab[..])[ip :=
                                             old(itab[ip]).(node := old(itab[ip].node).(addr :=
                                                 old(itab[ip].node.addr)[k := nb]), dirty := true)]
                && layout.ino == old(layout.ino)[itab[ip].num := itab[ip].node.addr]
    {
      hide GoodLayout, GoodFreeList, Consistent, OtherDevices, Keeps, PosOf, Interior;
      ghost var d, m, tab := vol.disk, layout, itab[..];
      KeepsRefl(d, m.ino, tab[ip].num, bn);
      NothingHeld(vol.dev, vol.stack);
      nb := vol.BlkAlloc();
      if nb != 0 {
        itab[ip] := itab[ip].(node := itab[ip].node.(addr := itab[ip].node.addr[k := nb]));
        itab[ip] := itab[ip].(dirty := true);
        InstallInSlot(d, m, tab, vol.isize, vol.fsize, ip, itab[ip], k, bn);
        layout := Installed(m, Pos(itab[ip].num, k, Root));
        assert itab[..] == tab[ip := itab[ip]];
      }
    }

    /** One round of bmap's walk: looks entry idx up in indirect block nb, which position p
        describes, and allocates the entry in write mode. 0 means that it stays missing. */
    method Descend(nb: Word, idx: int, rwflg: int, ghost p: Pos, ghost n: int, ghost bn: Word) returns (next: Word)
      requires Ready() && ValidPos(layout.ino, p) && !p.path.Root? && idx == LastIndex(p.path)
      requires nb == ParentBlock(vol.disk, layout.ino, p) != 0 && Toward(p, n, bn)
      modifies `layout, vol.Repr()
      ensures Ready() && OtherDevices(old(vol.cache.logical), vol.cache.logical, vol.dev)
      ensures itab[..] == old(itab[..]) && layout.ino == old(layout.ino)
      ensures Keeps(old(vol.disk), layout.ino, vol.disk, layout.ino, n, bn)
      ensures rwflg != 0 || old(PtrAt(vol.disk, layout.ino, p)) != 0 ==>
                && vol.disk == old(vol.disk) && layout == old(layout) && vol.error == old(vol.error)
                && next == PtrAt(vol.disk, layout.ino, p)
      ensures next == 0 ==> vol.disk == old(vol.disk) && layout == old(layout)
      ensures next == 0 && rwflg == 0 ==> vol.stack == [] && vol.error == ENOSPC
      ensures next != 0 ==>
              next == PtrAt(vol.disk, layout.ino, p) && vol.isize <= next < vol.fsize && vol.error == old(vol.error)
    {
      hide GoodLayout, GoodFreeList, Consistent, OtherDevices, Keeps, NoneHeld, PosOf, Interior, WordAt, PtrAt;
      hide ParentBlock;
      ghost var d, m, l := vol.disk, layout, vol.cache.logical;
      ParentIsOwned(d, m, itab[..], vol.isize, vol.fsize, p, vol.dev);
      KeepsRefl(d, m.ino, n, bn);
      EntryOfParent(d, m.ino, p);
      PtrIsOwned(d, m, itab[..], vol.isize, vol.fsize, p);
      var i := vol.Bread(nb, 0);
      var buf := vol.Get(i);
      next := WordAt(buf, idx);
      if next == 0 && rwflg == 0 {
        ghost var l1 := vol.cache.logical;
        next := AllocEntry(i, nb, idx, p, n, bn);
        OtherDevicesTrans(vol.dev, l, l1, vol.cache.logical);
      } else {
        vol.Bfree(i, 0);
      }
    }

    /** Bmap's allocation of an entry of the indirect block in buffer i. */
    method AllocEntry(i: int, parent: Word, idx: int, ghost p: Pos, ghost n: int, ghost bn: Word) returns (nb: Word)
      requires Valid() && Missing(vol.disk, layout, p) && !p.path.Root? && idx == LastIndex(p.path)
      requires parent == ParentBlock(vol.disk, layout.ino, p) && parent !in vol.stack && Toward(p, n, bn)
      requires vol.cache.held == map[i := Hold(Key(vol.dev, parent), vol.disk(parent), true)]
      modifies `layout, vol.Repr()
      ensures Ready() && OtherDevices(old(vol.cache.logical), vol.cache.logical, vol.dev)
      ensures itab[..] == old(itab[..]) && layout.ino == old(layout.ino)
      ensures Keeps(old(vol.disk), layout.ino, vol.disk, layout.ino, n, bn)
      ensures nb == 0 ==> vol.disk == old(vol.disk) && layout == old(layout) && vol.stack == [] && vol.error == ENOSPC
      ensures nb != 0 ==>
              nb == PtrAt(vol.disk, layout.ino, p) && vol.isize <= nb < vol.fsize && vol.error == old(vol.error)
    {
      hide GoodLayout, GoodFreeList, Consistent, OtherDevices, Keeps, NoneHeld, WordAt, PtrAt, Write, InstalledDisk;
      hide ValidPos, HasParent, ParentBlock;
      ghost var d, m, l := vol.disk, layout, vol.cache.logical;
      KeepsRefl(d, m.ino, n, bn);
      OneHeld(vol.dev, vol.stack, i, vol.cache.held);
      nb := vol.BlkAlloc();
      LastReleased(i, vol.cache.held[i], vol.cache.held);
      if nb == 0 {
        vol.Bfree(i, 0);
      } else {
        InstallInBlock(d, m, itab[..], vol.isize, vol.fsize, p, n, bn);
        InstalledDiskIs(d, m, itab[..], vol.isize, vol.fsize, p);
        var buf := vol.Get(i);
        ghost var d1, l1 := vol.disk, vol.cache.logical;
        vol.PutBack(i, PutWord(buf, idx, nb), 1);
        InstallFreeList(d1, vol.disk, vol.isize, vol.fsize, vol.nfree, vol.free[..], vol.tfree, vol.stack, parent,
                        PutWord(buf, idx, nb));
        OtherDevicesTrans(vol.dev, l, l1, vol.cache.logical);
        layout := Installed(m, p);
      }
    }

    /** Bmap's "fetch the address from the inode", with allocation in write mode. */
    method FirstBlock(ip: int, k: int, rwflg: int, ghost bn: Word) returns (nb: Word)
      requires Ready() && Open(ip) && 0 <= k < 20
      requires Toward(Pos(itab[ip].num, k, Root), itab[ip].num, bn)
      modifies `layout, itab, vol.Repr()
      ensures Ready() && OtherDevices(old(vol.cache.logical), vol.cache.logical, vol.dev)
      ensures Keeps(old(vol.disk), old(layout.ino), vol.disk, layout.ino, old(itab[ip].num), bn)
      ensures OnlyAddr(old(itab[..]), itab[..], ip)
      ensures rwflg != 0 || old(itab[ip].node.addr)[k] != 0 || nb == 0 ==>
                vol.disk == old(vol.disk) && layout == old(layout) && itab[..] == old(itab[..])
      ensures rwflg != 0 || old(itab[ip].node.addr)[k] != 0 ==>
              nb == itab[ip].node.addr[k] && vol.error == old(vol.error)
      ensures nb == 0 && rwflg == 0 ==> vol.stack == [] && vol.error == ENOSPC
      ensures nb != 0 ==> nb == itab[ip].node.addr[k] && vol.isize <= nb < vol.fsize && vol.error == old(vol.error)
    {
      hide GoodLayout, GoodFreeList, Consistent, OtherDevices, Keeps, NoneHeld, PosOf, Interior;
      OtherDevicesRefl(vol.dev, vol.cache.logical);
      KeepsRefl(vol.disk, layout.ino, itab[ip].num, bn);
      SlotOfTable(vol.disk, layout, itab[..], vol.isize, vol.fsize, ip);
      nb := itab[ip].node.addr[k];
      if nb == 0 && rwflg == 0 {
        nb := AllocSlot(ip, k, bn);
      }
    }

    /** The disk block of logical block bn of the file in slot ip, or NULLBLK. Write mode
        (rwflg == 0) allocates what is missing. */
    method Bmap(ip: int, bn: Word, rwflg: int) returns (r: Word)
      requires Ready() && Open(ip) && Getmode(itab[ip].node.mode) != F_BDEV
      modifies `layout, itab, vol.Repr()
      ensures Ready() && OtherDevices(old(vol.cache.logical), vol.cache.logical, vol.dev)
      ensures Keeps(old(vol.disk), old(layout.ino), vol.disk, layout.ino, old(itab[ip].num), bn)
      ensures OnlyAddr(old(itab[..]), itab[..], ip)
      ensures rwflg != 0 || Lookup(old(vol.disk), old(itab[ip].node.addr), bn) != 0 ==>
                vol.disk == old(vol.disk) && layout == old(layout) && itab[..] == old(itab[..])
                  && vol.error == old(vol.error)
      ensures r == if Lookup(vol.disk, itab[ip].node.addr, bn) == 0 then NULLBLK
              else Lookup(vol.disk, itab[ip].node.addr, bn)
      ensures r == NULLBLK <==> Lookup(vol.disk, itab[ip].node.addr, bn) == 0
      ensures r == NULLBLK && rwflg == 0 ==> vol.stack == [] && vol.error == ENOSPC
      ensures r != NULLBLK ==> vol.isize <= r < vol.fsize && vol.error == old(vol.error)
    {
      hide GoodLayout, GoodFreeList, Consistent, OtherDevices, Keeps, NoneHeld, WordAt, PosOf, Interior, OnlyAddr;
      hide Lookup, PtrAt, ParentBlock;
      ghost var n := itab[ip].num;
      SlotOfTable(vol.disk, layout, itab[..], vol.isize, vol.fsize, ip);
      Walk(vol.disk, layout.ino, n, bn);
      if bn < NDIRECT {
        var nb := FirstBlock(ip, bn, rwflg, bn);
        OnlyAddrSlot(old(itab[..]), itab[..], ip);
        SlotOfTable(vol.disk, layout, itab[..], vol.isize, vol.fsize, ip);
        Walk(vol.disk, layout.ino, n, bn);
        return if nb == 0 then NULLBLK else nb;
      }
      var b, sh, j := bn - 18, 0, 2;
      if b / 256 != 0 {
        sh, b, j := 8, b - 256, 1;
      }
      r := BmapIndirect(ip, b, sh, j, rwflg, bn);
    }

    /** The rest of bmap beyond the direct blocks: b counts from the start of the single or
        double indirect range, sh is the shift of the first lookup, j the slot from the end. */
    method BmapIndirect(ip: int, b: int, shift: int, first: int, rwflg: int, bn: Word) returns (r: Word)
      requires Ready() && Open(ip)
      requires bn >= NDIRECT
      requires (b, shift, first) == if (bn - 18) / 256 != 0 then (bn - 274, 8, 1) else (bn - 18, 0, 2)
      modifies `layout, itab, vol.Repr()
      ensures Ready() && OtherDevices(old(vol.cache.logical), vol.cache.logical, vol.dev)
      ensures Keeps(old(vol.disk), old(layout.ino), vol.disk, layout.ino, old(itab[ip].num), bn)
      ensures OnlyAddr(old(itab[..]), itab[..], ip)
      ensures rwflg != 0 || Lookup(old(vol.disk), old(itab[ip].node.addr), bn) != 0 ==>
                vol.disk == old(vol.disk) && layout == old(layout) && itab[..] == old(itab[..])
                  && vol.error == old(vol.error)
      ensures r == if Lookup(vol.disk, itab[ip].node.addr, bn) == 0 then NULLBLK
              else Lookup(vol.disk, itab[ip].node.addr, bn)
      ensures r == NULLBLK <==> Lookup(vol.disk, itab[ip].node.addr, bn) == 0
      ensures r == NULLBLK && rwflg == 0 ==> vol.stack == [] && vol.error == ENOSPC
      ensures r != NULLBLK ==> vol.isize <= r < vol.fsize && vol.error == old(vol.error)
    {
      hide GoodLayout, GoodFreeList, Consistent, OtherDevices, Keeps, NoneHeld, WordAt, PosOf, Interior, OnlyAddr;
      hide Lookup, PtrAt, ParentBlock;
      ghost var d, m, tab, l, n := vol.disk, layout, itab[..], vol.cache.logical, itab[ip].num;
      SlotOfTable(d, m, tab, vol.isize, vol.fsize, ip);
      Walk(d, m.ino, n, bn);
      var sh, j := shift, first;
      var nb := FirstBlock(ip, 20 - j, rwflg, bn);
      OnlyAddrSlot(tab, itab[..], ip);
      SlotOfTable(vol.disk, layout, itab[..], vol.isize, vol.fsize, ip);
      Walk(vol.disk, layout.ino, n, bn);
      if nb == 0 {
        return NULLBLK;
      }
      while j <= 2
        invariant first <= j <= 3 && sh == 16 - 8 * j
        invariant Ready() && Open(ip) && itab[ip].num == n < |layout.ino| && layout.ino[n] == itab[ip].node.addr
        invariant OtherDevices(l, vol.cache.logical, vol.dev)
        invariant Keeps(d, m.ino, vol.disk, layout.ino, n, bn) && OnlyAddr(tab, itab[..], ip)
        invariant rwflg != 0 || Lookup(d, m.ino[n], bn) != 0 ==> vol.disk == d && layout == m && itab[..] == tab
        invariant vol.error == old(vol.error) && nb != 0 && vol.isize <= nb < vol.fsize
        invariant j == 1 ==> nb == layout.ino[n][19]
        invariant j == 2 ==> nb == ParentBlock(vol.disk, layout.ino, PosOf(n, bn))
        invariant j == 3 ==> nb == Lookup(vol.disk, layout.ino[n], bn)
      {
        ghost var d', m', tab', l' := vol.disk, layout, itab[..], vol.cache.logical;
        Walk(d', m'.ino, n, bn);
        var i := (if sh == 8 then b / 256 else b) % 256;
        nb := Descend(nb, i, rwflg, if j == 1 then Pos(n, 19, Mid((bn - 274) / 256)) else PosOf(n, bn), n, bn);
        OtherDevicesTrans(vol.dev, l, l', vol.cache.logical);
        KeepsTrans(d, m.ino, d', m'.ino, vol.disk, layout.ino, n, bn);
        Walk(vol.disk, layout.ino, n, bn);
        if nb == 0 {
          return NULLBLK;
        }
        sh, j := sh - 8, j + 1;
      }
      return nb;
    }

    // ----- Truncation -----

    /** Freeblk for slot k of the inode in slot ip, the later slots being freed already; d and
        s are the disk and the free stack before the first. */
    method FreeSlot(ip: int, k: int, level: int, ghost d: Disk, ghost s: seq<Word>, ghost l: Storage)
      requires vol.Valid() && vol.cache.held == map[] && 0 <= ip < itab.Length && 0 <= k < 20 && level == Level(k)
      requires {this as object, itab} !! vol.Repr()
      requires 0 < vol.isize && NoDup(s + Slots(d, itab[ip].node.addr, 0))
      requires forall b | b in Slots(d, itab[ip].node.addr, 0) :: vol.isize <= b < vol.fsize
      requires vol.stack == s + Slots(d, itab[ip].node.addr, k + 1)
      requires SameOff(d, vol.disk, Slots(d, itab[ip].node.addr, k + 1))
      requires OtherDevices(l, vol.cache.logical, vol.dev)
      modifies vol.Repr()
      ensures vol.Valid() && vol.cache.held == map[] && vol.error == old(vol.error)
      ensures vol.stack == s + Slots(d, itab[ip].node.addr, k)
      ensures SameOff(d, vol.disk, Slots(d, itab[ip].node.addr, k))
      ensures OtherDevices(l, vol.cache.logical, vol.dev)
    {
      hide GoodFreeList, Consistent, OtherDevices, NoneHeld, Freeable, Order, Slots, NoDup, SameOff, Level;
      ghost var addr, now, l1 := itab[ip].node.addr, vol.disk, vol.cache.logical;
      ghost var freed, tree := Slots(d, addr, k + 1), Order(d, addr[k], Level(k));
      SlotFreeable(d, now, vol.dev, vol.isize, vol.fsize, addr, k, s);
      vol.FreeBlk(itab[ip].node.addr[k], level);
      OtherDevicesTrans(vol.dev, l, l1, vol.cache.logical);
      SameOffTrans(d, now, vol.disk, freed, tree);
      ConcatAssoc(s, freed, tree);
    }

    /** Frees every block of the file in slot ip and makes it empty. */
    method Ftrunc(ip: int)
      requires Ready() && Open(ip)
      modifies `layout, itab, vol.Repr()
      ensures Ready() && OtherDevices(old(vol.cache.logical), vol.cache.logical, vol.dev)
      ensures vol.stack == old(vol.stack) + Slots(old(vol.disk), old(itab[ip].node.addr), 0)
      ensures SameInodeBlocks(old(vol.disk), vol.disk, old(layout.ino))
      ensures vol.tfree == old(vol.tfree) + |Slots(old(vol.disk), old(itab[ip].node.addr), 0)|
      ensures layout.ino == old(layout.ino)[itab[ip].num := NO_BLOCKS]
      ensures itab[..] == old(itab[..])[ip := old(itab[ip]).(
                node := old(itab[ip].node).(addr := NO_BLOCKS, sizeBlk := 0, sizeOff := 0), dirty := true)]
      ensures Untouched(old(vol.disk), old(layout.ino), old(itab[..]), vol.disk, layout.ino, itab[..],
                        {itab[ip].num as int})
      ensures vol.error == old(vol.error)
    {
      hide GoodLayout, GoodFreeList, Consistent, OtherDevices, Slots, NoDup, SameOff, Untouched, SameInodeBlocks;
      ghost var d, m, tab, l, s := vol.disk, layout, itab[..], vol.cache.logical, vol.stack;
      ghost var addr := itab[ip].node.addr;
      vol.StackIsTfree();
      TruncStart(d, m, tab, vol.isize, vol.fsize, ip, vol.dev, l);
      FreeSlot(ip, 19, 2, d, s, l);
      FreeSlot(ip, 18, 1, d, s, l);
      for j := 18 downto 0
        invariant vol.Valid() && vol.cache.held == map[] && vol.error == old(vol.error) && itab[..] == tab
                  && layout == m
        invariant vol.stack == s + Slots(d, addr, j) && SameOff(d, vol.disk, Slots(d, addr, j))
        invariant OtherDevices(l, vol.cache.logical, vol.dev)
      {
        FreeSlot(ip, j, 0, d, s, l);
      }
      itab[ip] := itab[ip].(node := itab[ip].node.(addr := NO_BLOCKS));
      itab[ip] := itab[ip].(dirty := true);
      itab[ip] := itab[ip].(node := itab[ip].node.(sizeBlk := 0));
      itab[ip] := itab[ip].(node := itab[ip].node.(sizeOff := 0));
      TruncEnd(d, vol.disk, m, tab, vol.isize, vol.fsize, ip, itab[ip]);
      layout := Truncated(m, itab[ip].num, Slots(d, addr, 0));
      assert itab[..] == tab[ip := itab[ip]];
      vol.StackIsTfree();
    }

    // ----- Reading and writing -----

    /** What readi's loop fetches in one round: the block under the file offset. */
    method FetchBlock(ip: int) returns (b: Block)
      requires Ready() && Open(ip) && Getmode(itab[ip].node.mode) != F_BDEV
      modifies `layout, itab, vol.Repr()
      ensures Ready() && OtherDevices(old(vol.cache.logical), vol.cache.logical, vol.dev)
      ensures vol.disk == old(vol.disk) && layout == old(layout) && itab[..] == old(itab[..])
              && vol.error == old(vol.error)
      ensures b == FileBlock(vol.disk, itab[ip].node.addr, uOffset.blkno)
    {
      hide GoodLayout, GoodFreeList, Consistent, OtherDevices, Keeps, NoneHeld, WordAt, Lookup;
      ghost var l := vol.cache.logical;
      var pblk := Bmap(ip, uOffset.blkno, 1);
      ghost var l1 := vol.cache.logical;
      if pblk != NULLBLK {
        b := vol.ReadBlock(pblk);
        OtherDevicesTrans(vol.dev, l, l1, vol.cache.logical);
      } else {
        b := vol.ReadZero();
      }
    }

    /** What writei's loop does in one round: allocates the block under the file offset if
        needed and stores data in it. */
    method StoreChunk(ip: int, data: seq<Byte>) returns (ok: bool)
      requires Ready() && Open(ip) && Getmode(itab[ip].node.mode) != F_BDEV
      requires GoodOff(uOffset) && uOffset.offset + |data| <= 512
      modifies `layout, itab, vol.Repr()
      ensures Ready() && OtherDevices(old(vol.cache.logical), vol.cache.logical, vol.dev)
      ensures OnlyAddr(old(itab[..]), itab[..], ip)
      ensures ok ==>
                && OnlyBlock(old(vol.disk), old(layout.ino), vol.disk, layout.ino, old(itab[ip].num), uOffset.blkno,
                             Splice(FileBlock(old(vol.disk), old(itab[ip].node.addr), uOffset.blkno), uOffset.offset,
                                    data))
                && vol.error == old(vol.error)
      ensures Lookup(old(vol.disk), old(itab[ip].node.addr), uOffset.blkno) != 0 ==> ok
      ensures !ok ==>
                && Keeps(old(vol.disk), old(layout.ino), vol.disk, layout.ino, old(itab[ip].num), uOffset.blkno)
                && old(itab[ip].num) < |layout.ino|
                && Lookup(vol.disk, layout.ino[old(itab[ip].num)], uOffset.blkno) == 0
                && vol.stack == [] && vol.error == ENOSPC
    {
      hide GoodLayout, GoodFreeList, Consistent, OtherDevices, Keeps, NoneHeld, WordAt, Lookup, OnlyBlock, Write;
      hide Splice, FileBlock;
      ghost var d, ino, l, n, bn := vol.disk, layout.ino, vol.cache.logical, itab[ip].num, uOffset.blkno;
      SlotOfTable(d, layout, itab[..], vol.isize, vol.fsize, ip);
      var pblk := Bmap(ip, uOffset.blkno, 0);
      ghost var d1, l1 := vol.disk, vol.cache.logical;
      OnlyAddrSlot(old(itab[..]), itab[..], ip);
      SlotOfTable(d1, layout, itab[..], vol.isize, vol.fsize, ip);
      if pblk == NULLBLK {
        return false;
      }
      vol.WriteInto(pblk, uOffset.offset, data);
      OtherDevicesTrans(vol.dev, l, l1, vol.cache.logical);
      StoreStays(d1, vol.disk, layout, itab[..], vol.isize, vol.fsize, n, bn, uOffset.offset, data);
      InstallFreeList(d1, vol.disk, vol.isize, vol.fsize, vol.nfree, vol.free[..], vol.tfree, vol.stack,
                      pblk, Splice(d1(pblk), uOffset.offset, data));
      StoreAfterMap(d, ino, d1, vol.disk, layout.ino, n, bn, uOffset.offset, data);
      return true;
    }

    /** The pipe half of a loop round: the size moves by amount and the other end is woken. */
    method Move(ip: int, amount: int)
      requires Ready() && Open(ip) && itab[ip].node.nlink == 0 && GoodOff(SizeOf(itab[ip].node))
               && -512 <= amount <= 512
      modifies `layout, `wakeups, itab
      ensures Ready() && layout.ino == old(layout.ino) && wakeups == old(wakeups) + 1
      ensures itab[..] == old(itab[..])[ip := Resized(old(itab[ip]), AddOff(SizeOf(old(itab[ip].node)), amount))]
    {
      hide GoodLayout, GoodFreeList, Consistent, AddOff;
      var size := AddOff(SizeOf(itab[ip].node), amount);
      AddOffAdds(SizeOf(itab[ip].node), amount);
      ghost var tab := itab[..];
      ResizePipe(vol.disk, layout, tab, vol.isize, vol.fsize, ip, size);
      itab[ip] := itab[ip].(node := itab[ip].node.(sizeBlk := size.blkno, sizeOff := size.offset));
      assert itab[..] == tab[ip := itab[ip]];
      wakeups := wakeups + 1;
    }

    /** One round of readi's loop. */
    method ReadRound(ip: int, mem: array<Byte>, amount: int, ispipe: bool)
      requires Ready() && Open(ip) && Getmode(itab[ip].node.mode) != F_BDEV && mem !in Repr()
      requires GoodOff(uOffset) && 0 < amount <= 512 - uOffset.offset && 0 <= uBase && uBase + amount <= mem.Length
      requires ispipe ==> itab[ip].node.nlink == 0 && GoodOff(SizeOf(itab[ip].node))
      modifies this, itab, vol.Repr(), mem
      ensures Ready() && OtherDevices(old(vol.cache.logical), vol.cache.logical, vol.dev)
      ensures vol.disk == old(vol.disk) && layout.ino == old(layout.ino) && vol.error == old(vol.error)
              && uCount == old(uCount)
      ensures itab[..] == if !ispipe then old(itab[..])
                          else old(itab[..])[ip := Resized(old(itab[ip]), AddOff(SizeOf(old(itab[ip].node)), -amount))]
      ensures wakeups == old(wakeups) + if ispipe then 1 else 0
      ensures uBase == old(uBase) + amount && uOffset == NextOff(old(uOffset), amount, ispipe)
      ensures mem[..] == old(mem[..])[..old(uBase)]
                         + FileBlock(vol.disk, old(itab[ip].node.addr),
                                     old(uOffset).blkno)[old(uOffset).offset..old(uOffset).offset + amount]
                         + old(mem[..])[old(uBase) + amount..]
    {
      hide GoodLayout, GoodFreeList, Consistent, OtherDevices, FileBlock, AddOff, SizeOf, Resized;
      var buf := FetchBlock(ip);
      Bcopy(buf[uOffset.offset..uOffset.offset + amount], mem, uBase);
      uBase := uBase + amount;
      uOffset := NextOff(uOffset, amount, ispipe);
      if ispipe {
        Move(ip, -amount);
      }
    }

    /** One round of writei's loop; false when there was no space. */
    method WriteRound(ip: int, mem: array<Byte>, amount: int, ispipe: bool) returns (ok: bool)
      requires Ready() && Open(ip) && Getmode(itab[ip].node.mode) != F_BDEV && mem !in Repr()
      requires GoodOff(uOffset) && 0 < amount <= 512 - uOffset.offset && 0 <= uBase && uBase + amount <= mem.Length
      requires ispipe ==> itab[ip].node.nlink == 0 && GoodOff(SizeOf(itab[ip].node))
      modifies this, itab, vol.Repr()
      ensures Ready() && OtherDevices(old(vol.cache.logical), vol.cache.logical, vol.dev) && uCount == old(uCount)
      ensures ispipe && ok ==> Getsize(itab[ip]) == AddOff(Getsize(old(itab[ip])), amount)
      ensures !(ispipe && ok) ==> Getsize(itab[ip]) == Getsize(old(itab[ip]))
      ensures SameSlot(old(itab[..]), itab[..], ip)
      ensures wakeups == old(wakeups) + if ispipe && ok then 1 else 0
      ensures ok ==>
                && uBase == old(uBase) + amount && uOffset == NextOff(old(uOffset), amount, ispipe)
                && vol.error == old(vol.error)
                && OnlyBlock(old(vol.disk), old(layout.ino), vol.disk, layout.ino, old(itab[ip].num),
                             old(uOffset).blkno,
                             Splice(FileBlock(old(vol.disk), old(itab[ip].node.addr), old(uOffset).blkno),
                                    old(uOffset).offset,
                                    mem[old(uBase)..old(uBase) + amount]))
      ensures Lookup(old(vol.disk), old(itab[ip].node.addr), old(uOffset).blkno) != 0 ==> ok
      ensures !ok ==>
                && uBase == old(uBase) && uOffset == old(uOffset) && vol.stack == [] && vol.error == ENOSPC
                && old(itab[ip].num) < |layout.ino|
                && Lookup(vol.disk, layout.ino[old(itab[ip].num)], old(uOffset).blkno) == 0
                && Keeps(old(vol.disk), old(layout.ino), vol.disk, layout.ino, old(itab[ip].num), old(uOffset).blkno)
    {
      hide GoodLayout, GoodFreeList, Consistent, OtherDevices, FileBlock, AddOff, OnlyBlock, Splice, Keeps, OnlyAddr;
      hide SameSlot, Resized, Lookup;
      ok := StoreChunk(ip, mem[uBase..uBase + amount]);
      OnlyAddrSlot(old(itab[..]), itab[..], ip);
      if ok {
        uBase := uBase + amount;
        uOffset := NextOff(uOffset, amount, ispipe);
        if ispipe {
          ghost var tab := itab[..];
          AddOffAdds(SizeOf(itab[ip].node), amount);
          Move(ip, amount);
          ResizeSlot(old(itab[..]), tab, itab[..], ip, AddOff(Getsize(tab[ip]), amount));
        }
      }
    }

    /** Readi's loop. */
    method ReadLoop(ip: int, mem: array<Byte>, count: Word, ispipe: bool)
      requires Ready() && Open(ip) && Getmode(itab[ip].node.mode) != F_BDEV && mem !in Repr()
      requires GoodOff(uOffset) && count <= 0x7FFF && 0 <= uBase && uBase + count <= mem.Length
      requires ispipe ==>
               uOffset.blkno < 18 && itab[ip].node.nlink == 0 && GoodOff(Getsize(itab[ip]))
               && count <= Position(Getsize(itab[ip]))
      modifies this, itab, vol.Repr(), mem
      ensures Ready() && OtherDevices(old(vol.cache.logical), vol.cache.logical, vol.dev)
      ensures vol.disk == old(vol.disk) && layout.ino == old(layout.ino) && vol.error == old(vol.error)
              && uCount == old(uCount)
      ensures Filled(mem[..], old(mem[..]), old(uBase), count, vol.disk, old(itab[ip].node.addr),
                     old(Position(uOffset)), ispipe)
      ensures uBase == old(uBase) + count
      ensures GoodOff(uOffset) && Position(uOffset) == Around(old(Position(uOffset)) + count, ispipe)
      ensures ispipe ==> uOffset.blkno < 18
      ensures if ispipe then ShrunkBy(old(itab[..]), itab[..], ip, count) else itab[..] == old(itab[..])
      ensures wakeups > old(wakeups) <==> ispipe && count > 0
      ensures wakeups >= old(wakeups)
    {
      hide GoodLayout, GoodFreeList, Consistent, OtherDevices, FileBlock, AddOff, NextOff, Chunk, Midway, Filled;
      hide ShrunkBy, Around;
      ghost var l, was, base, start, d, tab, w := vol.cache.logical, mem[..], uBase, Position(uOffset), vol.disk,
        itab[..], wakeups;
      OtherDevicesRefl(vol.dev, l);
      MidwayStart(was, base, d, uOffset, ispipe, tab, ip);
      var toread: int := count;
      while toread > 0
        invariant 0 <= toread <= count && uBase == base + (count - toread)
        invariant Ready() && Open(ip) && OtherDevices(l, vol.cache.logical, vol.dev)
        invariant vol.disk == d && layout.ino == old(layout.ino) && vol.error == old(vol.error) && uCount == old(uCount)
        invariant Midway(mem[..], was, base, count - toread, d, start, ispipe, uOffset, tab, itab[..], ip)
        invariant if ispipe && toread < count then wakeups > w else wakeups == w
      {
        ghost var done, before, tab1, o, l1 := count - toread, mem[..], itab[..], uOffset, vol.cache.logical;
        MidwaySlot(before, was, base, done, d, start, ispipe, o, tab, tab1, ip);
        ChunkFits(toread, uOffset);
        var amount := Chunk(toread, uOffset);
        ReadRound(ip, mem, amount, ispipe);
        OtherDevicesTrans(vol.dev, l, l1, vol.cache.logical);
        MidwayStep(before, mem[..], was, base, done, d, start, ispipe, o, tab, tab1, itab[..], ip, amount);
        toread := toread - amount;
        assert count - toread == done + amount;
      }
      MidwayEnd(mem[..], was, base, count, d, start, ispipe, uOffset, tab, itab[..], ip);
    }

    /** Writei's loop; left bytes did not fit on the disk. */
    method WriteLoop(ip: int, mem: array<Byte>, count: Word, ispipe: bool) returns (left: int)
      requires Ready() && Open(ip) && Getmode(itab[ip].node.mode) != F_BDEV && mem !in Repr()
      requires GoodOff(uOffset) && count <= 0x7FFF && 0 <= uBase && uBase + count <= mem.Length
      requires ispipe ==>
               uOffset.blkno < 18 && itab[ip].node.nlink == 0 && GoodOff(Getsize(itab[ip]))
               && Position(Getsize(itab[ip])) + count <= 8192
      modifies this, itab, vol.Repr()
      ensures Ready() && OtherDevices(old(vol.cache.logical), vol.cache.logical, vol.dev) && uCount == old(uCount)
      ensures 0 <= left <= count && uBase == old(uBase) + (count - left)
      ensures Wrote(old(vol.disk), old(layout.ino), vol.disk, layout.ino, old(itab[ip].num), old(Position(uOffset)),
                    count - left,
                    mem[old(uBase)..old(uBase) + count], ispipe)
      ensures GoodOff(uOffset) && Position(uOffset) == Around(old(Position(uOffset)) + (count - left), ispipe)
      ensures ispipe ==> uOffset.blkno < 18
      ensures SameSlot(old(itab[..]), itab[..], ip)
      ensures ispipe ==>
              GoodOff(Getsize(itab[ip]))
              && Position(Getsize(itab[ip])) == old(Position(Getsize(itab[ip]))) + (count - left)
      ensures !ispipe ==> Getsize(itab[ip]) == old(Getsize(itab[ip]))
      ensures wakeups > old(wakeups) <==> ispipe && left < count
      ensures wakeups >= old(wakeups)
      ensures left > 0 ==> vol.stack == [] && vol.error == ENOSPC
      ensures left == 0 ==> vol.error == old(vol.error)
      ensures left > 0 ==> Lookup(old(vol.disk), old(itab[ip].node.addr),
                                  FirstBlockOf(old(Position(uOffset)) + (count - left), ispipe)) == 0
      ensures left == count || count - left >= Lesser(count, 512 - old(uOffset.offset))
    {
      hide GoodLayout, GoodFreeList, Consistent, OtherDevices, FileBlock, AddOff, NextOff, Chunk, MidWrite, Wrote;
      hide SameSlot, Around, Splice, OnlyBlock, Keeps, Lookup, FirstBlockOf;
      ghost var l, base, start, d, ino, tab, w, e := vol.cache.logical, uBase, Position(uOffset), vol.disk, layout.ino,
        itab[..], wakeups, vol.error;
      ghost var data := mem[base..base + count];
      SlotOfTable(d, layout, tab, vol.isize, vol.fsize, ip);
      OtherDevicesRefl(vol.dev, l);
      MidWriteStart(d, ino, data, ispipe, uOffset, tab, ip);
      var towrite: int := count;
      while towrite > 0
        invariant 0 <= towrite <= count && uBase == base + (count - towrite)
        invariant Ready() && Open(ip) && OtherDevices(l, vol.cache.logical, vol.dev) && uCount == old(uCount)
        invariant MidWrite(d, ino, vol.disk, layout.ino, start, count - towrite, data, ispipe, uOffset, tab, itab[..],
                           ip)
        invariant if ispipe && towrite < count then wakeups > w else wakeups == w
        invariant vol.error == e
        invariant towrite == count ==> uOffset == old(uOffset)
        invariant towrite == count || count - towrite >= Lesser(count, 512 - old(uOffset.offset))
      {
        ghost var done, d1, ino1, tab1, o, l1 := count - towrite, vol.disk, layout.ino, itab[..], uOffset,
          vol.cache.logical;
        MidWriteSlot(d, ino, d1, ino1, start, done, data, ispipe, o, tab, tab1, ip);
        SlotOfTable(d1, layout, tab1, vol.isize, vol.fsize, ip);
        ChunkFits(towrite, uOffset);
        var amount := Chunk(towrite, uOffset);
        SubChunk(mem[..], base, count, done, amount);
        var ok := WriteRound(ip, mem, amount, ispipe);
        OtherDevicesTrans(vol.dev, l, l1, vol.cache.logical);
        SameSlotKind(tab1, itab[..], ip);
        if !ok {
          StoppedAtHole(d, ino, d1, ino1, start, done, data, ispipe, o, tab, tab1, ip);
          MidWriteStop(d, ino, d1, ino1, vol.disk, layout.ino, start, done, data, ispipe, o, tab, tab1, itab[..], ip);
          break;
        }
        MidWriteStep(d, ino, d1, ino1, vol.disk, layout.ino, start, done, data, ispipe, o, tab, tab1, itab[..], ip,
                     amount);
        towrite := towrite - amount;
        assert count - towrite == done + amount;
      }
      left := towrite;
      MidWriteEnd(d, ino, vol.disk, layout.ino, start, count - left, data, ispipe, uOffset, tab, itab[..], ip);
    }

    /** Reads up to uCount bytes at the file offset into memory. sleep means that a pipe is
        empty while it has another user: the process gives up the processor and tries again. */
    method Readi(ip: int, mem: array<Byte>) returns (sleep: bool)
      requires Ready() && Open(ip) && mem !in Repr() && GoodOff(uOffset) && GoodOff(Getsize(itab[ip])) && 0 <= uBase
      requires Getmode(itab[ip].node.mode) != F_BDEV && Getmode(itab[ip].node.mode) != F_CDEV
      requires IsFile(itab[ip].node) ==> ReadLimit(Getsize(itab[ip]), uOffset, uCount) <= 0x7FFF
                                         && uBase + ReadLimit(Getsize(itab[ip]), uOffset, uCount) <= mem.Length
      requires IsPipe(itab[ip].node) ==>
               GoodPipe(itab[ip].node, uOffset) && uCount <= 0x7FFF && uBase + uCount <= mem.Length
      modifies this, itab, vol.Repr(), mem
      ensures Ready() && OtherDevices(old(vol.cache.logical), vol.cache.logical, vol.dev)
      ensures vol.disk == old(vol.disk) && layout.ino == old(layout.ino)
      ensures !IsFile(old(itab[ip].node)) && !IsPipe(old(itab[ip].node)) ==>
                vol.error == ENODEV && mem[..] == old(mem[..]) && itab[..] == old(itab[..]) && uOffset == old(uOffset)
      ensures IsFile(old(itab[ip].node)) ==>
                && !sleep && vol.error == old(vol.error) && itab[..] == old(itab[..]) && wakeups == old(wakeups)
                && uCount == old(ReadLimit(Getsize(itab[ip]), uOffset, uCount))
                && Transferred(old(uBase), old(uOffset), uBase, uOffset, uCount, false)
                && Filled(mem[..], old(mem[..]), old(uBase), uCount, vol.disk, old(itab[ip].node.addr),
                          old(Position(uOffset)), false)
      ensures IsPipe(old(itab[ip].node)) ==>
                && (sleep <==> old(Position(Getsize(itab[ip]))) == 0 && old(itab[ip].refs) != 1)
                && vol.error == old(vol.error)
                && (sleep ==> mem[..] == old(mem[..]) && itab[..] == old(itab[..]) && uOffset == old(uOffset)
                              && uCount == old(uCount) && wakeups == old(wakeups))
                && (!sleep ==> && uCount == Lesser(old(uCount), old(Position(Getsize(itab[ip]))))
                               && ShrunkBy(old(itab[..]), itab[..], ip, uCount)
                               && (wakeups > old(wakeups) <==> uCount > 0)
                               && Transferred(old(uBase), old(uOffset), uBase, uOffset, uCount, true)
                               && Filled(mem[..], old(mem[..]), old(uBase), uCount, vol.disk, old(itab[ip].node.addr),
                                         old(Position(uOffset)), true))
    {
      hide GoodLayout, GoodFreeList, Consistent, OtherDevices, AddOff, Filled, Around, ShrunkBy, ReadLimit, Min16;
      OtherDevicesRefl(vol.dev, vol.cache.logical);
      sleep := false;
      var mode := Getmode(itab[ip].node.mode);
      if mode == F_DIR || mode == F_REG {
        uCount := ReadLimit(Getsize(itab[ip]), uOffset, uCount);
        ReadLoop(ip, mem, uCount, false);
      } else if mode == F_PIPE {
        PsizeIs(Getsize(itab[ip]));
        if Psize(Getsize(itab[ip])) == 0 && itab[ip].refs != 1 {
          return true;
        }
        MinIs(uCount, Psize(Getsize(itab[ip])));
        uCount := ToWord(Min16(uCount, Psize(Getsize(itab[ip]))));
        ReadLoop(ip, mem, uCount, true);
      } else {
        vol.error := ENODEV;
      }
    }

    /** Writes uCount bytes from memory at the file offset. sleep means that a pipe has no room
        while it has another user; sigpipe that it has none. */
    method Writei(ip: int, mem: array<Byte>) returns (sleep: bool, sigpipe: bool)
      requires Ready() && Open(ip) && mem !in Repr() && GoodOff(uOffset) && GoodOff(Getsize(itab[ip]))
      requires 0 <= uBase && uBase + uCount <= mem.Length
      requires Getmode(itab[ip].node.mode) != F_BDEV && Getmode(itab[ip].node.mode) != F_CDEV
      requires IsFile(itab[ip].node) ==> uCount <= 0x7FFF
      requires IsPipe(itab[ip].node) ==> GoodPipe(itab[ip].node, uOffset)
      modifies this, itab, vol.Repr()
      ensures Ready() && OtherDevices(old(vol.cache.logical), vol.cache.logical, vol.dev)
      ensures !IsFile(old(itab[ip].node)) && !IsPipe(old(itab[ip].node)) ==>
                vol.error == ENODEV && vol.disk == old(vol.disk) && itab[..] == old(itab[..]) && uOffset == old(uOffset)
      ensures IsFile(old(itab[ip].node)) ==>
                var done := uBase - old(uBase);
                && !sleep && !sigpipe && 0 <= done <= uCount == old(uCount) && wakeups == old(wakeups)
                && Transferred(old(uBase), old(uOffset), uBase, uOffset, done, false)
                && Wrote(old(vol.disk), old(layout.ino), vol.disk, layout.ino, old(itab[ip].num),
                         old(Position(uOffset)), done,
                         mem[old(uBase)..old(uBase) + uCount], false)
                && (if done < uCount then vol.stack == [] && vol.error == ENOSPC else vol.error == old(vol.error))
                && (done < uCount ==>
                      Lookup(old(vol.disk), old(itab[ip].node.addr), FirstBlockOf(old(Position(uOffset)) + done, false))
                        == 0)
                && (done == 0 || done >= Lesser(uCount, 512 - old(uOffset.offset)))
                && SameSlot(old(itab[..]), itab[..], ip)
                && Getsize(itab[ip]) == GrownSize(old(Getsize(itab[ip])), uOffset)
                && (Position(Getsize(itab[ip])) ==
                    Larger(old(Position(Getsize(itab[ip]))), old(Position(uOffset)) + done)
                    <==> old(Position(uOffset)) + done < FILE_MODULUS)
      ensures IsPipe(old(itab[ip].node)) && old(uCount) > 8192 - old(Position(Getsize(itab[ip]))) ==>
                && vol.disk == old(vol.disk) && layout == old(layout) && itab[..] == old(itab[..])
                && uOffset == old(uOffset) && wakeups == old(wakeups)
                && sleep == (old(itab[ip].refs) != 1) && sigpipe == !sleep
                && (if sleep then uCount == old(uCount) && vol.error == old(vol.error)
                    else uCount == 0xFFFF && vol.error == EPIPE)
      ensures IsPipe(old(itab[ip].node)) && old(uCount) <= 8192 - old(Position(Getsize(itab[ip]))) ==>
                var done := uBase - old(uBase);
                && !sleep && !sigpipe && 0 <= done <= uCount == old(uCount) && (wakeups > old(wakeups) <==> done > 0)
                && Transferred(old(uBase), old(uOffset), uBase, uOffset, done, true)
                && Wrote(old(vol.disk), old(layout.ino), vol.disk, layout.ino, old(itab[ip].num),
                         old(Position(uOffset)), done,
                         mem[old(uBase)..old(uBase) + uCount], true)
                && (if done < uCount then vol.stack == [] && vol.error == ENOSPC else vol.error == old(vol.error))
                && SameSlot(old(itab[..]), itab[..], ip) && GoodOff(Getsize(itab[ip]))
                && Position(Getsize(itab[ip])) == old(Position(Getsize(itab[ip]))) + done
    {
      hide GoodLayout, GoodFreeList, Consistent, OtherDevices, AddOff, Wrote, Around, SameSlot, Position, GoodOff;
      hide Lookup, FirstBlockOf;
      OtherDevicesRefl(vol.dev, vol.cache.logical);
      sleep, sigpipe := false, false;
      var mode := Getmode(itab[ip].node.mode);
      if mode == F_DIR || mode == F_REG {
        var _ := WriteLoop(ip, mem, uCount, false);
        SameSlotKind(old(itab[..]), itab[..], ip);
        PositionOrder(uOffset, Getsize(itab[ip]));
        SizeIsExact(Getsize(itab[ip]), old(uOffset), uOffset, uBase - old(uBase));
        if uOffset.blkno > itab[ip].node.sizeBlk
          || (uOffset.blkno == itab[ip].node.sizeBlk && uOffset.offset > itab[ip].node.sizeOff) {
          ghost var tab := itab[..];
          SetSize(ip, uOffset);
          ResizeSlot(old(itab[..]), tab, itab[..], ip, uOffset);
        }
      } else if mode == F_PIPE {
        PsizeIs(Getsize(itab[ip]));
        if uCount > ToWord(16 * 512 - Psize(Getsize(itab[ip]))) {
          if itab[ip].refs == 1 {
            uCount := ToWord(-1);
            vol.error := EPIPE;
            sigpipe := true;
            return;
          }
          sleep := true;
          return;
        }
        var _ := WriteLoop(ip, mem, uCount, true);
      } else {
        vol.error := ENODEV;
      }
    }

    /** Writei's update of the size of a file that grew. */
    method SetSize(ip: int, size: Off)
      requires Ready() && Open(ip) && GoodOff(size)
      modifies `layout, itab
      ensures Ready() && layout.ino == old(layout.ino)
      ensures itab[..] == old(itab[..])[ip := Resized(old(itab[ip]), size).(dirty := true)]
    {
      hide GoodLayout, GoodFreeList, Consistent;
      ghost var tab := itab[..];
      ResizeFile(vol.disk, layout, tab, vol.isize, vol.fsize, ip, size);
      itab[ip] := itab[ip].(node := itab[ip].node.(sizeBlk := size.blkno));
      itab[ip] := itab[ip].(node := itab[ip].node.(sizeOff := size.offset));
      itab[ip] := itab[ip].(dirty := true);
      assert itab[..] == tab[ip := itab[ip]];
    }
  }

  /** Bcopy of src to base. */
  method Bcopy(src: seq<Byte>, mem: array<Byte>, base: int)
    requires 0 <= base && base + |src| <= mem.Length
    modifies mem
    ensures mem[..] == old(mem[..])[..base] + src + old(mem[..])[base + |src|..]
  {
    for i := 0 to |src|
      invariant forall k | 0 <= k < mem.Length :: mem[k] == if base <= k < base + i then src[k - base] else old(mem[k])
    {
      mem[base + i] := src[i];
    }
  }
}
