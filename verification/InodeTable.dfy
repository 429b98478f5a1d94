/** The in-core inode table and the inode numbers (fs/filesys.c: i_open, i_deref, wr_inode,
    i_alloc, i_free; kernel/scall1.c: _sync). */
module InodeTable {
  import opened Types
  import opened BufferCache
  import opened FreeList
  import opened FreeOrder
  import opened BlockMap
  import opened Volume
  import opened Inode
  import opened FileSystem
  import opened Mkfs

  const NINODES := 50

  // ----- The table as a cache of inodes -----

  /** Every inode looks the same, in either state. */
  ghost predicate SameInodes(d: Disk, tab: seq<Cinode>, d': Disk, tab': seq<Cinode>) {
    forall n: Word | n != 0 :: Current(d', tab', n) == Current(d, tab, n)
  }

  lemma {:induction false} SameInodesTrans(d1: Disk, t1: seq<Cinode>, d2: Disk, t2: seq<Cinode>, d3: Disk,
      t3: seq<Cinode>)
    requires SameInodes(d1, t1, d2, t2) && SameInodes(d2, t2, d3, t3)
    ensures SameInodes(d1, t1, d3, t3)
  {
    hide Current;
  }

  lemma {:induction false} SameInodesRefl(d: Disk, t: seq<Cinode>)
    ensures SameInodes(d, t, d, t)
  {
  }

  /** Writing the inode of a slot back to its block. */
  lemma {:induction false} WriteBack(d: Disk, m: Layout, tab: seq<Cinode>, lo: Word, hi: Word, ip: int, d': Disk,
      c: Cinode)
    requires GoodLayout(d, m, tab, lo, hi) && 0 <= ip < |tab| && tab[ip].num != 0
    requires d' == Write(d, InodeBlock(tab[ip].num),
                         EncodeInode(d(InodeBlock(tab[ip].num)), tab[ip].num % 8, tab[ip].node))
    requires c == tab[ip].(dirty := false)
    ensures 2 <= InodeBlock(tab[ip].num) < lo
    ensures forall n: Word :: DiskNode(d', n) == if n == tab[ip].num then tab[ip].node else DiskNode(d, n)
    ensures GoodLayout(d', m, tab[ip := c], lo, hi)
    ensures SameInodes(d, tab, d', tab[ip := c])
  {
    hide EncodeInode, DecodeInode, Partition;
    var num, tab' := tab[ip].num, tab[ip := c];
    assert SlotOk(tab[ip], m.ino, d);
    OtherWriteKeepsPartition(d, m.ino, m.owner, m.stack, lo, hi, InodeBlock(num), d'(InodeBlock(num)));
    forall n: Word
      ensures DiskNode(d', n) == if n == num then tab[ip].node else DiskNode(d, n)
    {
      if InodeBlock(n) == InodeBlock(num) {
        EncodeDecode(d(InodeBlock(num)), num % 8, tab[ip].node, n % 8);
        assert n == 8 * (InodeBlock(n) - 2) + n % 8 && num == 8 * (InodeBlock(num) - 2) + num % 8;
      }
    }
    hide DiskNode, InodeBlock;
    WroteBack(d, d', m.ino, tab, ip, c);
  }

  lemma {:induction false} WroteBack(d: Disk, d': Disk, ino: seq<Addr>, tab: seq<Cinode>, ip: int, c: Cinode)
    requires Coherent(tab, ino, d) && 0 <= ip < |tab| && tab[ip].num != 0 && c == tab[ip].(dirty := false)
    requires forall n: Word :: DiskNode(d', n) == if n == tab[ip].num then tab[ip].node else DiskNode(d, n)
    ensures Coherent(tab[ip := c], ino, d')
    ensures SameInodes(d, tab, d', tab[ip := c])
  {
    hide DiskNode;
    var tab' := tab[ip := c];
    forall t | 0 <= t < ITABSIZE
      ensures SlotOk(tab'[t], ino, d')
    {
      assert SlotOk(tab[t], ino, d);
    }
    assert forall t | 0 <= t < ITABSIZE :: tab'[t].num == tab[t].num;
    assert forall n: Word :: Loaded(tab', n) <==> Loaded(tab, n);
    assert Loaded(tab, c.num);
    forall n: Word | n != 0
      ensures Current(d', tab', n) == Current(d, tab, n)
    {
      if s :| 0 <= s < ITABSIZE && tab[s].num == n {
        CurrentIsSlot(d, ino, tab, s);
        CurrentIsSlot(d', ino, tab', s);
      }
    }
  }

  lemma {:induction false} MarkedDirty(d: Disk, m: Layout, tab: seq<Cinode>, lo: Word, hi: Word, pending: set<Word>,
      ip: int)
    requires GoodLayout(d, m, tab, lo, hi) && TableUses(d, tab, pending) && 0 <= ip < |tab| && tab[ip].num != 0
             && tab[ip].refs > 0
    ensures GoodLayout(d, m, tab[ip := tab[ip].(dirty := true)], lo, hi)
    ensures TableUses(d, tab[ip := tab[ip].(dirty := true)], pending)
    ensures SameInodes(d, tab, d, tab[ip := tab[ip].(dirty := true)])
  {
    hide DiskNode, Partition, InUse;
    var tab', ino := tab[ip := tab[ip].(dirty := true)], m.ino;
    assert SlotOk(tab[ip], ino, d);
    CoherentUpdate(tab, ino, d, ip, tab'[ip]);
    assert ino[tab[ip].num := tab[ip].node.addr] == ino;
    forall n: Word | n != 0
      ensures Current(d, tab', n) == Current(d, tab, n)
    {
      if t :| 0 <= t < ITABSIZE && tab[t].num == n {
        CurrentIsSlot(d, ino, tab, t);
        CurrentIsSlot(d, ino, tab', t);
      }
    }
  }

  /** What writes to inode blocks and the superblock alone leave. */
  lemma {:induction false} SameToUntouched(d: Disk, m: Layout, tab: seq<Cinode>, d': Disk, tab': seq<Cinode>, lo: Word,
      hi: Word)
    requires GoodLayout(d, m, tab, lo, hi) && SameInodes(d, tab, d', tab')
    requires forall b: Word | b == 0 || lo <= b :: d'(b) == d(b)
    ensures Untouched(d, m.ino, tab, d', m.ino, tab', {})
  {
    SameDataBlocks(d, d', m.ino, m.owner, m.stack, lo, hi);
    hide Partition, OtherFiles, Current;
  }

  /** And if they change one inode. */
  lemma {:induction false} OneInodeDiffers(
      d: Disk, m: Layout, tab: seq<Cinode>, d': Disk, tab': seq<Cinode>, lo: Word, hi: Word, ip: int)
    requires GoodLayout(d, m, tab, lo, hi) && GoodLayout(d', m, tab', lo, hi) && 0 <= ip < ITABSIZE
    requires tab'[ip].num == tab[ip].num && forall s | 0 <= s < ITABSIZE && s != ip :: tab'[s] == tab[s]
    requires forall b: Word | b == 0 || lo <= b :: d'(b) == d(b)
    requires forall n: Word | n != tab[ip].num :: DiskNode(d', n) == DiskNode(d, n)
    ensures Untouched(d, m.ino, tab, d', m.ino, tab', {tab[ip].num as int})
  {
    hide DiskNode;
    SameDataBlocks(d, d', m.ino, m.owner, m.stack, lo, hi);
    OneSlotDiffers(d, m.ino, tab, d', m.ino, tab', ip);
    OtherFilesMore(d, m.ino, d', m.ino, {}, {tab[ip].num as int});
    hide Partition, OtherFiles, OtherInodes, Coherent;
  }

  lemma {:induction false} SlotIsGood(d: Disk, m: Layout, tab: seq<Cinode>, lo: Word, hi: Word, ip: int)
    requires GoodLayout(d, m, tab, lo, hi) && 0 <= ip < |tab|
    ensures GoodDinode(tab[ip].node)
  {
    assert SlotOk(tab[ip], m.ino, d);
  }

  /** Replacing the inode in a slot that nobody refers to by one that is not in the table. */
  lemma {:induction false} LoadSlot(d: Disk, m: Layout, tab: seq<Cinode>, lo: Word, hi: Word, s: int, c: Cinode)
    requires GoodLayout(d, m, tab, lo, hi) && 0 <= s < |tab| && tab[s].refs == 0
    requires 0 < c.num < |m.ino| && !Loaded(tab, c.num) && c == Cinode(c.num, DiskNode(d, c.num), 0, false)
    ensures GoodLayout(d, m, tab[s := c], lo, hi) && SameInodes(d, tab, d, tab[s := c])
  {
    hide DiskNode, Partition;
    var tab', ino := tab[s := c], m.ino;
    assert SlotOk(tab[s], ino, d);
    forall t | 0 <= t < ITABSIZE
      ensures SlotOk(tab'[t], ino, d)
    {
      assert SlotOk(tab[t], ino, d);
    }
    StillLoaded(tab, s, c);
    forall n: Word | n != 0
      ensures Current(d, tab', n) == Current(d, tab, n)
    {
      if t :| 0 <= t < ITABSIZE && tab[t].num == n {
        CurrentIsSlot(d, ino, tab, t);
        if t != s {
          CurrentIsSlot(d, ino, tab', t);
        }
      } else if n == c.num {
        CurrentIsSlot(d, ino, tab', s);
      }
    }
  }

  lemma {:induction false} StillLoaded(tab: seq<Cinode>, s: int, c: Cinode)
    requires 0 <= s < |tab|
    ensures forall n: Word | Loaded(tab, n) && n != tab[s].num :: Loaded(tab[s := c], n)
  {
    forall n: Word | Loaded(tab, n) && n != tab[s].num
      ensures Loaded(tab[s := c], n)
    {
      var t :| 0 <= t < |tab| && tab[t].num == n;
      assert tab[s := c][t].num == n;
    }
  }

  /** Counting references does not change what an inode is; the last one may go once the copy
      equals the disk. */
  lemma {:induction false} CountRefs(d: Disk, m: Layout, tab: seq<Cinode>, lo: Word, hi: Word, s: int, refs: int)
    requires GoodLayout(d, m, tab, lo, hi) && 0 <= s < |tab| && tab[s].num != 0 && refs >= 0
    requires refs == 0 || tab[s].refs == 0 ==> !tab[s].dirty && tab[s].node == DiskNode(d, tab[s].num)
    ensures GoodLayout(d, m, tab[s := tab[s].(refs := refs)], lo, hi)
    ensures SameInodes(d, tab, d, tab[s := tab[s].(refs := refs)])
  {
    hide DiskNode, Partition;
    var tab', ino := tab[s := tab[s].(refs := refs)], m.ino;
    assert SlotOk(tab[s], ino, d);
    forall t | 0 <= t < ITABSIZE
      ensures SlotOk(tab'[t], ino, d)
    {
      assert SlotOk(tab[t], ino, d);
    }
    assert forall t | 0 <= t < ITABSIZE :: tab'[t].num == tab[t].num && tab'[t].node == tab[t].node;
    assert forall n: Word :: Loaded(tab', n) <==> Loaded(tab, n);
    forall n: Word | n != 0
      ensures Current(d, tab', n) == Current(d, tab, n)
    {
      if t :| 0 <= t < ITABSIZE && tab[t].num == n {
        CurrentIsSlot(d, ino, tab, t);
        CurrentIsSlot(d, ino, tab', t);
      }
    }
  }

  // ----- Inode numbers -----

  predicate LooksFree(n: Dinode) {
    n.mode == 0 && n.nlink == 0
  }

  /** The type bits of an inode in use are never all zero, so neither fsck nor i_open takes it for a
      free one. */
  predicate Untyped(n: Dinode) {
    Getmode(n.mode) == 0
  }

  predicate IsEmpty(n: Dinode) {
    n.addr == NO_BLOCKS && n.sizeBlk == 0 && n.sizeOff == 0
  }

  /** The numbers that are free on disk. */
  ghost function FreeSet(d: Disk, isize: Word): set<Word>
    requires isize >= 2
  {
    set n: Word | 2 <= n < 8 * (isize - 2) && LooksFree(DiskNode(d, n))
  }

  /** n has been handed out: pending holds the numbers whose inode was not written since. */
  ghost predicate InUse(d: Disk, pending: set<Word>, n: Word) {
    n in pending || !LooksFree(DiskNode(d, n))
  }

  /** What i_open relies on: the cached numbers are numbers of inodes, used or not; no inode that is
      in use looks free to i_open; and the count is never too high. */
  ghost predicate SafeNumbers(d: Disk, isize: Word, ninode: int, sinode: seq<Word>, tinode: int, pending: set<Word>) {
    && 3 <= isize <= 8193 && |sinode| == NINODES && 0 <= ninode <= NINODES
    && (forall k | 0 <= k < ninode :: 2 <= sinode[k] < 8 * (isize - 2))
    && pending <= FreeSet(d, isize) && 0 <= tinode <= |FreeSet(d, isize)| - |pending|
    && (forall n | n in FreeSet(d, isize) :: IsEmpty(DiskNode(d, n)))
    && (forall n: Word | n < 8 * (isize - 2) && Untyped(DiskNode(d, n)) :: LooksFree(DiskNode(d, n)))
    && !LooksFree(DiskNode(d, 0)) && !LooksFree(DiskNode(d, ROOTINODE))
  }

  /** What the superblock says about free inodes is right: the cached numbers are free and
      different, and tinode counts the free ones. */
  ghost predicate ExactNumbers(d: Disk, isize: Word, ninode: int, sinode: seq<Word>, tinode: int, pending: set<Word>) {
    && 2 <= isize && 0 <= ninode <= |sinode|
    && NoDup(sinode[..ninode])
    && (forall k | 0 <= k < ninode :: sinode[k] in FreeSet(d, isize) && sinode[k] !in pending)
    && tinode == |FreeSet(d, isize)| - |pending|
  }

  ghost predicate GoodNumbers(d: Disk, isize: Word, ninode: int, sinode: seq<Word>, tinode: int, pending: set<Word>,
      exact: bool) {
    && SafeNumbers(d, isize, ninode, sinode, tinode, pending)
    && (exact ==> ExactNumbers(d, isize, ninode, sinode, tinode, pending))
  }

  /** Every referenced slot holds an inode in use, which i_open does not take for a free one. */
  ghost predicate TableUses(d: Disk, tab: seq<Cinode>, pending: set<Word>) {
    forall s | 0 <= s < |tab| && tab[s].refs > 0 :: InUse(d, pending, tab[s].num) && !Untyped(tab[s].node)
  }

  /** The numbers handed out after n, if n was free. */
  ghost function HandedOut(d: Disk, pending: set<Word>, n: Word): set<Word> {
    if LooksFree(DiskNode(d, n)) then pending + {n} else pending
  }

  lemma {:induction false} HandedIs(d: Disk, pending: set<Word>, n: Word)
    ensures pending <= HandedOut(d, pending, n) <= pending + {n}
    ensures LooksFree(DiskNode(d, n)) ==> n in HandedOut(d, pending, n)
  {
    hide DiskNode, LooksFree;
  }

  /** Handing out the last cached number, if the count is not zero: with exact numbers it is not,
      and the number is free, empty and in use nowhere. */
  lemma {:induction false} TakeNumber(
      d: Disk, tab: seq<Cinode>, isize: Word, ninode: int, sinode: seq<Word>, tinode: int, pending: set<Word>,
      exact: bool)
    requires GoodNumbers(d, isize, ninode, sinode, tinode, pending, exact) && TableUses(d, tab, pending) && ninode > 0
    ensures exact ==> tinode > 0
    ensures var n := sinode[ninode - 1];
            && 2 <= n < 8 * (isize - 2)
            && (exact ==> LooksFree(DiskNode(d, n)) && IsEmpty(DiskNode(d, n)) && !InUse(d, pending, n))
            && (tinode > 0 ==> GoodNumbers(d, isize, ninode - 1, sinode, tinode - 1, HandedOut(d, pending, n), exact))
            && TableUses(d, tab, HandedOut(d, pending, n))
            && forall m: Word | m != n :: InUse(d, HandedOut(d, pending, n), m) <==> InUse(d, pending, m)
  {
    hide DiskNode, IsEmpty, Untyped;
    var n := sinode[ninode - 1];
    RemoveOne(pending, n);
    if exact {
      SubsetSize(pending + {n}, FreeSet(d, isize));
      assert forall k | 0 <= k < ninode - 1 :: sinode[..ninode][k] == sinode[k];
      assert sinode[..ninode][ninode - 1] == n;
    }
  }

  /** Writing an inode that is in use and goes on being used. */
  lemma {:induction false} WriteUsed(
      d: Disk, d': Disk, isize: Word, ninode: int, sinode: seq<Word>, tinode: int, pending: set<Word>, n: Word,
        node: Dinode, exact: bool)
    requires GoodNumbers(d, isize, ninode, sinode, tinode, pending, exact) && InUse(d, pending, n)
    requires n < 8 * (isize - 2) && !Untyped(node)
    requires forall m: Word :: DiskNode(d', m) == if m == n then node else DiskNode(d, m)
    ensures GoodNumbers(d', isize, ninode, sinode, tinode, pending - {n}, exact)
    ensures forall m: Word :: InUse(d', pending - {n}, m) <==> InUse(d, pending, m)
  {
    hide DiskNode, IsEmpty, NoDup, FreeSet, LooksFree, Untyped, GoodNumbers;
    var free, free' := FreeSet(d, isize), FreeSet(d', isize);
    NumbersBounds(d, isize, ninode, sinode, tinode, pending, exact, n);
    FreeUntyped(node);
    FreeSetAfter(d, d', isize, n, node);
    CountsFree(d, isize, ninode, sinode, tinode, pending, exact);
    NumbersAfter(free, free', pending, pending - {n}, n);
    OneNodeDiffers(d, d', isize, ninode, sinode, tinode, tinode, pending, pending - {n}, n, exact);
  }

  lemma {:induction false} FreeUntyped(n: Dinode)
    ensures LooksFree(n) ==> Untyped(n)
  {
  }

  lemma {:induction false} OneNodeDiffers(
      d: Disk, d': Disk, isize: Word, ninode: int, sinode: seq<Word>, tinode: int, tinode': int,
      pending: set<Word>, pending': set<Word>, n: Word, exact: bool)
    requires GoodNumbers(d, isize, ninode, sinode, tinode, pending, exact) && InUse(d, pending, n)
    requires forall m: Word | m != n :: DiskNode(d', m) == DiskNode(d, m)
    requires forall m | m != n ::
               (m in FreeSet(d', isize) <==> m in FreeSet(d, isize)) && (m in pending' <==> m in pending)
    requires pending' <= FreeSet(d', isize) && 0 <= tinode' <= |FreeSet(d', isize)| - |pending'|
    requires exact ==> tinode' == |FreeSet(d', isize)| - |pending'|
    requires n in FreeSet(d', isize) ==> IsEmpty(DiskNode(d', n))
    requires n < 2 ==> !LooksFree(DiskNode(d', n))
    requires Untyped(DiskNode(d', n)) ==> LooksFree(DiskNode(d', n))
    ensures GoodNumbers(d', isize, ninode, sinode, tinode', pending', exact)
    ensures forall m: Word | m != n :: InUse(d', pending', m) <==> InUse(d, pending, m)
    ensures exact ==> forall k | 0 <= k < ninode :: sinode[k] != n
  {
    hide DiskNode, IsEmpty, NoDup, FreeSet, LooksFree, Untyped;
    InUseIsNotFree(d, isize, pending);
  }

  lemma {:induction false} InUseIsNotFree(d: Disk, isize: Word, pending: set<Word>)
    requires 2 <= isize
    ensures forall m: Word | m in FreeSet(d, isize) :: LooksFree(DiskNode(d, m))
  {
    hide DiskNode;
  }

  /** The numbers other than n keep their place, and the difference of the sizes is the same. */
  lemma {:induction false} NumbersAfter(free: set<Word>, free': set<Word>, pending: set<Word>, pending': set<Word>,
      n: Word)
    requires pending <= free && (n in free ==> n in pending)
    requires (free' == free - {n} && pending' == pending - {n})
             || (free' == free + {n} && pending' == pending && n in pending)
    ensures pending' <= free' && |free'| - |pending'| == |free| - |pending|
    ensures forall m | m != n :: (m in free' <==> m in free) && (m in pending' <==> m in pending)
  {
    RemoveOne(free, n);
    RemoveOne(pending, n);
  }

  lemma {:induction false} RemoveOne(s: set<Word>, n: Word)
    ensures n in s ==> |s - {n}| == |s| - 1 && s + {n} == s
    ensures n !in s ==> s - {n} == s && |s + {n}| == |s| + 1
  {
  }

  lemma {:induction false} FreeSetAfter(d: Disk, d': Disk, isize: Word, n: Word, node: Dinode)
    requires 2 <= isize && n < 8 * (isize - 2) && forall m: Word :: DiskNode(d', m) == if m == n then node
             else DiskNode(d, m)
    ensures FreeSet(d', isize) == if n >= 2 && LooksFree(node) then FreeSet(d, isize) + {n} else FreeSet(d, isize) - {n}
    ensures n in FreeSet(d, isize) <==> n >= 2 && LooksFree(DiskNode(d, n))
    ensures forall m | m in FreeSet(d, isize) && m != n :: DiskNode(d', m) == DiskNode(d, m)
  {
    hide DiskNode, LooksFree;
  }

  /** Freeing an inode that is in use and writing it as free. */
  lemma {:induction false} ReleaseNumber(
      d: Disk, d': Disk, isize: Word, ninode: int, sinode: seq<Word>, tinode: int, pending: set<Word>, n: Word,
        node: Dinode, exact: bool)
    requires GoodNumbers(d, isize, ninode, sinode, tinode, pending, exact) && InUse(d, pending, n)
    requires 2 <= n < 8 * (isize - 2) && LooksFree(node) && IsEmpty(node)
    requires forall m: Word :: DiskNode(d', m) == if m == n then node else DiskNode(d, m)
    ensures GoodNumbers(d', isize, if ninode < NINODES then ninode + 1 else ninode,
                        if ninode < NINODES then sinode[ninode := n] else sinode, tinode + 1, pending - {n}, exact)
    ensures forall m: Word :: InUse(d', pending - {n}, m) <==> InUse(d, pending, m) && m != n
  {
    hide DiskNode, IsEmpty, NoDup, FreeSet, LooksFree, GoodNumbers, Untyped;
    var free, free', pending' := FreeSet(d, isize), FreeSet(d', isize), pending - {n};
    NumbersBounds(d, isize, ninode, sinode, tinode, pending, exact, n);
    FreeSetAfter(d, d', isize, n, node);
    CountsFree(d, isize, ninode, sinode, tinode, pending, exact);
    FreedSize(free, free', pending, pending', n);
    OneNodeDiffers(d, d', isize, ninode, sinode, tinode, tinode + 1, pending, pending', n, exact);
    if ninode < NINODES {
      CachedToo(d', isize, ninode, sinode, tinode + 1, pending', n, exact);
    }
  }

  lemma {:induction false} CountsFree(
      d: Disk, isize: Word, ninode: int, sinode: seq<Word>, tinode: int, pending: set<Word>, exact: bool)
    requires GoodNumbers(d, isize, ninode, sinode, tinode, pending, exact)
    ensures pending <= FreeSet(d, isize) && 0 <= tinode <= |FreeSet(d, isize)| - |pending|
    ensures exact ==> tinode == |FreeSet(d, isize)| - |pending|
  {
  }

  lemma {:induction false} FreedSize(free: set<Word>, free': set<Word>, pending: set<Word>, pending': set<Word>,
      n: Word)
    requires free' == free + {n} && pending' == pending - {n} && (n in free ==> n in pending) && pending <= free
    ensures n in free' && n !in pending' && pending' <= free' && |free'| - |pending'| == |free| - |pending| + 1
    ensures forall m | m != n :: (m in free' <==> m in free) && (m in pending' <==> m in pending)
  {
    RemoveOne(free, n);
    RemoveOne(pending, n);
  }

  lemma {:induction false} CachedToo(
      d: Disk, isize: Word, ninode: int, sinode: seq<Word>, tinode: int, pending: set<Word>, n: Word, exact: bool)
    requires GoodNumbers(d, isize, ninode, sinode, tinode, pending, exact) && ninode < NINODES
    requires n in FreeSet(d, isize) && n !in pending && (exact ==> forall k | 0 <= k < ninode :: sinode[k] != n)
    ensures GoodNumbers(d, isize, ninode + 1, sinode[ninode := n], tinode, pending, exact)
  {
    hide DiskNode, IsEmpty, NoDup, LooksFree, Untyped;
    if exact {
      CacheNumber(sinode, ninode, n);
    }
  }

  lemma {:induction false} CacheNumber(sinode: seq<Word>, ninode: int, n: Word)
    requires 0 <= ninode < |sinode| && NoDup(sinode[..ninode]) && forall k | 0 <= k < ninode :: sinode[k] != n
    ensures NoDup(sinode[ninode := n][..ninode + 1])
    ensures forall k | 0 <= k <= ninode :: sinode[ninode := n][k] == if k == ninode then n else sinode[k]
  {
    var s := sinode[ninode := n];
    assert s[..ninode + 1] == sinode[..ninode] + [n];
  }

  /** The numbers below n that are free on disk, in ascending order. */
  ghost function FreeBelow(d: Disk, n: int): (s: seq<Word>)
    requires 0 <= n <= 0x1_0000
    ensures |s| <= n
  {
    if n == 0 then [] else FreeBelow(d, n - 1) + if LooksFree(DiskNode(d, n - 1)) then [n - 1] else []
  }

  lemma {:induction false} FreeBelowIs(d: Disk, n: int)
    requires 0 <= n <= 0x1_0000
    ensures NoDup(FreeBelow(d, n))
    ensures forall m: Word :: m in FreeBelow(d, n) <==> m < n && LooksFree(DiskNode(d, m))
  {
    hide DiskNode;
    if n > 0 {
      FreeBelowIs(d, n - 1);
      var s, rest := FreeBelow(d, n), FreeBelow(d, n - 1);
      assert forall i | 0 <= i < |rest| :: rest[i] in rest && s[i] == rest[i];
      if LooksFree(DiskNode(d, n - 1)) {
        assert s[|rest|] == n - 1;
      }
    }
  }

  lemma {:induction false} NotOnStack(
      d: Disk, d': Disk, isize: Word, fsize: Word, nfree: int, free: seq<Word>, tfree: int, stack: seq<Word>, b: Word)
    requires GoodFreeList(d, isize, fsize, nfree, free, tfree, stack) && b < isize
    requires forall c: Word | c != b :: d'(c) == d(c)
    ensures GoodFreeList(d', isize, fsize, nfree, free, tfree, stack)
  {
    FreeListFrame(d, d', isize, fsize, nfree, free, tfree, stack);
  }

  /** TableUses of the slots other than ip. */
  ghost predicate OthersUse(d: Disk, tab: seq<Cinode>, pending: set<Word>, ip: int) {
    forall s | 0 <= s < |tab| && s != ip && tab[s].refs > 0 :: InUse(d, pending, tab[s].num) && !Untyped(tab[s].node)
  }

  /** An inode table slot in use, and what follows for its number. */
  lemma {:induction false} SlotInUse(d: Disk, m: Layout, tab: seq<Cinode>, lo: Word, hi: Word, pending: set<Word>,
      ip: int)
    requires GoodLayout(d, m, tab, lo, hi) && TableUses(d, tab, pending) && 0 <= ip < |tab| && tab[ip].num != 0
             && tab[ip].refs > 0
    ensures |tab| == ITABSIZE && InUse(d, pending, tab[ip].num) && tab[ip].num < 8 * (lo - 2) && 2 <= lo
    ensures !Untyped(tab[ip].node) && GoodDinode(tab[ip].node)
  {
    assert SlotOk(tab[ip], m.ino, d);
  }

  lemma {:induction false} ZeroMode(d: Disk, m: Layout, tab: seq<Cinode>, lo: Word, hi: Word, ip: int)
    requires GoodLayout(d, m, tab, lo, hi) && 0 <= ip < |tab| && tab[ip].num != 0 && tab[ip].refs > 0 && tab[ip].dirty
    ensures GoodLayout(d, m, tab[ip := tab[ip].(node := tab[ip].node.(mode := 0))], lo, hi)
  {
    hide Partition, DiskNode;
    assert SlotOk(tab[ip], m.ino, d);
    CoherentUpdate(tab, m.ino, d, ip, tab[ip].(node := tab[ip].node.(mode := 0)));
    assert m.ino[tab[ip].num := tab[ip].node.addr] == m.ino;
  }

  lemma {:induction false} StillOthersUse(
      d: Disk, d': Disk, tab: seq<Cinode>, tab': seq<Cinode>, p: set<Word>, p': set<Word>, m: Layout, lo: Word,
        hi: Word, ip: int)
    requires GoodLayout(d, m, tab, lo, hi) && TableUses(d, tab, p) && 0 <= ip < |tab| && |tab'| == |tab|
             && tab[ip].num != 0
    requires forall s | 0 <= s < |tab| && s != ip :: tab'[s] == tab[s]
    requires forall n: Word | n != tab[ip].num :: InUse(d', p', n) <==> InUse(d, p, n)
    ensures OthersUse(d', tab', p', ip)
  {
    hide Partition, DiskNode, IsEmpty, InUse, SlotOk, Untyped;
  }

  /** Reading and writing a file or a pipe (readi, writei) keeps what is known of the numbers: the
      inode blocks and the other slots stay as they are. */
  lemma {:induction false} TransferKeepsNumbers(
      d: Disk, d': Disk, m: Layout, tab: seq<Cinode>, tab': seq<Cinode>, lo: Word, hi: Word,
      ninode: int, sinode: seq<Word>, tinode: int, pending: set<Word>, exact: bool, ip: int)
    requires GoodLayout(d, m, tab, lo, hi) && SameInodeBlocks(d, d', m.ino)
    requires GoodNumbers(d, lo, ninode, sinode, tinode, pending, exact) && TableUses(d, tab, pending)
    requires SameSlot(tab, tab', ip)
    ensures GoodNumbers(d', lo, ninode, sinode, tinode, pending, exact) && TableUses(d', tab', pending)
  {
    hide Partition, IsEmpty, NoDup, GoodNumbers, InUse, DiskNode;
    NumbersBounds(d, lo, ninode, sinode, tinode, pending, exact, 0);
    SameNodes(d, d', m.ino, lo);
    SameNumbers(d, d', lo, ninode, sinode, tinode, pending, exact);
    forall s | 0 <= s < |tab|
      ensures tab[s].num < 8 * (lo - 2)
    {
      assert SlotOk(tab[s], m.ino, d);
    }
  }

  /** Truncating a file leaves the inode blocks, and with them the numbers. */
  lemma {:induction false} TruncatedNumbers(
      d: Disk, d': Disk, m: Layout, tab: seq<Cinode>, lo: Word, hi: Word, ninode: int, sinode: seq<Word>, tinode: int,
      pending: set<Word>, exact: bool, ip: int, c: Cinode)
    requires GoodLayout(d, m, tab, lo, hi) && SameInodeBlocks(d, d', m.ino)
    requires GoodNumbers(d, lo, ninode, sinode, tinode, pending, exact) && TableUses(d, tab, pending)
    requires 0 <= ip < |tab| && tab[ip].refs > 0 && c.num == tab[ip].num && c.node.mode == tab[ip].node.mode
             && c.node.nlink == tab[ip].node.nlink
    requires IsEmpty(c.node)
    ensures GoodNumbers(d', lo, ninode, sinode, tinode, pending, exact) && TableUses(d', tab[ip := c], pending)
    ensures forall n: Word | n < 8 * (lo - 2) :: InUse(d', pending, n) <==> InUse(d, pending, n)
  {
    hide Partition, IsEmpty, NoDup, GoodNumbers, InUse, DiskNode;
    SameNodes(d, d', m.ino, lo);
    SameNumbers(d, d', lo, ninode, sinode, tinode, pending, exact);
    forall s | 0 <= s < |tab|
      ensures tab[s].num < 8 * (lo - 2)
    {
      assert SlotOk(tab[s], m.ino, d);
    }
  }

  lemma {:induction false} SameNodes(d: Disk, d': Disk, ino: seq<Addr>, lo: Word)
    requires SameInodeBlocks(d, d', ino) && 2 <= lo && |ino| == 8 * (lo - 2)
    ensures forall n: Word | n < 8 * (lo - 2) :: DiskNode(d', n) == DiskNode(d, n)
  {
    assert forall n: Word | n < 8 * (lo - 2) :: InodeBlock(n) < lo;
  }

  lemma {:induction false} SameNumbers(
      d: Disk, d': Disk, isize: Word, ninode: int, sinode: seq<Word>, tinode: int, pending: set<Word>, exact: bool)
    requires GoodNumbers(d, isize, ninode, sinode, tinode, pending, exact)
    requires forall n: Word | n < 8 * (isize - 2) :: DiskNode(d', n) == DiskNode(d, n)
    ensures GoodNumbers(d', isize, ninode, sinode, tinode, pending, exact)
    ensures forall n: Word | n < 8 * (isize - 2) :: InUse(d', pending, n) <==> InUse(d, pending, n)
  {
    hide DiskNode, IsEmpty, NoDup;
    assert FreeSet(d', isize) == FreeSet(d, isize);
  }

  /** A clean copy of an inode with links is what is on disk. */
  lemma {:induction false} CleanCopy(d: Disk, m: Layout, tab: seq<Cinode>, lo: Word, hi: Word, ip: int)
    requires GoodLayout(d, m, tab, lo, hi) && 0 <= ip < |tab| && tab[ip].num != 0
    ensures !tab[ip].dirty && tab[ip].node.nlink != 0 ==> tab[ip].node == DiskNode(d, tab[ip].num)
  {
    assert SlotOk(tab[ip], m.ino, d);
  }

  lemma {:induction false} StillUsed(d: Disk, tab: seq<Cinode>, pending: set<Word>, ip: int, refs: int)
    requires 0 <= ip < |tab| && OthersUse(d, tab, pending, ip)
             && (refs > 0 ==> TableUses(d, tab, pending) && tab[ip].refs > 0)
    ensures TableUses(d, tab[ip := tab[ip].(refs := refs)], pending)
  {
    hide InUse;
  }

  lemma {:induction false} UsesOthers(d: Disk, tab: seq<Cinode>, pending: set<Word>, ip: int)
    requires TableUses(d, tab, pending)
    ensures OthersUse(d, tab, pending, ip)
  {
    hide InUse;
  }

  lemma {:induction false} NumbersBounds(
      d: Disk, isize: Word, ninode: int, sinode: seq<Word>, tinode: int, pending: set<Word>, exact: bool, n: Word)
    requires GoodNumbers(d, isize, ninode, sinode, tinode, pending, exact)
    ensures 3 <= isize <= 8193 && 0 <= tinode && 0 <= ninode <= NINODES && |sinode| == NINODES
    ensures n in pending ==> 2 <= n < 8 * (isize - 2)
    ensures InUse(d, pending, 0) && InUse(d, pending, ROOTINODE)
  {
  }

  /** An inode in core that a sync writes. */
  predicate Unwritten(c: Cinode) {
    c.refs > 0 && c.dirty
  }

  /** A sync does not write inode n. */
  ghost predicate SyncLeaves(tab: seq<Cinode>, n: Word) {
    forall s | 0 <= s < |tab| && tab[s].num == n :: !Unwritten(tab[s])
  }

  lemma {:induction false} LeavesMore(tab: seq<Cinode>, k: int, c: Cinode)
    requires 0 <= k < |tab| && c == tab[k]
    ensures forall n :: SyncLeaves(tab[..k + 1], n) <==> SyncLeaves(tab[..k], n) && !(c.num == n && Unwritten(c))
  {
    assert tab[..k + 1] == tab[..k] + [c];
    hide Unwritten;
  }

  /** A sync writes every number that is pending. */
  ghost predicate Settled(tab: seq<Cinode>, pending: set<Word>) {
    forall n | n in pending :: !SyncLeaves(tab, n)
  }

  lemma {:induction false} FreePrefix(d: Disk, n: int, limit: int)
    requires 0 <= n <= limit <= 0x1_0000
    ensures FreeBelow(d, n) <= FreeBelow(d, limit)
    decreases limit - n
  {
    if n < limit {
      FreePrefix(d, n + 1, limit);
      assert FreeBelow(d, n) <= FreeBelow(d, n + 1);
    }
  }

  lemma {:induction false} FreeStep(d: Disk, n: int, blk: Word, j: int)
    requires 0 <= j < 8 && 2 <= blk && n == 8 * (blk - 2) + j < 0x1_0000
    ensures DiskNode(d, n) == DecodeInode(d(blk), j)
    ensures FreeBelow(d, n + 1) == FreeBelow(d, n) + if LooksFree(DiskNode(d, n)) then [n] else []
  {
    hide DecodeInode;
    NodeInBlock(d, n, blk, j);
  }

  lemma {:induction false} NodeInBlock(d: Disk, n: Word, blk: Word, j: int)
    requires 0 <= j < 8 && 2 <= blk && n == 8 * (blk - 2) + j
    ensures DiskNode(d, n) == DecodeInode(d(blk), j)
  {
    hide DecodeInode;
    assert n / 8 == blk - 2 && n % 8 == j;
  }

  /** A rescan lists no pending number. */
  ghost predicate PendingBehind(d: Disk, pending: set<Word>) {
    forall n | n in pending :: |FreeBelow(d, n)| >= NINODES
  }

  /** The list of a rescan: the first fifty numbers that are free on disk. */
  ghost predicate FirstFree(d: Disk, isize: Word, k: int, sinode: seq<Word>) {
    && 2 <= isize <= 8193 && |sinode| == NINODES && 0 <= k <= NINODES && sinode[..k] <= FreeBelow(d, 8 * (isize - 2))
    && (k < NINODES ==> sinode[..k] == FreeBelow(d, 8 * (isize - 2)))
  }

  lemma {:induction false} FirstFreeLists(d: Disk, isize: Word, k: int, sinode: seq<Word>, n: Word)
    requires FirstFree(d, isize, k, sinode) && n < 8 * (isize - 2) && LooksFree(DiskNode(d, n))
    ensures n in sinode[..k] <==> |FreeBelow(d, n)| < NINODES
  {
    hide DiskNode, FreeBelow;
    var all := FreeBelow(d, 8 * (isize - 2));
    RescanLists(d, 8 * (isize - 2), n);
    assert sinode[..k] == if |all| < NINODES then all else all[..NINODES];
  }

  /** Whether the numbers are still exact after a rescan, with the old count: if and only if every
      number that the sync before it has left pending has at least fifty free numbers below it. */
  lemma {:induction false} RescanIsExact(
      d: Disk, isize: Word, k: int, was: seq<Word>, sinode: seq<Word>, tinode: int, pending: set<Word>)
    requires SafeNumbers(d, isize, 0, was, tinode, pending) && ExactNumbers(d, isize, 0, was, tinode, pending)
    requires FirstFree(d, isize, k, sinode)
    ensures ExactNumbers(d, isize, k, sinode, tinode, pending) <==> PendingBehind(d, pending)
  {
    hide DiskNode, IsEmpty, FreeBelow, LooksFree, Untyped;
    var all := FreeBelow(d, 8 * (isize - 2));
    FreeBelowIs(d, 8 * (isize - 2));
    ListIsFree(d, isize, k, sinode);
    forall n | n in pending
      ensures n in sinode[..k] <==> |FreeBelow(d, n)| < NINODES
    {
      FirstFreeLists(d, isize, k, sinode, n);
    }
    assert forall i | 0 <= i < k :: sinode[i] == sinode[..k][i] && sinode[i] in sinode[..k];
    assert forall n | n in sinode[..k] :: exists i :: 0 <= i < k && sinode[i] == n;
  }

  lemma {:induction false} ListIsFree(d: Disk, isize: Word, k: int, sinode: seq<Word>)
    requires FirstFree(d, isize, k, sinode) && 3 <= isize
    requires !LooksFree(DiskNode(d, 0)) && !LooksFree(DiskNode(d, ROOTINODE))
    ensures NoDup(sinode[..k]) && forall i | 0 <= i < k :: sinode[i] in FreeSet(d, isize)
    ensures k == 0 <==> FreeSet(d, isize) == {}
  {
    hide DiskNode, FreeBelow, LooksFree;
    var all := FreeBelow(d, 8 * (isize - 2));
    FreeBelowIs(d, 8 * (isize - 2));
    assert forall i | 0 <= i < k :: sinode[i] == sinode[..k][i] == all[i] && all[i] in all;
    if k == 0 {
      assert FreeSet(d, isize) == {};
    } else {
      assert sinode[0] in FreeSet(d, isize);
    }
  }

  /** How many numbers a rescan lists. */
  ghost function ListSize(d: Disk, isize: Word): int
    requires isize >= 2
  {
    if |FreeSet(d, isize)| < NINODES then |FreeSet(d, isize)| else NINODES
  }

  lemma {:induction false} SizeOfList(d: Disk, isize: Word, k: int, sinode: seq<Word>)
    requires FirstFree(d, isize, k, sinode) && 3 <= isize
    requires !LooksFree(DiskNode(d, 0)) && !LooksFree(DiskNode(d, ROOTINODE))
    ensures k == ListSize(d, isize)
  {
    hide DiskNode, FreeBelow, LooksFree;
    var all := FreeBelow(d, 8 * (isize - 2));
    FreeBelowIs(d, 8 * (isize - 2));
    assert forall n: Word :: n in all <==> n in FreeSet(d, isize);
    SetOfList(all, FreeSet(d, isize));
  }

  lemma {:induction false} SetOfList(s: seq<Word>, t: set<Word>)
    requires NoDup(s) && forall n: Word :: n in s <==> n in t
    ensures |s| == |t|
  {
    if s == [] {
      assert t == {};
    } else {
      var n, rest := s[|s| - 1], s[..|s| - 1];
      assert s == rest + [n];
      assert forall i | 0 <= i < |rest| :: rest[i] == s[i];
      SetOfList(rest, t - {n});
      RemoveOne(t, n);
    }
  }

  /** A rescan's list is a safe cache, and an exact one under the condition above. */
  lemma {:induction false} ScannedNumbers(
      d: Disk, isize: Word, k: int, was: seq<Word>, sinode: seq<Word>, tinode: int, pending: set<Word>, exact: bool)
    requires GoodNumbers(d, isize, 0, was, tinode, pending, exact) && FirstFree(d, isize, k, sinode)
    ensures GoodNumbers(d, isize, k, sinode, tinode, pending, exact && PendingBehind(d, pending))
    ensures k == ListSize(d, isize) && (k == 0 <==> FreeSet(d, isize) == {})
    ensures k == 0 ==> tinode == 0 && forall n: Word | n < 8 * (isize - 2) :: InUse(d, pending, n)
  {
    hide DiskNode, IsEmpty, FreeBelow, Untyped, ExactNumbers, PendingBehind, ListSize;
    ListIsFree(d, isize, k, sinode);
    SizeOfList(d, isize, k, sinode);
    if exact {
      RescanIsExact(d, isize, k, was, sinode, tinode, pending);
    }
  }

  lemma {:induction false} LessExact(
      d: Disk, isize: Word, ninode: int, sinode: seq<Word>, tinode: int, pending: set<Word>, exact: bool,
      exact': bool)
    requires GoodNumbers(d, isize, ninode, sinode, tinode, pending, exact) && (exact' ==> exact)
    ensures GoodNumbers(d, isize, ninode, sinode, tinode, pending, exact')
  {
    hide SafeNumbers, ExactNumbers;
  }

  lemma {:induction false} NonePending(d: Disk, pending: set<Word>)
    ensures pending == {} ==> PendingBehind(d, pending)
  {
  }

  /** With exact numbers the count is not zero while a number is cached. */
  lemma {:induction false} NotCorrupt(
      d: Disk, tab: seq<Cinode>, isize: Word, ninode: int, sinode: seq<Word>, tinode: int, pending: set<Word>,
      exact: bool)
    requires GoodNumbers(d, isize, ninode, sinode, tinode, pending, exact) && TableUses(d, tab, pending)
    requires ninode > 0 && tinode == 0
    ensures !exact
  {
    hide GoodNumbers, TableUses, HandedOut, InUse, DiskNode;
    TakeNumber(d, tab, isize, ninode, sinode, tinode, pending, exact);
  }

  lemma {:induction false} OtherCache(d: Disk, isize: Word, was: seq<Word>, sinode: seq<Word>, tinode: int,
      pending: set<Word>, exact: bool)
    requires GoodNumbers(d, isize, 0, was, tinode, pending, exact) && |sinode| == NINODES
    ensures GoodNumbers(d, isize, 0, sinode, tinode, pending, exact)
  {
  }

  /** A rescan lists a number that is free on disk, whether pending or not, exactly when fewer
      than fifty free numbers are below it. */
  lemma {:induction false} RescanLists(d: Disk, limit: int, n: Word)
    requires n < limit <= 0x1_0000 && LooksFree(DiskNode(d, n))
    ensures var all := FreeBelow(d, limit);
            var list := if |all| < NINODES then all else all[..NINODES];
            n in list <==> |FreeBelow(d, n)| < NINODES
  {
    hide DiskNode;
    var all, k := FreeBelow(d, limit), |FreeBelow(d, n)|;
    var list := if |all| < NINODES then all else all[..NINODES];
    FreePrefix(d, n + 1, limit);
    FreeBelowIs(d, limit);
    hide FreeBelow;
    assert FreeBelow(d, n + 1)[k] == n && all[k] == n;
    if n in list {
      var i :| 0 <= i < |list| && list[i] == n;
      assert all[i] == n;
    }
    if k < NINODES {
      assert list[k] == n;
    }
  }

  lemma {:induction false} SameBlockSameNode(d: Disk, d': Disk, n: Word)
    requires d'(InodeBlock(n)) == d(InodeBlock(n))
    ensures DiskNode(d', n) == DiskNode(d, n)
  {
  }

  /** Every slot has references. */
  predicate Full(tab: seq<Cinode>) {
    forall s | 0 <= s < |tab| :: tab[s].refs != 0
  }

  class Inodes {
    const fs: FileSys
    var ninode: int
    const sinode: array<Word>
    var tinode: int
    var nexti: int
    var corrupt: bool              // the superblock is marked as corrupt
    ghost var pending: set<Word>   // numbers handed out whose inode was not written since
    ghost var exact: bool          // the cached numbers and the count are known to be right

    ghost predicate Valid()
      reads this, sinode, fs, fs.itab, fs.vol, fs.vol.free, fs.vol.cache, fs.vol.cache.pool
    {
      && fs.Valid() && sinode.Length == NINODES && 0 <= nexti < ITABSIZE && {this as object, sinode} !! fs.Repr()
      && GoodNumbers(fs.vol.disk, fs.vol.isize, ninode, sinode[..], tinode, pending, exact)
      && TableUses(fs.vol.disk, fs.itab[..], pending)
    }

    ghost predicate Intact()
      reads this, sinode, fs, fs.itab, fs.vol, fs.vol.free, fs.vol.cache, fs.vol.cache.pool
    {
      Valid() && fs.vol.cache.held == map[]
    }

    ghost predicate Ready()
      reads this, sinode, fs, fs.itab, fs.vol, fs.vol.free, fs.vol.cache, fs.vol.cache.pool
    {
      Intact() && !corrupt
    }

    /** Intact but for slot ip, which is about to become an inode in use. */
    ghost predicate IntactBut(ip: int)
      reads this, sinode, fs, fs.itab, fs.vol, fs.vol.free, fs.vol.cache, fs.vol.cache.pool
    {
      && fs.Ready() && sinode.Length == NINODES && 0 <= nexti < ITABSIZE && {this as object, sinode} !! fs.Repr()
      && GoodNumbers(fs.vol.disk, fs.vol.isize, ninode, sinode[..], tinode, pending, exact)
      && OthersUse(fs.vol.disk, fs.itab[..], pending, ip)
    }

    lemma IntactMeans()
      requires Intact()
      ensures fs.Ready() && fs.itab.Length == ITABSIZE && ValidDev(fs.vol.dev)
      ensures GoodLayout(fs.vol.disk, fs.layout, fs.itab[..], fs.vol.isize, fs.vol.fsize)
      ensures GoodNumbers(fs.vol.disk, fs.vol.isize, ninode, sinode[..], tinode, pending, exact)
      ensures TableUses(fs.vol.disk, fs.itab[..], pending)
    {
      hide GoodLayout, GoodFreeList, Consistent, GoodNumbers, TableUses;
    }

    lemma ReadyMeans()
      requires Ready()
      ensures Intact() && !corrupt && fs.Ready() && fs.itab.Length == ITABSIZE && ValidDev(fs.vol.dev)
      ensures GoodLayout(fs.vol.disk, fs.layout, fs.itab[..], fs.vol.isize, fs.vol.fsize)
      ensures GoodNumbers(fs.vol.disk, fs.vol.isize, ninode, sinode[..], tinode, pending, exact)
      ensures TableUses(fs.vol.disk, fs.itab[..], pending)
    {
      IntactMeans();
    }

    constructor (fs: FileSys, ninode: int, sinode: array<Word>, tinode: int, ghost exact: bool)
      requires fs.Valid() && sinode.Length == NINODES && sinode !in fs.Repr()
      requires GoodNumbers(fs.vol.disk, fs.vol.isize, ninode, sinode[..], tinode, {}, exact)
      requires forall s | 0 <= s < ITABSIZE :: fs.itab[s].refs == 0
      ensures Valid() && this.fs == fs && this.sinode == sinode && pending == {} && this.ninode == ninode
              && this.tinode == tinode && this.exact == exact && !corrupt
    {
      this.fs, this.ninode, this.sinode, this.tinode, this.exact := fs, ninode, sinode, tinode, exact;
      nexti, pending, corrupt := 0, {}, false;
    }

    /** The device itself, and not only what clients see of it, holds this inode under number n. */
    ghost predicate OnDevice(n: Word, node: Dinode)
      reads fs.vol, fs.vol.cache
    {
      ValidDev(fs.vol.dev) && DiskNode(fs.vol.cache.store[fs.vol.dev], n) == node
    }

    /** Writes the inode in slot ip to its block. */
    method WrInode(ip: int)
      requires fs.Ready() && 0 <= ip < fs.itab.Length && fs.itab[ip].num != 0
      modifies fs.itab, fs.vol`disk, fs.vol.cache, fs.vol.cache.pool
      ensures fs.Ready() && OtherDevices(old(fs.vol.cache.logical), fs.vol.cache.logical, fs.vol.dev)
      ensures fs.itab[..] == old(fs.itab[..])[ip := old(fs.itab[ip]).(dirty := false)]
      ensures forall b: Word | b == 0 || fs.vol.isize <= b :: fs.vol.disk(b) == old(fs.vol.disk)(b)
      ensures forall n: Word :: DiskNode(fs.vol.disk, n) == if n == fs.itab[ip].num then fs.itab[ip].node
              else DiskNode(old(fs.vol.disk), n)
      ensures OnDevice(fs.itab[ip].num, fs.itab[ip].node)
      ensures SameInodes(old(fs.vol.disk), old(fs.itab[..]), fs.vol.disk, fs.itab[..])
    {
      hide GoodLayout, GoodFreeList, Consistent, OtherDevices, EncodeInode, SameInodes, DiskNode, NoneHeld, InodeBlock;
      ghost var d, tab, m := fs.vol.disk, fs.itab[..], fs.layout;
      ghost var l := fs.vol.cache.logical;
      var num := fs.itab[ip].num;
      var blkno := InodeBlock(num);
      NothingHeld(fs.vol.dev, [blkno]);
      SlotIsGood(d, m, tab, fs.vol.isize, fs.vol.fsize, ip);
      var i := fs.vol.Bread(blkno, 0);
      ghost var l1 := fs.vol.cache.logical;
      var buf := fs.vol.Get(i);
      var image := EncodeInode(buf, num % 8, fs.itab[ip].node);
      fs.vol.PutBack(i, image, 2);
      OtherDevicesTrans(fs.vol.dev, l, l1, fs.vol.cache.logical);
      WriteBack(d, m, tab, fs.vol.isize, fs.vol.fsize, ip, fs.vol.disk, tab[ip].(dirty := false));
      NotOnStack(d, fs.vol.disk, fs.vol.isize, fs.vol.fsize, fs.vol.nfree, fs.vol.free[..], fs.vol.tfree, fs.vol.stack,
                 blkno);
      SameBlockSameNode(fs.vol.disk, fs.vol.cache.store[fs.vol.dev], num);
      fs.itab[ip] := fs.itab[ip].(dirty := false);
      assert fs.itab[..] == tab[ip := fs.itab[ip]];
    }

    /** Counts an inode as free and caches its number, if there is room. */
    method IFree(ino: Word)
      requires sinode.Length == NINODES && 0 <= ninode <= NINODES
      requires !corrupt                              // otherwise it returns at once
      requires 2 <= ino < 8 * (fs.vol.isize - 2)   // otherwise "bad ino"
      modifies this`ninode, this`tinode, sinode
      ensures tinode == old(tinode) + 1
      ensures ninode == if old(ninode) < NINODES then old(ninode) + 1 else old(ninode)
      ensures sinode[..] == if old(ninode) < NINODES then old(sinode[..])[old(ninode) := ino] else old(sinode[..])
    {
      tinode := tinode + 1;
      if ninode < NINODES {
        sinode[ninode] := ino;
        ninode := ninode + 1;
      }
    }

    /** Drops a reference to the inode in slot ip. With the last one a changed inode is
        written, and one without links is truncated and its number freed. */
    method IDeref(ip: int)
      requires Intact() && fs.Open(ip) && (corrupt ==> fs.itab[ip].node.nlink != 0)
      requires fs.itab[ip].num == ROOTINODE ==> fs.itab[ip].node.nlink != 0
      modifies this, sinode, fs, fs.itab, fs.vol.Repr()
      ensures Intact() && corrupt == old(corrupt) && exact == old(exact)
      ensures old(Ready()) ==> Ready()
      ensures OtherDevices(old(fs.vol.cache.logical), fs.vol.cache.logical, fs.vol.dev)
      ensures fs.wakeups == old(fs.wakeups) + (if IsPipe(old(fs.itab[ip].node)) then 1 else 0)
              && pending <= old(pending)
      ensures |fs.itab[..]| == ITABSIZE && forall s | 0 <= s < ITABSIZE && s != ip :: fs.itab[s] == old(fs.itab[s])
      ensures Untouched(old(fs.vol.disk), old(fs.layout.ino), old(fs.itab[..]), fs.vol.disk, fs.layout.ino, fs.itab[..],
                        {fs.itab[ip].num as int})
      ensures fs.itab[ip].num == old(fs.itab[ip].num) && fs.itab[ip].refs == old(fs.itab[ip].refs) - 1
      ensures fs.itab[ip].refs > 0 ==>
                && fs.vol.disk == old(fs.vol.disk) && fs.layout == old(fs.layout) && pending == old(pending)
                && fs.itab[ip] == old(fs.itab[ip]).(refs := fs.itab[ip].refs)
      ensures fs.itab[ip].refs > 0 || old(fs.itab[ip].node.nlink) != 0 ==>
                && fs.itab[ip].node == old(fs.itab[ip].node)
                && fs.vol.stack == old(fs.vol.stack) && tinode == old(tinode) && fs.layout == old(fs.layout)
                && Untouched(old(fs.vol.disk), old(fs.layout.ino), old(fs.itab[..]), fs.vol.disk, fs.layout.ino,
                             fs.itab[..], {})
      ensures fs.itab[ip].refs == 0 ==> !fs.itab[ip].dirty && DiskNode(fs.vol.disk, fs.itab[ip].num) == fs.itab[ip].node
      ensures fs.itab[ip].refs == 0 && (old(fs.itab[ip].dirty) || old(fs.itab[ip].node.nlink) == 0) ==>
                OnDevice(fs.itab[ip].num, fs.itab[ip].node)
      ensures fs.itab[ip].refs == 0 && old(fs.itab[ip].node.nlink) == 0 ==>
                && !InUse(fs.vol.disk, pending, fs.itab[ip].num) && tinode == old(tinode) + 1
                && LooksFree(fs.itab[ip].node) && IsEmpty(fs.itab[ip].node)
                && fs.vol.stack == old(fs.vol.stack) + Slots(old(fs.vol.disk), old(fs.itab[ip].node.addr), 0)
      ensures forall n: Word | n < 8 * (fs.vol.isize - 2) && n != fs.itab[ip].num ::
                InUse(fs.vol.disk, pending, n) <==> old(InUse(fs.vol.disk, pending, n))
    {
      hide GoodLayout, GoodFreeList, Consistent, OtherDevices, GoodNumbers, TableUses, OthersUse, Slots, InUse;
      hide DiskNode, SameInodes, Untouched;
      ghost var d, m, tab0 := fs.vol.disk, fs.layout, fs.itab[..];
      ghost var none: set<int> := {};
      OtherDevicesRefl(fs.vol.dev, fs.vol.cache.logical);
      SlotInUse(d, m, tab0, fs.vol.isize, fs.vol.fsize, pending, ip);
      UsesOthers(d, tab0, pending, ip);
      UntouchedRefl(d, m.ino, tab0, {});
      UntouchedMore(d, m.ino, tab0, d, m.ino, tab0, {}, {tab0[ip].num as int});
      if Getmode(fs.itab[ip].node.mode) == F_PIPE {
        fs.wakeups := fs.wakeups + 1;
      }
      var refs := fs.itab[ip].refs - 1;
      if refs == 0 {
        LastReference(ip);
      }
      ghost var d1, m1, tab := fs.vol.disk, fs.layout, fs.itab[..];
      CountRefs(d1, m1, tab, fs.vol.isize, fs.vol.fsize, ip, refs);
      StillUsed(d1, tab, pending, ip, refs);
      fs.itab[ip] := fs.itab[ip].(refs := refs);
      assert fs.itab[..] == tab[ip := fs.itab[ip]];
      SameToUntouched(d1, m1, tab, d1, fs.itab[..], fs.vol.isize, fs.vol.fsize);
      UntouchedTrans(d, m.ino, tab0, d1, m1.ino, tab, d1, m1.ino, fs.itab[..], {tab0[ip].num as int}, {});
      if refs > 0 || tab0[ip].node.nlink != 0 {
        UntouchedTrans(d, m.ino, tab0, d1, m1.ino, tab, d1, m1.ino, fs.itab[..], {}, {});
        assert none + none == none;
      }
      assert {tab0[ip].num as int} + {} == {tab0[ip].num as int};
    }

    /** I_deref's work when no other reference is left: the inode in slot ip becomes equal to the one
        on disk. The reference itself is taken off afterwards. */
    method LastReference(ip: int)
      requires Intact() && fs.Open(ip) && fs.itab[ip].refs == 1 && (corrupt ==> fs.itab[ip].node.nlink != 0)
      requires fs.itab[ip].num == ROOTINODE ==> fs.itab[ip].node.nlink != 0
      modifies this, sinode, fs`layout, fs.itab, fs.vol.Repr()
      ensures fs.Ready() && OtherDevices(old(fs.vol.cache.logical), fs.vol.cache.logical, fs.vol.dev)
      ensures nexti == old(nexti) && corrupt == old(corrupt) && exact == old(exact)
      ensures GoodNumbers(fs.vol.disk, fs.vol.isize, ninode, sinode[..], tinode, pending, exact)
      ensures forall s | 0 <= s < ITABSIZE && s != ip :: fs.itab[s] == old(fs.itab[s])
      ensures Untouched(old(fs.vol.disk), old(fs.layout.ino), old(fs.itab[..]), fs.vol.disk, fs.layout.ino, fs.itab[..],
                        {fs.itab[ip].num as int})
      ensures OthersUse(fs.vol.disk, fs.itab[..], pending, ip) && pending <= old(pending)
      ensures fs.itab[ip].num == old(fs.itab[ip].num) && fs.itab[ip].refs == 1 && !fs.itab[ip].dirty
      ensures DiskNode(fs.vol.disk, fs.itab[ip].num) == fs.itab[ip].node
      ensures old(fs.itab[ip].dirty) || old(fs.itab[ip].node.nlink) == 0 ==>
                OnDevice(fs.itab[ip].num, fs.itab[ip].node)
      ensures old(fs.itab[ip].node.nlink) != 0 ==>
                && fs.itab[ip].node == old(fs.itab[ip].node) && fs.vol.stack == old(fs.vol.stack)
                && tinode == old(tinode)
                && fs.layout == old(fs.layout)
                && Untouched(old(fs.vol.disk), old(fs.layout.ino), old(fs.itab[..]), fs.vol.disk, fs.layout.ino,
                             fs.itab[..], {})
      ensures old(fs.itab[ip].node.nlink) == 0 ==>
                && !InUse(fs.vol.disk, pending, fs.itab[ip].num) && tinode == old(tinode) + 1
                && LooksFree(fs.itab[ip].node) && IsEmpty(fs.itab[ip].node)
                && fs.vol.stack == old(fs.vol.stack) + Slots(old(fs.vol.disk), old(fs.itab[ip].node.addr), 0)
      ensures forall n: Word | n < 8 * (fs.vol.isize - 2) && n != fs.itab[ip].num ::
                InUse(fs.vol.disk, pending, n) <==> old(InUse(fs.vol.disk, pending, n))
    {
      hide GoodLayout, GoodFreeList, Consistent, OtherDevices, GoodNumbers, TableUses, OthersUse, Slots, InUse;
      hide DiskNode, SameInodes, Untouched, SameInodeBlocks;
      ghost var l, d0, m0, tab0, ex := fs.vol.cache.logical, fs.vol.disk, fs.layout, fs.itab[..],
        {fs.itab[ip].num as int};
      OtherDevicesRefl(fs.vol.dev, l);
      SlotInUse(d0, m0, tab0, fs.vol.isize, fs.vol.fsize, pending, ip);
      UsesOthers(d0, tab0, pending, ip);
      UntouchedRefl(d0, m0.ino, tab0, {});
      UntouchedRefl(d0, m0.ino, tab0, ex);
      CleanCopy(d0, m0, tab0, fs.vol.isize, fs.vol.fsize, ip);
      if fs.itab[ip].node.nlink == 0 {
        fs.Ftrunc(ip);
        TruncatedNumbers(d0, fs.vol.disk, m0, tab0, fs.vol.isize, fs.vol.fsize, ninode, sinode[..], tinode, pending,
                         exact,
                         ip,
                         fs.itab[ip]);
        assert fs.itab[..] == tab0[ip := fs.itab[ip]];
      }
      if fs.itab[ip].dirty {
        ghost var l1, d1, m1, tab1 := fs.vol.cache.logical, fs.vol.disk, fs.layout, fs.itab[..];
        WriteLast(ip);
        OtherDevicesTrans(fs.vol.dev, l, l1, fs.vol.cache.logical);
        UntouchedTrans(d0, m0.ino, tab0, d1, m1.ino, tab1, fs.vol.disk, m1.ino, fs.itab[..], ex, ex);
        assert ex + ex == ex;
      }
    }

    /** I_deref's write of a changed inode that has lost its last reference. The reference is
        taken off after the write. */
    method WriteLast(ip: int)
      requires fs.Ready() && sinode.Length == NINODES && 0 <= nexti < ITABSIZE && {this as object, sinode} !! fs.Repr()
      requires GoodNumbers(fs.vol.disk, fs.vol.isize, ninode, sinode[..], tinode, pending, exact)
      requires TableUses(fs.vol.disk, fs.itab[..], pending)
      requires fs.Open(ip) && fs.itab[ip].refs == 1 && fs.itab[ip].dirty && (corrupt ==> fs.itab[ip].node.nlink != 0)
      requires fs.itab[ip].node.nlink == 0 ==> fs.itab[ip].num != ROOTINODE && IsEmpty(fs.itab[ip].node)
      modifies this, sinode, fs.itab, fs.vol`disk, fs.vol.cache, fs.vol.cache.pool
      ensures fs.Ready() && OtherDevices(old(fs.vol.cache.logical), fs.vol.cache.logical, fs.vol.dev)
      ensures Untouched(old(fs.vol.disk), fs.layout.ino, old(fs.itab[..]), fs.vol.disk, fs.layout.ino, fs.itab[..],
                        {fs.itab[ip].num as int})
      ensures fs.itab[ip].node.nlink != 0 ==>
                Untouched(old(fs.vol.disk), fs.layout.ino, old(fs.itab[..]), fs.vol.disk, fs.layout.ino, fs.itab[..],
                          {})
      ensures nexti == old(nexti) && corrupt == old(corrupt) && exact == old(exact)
      ensures GoodNumbers(fs.vol.disk, fs.vol.isize, ninode, sinode[..], tinode, pending, exact)
      ensures forall s | 0 <= s < ITABSIZE && s != ip :: fs.itab[s] == old(fs.itab[s])
      ensures fs.itab[ip] == old(fs.itab[ip]).(node := fs.itab[ip].node, dirty := false)
      ensures fs.itab[ip].node == DiskNode(fs.vol.disk, fs.itab[ip].num)
      ensures OnDevice(fs.itab[ip].num, fs.itab[ip].node)
      ensures fs.itab[ip].node == old(fs.itab[ip].node).(mode := fs.itab[ip].node.mode)
      ensures fs.itab[ip].node.mode == if fs.itab[ip].node.nlink == 0 then 0 else old(fs.itab[ip].node.mode)
      ensures tinode == old(tinode) + if fs.itab[ip].node.nlink == 0 then 1 else 0
      ensures forall n: Word | n < 8 * (fs.vol.isize - 2) ::
                InUse(fs.vol.disk, pending, n) <==>
                  && old(InUse(fs.vol.disk, pending, n))
                  && (n == fs.itab[ip].num ==> fs.itab[ip].node.nlink != 0)
      ensures OthersUse(fs.vol.disk, fs.itab[..], pending, ip) && pending <= old(pending)
    {
      hide GoodLayout, GoodFreeList, Consistent, OtherDevices, GoodNumbers, InUse, DiskNode, SameInodes, TableUses;
      hide OthersUse, Untouched, Inodes.OnDevice;
      ghost var d, tab, p, free, was := fs.vol.disk, fs.itab[..], pending, ninode, sinode[..];
      SlotInUse(d, fs.layout, tab, fs.vol.isize, fs.vol.fsize, p, ip);
      NumbersBounds(d, fs.vol.isize, ninode, was, tinode, p, exact, fs.itab[ip].num);
      if fs.itab[ip].node.nlink == 0 {
        ZeroMode(d, fs.layout, tab, fs.vol.isize, fs.vol.fsize, ip);
        fs.itab[ip] := fs.itab[ip].(node := fs.itab[ip].node.(mode := 0));
        assert fs.itab[..] == tab[ip := fs.itab[ip]];
        IFree(fs.itab[ip].num);
        WrInode(ip);
        ReleaseNumber(d, fs.vol.disk, fs.vol.isize, free, was, old(tinode), p, fs.itab[ip].num, fs.itab[ip].node,
                      exact);
      } else {
        WrInode(ip);
        WriteUsed(d, fs.vol.disk, fs.vol.isize, ninode, was, tinode, p, fs.itab[ip].num, fs.itab[ip].node, exact);
        SameToUntouched(d, fs.layout, tab, fs.vol.disk, fs.itab[..], fs.vol.isize, fs.vol.fsize);
      }
      pending := pending - {fs.itab[ip].num};
      StillOthersUse(d, fs.vol.disk, tab, fs.itab[..], p, pending, fs.layout, fs.vol.isize, fs.vol.fsize, ip);
      OneInodeDiffers(d, fs.layout, tab, fs.vol.disk, fs.itab[..], fs.vol.isize, fs.vol.fsize, ip);
    }

    /** Setftime's dirty mark. */
    method Setftime(ip: int)
      requires Ready() && fs.Open(ip)
      modifies fs.itab
      ensures Ready() && fs.itab[..] == old(fs.itab[..])[ip := old(fs.itab[ip]).(dirty := true)]
      ensures Untouched(fs.vol.disk, fs.layout.ino, old(fs.itab[..]), fs.vol.disk, fs.layout.ino, fs.itab[..], {})
    {
      hide GoodLayout, GoodFreeList, Consistent, GoodNumbers, TableUses, Untouched, SameInodes;
      ghost var d, m, t := fs.vol.disk, fs.layout, fs.itab[..];
      MarkedDirty(d, m, t, fs.vol.isize, fs.vol.fsize, pending, ip);
      fs.itab[ip] := fs.itab[ip].(dirty := true);
      assert fs.itab[..] == t[ip := fs.itab[ip]];
      SameToUntouched(d, m, t, d, fs.itab[..], fs.vol.isize, fs.vol.fsize);
    }

    // ----- Sync -----

    /** Sync's round for one slot. */
    method SyncInode(ip: int)
      requires Ready() && 0 <= ip < ITABSIZE
      modifies `pending, fs.itab, fs.vol`disk, fs.vol.cache, fs.vol.cache.pool
      ensures Ready() && OtherDevices(old(fs.vol.cache.logical), fs.vol.cache.logical, fs.vol.dev)
      ensures |fs.itab[..]| == ITABSIZE
      ensures fs.itab[..] == old(fs.itab[..])[ip := fs.itab[ip]]
      ensures fs.itab[ip] == if old(fs.itab[ip]).refs > 0 then old(fs.itab[ip]).(dirty := false) else old(fs.itab[ip])
      ensures forall b: Word | b == 0 || fs.vol.isize <= b :: fs.vol.disk(b) == old(fs.vol.disk)(b)
      ensures SameInodes(old(fs.vol.disk), old(fs.itab[..]), fs.vol.disk, fs.itab[..])
      ensures forall n: Word :: InUse(fs.vol.disk, pending, n) <==> old(InUse(fs.vol.disk, pending, n))
      ensures pending == if Unwritten(old(fs.itab[ip])) then old(pending) - {fs.itab[ip].num} else old(pending)
    {
      hide GoodLayout, GoodFreeList, Consistent, OtherDevices, GoodNumbers, InUse, DiskNode, SameInodes, TableUses;
      ghost var d, tab, p := fs.vol.disk, fs.itab[..], pending;
      OtherDevicesRefl(fs.vol.dev, fs.vol.cache.logical);
      SameInodesRefl(d, tab);
      if fs.itab[ip].refs > 0 && fs.itab[ip].dirty {
        SlotLoaded(d, fs.layout, tab, fs.vol.isize, fs.vol.fsize, ip);
        SlotInUse(d, fs.layout, tab, fs.vol.isize, fs.vol.fsize, p, ip);
        WrInode(ip);
        WriteUsed(d, fs.vol.disk, fs.vol.isize, ninode, sinode[..], tinode, p, fs.itab[ip].num, fs.itab[ip].node,
                  exact);
        pending := pending - {fs.itab[ip].num};
        StillOthersUse(d, fs.vol.disk, tab, fs.itab[..], p, pending, fs.layout, fs.vol.isize, fs.vol.fsize, ip);
        OneAndOthers(fs.vol.disk, fs.itab[..], pending, ip);
      }
    }

    /** Writes changed inodes, the superblock and every dirty buffer. `garbage` is the memory
        behind the superblock structure, which is written along. */
    method Sync(garbage: Block)
      requires Ready()
      modifies `pending, fs.itab, fs.vol`disk, fs.vol.cache, fs.vol.cache.pool
      ensures Ready() && OtherDevices(old(fs.vol.cache.logical), fs.vol.cache.logical, fs.vol.dev)
      ensures |fs.itab[..]| == ITABSIZE
      ensures forall s | 0 <= s < ITABSIZE ::
                fs.itab[s] == if old(fs.itab[s]).refs > 0 then old(fs.itab[s]).(dirty := false) else old(fs.itab[s])
      ensures forall b: Word | b == 0 || fs.vol.isize <= b :: fs.vol.disk(b) == old(fs.vol.disk)(b)
      ensures SameInodes(old(fs.vol.disk), old(fs.itab[..]), fs.vol.disk, fs.itab[..])
      ensures forall n: Word :: InUse(fs.vol.disk, pending, n) <==> old(InUse(fs.vol.disk, pending, n))
      ensures forall n :: n in pending <==> n in old(pending) && SyncLeaves(old(fs.itab[..]), n)
      ensures Mountable(fs.vol.disk, fs.vol.stack)
      ensures SbIsize(fs.vol.disk(1)) == fs.vol.isize && SbFsize(fs.vol.disk(1)) == fs.vol.fsize
      ensures WordAt(fs.vol.disk(1), 54) == ninode && WordsOf(fs.vol.disk(1), 55, 105) == sinode[..]
              && WordAt(fs.vol.disk(1), 109) == ToWord(tinode)
      ensures forall b: Word :: fs.vol.cache.store[fs.vol.dev](b) == fs.vol.disk(b)
    {
      hide GoodLayout, GoodFreeList, Consistent, OtherDevices, GoodNumbers, InUse, DiskNode, SameInodes, TableUses;
      ghost var l, d, tab := fs.vol.cache.logical, fs.vol.disk, fs.itab[..];
      OtherDevicesRefl(fs.vol.dev, l);
      SameInodesRefl(d, tab);
      for ip := 0 to ITABSIZE
        invariant Ready() && OtherDevices(l, fs.vol.cache.logical, fs.vol.dev)
        invariant |fs.itab[..]| == |tab| == ITABSIZE
        invariant forall s | 0 <= s < ITABSIZE :: fs.itab[s] == if s < ip && tab[s].refs > 0
                  then tab[s].(dirty := false) else tab[s]
        invariant forall b: Word | b == 0 || fs.vol.isize <= b :: fs.vol.disk(b) == d(b)
        invariant SameInodes(d, tab, fs.vol.disk, fs.itab[..])
        invariant forall n: Word :: InUse(fs.vol.disk, pending, n) <==> old(InUse(fs.vol.disk, pending, n))
        invariant forall n :: n in pending <==> n in old(pending) && SyncLeaves(tab[..ip], n)
      {
        ghost var l1, d1, tab1 := fs.vol.cache.logical, fs.vol.disk, fs.itab[..];
        LeavesMore(tab, ip, fs.itab[ip]);
        SyncInode(ip);
        OtherDevicesTrans(fs.vol.dev, l, l1, fs.vol.cache.logical);
        SameInodesTrans(d, tab, d1, tab1, fs.vol.disk, fs.itab[..]);
      }
      assert tab[..ITABSIZE] == tab;
      NumbersBounds(d, fs.vol.isize, ninode, sinode[..], tinode, old(pending), exact, 0);
      ghost var l2, d2, tab2 := fs.vol.cache.logical, fs.vol.disk, fs.itab[..];
      WriteSuperblock(garbage);
      OtherDevicesTrans(fs.vol.dev, l, l2, fs.vol.cache.logical);
      SameInodesTrans(d, tab, d2, tab2, fs.vol.disk, fs.itab[..]);
      fs.vol.Bufsync();
    }

    /** Sync's write of the superblock structure. */
    method WriteSuperblock(garbage: Block)
      requires Ready()
      modifies fs.vol`disk, fs.vol.cache, fs.vol.cache.pool
      ensures Ready() && OtherDevices(old(fs.vol.cache.logical), fs.vol.cache.logical, fs.vol.dev)
      ensures forall b: Word | b != 1 :: fs.vol.disk(b) == old(fs.vol.disk)(b)
      ensures SameInodes(old(fs.vol.disk), fs.itab[..], fs.vol.disk, fs.itab[..])
      ensures forall n: Word :: InUse(fs.vol.disk, pending, n) <==> old(InUse(fs.vol.disk, pending, n))
      ensures Mountable(fs.vol.disk, fs.vol.stack)
      ensures SbIsize(fs.vol.disk(1)) == fs.vol.isize && SbFsize(fs.vol.disk(1)) == fs.vol.fsize
      ensures WordAt(fs.vol.disk(1), 54) == ninode && WordsOf(fs.vol.disk(1), 55, 105) == sinode[..]
              && WordAt(fs.vol.disk(1), 109) == ToWord(tinode)
    {
      hide GoodLayout, GoodFreeList, Consistent, OtherDevices, GoodNumbers, InUse, DiskNode, SameInodes, TableUses;
      hide SuperBlock, WordAt, TableWords;
      ghost var d := fs.vol.disk;
      FreeListBounds(d, fs.vol.isize, fs.vol.fsize, fs.vol.nfree, fs.vol.free[..], fs.vol.tfree, fs.vol.stack);
      NumbersBounds(d, fs.vol.isize, ninode, sinode[..], tinode, pending, exact, 0);
      var others := TableWords(ninode, sinode[..], garbage);
      var image := SuperBlock(others, fs.vol.isize, fs.vol.fsize, fs.vol.nfree, fs.vol.free[..], fs.vol.tfree,
                              ToWord(tinode));
      SuperBlockFields(others, fs.vol.isize, fs.vol.fsize, fs.vol.nfree, fs.vol.free[..], fs.vol.tfree, ToWord(tinode));
      CachedWords(others, image);
      fs.vol.WriteSuper(image);
      SuperblockApart(d, fs.vol.disk, fs.layout, fs.itab[..], fs.vol.isize, fs.vol.fsize, image, ninode, sinode[..],
                      tinode, pending, exact);
      NotOnStack(d, fs.vol.disk, fs.vol.isize, fs.vol.fsize, fs.vol.nfree, fs.vol.free[..], fs.vol.tfree, fs.vol.stack,
                 1);
    }

    // ----- Allocation of numbers -----

    /** I_alloc's scan: the first fifty inodes that are free on disk. */
    method Scan() returns (k: int)
      requires fs.Ready() && sinode.Length == NINODES && sinode !in fs.Repr() && 3 <= fs.vol.isize <= 8193
      modifies sinode, fs.vol`disk, fs.vol.cache, fs.vol.cache.pool
      ensures fs.Ready() && fs.vol.disk == old(fs.vol.disk)
      ensures OtherDevices(old(fs.vol.cache.logical), fs.vol.cache.logical, fs.vol.dev)
      ensures 0 <= k <= NINODES && FirstFree(fs.vol.disk, fs.vol.isize, k, sinode[..])
    {
      hide GoodLayout, GoodFreeList, Consistent, OtherDevices, DiskNode, FreeBelow, DecodeInode;
      ghost var l, d, last := fs.vol.cache.logical, fs.vol.disk, 8 * (fs.vol.isize - 2);
      OtherDevicesRefl(fs.vol.dev, l);
      k := 0;
      NoneBelow(d);
      for blk := 2 to fs.vol.isize
        invariant fs.Ready() && fs.vol.disk == d && OtherDevices(l, fs.vol.cache.logical, fs.vol.dev)
        invariant 0 <= k < NINODES && sinode[..k] == FreeBelow(d, 8 * (blk - 2))
      {
        ghost var l1 := fs.vol.cache.logical;
        var buf := fs.vol.ReadBlock(blk);
        OtherDevicesTrans(fs.vol.dev, l, l1, fs.vol.cache.logical);
        FreePrefix(d, 8 * (blk - 2) + 8, last);
        k := ScanBlock(buf, blk, k, d);
        if k == NINODES {
          return;
        }
      }
    }

    /** Its inner loop, over the eight inodes of block blk of disk d. */
    method ScanBlock(buf: Block, blk: Word, k0: int, ghost d: Disk) returns (k: int)
      requires sinode.Length == NINODES && 2 <= blk <= 8192 && buf == d(blk)
      requires 0 <= k0 < NINODES && sinode[..k0] == FreeBelow(d, 8 * (blk - 2))
      modifies sinode
      ensures 0 <= k <= NINODES && sinode[..k] <= FreeBelow(d, 8 * (blk - 2) + 8)
      ensures k < NINODES ==> sinode[..k] == FreeBelow(d, 8 * (blk - 2) + 8)
    {
      hide DiskNode, FreeBelow, DecodeInode;
      k := k0;
      for j := 0 to 8
        invariant 0 <= k < NINODES && sinode[..k] == FreeBelow(d, 8 * (blk - 2) + j)
      {
        var node := DecodeInode(buf, j);
        FreeStep(d, 8 * (blk - 2) + j, blk, j);
        FreePrefix(d, 8 * (blk - 2) + j + 1, 8 * (blk - 2) + 8);
        if node.mode == 0 && node.nlink == 0 {
          ghost var before := sinode[..k];
          sinode[k] := 8 * (blk - 2) + j;
          k := k + 1;
          assert sinode[..k] == before + [sinode[k - 1]];
        }
        if k == NINODES {
          return;
        }
      }
    }

    /** I_alloc's refill: a sync, then the scan. It finds no number if and only if none is free on disk,
        and lists a pending one unless fifty free numbers are below it. */
    method Rescan(garbage: Block) returns (k: int)
      requires Ready() && ninode == 0
      modifies `pending, `exact, sinode, fs.itab, fs.vol`disk, fs.vol.cache, fs.vol.cache.pool
      ensures Ready() && OtherDevices(old(fs.vol.cache.logical), fs.vol.cache.logical, fs.vol.dev)
      ensures exact == (old(exact) && PendingBehind(fs.vol.disk, pending))
      ensures forall n :: n in pending <==> n in old(pending) && SyncLeaves(old(fs.itab[..]), n)
      ensures 0 <= k <= NINODES && FirstFree(fs.vol.disk, fs.vol.isize, k, sinode[..])
      ensures GoodNumbers(fs.vol.disk, fs.vol.isize, k, sinode[..], tinode, pending, exact)
      ensures k == ListSize(fs.vol.disk, fs.vol.isize) && (k == 0 <==> FreeSet(fs.vol.disk, fs.vol.isize) == {})
      ensures k == 0 ==> tinode == 0 && forall n: Word | n < 8 * (fs.vol.isize - 2) :: InUse(fs.vol.disk, pending, n)
      ensures |fs.itab[..]| == ITABSIZE
      ensures forall s | 0 <= s < ITABSIZE ::
                fs.itab[s] == old(fs.itab[s]).(dirty := fs.itab[s].dirty)
                  && (fs.itab[s].dirty ==> old(fs.itab[s]).dirty)
      ensures forall b: Word | b == 0 || fs.vol.isize <= b :: fs.vol.disk(b) == old(fs.vol.disk)(b)
      ensures SameInodes(old(fs.vol.disk), old(fs.itab[..]), fs.vol.disk, fs.itab[..])
      ensures forall n: Word :: InUse(fs.vol.disk, pending, n) <==> old(InUse(fs.vol.disk, pending, n))
    {
      hide GoodLayout, GoodFreeList, Consistent, OtherDevices, GoodNumbers, InUse, DiskNode, SameInodes, TableUses;
      hide FreeBelow, Mountable, FirstFree, PendingBehind, FreeSet, SyncLeaves, ListSize;
      ghost var l := fs.vol.cache.logical;
      Sync(garbage);
      ghost var l1, was := fs.vol.cache.logical, sinode[..];
      NumbersBounds(fs.vol.disk, fs.vol.isize, ninode, was, tinode, pending, exact, 0);
      k := Scan();
      OtherDevicesTrans(fs.vol.dev, l, l1, fs.vol.cache.logical);
      ScannedNumbers(fs.vol.disk, fs.vol.isize, k, was, sinode[..], tinode, pending, exact);
      OtherCache(fs.vol.disk, fs.vol.isize, was, sinode[..], tinode, pending, exact);
      exact := exact && PendingBehind(fs.vol.disk, pending);
      LessExact(fs.vol.disk, fs.vol.isize, ninode, sinode[..], tinode, pending, old(exact), exact);
    }

    /** A number from the cache, or 0. It rescans the inode blocks when its cache is empty. With exact
        numbers, and no number pending when it rescans, it returns a free number, or 0 if and only if
        there is none. The corrupt exit is taken if and only if the count is zero and there is a number
        in the cache or, for a rescan, one that is free on disk. */
    method IAlloc(garbage: Block) returns (ino: Word)
      requires Ready()
      modifies `ninode, `tinode, `pending, `exact, `corrupt, sinode, fs.itab, fs.vol`disk, fs.vol`error, fs.vol.cache,
               fs.vol.cache.pool
      ensures Intact() && OtherDevices(old(fs.vol.cache.logical), fs.vol.cache.logical, fs.vol.dev)
      ensures exact ==> old(exact)
      ensures old(exact) && (old(ninode) == 0 ==> old(Settled(fs.itab[..], pending))) ==> exact && !corrupt
      ensures corrupt <==>
              old(tinode) == 0 && (old(ninode) > 0 || FreeSet(fs.vol.disk, fs.vol.isize) != {})
      ensures old(ninode) == 0 && ino != 0 ==> ninode == ListSize(fs.vol.disk, fs.vol.isize) - 1
      ensures ino == 0 && !corrupt ==>
                old(ninode) == 0 &&
                forall n: Word | n < 8 * (fs.vol.isize - 2) :: old(InUse(fs.vol.disk, pending, n))
      ensures ino == 0 ==> fs.vol.error == ENOSPC && tinode == old(tinode) && pending <= old(pending)
      ensures ino != 0 ==>
                && !corrupt && 2 <= ino < 8 * (fs.vol.isize - 2) && fs.vol.error == old(fs.vol.error)
                && tinode == old(tinode) - 1 && 0 <= tinode
                && (exact ==> LooksFree(DiskNode(fs.vol.disk, ino)) && !old(InUse(fs.vol.disk, pending, ino)))
                && (LooksFree(DiskNode(fs.vol.disk, ino)) ==> ino in pending)
                && pending <= old(pending) + {ino}
      ensures old(ninode) > 0 && ino != 0 ==> ninode == old(ninode) - 1 && ino == old(sinode[ninode - 1])
      ensures forall n | n in old(pending) && SyncLeaves(old(fs.itab[..]), n) :: n in pending
      ensures old(ninode) > 0 && ino != 0 ==> pending == HandedOut(fs.vol.disk, old(pending), ino)
      ensures forall n: Word | n != ino :: InUse(fs.vol.disk, pending, n) <==> old(InUse(fs.vol.disk, pending, n))
      ensures |fs.itab[..]| == ITABSIZE
      ensures forall s | 0 <= s < ITABSIZE ::
                fs.itab[s] == old(fs.itab[s]).(dirty := fs.itab[s].dirty)
                  && (fs.itab[s].dirty ==> old(fs.itab[s]).dirty)
      ensures forall b: Word | b == 0 || fs.vol.isize <= b :: fs.vol.disk(b) == old(fs.vol.disk)(b)
      ensures SameInodes(old(fs.vol.disk), old(fs.itab[..]), fs.vol.disk, fs.itab[..])
    {
      hide GoodLayout, GoodFreeList, Consistent, OtherDevices, GoodNumbers, InUse, DiskNode, SameInodes, TableUses;
      hide FreeBelow, FirstFree, FreeSet, PendingBehind, SyncLeaves, HandedOut, ListSize;
      ghost var l, d, tab := fs.vol.cache.logical, fs.vol.disk, fs.itab[..];
      OtherDevicesRefl(fs.vol.dev, l);
      SameInodesRefl(d, tab);
      NumbersBounds(d, fs.vol.isize, ninode, sinode[..], tinode, pending, exact, 0);
      if ninode == 0 {
        ninode := Rescan(garbage);
        NonePending(fs.vol.disk, pending);
        if ninode == 0 {
          assert tinode == 0;   // otherwise "corrupt"
          fs.vol.error := ENOSPC;
          return 0;
        }
      }
      if tinode == 0 {
        NotCorrupt(fs.vol.disk, fs.itab[..], fs.vol.isize, ninode, sinode[..], tinode, pending, exact);
        corrupt, fs.vol.error := true, ENOSPC;
        return 0;
      }
      ghost var p := pending;
      ino := PopNumber();
      HandedIs(fs.vol.disk, p, ino);
    }

    /** I_alloc's common case: the last cached number, with a count that is not zero. */
    method PopNumber() returns (ino: Word)
      requires Ready() && ninode > 0 && tinode > 0
      modifies `ninode, `tinode, `pending
      ensures Ready() && pending == HandedOut(fs.vol.disk, old(pending), ino)
      ensures tinode == old(tinode) - 1 && ninode == old(ninode) - 1 && ino == old(sinode[ninode - 1])
      ensures 2 <= ino < 8 * (fs.vol.isize - 2)
      ensures exact ==>
                && LooksFree(DiskNode(fs.vol.disk, ino)) && IsEmpty(DiskNode(fs.vol.disk, ino))
                && !old(InUse(fs.vol.disk, pending, ino))
      ensures forall n: Word | n != ino :: InUse(fs.vol.disk, pending, n) <==> old(InUse(fs.vol.disk, pending, n))
    {
      hide GoodLayout, GoodFreeList, Consistent, GoodNumbers, InUse, DiskNode, TableUses, HandedOut;
      NumbersBounds(fs.vol.disk, fs.vol.isize, ninode, sinode[..], tinode, pending, exact, 0);
      TakeNumber(fs.vol.disk, fs.itab[..], fs.vol.isize, ninode, sinode[..], tinode, pending, exact);
      ninode := ninode - 1;
      ino := sinode[ninode];
      assert 2 <= ino < (fs.vol.isize - 2) * 8;   // otherwise "corrupt"
      tinode := tinode - 1;
      pending := HandedOut(fs.vol.disk, pending, ino);
    }

    // ----- Opening -----

    /** I_open's search: the slot of inode ino, or the last unreferenced slot it passes. It starts
        behind the slot where the previous search ended. */
    method FindSlot(ino: Word) returns (found: bool, nindex: int)
      requires fs.itab.Length == ITABSIZE && 0 <= nexti < ITABSIZE && ino != 0
      modifies `nexti
      ensures 0 <= nexti < ITABSIZE && -1 <= nindex < ITABSIZE
      ensures found ==> nindex != -1 && fs.itab[nindex].num == ino
      ensures !found ==> !Loaded(fs.itab[..], ino)
      ensures !found && nindex != -1 ==> fs.itab[nindex].refs == 0
      ensures !found && nindex != -1 ==>   // the last one behind the old nexti
                forall s | 0 <= s < ITABSIZE && fs.itab[s].refs == 0 ::
                  if nindex > old(nexti) then old(nexti) < s <= nindex else old(nexti) < s || s <= nindex
      ensures !found && nindex == -1 ==> forall s | 0 <= s < ITABSIZE :: fs.itab[s].refs != 0
    {
      nindex := -1;
      var j := nexti;
      ghost var start := nexti;
      for i := 0 to ITABSIZE
        invariant 0 <= nexti < ITABSIZE && j == if start + i < ITABSIZE then start + i else start + i - ITABSIZE
        invariant -1 <= nindex < ITABSIZE && (nindex != -1 ==> fs.itab[nindex].refs == 0)
        invariant forall s | 0 <= s < ITABSIZE && StepsTo(start, s) <= i :: Passed(fs.itab[..], s, ino, nindex)
        invariant nindex != -1 ==> StepsTo(start, nindex) <= i && forall s | 0 <= s < ITABSIZE && fs.itab[s].refs == 0
                                   && StepsTo(start, s) <= i :: StepsTo(start, s) <= StepsTo(start, nindex)
      {
        nexti := j;
        j := j + 1;
        if j >= ITABSIZE {
          j := 0;
        }
        assert StepsTo(start, j) == i + 1;
        if fs.itab[j].refs == 0 {
          nindex := j;
        }
        if fs.itab[j].num == ino {
          return true, j;
        }
      }
      NotInTable(fs.itab[..], ino, nindex);
      return false, nindex;
    }

    /** Loads inode ino into unreferenced slot s. */
    method LoadInode(s: int, ino: Word)
      requires Intact() && 0 <= s < ITABSIZE && fs.itab[s].refs == 0
      requires ROOTINODE <= ino < 8 * (fs.vol.isize - 2) && !Loaded(fs.itab[..], ino)
      modifies fs.itab, fs.vol`disk, fs.vol.cache, fs.vol.cache.pool
      ensures Intact() && fs.vol.disk == old(fs.vol.disk)
      ensures OtherDevices(old(fs.vol.cache.logical), fs.vol.cache.logical, fs.vol.dev)
      ensures fs.itab[..] == old(fs.itab[..])[s := Cinode(ino, DiskNode(fs.vol.disk, ino), 0, false)]
      ensures SameInodes(old(fs.vol.disk), old(fs.itab[..]), fs.vol.disk, fs.itab[..])
    {
      hide GoodLayout, GoodFreeList, Consistent, OtherDevices, GoodNumbers, InUse, SameInodes, TableUses, DecodeInode;
      ghost var d, tab := fs.vol.disk, fs.itab[..];
      LayoutBounds(d, fs.layout, tab, fs.vol.isize, fs.vol.fsize, s);
      LoadSlot(d, fs.layout, tab, fs.vol.isize, fs.vol.fsize, s, Cinode(ino, DiskNode(d, ino), 0, false));
      var buf := fs.vol.ReadBlock(ino / 8 + 2);
      fs.itab[s] := fs.itab[s].(node := DecodeInode(buf, ino % 8));
      fs.itab[s] := fs.itab[s].(num := ino);
      assert fs.itab[..] == tab[s := fs.itab[s]];
      UsesAfterLoad(d, tab, pending, s, fs.itab[s]);
    }

    /** I_open's search, load, checks and reference count for inode ino. */
    method IGet(ino: Word, isNew: bool) returns (ip: int)
      requires Intact() && ROOTINODE <= ino < 8 * (fs.vol.isize - 2)
      requires isNew ==> 2 <= ino && (LooksFree(DiskNode(fs.vol.disk, ino)) ==> ino in pending)
      modifies `nexti, fs.itab, fs.vol`disk, fs.vol`error, fs.vol.cache, fs.vol.cache.pool
      ensures OtherDevices(old(fs.vol.cache.logical), fs.vol.cache.logical, fs.vol.dev)
      ensures if isNew && ip != -1 then IntactBut(ip) else Intact()
      ensures SameInodes(old(fs.vol.disk), old(fs.itab[..]), fs.vol.disk, fs.itab[..])
              && fs.vol.disk == old(fs.vol.disk)
      ensures |fs.itab[..]| == ITABSIZE
      ensures forall s | 0 <= s < ITABSIZE && s != ip && old(fs.itab[s].refs) > 0 :: fs.itab[s] == old(fs.itab[s])
      ensures forall s | 0 <= s < ITABSIZE && s != ip && old(fs.itab[s].refs) == 0 :: fs.itab[s].refs == 0
      ensures ip == -1 <==> || (isNew && !LooksFree(Current(fs.vol.disk, fs.itab[..], ino)))
                            || (!isNew && !Linked(Current(fs.vol.disk, fs.itab[..], ino)))
                            || (!Loaded(old(fs.itab[..]), ino)
                                && forall s | 0 <= s < ITABSIZE :: old(fs.itab[s].refs) != 0)
      ensures ip != -1 ==> fs.Open(ip) && fs.vol.error == old(fs.vol.error)
      ensures ip == -1 ==> fs.vol.error == if !Loaded(old(fs.itab[..]), ino) && Full(old(fs.itab[..])) then ENFILE
                                           else old(fs.vol.error)
      ensures ip != -1 && old(fs.itab[ip].refs) > 0 ==>
              fs.itab[ip] == old(fs.itab[ip]).(refs := old(fs.itab[ip].refs) + 1)
      ensures ip != -1 ==>
                && fs.Open(ip) && fs.itab[ip].num == ino && fs.itab[ip].node == Current(fs.vol.disk, fs.itab[..], ino)
                && fs.itab[ip].refs == (if old(fs.itab[ip]).num == ino then old(fs.itab[ip]).refs + 1 else 1)
                && (isNew ==> NewSlot(fs.itab[ip]) && old(fs.itab[ip].refs) == 0 && ino in pending)
    {
      hide GoodLayout, GoodFreeList, Consistent, OtherDevices, GoodNumbers, InUse, SameInodes, TableUses, DiskNode;
      hide Current, Loaded, IsEmpty, OthersUse;
      ghost var d, tab := fs.vol.disk, fs.itab[..];
      OtherDevicesRefl(fs.vol.dev, fs.vol.cache.logical);
      SameInodesRefl(d, tab);
      LayoutBounds(d, fs.layout, tab, fs.vol.isize, fs.vol.fsize, 0);
      var found, nindex := FindSlot(ino);
      if !found {
        NotCurrent(d, tab, ino);
        if nindex == -1 {
          fs.vol.error := ENFILE;
          return -1;
        }
        LoadInode(nindex, ino);
      } else {
        IsLoaded(tab, nindex);
      }
      ghost var tab1 := fs.itab[..];
      SlotCurrent(d, fs.layout, tab1, fs.vol.isize, fs.vol.fsize, nindex);
      NewNode(d, fs.layout, tab1, fs.vol.isize, fs.vol.fsize, ninode, sinode[..], tinode, pending, exact, nindex);
      if isNew {
        if fs.itab[nindex].node.nlink != 0 || Getmode(fs.itab[nindex].node.mode) != 0 {
          return -1;   // "bad disk inode"
        }
      } else if fs.itab[nindex].node.nlink == 0 || Getmode(fs.itab[nindex].node.mode) == 0 {
        return -1;     // "bad disk inode"
      }
      fs.itab[nindex] := fs.itab[nindex].(refs := fs.itab[nindex].refs + 1);
      assert fs.itab[..] == tab1[nindex := fs.itab[nindex]];
      CountUp(d, fs.layout, tab1, fs.vol.isize, fs.vol.fsize, pending, nindex);
      SlotCurrent(d, fs.layout, fs.itab[..], fs.vol.isize, fs.vol.fsize, nindex);
      SameInodesTrans(d, tab, d, tab1, d, fs.itab[..]);
      return nindex;
    }

    /** I_open's number for a new inode, or 0 with ENOSPC. */
    method NewNumber(garbage: Block) returns (num: Word)
      requires Ready()
      modifies `ninode, `tinode, `pending, `exact, `corrupt, sinode, fs.itab, fs.vol`disk, fs.vol`error, fs.vol.cache,
               fs.vol.cache.pool
      ensures Intact() && OtherDevices(old(fs.vol.cache.logical), fs.vol.cache.logical, fs.vol.dev)
      ensures Allotted(old(fs.vol.disk), old(fs.itab[..]), old(pending), old(exact), old(ninode), old(tinode),
                       fs.vol.disk, fs.vol.isize, num, pending, exact, tinode, corrupt)
      ensures fs.vol.error == if num == 0 then ENOSPC else old(fs.vol.error)
      ensures old(ninode) > 0 && num != 0 ==>
                ninode == old(ninode) - 1 && pending == HandedOut(fs.vol.disk, old(pending), num)
      ensures old(ninode) == 0 && num != 0 ==> ninode == ListSize(fs.vol.disk, fs.vol.isize) - 1
      ensures num != 0 ==>
                && !corrupt && 2 <= num < 8 * (fs.vol.isize - 2)
                && (LooksFree(DiskNode(fs.vol.disk, num)) ==> num in pending)
                && (LooksFree(Current(old(fs.vol.disk), old(fs.itab[..]), num)) ==>
                      num in pending && Unreferenced(fs.itab[..], num))
      ensures |fs.itab[..]| == ITABSIZE
      ensures forall s | 0 <= s < ITABSIZE ::
                fs.itab[s] == old(fs.itab[s]).(dirty := fs.itab[s].dirty)
                  && (fs.itab[s].dirty ==> old(fs.itab[s]).dirty)
      ensures forall b: Word | b == 0 || fs.vol.isize <= b :: fs.vol.disk(b) == old(fs.vol.disk)(b)
      ensures SameInodes(old(fs.vol.disk), old(fs.itab[..]), fs.vol.disk, fs.itab[..])
    {
      hide GoodLayout, GoodFreeList, Consistent, OtherDevices, GoodNumbers, InUse, SameInodes, TableUses, DiskNode;
      hide Current, FreeSet, SyncLeaves, HandedOut, ListSize, Settled, LooksFree, Unreferenced;
      ghost var d, tab := fs.vol.disk, fs.itab[..];
      ReadyMeans();
      NumbersInTable(d, fs.layout, tab, fs.vol.isize, fs.vol.fsize, pending);
      LayoutBounds(d, fs.layout, tab, fs.vol.isize, fs.vol.fsize, 0);
      num := IAlloc(garbage);
      if num == 0 {
        fs.vol.error := ENOSPC;
        return;
      }
      FreeIsUnreferenced(fs.vol.disk, fs.layout, fs.itab[..], fs.vol.isize, fs.vol.fsize, pending, num);
      SameAt(d, tab, fs.vol.disk, fs.itab[..], num);
    }

    /** Gives inode n a slot and counts the reference; n == 0 asks for a new inode, whose number i_alloc
        gives (num, or 0 if it gives none). -1 means that it cannot be had. A new inode is one that is
        free on disk and in no slot, whatever the cached numbers are: otherwise its number is refused.
        If it is refused only because the table is full, the number stays taken. */
    method IOpen(n: Word, garbage: Block) returns (ip: int, ghost num: Word)
      requires Ready()
      modifies this, sinode, fs.itab, fs.vol`disk, fs.vol`error, fs.vol.cache, fs.vol.cache.pool
      ensures OtherDevices(old(fs.vol.cache.logical), fs.vol.cache.logical, fs.vol.dev)
      ensures if n == 0 && ip != -1 then IntactBut(ip) && !corrupt else Intact()
      ensures SameInodes(old(fs.vol.disk), old(fs.itab[..]), fs.vol.disk, fs.itab[..])
      ensures forall b: Word | b == 0 || fs.vol.isize <= b :: fs.vol.disk(b) == old(fs.vol.disk)(b)
      ensures |fs.itab[..]| == ITABSIZE
      ensures forall s | 0 <= s < ITABSIZE && s != ip && old(fs.itab[s].refs) > 0 ::
                fs.itab[s] == old(fs.itab[s]).(dirty := fs.itab[s].dirty)
                  && (fs.itab[s].dirty ==> old(fs.itab[s]).dirty)
      ensures forall s | 0 <= s < ITABSIZE && s != ip && old(fs.itab[s].refs) == 0 :: fs.itab[s].refs == 0
      ensures ip != -1 ==> fs.Open(ip) && fs.vol.error == old(fs.vol.error)
      ensures n != 0 ==>
                && Ready() && exact == old(exact) && tinode == old(tinode)
                && fs.vol.disk == old(fs.vol.disk) && pending == old(pending) && ninode == old(ninode)
                && (ip == -1 <==> || n >= 8 * (fs.vol.isize - 2)
                                  || !Linked(Current(fs.vol.disk, fs.itab[..], n))
                                  || (!Loaded(old(fs.itab[..]), n)
                                      && forall s | 0 <= s < ITABSIZE :: old(fs.itab[s].refs) != 0))
                && (ip != -1 && old(fs.itab[ip].refs) > 0 ==>
                    fs.itab[ip] == old(fs.itab[ip]).(refs := old(fs.itab[ip].refs) + 1))
                && (ip != -1 ==>
                      && fs.itab[ip].num == n && fs.itab[ip].node == Current(fs.vol.disk, fs.itab[..], n)
                      && fs.itab[ip].refs == if old(fs.itab[ip]).num == n then old(fs.itab[ip]).refs + 1 else 1)
      ensures n != 0 && ip == -1 ==>
                fs.vol.error == if n < 8 * (fs.vol.isize - 2) && !Loaded(old(fs.itab[..]), n) && Full(old(fs.itab[..]))
                                then ENFILE else old(fs.vol.error)
      ensures n == 0 && num == 0 ==> fs.vol.error == ENOSPC
      ensures n == 0 && num != 0 && LooksFree(Current(old(fs.vol.disk), old(fs.itab[..]), num)) && ip == -1 ==>
                fs.vol.error == ENFILE
      ensures n == 0 ==> Allotted(old(fs.vol.disk), old(fs.itab[..]), old(pending), old(exact), old(ninode),
                                  old(tinode),
                                  fs.vol.disk, fs.vol.isize, num, pending, exact, tinode, corrupt)
      ensures n == 0 && old(ninode) > 0 && num != 0 ==>
                ninode == old(ninode) - 1 && pending == HandedOut(fs.vol.disk, old(pending), num)
      ensures n == 0 && old(ninode) == 0 && num != 0 ==> ninode == ListSize(fs.vol.disk, fs.vol.isize) - 1
      ensures n == 0 ==>
                (ip != -1 <==> num != 0 && LooksFree(Current(old(fs.vol.disk), old(fs.itab[..]), num))
                               && exists s :: 0 <= s < ITABSIZE && old(fs.itab[s].refs) == 0)
      ensures n == 0 && ip != -1 ==>
                NewSlot(fs.itab[ip]) && fs.itab[ip].num == num && num in pending && old(fs.itab[ip].refs) == 0
      ensures n == 0 && ip == -1 && num != 0 && LooksFree(Current(old(fs.vol.disk), old(fs.itab[..]), num)) ==>
                num in pending && Unreferenced(fs.itab[..], num)
    {
      hide GoodLayout, GoodFreeList, Consistent, OtherDevices, GoodNumbers, InUse, SameInodes, TableUses, DiskNode;
      hide Current, Loaded, IsEmpty, OthersUse, FreeSet, HandedOut, ListSize, Unreferenced, Allotted, LooksFree;
      hide Inodes.Valid, FileSys.Valid, Vol.Valid, Vol.Linked;
      ghost var l, d, tab := fs.vol.cache.logical, fs.vol.disk, fs.itab[..];
      OtherDevicesRefl(fs.vol.dev, l);
      SameInodesRefl(d, tab);
      ReadyMeans();
      LayoutBounds(d, fs.layout, tab, fs.vol.isize, fs.vol.fsize, 0);
      var ino := n;
      num := n;
      if n == 0 {
        ino := NewNumber(garbage);
        num := ino;
        if ino == 0 {
          return -1, 0;
        }
        IntactMeans();
        SameAt(d, tab, fs.vol.disk, fs.itab[..], ino);
      } else if n >= (fs.vol.isize - 2) * 8 {
        return -1, num;
      }
      ghost var l1, d1, tab1 := fs.vol.cache.logical, fs.vol.disk, fs.itab[..];
      ip := IGet(ino, n == 0);
      SameAt(d1, tab1, fs.vol.disk, fs.itab[..], ino);
      if ip == -1 && n == 0 {
        FreeIsUnreferenced(d1, fs.layout, tab1, fs.vol.isize, fs.vol.fsize, pending, ino);
        StillUnreferenced(tab1, fs.itab[..], ino);
      }
      OtherDevicesTrans(fs.vol.dev, l, l1, fs.vol.cache.logical);
      SameInodesTrans(d, tab, d1, tab1, fs.vol.disk, fs.itab[..]);
    }

    /** Newfile's half that concerns the inode: a new one, set up as an empty file with one link
        and written at once, so that its number does not stay pending. */
    method NewInode(garbage: Block) returns (ip: int, ghost num: Word)
      requires Ready()
      modifies this, sinode, fs.itab, fs.vol`disk, fs.vol`error, fs.vol.cache, fs.vol.cache.pool
      ensures Intact() && OtherDevices(old(fs.vol.cache.logical), fs.vol.cache.logical, fs.vol.dev)
      ensures |fs.itab[..]| == ITABSIZE && forall b: Word | b == 0
              || fs.vol.isize <= b :: fs.vol.disk(b) == old(fs.vol.disk)(b)
      ensures forall s | 0 <= s < ITABSIZE && s != ip && old(fs.itab[s].refs) > 0 ::
                fs.itab[s] == old(fs.itab[s]).(dirty := fs.itab[s].dirty)
                  && (fs.itab[s].dirty ==> old(fs.itab[s]).dirty)
      ensures forall s | 0 <= s < ITABSIZE && s != ip && old(fs.itab[s].refs) == 0 :: fs.itab[s].refs == 0
      ensures ip != -1 ==> fs.Open(ip) && Ready() && fs.vol.error == old(fs.vol.error)
      ensures Untouched(old(fs.vol.disk), fs.layout.ino, old(fs.itab[..]), fs.vol.disk, fs.layout.ino, fs.itab[..],
                        if ip == -1 then {} else {fs.itab[ip].num as int})
      ensures ip != -1 ==>
                && fs.Open(ip) && fs.itab[ip].refs == 1 && !fs.itab[ip].dirty && fs.itab[ip].num == num
                && fs.itab[ip].node.mode == F_REG && fs.itab[ip].node.nlink == 1 && IsEmpty(fs.itab[ip].node)
                && DiskNode(fs.vol.disk, num) == fs.itab[ip].node && old(fs.itab[ip].refs) == 0
                && OnDevice(num, fs.itab[ip].node)
      ensures ip == -1 ==>
                Allotted(old(fs.vol.disk), old(fs.itab[..]), old(pending), old(exact), old(ninode), old(tinode),
                         fs.vol.disk, fs.vol.isize, num, pending, exact, tinode, corrupt)
      ensures exact ==> old(exact)
      ensures old(exact) && (old(ninode) == 0 ==> Settled(old(fs.itab[..]), old(pending))) ==> exact && !corrupt
      ensures num != 0 ==> 2 <= num < 8 * (fs.vol.isize - 2) && 0 <= tinode == old(tinode) - 1
      ensures (ip != -1 ==> pending <= old(pending)) && (exact && num != 0 ==> num !in old(pending))
      ensures old(ninode) == 0 && ip != -1 ==>
                ninode == (if |FreeSet(fs.vol.disk, fs.vol.isize)| + 1 < NINODES
                           then |FreeSet(fs.vol.disk, fs.vol.isize)| else NINODES - 1)
      ensures ip != -1 <==> num != 0 && LooksFree(Current(old(fs.vol.disk), old(fs.itab[..]), num))
                            && exists s :: 0 <= s < ITABSIZE && old(fs.itab[s].refs) == 0
      ensures ip == -1 && num != 0 && LooksFree(Current(old(fs.vol.disk), old(fs.itab[..]), num)) ==>
                num in pending && Unreferenced(fs.itab[..], num)
      ensures old(ninode) > 0 && num != 0 ==>
                && ninode == old(ninode) - 1
                && (ip != -1 ==> pending == old(pending) - {num})
                && (ip == -1 && num in pending ==> pending == old(pending) + {num})
    {
      hide GoodLayout, GoodFreeList, Consistent, OtherDevices, GoodNumbers, InUse, DiskNode, SameInodes, TableUses;
      hide Current, Loaded, OthersUse, Untouched, Allotted, HandedOut, Unreferenced, Settled, FreeSet, LooksFree;
      hide IsEmpty;
      ghost var l, d0, m, tab0 := fs.vol.cache.logical, fs.vol.disk, fs.layout, fs.itab[..];
      ip, num := IOpen(0, garbage);
      AllottedMeans(old(fs.vol.disk), old(fs.itab[..]), old(pending), old(exact), old(ninode), old(tinode),
                    fs.vol.disk, fs.vol.isize, num, pending, exact, tinode, corrupt);
      SameToUntouched(d0, m, tab0, fs.vol.disk, fs.itab[..], fs.vol.isize, fs.vol.fsize);
      HandedWith(fs.vol.disk, old(pending), num);
      if ip == -1 {
        return;
      }
      ghost var l1, d, tab, p := fs.vol.cache.logical, fs.vol.disk, fs.itab[..], pending;
      WriteNew(ip);
      assert pending <= old(pending);
      OtherDevicesTrans(fs.vol.dev, l, l1, fs.vol.cache.logical);
      HandedAndWritten(d, old(pending), num);
      UntouchedTrans(d0, m.ino, tab0, d, m.ino, tab, fs.vol.disk, m.ino, fs.itab[..], {}, {num as int});
      assert {} + {num as int} == {num as int};
    }

    /** Newfile's set-up of the new inode in slot ip, and its write. */
    method WriteNew(ip: int)
      requires IntactBut(ip) && !corrupt && fs.Open(ip) && NewSlot(fs.itab[ip]) && fs.itab[ip].num in pending
      modifies `pending, fs.itab, fs.vol`disk, fs.vol.cache, fs.vol.cache.pool
      ensures Ready() && OtherDevices(old(fs.vol.cache.logical), fs.vol.cache.logical, fs.vol.dev)
      ensures |fs.itab[..]| == ITABSIZE && forall b: Word | b == 0
              || fs.vol.isize <= b :: fs.vol.disk(b) == old(fs.vol.disk)(b)
      ensures forall s | 0 <= s < ITABSIZE && s != ip :: fs.itab[s] == old(fs.itab[s])
      ensures Untouched(old(fs.vol.disk), fs.layout.ino, old(fs.itab[..]), fs.vol.disk, fs.layout.ino, fs.itab[..],
                        {fs.itab[ip].num as int})
      ensures fs.Open(ip) && fs.itab[ip].refs == 1 && !fs.itab[ip].dirty && fs.itab[ip].num == old(fs.itab[ip].num)
      ensures fs.itab[ip].node.mode == F_REG && fs.itab[ip].node.nlink == 1 && IsEmpty(fs.itab[ip].node)
      ensures DiskNode(fs.vol.disk, fs.itab[ip].num) == fs.itab[ip].node
      ensures OnDevice(fs.itab[ip].num, fs.itab[ip].node)
      ensures pending == old(pending) - {fs.itab[ip].num}
      ensures |FreeSet(fs.vol.disk, fs.vol.isize)| == |FreeSet(old(fs.vol.disk), fs.vol.isize)| - 1
    {
      hide GoodLayout, GoodFreeList, Consistent, OtherDevices, GoodNumbers, InUse, DiskNode, SameInodes, TableUses;
      hide Current, Loaded, OthersUse, Untouched, FreeSet;
      ghost var d, m, tab, num := fs.vol.disk, fs.layout, fs.itab[..], fs.itab[ip].num;
      NewInTable(d, fs.layout, tab, fs.vol.isize, fs.vol.fsize, pending, ip);
      CountsFree(d, fs.vol.isize, ninode, sinode[..], tinode, pending, exact);
      var node := fs.itab[ip].node.(mode := F_REG, nlink := 1, sizeBlk := 0, sizeOff := 0, addr := NO_BLOCKS);
      StartFile(d, fs.layout, tab, fs.vol.isize, fs.vol.fsize, pending, ip, fs.itab[ip].(node := node, dirty := true));
      fs.itab[ip] := fs.itab[ip].(node := node, dirty := true);
      assert fs.itab[..] == tab[ip := fs.itab[ip]];
      ghost var tab1, p := fs.itab[..], pending;
      WrInode(ip);
      WriteUsed(d, fs.vol.disk, fs.vol.isize, ninode, sinode[..], tinode, p, num, node, exact);
      pending := pending - {num};
      FreeSetAfter(d, fs.vol.disk, fs.vol.isize, num, node);
      RemoveOne(FreeSet(d, fs.vol.isize), num);
      StillOthersUse(d, fs.vol.disk, tab1, fs.itab[..], p, pending, fs.layout, fs.vol.isize, fs.vol.fsize, ip);
      OneAndOthers(fs.vol.disk, fs.itab[..], pending, ip);
      OneInodeDiffers(d, m, tab, fs.vol.disk, fs.itab[..], fs.vol.isize, fs.vol.fsize, ip);
    }
  }

  /** What i_open says of a number that i_alloc gave, and of the count, the pending numbers and the mark
      of a corrupt superblock. */
  ghost predicate Allotted(
      d: Disk, tab: seq<Cinode>, pending: set<Word>, exact: bool, ninode: int, tinode: int,
      d': Disk, isize: Word, num: Word, pending': set<Word>, exact': bool, tinode': int, corrupt: bool)
  {
    && 2 <= isize && (exact' ==> exact)
    && (exact && (ninode == 0 ==> Settled(tab, pending)) ==> exact' && !corrupt)
    && (corrupt <==> tinode == 0 && (ninode > 0 || FreeSet(d', isize) != {}))
    && (forall n | n in pending && SyncLeaves(tab, n) :: n in pending')
    && if num == 0 then
         && pending' <= pending && tinode' == tinode
         && (!corrupt ==> ninode == 0 && forall n: Word | n < 8 * (isize - 2) :: InUse(d, pending, n))
       else
         && !corrupt && 2 <= num < 8 * (isize - 2) && 0 <= tinode' == tinode - 1 && pending' <= pending + {num}
         && (exact' ==> !InUse(d, pending, num) && LooksFree(Current(d, tab, num)))
  }

  lemma {:induction false} AllottedMeans(
      d: Disk, tab: seq<Cinode>, pending: set<Word>, exact: bool, ninode: int, tinode: int,
      d': Disk, isize: Word, num: Word, pending': set<Word>, exact': bool, tinode': int, corrupt: bool)
    requires Allotted(d, tab, pending, exact, ninode, tinode, d', isize, num, pending', exact', tinode', corrupt)
    ensures (exact' ==> exact) && (exact && (ninode == 0 ==> Settled(tab, pending)) ==> exact' && !corrupt)
    ensures num != 0 ==> !corrupt && 2 <= num < 8 * (isize - 2) && 0 <= tinode' == tinode - 1
    ensures num != 0 ==> pending' <= pending + {num} && (exact' ==> num !in pending)
  {
    hide Settled, SyncLeaves, Current, FreeSet, DiskNode;
  }

  lemma {:induction false} HandedWith(d: Disk, pending: set<Word>, num: Word)
    ensures num in HandedOut(d, pending, num) ==> HandedOut(d, pending, num) == pending + {num}
  {
    hide DiskNode;
  }

  lemma {:induction false} HandedAndWritten(d: Disk, pending: set<Word>, num: Word)
    ensures HandedOut(d, pending, num) - {num} == pending - {num}
  {
    hide DiskNode;
  }

  /** A slot that i_open has given a new inode. */
  predicate NewSlot(c: Cinode) {
    c.num != 0 && c.refs == 1 && !c.dirty && LooksFree(c.node) && IsEmpty(c.node)
  }

  lemma {:induction false} NewInTable(d: Disk, m: Layout, tab: seq<Cinode>, lo: Word, hi: Word, pending: set<Word>,
      ip: int)
    requires GoodLayout(d, m, tab, lo, hi) && 0 <= ip < |tab| && NewSlot(tab[ip]) && tab[ip].num in pending
    ensures |tab| == ITABSIZE && 2 <= lo && tab[ip].num < 8 * (lo - 2) && InUse(d, pending, tab[ip].num)
    ensures GoodDinode(tab[ip].node)
  {
    hide Partition, DiskNode;
    assert SlotOk(tab[ip], m.ino, d);
  }

  lemma {:induction false} SameAt(d: Disk, tab: seq<Cinode>, d': Disk, tab': seq<Cinode>, n: Word)
    requires SameInodes(d, tab, d', tab') && n != 0
    ensures Current(d', tab', n) == Current(d, tab, n)
  {
    hide Current;
  }

  /** A new inode becomes a file; it has no blocks, so clearing its addresses loses none. */
  lemma {:induction false} StartFile(
      d: Disk, m: Layout, tab: seq<Cinode>, lo: Word, hi: Word, pending: set<Word>, ip: int, c: Cinode)
    requires GoodLayout(d, m, tab, lo, hi) && OthersUse(d, tab, pending, ip) && 0 <= ip < |tab| && tab[ip].num != 0
             && tab[ip].refs > 0 && InUse(d, pending, tab[ip].num)
    requires IsEmpty(tab[ip].node) && c.num == tab[ip].num && c.refs == tab[ip].refs && c.dirty && GoodDinode(c.node)
    requires c.node.addr == NO_BLOCKS && !Untyped(c.node)
    ensures GoodLayout(d, m, tab[ip := c], lo, hi) && TableUses(d, tab[ip := c], pending)
  {
    hide Partition, DiskNode;
    assert SlotOk(tab[ip], m.ino, d);
    CoherentUpdate(tab, m.ino, d, ip, c);
    assert m.ino[c.num := NO_BLOCKS] == m.ino;
  }

  /** No reference to inode n is in the table. */
  ghost predicate Unreferenced(tab: seq<Cinode>, n: Word) {
    forall s | 0 <= s < |tab| && tab[s].refs > 0 :: tab[s].num != n
  }

  lemma {:induction false} StillUnreferenced(tab: seq<Cinode>, tab': seq<Cinode>, n: Word)
    requires |tab'| == |tab| && forall s | 0 <= s < |tab| && tab[s].refs > 0 :: tab'[s] == tab[s]
    requires forall s | 0 <= s < |tab| && tab[s].refs == 0 :: tab'[s].refs == 0
    requires forall s | 0 <= s < |tab| :: tab[s].refs >= 0
    ensures Unreferenced(tab, n) ==> Unreferenced(tab', n)
  {
  }

  lemma {:induction false} NotCurrent(d: Disk, tab: seq<Cinode>, n: Word)
    requires !Loaded(tab, n)
    ensures Current(d, tab, n) == DiskNode(d, n)
  {
  }

  lemma {:induction false} IsLoaded(tab: seq<Cinode>, s: int)
    requires 0 <= s < |tab|
    ensures Loaded(tab, tab[s].num)
  {
  }

  lemma {:induction false} SlotCurrent(d: Disk, m: Layout, tab: seq<Cinode>, lo: Word, hi: Word, s: int)
    requires GoodLayout(d, m, tab, lo, hi) && 0 <= s < ITABSIZE
    ensures |tab| == ITABSIZE && tab[s].refs >= 0
    ensures tab[s].num != 0 ==> Current(d, tab, tab[s].num) == tab[s].node
  {
    assert SlotOk(tab[s], m.ino, d);
    if tab[s].num != 0 {
      CurrentIsSlot(d, m.ino, tab, s);
    }
  }

  /** I_open takes the inode in a slot for a free one if and only if it is free: on disk, and in no
      slot with references. */
  lemma {:induction false} NewNode(
      d: Disk, m: Layout, tab: seq<Cinode>, lo: Word, hi: Word, ninode: int, sinode: seq<Word>, tinode: int,
      pending: set<Word>, exact: bool, s: int)
    requires GoodLayout(d, m, tab, lo, hi) && GoodNumbers(d, lo, ninode, sinode, tinode, pending, exact)
    requires TableUses(d, tab, pending) && 0 <= s < |tab| && tab[s].num != 0
    ensures tab[s].refs == 0 ==> !tab[s].dirty && tab[s].node == DiskNode(d, tab[s].num)
    ensures Untyped(tab[s].node) <==> LooksFree(tab[s].node)
    ensures LooksFree(tab[s].node) ==>
              && IsEmpty(tab[s].node) && tab[s].refs == 0 && !tab[s].dirty
              && tab[s].node == DiskNode(d, tab[s].num) && LooksFree(DiskNode(d, tab[s].num))
  {
    hide Partition, DiskNode, IsEmpty;
    assert SlotOk(tab[s], m.ino, d);
    FreeUntyped(tab[s].node);
    if Untyped(tab[s].node) {
      assert tab[s].refs == 0 && tab[s].node == DiskNode(d, tab[s].num);
      assert tab[s].num in FreeSet(d, lo);
    }
  }

  /** Counting one more reference to an inode that is linked, or a first one to a free one. */
  lemma {:induction false} CountUp(d: Disk, m: Layout, tab: seq<Cinode>, lo: Word, hi: Word, pending: set<Word>, s: int)
    requires GoodLayout(d, m, tab, lo, hi) && TableUses(d, tab, pending) && 0 <= s < |tab| && tab[s].num != 0
    requires tab[s].refs == 0 ==> !tab[s].dirty && tab[s].node == DiskNode(d, tab[s].num)
    ensures var tab' := tab[s := tab[s].(refs := tab[s].refs + 1)];
            && GoodLayout(d, m, tab', lo, hi) && SameInodes(d, tab, d, tab') && OthersUse(d, tab', pending, s)
            && (Linked(tab[s].node) ==> TableUses(d, tab', pending))
  {
    hide DiskNode, Partition, IsEmpty;
    assert SlotOk(tab[s], m.ino, d);
    CountRefs(d, m, tab, lo, hi, s, tab[s].refs + 1);
  }

  /** What is not in use is free on disk and in no slot with references. */
  lemma {:induction false} NumbersInTable(d: Disk, m: Layout, tab: seq<Cinode>, lo: Word, hi: Word, pending: set<Word>)
    requires GoodLayout(d, m, tab, lo, hi) && TableUses(d, tab, pending)
    ensures forall n: Word | n != 0 && !InUse(d, pending, n) :: LooksFree(Current(d, tab, n))
  {
    hide DiskNode, Partition, Untyped, LooksFree;
    forall n: Word | n != 0 && !InUse(d, pending, n)
      ensures LooksFree(Current(d, tab, n))
    {
      if s :| 0 <= s < |tab| && tab[s].num == n {
        assert SlotOk(tab[s], m.ino, d);
        CurrentIsSlot(d, m.ino, tab, s);
      } else {
        NotCurrent(d, tab, n);
      }
    }
  }

  /** An inode that looks free to everybody is free on disk, and nobody refers to it. */
  lemma {:induction false} FreeIsUnreferenced(d: Disk, m: Layout, tab: seq<Cinode>, lo: Word, hi: Word,
      pending: set<Word>, n: Word)
    requires GoodLayout(d, m, tab, lo, hi) && TableUses(d, tab, pending) && n != 0
    ensures LooksFree(Current(d, tab, n)) ==> LooksFree(DiskNode(d, n)) && Unreferenced(tab, n)
    ensures forall s | 0 <= s < |tab| :: tab[s].refs >= 0
  {
    hide DiskNode, Partition, Untyped, LooksFree;
    assert forall s | 0 <= s < |tab| :: SlotOk(tab[s], m.ino, d);
    if s :| 0 <= s < |tab| && tab[s].num == n {
      FreeUntyped(tab[s].node);
      CurrentIsSlot(d, m.ino, tab, s);
      assert tab[s].refs == 0 ==> forall t | 0 <= t < |tab| && tab[t].refs > 0 :: t != s && tab[t].num != tab[s].num;
    } else {
      NotCurrent(d, tab, n);
    }
  }

  /** An inode that some directory names. */
  predicate Linked(n: Dinode) {
    n.nlink != 0 && Getmode(n.mode) != 0
  }

  /** Slot s does not hold ino; if it is unreferenced there is a slot to use. */
  predicate Passed(tab: seq<Cinode>, s: int, ino: Word, nindex: int)
    requires 0 <= s < |tab|
  {
    tab[s].num != ino && (tab[s].refs == 0 ==> nindex != -1)
  }

  lemma {:induction false} NotInTable(tab: seq<Cinode>, ino: Word, nindex: int)
    requires forall s | 0 <= s < |tab| :: Passed(tab, s, ino, nindex)
    ensures !Loaded(tab, ino)
    ensures nindex == -1 ==> forall s | 0 <= s < |tab| :: tab[s].refs != 0
  {
    assert forall s | 0 <= s < |tab| :: tab[s].num == ino ==> !Passed(tab, s, ino, nindex);
    assert forall s | 0 <= s < |tab| :: tab[s].refs == 0 && nindex == -1 ==> !Passed(tab, s, ino, nindex);
  }

  /** How far slot s is behind slot start, going around the table. */
  function StepsTo(start: int, s: int): int {
    if s > start then s - start else s - start + ITABSIZE
  }

  lemma {:induction false} LayoutBounds(d: Disk, m: Layout, tab: seq<Cinode>, lo: Word, hi: Word, s: int)
    requires GoodLayout(d, m, tab, lo, hi) && 0 <= s < ITABSIZE
    ensures |m.ino| == 8 * (lo - 2) && |tab| == ITABSIZE && (tab[s].refs == 0 ==> !tab[s].dirty)
  {
    assert SlotOk(tab[s], m.ino, d);
  }

  lemma {:induction false} UsesAfterLoad(d: Disk, tab: seq<Cinode>, pending: set<Word>, s: int, c: Cinode)
    requires TableUses(d, tab, pending) && 0 <= s < |tab| && c.refs == 0
    ensures TableUses(d, tab[s := c], pending)
  {
    hide InUse;
  }

  lemma {:induction false} NoneBelow(d: Disk)
    ensures FreeBelow(d, 0) == []
  {
  }

  lemma {:induction false} CachedWords(others: Block, image: Block)
    requires forall i | 54 <= i < 106 :: WordAt(image, i) == WordAt(others, i)
    ensures WordAt(image, 54) == WordAt(others, 54) && WordsOf(image, 55, 105) == WordsOf(others, 55, 105)
  {
    hide WordAt;
  }

  /** The words of the superblock structure that concern inodes. */
  function TableWords(ninode: Word, sinode: seq<Word>, garbage: Block): (b: Block)
    requires |sinode| == NINODES
    ensures WordAt(b, 0) == SMOUNTED && WordAt(b, 54) == ninode && WordsOf(b, 55, 105) == sinode
  {
    var b := BlockOfWords(seq<Word>(256, i requires 0 <= i < 256 =>
                                     if i == 0 then SMOUNTED else if i == 54 then ninode
                                     else if 55 <= i < 105 then sinode[i - 55] else WordAt(garbage, i)));
    assert WordsOf(b, 55, 105) == sinode;
    b
  }

  /** The superblock is apart from inodes and data. */
  lemma {:induction false} SuperblockApart(
      d: Disk, d': Disk, m: Layout, tab: seq<Cinode>, lo: Word, hi: Word, image: Block, ninode: int, sinode: seq<Word>,
      tinode: int, pending: set<Word>, exact: bool)
    requires GoodLayout(d, m, tab, lo, hi) && d' == Write(d, 1, image)
    requires GoodNumbers(d, lo, ninode, sinode, tinode, pending, exact) && TableUses(d, tab, pending)
    ensures GoodLayout(d', m, tab, lo, hi)
    ensures GoodNumbers(d', lo, ninode, sinode, tinode, pending, exact) && TableUses(d', tab, pending)
    ensures forall n: Word :: InUse(d', pending, n) <==> InUse(d, pending, n)
    ensures SameInodes(d, tab, d', tab)
  {
    hide Partition;
    OtherWriteKeepsPartition(d, m.ino, m.owner, m.stack, lo, hi, 1, image);
    assert forall n: Word :: DiskNode(d', n) == DiskNode(d, n);
    hide DiskNode;
    SameNumbers(d, d', lo, ninode, sinode, tinode, pending, exact);
    SameTable(d, d', m.ino, tab);
  }

  lemma {:induction false} SameTable(d: Disk, d': Disk, ino: seq<Addr>, tab: seq<Cinode>)
    requires Coherent(tab, ino, d) && forall n: Word :: DiskNode(d', n) == DiskNode(d, n)
    ensures Coherent(tab, ino, d') && SameInodes(d, tab, d', tab)
  {
    hide DiskNode;
    forall t | 0 <= t < ITABSIZE
      ensures SlotOk(tab[t], ino, d')
    {
      assert SlotOk(tab[t], ino, d);
    }
    forall n: Word | n != 0
      ensures Current(d', tab, n) == Current(d, tab, n)
    {
      if s :| 0 <= s < ITABSIZE && tab[s].num == n {
        CurrentIsSlot(d, ino, tab, s);
        CurrentIsSlot(d', ino, tab, s);
      }
    }
  }

  lemma {:induction false} SlotLoaded(d: Disk, m: Layout, tab: seq<Cinode>, lo: Word, hi: Word, ip: int)
    requires GoodLayout(d, m, tab, lo, hi) && 0 <= ip < |tab| && tab[ip].refs > 0
    ensures tab[ip].num != 0
  {
    assert SlotOk(tab[ip], m.ino, d);
  }

  lemma {:induction false} OneAndOthers(d: Disk, tab: seq<Cinode>, pending: set<Word>, ip: int)
    requires OthersUse(d, tab, pending, ip) && 0 <= ip < |tab|
    requires InUse(d, pending, tab[ip].num) && !Untyped(tab[ip].node)
    ensures TableUses(d, tab, pending)
  {
    hide InUse;
  }

  // ----- The states these operations start from, and what a sync saves -----

  /** On a fresh image mkfs' count of free inodes is right: it keeps two of them. */
  lemma {:induction false} FreshNumbers(d: Disk, isize: Word, fsize: Word, sinode: seq<Word>)
    requires FreshImage(d, isize, fsize) && 3 <= isize <= 8193 && |sinode| == NINODES
    ensures GoodNumbers(d, isize, 0, sinode, WordAt(d(1), 109), {}, true)
  {
    NumbersIs(2, 8 * (isize - 2));
    FreshFree(d, isize, fsize);
    FreshCount(d, isize, fsize);
    hide FreshImage, WordAt, DiskNode, IsEmpty, LooksFree, Numbers, Untyped;
  }

  lemma {:induction false} FreshCount(d: Disk, isize: Word, fsize: Word)
    requires FreshImage(d, isize, fsize) && 3 <= isize <= 8193
    ensures WordAt(d(1), 54) == 0 && WordAt(d(1), 109) == 8 * (isize - 2) - 2
  {
    hide Mountable, WordAt, Descending;
  }

  lemma {:induction false} FreshFree(d: Disk, isize: Word, fsize: Word)
    requires FreshImage(d, isize, fsize) && 3 <= isize <= 8193
    ensures FreeSet(d, isize) == Numbers(2, 8 * (isize - 2))
    ensures forall n | n in FreeSet(d, isize) :: IsEmpty(DiskNode(d, n))
    ensures !LooksFree(DiskNode(d, 0)) && !LooksFree(DiskNode(d, ROOTINODE))
    ensures forall n: Word | n < 8 * (isize - 2) && Untyped(DiskNode(d, n)) :: LooksFree(DiskNode(d, n))
  {
    hide FreshImage, DiskNode, IsEmpty, LooksFree, Numbers, Untyped;
    NumbersIs(2, 8 * (isize - 2));
    forall k: Word | k < 8 * (isize - 2)
      ensures LooksFree(DiskNode(d, k)) <==> k >= 2
      ensures k >= 2 ==> IsEmpty(DiskNode(d, k))
      ensures k < 2 ==> !Untyped(DiskNode(d, k))
    {
      FreshNode(d, isize, fsize, k);
    }
  }

  /** The numbers from lo up to hi. */
  ghost function Numbers(lo: int, hi: int): set<Word>
    requires 0 <= lo <= hi <= 0x1_0000
    decreases hi - lo
  {
    if lo == hi then {} else Numbers(lo, hi - 1) + {hi - 1}
  }

  lemma {:induction false} NumbersIs(lo: int, hi: int)
    requires 0 <= lo <= hi <= 0x1_0000
    ensures |Numbers(lo, hi)| == hi - lo
    ensures forall k: Word :: k in Numbers(lo, hi) <==> lo <= k < hi
    decreases hi - lo
  {
    if lo < hi {
      NumbersIs(lo, hi - 1);
      RemoveOne(Numbers(lo, hi - 1), hi - 1);
    }
  }

  lemma {:induction false} FreshNode(d: Disk, isize: Word, fsize: Word, k: Word)
    requires FreshImage(d, isize, fsize) && isize >= 3 && k < 8 * (isize - 2)
    ensures LooksFree(DiskNode(d, k)) <==> k >= 2
    ensures k >= 2 ==> IsEmpty(DiskNode(d, k))
    ensures k < 2 ==> !Untyped(DiskNode(d, k))
  {
    hide Mountable, WordAt, EncodeInode, DecodeInode, Descending;
    ZeroNode(k % 8);
    if k < 8 {
      EncodeDecode(ZERO_BLOCK, 0, RESERVED_INODE, k);
      EncodeDecode(EncodeInode(ZERO_BLOCK, 0, RESERVED_INODE), 1, RootInode(isize), k);
    }
  }

  lemma {:induction false} ZeroNode(k: int)
    requires 0 <= k < 8
    ensures LooksFree(DecodeInode(ZERO_BLOCK, k)) && IsEmpty(DecodeInode(ZERO_BLOCK, k))
  {
  }

  /** Every open inode is linked, and written: what a sync leaves if no pipe and no removed
      file is open. */
  predicate AllWritten(tab: seq<Cinode>) {
    forall s | 0 <= s < |tab| && tab[s].num != 0 :: !tab[s].dirty && (tab[s].refs == 0 || tab[s].node.nlink != 0)
  }

  /** Then every inode is on disk as the system sees it. */
  lemma {:induction false} WrittenNodes(d: Disk, m: Layout, tab: seq<Cinode>, lo: Word, hi: Word, n: Word)
    requires GoodLayout(d, m, tab, lo, hi) && AllWritten(tab) && n < |m.ino|
    ensures m.ino[n] == DiskNode(d, n).addr && (n != 0 ==> Current(d, tab, n) == DiskNode(d, n))
  {
    hide Partition, DiskNode;
    if s :| 0 <= s < ITABSIZE && tab[s].num == n && n != 0 {
      assert SlotOk(tab[s], m.ino, d);
      CurrentIsSlot(d, m.ino, tab, s);
    }
  }

  /** The count of free inodes fits in a word. */
  lemma {:induction false} CountIsWord(
      d: Disk, isize: Word, ninode: int, sinode: seq<Word>, tinode: int, pending: set<Word>, exact: bool)
    requires GoodNumbers(d, isize, ninode, sinode, tinode, pending, exact)
    ensures 0 <= tinode < 0x1_0000
  {
    hide DiskNode, IsEmpty, NoDup, LooksFree;
    NumbersIs(2, 8 * (isize - 2));
    SubsetSize(FreeSet(d, isize), Numbers(2, 8 * (isize - 2)));
    SubsetSize(pending, FreeSet(d, isize));
  }
}
