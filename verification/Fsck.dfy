/** The filesystem checker (uzi-nes-utils/fs/fsck.c), a second implementation of the disk
    format: its block lookup, the block bitmap of pass 1 and the free list of pass 2. Every
    repair question of pass 1 is answered "no", the rebuild question of pass 2 "yes". */
module Fsck {
  import opened Types
  import opened FreeList
  import opened FreeOrder
  import opened BlockMap
  import opened Volume
  import opened Inode
  import opened FileSystem
  import opened Mkfs

  /** The disk block of logical block num, or 0. */
  function Getblkno(d: Disk, addr: Addr, num: Word): Word {
    if num < 18 then addr[num]
    else if num < 256 + 18 then
      (if addr[18] == 0 then 0 else WordAt(d(addr[18]), num - 18))
    else if addr[19] == 0 then 0
    else WordAt(d(WordAt(d(addr[19]), (num - 274) / 256)), (num - 274) % 256)
  }

  /** It agrees with the kernel's block map except where a middle block is missing: there it
      takes its answer from the boot block. */
  lemma {:induction false} GetblknoAgrees(d: Disk, addr: Addr, num: Word)
    ensures Getblkno(d, addr, num) == Lookup(d, addr, num) <==>
            || num < 274 || addr[19] == 0
            || WordAt(d(addr[19]), (num - 274) / 256) != 0
            || WordAt(d(0), (num - 274) % 256) == 0
  {
    hide WordAt;
  }

  /** On a disk whose double-indirect block 5 is empty and whose boot block starts with 7, fsck looks
      logical block 274 up as block 7. */
  lemma {:induction false} BootBlockIsTaken(d: Disk)
    requires d(5) == ZERO_BLOCK && d(0) == PutWord(ZERO_BLOCK, 0, 7)
    ensures Lookup(d, NO_BLOCKS[19 := 5], 274) == 0 && Getblkno(d, NO_BLOCKS[19 := 5], 274) == 7
  {
    assert WordAt(d(5), 0) == 0 && WordAt(d(0), 0) == 7;
  }

  /** With a boot block of zeroes they agree on all 65536 block numbers. */
  lemma {:induction false} GetblknoAgreesEverywhere(d: Disk, addr: Addr)
    requires d(0) == ZERO_BLOCK
    ensures forall num: Word :: Getblkno(d, addr, num) == Lookup(d, addr, num)
  {
    forall num: Word
      ensures Getblkno(d, addr, num) == Lookup(d, addr, num)
    {
      GetblknoAgrees(d, addr, num);
    }
  }

  function NodeAt(d: Disk, isize: Word, n: int): Dinode
    requires 2 <= isize && 0 <= n < 8 * (isize - 2)
  {
    DecodeInode(d(n / 8 + 2), n % 8)
  }

  /** The positions that pass 1 looks at: of every file and directory but inode 0, the
      indirect blocks, and the blocks up to the one the file size is in. */
  predicate Visited(d: Disk, isize: Word, p: Pos)
    requires 2 <= isize && 0 <= p.n < 8 * (isize - 2)
  {
    p.n >= ROOTINODE && IsFile(NodeAt(d, isize, p.n)) && (Interior(p) || UpTo(p, NodeAt(d, isize, p.n).sizeBlk + 1))
  }

  /** The marked blocks are those that are owned by a position of seen. */
  ghost predicate Marked(bitmap: seq<bool>, owner: map<Word, Pos>, seen: iset<Pos>) {
    forall b: Word | b < |bitmap| :: bitmap[b] <==> b in owner && owner[b] in seen
  }

  /** Looking at the block at one more position. */
  lemma {:induction false} MarkOne(
      d: Disk, ino: seq<Addr>, owner: map<Word, Pos>, stack: seq<Word>, lo: int, hi: int, bitmap: seq<bool>,
      seen: iset<Pos>, p: Pos, b: Word)
    requires Partition(d, ino, owner, stack, lo, hi) && 0 < lo && |bitmap| == hi && Marked(bitmap, owner, seen)
    requires ValidPos(ino, p) && PtrAt(d, ino, p) == b
    ensures b != 0 ==> b < |bitmap| && Marked(bitmap[b := true], owner, seen + iset{p})
    ensures b == 0 ==> Marked(bitmap, owner, seen + iset{p})
  {
    hide PtrAt, ValidPos;
  }

  /** Positions that own nothing do not matter. */
  lemma {:induction false} MarkedSame(
      d: Disk, ino: seq<Addr>, owner: map<Word, Pos>, stack: seq<Word>, lo: int, hi: int, bitmap: seq<bool>,
      seen: iset<Pos>, seen': iset<Pos>)
    requires Partition(d, ino, owner, stack, lo, hi) && 0 < lo && Marked(bitmap, owner, seen)
    requires forall p: Pos | ValidPos(ino, p) && PtrAt(d, ino, p) != 0 :: p in seen <==> p in seen'
    ensures Marked(bitmap, owner, seen')
  {
    hide PtrAt, ValidPos;
  }

  /** The inodes from 1 to n - 1 with a zero mode. */
  ghost function ZeroModes(d: Disk, isize: Word, n: int): (r: set<int>)
    requires 2 <= isize && 1 <= n <= 8 * (isize - 2)
    ensures r == set k | 1 <= k < n && NodeAt(d, isize, k).mode == 0
  {
    set k | 1 <= k < n && NodeAt(d, isize, k).mode == 0
  }

  lemma {:induction false} OneMoreMode(d: Disk, isize: Word, n: int)
    requires 2 <= isize && 1 <= n < 8 * (isize - 2)
    ensures ZeroModes(d, isize, 1) == {}
    ensures |ZeroModes(d, isize, n + 1)| == |ZeroModes(d, isize, n)| + if NodeAt(d, isize, n).mode == 0 then 1 else 0
  {
    hide NodeAt;
    var s, s' := ZeroModes(d, isize, n), ZeroModes(d, isize, n + 1);
    assert s' == if NodeAt(d, isize, n).mode == 0 then s + {n} else s;
  }

  /** What one round of pass 1 has seen of inode n, in the order of its three loops. */
  ghost function SeenSlots(n: int, k: int): iset<Pos> {
    iset p: Pos | p.n == n && p.path.Root? && 18 <= p.k < k
  }

  ghost function SeenMids(n: int, i: int): iset<Pos> {
    iset p: Pos | p.n == n && p.k == 19 && p.path.Mid? && p.path.i < i
  }

  ghost function SeenBlocks(n: int, blocks: int): iset<Pos> {
    iset p: Pos | p.n == n && UpTo(p, blocks)
  }

  ghost function SeenInodes(d: Disk, isize: Word, n: int): iset<Pos>
    requires 2 <= isize
  {
    iset p: Pos | 0 <= p.n < n && p.n < 8 * (isize - 2) && Visited(d, isize, p)
  }

  lemma {:induction false} NextSlotSeen(
      d: Disk, ino: seq<Addr>, owner: map<Word, Pos>, stack: seq<Word>, lo: int, hi: int, bitmap: seq<bool>,
      seen: iset<Pos>, n: int, k: int)
    requires Partition(d, ino, owner, stack, lo, hi) && 0 < lo
    requires 18 <= k < 20 && Marked(bitmap, owner, seen + SeenSlots(n, k) + iset{Pos(n, k, Root)})
    ensures Marked(bitmap, owner, seen + SeenSlots(n, k + 1))
  {
    MarkedSame(d, ino, owner, stack, lo, hi, bitmap, seen + SeenSlots(n, k) + iset{Pos(n, k, Root)},
               seen + SeenSlots(n, k + 1));
  }

  lemma {:induction false} NextMidSeen(
      d: Disk, ino: seq<Addr>, owner: map<Word, Pos>, stack: seq<Word>, lo: int, hi: int, bitmap: seq<bool>,
      seen: iset<Pos>, n: int, i: int)
    requires Partition(d, ino, owner, stack, lo, hi) && 0 < lo
    requires 0 <= i < 256 && Marked(bitmap, owner, seen + SeenMids(n, i) + iset{Pos(n, 19, Mid(i))})
    ensures Marked(bitmap, owner, seen + SeenMids(n, i + 1))
  {
    MarkedSame(d, ino, owner, stack, lo, hi, bitmap, seen + SeenMids(n, i) + iset{Pos(n, 19, Mid(i))},
               seen + SeenMids(n, i + 1));
  }

  lemma {:induction false} NextBlockSeen(
      d: Disk, ino: seq<Addr>, owner: map<Word, Pos>, stack: seq<Word>, lo: int, hi: int, bitmap: seq<bool>,
      seen: iset<Pos>, n: int, bn: Word)
    requires Partition(d, ino, owner, stack, lo, hi) && 0 < lo
    requires Marked(bitmap, owner, seen + SeenBlocks(n, bn) + iset{PosOf(n, bn)})
    ensures Marked(bitmap, owner, seen + SeenBlocks(n, bn + 1))
  {
    hide SlotOf, PathOf;
    forall p: Pos
      ensures p in seen + SeenBlocks(n, bn) + iset{PosOf(n, bn)} <==> p in seen + SeenBlocks(n, bn + 1)
    {
      if p.n == n && UpTo(p, bn + 1) {
        var b: Word :| b < bn + 1 && p == PosOf(p.n, b);
        assert b < bn || b == bn;
      }
    }
    MarkedSame(d, ino, owner, stack, lo, hi, bitmap, seen + SeenBlocks(n, bn) + iset{PosOf(n, bn)},
               seen + SeenBlocks(n, bn + 1));
  }

  /** Nothing is seen before a loop starts. */
  lemma {:induction false} NothingSeen(
      d: Disk, ino: seq<Addr>, owner: map<Word, Pos>, stack: seq<Word>, lo: int, hi: int, bitmap: seq<bool>,
        seen: iset<Pos>, n: int)
    requires Partition(d, ino, owner, stack, lo, hi) && 0 < lo && Marked(bitmap, owner, seen)
    ensures Marked(bitmap, owner, seen + SeenSlots(n, 18)) && Marked(bitmap, owner, seen + SeenBlocks(n, 0))
    ensures Marked(bitmap, owner, seen + SeenMids(n, 0))
  {
    hide Partition;
    MarkedSame(d, ino, owner, stack, lo, hi, bitmap, seen, seen + SeenSlots(n, 18));
    MarkedSame(d, ino, owner, stack, lo, hi, bitmap, seen, seen + SeenBlocks(n, 0));
    NoMids(d, ino, owner, stack, lo, hi, bitmap, seen, n);
  }

  lemma {:induction false} NoMids(
      d: Disk, ino: seq<Addr>, owner: map<Word, Pos>, stack: seq<Word>, lo: int, hi: int, bitmap: seq<bool>,
        seen: iset<Pos>, n: int)
    requires Partition(d, ino, owner, stack, lo, hi) && 0 < lo && Marked(bitmap, owner, seen)
    ensures Marked(bitmap, owner, seen + SeenMids(n, 0))
  {
    forall p: Pos | ValidPos(ino, p)
      ensures p in seen <==> p in seen + SeenMids(n, 0)
    {
      hide Partition, Marked;
    }
    MarkedSame(d, ino, owner, stack, lo, hi, bitmap, seen, seen + SeenMids(n, 0));
  }

  /** An inode without a double-indirect block has no middle blocks. */
  lemma {:induction false} MidsAbsent(
      d: Disk, ino: seq<Addr>, owner: map<Word, Pos>, stack: seq<Word>, lo: int, hi: int, bitmap: seq<bool>,
        seen: iset<Pos>, n: int)
    requires Partition(d, ino, owner, stack, lo, hi) && 0 < lo && Marked(bitmap, owner, seen)
    requires 0 <= n < |ino| && ino[n][19] == 0
    ensures Marked(bitmap, owner, seen + SeenMids(n, 256))
  {
    MarkedSame(d, ino, owner, stack, lo, hi, bitmap, seen, seen + SeenMids(n, 256));
  }

  /** The three loops together see what Visited says of the inode. */
  lemma {:induction false} InodeSeen(
      d: Disk, isize: Word, owner: map<Word, Pos>, stack: seq<Word>, hi: int, bitmap: seq<bool>, n: int)
    requires 2 <= isize && Partition(d, DiskInodes(d, isize), owner, stack, isize, hi)
    requires ROOTINODE <= n < 8 * (isize - 2) && IsFile(NodeAt(d, isize, n))
    requires Marked(bitmap, owner, SeenInodes(d, isize, n) + SeenSlots(n, 20) + SeenMids(n, 256)
                                   + SeenBlocks(n, NodeAt(d, isize, n).sizeBlk + 1))
    ensures Marked(bitmap, owner, SeenInodes(d, isize, n + 1))
  {
    hide NodeAt, UpTo, PtrAt, Partition, IsFile;
    MarkedSame(d, DiskInodes(d, isize), owner, stack, isize, hi, bitmap,
               SeenInodes(d, isize, n) + SeenSlots(n, 20) + SeenMids(n, 256)
                 + SeenBlocks(n, NodeAt(d, isize, n).sizeBlk + 1),
               SeenInodes(d, isize, n + 1));
  }

  lemma {:induction false} InodeSkipped(
      d: Disk, isize: Word, owner: map<Word, Pos>, stack: seq<Word>, hi: int, bitmap: seq<bool>, n: int)
    requires 2 <= isize && Partition(d, DiskInodes(d, isize), owner, stack, isize, hi)
    requires 0 <= n < 8 * (isize - 2) && (n == 0 || !IsFile(NodeAt(d, isize, n)))
    requires Marked(bitmap, owner, SeenInodes(d, isize, n))
    ensures Marked(bitmap, owner, SeenInodes(d, isize, n + 1))
  {
    hide NodeAt, UpTo, PtrAt, Partition, IsFile;
    MarkedSame(d, DiskInodes(d, isize), owner, stack, isize, hi, bitmap, SeenInodes(d, isize, n),
               SeenInodes(d, isize, n + 1));
  }

  lemma {:induction false} NoneSeen(
      d: Disk, isize: Word, owner: map<Word, Pos>, stack: seq<Word>, hi: int, bitmap: seq<bool>)
    requires 2 <= isize && Partition(d, DiskInodes(d, isize), owner, stack, isize, hi)
    requires forall b | 0 <= b < |bitmap| :: !bitmap[b]
    ensures Marked(bitmap, owner, SeenInodes(d, isize, ROOTINODE))
  {
    hide PtrAt, NodeAt, UpTo;
    assert Marked(bitmap, owner, iset{});
    MarkedSame(d, DiskInodes(d, isize), owner, stack, isize, hi, bitmap, iset{}, SeenInodes(d, isize, ROOTINODE));
  }

  lemma {:induction false} AllSeen(
      d: Disk, isize: Word, owner: map<Word, Pos>, stack: seq<Word>, hi: int, bitmap: seq<bool>)
    requires 2 <= isize && Partition(d, DiskInodes(d, isize), owner, stack, isize, hi)
    requires Marked(bitmap, owner, SeenInodes(d, isize, 8 * (isize - 2)))
    ensures forall b: Word | b < |bitmap| ::
              bitmap[b] <==> b in owner && 0 <= owner[b].n < 8 * (isize - 2) && Visited(d, isize, owner[b])
  {
    hide PtrAt, NodeAt, UpTo;
  }

  // ----- Pass 2 -----

  /** The unmarked blocks from lo on, in the order pass 2 frees them. */
  function Unmarked(bitmap: seq<bool>, lo: int): seq<Word>
    requires 0 <= lo <= |bitmap| <= 0x1_0000
    decreases |bitmap| - lo
  {
    if lo == |bitmap| then [] else Unmarked(bitmap, lo + 1) + if bitmap[lo] then [] else [lo]
  }

  lemma {:induction false} UnmarkedStep(bitmap: seq<bool>, lo: int)
    requires 0 <= lo <= |bitmap| <= 0x1_0000
    ensures lo == |bitmap| ==> Unmarked(bitmap, lo) == []
    ensures lo < |bitmap| ==> Unmarked(bitmap, lo) == Unmarked(bitmap, lo + 1) + if bitmap[lo] then [] else [lo]
  {
  }

  /** They descend, and none is missing. */
  lemma {:induction false} UnmarkedBlocks(bitmap: seq<bool>, lo: int)
    requires 0 <= lo <= |bitmap| <= 0x1_0000
    ensures var s := Unmarked(bitmap, lo);
            && (forall i, j | 0 <= i < j < |s| :: s[i] > s[j])
            && (forall b: Word :: b in s <==> lo <= b < |bitmap| && !bitmap[b])
    decreases |bitmap| - lo
  {
    if lo < |bitmap| {
      UnmarkedBlocks(bitmap, lo + 1);
      var rest, s := Unmarked(bitmap, lo + 1), Unmarked(bitmap, lo);
      UnmarkedStep(bitmap, lo);
      hide Unmarked;
      assert forall i | 0 <= i < |rest| :: rest[i] in rest && s[i] == rest[i];
      if !bitmap[lo] {
        assert s[|rest|] == lo;
      }
    }
  }

  /** With every block of a fresh image but the root directory's unmarked, they are the free
      stack that mkfs builds. */
  lemma {:induction false} FreshUnmarked(bitmap: seq<bool>, isize: int, lo: int)
    requires 0 <= isize < lo <= |bitmap| <= 0x1_0000
    requires forall b | 0 <= b < |bitmap| :: bitmap[b] <==> b == isize
    ensures Unmarked(bitmap, lo) == Descending(|bitmap|, lo)
    decreases |bitmap| - lo
  {
    if lo < |bitmap| {
      FreshUnmarked(bitmap, isize, lo + 1);
    }
  }

  /** Pass 2 writes to free blocks and the superblock: the inodes and their trees stay, and
      every block is again in one place. */
  lemma {:induction false} RebuildKeepsPartition(
      d: Disk, d': Disk, isize: Word, owner: map<Word, Pos>, stack: seq<Word>, stack': seq<Word>, hi: int)
    requires 2 <= isize && Partition(d, DiskInodes(d, isize), owner, stack, isize, hi)
    requires SameOff(d, d', stack' + [1]) && NoDup(stack')
    requires forall b: Word :: b in stack' <==> isize <= b < hi && b !in owner
    ensures DiskInodes(d', isize) == DiskInodes(d, isize)
    ensures Partition(d', DiskInodes(d', isize), owner, stack', isize, hi)
    ensures forall p: Pos | ValidPos(DiskInodes(d, isize), p) ::
              PtrAt(d', DiskInodes(d, isize), p) == PtrAt(d, DiskInodes(d, isize), p)
  {
    hide NoDup;
    var ino := DiskInodes(d, isize);
    SameInodes(d, d', isize, stack');
    forall p: Pos | ValidPos(ino, p)
      ensures PtrAt(d', ino, p) == PtrAt(d, ino, p)
    {
      OwnedPointer(d, d', ino, owner, stack, stack', isize, hi, p);
    }
    hide PtrAt, SameOff;
  }

  lemma {:induction false} SameInodes(d: Disk, d': Disk, isize: Word, s: seq<Word>)
    requires 2 <= isize && SameOff(d, d', s + [1]) && forall b | b in s :: isize <= b
    ensures DiskInodes(d', isize) == DiskInodes(d, isize)
  {
    assert forall n | 0 <= n < 8 * (isize - 2) :: n / 8 + 2 < isize;
  }

  lemma {:induction false} OwnedPointer(
      d: Disk, d': Disk, ino: seq<Addr>, owner: map<Word, Pos>, stack: seq<Word>, stack': seq<Word>, lo: int, hi: int,
        p: Pos)
    requires Partition(d, ino, owner, stack, lo, hi) && 1 < lo && ValidPos(ino, p)
    requires SameOff(d, d', stack' + [1]) && forall b | b in stack' :: b !in owner
    ensures PtrAt(d', ino, p) == PtrAt(d, ino, p)
  {
    var r := Pos(p.n, p.k, Root);
    assert ValidPos(ino, r) && PtrAt(d, ino, r) == ino[p.n][p.k];
    if p.path.Leaf? {
      var m := Pos(p.n, p.k, Mid(p.path.i));
      assert ValidPos(ino, m) && PtrAt(d, ino, m) == Entry(d, ino[p.n][p.k], p.path.i);
    }
  }

  lemma {:induction false} OneMoreFreed(d: Disk, d': Disk, d2: Disk, s: seq<Word>, b: Word, image: Block)
    requires SameOff(d, d', s) && (d2 == d' || d2 == Write(d', b, image))
    ensures SameOff(d, d2, s + [b])
  {
  }

  class Check {
    var disk: Disk
    const isize: Word
    const fsize: Word
    var nfree: int
    const free: array<Word>
    var tfree: int
    var others: Block            // the rest of the superblock structure
    const bitmap: array<bool>
    const linkmap: array<int>

    ghost predicate Valid()
      reads this
    {
      && 2 <= isize < fsize && free.Length == NFREE && bitmap.Length == fsize && linkmap.Length == 8 * isize
    }

    constructor (disk: Disk)
      requires 2 <= SbIsize(disk(1)) < SbFsize(disk(1))
      ensures Valid() && this.disk == disk && isize == SbIsize(disk(1)) && fsize == SbFsize(disk(1))
      ensures others == disk(1) && fresh(free) && fresh(bitmap) && fresh(linkmap)
      ensures forall b | 0 <= b < fsize :: !bitmap[b]
    {
      var sb := disk(1);
      this.disk, others := disk, sb;
      isize, fsize, nfree, tfree := SbIsize(sb), SbFsize(sb), SbNfree(sb), SbTfree(sb);
      free := new Word[NFREE](k requires 0 <= k < NFREE => WordAt(sb, 4 + k));
      bitmap := new bool[SbFsize(sb)](_ => false);
      linkmap := new int[8 * SbIsize(sb)](_ => 0);
    }

    /** Pass 1's "if (b != 0) bitmap[b] = 1". */
    method Mark(b: Word, ghost p: Pos, ghost owner: map<Word, Pos>, ghost stack: seq<Word>, ghost seen: iset<Pos>)
      requires Valid() && Partition(disk, DiskInodes(disk, isize), owner, stack, isize, fsize)
      requires ValidPos(DiskInodes(disk, isize), p) && PtrAt(disk, DiskInodes(disk, isize), p) == b
      requires Marked(bitmap[..], owner, seen)
      modifies bitmap
      ensures Marked(bitmap[..], owner, seen + iset{p})
    {
      hide Partition, Marked, PtrAt, ValidPos;
      MarkOne(disk, DiskInodes(disk, isize), owner, stack, isize, fsize, bitmap[..], seen, p, b);
      if b != 0 {
        ghost var before := bitmap[..];
        bitmap[b] := true;
        assert bitmap[..] == before[b := true];
      }
    }

    /** Pass 1's loop over slots 18 and 19. */
    method MarkSlots(n: int, addr: Addr, ghost owner: map<Word, Pos>, ghost stack: seq<Word>, ghost seen: iset<Pos>)
      requires Valid() && Partition(disk, DiskInodes(disk, isize), owner, stack, isize, fsize)
      requires 0 <= n < 8 * (isize - 2) && addr == DiskInodes(disk, isize)[n] && Marked(bitmap[..], owner, seen)
      modifies bitmap
      ensures Marked(bitmap[..], owner, seen + SeenSlots(n, 20))
    {
      hide Partition, Marked, SeenSlots;
      ghost var ino := DiskInodes(disk, isize);
      NothingSeen(disk, ino, owner, stack, isize, fsize, bitmap[..], seen, n);
      for b := 18 to 20
        invariant Marked(bitmap[..], owner, seen + SeenSlots(n, b))
      {
        Mark(addr[b], Pos(n, b, Root), owner, stack, seen + SeenSlots(n, b));
        NextSlotSeen(disk, ino, owner, stack, isize, fsize, bitmap[..], seen, n, b);
      }
    }

    /** Pass 1's loop over the entries of the double-indirect block. */
    method MarkMids(n: int, addr: Addr, ghost owner: map<Word, Pos>, ghost stack: seq<Word>, ghost seen: iset<Pos>)
      requires Valid() && Partition(disk, DiskInodes(disk, isize), owner, stack, isize, fsize)
      requires 0 <= n < 8 * (isize - 2) && addr == DiskInodes(disk, isize)[n] && Marked(bitmap[..], owner, seen)
      modifies bitmap
      ensures Marked(bitmap[..], owner, seen + SeenMids(n, 256))
    {
      hide Partition, Marked, SeenMids, WordAt;
      ghost var ino := DiskInodes(disk, isize);
      if addr[19] == 0 {
        MidsAbsent(disk, ino, owner, stack, isize, fsize, bitmap[..], seen, n);
        return;
      }
      var buf := disk(addr[19]);
      NothingSeen(disk, ino, owner, stack, isize, fsize, bitmap[..], seen, n);
      for b := 0 to 256
        invariant Marked(bitmap[..], owner, seen + SeenMids(n, b))
      {
        Mark(WordAt(buf, b), Pos(n, 19, Mid(b)), owner, stack, seen + SeenMids(n, b));
        NextMidSeen(disk, ino, owner, stack, isize, fsize, bitmap[..], seen, n, b);
      }
    }

    /** Pass 1's loop over the logical blocks up to the end of the file. */
    method MarkBlocks(n: int, node: Dinode, ghost owner: map<Word, Pos>, ghost stack: seq<Word>, ghost seen: iset<Pos>)
      requires Valid() && Partition(disk, DiskInodes(disk, isize), owner, stack, isize, fsize)
      requires 0 <= n < 8 * (isize - 2) && node.addr == DiskInodes(disk, isize)[n] && Marked(bitmap[..], owner, seen)
      requires disk(0) == ZERO_BLOCK && node.sizeBlk < 0xFFFF
      modifies bitmap
      ensures Marked(bitmap[..], owner, seen + SeenBlocks(n, node.sizeBlk + 1))
    {
      hide Partition, Marked, SeenBlocks, WordAt, PosOf, Lookup, PtrAt, Getblkno;
      ghost var ino := DiskInodes(disk, isize);
      GetblknoAgreesEverywhere(disk, node.addr);
      NothingSeen(disk, ino, owner, stack, isize, fsize, bitmap[..], seen, n);
      var bno := 0;
      while bno <= node.sizeBlk
        invariant 0 <= bno <= node.sizeBlk + 1
        invariant Marked(bitmap[..], owner, seen + SeenBlocks(n, bno))
      {
        Walk(disk, ino, n, bno);
        Mark(Getblkno(disk, node.addr, bno), PosOf(n, bno), owner, stack, seen + SeenBlocks(n, bno));
        NextBlockSeen(disk, ino, owner, stack, isize, fsize, bitmap[..], seen, n, bno);
        bno := bno + 1;
      }
    }

    /** Builds the block bitmap: marked are exactly the owned blocks at visited positions. It asks to
        fix the superblock exactly if that miscounts the inodes with a zero mode. The loops count in
        16 bits, so they end only for these sizes. */
    method Pass1(ghost owner: map<Word, Pos>, ghost stack: seq<Word>) returns (icount: int, asks: bool)
      requires Valid() && Partition(disk, DiskInodes(disk, isize), owner, stack, isize, fsize)
      requires 3 <= isize <= 8193
      requires forall n | 1 <= n < 8 * (isize - 2)
               && IsFile(NodeAt(disk, isize, n)) :: NodeAt(disk, isize, n).sizeBlk < 0xFFFF
      requires disk(0) == ZERO_BLOCK && forall b | 0 <= b < fsize :: !bitmap[b]
      modifies bitmap, linkmap
      ensures forall b: Word | b < fsize ::
                bitmap[b] <==> b in owner && 0 <= owner[b].n < 8 * (isize - 2) && Visited(disk, isize, owner[b])
      ensures forall n | 1 <= n < 8 * (isize - 2) :: linkmap[n] == if NodeAt(disk, isize, n).mode == 0 then -1 else 0
      ensures 8 * (isize - 2) - 1 - icount == |set n | 1 <= n < 8 * (isize - 2) && NodeAt(disk, isize, n).mode == 0|
      ensures asks <==>
              WordAt(others, 109) != |set n | 1 <= n < 8 * (isize - 2) && NodeAt(disk, isize, n).mode == 0|
    {
      hide Partition, Marked, SeenInodes, SeenSlots, SeenMids, SeenBlocks, Visited, NodeAt, WordAt;
      OneMoreMode(disk, isize, 1);
      icount := 0;
      var n := ROOTINODE as int;
      NoneSeen(disk, isize, owner, stack, fsize, bitmap[..]);
      while n < 8 * (isize - 2)
        invariant 1 <= n <= 8 * (isize - 2)
        invariant Marked(bitmap[..], owner, SeenInodes(disk, isize, n))
        invariant forall k | 1 <= k < n :: linkmap[k] == if NodeAt(disk, isize, k).mode == 0 then -1 else 0
        invariant 0 <= icount <= n - 1 && n - 1 - icount == |ZeroModes(disk, isize, n)|
      {
        var ino := NodeAt(disk, isize, n);
        NodeOf(disk, isize, n);
        OneMoreMode(disk, isize, n);
        linkmap[n] := -1;
        if ino.mode != 0 {
          linkmap[n] := 0;
          icount := icount + 1;
          if IsFile(ino) {
            ghost var seen := SeenInodes(disk, isize, n);
            MarkSlots(n, ino.addr, owner, stack, seen);
            MarkMids(n, ino.addr, owner, stack, seen + SeenSlots(n, 20));
            MarkBlocks(n, ino, owner, stack, seen + SeenSlots(n, 20) + SeenMids(n, 256));
            InodeSeen(disk, isize, owner, stack, fsize, bitmap[..], n);
          } else {
            InodeSkipped(disk, isize, owner, stack, fsize, bitmap[..], n);
          }
        } else {
          InodeSkipped(disk, isize, owner, stack, fsize, bitmap[..], n);
        }
        n := n + 1;
      }
      AllSeen(disk, isize, owner, stack, fsize, bitmap[..]);
      asks := WordAt(others, 109) != ToWord(8 * (isize - 2) - 1 - icount);
    }

    /** Rebuilds the free list from the bitmap and writes the superblock. */
    method Pass2(behind: int -> Block, ghost owner: map<Word, Pos>, ghost stack: seq<Word>)
      requires Valid() && WordAt(others, 0) == SMOUNTED
      requires Partition(disk, DiskInodes(disk, isize), owner, stack, isize, fsize)
      requires forall b: Word | isize <= b < fsize :: bitmap[b] <==> b in owner
      modifies this, free
      ensures Valid() && Mountable(disk, Unmarked(bitmap[..], isize))
      ensures Partition(disk, DiskInodes(disk, isize), owner, Unmarked(bitmap[..], isize), isize, fsize)
      ensures SameOff(old(disk), disk, Unmarked(bitmap[..], isize) + [1])
      ensures SbIsize(disk(1)) == isize && SbFsize(disk(1)) == fsize
      ensures WordAt(disk(1), 54) == 0 && WordAt(disk(1), 109) == old(WordAt(others, 109))
    {
      hide GoodFreeList, SpillImage, Unmarked, WordAt, SuperBlock, Partition, NoDup;
      ghost var d, bm := disk, bitmap[..];
      others := PutWord(others, 54, 0);
      nfree := 1;
      free[0] := 0;
      tfree := 0;
      EmptyFreeList(disk, isize, fsize, free[..]);
      UnmarkedStep(bm, fsize);
      for j := fsize downto isize
        invariant GoodFreeList(disk, isize, fsize, nfree, free[..], tfree, Unmarked(bm, j))
        invariant SameOff(d, disk, Unmarked(bm, j)) && bitmap[..] == bm
        invariant WordAt(others, 0) == SMOUNTED && WordAt(others, 54) == 0
                  && WordAt(others, 109) == old(WordAt(others, 109))
      {
        FreeListBounds(disk, isize, fsize, nfree, free[..], tfree, Unmarked(bm, j + 1));
        UnmarkedStep(bm, j);
        UnmarkedBlocks(bm, j + 1);
        ConcatAssoc(Unmarked(bm, j + 1), [], []);
        if !bitmap[j] {
          ghost var d1, f, s := disk, free[..], Unmarked(bm, j + 1);
          PushBlock(d1, isize, fsize, nfree, f, tfree, s, j, SpillImage(nfree, f, behind(tfree)));
          if nfree == NFREE {
            disk := Write(disk, j, SpillImage(nfree, free[..], behind(tfree)));
            nfree := 0;
          }
          OneMoreFreed(d, d1, disk, s, j, SpillImage(NFREE, f, behind(tfree)));
          tfree := tfree + 1;
          free[nfree] := j;
          nfree := nfree + 1;
          assert free[..] == f[nfree - 1 := j];
        }
      }
      ghost var d2, s := disk, Unmarked(bm, isize);
      FreeListBounds(disk, isize, fsize, nfree, free[..], tfree, s);
      UnmarkedBlocks(bm, isize);
      var sb := SuperBlock(others, isize, fsize, nfree, free[..], tfree, WordAt(others, 109));
      SuperBlockFields(others, isize, fsize, nfree, free[..], tfree, WordAt(others, 109));
      disk := Write(disk, 1, sb);
      OneMoreFreed(d, d2, disk, s, 1, sb);
      FreeListFrame(d2, disk, isize, fsize, nfree, free[..], tfree, s);
      Descends(s);
      RebuildKeepsPartition(d, disk, isize, owner, stack, s, fsize);
    }
  }

  lemma {:induction false} Descends(s: seq<Word>)
    requires forall i, j | 0 <= i < j < |s| :: s[i] > s[j]
    ensures NoDup(s)
  {
  }

  lemma {:induction false} NodeOf(d: Disk, isize: Word, n: int)
    requires 2 <= isize && 0 <= n < 8 * (isize - 2)
    ensures NodeAt(d, isize, n).addr == DiskInodes(d, isize)[n]
    ensures NodeAt(d, isize, n).mode == 0 ==> !IsFile(NodeAt(d, isize, n))
  {
  }

  /** Pass 1's bitmap is the complement of the free list exactly when it visits every position
      that owns a block: only files and directories other than inode 0 have blocks, and none
      behind the block that the file size is in. */
  lemma {:induction false} BitmapIsExact(
      d: Disk, isize: Word, owner: map<Word, Pos>, stack: seq<Word>, bitmap: seq<bool>)
    requires 2 <= isize <= |bitmap| <= 0x1_0000 && Partition(d, DiskInodes(d, isize), owner, stack, isize, |bitmap|)
    requires forall b: Word | b < |bitmap| ::
               bitmap[b] <==> b in owner && 0 <= owner[b].n < 8 * (isize - 2) && Visited(d, isize, owner[b])
    ensures (forall b: Word | isize <= b < |bitmap| :: bitmap[b] <==> b !in stack) <==>
            forall b | b in owner :: 0 <= owner[b].n < 8 * (isize - 2) && Visited(d, isize, owner[b])
  {
    hide Visited, PtrAt, NoDup;
  }

  /** Both passes over an image on which pass 1 visits every owned position: the rebuilt free list
      holds the same blocks, the owners stay, and the count is the same. */
  method CheckImage(d: Disk, behind: int -> Block, ghost owner: map<Word, Pos>, ghost stack: seq<Word>)
    returns (d': Disk, asks: bool)
    requires Mountable(d, stack) && 3 <= SbIsize(d(1)) <= 8193 && d(0) == ZERO_BLOCK
    requires Partition(d, DiskInodes(d, SbIsize(d(1))), owner, stack, SbIsize(d(1)), SbFsize(d(1)))
    requires forall n | 1 <= n < 8 * (SbIsize(d(1)) - 2) && IsFile(NodeAt(d, SbIsize(d(1)), n)) ::
               NodeAt(d, SbIsize(d(1)), n).sizeBlk < 0xFFFF
    requires forall b | b in owner :: 0 <= owner[b].n < 8 * (SbIsize(d(1)) - 2) && Visited(d, SbIsize(d(1)), owner[b])
    ensures exists stack' ::
              && Mountable(d', stack') && (forall i, j | 0 <= i < j < |stack'| :: stack'[i] > stack'[j])
              && (forall b: Word :: b in stack' <==> b in stack)
              && Partition(d', DiskInodes(d', SbIsize(d(1))), owner, stack', SbIsize(d(1)), SbFsize(d(1)))
    ensures forall b: Word | b != 1 && b !in stack :: d'(b) == d(b)
    ensures SbIsize(d'(1)) == SbIsize(d(1)) && SbFsize(d'(1)) == SbFsize(d(1))
    ensures WordAt(d'(1), 54) == 0 && WordAt(d'(1), 109) == WordAt(d(1), 109)
    ensures asks <==> WordAt(d(1), 109) !=
                      |set n | 1 <= n < 8 * (SbIsize(d(1)) - 2) && NodeAt(d, SbIsize(d(1)), n).mode == 0|
  {
    hide Partition, GoodFreeList, Unmarked, Visited, WordAt, NodeAt, DiskInodes;
    MountableSizes(d, stack);
    var c := new Check(d);
    var icount;
    icount, asks := c.Pass1(owner, stack);
    ghost var bm := c.bitmap[..];
    PartitionCovers(d, DiskInodes(d, c.isize), owner, stack, c.isize, c.fsize);
    assert forall b: Word | b < c.fsize :: bm[b] <==> b in owner;
    UnmarkedBlocks(bm, c.isize);
    c.Pass2(behind, owner, stack);
    d' := c.disk;
    assert c.bitmap[..] == bm;
  }

  lemma {:induction false} MountableSizes(d: Disk, stack: seq<Word>)
    requires Mountable(d, stack)
    ensures 2 <= SbIsize(d(1)) < SbFsize(d(1)) && WordAt(d(1), 0) == SMOUNTED
  {
  }

  /** Of a fresh image, pass 1 visits the one position that owns a block. */
  lemma {:induction false} FreshVisited(d: Disk, isize: Word, fsize: Word)
    requires FreshImage(d, isize, fsize) && isize >= 3
    ensures Visited(d, isize, Pos(ROOTINODE, 0, Root))
    ensures forall n | 1 <= n < 8 * (isize - 2) :: NodeAt(d, isize, n).sizeBlk == 0
  {
    hide Mountable, WordAt, EncodeInode, DecodeInode;
    forall n | 1 <= n < 8 * (isize - 2)
      ensures NodeAt(d, isize, n).sizeBlk == 0
      ensures n == 1 ==> IsFile(NodeAt(d, isize, n))
    {
      EmptySizes(n % 8);
      if n < 8 {
        EncodeDecode(ZERO_BLOCK, 0, RESERVED_INODE, n);
        EncodeDecode(EncodeInode(ZERO_BLOCK, 0, RESERVED_INODE), 1, RootInode(isize), n);
      }
    }
    hide NodeAt;
    assert Pos(ROOTINODE, 0, Root) == PosOf(ROOTINODE, 0);
  }

  lemma {:induction false} EmptySizes(k: int)
    requires 0 <= k < 8
    ensures DecodeInode(ZERO_BLOCK, k).sizeBlk == 0
  {
  }

  /** The first two passes over a fresh image: the free list comes out as it was. */
  method CheckFreshImage(d: Disk, isize: Word, fsize: Word, behind: int -> Block) returns (d': Disk)
    requires FreshImage(d, isize, fsize) && 3 <= isize <= 8193
    ensures Mountable(d', Descending(fsize, isize + 1))
    ensures SbNfree(d'(1)) == SbNfree(d(1)) && SbTfree(d'(1)) == SbTfree(d(1))
    ensures SbNfree(d(1)) <= NFREE && SbFree(d'(1))[..SbNfree(d(1))] == SbFree(d(1))[..SbNfree(d(1))]
    ensures forall b: Word | b <= isize && b != 1 :: d'(b) == d(b)
  {
    hide Partition, GoodFreeList, Unmarked, Visited, WordAt, NodeAt;
    ghost var owner, stack := map[isize := Pos(ROOTINODE, 0, Root)], Descending(fsize, isize + 1);
    FreshOwner(d, isize, fsize);
    FreshVisited(d, isize, fsize);
    FreshFields(d, isize, fsize);
    var c := new Check(d);
    var _, _ := c.Pass1(owner, stack);
    ghost var bm := c.bitmap[..];
    assert forall b: Word | b < fsize :: bm[b] <==> b == isize;
    UnmarkedStep(bm, isize);
    FreshUnmarked(bm, isize, isize + 1);
    UnmarkedBlocks(bm, isize);
    ConcatAssoc(stack, [], []);
    assert Unmarked(bm, isize) == stack;
    c.Pass2(behind, owner, stack);
    d' := c.disk;
    SameStackSameFields(d, d', stack);
  }

  lemma {:induction false} FreshFields(d: Disk, isize: Word, fsize: Word)
    requires FreshImage(d, isize, fsize)
    ensures SbIsize(d(1)) == isize && SbFsize(d(1)) == fsize && WordAt(d(1), 0) == SMOUNTED
    ensures d(0) == ZERO_BLOCK && Mountable(d, Descending(fsize, isize + 1))
  {
  }

  /** Two superblocks with the same free stack hold the same free-list fields. */
  lemma {:induction false} SameStackSameFields(d: Disk, d': Disk, stack: seq<Word>)
    requires Mountable(d, stack) && Mountable(d', stack)
    ensures SbNfree(d'(1)) == SbNfree(d(1)) <= NFREE && SbTfree(d'(1)) == SbTfree(d(1))
    ensures SbFree(d'(1))[..SbNfree(d(1))] == SbFree(d(1))[..SbNfree(d(1))]
  {
    hide WordAt, Chain, NoDup;
    ChainIsCanonical(d, SbNfree(d(1)), SbFree(d(1)), d', SbNfree(d'(1)), SbFree(d'(1)), stack);
    FreeListBounds(d, SbIsize(d(1)), SbFsize(d(1)), SbNfree(d(1)), SbFree(d(1)), SbTfree(d(1)), stack);
  }
}
