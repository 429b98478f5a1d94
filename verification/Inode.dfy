/** Inodes: the 64-byte form on disk and the in-core table. */
module Inode {
  import opened Types
  import opened BlockMap

  const ITABSIZE := 20
  const ROOTINODE: Word := 1

  const F_REG: Word := 0x8000
  const F_DIR: Word := 0x4000
  const F_PIPE: Word := 0x1000
  const F_BDEV: Word := 0x6000
  const F_CDEV: Word := 0x2000

  /** The type bits of a mode. */
  function Getmode(mode: Word): Word {
    mode - mode % 0x1000
  }

  /** A mode is the type's four bits above twelve others, which do not matter. */
  lemma {:induction false} GetmodeMasks(kind: int, others: int)
    requires 0 <= kind < 16 && 0 <= others < 0x1000
    ensures Getmode(kind * 0x1000 + others) == kind * 0x1000
  {
  }

  /** An inode as stored. ids holds the owner and group, times the three time stamps. */
  datatype Dinode = Dinode(mode: Word, nlink: Word, ids: seq<Word>, sizeBlk: Word, sizeOff: Word, times: seq<Word>,
                           addr: Addr)

  ghost predicate GoodDinode(n: Dinode) {
    |n.ids| == 2 && |n.times| == 6
  }

  /** A slot of the in-core table; num == 0 marks a slot that was never loaded. */
  datatype Cinode = Cinode(num: Word, node: Dinode, refs: int, dirty: bool)

  /** The 32 words of an inode. */
  function NodeWords(n: Dinode): (r: seq<Word>)
    requires GoodDinode(n)
    ensures |r| == 32
  {
    [n.mode, n.nlink] + n.ids + [n.sizeBlk, n.sizeOff] + n.times + n.addr
  }

  /** Inode k of the eight in an inode block. */
  function DecodeInode(b: Block, k: int): (n: Dinode)
    requires 0 <= k < 8
    ensures GoodDinode(n)
  {
    var w := 32 * k;
    Dinode(WordAt(b, w), WordAt(b, w + 1), WordsOf(b, w + 2, w + 4), WordAt(b, w + 4), WordAt(b, w + 5),
           WordsOf(b, w + 6, w + 12), WordsOf(b, w + 12, w + 32))
  }

  /** The inode block with inode k replaced. */
  function EncodeInode(b: Block, k: int, n: Dinode): Block
    requires 0 <= k < 8 && GoodDinode(n)
  {
    var words := NodeWords(n);
    seq<Byte>(512, i requires 0 <= i < 512 =>
                if 64 * k <= i < 64 * k + 64 then
                  (if i % 2 == 0 then words[(i - 64 * k) / 2] % 256 else words[(i - 64 * k) / 2] / 256)
                else b[i])
  }

  lemma {:induction false} EncodeWord(b: Block, k: int, n: Dinode, w: int)
    requires 0 <= k < 8 && GoodDinode(n) && 0 <= w < 256
    ensures WordAt(EncodeInode(b, k, n), w) ==
            if 32 * k <= w < 32 * k + 32 then NodeWords(n)[w - 32 * k] else WordAt(b, w)
  {
    hide NodeWords;
  }

  /** Writing one inode of a block: that inode reads back, the other seven are untouched. */
  lemma {:induction false} EncodeDecode(b: Block, k: int, n: Dinode, j: int)
    requires 0 <= k < 8 && 0 <= j < 8 && GoodDinode(n)
    ensures DecodeInode(EncodeInode(b, k, n), j) == if j == k then n else DecodeInode(b, j)
  {
    hide EncodeInode, WordAt;
    var b', words := EncodeInode(b, k, n), NodeWords(n);
    forall w | 0 <= w < 256
      ensures WordAt(b', w) == if 32 * k <= w < 32 * k + 32 then words[w - 32 * k] else WordAt(b, w)
    {
      EncodeWord(b, k, n, w);
    }
    if j == k {
      assert DecodeInode(b', j).ids == n.ids;
      assert DecodeInode(b', j).times == n.times;
      assert DecodeInode(b', j).addr == n.addr;
    } else {
      assert DecodeInode(b', j).ids == DecodeInode(b, j).ids;
      assert DecodeInode(b', j).times == DecodeInode(b, j).times;
      assert DecodeInode(b', j).addr == DecodeInode(b, j).addr;
    }
  }

  /** Where the fields of inode k are in its block, in 16-bit words. */
  lemma {:induction false} InodeFormat(b: Block, k: int, n: Dinode)
    requires 0 <= k < 8 && GoodDinode(n)
    ensures var b', w := EncodeInode(b, k, n), 32 * k;
            && WordAt(b', w) == n.mode && WordAt(b', w + 1) == n.nlink
            && WordAt(b', w + 4) == n.sizeBlk && WordAt(b', w + 5) == n.sizeOff
            && forall i | 0 <= i < 20 :: WordAt(b', w + 12 + i) == n.addr[i]
  {
    hide EncodeInode, WordAt;
    var b', w := EncodeInode(b, k, n), 32 * k;
    EncodeWord(b, k, n, w);
    EncodeWord(b, k, n, w + 1);
    EncodeWord(b, k, n, w + 4);
    EncodeWord(b, k, n, w + 5);
    forall i | 0 <= i < 20
      ensures WordAt(b', w + 12 + i) == n.addr[i]
    {
      EncodeWord(b, k, n, w + 12 + i);
    }
  }

  /** The block that holds inode n. */
  function InodeBlock(n: Word): Word {
    n / 8 + 2
  }

  function DiskNode(d: Disk, n: Word): (r: Dinode)
    ensures GoodDinode(r)
  {
    DecodeInode(d(InodeBlock(n)), n % 8)
  }

  /** The addresses of every inode of a filesystem, as stored. */
  ghost function DiskInodes(d: Disk, isize: Word): (ino: seq<Addr>)
    requires isize >= 2
    ensures |ino| == 8 * (isize - 2)
    ensures forall n | 0 <= n < |ino| :: ino[n] == DecodeInode(d(n / 8 + 2), n % 8).addr
  {
    seq<Addr>(8 * (isize - 2), n requires 0 <= n < 8 * (isize - 2) => DecodeInode(d(n / 8 + 2), n % 8).addr)
  }

  ghost predicate Loaded(tab: seq<Cinode>, n: int) {
    exists s | 0 <= s < |tab| :: tab[s].num == n
  }

  /** The slot is loaded and its copy equals the inode on disk. An unlinked inode (a pipe, or
      a removed file that is still open) may differ without being marked. */
  ghost predicate SlotOk(c: Cinode, ino: seq<Addr>, d: Disk) {
    && c.refs >= 0 && GoodDinode(c.node)
    && (c.refs == 0 ==> !c.dirty)
    && (c.num != 0 ==> c.num < |ino| && ino[c.num] == c.node.addr)
    && (c.num == 0 ==> c.refs == 0)
    && (c.num != 0 && !c.dirty && (c.refs == 0 || c.node.nlink != 0) ==> c.node == DiskNode(d, c.num))
  }

  /** The in-core table is coherent: one slot per inode, unreferenced slots equal the disk,
      and ino lists the current addresses of every inode. */
  ghost predicate Coherent(tab: seq<Cinode>, ino: seq<Addr>, d: Disk) {
    && |tab| == ITABSIZE
    && (forall s | 0 <= s < ITABSIZE :: SlotOk(tab[s], ino, d))
    && (forall s, t | 0 <= s < t < ITABSIZE && tab[s].num != 0 :: tab[s].num != tab[t].num)
    && (forall n: Word | n < |ino| && (n == 0 || !Loaded(tab, n)) :: ino[n] == DiskNode(d, n).addr)
  }

  /** Blocks from lo on hold no inodes. */
  lemma {:induction false} CoherentFrame(tab: seq<Cinode>, ino: seq<Addr>, d: Disk, d': Disk, lo: int)
    requires Coherent(tab, ino, d) && 2 <= lo && |ino| == 8 * (lo - 2)
    requires forall b: Word | b < lo :: d'(b) == d(b)
    ensures Coherent(tab, ino, d')
  {
    assert forall n: Word | n < |ino| :: InodeBlock(n) < lo;
    assert forall n: Word | n < |ino| :: DiskNode(d', n) == DiskNode(d, n);
    hide DiskNode;
  }

  /** Changing a referenced inode in core, with the dirty mark. */
  lemma {:induction false} CoherentUpdate(tab: seq<Cinode>, ino: seq<Addr>, d: Disk, s: int, c: Cinode)
    requires Coherent(tab, ino, d) && 0 <= s < ITABSIZE
    requires tab[s].num != 0 && c.num == tab[s].num && c.refs > 0 && GoodDinode(c.node)
    requires c.dirty || c.node.nlink == 0 || c.node == DiskNode(d, c.num)
    ensures Coherent(tab[s := c], ino[c.num := c.node.addr], d)
  {
    hide DiskNode;
    var tab', ino' := tab[s := c], ino[c.num := c.node.addr];
    assert SlotOk(tab[s], ino, d);
    assert forall t | 0 <= t < ITABSIZE :: tab'[t].num == tab[t].num;
    assert forall n: Word :: Loaded(tab', n) <==> Loaded(tab, n);
    assert Loaded(tab, c.num);
    forall t | 0 <= t < ITABSIZE
      ensures SlotOk(tab'[t], ino', d)
    {
      assert SlotOk(tab[t], ino, d);
    }
  }

  // ----- Frames -----

  /** Inode n as the system sees it: the copy in the table if there is one. */
  ghost function Current(d: Disk, tab: seq<Cinode>, n: Word): Dinode {
    if exists s :: 0 <= s < |tab| && tab[s].num == n then
      var s :| 0 <= s < |tab| && tab[s].num == n; tab[s].node
    else DiskNode(d, n)
  }

  lemma {:induction false} CurrentIsSlot(d: Disk, ino: seq<Addr>, tab: seq<Cinode>, s: int)
    requires Coherent(tab, ino, d) && 0 <= s < ITABSIZE && tab[s].num != 0
    ensures Current(d, tab, tab[s].num) == tab[s].node
  {
  }

  /** Apart from those in ex, the system sees the first size inodes as before. */
  ghost predicate OtherInodes(d: Disk, tab: seq<Cinode>, d': Disk, tab': seq<Cinode>, size: int, ex: set<int>) {
    forall n: Word | 0 < n < size && n as int !in ex :: Current(d', tab', n) == Current(d, tab, n)
  }

  lemma {:induction false} OtherInodesRefl(d: Disk, tab: seq<Cinode>, size: int, ex: set<int>)
    ensures OtherInodes(d, tab, d, tab, size, ex)
  {
  }

  lemma {:induction false} OtherInodesTrans(
      d1: Disk, t1: seq<Cinode>, d2: Disk, t2: seq<Cinode>, d3: Disk, t3: seq<Cinode>, size: int, ex: set<int>,
      ex': set<int>)
    requires OtherInodes(d1, t1, d2, t2, size, ex) && OtherInodes(d2, t2, d3, t3, size, ex')
    ensures OtherInodes(d1, t1, d3, t3, size, ex + ex')
  {
    hide Current;
  }

  lemma {:induction false} OtherInodesMore(
      d: Disk, tab: seq<Cinode>, d': Disk, tab': seq<Cinode>, size: int, ex: set<int>, ex': set<int>)
    requires OtherInodes(d, tab, d', tab', size, ex) && ex <= ex'
    ensures OtherInodes(d, tab, d', tab', size, ex')
  {
    hide Current;
  }

  /** One slot differs, and still holds the same inode. */
  lemma {:induction false} OneSlotDiffers(
      d: Disk, ino: seq<Addr>, tab: seq<Cinode>, d': Disk, ino': seq<Addr>, tab': seq<Cinode>, ip: int)
    requires Coherent(tab, ino, d) && Coherent(tab', ino', d') && 0 <= ip < ITABSIZE && tab'[ip].num == tab[ip].num
    requires forall s | 0 <= s < ITABSIZE && s != ip :: tab'[s] == tab[s]
    requires forall n: Word | n < |ino| && n != tab[ip].num :: DiskNode(d', n) == DiskNode(d, n)
    ensures OtherInodes(d, tab, d', tab', |ino|, {tab[ip].num as int})
  {
    hide DiskNode;
    forall n: Word | 0 < n < |ino| && n != tab[ip].num
      ensures Current(d', tab', n) == Current(d, tab, n)
    {
      if s :| 0 <= s < ITABSIZE && tab[s].num == n {
        CurrentIsSlot(d, ino, tab, s);
        CurrentIsSlot(d', ino', tab', s);
      }
    }
  }
}
