/** The block map of an inode: 18 direct slots, one single-indirect and one
    double-indirect block, and the ownership of every data block of the filesystem. */
module BlockMap {
  import opened Types
  import opened FreeList

  const NDIRECT := 18

  /** The block addresses stored in an inode. */
  type Addr = s: seq<Word> | |s| == 20 witness seq(20, _ => 0)

  function NoBlocks(): (a: Addr)
    ensures forall k | 0 <= k < 20 :: a[k] == 0
  {
    seq(20, _ => 0)
  }

  const NO_BLOCKS: Addr := NoBlocks()

  /** A place in the tree under one slot that can hold a block number. */
  datatype Path = Root | Mid(i: int) | Leaf(i: int, j: int)

  /** A place in the filesystem that can hold a block number: inode, slot and path. */
  datatype Pos = Pos(n: int, k: int, path: Path)

  function Level(k: int): nat {
    if k < NDIRECT then 0 else if k == NDIRECT then 1 else 2
  }

  predicate ValidPath(level: nat, path: Path) {
    match path
    case Root => true
    case Mid(i) => level >= 1 && 0 <= i < 256
    case Leaf(i, j) => level >= 2 && 0 <= i < 256 && 0 <= j < 256
  }

  predicate ValidPos(ino: seq<Addr>, p: Pos) {
    0 <= p.n < |ino| && 0 <= p.k < 20 && ValidPath(Level(p.k), p.path)
  }

  /** Entry i of indirect block b; an absent block has no entries. */
  function Entry(d: Disk, b: Word, i: int): Word {
    if b == 0 || !(0 <= i < 256) then 0 else WordAt(d(b), i)
  }

  /** The block number at a path below root block b; 0 means none. */
  function At(d: Disk, b: Word, path: Path): Word {
    match path
    case Root => b
    case Mid(i) => Entry(d, b, i)
    case Leaf(i, j) => Entry(d, Entry(d, b, i), j)
  }

  function PtrAt(d: Disk, ino: seq<Addr>, p: Pos): Word
    requires ValidPos(ino, p)
  {
    At(d, ino[p.n][p.k], p.path)
  }

  // ----- Logical blocks -----

  /** The slot and path that hold logical block bn of a file. */
  function SlotOf(bn: Word): (k: int)
    ensures 0 <= k < 20
  {
    if bn < NDIRECT then bn else if bn < NDIRECT + 256 then 18 else 19
  }

  function PathOf(bn: Word): (p: Path)
    ensures ValidPath(Level(SlotOf(bn)), p)
  {
    if bn < NDIRECT then Root
    else if bn < NDIRECT + 256 then Mid(bn - 18)
    else Leaf((bn - 274) / 256, (bn - 274) % 256)
  }

  function PosOf(n: int, bn: Word): Pos {
    Pos(n, SlotOf(bn), PathOf(bn))
  }

  /** The disk block of logical block bn, or 0. */
  function Lookup(d: Disk, addr: Addr, bn: Word): Word {
    At(d, addr[SlotOf(bn)], PathOf(bn))
  }

  // ----- Ownership -----

  /** Every block of [lo, hi) is in exactly one place: on the free stack, or at the one
      position of the one inode that owner records. */
  ghost predicate Partition(d: Disk, ino: seq<Addr>, owner: map<Word, Pos>, stack: seq<Word>, lo: int, hi: int) {
    && (forall p: Pos | ValidPos(ino, p) && PtrAt(d, ino, p) != 0 ::
          PtrAt(d, ino, p) in owner && owner[PtrAt(d, ino, p)] == p)
    && (forall b | b in owner ::
          lo <= b < hi && b !in stack && ValidPos(ino, owner[b]) && PtrAt(d, ino, owner[b]) == b)
    && NoDup(stack)
    && (forall b | b in stack :: lo <= b < hi)
    && (forall b: Word | lo <= b < hi :: b in stack || b in owner)
  }

  lemma {:induction false} FreeBlocksAreData(
      d: Disk, ino: seq<Addr>, owner: map<Word, Pos>, stack: seq<Word>, lo: int, hi: int)
    requires Partition(d, ino, owner, stack, lo, hi)
    ensures NoDup(stack) && forall b | b in stack :: lo <= b < hi
    ensures stack != [] ==> Top(stack) in stack
  {
  }

  /** Ownership spelled out: a block number stored anywhere is a data block that is not free
      and is stored nowhere else, and a data block that is stored nowhere is free. */
  lemma {:induction false} PartitionMeaning(
      d: Disk, ino: seq<Addr>, owner: map<Word, Pos>, stack: seq<Word>, lo: int, hi: int, b: Word)
    requires Partition(d, ino, owner, stack, lo, hi) && 0 < lo
    ensures b in stack ==> lo <= b < hi && forall p: Pos | ValidPos(ino, p) :: PtrAt(d, ino, p) != b
    ensures forall p, q: Pos | ValidPos(ino, p) && ValidPos(ino, q) && PtrAt(d, ino, p) == PtrAt(d, ino, q) == b != 0 ::
              p == q && lo <= b < hi
    ensures lo <= b < hi && b !in stack ==> exists p: Pos :: ValidPos(ino, p) && PtrAt(d, ino, p) == b
  {
    if lo <= b < hi && b !in stack {
      assert ValidPos(ino, owner[b]);
    }
  }

  ghost function SetOf(s: seq<Word>): (r: set<Word>)
    ensures forall x: Word :: x in r <==> x in s
  {
    if s == [] then {} else assert s == s[..|s| - 1] + [s[|s| - 1]]; SetOf(s[..|s| - 1]) + {s[|s| - 1]}
  }

  /** The blocks in a duplicate-free sequence are as many as its entries. */
  lemma {:induction false} NoDupSize(s: seq<Word>)
    requires NoDup(s)
    ensures |SetOf(s)| == |s|
  {
    if s != [] {
      NoDupSize(s[..|s| - 1]);
      assert s[|s| - 1] !in s[..|s| - 1];
    }
  }

  /** The block numbers from lo up to hi. */
  ghost function Range(lo: int, hi: int): (r: set<Word>)
    requires 0 <= lo <= hi <= 0x1_0000
    ensures forall b: Word :: b in r <==> lo <= b < hi
    decreases hi - lo
  {
    if lo == hi then {} else Range(lo, hi - 1) + {hi - 1}
  }

  lemma {:induction false} RangeSize(lo: int, hi: int)
    requires 0 <= lo <= hi <= 0x1_0000
    ensures |Range(lo, hi)| == hi - lo
    decreases hi - lo
  {
    if lo < hi {
      RangeSize(lo, hi - 1);
      assert hi - 1 !in Range(lo, hi - 1);
    }
  }

  /** Conservation: free blocks and blocks in use are together all data blocks. */
  lemma {:induction false} BlocksAreConserved(
      d: Disk, ino: seq<Addr>, owner: map<Word, Pos>, stack: seq<Word>, lo: int, hi: int)
    requires Partition(d, ino, owner, stack, lo, hi) && 0 <= lo <= hi <= 0x1_0000
    ensures |stack| + |owner| == hi - lo
  {
    hide Partition, NoDup;
    PartitionCovers(d, ino, owner, stack, lo, hi);
    NoDupSize(stack);
    RangeSize(lo, hi);
    TwoParts(SetOf(stack), owner.Keys, Range(lo, hi));
    assert |owner| == |owner.Keys|;
  }

  lemma {:induction false} PartitionCovers(
      d: Disk, ino: seq<Addr>, owner: map<Word, Pos>, stack: seq<Word>, lo: int, hi: int)
    requires Partition(d, ino, owner, stack, lo, hi)
    ensures NoDup(stack) && (forall b: Word :: lo <= b < hi <==> b in stack || b in owner)
            && forall b | b in stack :: b !in owner
  {
    hide PtrAt, ValidPos, NoDup;
  }

  lemma {:induction false} TwoParts(a: set<Word>, b: set<Word>, whole: set<Word>)
    requires forall x :: x in whole <==> x in a || x in b
    requires forall x | x in a :: x !in b
    ensures |a| + |b| == |whole|
  {
    assert whole == a + b;
  }

  /** The block that holds a position in a tree. */
  function ParentBlock(d: Disk, ino: seq<Addr>, p: Pos): Word
    requires ValidPos(ino, p) && !p.path.Root?
  {
    if p.path.Mid? then ino[p.n][p.k] else Entry(d, ino[p.n][p.k], p.path.i)
  }

  /** Its index in that block. */
  function LastIndex(path: Path): int
    requires !path.Root?
  {
    if path.Mid? then path.i else path.j
  }

  /** Storing nb at position p, in the inode or in the indirect block that holds p. */
  function InstallIno(ino: seq<Addr>, p: Pos, nb: Word): seq<Addr>
    requires ValidPos(ino, p)
  {
    if p.path.Root? then ino[p.n := ino[p.n][p.k := nb]] else ino
  }

  function InstallDisk(d: Disk, ino: seq<Addr>, p: Pos, nb: Word): Disk
    requires ValidPos(ino, p)
  {
    if p.path.Root? then d
    else Write(d, ParentBlock(d, ino, p), PutWord(d(ParentBlock(d, ino, p)), LastIndex(p.path), nb))
  }

  /** The block that holds position p exists. */
  predicate HasParent(d: Disk, ino: seq<Addr>, p: Pos)
    requires ValidPos(ino, p)
  {
    match p.path
    case Root => true
    case Mid(_) => ino[p.n][p.k] != 0
    case Leaf(i, _) => Entry(d, ino[p.n][p.k], i) != 0
  }

  /** Installing the freshly zeroed block nb at p changes what is stored at p and nowhere else. */
  lemma {:induction false} InstallChangesOnePointer(
      d: Disk, ino: seq<Addr>, owner: map<Word, Pos>, stack: seq<Word>, lo: int, hi: int, p: Pos, nb: Word, q: Pos)
    requires Partition(d, ino, owner, stack, lo, hi) && 0 < lo
    requires ValidPos(ino, p) && PtrAt(d, ino, p) == 0 && HasParent(d, ino, p)
    requires nb in stack && ValidPos(ino, q)
    ensures var d1 := Write(d, nb, ZERO_BLOCK);
            PtrAt(InstallDisk(d1, ino, p, nb), InstallIno(ino, p, nb), q)
            == if q == p then nb else PtrAt(d, ino, q)
  {
    assert q.path.Leaf? ==> ValidPos(ino, Pos(q.n, q.k, Mid(q.path.i)));
    assert ValidPos(ino, Pos(q.n, q.k, Root));
    assert p.path.Leaf? ==> ValidPos(ino, Pos(p.n, p.k, Mid(p.path.i)));
    assert ValidPos(ino, Pos(p.n, p.k, Root));
    assert PtrAt(d, ino, Pos(q.n, q.k, Root)) == ino[q.n][q.k];
    assert PtrAt(d, ino, Pos(p.n, p.k, Root)) == ino[p.n][p.k];
    assert q.path.Leaf? ==> PtrAt(d, ino, Pos(q.n, q.k, Mid(q.path.i))) == Entry(d, ino[q.n][q.k], q.path.i);
    assert p.path.Leaf? ==> PtrAt(d, ino, Pos(p.n, p.k, Mid(p.path.i))) == Entry(d, ino[p.n][p.k], p.path.i);
  }

  /** Taking nb off the top of the free stack, zeroing it and installing it at p keeps the
      ownership of every block. */
  lemma {:induction false} InstallKeepsPartition(
      d: Disk, ino: seq<Addr>, owner: map<Word, Pos>, stack: seq<Word>, lo: int, hi: int, p: Pos, nb: Word)
    requires Partition(d, ino, owner, stack, lo, hi) && 0 < lo
    requires ValidPos(ino, p) && PtrAt(d, ino, p) == 0 && HasParent(d, ino, p)
    requires stack != [] && nb == stack[|stack| - 1]
    ensures Partition(InstallDisk(Write(d, nb, ZERO_BLOCK), ino, p, nb), InstallIno(ino, p, nb),
                      owner[nb := p], stack[..|stack| - 1], lo, hi)
  {
    hide InstallDisk, PtrAt;
    var d', ino', owner', stack' :=
      InstallDisk(Write(d, nb, ZERO_BLOCK), ino, p, nb), InstallIno(ino, p, nb), owner[nb := p], stack[..|stack| - 1];
    assert nb !in stack' && forall b :: b in stack <==> b == nb || b in stack';
    forall q: Pos | ValidPos(ino', q) && PtrAt(d', ino', q) != 0
      ensures PtrAt(d', ino', q) in owner' && owner'[PtrAt(d', ino', q)] == q
    {
      InstallChangesOnePointer(d, ino, owner, stack, lo, hi, p, nb, q);
    }
    forall b | b in owner'
      ensures lo <= b < hi && b !in stack' && ValidPos(ino', owner'[b]) && PtrAt(d', ino', owner'[b]) == b
    {
      InstallChangesOnePointer(d, ino, owner, stack, lo, hi, p, nb, owner'[b]);
    }
  }

  /** Distinct logical blocks live at distinct positions. */
  lemma {:induction false} PosOfIsInjective(n: int, m: int, bn: Word, bm: Word)
    requires PosOf(n, bn) == PosOf(m, bm)
    ensures n == m && bn == bm
  {
  }

  /** Distinct allocated logical blocks are distinct disk blocks, within and across files. */
  lemma {:induction false} LookupIsInjective(
      d: Disk, ino: seq<Addr>, owner: map<Word, Pos>, stack: seq<Word>, lo: int, hi: int,
      n: int, m: int, bn: Word, bm: Word)
    requires Partition(d, ino, owner, stack, lo, hi) && 0 < lo
    requires 0 <= n < |ino| && 0 <= m < |ino|
    requires Lookup(d, ino[n], bn) == Lookup(d, ino[m], bm) != 0
    ensures n == m && bn == bm
  {
    assert ValidPos(ino, PosOf(n, bn)) && ValidPos(ino, PosOf(m, bm));
    PosOfIsInjective(n, m, bn, bm);
  }

  /** Writing the data of a leaf block changes no stored block number. */
  lemma {:induction false} DataWriteKeepsPointers(
      d: Disk, ino: seq<Addr>, owner: map<Word, Pos>, stack: seq<Word>, lo: int, hi: int,
      n: int, bn: Word, data: Block, q: Pos)
    requires Partition(d, ino, owner, stack, lo, hi) && 0 < lo
    requires 0 <= n < |ino| && Lookup(d, ino[n], bn) != 0 && ValidPos(ino, q)
    ensures PtrAt(Write(d, Lookup(d, ino[n], bn), data), ino, q) == PtrAt(d, ino, q)
  {
    var p := PosOf(n, bn);
    assert ValidPos(ino, p) && PtrAt(d, ino, p) == Lookup(d, ino[n], bn);
    var r := Pos(q.n, q.k, Root);
    assert ValidPos(ino, r) && PtrAt(d, ino, r) == ino[q.n][q.k];
    if q.path.Leaf? {
      var m := Pos(q.n, q.k, Mid(q.path.i));
      assert ValidPos(ino, m) && PtrAt(d, ino, m) == Entry(d, ino[q.n][q.k], q.path.i);
    }
  }

  lemma {:induction false} DataWriteKeepsPartition(
      d: Disk, ino: seq<Addr>, owner: map<Word, Pos>, stack: seq<Word>, lo: int, hi: int,
      n: int, bn: Word, data: Block)
    requires Partition(d, ino, owner, stack, lo, hi) && 0 < lo
    requires 0 <= n < |ino| && Lookup(d, ino[n], bn) != 0
    ensures Partition(Write(d, Lookup(d, ino[n], bn), data), ino, owner, stack, lo, hi)
  {
    var d' := Write(d, Lookup(d, ino[n], bn), data);
    forall q: Pos | ValidPos(ino, q)
      ensures PtrAt(d', ino, q) == PtrAt(d, ino, q)
    {
      DataWriteKeepsPointers(d, ino, owner, stack, lo, hi, n, bn, data, q);
    }
    hide PtrAt;
  }

  /** Blocks outside [lo, hi) hold no block numbers of the map. */
  lemma {:induction false} OtherWriteKeepsPartition(
      d: Disk, ino: seq<Addr>, owner: map<Word, Pos>, stack: seq<Word>, lo: int, hi: int, b: Word, data: Block)
    requires Partition(d, ino, owner, stack, lo, hi) && 0 < lo && !(lo <= b < hi)
    ensures Partition(Write(d, b, data), ino, owner, stack, lo, hi)
    ensures forall q: Pos | ValidPos(ino, q) :: PtrAt(Write(d, b, data), ino, q) == PtrAt(d, ino, q)
  {
    var d' := Write(d, b, data);
    forall q: Pos | ValidPos(ino, q)
      ensures PtrAt(d', ino, q) == PtrAt(d, ino, q)
    {
      var r := Pos(q.n, q.k, Root);
      assert ValidPos(ino, r) && PtrAt(d, ino, r) == ino[q.n][q.k];
      if q.path.Leaf? {
        var m := Pos(q.n, q.k, Mid(q.path.i));
        assert ValidPos(ino, m) && PtrAt(d, ino, m) == Entry(d, ino[q.n][q.k], q.path.i);
      }
    }
    hide PtrAt;
  }

  // ----- File contents -----

  /** The contents of logical block bn of a file; an unallocated block reads as zeroes. */
  function FileBlock(d: Disk, addr: Addr, bn: Word): Block {
    if Lookup(d, addr, bn) == 0 then ZERO_BLOCK else d(Lookup(d, addr, bn))
  }

  /** The blocks in front of the data area, which hold the inodes, are the same. */
  ghost predicate SameInodeBlocks(d: Disk, d': Disk, ino: seq<Addr>) {
    forall b: Word | 8 * b < |ino| + 16 :: d'(b) == d(b)
  }

  /** Of the addresses of inode n, only slot bn may differ if bn is a direct block. */
  ghost predicate OneDirect(ino: seq<Addr>, ino': seq<Addr>, n: int, bn: Word) {
    0 <= n < |ino| && n < |ino'| && bn < NDIRECT ==> forall k | 0 <= k < 20 && k != bn :: ino'[n][k] == ino[n][k]
  }

  /** Allocated logical blocks stay allocated. */
  ghost predicate StillMapped(d: Disk, ino: seq<Addr>, d': Disk, ino': seq<Addr>) {
    && |ino'| == |ino|
    && forall m, b: Word | 0 <= m < |ino| && Lookup(d, ino[m], b) != 0 :: Lookup(d', ino'[m], b) != 0
  }

  /** Block numbers are new only where none was, on the way to logical block bn of inode n. */
  ghost predicate PointersToward(d: Disk, ino: seq<Addr>, d': Disk, ino': seq<Addr>, n: int, bn: Word) {
    && |ino'| == |ino|
    && forall p: Pos | ValidPos(ino, p) && PtrAt(d', ino', p) != PtrAt(d, ino, p) ::
         PtrAt(d, ino, p) == 0 && p.n == n && (p == PosOf(n, bn) || Interior(p))
  }

  /** No file's contents changed, no logical block other than bn of inode n moved, and neither
      another inode's addresses nor an inode block changed. */
  ghost predicate Keeps(d: Disk, ino: seq<Addr>, d': Disk, ino': seq<Addr>, n: int, bn: Word) {
    && |ino'| == |ino| && SameInodeBlocks(d, d', ino) && OneDirect(ino, ino', n, bn) && StillMapped(d, ino, d', ino')
    && PointersToward(d, ino, d', ino', n, bn)
    && (forall m | 0 <= m < |ino| && m != n :: ino'[m] == ino[m])
    && (forall m, b: Word | 0 <= m < |ino| :: FileBlock(d', ino'[m], b) == FileBlock(d, ino[m], b))
    && (forall m, b: Word | 0 <= m < |ino| && !(m == n && b == bn) :: Lookup(d', ino'[m], b) == Lookup(d, ino[m], b))
  }

  lemma {:induction false} KeepsTrans(
      d1: Disk, ino1: seq<Addr>, d2: Disk, ino2: seq<Addr>, d3: Disk, ino3: seq<Addr>, n: int, bn: Word)
    requires Keeps(d1, ino1, d2, ino2, n, bn) && Keeps(d2, ino2, d3, ino3, n, bn)
    ensures Keeps(d1, ino1, d3, ino3, n, bn)
  {
  }

  /** An indirect block, rather than a block of file data, is stored at p. */
  predicate Interior(p: Pos) {
    (p.k == 18 && p.path.Root?) || (p.k == 19 && !p.path.Leaf?)
  }

  lemma {:induction false} PosOfIsLeaf(ino: seq<Addr>, n: int, bn: Word)
    requires 0 <= n < |ino|
    ensures ValidPos(ino, PosOf(n, bn)) && !Interior(PosOf(n, bn)) && PosOf(n, bn).n == n
  {
  }

  /** Installing a block, indirect or for logical block bn of inode n, keeps everything else. */
  lemma {:induction false} InstallKeepsFiles(
      d: Disk, ino: seq<Addr>, owner: map<Word, Pos>, stack: seq<Word>, lo: int, hi: int, p: Pos, nb: Word, n: int,
        bn: Word)
    requires Partition(d, ino, owner, stack, lo, hi) && 0 < lo
    requires ValidPos(ino, p) && PtrAt(d, ino, p) == 0 && HasParent(d, ino, p)
    requires nb in stack && p.n == n && (p == PosOf(n, bn) || (Interior(p) && bn >= NDIRECT)) && |ino| <= 8 * (lo - 2)
    ensures var d1 := Write(d, nb, ZERO_BLOCK);
            Keeps(d, ino, InstallDisk(d1, ino, p, nb), InstallIno(ino, p, nb), n, bn)
    ensures var d1 := Write(d, nb, ZERO_BLOCK);
            PtrAt(InstallDisk(d1, ino, p, nb), InstallIno(ino, p, nb), p) == nb
  {
    var d1 := Write(d, nb, ZERO_BLOCK);
    var d', ino' := InstallDisk(d1, ino, p, nb), InstallIno(ino, p, nb);
    InstallChangesOnePointer(d, ino, owner, stack, lo, hi, p, nb, p);
    InstallWritesData(d, ino, owner, stack, lo, hi, p, nb);
    forall q: Pos | ValidPos(ino, q)
      ensures PtrAt(d', ino', q) == if q == p then nb else PtrAt(d, ino, q)
    {
      InstallChangesOnePointer(d, ino, owner, stack, lo, hi, p, nb, q);
    }
    hide PtrAt, InstallDisk, InstallIno;
    assert PointersToward(d, ino, d', ino', n, bn);
    forall m, b: Word | 0 <= m < |ino|
      ensures Lookup(d', ino'[m], b) == if PosOf(m, b) == p then nb else Lookup(d, ino[m], b)
      ensures FileBlock(d', ino'[m], b) == FileBlock(d, ino[m], b)
      ensures !(m == n && b == bn) ==> Lookup(d', ino'[m], b) == Lookup(d, ino[m], b)
    {
      InstallKeepsOneFileBlock(d, ino, owner, stack, lo, hi, p, nb, n, bn, m, b);
    }
  }

  /** Indirect blocks are data blocks in use. */
  lemma {:induction false} ParentIsData(
      d: Disk, ino: seq<Addr>, owner: map<Word, Pos>, stack: seq<Word>, lo: int, hi: int, p: Pos)
    requires Partition(d, ino, owner, stack, lo, hi) && 0 < lo
    requires ValidPos(ino, p) && !p.path.Root? && HasParent(d, ino, p)
    ensures lo <= ParentBlock(d, ino, p) < hi && ParentBlock(d, ino, p) !in stack
  {
    var r, m := Pos(p.n, p.k, Root), Pos(p.n, p.k, Mid(if p.path.Leaf? then p.path.i else 0));
    assert ValidPos(ino, r) && PtrAt(d, ino, r) == ino[p.n][p.k];
    if p.path.Leaf? {
      assert ValidPos(ino, m) && PtrAt(d, ino, m) == Entry(d, ino[p.n][p.k], p.path.i);
    }
  }

  lemma {:induction false} InstallWritesData(
      d: Disk, ino: seq<Addr>, owner: map<Word, Pos>, stack: seq<Word>, lo: int, hi: int, p: Pos, nb: Word)
    requires Partition(d, ino, owner, stack, lo, hi) && 0 < lo
    requires ValidPos(ino, p) && HasParent(d, ino, p) && nb in stack
    ensures forall b: Word | b < lo :: InstallDisk(Write(d, nb, ZERO_BLOCK), ino, p, nb)(b) == d(b)
    ensures !p.path.Root? ==> ParentBlock(Write(d, nb, ZERO_BLOCK), ino, p) == ParentBlock(d, ino, p)
  {
    if !p.path.Root? {
      ParentIsData(d, ino, owner, stack, lo, hi, p);
      var r := Pos(p.n, p.k, Root);
      assert ValidPos(ino, r) && PtrAt(d, ino, r) == ino[p.n][p.k];
    }
  }

  /** Installing writes to an indirect block, so file data stays as it is. */
  lemma {:induction false} InstallKeepsLeaves(
      d: Disk, ino: seq<Addr>, owner: map<Word, Pos>, stack: seq<Word>, lo: int, hi: int, p: Pos, nb: Word, q: Pos)
    requires Partition(d, ino, owner, stack, lo, hi) && 0 < lo
    requires ValidPos(ino, p) && HasParent(d, ino, p) && nb in stack
    requires ValidPos(ino, q) && !Interior(q)
    ensures var d' := InstallDisk(Write(d, nb, ZERO_BLOCK), ino, p, nb);
            && d'(nb) == ZERO_BLOCK
            && (PtrAt(d, ino, q) != 0 ==> d'(PtrAt(d, ino, q)) == d(PtrAt(d, ino, q)))
  {
    var r, m := Pos(p.n, p.k, Root), Pos(p.n, p.k, Mid(if p.path.Leaf? then p.path.i else 0));
    assert ValidPos(ino, r) && PtrAt(d, ino, r) == ino[p.n][p.k];
    if p.path.Leaf? {
      assert ValidPos(ino, m) && PtrAt(d, ino, m) == Entry(d, ino[p.n][p.k], p.path.i);
    }
  }

  lemma {:induction false} InstallKeepsOneFileBlock(
      d: Disk, ino: seq<Addr>, owner: map<Word, Pos>, stack: seq<Word>, lo: int, hi: int, p: Pos, nb: Word, n: int,
        bn: Word,
      m: int, b: Word)
    requires Partition(d, ino, owner, stack, lo, hi) && 0 < lo
    requires ValidPos(ino, p) && PtrAt(d, ino, p) == 0 && HasParent(d, ino, p)
    requires nb in stack && p.n == n && (p == PosOf(n, bn) || Interior(p)) && 0 <= m < |ino|
    ensures var d1 := Write(d, nb, ZERO_BLOCK);
            var d', ino' := InstallDisk(d1, ino, p, nb), InstallIno(ino, p, nb);
            && Lookup(d', ino'[m], b) == (if PosOf(m, b) == p then nb else Lookup(d, ino[m], b))
            && FileBlock(d', ino'[m], b) == FileBlock(d, ino[m], b)
            && (!(m == n && b == bn) ==> Lookup(d', ino'[m], b) == Lookup(d, ino[m], b))
  {
    var d1 := Write(d, nb, ZERO_BLOCK);
    var d', ino' := InstallDisk(d1, ino, p, nb), InstallIno(ino, p, nb);
    var q := PosOf(m, b);
    PosOfIsLeaf(ino, m, b);
    InstallChangesOnePointer(d, ino, owner, stack, lo, hi, p, nb, q);
    assert Lookup(d', ino'[m], b) == PtrAt(d', ino', q) && Lookup(d, ino[m], b) == PtrAt(d, ino, q);
    if q == p {
      PosOfIsInjective(m, n, b, bn);
    }
    InstallKeepsLeaves(d, ino, owner, stack, lo, hi, p, nb, q);
  }

  /** The only contents that differ are those of logical block bn of inode n, now x. */
  ghost predicate OnlyBlock(d: Disk, ino: seq<Addr>, d': Disk, ino': seq<Addr>, n: int, bn: Word, x: Block) {
    && |ino'| == |ino| && 0 <= n < |ino| && SameInodeBlocks(d, d', ino) && OneDirect(ino, ino', n, bn)
    && StillMapped(d, ino, d', ino') && Lookup(d', ino'[n], bn) != 0 && PointersToward(d, ino, d', ino', n, bn)
    && (forall m | 0 <= m < |ino| && m != n :: ino'[m] == ino[m])
    && (forall m, b: Word | 0 <= m < |ino| ::
          FileBlock(d', ino'[m], b) == if m == n && b == bn then x else FileBlock(d, ino[m], b))
  }

  // ----- Extent -----

  /** p is the position of one of the first `blocks` logical blocks. */
  predicate UpTo(p: Pos, blocks: int) {
    exists bn: Word | bn < blocks :: p == PosOf(p.n, bn)
  }

  /** Inode n has no blocks of file data but among its first `blocks` logical blocks. */
  ghost predicate Within(d: Disk, ino: seq<Addr>, n: int, blocks: int) {
    forall p: Pos | ValidPos(ino, p) && p.n == n && PtrAt(d, ino, p) != 0 :: Interior(p) || UpTo(p, blocks)
  }

  lemma {:induction false} WithinStays(d: Disk, ino: seq<Addr>, d': Disk, ino': seq<Addr>, ex: set<int>, n: int,
      blocks: int)
    requires OtherFiles(d, ino, d', ino', ex) && n !in ex
    ensures Within(d', ino', n, blocks) == Within(d, ino, n, blocks)
  {
    hide PtrAt, UpTo, FileBlock;
    assert forall p: Pos :: ValidPos(ino', p) == ValidPos(ino, p);
  }

  lemma {:induction false} WithinNothing(d: Disk, ino: seq<Addr>, n: int, blocks: int)
    requires 0 <= n < |ino| && ino[n] == NO_BLOCKS
    ensures Within(d, ino, n, blocks)
  {
  }

  // ----- Frames -----

  /** Apart from the inodes in ex, every stored block number and all file contents are the
      same, and so is the boot block. */
  ghost predicate OtherFiles(d: Disk, ino: seq<Addr>, d': Disk, ino': seq<Addr>, ex: set<int>) {
    && |ino'| == |ino| && d'(0) == d(0)
    && (forall m | 0 <= m < |ino| && m !in ex :: ino'[m] == ino[m])
    && (forall p: Pos | ValidPos(ino, p) && p.n !in ex :: PtrAt(d', ino', p) == PtrAt(d, ino, p))
    && (forall m, b: Word | 0 <= m < |ino| && m !in ex :: FileBlock(d', ino'[m], b) == FileBlock(d, ino[m], b))
  }

  lemma {:induction false} OtherFilesRefl(d: Disk, ino: seq<Addr>, ex: set<int>)
    ensures OtherFiles(d, ino, d, ino, ex)
  {
  }

  lemma {:induction false} OtherFilesTrans(
      d1: Disk, ino1: seq<Addr>, d2: Disk, ino2: seq<Addr>, d3: Disk, ino3: seq<Addr>, ex: set<int>, ex': set<int>)
    requires OtherFiles(d1, ino1, d2, ino2, ex) && OtherFiles(d2, ino2, d3, ino3, ex')
    ensures OtherFiles(d1, ino1, d3, ino3, ex + ex')
  {
    hide PtrAt, FileBlock;
  }

  lemma {:induction false} OtherFilesMore(d: Disk, ino: seq<Addr>, d': Disk, ino': seq<Addr>, ex: set<int>,
      ex': set<int>)
    requires OtherFiles(d, ino, d', ino', ex) && ex <= ex'
    ensures OtherFiles(d, ino, d', ino', ex')
  {
    hide PtrAt, FileBlock;
  }

  /** With the same blocks from lo on, but for free ones, all files are the same. */
  lemma {:induction false} SameDataBlocks(
      d: Disk, d': Disk, ino: seq<Addr>, owner: map<Word, Pos>, stack: seq<Word>, lo: int, hi: int)
    requires Partition(d, ino, owner, stack, lo, hi) && 0 < lo && d'(0) == d(0)
    requires forall b: Word | lo <= b && b !in stack :: d'(b) == d(b)
    ensures OtherFiles(d, ino, d', ino, {})
  {
    forall q: Pos | ValidPos(ino, q)
      ensures PtrAt(d', ino, q) == PtrAt(d, ino, q)
    {
      var r := Pos(q.n, q.k, Root);
      assert ValidPos(ino, r) && PtrAt(d, ino, r) == ino[q.n][q.k];
      if q.path.Leaf? {
        var m := Pos(q.n, q.k, Mid(q.path.i));
        assert ValidPos(ino, m) && PtrAt(d, ino, m) == Entry(d, ino[q.n][q.k], q.path.i);
      }
    }
    SameLeaves(d, d', ino, owner, stack, lo, hi);
  }

  lemma {:induction false} SamePartition(
      d: Disk, d': Disk, ino: seq<Addr>, owner: map<Word, Pos>, stack: seq<Word>, lo: int, hi: int)
    requires Partition(d, ino, owner, stack, lo, hi) && forall b: Word :: d'(b) == d(b)
    ensures Partition(d', ino, owner, stack, lo, hi)
  {
    assert forall p: Pos | ValidPos(ino, p) :: PtrAt(d', ino, p) == PtrAt(d, ino, p);
    hide PtrAt;
  }

  lemma {:induction false} SameLeaves(
      d: Disk, d': Disk, ino: seq<Addr>, owner: map<Word, Pos>, stack: seq<Word>, lo: int, hi: int)
    requires Partition(d, ino, owner, stack, lo, hi) && forall b: Word | lo <= b && b !in stack :: d'(b) == d(b)
    requires forall p: Pos | ValidPos(ino, p) :: PtrAt(d', ino, p) == PtrAt(d, ino, p)
    ensures forall m, b: Word | 0 <= m < |ino| :: FileBlock(d', ino[m], b) == FileBlock(d, ino[m], b)
  {
    forall m, b: Word | 0 <= m < |ino|
      ensures FileBlock(d', ino[m], b) == FileBlock(d, ino[m], b)
    {
      PosOfIsLeaf(ino, m, b);
      assert PtrAt(d, ino, PosOf(m, b)) == Lookup(d, ino[m], b) && PtrAt(d', ino, PosOf(m, b)) == Lookup(d', ino[m], b);
      hide PtrAt, PosOf, Lookup, ValidPos;
    }
  }
}
