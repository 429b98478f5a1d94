/** The initial image of a filesystem (uzi-nes-utils/fs/mkfs.c). */
module Mkfs {
  import opened Types
  import opened BufferCache
  import opened FreeList
  import opened BlockMap
  import opened Volume
  import opened Inode
  import opened FileSystem

  /** The block with the given 256 words. */
  function BlockOfWords(words: seq<Word>): (b: Block)
    requires |words| == 256
    ensures forall i | 0 <= i < 256 :: WordAt(b, i) == words[i]
  {
    var b := seq<Byte>(512, i requires 0 <= i < 512 => if i % 2 == 0 then words[i / 2] % 256 else words[i / 2] / 256);
    assert forall i | 0 <= i < 256 :: WordAt(b, i) == words[i];
    b
  }

  /** The words of the superblock structure; the fields not named are those of `others`. */
  function SuperWords(others: Block, isize: Word, fsize: Word, nfree: Word, free: seq<Word>, tfree: Word,
      tinode: Word): (w: seq<Word>)
    requires |free| == NFREE
    ensures |w| == 256
  {
    seq<Word>(256, i requires 0 <= i < 256 =>
                if i == 1 then isize else if i == 2 then fsize
                else if i == 3 then nfree else if 4 <= i < 4 + NFREE then free[i - 4]
                else if i == 108 then tfree else if i == 109 then tinode else WordAt(others, i))
  }

  function SuperBlock(others: Block, isize: Word, fsize: Word, nfree: Word, free: seq<Word>, tfree: Word,
      tinode: Word): Block
    requires |free| == NFREE
  {
    BlockOfWords(SuperWords(others, isize, fsize, nfree, free, tfree, tinode))
  }

  lemma {:induction false} SuperBlockFields(
      others: Block, isize: Word, fsize: Word, nfree: Word, free: seq<Word>, tfree: Word, tinode: Word)
    requires |free| == NFREE
    ensures var b := SuperBlock(others, isize, fsize, nfree, free, tfree, tinode);
            && WordAt(b, 0) == WordAt(others, 0) && (forall i | 54 <= i < 106 :: WordAt(b, i) == WordAt(others, i))
            && SbIsize(b) == isize && SbFsize(b) == fsize
            && SbNfree(b) == nfree && SbFree(b) == free && SbTfree(b) == tfree && WordAt(b, 109) == tinode
  {
    hide BlockOfWords, WordAt;
    SbFreeIs(SuperBlock(others, isize, fsize, nfree, free, tfree, tinode), free);
  }

  lemma {:induction false} SbFreeIs(b: Block, free: seq<Word>)
    requires |free| == NFREE && forall i | 0 <= i < NFREE :: WordAt(b, 4 + i) == free[i]
    ensures SbFree(b) == free
  {
    assert WordsOf(b, 4, 4 + NFREE) == free;
  }

  const EMPTY_INODE := Dinode(0, 0, [0, 0], 0, 0, [0, 0, 0, 0, 0, 0], NO_BLOCKS)

  /** The root directory: three links, 32 bytes, and block isize. */
  function RootInode(isize: Word): Dinode {
    EMPTY_INODE.(mode := F_DIR + 511, nlink := 3, sizeOff := 32, addr := NO_BLOCKS[0 := isize])
  }

  /** Inode 0, marked as in use. */
  const RESERVED_INODE := EMPTY_INODE.(mode := 0xFFFF, nlink := 1)

  /** Block 2: the reserved inode, the root directory and six free inodes. */
  function FirstInodes(isize: Word): Block {
    EncodeInode(EncodeInode(ZERO_BLOCK, 0, RESERVED_INODE), 1, RootInode(isize))
  }

  /** The root directory's block: entries "." and ".." for inode 1. */
  function DirBlock(): Block {
    ZERO_BLOCK[0 := 1][2 := 46][16 := 1][18 := 46][19 := 46]
  }

  /** The image as a disk. */
  function DiskOf(img: seq<Block>): Disk {
    (w: Word) => if w < |img| then img[w] else ZERO_BLOCK
  }

  /** hi - 1, ..., lo: the free stack after freeing them in that order. */
  function Descending(hi: int, lo: int): (s: seq<Word>)
    requires 0 <= lo <= hi <= 0x1_0000
    ensures |s| == hi - lo
    ensures forall i | 0 <= i < hi - lo :: s[i] == hi - 1 - i
    decreases hi - lo
  {
    if lo == hi then [] else Descending(hi, lo + 1) + [lo]
  }

  /** What mkfs leaves on the device. */
  ghost predicate FreshImage(d: Disk, isize: Word, fsize: Word) {
    && 3 <= fsize && 2 <= isize < fsize
    && Mountable(d, Descending(fsize, isize + 1))
    && SbIsize(d(1)) == isize && SbFsize(d(1)) == fsize && WordAt(d(1), 109) == ToWord(8 * (isize - 2) - 2)
    && WordAt(d(1), 54) == 0 && d(0) == ZERO_BLOCK && d(isize) == DirBlock()
    && (isize >= 3 ==> d(2) == FirstInodes(isize))
    && forall b: Word | 3 <= b < isize :: d(b) == ZERO_BLOCK
  }

  /** Mkfs. `behind` is the memory behind the free array, which each spill copies along, when
      so many blocks have been freed. The sizes are those that the command line check lets
      through. */
  method Mkfs(fsize: Word, isize: Word, behind: int -> Block) returns (img: array<Block>)
    requires 3 <= fsize && 2 <= isize < fsize
    ensures fresh(img) && img.Length == fsize
    ensures FreshImage(DiskOf(img[..]), isize, fsize)
  {
    hide GoodFreeList, SpillImage, FirstInodes, DirBlock, SuperBlock, Descending, WordAt, FreshImage;
    img := new Block[fsize](_ => ZERO_BLOCK);
    var nfree, tfree: int := 1, 0;
    var free := new Word[NFREE](_ => 0);
    ghost var stack: seq<Word> := [];
    EmptyFreeList(DiskOf(img[..]), isize, fsize, free[..]);
    DescendingStep(fsize, fsize);
    for j := fsize downto isize + 1
      invariant GoodFreeList(DiskOf(img[..]), isize, fsize, nfree, free[..], tfree, stack)
      invariant stack == Descending(fsize, j)
      invariant forall b | 0 <= b <= isize :: img[b] == ZERO_BLOCK
    {
      ghost var before, f := img[..], free[..];
      FreeListBounds(DiskOf(before), isize, fsize, nfree, f, tfree, stack);
      DescendingStep(fsize, j);
      PushNext(before, isize, fsize, nfree, f, tfree, stack, j, SpillImage(nfree, f, behind(tfree)));
      if nfree == NFREE {
        img[j] := SpillImage(nfree, free[..], behind(tfree));
        nfree := 0;
      }
      tfree := tfree + 1;
      free[nfree] := j;
      nfree := nfree + 1;
      stack := stack + [j];
      assert free[..] == f[nfree - 1 := free[nfree - 1]];
      assert img[..] == before[j := img[j]];
    }
    ghost var built := img[..];
    FreeListBounds(DiskOf(built), isize, fsize, nfree, free[..], tfree, stack);
    img[2] := FirstInodes(isize);
    img[isize] := DirBlock();
    img[1] := SuperBlock(PutWord(ZERO_BLOCK, 0, SMOUNTED), isize, fsize, nfree, free[..], tfree,
                         ToWord(8 * (isize - 2) - 2));
    ImageDone(built, img[..], isize, fsize, nfree, free[..], tfree);
  }

  /** The last three writes make the image complete. */
  lemma {:induction false} ImageDone(
      built: seq<Block>, img: seq<Block>, isize: Word, fsize: Word, nfree: Word, free: seq<Word>, tfree: Word)
    requires |built| == |img| == fsize && 3 <= fsize && 2 <= isize < fsize && |free| == NFREE
    requires GoodFreeList(DiskOf(built), isize, fsize, nfree, free, tfree, Descending(fsize, isize + 1))
    requires forall b | 0 <= b <= isize :: built[b] == ZERO_BLOCK
    requires img == built[2 := FirstInodes(isize)][isize := DirBlock()]
                    [1 := SuperBlock(PutWord(ZERO_BLOCK, 0, SMOUNTED), isize, fsize, nfree, free, tfree,
                                     ToWord(8 * (isize - 2) - 2))]
    ensures FreshImage(DiskOf(img), isize, fsize)
  {
    hide GoodFreeList, FirstInodes, DirBlock, SuperBlock, Descending, WordAt;
    SuperBlockFields(PutWord(ZERO_BLOCK, 0, SMOUNTED), isize, fsize, nfree, free, tfree, ToWord(8 * (isize - 2) - 2));
    NoneCached();
    LowBlocksDiffer(built, img, isize, fsize, nfree, free, tfree);
  }

  lemma {:induction false} NoneCached()
    ensures WordAt(PutWord(ZERO_BLOCK, 0, SMOUNTED), 54) == 0
  {
  }

  /** The blocks up to isize can be written without harm to the free list. */
  lemma {:induction false} LowBlocksDiffer(
      img: seq<Block>, img': seq<Block>, isize: Word, fsize: Word, nfree: int, free: seq<Word>, tfree: int)
    requires |img| == |img'| == fsize && 2 <= isize < fsize
    requires GoodFreeList(DiskOf(img), isize, fsize, nfree, free, tfree, Descending(fsize, isize + 1))
    requires forall b | isize < b < fsize :: img'[b] == img[b]
    ensures GoodFreeList(DiskOf(img'), isize, fsize, nfree, free, tfree, Descending(fsize, isize + 1))
  {
    hide GoodFreeList;
    FreeListFrame(DiskOf(img), DiskOf(img'), isize, fsize, nfree, free, tfree, Descending(fsize, isize + 1));
  }

  lemma {:induction false} DescendingStep(hi: int, lo: int)
    requires 0 <= lo <= hi <= 0x1_0000
    ensures lo == hi ==> Descending(hi, lo) == []
    ensures lo < hi ==> Descending(hi, lo) == Descending(hi, lo + 1) + [lo]
  {
  }

  /** One round of the countdown: block j is pushed, and written if the array is full. */
  lemma {:induction false} PushNext(
      img: seq<Block>, isize: Word, fsize: Word, nfree: int, free: seq<Word>, tfree: int, stack: seq<Word>, j: Word,
        image: Block)
    requires |img| == fsize && isize <= j < fsize && j !in stack
    requires GoodFreeList(DiskOf(img), isize, fsize, nfree, free, tfree, stack)
    requires nfree == NFREE ==> SpillBlock(image, NFREE, free)
    ensures 1 <= nfree <= NFREE && |free| == NFREE
    ensures if nfree < NFREE then GoodFreeList(DiskOf(img), isize, fsize, nfree + 1, free[nfree := j], tfree + 1,
                                               stack + [j])
            else GoodFreeList(DiskOf(img[j := image]), isize, fsize, 1, free[0 := j], tfree + 1, stack + [j])
  {
    hide GoodFreeList;
    PushBlock(DiskOf(img), isize, fsize, nfree, free, tfree, stack, j, image);
    if nfree == NFREE {
      FreeListFrame(Write(DiskOf(img), j, image), DiskOf(img[j := image]), isize, fsize, 1, free[0 := j], tfree + 1,
                    stack + [j]);
    }
  }

  // ----- What a fresh image is -----

  /** The blocks behind block isize were taken in ascending order, and zeroed. */
  ghost predicate Taken(d: Disk, d': Disk, isize: Word, got: seq<Word>) {
    && (forall i | 0 <= i < |got| :: got[i] == isize + 1 + i && d'(got[i]) == ZERO_BLOCK)
    && (forall b: Word | b !in got :: d'(b) == d(b))
  }

  lemma {:induction false} TakenMore(d: Disk, d': Disk, isize: Word, got: seq<Word>, b: Word)
    requires Taken(d, d', isize, got) && b == isize + 1 + |got|
    ensures Taken(d, Write(d', b, ZERO_BLOCK), isize, got + [b])
  {
  }

  /** Allocating until nothing is left, on a volume mounted on a fresh image: the blocks behind
      the root directory's come in ascending order, and then ENOSPC. */
  method AllocateAll(cache: Cache, dev: int, isize: Word, fsize: Word) returns (vol: Vol?, got: seq<Word>)
    requires cache.Valid() && ValidDev(dev) && cache.held == map[] && FreshImage(cache.logical[dev], isize, fsize)
    modifies cache, cache.pool
    ensures vol != null && fresh(vol) && fresh(vol.free) && vol.cache == cache && vol.Valid() && vol.error == ENOSPC
    ensures |got| == fsize - isize - 1 && Taken(old(cache.logical[dev]), vol.disk, isize, got)
  {
    hide Consistent, GoodFreeList, Mountable, NoDup, FreshImage, Descending, Taken, Write, OtherDevices;
    FreshIsMountable(cache.logical[dev], isize, fsize);
    ghost var d, all := cache.logical[dev], Descending(fsize, isize + 1);
    assert !IsHeld(cache.held, Key(dev, 1));
    var sb;
    vol, sb := Fmount(cache, dev, all);
    got := [];
    NothingTaken(d, isize);
    NothingHeld(dev, vol.stack);
    LowestLast(all, isize, 0);
    var b := vol.BlkAlloc();
    TakenMore(d, d, isize, got, isize + 1);
    while b != 0
      invariant vol.Valid() && cache.held == map[]
      invariant if b == 0 then |got| == |all| && vol.stack == [] && vol.error == ENOSPC
                && Taken(d, vol.disk, isize, got)
                else |got| < |all| && vol.stack == all[..|all| - |got| - 1] && Taken(d, vol.disk, isize, got + [b])
      decreases |all| - |got|, b
    {
      got := got + [b];
      NothingHeld(dev, vol.stack);
      LowestLast(all, isize, |got|);
      ghost var d1 := vol.disk;
      b := vol.BlkAlloc();
      if b != 0 {
        TakenMore(d, d1, isize, got, b);
      }
    }
  }

  lemma {:induction false} NothingTaken(d: Disk, isize: Word)
    ensures Taken(d, d, isize, [])
  {
  }

  /** What is left of the free stack after taken blocks have come off, and its top. */
  lemma {:induction false} LowestLast(all: seq<Word>, isize: Word, taken: int)
    requires 0 <= taken <= |all| && forall i | 0 <= i < |all| :: all[i] == isize + |all| - i
    ensures taken == 0 ==> all[..|all| - taken] == all
    ensures var s := all[..|all| - taken];
            (s == [] <==> taken == |all|)
              && (s != [] ==> Top(s) == isize + 1 + taken && s[..|s| - 1] == all[..|all| - taken - 1])
  {
  }

  lemma {:induction false} FreshIsMountable(d: Disk, isize: Word, fsize: Word)
    requires FreshImage(d, isize, fsize)
    ensures 2 <= isize < fsize && SbIsize(d(1)) == isize && SbFsize(d(1)) == fsize
    ensures Mountable(d, Descending(fsize, isize + 1)) && IsFilesystem(d(1))
    ensures var s := Descending(fsize, isize + 1);
            |s| == fsize - isize - 1 && forall i | 0 <= i < |s| :: s[i] == isize + |s| - i
  {
    hide Chain, NoDup;
  }

  /** The addresses stored in the inodes of a fresh image: only the root directory has any. */
  lemma {:induction false} FreshAddresses(d: Disk, isize: Word, fsize: Word, n: int)
    requires FreshImage(d, isize, fsize) && isize >= 3 && 0 <= n < 8 * (isize - 2)
    ensures DiskInodes(d, isize)[n] == if n == ROOTINODE then NO_BLOCKS[0 := isize] else NO_BLOCKS
  {
    hide Mountable, WordAt, EncodeInode, DecodeInode, Descending;
    EmptyNodes(n % 8);
    if n < 8 {
      EncodeDecode(ZERO_BLOCK, 0, RESERVED_INODE, n);
      EncodeDecode(EncodeInode(ZERO_BLOCK, 0, RESERVED_INODE), 1, RootInode(isize), n);
    }
  }

  lemma {:induction false} EmptyNodes(k: int)
    requires 0 <= k < 8
    ensures DecodeInode(ZERO_BLOCK, k).addr == NO_BLOCKS
  {
  }

  /** A fresh image puts every block in exactly one place exactly when there is an inode block:
      with isize == 2 the root directory's block belongs to no inode and is not free. */
  lemma {:induction false} FreshPartition(d: Disk, isize: Word, fsize: Word)
    requires FreshImage(d, isize, fsize)
    ensures var stack := Descending(fsize, isize + 1);
            isize >= 3 <==> exists owner :: Partition(d, DiskInodes(d, isize), owner, stack, isize, fsize)
  {
    var ino, s := DiskInodes(d, isize), Descending(fsize, isize + 1);
    if isize >= 3 {
      FreshOwner(d, isize, fsize);
    } else {
      forall owner
        ensures !Partition(d, ino, owner, s, isize, fsize)
      {
        hide Mountable;
        assert isize !in s;
        if isize in owner {
          assert !ValidPos(ino, owner[isize]);
        }
      }
    }
  }

  lemma {:induction false} FreshOwner(d: Disk, isize: Word, fsize: Word)
    requires FreshImage(d, isize, fsize) && isize >= 3
    ensures Partition(d, DiskInodes(d, isize), map[isize := Pos(ROOTINODE, 0, Root)], Descending(fsize, isize + 1),
                      isize, fsize)
  {
    hide Mountable, WordAt;
    var ino, owner, s := DiskInodes(d, isize), map[isize := Pos(ROOTINODE, 0, Root)], Descending(fsize, isize + 1);
    forall p: Pos | ValidPos(ino, p)
      ensures PtrAt(d, ino, p) == if p == Pos(ROOTINODE, 0, Root) then isize else 0
    {
      FreshAddresses(d, isize, fsize, p.n);
    }
    assert ValidPos(ino, owner[isize]);
    forall b: Word | isize < b < fsize
      ensures b in s
    {
      assert s[fsize - 1 - b] == b;
    }
    assert forall i | 0 <= i < |s| :: isize < s[i] < fsize;
  }

  /** The invariant that every file operation keeps holds of a fresh image and an in-core
      table in which nothing is loaded. */
  lemma {:induction false} FreshLayout(d: Disk, isize: Word, fsize: Word, tab: seq<Cinode>)
    requires FreshImage(d, isize, fsize) && isize >= 3
    requires |tab| == ITABSIZE && forall s | 0 <= s < ITABSIZE :: tab[s] == Cinode(0, EMPTY_INODE, 0, false)
    ensures var m := Layout(DiskInodes(d, isize), map[isize := Pos(ROOTINODE, 0, Root)], Descending(fsize, isize + 1));
            GoodLayout(d, m, tab, isize, fsize)
  {
    FreshOwner(d, isize, fsize);
    hide Partition, Mountable, DecodeInode, Descending;
    assert forall n: Word | n < 8 * (isize - 2) :: DiskInodes(d, isize)[n] == DiskNode(d, n).addr;
  }
}
