/** One mounted filesystem as a store of blocks: the superblock's free-block fields on top
    of the buffer cache (fs/filesys.c: blk_alloc, blk_free, freeblk).

    The exits that the source calls "corrupt" and the panics are proved unreachable. */
module Volume {
  import opened Types
  import opened BufferCache
  import opened FreeList
  import opened FreeOrder

  datatype Errno = OK | ENOSPC | ENODEV | EPIPE | ENFILE | EPERM

  /** No held buffer names a block of s. */
  ghost predicate NoneHeld(held: map<int, Hold>, dev: int, s: seq<Word>) {
    forall i | i in held && held[i].name.dev == dev :: held[i].name.blk !in s
  }

  lemma {:induction false} NothingHeld(dev: int, s: seq<Word>)
    ensures NoneHeld(map[], dev, s)
  {
  }

  lemma {:induction false} NotHeld(held: map<int, Hold>, dev: int, s: seq<Word>, b: Word)
    requires NoneHeld(held, dev, s) && b in s
    ensures NoneHeld(held, dev, [b])
  {
  }

  /** Only device dev differs. */
  ghost predicate OtherDevices(s: Storage, s': Storage, dev: int) {
    forall v | ValidDev(v) && v != dev :: s'[v] == s[v]
  }

  const SMOUNTED: Word := 12742

  /** The superblock structure as words of block 1. */
  function SbIsize(sb: Block): Word { WordAt(sb, 1) }
  function SbFsize(sb: Block): Word { WordAt(sb, 2) }
  function SbNfree(sb: Block): Word { WordAt(sb, 3) }
  function SbFree(sb: Block): seq<Word> { WordsOf(sb, 4, 4 + NFREE) }
  function SbTfree(sb: Block): Word { WordAt(sb, 108) }

  /** Free-list fields that store the free stack of a filesystem of isize and fsize. */
  ghost predicate GoodFreeList(d: Disk, isize: Word, fsize: Word, nfree: int, free: seq<Word>, tfree: int,
      stack: seq<Word>) {
    && 2 <= isize < fsize
    && Chain(d, nfree, free, stack)
    && NoDup(stack)
    && (forall b | b in stack :: isize <= b < fsize)
    && tfree == |stack|
  }

  /** A device whose block 1 is the superblock of a filesystem with this free stack. */
  ghost predicate Mountable(d: Disk, stack: seq<Word>) {
    var sb := d(1);
    && WordAt(sb, 0) == SMOUNTED
    && GoodFreeList(d, SbIsize(sb), SbFsize(sb), SbNfree(sb), SbFree(sb), SbTfree(sb), stack)
  }

  /** Only the blocks on the stack matter. */
  lemma {:induction false} FreeListFrame(
      d: Disk, d': Disk, isize: Word, fsize: Word, nfree: int, free: seq<Word>, tfree: int, stack: seq<Word>)
    requires GoodFreeList(d, isize, fsize, nfree, free, tfree, stack) && SameOn(d, d', stack)
    ensures GoodFreeList(d', isize, fsize, nfree, free, tfree, stack)
  {
    ChainFrame(d, d', nfree, free, stack);
  }

  /** Popping the top block and zeroing it. The last entry in core is the bottom marker, or
      a block that itself holds the next 50 entries. */
  lemma {:induction false} PopTop(
      d: Disk, isize: Word, fsize: Word, nfree: int, free: seq<Word>, tfree: int, stack: seq<Word>, top: Word)
    requires GoodFreeList(d, isize, fsize, nfree, free, tfree, stack)
    requires top == free[nfree - 1]
    ensures NoDup(stack) && (top == 0 <==> stack == [])
    ensures top == 0 ==> tfree == 0
    ensures top != 0 ==>
              && top == stack[|stack| - 1] && isize <= top < fsize && tfree > 0
              && (nfree == 1 ==> WordAt(d(top), 0) == NFREE)
              && GoodFreeList(Write(d, top, ZERO_BLOCK), isize, fsize, if nfree > 1 then nfree - 1 else NFREE,
                              if nfree > 1 then free else WordsOf(d(top), 1, 1 + NFREE), tfree - 1,
                                stack[..|stack| - 1])
  {
    if nfree > 1 {
      PopInCore(d, nfree, free, stack);
      TopOf(stack);
      ChainFrame(d, Write(d, top, ZERO_BLOCK), nfree - 1, free, stack[..|stack| - 1]);
    } else {
      PopRefills(d, free, stack);
      if top != 0 {
        TopOf(stack);
        ChainFrame(d, Write(d, top, ZERO_BLOCK), NFREE, WordsOf(d(top), 1, 1 + NFREE), stack[..|stack| - 1]);
      }
    }
  }

  /** Pushing a block with room in core. */
  lemma {:induction false} PushStays(
      d: Disk, isize: Word, fsize: Word, nfree: int, free: seq<Word>, tfree: int, stack: seq<Word>, blk: Word)
    requires GoodFreeList(d, isize, fsize, nfree, free, tfree, stack) && nfree < NFREE
    requires isize <= blk < fsize && blk !in stack
    ensures 1 <= nfree && |free| == NFREE
    ensures GoodFreeList(d, isize, fsize, nfree + 1, free[nfree := blk], tfree + 1, stack + [blk])
  {
    PushInCore(d, nfree, free, stack, blk);
  }

  /** Pushing a block that takes over a full array. */
  lemma {:induction false} PushMovesArray(
      d: Disk, isize: Word, fsize: Word, free: seq<Word>, tfree: int, stack: seq<Word>, blk: Word, image: Block)
    requires GoodFreeList(d, isize, fsize, NFREE, free, tfree, stack)
    requires isize <= blk < fsize && blk !in stack && SpillBlock(image, NFREE, free)
    ensures |free| == NFREE
    ensures GoodFreeList(Write(d, blk, image), isize, fsize, 1, free[0 := blk], tfree + 1, stack + [blk])
  {
    PushSpills(d, Write(d, blk, image), free, free[0 := blk], stack, blk);
  }

  /** One push as the loops of mkfs and fsck do it: a full array moves into the block first. */
  lemma {:induction false} PushBlock(
      d: Disk, isize: Word, fsize: Word, nfree: int, free: seq<Word>, tfree: int, stack: seq<Word>, blk: Word,
        image: Block)
    requires GoodFreeList(d, isize, fsize, nfree, free, tfree, stack)
    requires isize <= blk < fsize && blk !in stack
    requires nfree == NFREE && |free| == NFREE ==> SpillBlock(image, NFREE, free)
    ensures 1 <= nfree <= NFREE && |free| == NFREE
    ensures nfree < NFREE ==> GoodFreeList(d, isize, fsize, nfree + 1, free[nfree := blk], tfree + 1, stack + [blk])
    ensures nfree == NFREE ==>
            GoodFreeList(Write(d, blk, image), isize, fsize, 1, free[0 := blk], tfree + 1, stack + [blk])
  {
    hide GoodFreeList;
    FreeListBounds(d, isize, fsize, nfree, free, tfree, stack);
    if nfree < NFREE {
      PushStays(d, isize, fsize, nfree, free, tfree, stack, blk);
    } else {
      PushMovesArray(d, isize, fsize, free, tfree, stack, blk, image);
    }
  }

  lemma {:induction false} EmptyFreeList(d: Disk, isize: Word, fsize: Word, free: seq<Word>)
    requires |free| == NFREE && free[0] == 0 && 2 <= isize < fsize
    ensures GoodFreeList(d, isize, fsize, 1, free, 0, [])
  {
  }

  lemma {:induction false} FreeListBounds(
      d: Disk, isize: Word, fsize: Word, nfree: int, free: seq<Word>, tfree: int, stack: seq<Word>)
    requires GoodFreeList(d, isize, fsize, nfree, free, tfree, stack)
    ensures 2 <= isize && 1 <= nfree <= NFREE && |free| == NFREE && 0 <= tfree <= fsize - isize
  {
    assert forall i | 0 <= i < |stack| :: stack[i] in stack;
    StackIsSmall(stack, isize, fsize);
  }

  lemma {:induction false} OtherDevicesRefl(dev: int, s: Storage)
    ensures OtherDevices(s, s, dev)
  {
  }

  lemma {:induction false} OtherDevicesTrans(dev: int, s1: Storage, s2: Storage, s3: Storage)
    requires OtherDevices(s1, s2, dev) && OtherDevices(s2, s3, dev)
    ensures OtherDevices(s1, s3, dev)
  {
  }

  /** The tree with root blk can be freed: its blocks are data blocks that occur once, are
      not free and are in no held buffer. */
  ghost predicate Freeable(
      d: Disk, held: map<int, Hold>, dev: int, isize: Word, fsize: Word, stack: seq<Word>, blk: Word, level: nat)
  {
    && NoDup(stack + Order(d, blk, level))
    && (forall b | b in Order(d, blk, level) :: 0 < isize <= b < fsize)
    && NoneHeld(held, dev, Order(d, blk, level))
  }

  /** With the root held and the later entries freed, the tree of entry j can be freed. */
  lemma {:induction false} KidFreeable(
      d: Disk, now: Disk, held: map<int, Hold>, dev: int, isize: Word, fsize: Word, stack: seq<Word>, blk: Word,
        level: nat,
      j: nat, i: int, h: Hold)
    requires Freeable(d, held, dev, isize, fsize, stack, blk, level) && 1 <= level && blk != 0 && j < 256
    requires SameOff(d, now, Kids(d, blk, level, j + 1)) && h.name == Key(dev, blk)
    ensures Freeable(now, held[i := h], dev, isize, fsize, stack + Kids(d, blk, level, j + 1), WordAt(d(blk), j),
                     level - 1)
    ensures Order(now, WordAt(d(blk), j), level - 1) == Order(d, WordAt(d(blk), j), level - 1)
    ensures Kids(d, blk, level, j) == Kids(d, blk, level, j + 1) + Order(d, WordAt(d(blk), j), level - 1)
  {
    hide Order, Kids, NoDup, WordAt;
    NextKid(d, now, blk, level, j, stack);
    KidsStep(d, blk, level, j);
  }

  /** With all entries freed, the root can be freed. */
  lemma {:induction false} RootFreeable(
      d: Disk, held: map<int, Hold>, dev: int, isize: Word, fsize: Word, stack: seq<Word>, blk: Word, level: nat)
    requires Freeable(d, held, dev, isize, fsize, stack, blk, level) && blk != 0
    ensures var kids := if level == 0 then [] else Kids(d, blk, level, 0);
            && Order(d, blk, level) == kids + [blk] && blk !in stack + kids
    ensures 0 < isize <= blk < fsize && NoneHeld(held, dev, [blk])
  {
    hide Kids, NoDup;
    OrderStep(d, blk, level);
    var kids := if level == 0 then [] else Kids(d, blk, level, 0);
    assert Order(d, blk, level) == kids + [blk];
    hide Order;
    RootIsLast(stack, kids, blk);
    assert blk in Order(d, blk, level);
  }

  lemma {:induction false} StoredAt(s: Storage, k: Key, b: Block)
    requires ValidDev(k.dev)
    ensures Store(s, k, b)[k.dev](k.blk) == b
  {
  }

  /** Writing back a buffer that names another block leaves this one's on the device. */
  lemma {:induction false} ReusedIsOther(pool: seq<Buf>, store: Storage, k: Key)
    requires |pool| == NBUFS && ValidDev(k.dev)
    ensures Find(pool, k) == -1 ==>
            forall i | 0 <= i < NBUFS :: WrittenBack(store, pool[i])[k.dev](k.blk) == Load(store, k)
  {
  }

  /** held is h with buffer i added, which holds block blk of device dev. */
  ghost predicate RootHeld(held: map<int, Hold>, h: map<int, Hold>, i: int, dev: int, blk: Word, data: Block) {
    i in held && held == h[i := held[i]] && held[i].name == Key(dev, blk) && held[i].data == data
  }

  lemma {:induction false} ConcatAssoc(s: seq<Word>, t: seq<Word>, u: seq<Word>)
    ensures s + t + u == s + (t + u)
    ensures s + [] == s
  {
  }

  lemma {:induction false} SameOffRefl(d: Disk, s: seq<Word>)
    ensures SameOff(d, d, s)
  {
  }

  lemma {:induction false} SameOffTrans(d1: Disk, d2: Disk, d3: Disk, s: seq<Word>, t: seq<Word>)
    requires SameOff(d1, d2, s) && SameOff(d2, d3, t)
    ensures SameOff(d1, d3, s + t)
  {
  }

  lemma {:induction false} LastReleased(i: int, h: Hold, held: map<int, Hold>)
    requires held == map[i := h]
    ensures held - {i} == map[]
  {
  }

  lemma {:induction false} FullSplice(b: Block, c: Block, off: int, data: seq<Byte>)
    requires 0 <= off && off + |data| <= 512 && |data| == 512
    ensures Splice(b, off, data) == Splice(c, off, data)
  {
    assert off == 0 && b[512..] == [] && c[512..] == [];
  }

  class Vol {
    const cache: Cache
    const dev: int
    const isize: Word
    const fsize: Word
    var nfree: int
    const free: array<Word>
    var tfree: int
    var behind: Block            // the 512 bytes of kernel memory that start at nfree
    var error: Errno
    ghost var disk: Disk         // the device as clients see it
    ghost var stack: seq<Word>   // the free blocks, next to be allocated last

    ghost function Repr(): set<object> {
      {this, free, cache, cache.pool}
    }

    /** The cache works and `disk` is what it shows of this device. */
    ghost predicate Linked()
      reads this, cache, cache.pool
    {
      && cache.Valid() && ValidDev(dev)
      && forall b: Word :: cache.logical[dev](b) == disk(b)
    }

    ghost predicate Valid()
      reads this, free, cache, cache.pool
    {
      && Linked() && free.Length == NFREE
      && GoodFreeList(disk, isize, fsize, nfree, free[..], tfree, stack)
    }

    /** The superblock's count of free blocks is right. */
    lemma StackIsTfree()
      requires Valid()
      ensures tfree == |stack| && 0 < isize < fsize
    {
    }

    /** The superblock structure sb of the device, copied into core. */
    constructor (cache: Cache, dev: int, sb: Block, ghost disk: Disk, ghost stack: seq<Word>)
      requires cache.Valid() && ValidDev(dev) && disk == cache.logical[dev] && sb == disk(1) && Mountable(disk, stack)
      ensures Valid() && fresh(free)
      ensures this.cache == cache && this.dev == dev && this.stack == stack && this.disk == disk
      ensures isize == SbIsize(sb) && fsize == SbFsize(sb) && error == OK
    {
      hide Consistent, Chain, NoDup;
      this.cache, this.dev := cache, dev;
      isize, fsize, nfree, tfree := SbIsize(sb), SbFsize(sb), SbNfree(sb), SbTfree(sb);
      free := new Word[NFREE](k requires 0 <= k < NFREE => WordAt(sb, 4 + k));
      error, behind := OK, sb;
      this.disk, this.stack := disk, stack;
      new;
      assert free[..] == SbFree(sb);
    }

    // ----- Buffers of this device -----

    method Bread(blk: Word, rewrite: int) returns (i: int)
      requires Linked() && 0 <= rewrite <= 2
      requires NoneHeld(cache.held, dev, [blk]) && |cache.held| < NBUFS
      modifies this`disk, cache, cache.pool
      ensures Linked() && i !in old(cache.held) && i in cache.held
      ensures cache.held == old(cache.held)[i := Hold(Key(dev, blk), disk(blk), cache.held[i].clean)]
      ensures rewrite == 0 ==> disk == old(disk) && cache.held[i].clean
      ensures forall b: Word | b != blk :: disk(b) == old(disk)(b)
      ensures OtherDevices(old(cache.logical), cache.logical, dev)
      ensures cache.store[dev](blk) == old(cache.store)[dev](blk)
    {
      ReusedIsOther(cache.pool[..], cache.store, Key(dev, blk));
      i := cache.Bread(Key(dev, blk), rewrite);
      if rewrite != 0 {
        disk := cache.logical[dev];
      }
    }

    method Put(i: int, b: Block)
      requires Linked() && i in cache.held && cache.held[i].name.dev == dev
      modifies this`disk, cache`logical, cache`held, cache.pool
      ensures Linked()
      ensures i in cache.held
      ensures cache.held == old(cache.held)[i := Hold(old(cache.held)[i].name, b, cache.held[i].clean)]
      ensures disk == Write(old(disk), old(cache.held)[i].name.blk, b)
      ensures OtherDevices(old(cache.logical), cache.logical, dev)
    {
      disk := Write(disk, cache.held[i].name.blk, b);
      cache.Put(i, b);
    }

    method Get(i: int) returns (b: Block)
      requires Linked() && i in cache.held
      ensures b == cache.held[i].data
    {
      b := cache.Get(i);
    }

    method Bfree(i: int, dirty: int)
      requires Linked() && i in cache.held && 0 <= dirty <= 2
      requires dirty == 0 ==> cache.held[i].clean
      modifies cache`store, cache`held, cache.pool
      ensures Linked() && cache.held == old(cache.held) - {i}
      ensures cache.logical == old(cache.logical)
      ensures cache.store == if dirty == 2
              then Store(old(cache.store), old(cache.held)[i].name, old(cache.held)[i].data)
                             else old(cache.store)
    {
      var _ := cache.Bfree(i, dirty);
    }

    /** Stores b in the one held buffer and releases it dirty, or written through (dirty == 2). */
    method PutBack(i: int, b: Block, dirty: int)
      requires Linked() && i in cache.held && cache.held == map[i := cache.held[i]] && cache.held[i].name.dev == dev
      requires 1 <= dirty <= 2
      modifies this`disk, cache, cache.pool
      ensures Linked() && cache.held == map[] && disk == Write(old(disk), old(cache.held)[i].name.blk, b)
      ensures OtherDevices(old(cache.logical), cache.logical, dev)
      ensures dirty == 2 ==> cache.store[dev](old(cache.held)[i].name.blk) == b
      ensures dirty == 1 ==> cache.store == old(cache.store)
    {
      hide Consistent, OtherDevices, Write;
      Put(i, b);
      LastReleased(i, cache.held[i], cache.held);
      StoredAt(cache.store, cache.held[i].name, b);
      Bfree(i, dirty);
    }

    /** Reads a block and releases it. */
    method ReadBlock(blk: Word) returns (b: Block)
      requires Linked() && cache.held == map[]
      modifies this`disk, cache, cache.pool
      ensures Linked() && cache.held == map[] && disk == old(disk) && b == disk(blk)
      ensures OtherDevices(old(cache.logical), cache.logical, dev)
    {
      hide Consistent, OtherDevices;
      NothingHeld(dev, [blk]);
      var i := Bread(blk, 0);
      b := cache.Get(i);
      LastReleased(i, cache.held[i], cache.held);
      Bfree(i, 0);
    }

    /** A block of zeroes from the cache, released at once. */
    method ReadZero() returns (b: Block)
      requires Linked() && cache.held == map[]
      modifies cache, cache.pool
      ensures Linked() && cache.held == map[] && b == ZERO_BLOCK && cache.logical == old(cache.logical)
    {
      hide Consistent;
      var i := cache.Zerobuf();
      b := cache.pool[i].data;
      var _ := cache.Bfree(i, 0);
    }

    /** Writes data into a block, starting at off; a block written in full is not read first. */
    method WriteInto(blk: Word, off: int, data: seq<Byte>)
      requires Linked() && cache.held == map[] && 0 <= off && off + |data| <= 512
      modifies this`disk, cache, cache.pool
      ensures Linked() && cache.held == map[] && disk == Write(old(disk), blk, Splice(old(disk)(blk), off, data))
      ensures OtherDevices(old(cache.logical), cache.logical, dev)
      ensures cache.store[dev](blk) == old(cache.store)[dev](blk)   // the write is delayed
    {
      hide Consistent, OtherDevices;
      NothingHeld(dev, [blk]);
      ghost var l := cache.logical;
      var i := Bread(blk, if |data| == 512 then 1 else 0);
      ghost var l1 := cache.logical;
      var buf := cache.Get(i);
      if |data| == 512 {
        FullSplice(buf, old(disk)(blk), off, data);
      }
      Put(i, Splice(buf, off, data));
      OtherDevicesTrans(dev, l, l1, cache.logical);
      LastReleased(i, cache.held[i], cache.held);
      Bfree(i, 1);
      disk := Write(old(disk), blk, Splice(old(disk)(blk), off, data));
    }

    /** Writes the superblock through. */
    method WriteSuper(image: Block)
      requires Linked() && cache.held == map[]
      modifies this`disk, cache, cache.pool
      ensures Linked() && cache.held == map[] && disk == Write(old(disk), 1, image)
      ensures OtherDevices(old(cache.logical), cache.logical, dev) && cache.store[dev](1) == image
    {
      hide Consistent, OtherDevices;
      NothingHeld(dev, [1]);
      ghost var l := cache.logical;
      var i := Bread(1, 1);
      ghost var l1 := cache.logical;
      PutBack(i, image, 2);
      OtherDevicesTrans(dev, l, l1, cache.logical);
      disk := Write(old(disk), 1, image);
    }

    /** Writes every dirty buffer: with no buffer held, the device then holds what clients see. */
    method Bufsync()
      requires Linked() && cache.held == map[]
      modifies cache`store
      ensures Linked() && forall b: Word :: cache.store[dev](b) == disk(b)
    {
      ghost var store := cache.store;
      cache.Bufsync();
      forall b: Word
        ensures cache.store[dev](b) == disk(b)
      {
        SyncMakesDevicesCurrent(cache.pool[..], store, cache.logical, cache.held, Key(dev, b));
      }
    }

    // ----- The free list -----

    /** Pops a free block and zeroes it; 0 means that there is none. */
    method BlkAlloc() returns (newno: Word)
      requires Valid() && |cache.held| < NBUFS && NoneHeld(cache.held, dev, stack)
      modifies Repr()
      ensures Valid() && cache.held == old(cache.held)
      ensures OtherDevices(old(cache.logical), cache.logical, dev)
      ensures old(stack) == [] ==> newno == 0 && stack == [] && disk == old(disk) && error == ENOSPC
      ensures old(stack) != [] ==>
                && newno == Top(old(stack)) != 0 && stack == old(stack)[..|old(stack)| - 1]
                && disk == Write(old(disk), newno, ZERO_BLOCK) && error == old(error)
    {
      hide GoodFreeList, Chain, NoDup, Consistent, NoneHeld, OtherDevices;
      FreeListBounds(disk, isize, fsize, nfree, free[..], tfree, stack);
      PopTop(disk, isize, fsize, nfree, free[..], tfree, stack, free[nfree - 1]);
      OtherDevicesRefl(dev, cache.logical);
      assert 0 < nfree <= NFREE;   // otherwise "corrupt"
      newno := free[nfree - 1];
      if newno == 0 {
        assert tfree == 0;         // otherwise "corrupt"
        error := ENOSPC;
      } else {
        Take(newno);
      }
    }

    /** The rest of blk_alloc, once it has found a block on top. */
    method Take(newno: Word)
      requires Valid() && |cache.held| < NBUFS && NoneHeld(cache.held, dev, stack)
      requires stack != [] && newno == Top(stack) && nfree >= 1 && newno == free[nfree - 1]
      modifies Repr()
      ensures Valid() && cache.held == old(cache.held)
      ensures OtherDevices(old(cache.logical), cache.logical, dev)
      ensures stack == old(stack)[..|old(stack)| - 1]
      ensures disk == Write(old(disk), newno, ZERO_BLOCK) && error == old(error)
    {
      hide GoodFreeList, Chain, NoDup, Consistent, NoneHeld, OtherDevices, WordAt, Write;
      ghost var d, f, s, l := disk, free[..], stack, cache.logical;
      FreeListBounds(d, isize, fsize, nfree, f, tfree, s);
      PopTop(d, isize, fsize, nfree, f, tfree, s, newno);
      TopOf(s);
      NotHeld(cache.held, dev, s, newno);
      OtherDevicesRefl(dev, l);
      nfree := nfree - 1;
      if nfree == 0 {
        ReloadFree(newno);
      }
      assert free[..] == if old(nfree) > 1 then f else WordsOf(d(newno), 1, 1 + NFREE);
      assert isize <= newno < fsize; // validblk
      assert tfree > 0;              // otherwise "corrupt"
      tfree := tfree - 1;
      ghost var reloaded := cache.logical;
      ClearBlock(newno);
      OtherDevicesTrans(dev, l, reloaded, cache.logical);
      stack := stack[..|stack| - 1];
    }

    /** Blk_alloc's refill: block blk holds the next superblock array. */
    method ReloadFree(blk: Word)
      requires Linked() && |cache.held| < NBUFS && NoneHeld(cache.held, dev, [blk]) && free.Length == NFREE
      modifies this`nfree, this`disk, free, cache, cache.pool
      ensures Linked() && cache.held == old(cache.held) && disk == old(disk)
      ensures OtherDevices(old(cache.logical), cache.logical, dev)
      ensures nfree == WordAt(disk(blk), 0) && free[..] == WordsOf(disk(blk), 1, 1 + NFREE)
    {
      hide Consistent, WordAt;
      var i := Bread(blk, 0);
      var buf := cache.Get(i);
      nfree := WordAt(buf, 0);
      for j := 0 to NFREE
        modifies free
        invariant forall k | 0 <= k < j :: free[k] == WordAt(buf, k + 1)
      {
        free[j] := WordAt(buf, j + 1);
      }
      Bfree(i, 0);
    }

    /** Blk_alloc's last step: zeroes the new block. */
    method ClearBlock(blk: Word)
      requires Linked() && |cache.held| < NBUFS && NoneHeld(cache.held, dev, [blk])
      modifies this`disk, cache, cache.pool
      ensures Linked() && cache.held == old(cache.held) && disk == Write(old(disk), blk, ZERO_BLOCK)
      ensures OtherDevices(old(cache.logical), cache.logical, dev)
    {
      hide Consistent;
      var i := Bread(blk, 2);
      Put(i, ZERO_BLOCK);
      Bfree(i, 1);
      disk := Write(old(disk), blk, ZERO_BLOCK);
    }

    /** Pushes a block that nobody uses; 0 is ignored. */
    method BlkFree(blk: Word)
      requires Valid() && |cache.held| < NBUFS && NoneHeld(cache.held, dev, [blk])
      requires blk != 0 ==> isize <= blk < fsize   // validblk
      requires blk !in stack
      modifies Repr()
      ensures Valid() && cache.held == old(cache.held)
      ensures OtherDevices(old(cache.logical), cache.logical, dev)
      ensures stack == if blk == 0 then old(stack) else old(stack) + [blk]
      ensures SameOff(old(disk), disk, [blk])
      ensures disk != old(disk) ==> blk != 0 && old(nfree) == NFREE && SpillBlock(disk(blk), NFREE, old(free[..]))
      ensures error == old(error)
    {
      hide GoodFreeList, Chain, NoDup, Consistent, NoneHeld, OtherDevices, SpillImage, WordAt;
      OtherDevicesRefl(dev, cache.logical);
      if blk == 0 {
        return;
      }
      FreeListBounds(disk, isize, fsize, nfree, free[..], tfree, stack);
      ghost var d, f := disk, free[..];
      if nfree < NFREE {
        PushStays(d, isize, fsize, nfree, f, tfree, stack, blk);
      } else {
        PushMovesArray(d, isize, fsize, f, tfree, stack, blk, SpillImage(nfree, f, behind));
      }
      if nfree == NFREE {
        SpillTo(blk);
        nfree := 0;
      }
      tfree := tfree + 1;
      free[nfree] := blk;
      nfree := nfree + 1;
      assert free[..] == f[nfree - 1 := blk];
      stack := stack + [blk];
    }

    /** Blk_free's spill: moves the superblock array into block blk. */
    method SpillTo(blk: Word)
      requires Linked() && |cache.held| < NBUFS && NoneHeld(cache.held, dev, [blk])
      requires free.Length == NFREE && 0 <= nfree <= NFREE
      modifies this`disk, cache, cache.pool
      ensures Linked() && cache.held == old(cache.held)
      ensures disk == Write(old(disk), blk, SpillImage(nfree, free[..], behind))
      ensures OtherDevices(old(cache.logical), cache.logical, dev)
    {
      hide Consistent, SpillImage;
      var i := Bread(blk, 1);
      Put(i, SpillImage(nfree, free[..], behind));
      Bfree(i, 1);
      disk := Write(old(disk), blk, SpillImage(nfree, free[..], behind));
    }

    /** Frees the tree with root blk: the entries of an indirect block from last to first,
        then the block itself. Holds one buffer per level of indirection. */
    method FreeBlk(blk: Word, level: int)
      requires Valid() && 0 <= level <= 2 && |cache.held| + level < NBUFS
      requires Freeable(disk, cache.held, dev, isize, fsize, stack, blk, level)
      modifies Repr()
      ensures Valid() && cache.held == old(cache.held)
      ensures OtherDevices(old(cache.logical), cache.logical, dev)
      ensures stack == old(stack) + Order(old(disk), blk, level)
      ensures SameOff(old(disk), disk, Order(old(disk), blk, level))
      ensures error == old(error)
      decreases level, 1
    {
      hide Order, Kids, NoDup, Chain, GoodFreeList, Consistent, OtherDevices, Freeable, NoneHeld, SameOff, WordAt;
      ghost var d, s, l := disk, stack, cache.logical;
      OtherDevicesRefl(dev, l);
      SameOffRefl(d, []);
      OrderStep(d, blk, level);
      ConcatAssoc(s, [], []);
      if blk == 0 {
        return;
      }
      RootFreeable(d, cache.held, dev, isize, fsize, s, blk, level);
      ghost var kids := [];
      if level > 0 {
        FreeEntries(blk, level);
        kids := Kids(d, blk, level, 0);
      }
      ghost var l', d' := cache.logical, disk;
      BlkFree(blk);
      OtherDevicesTrans(dev, l, l', cache.logical);
      SameOffTrans(d, d', disk, kids, [blk]);
      ConcatAssoc(s, kids, [blk]);
    }

    /** Freeblk on an indirect block, up to and including its release. */
    method FreeEntries(blk: Word, level: int)
      requires Valid() && 1 <= level <= 2 && |cache.held| + level < NBUFS && blk != 0
      requires Freeable(disk, cache.held, dev, isize, fsize, stack, blk, level)
      modifies Repr()
      ensures Valid() && cache.held == old(cache.held)
      ensures OtherDevices(old(cache.logical), cache.logical, dev)
      ensures stack == old(stack) + Kids(old(disk), blk, level, 0)
      ensures SameOff(old(disk), disk, Kids(old(disk), blk, level, 0))
      ensures error == old(error)
      decreases level, 0, 1
    {
      hide GoodFreeList, Chain, NoDup, Consistent, Freeable, NoneHeld, Kids, Order, SameOff;
      ghost var h, l := cache.held, cache.logical;
      RootFreeable(disk, h, dev, isize, fsize, stack, blk, level);
      var i := Bread(blk, 0);
      assert cache.held == h[i := cache.held[i]] && |cache.held| == |h| + 1;
      FreeLoop(i, blk, level, h);
      Bfree(i, 0);
    }

    /** Freeblk's loop: buffer i holds the indirect block; h is what was held before. */
    method FreeLoop(i: int, blk: Word, level: int, ghost h: map<int, Hold>)
      requires Valid() && 1 <= level <= 2 && |cache.held| + level <= NBUFS && blk != 0
      requires RootHeld(cache.held, h, i, dev, blk, disk(blk))
      requires Freeable(disk, h, dev, isize, fsize, stack, blk, level)
      modifies Repr()
      ensures Valid() && cache.held == old(cache.held)
      ensures OtherDevices(old(cache.logical), cache.logical, dev)
      ensures stack == old(stack) + Kids(old(disk), blk, level, 0)
      ensures SameOff(old(disk), disk, Kids(old(disk), blk, level, 0))
      ensures error == old(error)
      decreases level, 0, 0, 1
    {
      hide Order, Kids, NoDup, Chain, GoodFreeList, Consistent, OtherDevices, Freeable, NoneHeld, SameOff, WordAt;
      hide Vol.Valid, Vol.Linked, RootHeld;
      ghost var d, s, l, e, held := disk, stack, cache.logical, error, cache.held;
      KidsStep(d, blk, level, 256);
      ConcatAssoc(s, [], []);
      OtherDevicesRefl(dev, l);
      SameOffRefl(d, []);
      for j := 256 downto 0
        invariant Valid() && cache.held == held
        invariant stack == s + Kids(d, blk, level, j)
        invariant SameOff(d, disk, Kids(d, blk, level, j))
        invariant OtherDevices(l, cache.logical, dev)
        invariant error == e
      {
        FreeEntry(i, blk, level, j, h, d, s, l);
      }
    }

    /** One round of freeblk's loop, where d, s and l are the disk, the free stack and the
        devices before the loop. */
    method FreeEntry(i: int, blk: Word, level: int, j: int, ghost h: map<int, Hold>, ghost d: Disk, ghost s: seq<Word>,
        ghost l: Storage)
      requires Valid() && 1 <= level <= 2 && |cache.held| + level <= NBUFS && blk != 0 && 0 <= j < 256
      requires RootHeld(cache.held, h, i, dev, blk, d(blk))
      requires Freeable(d, h, dev, isize, fsize, s, blk, level)
      requires stack == s + Kids(d, blk, level, j + 1) && SameOff(d, disk, Kids(d, blk, level, j + 1))
      requires OtherDevices(l, cache.logical, dev)
      modifies Repr()
      ensures Valid() && cache.held == old(cache.held)
      ensures OtherDevices(l, cache.logical, dev)
      ensures stack == s + Kids(d, blk, level, j)
      ensures SameOff(d, disk, Kids(d, blk, level, j))
      ensures error == old(error)
      decreases level, 0, 0, 0
    {
      hide Order, Kids, NoDup, Chain, GoodFreeList, Consistent, OtherDevices, Freeable, NoneHeld, SameOff, WordAt;
      ghost var l', d', freed := cache.logical, disk, Kids(d, blk, level, j + 1);
      KidFreeable(d, d', h, dev, isize, fsize, s, blk, level, j, i, cache.held[i]);
      var buf := Get(i);
      var next := WordAt(buf, j);
      ghost var tree := Order(d, next, level - 1);
      assert Order(d', next, level - 1) == tree && Kids(d, blk, level, j) == freed + tree;
      FreeBlk(next, level - 1);
      ConcatAssoc(s, freed, tree);
      OtherDevicesTrans(dev, l, l', cache.logical);
      SameOffTrans(d, d', disk, freed, tree);
    }
  }

  /** Fmount: reads the superblock, and mounts the device if there is a filesystem on it. sb is
      what it copies into the mount table. */
  method Fmount(cache: Cache, dev: int, ghost stack: seq<Word>) returns (vol: Vol?, sb: Block)
    requires cache.Valid() && ValidDev(dev) && |cache.held| < NBUFS && !IsHeld(cache.held, Key(dev, 1))
    requires IsFilesystem(cache.logical[dev](1)) ==> Mountable(cache.logical[dev], stack)
    modifies cache, cache.pool
    ensures cache.Valid() && cache.held == old(cache.held) && cache.logical == old(cache.logical)
    ensures sb == cache.logical[dev](1)
    ensures vol == null <==> !IsFilesystem(sb)
    ensures vol != null ==>
              && vol.Valid() && fresh(vol) && fresh(vol.free) && vol.error == OK
              && vol.cache == cache && vol.dev == dev && vol.stack == stack && vol.disk == cache.logical[dev]
              && vol.isize == SbIsize(sb) && vol.fsize == SbFsize(sb)
  {
    hide Consistent, Mountable;
    var i := cache.Bread(Key(dev, 1), 0);
    HeldAgain(old(cache.held), i, cache.held[i]);
    sb := cache.Get(i);
    var _ := cache.Bfree(i, 0);
    if WordAt(sb, 0) != SMOUNTED || SbIsize(sb) >= SbFsize(sb) {
      return null, sb;
    }
    vol := new Vol(cache, dev, sb, cache.logical[dev], stack);
  }

  /** The superblock has the magic number and sizes that can be. */
  predicate IsFilesystem(sb: Block) {
    WordAt(sb, 0) == SMOUNTED && SbIsize(sb) < SbFsize(sb)
  }

  lemma {:induction false} HeldAgain(held: map<int, Hold>, i: int, h: Hold)
    requires i !in held
    ensures held[i := h] - {i} == held
  {
  }
}
