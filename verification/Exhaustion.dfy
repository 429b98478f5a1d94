/** Running out of inode numbers (fs/filesys.c: i_alloc, i_open): what happens when the inode table is
    full, and when a rescan finds a number that is pending. */
module Exhaustion {
  import opened Types
  import opened BufferCache
  import opened FreeList
  import opened BlockMap
  import opened Volume
  import opened Inode
  import opened FileSystem
  import opened InodeTable
  import opened Mkfs
  import opened Pipe
  import opened Session
  import opened History
  import opened Lifetime
  import Links

  /** How many slots have references. */
  ghost function Taken(t: seq<Cinode>): int {
    if t == [] then 0 else Taken(t[..|t| - 1]) + if t[|t| - 1].refs > 0 then 1 else 0
  }

  lemma {:induction false} TakenAll(t: seq<Cinode>)
    ensures 0 <= Taken(t) <= |t|
    ensures Taken(t) < |t| <==> exists s :: 0 <= s < |t| && t[s].refs <= 0
  {
    if t != [] {
      var rest := t[..|t| - 1];
      TakenAll(rest);
      assert forall s | 0 <= s < |rest| :: rest[s] == t[s];
    }
  }

  lemma {:induction false} SameTaken(t: seq<Cinode>, t': seq<Cinode>)
    requires |t'| == |t| && forall s | 0 <= s < |t| :: t'[s].refs > 0 <==> t[s].refs > 0
    ensures Taken(t') == Taken(t)
  {
    if t != [] {
      SameTaken(t[..|t| - 1], t'[..|t| - 1]);
    }
  }

  lemma {:induction false} OneMoreTaken(t: seq<Cinode>, t': seq<Cinode>, ip: int)
    requires |t'| == |t| && 0 <= ip < |t| && t[ip].refs <= 0 < t'[ip].refs
    requires forall s | 0 <= s < |t| && s != ip :: t'[s].refs > 0 <==> t[s].refs > 0
    ensures Taken(t') == Taken(t) + 1
  {
    if ip == |t| - 1 {
      SameTaken(t[..ip], t'[..ip]);
    } else {
      OneMoreTaken(t[..|t| - 1], t'[..|t| - 1], ip);
    }
  }

  /** With exact numbers and a count that is not zero there is a free number. */
  lemma {:induction false} SomeUnused(
      d: Disk, isize: Word, ninode: int, sinode: seq<Word>, tinode: int, pending: set<Word>)
    requires GoodNumbers(d, isize, ninode, sinode, tinode, pending, true) && tinode > 0
    ensures exists n: Word :: n < 8 * (isize - 2) && !InUse(d, pending, n)
  {
    hide DiskNode, IsEmpty, NoDup, Untyped;
    var free := FreeSet(d, isize);
    if free <= pending {
      SubsetSize(free, pending);
    } else {
      var n :| n in free && n !in pending;
      assert !InUse(d, pending, n);
    }
  }

  /** The next new file, with exact numbers, a slot and a free number. */
  method NextFile(tab: Inodes, garbage: Block) returns (ip: int)
    requires tab.Ready() && tab.exact && Taken(tab.fs.itab[..]) < ITABSIZE
    requires tab.tinode > 0 && (tab.ninode == 0 ==> tab.pending == {})
    modifies tab, tab.sinode, tab.fs.itab, tab.fs.vol`disk, tab.fs.vol`error, tab.fs.vol.cache, tab.fs.vol.cache.pool
    ensures tab.Ready() && tab.exact && Taken(tab.fs.itab[..]) == old(Taken(tab.fs.itab[..])) + 1
    ensures tab.pending == old(tab.pending) && tab.tinode == old(tab.tinode) - 1
    ensures old(tab.ninode) > 0 ==> tab.ninode == old(tab.ninode) - 1
    ensures old(tab.ninode) == 0 && old(tab.tinode) < NINODES ==> tab.ninode == old(tab.tinode) - 1
    ensures OldSlots(old(tab.fs.itab[..]), tab.fs.itab[..])
  {
    hide GoodLayout, GoodNumbers, TableUses, InUse, DiskNode, Untouched, Current, LooksFree, IsEmpty, FreeSet, Settled;
    hide Inodes.Valid, Inodes.Intact, OtherDevices, SyncLeaves, Unreferenced, Allotted, Taken;
    tab.ReadyMeans();
    var fs := tab.fs;
    ghost var d, t, p := fs.vol.disk, fs.itab[..], tab.pending;
    SomeUnused(d, fs.vol.isize, tab.ninode, tab.sinode[..], tab.tinode, p);
    NumbersBounds(d, fs.vol.isize, tab.ninode, tab.sinode[..], tab.tinode, p, true, 0);
    NothingToSettle(t, p);
    TakenAll(t);
    SlotsAreNat(d, fs.layout, t, fs.vol.isize, fs.vol.fsize);
    assert forall s | 0 <= s < ITABSIZE :: t[s] == fs.itab[s];
    ghost var num;
    ip, num := tab.NewInode(garbage);
    if ip == -1 {
      Links.NotAllotted(d, t, p, true, old(tab.ninode), old(tab.tinode), fs.vol.disk, fs.vol.isize, num, tab.pending,
                        tab.exact, tab.tinode, tab.corrupt);
      assert false;
    }
    StillPending(p, tab.pending, num);
    tab.ReadyMeans();
    CountsFree(fs.vol.disk, fs.vol.isize, tab.ninode, tab.sinode[..], tab.tinode, tab.pending, true);
    OneMoreTaken(t, fs.itab[..], ip);
  }

  /** The slots with references hold what they held, and no mark was set. */
  ghost predicate OldSlots(t: seq<Cinode>, t': seq<Cinode>) {
    |t'| == |t| && forall s | 0 <= s < |t| && t[s].refs > 0 ::
      t'[s] == t[s].(dirty := t'[s].dirty) && (t'[s].dirty ==> t[s].dirty)
  }

  lemma {:induction false} StillPending(p: set<Word>, p': set<Word>, num: Word)
    requires num !in p && (p' == p - {num} || (p' <= p && p == {}))
    ensures p' == p
  {
    if p' == p - {num} {
      assert p - {num} == p;
    } else {
      SubsetSize(p', p);
    }
  }

  lemma {:induction false} NothingToSettle(t: seq<Cinode>, pending: set<Word>)
    ensures pending == {} ==> Settled(t, pending)
  {
  }

  // ----- A pipe's number -----

  /** A pipe on a system that has allocated nothing yet, with at most fifty free inodes. */
  method FirstPipe(tab: Inodes, garbage: Block) returns (ip: int, ghost num: Word)
    requires tab.Ready() && tab.exact && Taken(tab.fs.itab[..]) < ITABSIZE
    requires 0 < tab.tinode <= NINODES && tab.ninode == 0 && tab.pending == {}
    modifies tab, tab.sinode, tab.fs.itab, tab.fs.vol`disk, tab.fs.vol`error, tab.fs.vol.cache, tab.fs.vol.cache.pool
    ensures tab.Ready() && tab.exact && Taken(tab.fs.itab[..]) == old(Taken(tab.fs.itab[..])) + 1
    ensures tab.fs.Open(ip) && tab.fs.itab[ip].num == num && !tab.fs.itab[ip].dirty
    ensures tab.pending == {num} && tab.ninode == tab.tinode == old(tab.tinode) - 1
  {
    hide GoodLayout, GoodNumbers, TableUses, InUse, DiskNode, Untouched, Current, LooksFree, IsEmpty, FreeSet, Settled;
    hide Inodes.Valid, Inodes.Intact, OtherDevices, SyncLeaves, Unreferenced, Allotted, Taken, InPipe;
    tab.ReadyMeans();
    var fs := tab.fs;
    ghost var d, t, p := fs.vol.disk, fs.itab[..], tab.pending;
    SomeUnused(d, fs.vol.isize, tab.ninode, tab.sinode[..], tab.tinode, p);
    NothingToSettle(t, p);
    TakenAll(t);
    SlotsAreNat(d, fs.layout, t, fs.vol.isize, fs.vol.fsize);
    assert forall s | 0 <= s < ITABSIZE :: t[s] == fs.itab[s];
    ip, num := PipeInode(tab, garbage);
    Links.NotAllotted(d, t, p, true, old(tab.ninode), old(tab.tinode), fs.vol.disk, fs.vol.isize, num, tab.pending,
                      tab.exact, tab.tinode, tab.corrupt);
    AllottedMeans(d, t, p, true, old(tab.ninode), old(tab.tinode), fs.vol.disk, fs.vol.isize, num, tab.pending,
                  tab.exact, tab.tinode, tab.corrupt);
    assert ip != -1;
    tab.ReadyMeans();
    OnlyOne(tab.pending, num);
    CountsFree(fs.vol.disk, fs.vol.isize, tab.ninode, tab.sinode[..], tab.tinode, tab.pending, true);
    OneMoreTaken(t, fs.itab[..], ip);
  }

  lemma {:induction false} OnlyOne(p: set<Word>, num: Word)
    requires num in p && p <= {} + {num}
    ensures p == {num} && |p| == 1
  {
  }

  /** With a count of zero, an empty cache and a number that stays pending, asking for a new inode marks
      the superblock as corrupt. */
  method NoMore(tab: Inodes, garbage: Block, ghost num: Word)
    requires tab.Ready() && tab.tinode == 0 && tab.ninode == 0
    requires num in tab.pending && SyncLeaves(tab.fs.itab[..], num)
    modifies tab, tab.sinode, tab.fs.itab, tab.fs.vol`disk, tab.fs.vol`error, tab.fs.vol.cache, tab.fs.vol.cache.pool
    ensures tab.Intact() && tab.corrupt
    ensures forall n | n in old(tab.pending) && SyncLeaves(old(tab.fs.itab[..]), n) :: n in tab.pending
    ensures tab.pending <= FreeSet(tab.fs.vol.disk, tab.fs.vol.isize)
    ensures forall n | Unreferenced(old(tab.fs.itab[..]), n) :: Unreferenced(tab.fs.itab[..], n)
    ensures Untouched(old(tab.fs.vol.disk), tab.fs.layout.ino, old(tab.fs.itab[..]),
                      tab.fs.vol.disk, tab.fs.layout.ino, tab.fs.itab[..], {})
  {
    hide GoodLayout, GoodNumbers, TableUses, InUse, DiskNode, Untouched, Current, LooksFree, IsEmpty, Settled;
    hide Inodes.Valid, Inodes.Intact, OtherDevices, SyncLeaves, Unreferenced, Taken, Allotted, FreeSet;
    ghost var d, t, p := tab.fs.vol.disk, tab.fs.itab[..], tab.pending;
    ghost var exact := tab.exact;
    tab.ReadyMeans();
    SlotsAreNat(d, tab.fs.layout, t, tab.fs.vol.isize, tab.fs.vol.fsize);
    var ip;
    ghost var got;
    ip, got := tab.NewInode(garbage);
    assert ip == -1;
    tab.IntactMeans();
    CountsFree(tab.fs.vol.disk, tab.fs.vol.isize, tab.ninode, tab.sinode[..], tab.tinode, tab.pending, tab.exact);
    StaysCorrupt(d, t, p, exact, tab.fs.vol.disk, tab.fs.vol.isize, got, tab.pending, tab.exact, tab.tinode,
                 tab.corrupt, num);
    assert forall s | 0 <= s < ITABSIZE :: t[s] == old(tab.fs.itab[s]) && t[s].refs >= 0;
    forall n | Unreferenced(t, n)
      ensures Unreferenced(tab.fs.itab[..], n)
    {
      SameNumbers(t, tab.fs.itab[..], n);
    }
  }

  lemma {:induction false} SameNumbers(t: seq<Cinode>, t': seq<Cinode>, n: Word)
    requires |t'| == |t| && Unreferenced(t, n)
    requires forall s | 0 <= s < |t| :: t'[s].refs > 0 ==> t[s].refs > 0 && t'[s].num == t[s].num
    ensures Unreferenced(t', n)
  {
  }

  lemma {:induction false} StaysCorrupt(
      d: Disk, tab: seq<Cinode>, pending: set<Word>, exact: bool, d': Disk, isize: Word, got: Word,
      pending': set<Word>, exact': bool, tinode': int, corrupt: bool, num: Word)
    requires Allotted(d, tab, pending, exact, 0, 0, d', isize, got, pending', exact', tinode', corrupt)
    requires 2 <= isize && pending' <= FreeSet(d', isize) && num in pending && SyncLeaves(tab, num)
    ensures corrupt && forall n | n in pending && SyncLeaves(tab, n) :: n in pending'
  {
    hide Settled, SyncLeaves, InUse, Current, FreeSet, LooksFree;
    assert num in pending';
  }

  lemma {:induction false} LeavesClean(d: Disk, m: Layout, t: seq<Cinode>, lo: Word, hi: Word, ip: int)
    requires GoodLayout(d, m, t, lo, hi) && 0 <= ip < |t| && t[ip].num != 0 && !t[ip].dirty
    ensures SyncLeaves(t, t[ip].num)
  {
    hide Partition, DiskNode;
    assert forall s | 0 <= s < ITABSIZE && s != ip :: t[s].num != t[ip].num;
  }

  /** The system on a fresh disk. */
  method Start(devices: Storage, dev: int, isize: Word, fsize: Word) returns (sys: System)
    requires ValidDev(dev) && FreshImage(devices[dev], isize, fsize) && 3 <= isize <= 8193
    ensures fresh(sys) && fresh(sys.Parts()) && sys.tab.Ready() && sys.tab.exact && sys.tab.fs.vol.isize == isize
    ensures sys.tab.ninode == 0 && sys.tab.tinode == 8 * (isize - 2) - 2 && sys.tab.pending == {}
    ensures Taken(sys.tab.fs.itab[..]) == 0
  {
    hide SoundImage, FreshImage, Descending, DirBlock, IsFilesystem, NothingLoaded, WordAt, System.Good, System.Sound;
    hide Taken;
    hide System.Apart, GoodState, Inodes.Intact;
    FreshIsSound(devices[dev], isize, fsize);
    ghost var owner, stack, log := map[isize := Pos(ROOTINODE, 0, Root)], Descending(fsize, isize + 1),
      [Put(ROOTINODE, 0, DirBlock())];
    ImageSizes(devices[dev], isize, fsize, owner, stack, log, true, true);
    FreshCount(devices[dev], isize, fsize);
    sys := Boot(devices, dev, isize, fsize, owner, stack, log, true, true);
    sys.SoundIs();
    NothingTaken(sys.tab.fs.itab[..]);
  }

  lemma {:induction false} NothingTaken(t: seq<Cinode>)
    requires NothingLoaded(t)
    ensures Taken(t) == 0
  {
    NoneTaken(t);
  }

  lemma {:induction false} NoneTaken(t: seq<Cinode>)
    requires forall s | 0 <= s < |t| :: t[s].refs == 0
    ensures Taken(t) == 0
  {
    if t != [] {
      NoneTaken(t[..|t| - 1]);
    }
  }

  /** On a fresh disk with eight inodes: a pipe, five files, and one more file. The rescan for it finds
      the pipe's number, the count is zero, and the superblock is marked as corrupt. */
  method PipeAndFiles(devices: Storage, dev: int, fsize: Word, garbage: Block)
    returns (sys: System, pipe: int, ghost num: Word)
    requires ValidDev(dev) && FreshImage(devices[dev], 3, fsize)
    ensures sys.tab.Intact() && sys.tab.corrupt
    ensures num in sys.tab.pending && num in FreeSet(sys.tab.fs.vol.disk, 3)
  {
    hide GoodLayout, GoodNumbers, TableUses, FreshImage, Inodes.Valid, Inodes.Intact, Taken, SyncLeaves, Untouched;
    hide FreeSet, Unreferenced;
    sys := Start(devices, dev, 3, fsize);
    var tab := sys.tab;
    pipe, num := FirstPipe(tab, garbage);
    while tab.tinode > 0
      invariant tab.Ready() && tab.exact && tab.fs.Open(pipe) && tab.fs.itab[pipe].num == num
      invariant !tab.fs.itab[pipe].dirty && tab.pending == {num} && 0 <= tab.ninode == tab.tinode <= 5
      invariant Taken(tab.fs.itab[..]) == 6 - tab.tinode && tab.fs.vol.isize == 3
    {
      ghost var t := tab.fs.itab[..];
      assert t[pipe] == tab.fs.itab[pipe];
      var _ := NextFile(tab, garbage);
    }
    tab.ReadyMeans();
    LeavesClean(tab.fs.vol.disk, tab.fs.layout, tab.fs.itab[..], tab.fs.vol.isize, tab.fs.vol.fsize, pipe);
    NoMore(tab, garbage, num);
  }

  // ----- A full table -----

  /** Asking for a new inode with a full table: the number is taken, and lost to everybody. */
  method LoseNumber(tab: Inodes, garbage: Block) returns (ghost num: Word)
    requires tab.Ready() && tab.exact && Taken(tab.fs.itab[..]) == ITABSIZE && tab.ninode > 0
    modifies tab, tab.sinode, tab.fs.itab, tab.fs.vol`disk, tab.fs.vol`error, tab.fs.vol.cache, tab.fs.vol.cache.pool
    ensures tab.Ready() && tab.exact && Taken(tab.fs.itab[..]) == |tab.fs.itab[..]| == ITABSIZE
    ensures tab.ninode == old(tab.ninode) - 1 && tab.tinode == old(tab.tinode) - 1
    ensures num !in old(tab.pending) && tab.pending == old(tab.pending) + {num} && Unreferenced(tab.fs.itab[..], num)
    ensures OldSlots(old(tab.fs.itab[..]), tab.fs.itab[..])
  {
    hide GoodLayout, GoodNumbers, TableUses, InUse, DiskNode, Untouched, Current, LooksFree, IsEmpty, FreeSet, Settled;
    hide Inodes.Valid, Inodes.Intact, OtherDevices, SyncLeaves, Unreferenced, Allotted, Taken;
    tab.ReadyMeans();
    var fs := tab.fs;
    ghost var d, t, p, k := fs.vol.disk, fs.itab[..], tab.pending, tab.ninode;
    TakenAll(t);
    SlotsAreNat(d, fs.layout, t, fs.vol.isize, fs.vol.fsize);
    assert forall s | 0 <= s < ITABSIZE :: t[s] == fs.itab[s];
    var ip;
    ip, num := tab.NewInode(garbage);
    assert ip == -1;
    NumberGiven(d, t, p, k, old(tab.tinode), fs.vol.disk, fs.vol.isize, num, tab.pending, tab.exact, tab.tinode,
                tab.corrupt);
    SameTaken(t, fs.itab[..]);
  }

  lemma {:induction false} NumberGiven(
      d: Disk, tab: seq<Cinode>, pending: set<Word>, ninode: int, tinode: int,
      d': Disk, isize: Word, num: Word, pending': set<Word>, exact': bool, tinode': int, corrupt: bool)
    requires Allotted(d, tab, pending, true, ninode, tinode, d', isize, num, pending', exact', tinode', corrupt)
    requires ninode > 0
    ensures exact' && num != 0 && LooksFree(Current(d, tab, num)) && num !in pending && !corrupt
  {
    hide Settled, SyncLeaves, Current, FreeSet, LooksFree, DiskNode;
  }

  /** On a fresh disk with twenty-four inodes: twenty files fill the table. Two more requests fail and
      lose the last two numbers. The next one finds them on disk, the count is zero, and the superblock
      is marked as corrupt, although there are two free inodes. */
  method FullTable(devices: Storage, dev: int, fsize: Word, garbage: Block)
    returns (sys: System, ghost first: Word, ghost second: Word)
    requires ValidDev(dev) && FreshImage(devices[dev], 5, fsize)
    ensures sys.tab.Intact() && sys.tab.corrupt && first != second
    ensures forall n | n in {first, second} ::
              n in FreeSet(sys.tab.fs.vol.disk, 5) && Unreferenced(sys.tab.fs.itab[..], n)
  {
    hide GoodLayout, GoodNumbers, TableUses, FreshImage, Inodes.Valid, Inodes.Intact, Taken, SyncLeaves, Untouched;
    hide Unreferenced, FreeSet;
    sys := Start(devices, dev, 5, fsize);
    var tab := sys.tab;
    for i := 0 to ITABSIZE
      invariant tab.Ready() && tab.exact && tab.pending == {} && Taken(tab.fs.itab[..]) == i
      invariant tab.tinode == 22 - i && tab.ninode == (if i == 0 then 0 else 22 - i) && tab.fs.vol.isize == 5
    {
      var _ := NextFile(tab, garbage);
    }
    first := LoseNumber(tab, garbage);
    ghost var t := tab.fs.itab[..];
    second := LoseNumber(tab, garbage);
    StillLost(t, tab.fs.itab[..], first);
    LostStays(tab.fs.itab[..], first);
    LostStays(tab.fs.itab[..], second);
    NoMore(tab, garbage, second);
  }

  lemma {:induction false} StillLost(t: seq<Cinode>, t': seq<Cinode>, num: Word)
    requires OldSlots(t, t') && Taken(t) == |t| && Unreferenced(t, num)
    ensures Unreferenced(t', num)
  {
    TakenAll(t);
    forall s | 0 <= s < |t'|
      ensures t'[s].num != num
    {
      assert t[s].refs > 0 && t'[s].num == t[s].num;
    }
  }

  lemma {:induction false} LostStays(t: seq<Cinode>, num: Word)
    requires Unreferenced(t, num)
    ensures SyncLeaves(t, num)
  {
  }
}
