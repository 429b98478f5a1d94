/** Whole runs: a system that was started on a disk serves any sequence of calls on files,
    directories and pipes. Each call does what its system call does once its checks have passed
    (kernel/scall1.c, fs/filesys.c); a call whose checks fail does nothing. */
module Session {
  import opened Types
  import opened BufferCache
  import opened FreeOrder
  import opened BlockMap
  import opened Volume
  import opened Inode
  import opened FileBytes
  import opened FileSystem
  import opened InodeTable
  import opened Directory
  import opened Links
  import opened Pipe
  import opened History

  /** The system calls of a run, with inodes as slots of the table and pipes as numbered. `again` is
      an attempt that goes on after a sleep. */
  datatype Call =
    | Open(n: Word)
    | Create(wd: int, name: seq<Byte>)
    | Remove(wd: int, name: seq<Byte>)
    | Close(ip: int)
    | Truncate(ip: int)
    | ReadAt(ip: int, o: Off, count: Word)
    | WriteAt(ip: int, o: Off, count: Word)
    | MakePipe
    | ReadPipe(k: int, count: Word, again: bool)
    | WritePipe(k: int, count: Word, again: bool)
    | CloseEnd(k: int, write: bool)
    | SyncAll

  /** A write ends where file sizes and fsck's loops can follow it. */
  predicate InRange(call: Call) {
    call.WriteAt? ==> Position(call.o) + call.count < 512 * 0xFFFF
  }

  /** The name field that _unlink leaves. */
  const NO_NAME: seq<Byte> := Nuls()

  function Nuls(): (s: seq<Byte>)
    ensures |s| == NAMELEN && forall i | 0 <= i < NAMELEN :: s[i] == 0
  {
    seq(NAMELEN, _ => 0)
  }

  /** The call names inode x: by a slot, as the directory or by the name in it, by a pipe, or as an
      inode that is not in use. */
  ghost predicate MayTouch(call: Call, d: Disk, t: seq<Cinode>, ps: seq<Ends>, x: int) {
    match call
    case Open(_) => false
    case Create(wd, _) => x == NumAt(t, wd) || (0 < x < 0x1_0000 && LooksFree(Current(d, t, x)))
    case Remove(wd, name) =>
      OpenDirectory(t, wd) && (x == NumAt(t, wd) || Listed(EntriesOf(d, t[wd].node.addr), Name(name), x))
    case Close(ip) => x == NumAt(t, ip)
    case Truncate(ip) => x == NumAt(t, ip)
    case ReadAt(_, _, _) => false
    case WriteAt(ip, _, _) => x == NumAt(t, ip)
    case MakePipe => 0 < x < 0x1_0000 && LooksFree(Current(d, t, x))
    case ReadPipe(k, _, _) => x == PipeNum(t, ps, k)
    case WritePipe(k, _, _) => x == PipeNum(t, ps, k)
    case CloseEnd(k, _) => x == PipeNum(t, ps, k)
    case SyncAll => false
  }

  /** special are the inode numbers of the pipes. */
  ghost predicate NumbersOf(tab: seq<Cinode>, ps: seq<Ends>, special: set<int>) {
    forall n: int :: n in special <==> IsNumber(tab, ps, n)
  }

  ghost predicate IsNumber(tab: seq<Cinode>, ps: seq<Ends>, n: int) {
    exists k :: 0 <= k < |ps| && 0 <= ps[k].ip < |tab| && tab[ps[k].ip].num == n
  }

  /** The invariant of a run: pipes work, each in its own slot; only their inodes are handed out
      and not written; inode 0 and the boot block are as mkfs made them; the other inodes hold what
      the log says. */
  ghost predicate GoodState(
      d: Disk, ino: seq<Addr>, tab: seq<Cinode>, ps: seq<Ends>, special: set<int>,
      log: seq<Change>, ranged: bool)
  {
    && (forall k | 0 <= k < |ps| :: GoodPipeEnds(d, tab, ps[k]))
    && (forall j, k | 0 <= j < k < |ps| :: ps[j].ip != ps[k].ip)
    && NumbersOf(tab, ps, special)
    && d(0) == ZERO_BLOCK && OwnsNothing(d, ino, 0) && FilesGood(d, ino, tab, special, log, ranged)
  }

  /** A pipe's slot and number are nobody else's. */
  lemma {:induction false} PipeIsApart(
      d: Disk, m: Layout, tab: seq<Cinode>, lo: Word, hi: Word, ps: seq<Ends>, special: set<int>,
      log: seq<Change>, ranged: bool, k: int, s: int)
    requires GoodLayout(d, m, tab, lo, hi) && 0 <= k < |ps| && 0 <= s < |tab|
    requires GoodState(d, m.ino, tab, ps, special, log, ranged)
    ensures |tab| == ITABSIZE && 0 <= ps[k].ip < |tab| && GoodPipeEnds(d, tab, ps[k]) && tab[ps[k].ip].refs > 0
    ensures 0 < tab[ps[k].ip].num < |m.ino| && tab[ps[k].ip].num as int in special
    ensures s != ps[k].ip && tab[s].num != 0 ==> tab[s].num != tab[ps[k].ip].num
  {
    hide Unread, InPipe, Pointers, Sleeping, OwnsNothing, FilesGood, InUse, Partition, DiskNode;
    var ip := ps[k].ip;
    SlotOfTable(d, m, tab, lo, hi, ip);
    assert tab[ip].refs > 0;
    if s != ip && tab[s].num != 0 {
      DistinctSlots(d, m, tab, lo, hi, s, ip);
    }
  }

  /** The invariant after a step that changed the inodes in ex and, unless which is -1, that pipe. */
  lemma {:induction false} StateAfter(
      d: Disk, m: Layout, tab: seq<Cinode>, lo: Word, hi: Word, ps: seq<Ends>, special: set<int>,
      log: seq<Change>, ranged: bool, d': Disk, ino': seq<Addr>, tab': seq<Cinode>, ps': seq<Ends>,
      log': seq<Change>, ranged': bool, ex: set<int>, which: int)
    requires GoodLayout(d, m, tab, lo, hi) && GoodState(d, m.ino, tab, ps, special, log, ranged)
    requires |ps'| == |ps| && (forall k | 0 <= k < |ps| && k != which :: ps'[k] == ps[k]) && |tab'| == |tab|
    requires forall k | 0 <= k < |ps| && k != which :: tab'[ps[k].ip] == tab[ps[k].ip].(dirty := tab'[ps[k].ip].dirty)
    requires which == -1 || 0 <= which < |ps|
    requires which != -1 ==>
               && ps'[which].ip == ps[which].ip && GoodPipeEnds(d', tab', ps'[which])
               && tab'[ps[which].ip].num == tab[ps[which].ip].num
    requires Untouched(d, m.ino, tab, d', ino', tab', ex) && 0 !in ex
    requires forall n | n in ex && n in special :: which != -1 && n == tab[ps[which].ip].num
    requires log <= log' && (ranged' ==> ranged)
    requires forall i | |log| <= i < |log'| :: log'[i].n in ex
    requires forall n: Word | 0 < n < |m.ino| && n as int in ex && n as int !in special ::
               FileGood(d', ino', Current(d', tab', n), n, log', ranged')
    ensures GoodState(d', ino', tab', ps', special, log', ranged')
  {
    hide Unread, InPipe, Pointers, Sleeping, OwnsNothing, FilesGood, OtherFiles, OtherInodes, FileGood, Current;
    hide Coherent, Partition;
    forall k | 0 <= k < |ps|
      ensures GoodPipeEnds(d', tab', ps'[k])
    {
      if k != which {
        OtherNumber(d, m, tab, lo, hi, ps, k, which);
        assert tab[ps[k].ip].num as int in special;
        hide Untouched, GoodPipeEnds;
        PipeSurvives(d, m, tab, d', ino', tab', lo, hi, ex, ps[k]);
      }
    }
    BootBlock(d, m.ino, d', ino', ex);
    OwnsNothingStays(d, m.ino, d', ino', ex, 0);
    hide GoodPipeEnds;
    FilesAfter(d, m.ino, tab, d', ino', tab', ex, special, special, log, log', ranged, ranged');
  }

  lemma {:induction false} OtherNumber(
      d: Disk, m: Layout, tab: seq<Cinode>, lo: Word, hi: Word, ps: seq<Ends>, k: int, j: int)
    requires GoodLayout(d, m, tab, lo, hi) && 0 <= k < |ps| && GoodPipeEnds(d, tab, ps[k])
    requires forall i, l | 0 <= i < l < |ps| :: ps[i].ip != ps[l].ip
    requires 0 <= j < |ps| ==> GoodPipeEnds(d, tab, ps[j])
    ensures 0 <= j < |ps| && j != k ==> tab[ps[j].ip].num != tab[ps[k].ip].num
  {
    hide Unread, InPipe, Pointers, Sleeping, Partition, DiskNode;
    if 0 <= j < |ps| && j != k {
      assert ps[j].ip != ps[k].ip by {
        assert if j < k then true else k < j;
      }
      DistinctSlots(d, m, tab, lo, hi, ps[j].ip, ps[k].ip);
    }
  }

  lemma {:induction false} BootBlock(d: Disk, ino: seq<Addr>, d': Disk, ino': seq<Addr>, ex: set<int>)
    requires OtherFiles(d, ino, d', ino', ex)
    ensures d'(0) == d(0)
  {
  }

  lemma {:induction false} SlotsAreNat(d: Disk, m: Layout, t: seq<Cinode>, lo: Word, hi: Word)
    requires GoodLayout(d, m, t, lo, hi)
    ensures |t| == ITABSIZE && forall s | 0 <= s < ITABSIZE :: t[s].refs >= 0
  {
    hide Partition, DiskNode;
    assert forall s | 0 <= s < ITABSIZE :: SlotOk(t[s], m.ino, d);
  }

  /** An open slot that is not a pipe's. */
  lemma {:induction false} FileSlot(
      d: Disk, m: Layout, tab: seq<Cinode>, lo: Word, hi: Word, ps: seq<Ends>, special: set<int>,
      log: seq<Change>, ranged: bool, ip: int)
    requires GoodLayout(d, m, tab, lo, hi)
    requires GoodState(d, m.ino, tab, ps, special, log, ranged)
    requires 0 <= ip < |tab| && tab[ip].num != 0 && tab[ip].refs > 0 && !IsPipe(tab[ip].node)
    ensures |tab| == ITABSIZE && 0 < tab[ip].num < |m.ino| && tab[ip].num as int !in special
    ensures FileGood(d, m.ino, tab[ip].node, tab[ip].num, log, ranged)
    ensures forall k | 0 <= k < |ps| :: ps[k].ip != ip && 0 <= ps[k].ip < ITABSIZE
    ensures Current(d, tab, tab[ip].num) == tab[ip].node
  {
    hide Unread, Pointers, Sleeping, OwnsNothing, InUse, Partition, DiskNode, FileGood, Coherent, Current, TableUses;
    hide GoodLayout;
    SlotOfTable(d, m, tab, lo, hi, ip);
    SlotCurrent(d, m, tab, lo, hi, ip);
    if k :| 0 <= k < |ps| && 0 <= ps[k].ip < |tab| && tab[ps[k].ip].num == tab[ip].num {
      PipeIsApart(d, m, tab, lo, hi, ps, special, log, ranged, k, ip);
    }
  }

  /** An inode that looks free is no pipe's. */
  lemma {:induction false} UnusedNumber(
      d: Disk, m: Layout, tab: seq<Cinode>, lo: Word, hi: Word, ps: seq<Ends>, special: set<int>,
      log: seq<Change>, ranged: bool, n: Word)
    requires GoodLayout(d, m, tab, lo, hi) && n != 0 && LooksFree(Current(d, tab, n))
    requires GoodState(d, m.ino, tab, ps, special, log, ranged)
    ensures n as int !in special
  {
    hide Unread, Pointers, Sleeping, OwnsNothing, Partition, DiskNode, FilesGood, Coherent, Current, GoodLayout;
    StateSlots(d, m, tab, lo, hi, ps, special, log, ranged);
    if k :| 0 <= k < |ps| && 0 <= ps[k].ip < |tab| && tab[ps[k].ip].num == n {
      SlotCurrent(d, m, tab, lo, hi, ps[k].ip);
      PipeMode(tab[ps[k].ip].node);
    }
  }

  /** A slot whose inode has become empty. */
  lemma {:induction false} EmptySlot(d: Disk, m: Layout, tab: seq<Cinode>, lo: Word, hi: Word, ip: int,
      log: seq<Change>, ranged: bool)
    requires GoodLayout(d, m, tab, lo, hi) && 0 <= ip < |tab| && tab[ip].num > ROOTINODE && IsEmpty(tab[ip].node)
    requires Getmode(tab[ip].node.mode) != F_DIR && !IsPipe(tab[ip].node)
    ensures FileGood(d, m.ino, Current(d, tab, tab[ip].num), tab[ip].num, log + [Emptied(tab[ip].num)], ranged)
  {
    hide FileGood, Current, GoodLayout;
    SlotOfTable(d, m, tab, lo, hi, ip);
    SlotCurrent(d, m, tab, lo, hi, ip);
    EmptyGood(d, m.ino, tab[ip].node, tab[ip].num, log, ranged);
  }

  lemma {:induction false} FreeIsPlain(n: Dinode)
    requires LooksFree(n)
    ensures Getmode(n.mode) == 0 && !IsPipe(n) && !IsFile(n)
  {
  }

  /** The pipes as values. */
  ghost function StatesOf(pipes: seq<PipePair>): (ps: seq<Ends>)
    reads pipes
    ensures |ps| == |pipes| && forall k | 0 <= k < |pipes| :: ps[k] == pipes[k].State()
  {
    if pipes == [] then [] else StatesOf(pipes[..|pipes| - 1]) + [pipes[|pipes| - 1].State()]
  }

  class System {
    const tab: Inodes
    var pipes: seq<PipePair>
    ghost var log: seq<Change>      // the changes of files, in order
    ghost var ranged: bool          // all writes were in range
    ghost var special: set<int>     // the inode numbers of the pipes

    /** The objects that calls on files may change. */
    ghost function Parts(): set<object> {
      {this, tab, tab.sinode} + tab.fs.Repr()
    }

    ghost predicate Apart()
      reads this`pipes
    {
      && this !in {tab, tab.sinode} + tab.fs.Repr()
      && (forall k | 0 <= k < |pipes| :: pipes[k].tab == tab && pipes[k] !in Parts())
      && (forall j, k | 0 <= j < k < |pipes| :: pipes[j] != pipes[k])
    }

    ghost predicate Good()
      reads this, pipes, tab, tab.sinode, tab.fs, tab.fs.itab, tab.fs.vol, tab.fs.vol.free, tab.fs.vol.cache,
            tab.fs.vol.cache.pool
    {
      && Apart() && tab.Intact()
      && GoodState(tab.fs.vol.disk, tab.fs.layout.ino, tab.fs.itab[..], StatesOf(pipes), special, log, ranged)
    }

    /** Good, and the superblock is not marked as corrupt. */
    ghost predicate Sound()
      reads this, pipes, tab, tab.sinode, tab.fs, tab.fs.itab, tab.fs.vol, tab.fs.vol.free, tab.fs.vol.cache,
            tab.fs.vol.cache.pool
    {
      Good() && !tab.corrupt
    }

    lemma SoundIs()
      ensures Sound() <==>
              && Apart() && tab.Ready()
              && GoodState(tab.fs.vol.disk, tab.fs.layout.ino, tab.fs.itab[..], StatesOf(pipes), special, log, ranged)
    {
      hide Apart, Inodes.Intact, GoodState;
    }

    lemma GoodIs()
      ensures Good() <==>
              && Apart() && tab.Intact()
              && GoodState(tab.fs.vol.disk, tab.fs.layout.ino, tab.fs.itab[..], StatesOf(pipes), special, log, ranged)
    {
      hide Apart, Inodes.Intact, GoodState;
    }

    lemma SoundIsGood()
      ensures Sound() <==> Good() && !tab.corrupt
    {
      hide Good;
    }

    /** What a call can see and change, apart from the disk. */
    ghost function Now(): Core
      reads this, pipes, tab, tab.sinode, tab.fs, tab.fs.itab, tab.fs.vol, tab.fs.vol.cache
    {
      Core(tab.fs.layout.ino, tab.fs.itab[..], tab.pending, tab.exact, tab.corrupt, tab.fs.vol.isize, tab.ninode,
           tab.tinode, StatesOf(pipes), log, ranged, tab.fs.vol.stack == [],
           ValidDev(tab.fs.vol.dev)
           && (forall b: Word :: tab.fs.vol.cache.store[tab.fs.vol.dev](b) == tab.fs.vol.disk(b))
           && Saved(tab.fs.vol.disk, tab.fs.vol.isize, tab.fs.vol.fsize, tab.fs.vol.stack, tab.ninode, tab.sinode[..],
                    tab.tinode))
    }

    lemma NowRanged()
      ensures Now().ranged == ranged
    {
    }

    lemma SoundTable()
      requires Sound()
      ensures |tab.fs.itab[..]| == ITABSIZE && forall s | 0 <= s < ITABSIZE :: tab.fs.itab[..][s].refs >= 0
    {
      hide GoodState, GoodLayout, GoodFreeList, GoodNumbers, TableUses, Consistent;
      SlotsAreNat(tab.fs.vol.disk, tab.fs.layout, tab.fs.itab[..], tab.fs.vol.isize, tab.fs.vol.fsize);
    }

    /** A system without pipes. */
    constructor (tab: Inodes, ghost log: seq<Change>, ghost ranged: bool)
      requires tab.Ready()
      requires tab.fs.vol.disk(0) == ZERO_BLOCK && OwnsNothing(tab.fs.vol.disk, tab.fs.layout.ino, 0)
      requires FilesGood(tab.fs.vol.disk, tab.fs.layout.ino, tab.fs.itab[..], {}, log, ranged)
      ensures Sound() && this.tab == tab && pipes == [] && this.log == log && this.ranged == ranged && special == {}
    {
      hide GoodLayout, GoodFreeList, Consistent, GoodNumbers, TableUses, FilesGood, OwnsNothing;
      this.tab, this.pipes, this.log, this.ranged, this.special := tab, [], log, ranged, {};
    }

    /** A call of i_open for an inode that exists, and of nothing else. */
    method DoOpen(n: Word, garbage: Block) returns (ip: int)
      requires Sound() && n != 0
      modifies Parts()
      ensures tab.exact == old(tab.exact)
      ensures Sound() && pipes == old(pipes) && log == old(log) && ranged == old(ranged) && special == old(special)
      ensures ip != -1 <==> CanOpen(old(tab.fs.vol.disk), old(tab.fs.itab[..]), tab.fs.vol.isize, n)
      ensures ip != -1 ==>
                && tab.fs.Open(ip) && tab.fs.itab[ip].num == n && InodeTable.Linked(tab.fs.itab[ip].node)
                && tab.fs.itab[ip].node == Current(old(tab.fs.vol.disk), old(tab.fs.itab[..]), n)
      ensures ip != -1 && old(tab.fs.itab[..])[ip].refs > 0 ==>
                tab.fs.itab[..][ip] == old(tab.fs.itab[..])[ip].(refs := tab.fs.itab[..][ip].refs)
      ensures OthersSame(old(tab.fs.itab[..]), tab.fs.itab[..], {ip}) && tab.fs.vol.disk == old(tab.fs.vol.disk)
      ensures Referenced(old(tab.fs.itab[..]), tab.fs.itab[..], n, ip)
      ensures Untouched(old(tab.fs.vol.disk), old(tab.fs.layout.ino), old(tab.fs.itab[..]),
                        tab.fs.vol.disk, tab.fs.layout.ino, tab.fs.itab[..], {})
    {
      hide System.Sound, System.Good, System.Apart, StatesOf, Inodes.Ready, Inodes.Intact, Inodes.Valid, FileSys.Ready;
      hide FileSys.Valid, Vol.Valid, Vol.Linked;
      hide GoodLayout, GoodNumbers, TableUses, OtherDevices, GoodState, InUse, DiskNode, Untouched, Current, FileGood;
      hide IsEmpty, Slots;
      SoundIs();
      tab.ReadyMeans();
      hide SameInodes, CanOpen, Loaded, Referenced, OthersSame;
      var fs := tab.fs;
      ghost var d, m, t, ps := fs.vol.disk, fs.layout, fs.itab[..], StatesOf(pipes);
      StateSlots(d, m, t, fs.vol.isize, fs.vol.fsize, ps, special, log, ranged);
      ghost var num;
      ip, num := tab.IOpen(n, garbage);
      assert ip != -1 && t[ip].refs > 0 ==> t[ip].node.nlink != 0;
      SameCurrent(d, t, fs.vol.disk, fs.itab[..], n);
      CanOpenIs(d, t, fs.vol.isize, n);
      NewSlots(t, fs.itab[..], ip);
      OneReferenced(t, fs.itab[..], n, ip);
      SameToUntouched(d, m, t, fs.vol.disk, fs.itab[..], fs.vol.isize, fs.vol.fsize);
      StateAfter(d, m, t, fs.vol.isize, fs.vol.fsize, ps, special, log, ranged,
                 fs.vol.disk, m.ino, fs.itab[..], ps, log, ranged, {}, -1);
      SoundIs();
    }

    method DoClose(ip: int) returns (ghost touched: set<int>)
      requires Sound()
      modifies Parts()
      ensures tab.exact == old(tab.exact)
      ensures Sound() && pipes == old(pipes) && ranged == old(ranged) && special == old(special)
      ensures touched == if LastUse(old(tab.fs.itab[..]), ip) then {NumAt(old(tab.fs.itab[..]), ip)} else {}
      ensures if OpenFile(old(tab.fs.itab[..]), ip) then RefDropped(old(tab.fs.itab[..]), tab.fs.itab[..], ip)
              else tab.fs.itab[..] == old(tab.fs.itab[..])
      ensures touched != {} ==> Vacant(tab.fs.itab[..], ip)
      ensures log == if touched == {} then old(log) else old(log) + [Emptied(NumAt(old(tab.fs.itab[..]), ip))]
      ensures Untouched(old(tab.fs.vol.disk), old(tab.fs.layout.ino), old(tab.fs.itab[..]),
                        tab.fs.vol.disk, tab.fs.layout.ino, tab.fs.itab[..], touched)
    {
      hide System.Sound, System.Good, System.Apart, StatesOf, Inodes.Ready, Inodes.Intact, Inodes.Valid, FileSys.Ready;
      hide FileSys.Valid, Vol.Valid, Vol.Linked;
      hide GoodLayout, GoodNumbers, TableUses, OtherDevices, GoodState, InUse, DiskNode, Untouched, Current, FileGood;
      hide IsEmpty, Slots;
      SoundIs();
      tab.ReadyMeans();
      touched := {};
      var fs := tab.fs;
      ghost var d, m, t, p, ps, l := fs.vol.disk, fs.layout, fs.itab[..], tab.pending, StatesOf(pipes), log;
      UntouchedRefl(d, m.ino, t, {});
      if OpenFile(tab.fs.itab[..], ip) {
        Closable(d, m, t, fs.vol.isize, fs.vol.fsize, ps, special, log, ranged, ip);
        tab.IDeref(ip);
        tab.ReadyMeans();
        if fs.itab[ip].refs == 0 && t[ip].node.nlink == 0 {
          touched := {t[ip].num as int};
          log := log + [Emptied(t[ip].num)];
        }
        CloseKeepsState(d, m, t, fs.vol.isize, fs.vol.fsize, ps, special, l, ranged,
                        fs.vol.disk, fs.layout, fs.itab[..], ip, touched, log);
        SoundIs();
      }
    }

    method DoTruncate(ip: int) returns (ghost touched: set<int>)
      requires Sound()
      modifies Parts()
      ensures tab.exact == old(tab.exact)
      ensures Sound() && pipes == old(pipes) && ranged == old(ranged) && special == old(special)
      ensures touched == if OpenRegular(old(tab.fs.itab[..]), ip) then {NumAt(old(tab.fs.itab[..]), ip)} else {}
      ensures if touched != {} then SizeGone(old(tab.fs.itab[..]), tab.fs.itab[..], ip)
              else tab.fs.itab[..] == old(tab.fs.itab[..])
      ensures log == if touched == {} then old(log) else old(log) + [Emptied(NumAt(old(tab.fs.itab[..]), ip))]
      ensures Untouched(old(tab.fs.vol.disk), old(tab.fs.layout.ino), old(tab.fs.itab[..]),
                        tab.fs.vol.disk, tab.fs.layout.ino, tab.fs.itab[..], touched)
    {
      hide System.Sound, System.Good, System.Apart, StatesOf, Inodes.Ready, Inodes.Intact, Inodes.Valid, FileSys.Ready;
      hide FileSys.Valid, Vol.Valid, Vol.Linked;
      hide GoodLayout, GoodNumbers, TableUses, OtherDevices, GoodState, InUse, DiskNode, Untouched, Current, FileGood;
      hide IsEmpty, Slots, SizeGone;
      SoundIs();
      tab.ReadyMeans();
      touched := {};
      var fs := tab.fs;
      ghost var d, m, t, p, ps, l := fs.vol.disk, fs.layout, fs.itab[..], tab.pending, StatesOf(pipes), log;
      UntouchedRefl(d, m.ino, t, {});
      if OpenRegular(tab.fs.itab[..], ip) {
        FileSlot(d, m, t, fs.vol.isize, fs.vol.fsize, ps, special, log, ranged, ip);
        StateSlots(d, m, t, fs.vol.isize, fs.vol.fsize, ps, special, log, ranged);
        FileFacts(d, m.ino, t[ip].node, t[ip].num, log, ranged);
        TruncateSlot(tab, ip);
        tab.ReadyMeans();
        touched := {t[ip].num as int};
        GoneIsEmpty(t, fs.itab[..], ip);
        EmptySlot(fs.vol.disk, fs.layout, fs.itab[..], fs.vol.isize, fs.vol.fsize, ip, log, ranged);
        log := log + [Emptied(t[ip].num)];
        StateAfter(d, m, t, fs.vol.isize, fs.vol.fsize, ps, special, l, ranged,
                   fs.vol.disk, fs.layout.ino, fs.itab[..], ps, log, ranged, touched, -1);
        SoundIs();
      }
    }

    /** rwsetup's mark on an open inode. */
    method Mark(ip: int)
      requires Sound() && tab.fs.Open(ip)
      modifies tab.fs.itab
      ensures Sound() && tab.fs.itab[..] == old(tab.fs.itab[..])[ip := old(tab.fs.itab[ip]).(dirty := true)]
      ensures Untouched(tab.fs.vol.disk, tab.fs.layout.ino, old(tab.fs.itab[..]),
                        tab.fs.vol.disk, tab.fs.layout.ino, tab.fs.itab[..], {})
    {
      hide System.Sound, System.Good, System.Apart, StatesOf, Inodes.Ready, Inodes.Intact, Inodes.Valid, FileSys.Ready;
      hide FileSys.Valid, Vol.Valid, Vol.Linked;
      hide GoodLayout, GoodNumbers, TableUses, OtherDevices, GoodState, InUse, DiskNode, Untouched, Current, FileGood;
      hide IsEmpty, Slots;
      SoundIs();
      tab.ReadyMeans();
      var fs := tab.fs;
      ghost var d, m, t, p, ps := fs.vol.disk, fs.layout, fs.itab[..], tab.pending, StatesOf(pipes);
      StateSlots(d, m, t, fs.vol.isize, fs.vol.fsize, ps, special, log, ranged);
      tab.Setftime(ip);
      StateAfter(d, m, t, fs.vol.isize, fs.vol.fsize, ps, special, log, ranged,
                 d, m.ino, fs.itab[..], ps, log, ranged, {}, -1);
      SoundIs();
    }

    /** Reads from the start of memory: the bytes in the file, each the one written last. */
    method DoRead(ip: int, o: Off, count: Word, mem: array<Byte>) returns (n: int)
      requires Sound() && mem.Length == 0x8000 && mem !in Parts()
      modifies Parts(), mem
      ensures tab.exact == old(tab.exact)
      ensures Sound() && pipes == old(pipes) && log == old(log) && ranged == old(ranged) && special == old(special)
      ensures Untouched(old(tab.fs.vol.disk), old(tab.fs.layout.ino), old(tab.fs.itab[..]),
                        tab.fs.vol.disk, tab.fs.layout.ino, tab.fs.itab[..], {})
      ensures n == if Readable(old(tab.fs.itab[..]), ip, o, count)
              then InFile(SizeAt(old(tab.fs.itab[..]), ip), o, count) else -1
      ensures n != -1 ==> HoldsLast(mem[..], n, log, NumAt(old(tab.fs.itab[..]), ip), Position(o))
      ensures RefsKept(old(tab.fs.itab[..]), tab.fs.itab[..], {})
    {
      hide System.Sound, System.Good, System.Apart, StatesOf, Inodes.Ready, Inodes.Intact, Inodes.Valid, FileSys.Ready;
      hide FileSys.Valid, Vol.Valid, Vol.Linked;
      hide GoodLayout, GoodNumbers, TableUses, OtherDevices, GoodState, InUse, DiskNode, Untouched, Current, FileGood;
      hide IsEmpty, Slots;
      SoundIs();
      tab.ReadyMeans();
      hide HoldsLast, Readable, InFile, Position;
      var fs := tab.fs;
      ghost var d0, i0, t0 := fs.vol.disk, fs.layout.ino, fs.itab[..];
      UntouchedRefl(d0, i0, t0, {});
      n := -1;
      if Readable(fs.itab[..], ip, o, count) {
        ReadableIs(fs.itab[..], ip, o, count);
        Mark(ip);
        SoundIs();
        tab.ReadyMeans();
        ghost var d, m, t, p, ps := fs.vol.disk, fs.layout, fs.itab[..], tab.pending, StatesOf(pipes);
        FileSlot(d, m, t, fs.vol.isize, fs.vol.fsize, ps, special, log, ranged, ip);
        n := ReadSlot(tab, ip, o, count, mem, log, ranged);
        SoundIs();
      }
    }

    /** Writes from the start of memory; the bytes that fit are logged. */
    method DoWrite(ip: int, o: Off, count: Word, mem: array<Byte>) returns (n: int, ghost touched: set<int>)
      requires Sound() && mem.Length == 0x8000 && mem !in Parts()
      modifies Parts()
      ensures tab.exact == old(tab.exact)
      ensures Sound() && pipes == old(pipes) && special == old(special)
      ensures ranged == (old(ranged) && (n != -1 ==> Position(o) + count < 512 * 0xFFFF))
      ensures n == -1 <==> !Writable(old(tab.fs.itab[..]), ip, o, count)
      ensures -1 <= n <= count && n <= mem.Length
      ensures 0 <= n < count ==> tab.fs.vol.stack == [] && tab.fs.vol.error == ENOSPC
      ensures n != -1 && Position(o) + count < FILE_MODULUS ==>
                SizeGrown(old(tab.fs.itab[..]), tab.fs.itab[..], ip, Position(o) + n)
      ensures if n == -1 then tab.fs.itab[..] == old(tab.fs.itab[..])
              else SameSlot(old(tab.fs.itab[..]), tab.fs.itab[..], ip)
      ensures touched == if n == -1 then {} else {NumAt(old(tab.fs.itab[..]), ip)}
      ensures log == if n == -1 then old(log)
              else old(log) + [Put(NumAt(old(tab.fs.itab[..]), ip), Position(o), mem[..n])]
      ensures Untouched(old(tab.fs.vol.disk), old(tab.fs.layout.ino), old(tab.fs.itab[..]),
                        tab.fs.vol.disk, tab.fs.layout.ino, tab.fs.itab[..], touched)
    {
      hide System.Sound, System.Good, System.Apart, StatesOf, Inodes.Ready, Inodes.Intact, Inodes.Valid, FileSys.Ready;
      hide FileSys.Valid, Vol.Valid, Vol.Linked;
      hide GoodLayout, GoodNumbers, TableUses, OtherDevices, GoodState, InUse, DiskNode, Untouched, Current, FileGood;
      hide IsEmpty, Slots;
      SoundIs();
      tab.ReadyMeans();
      hide Writable, Position, Wrote, OnlyFile, SizeOf, SameSlot;
      touched := {};
      n := -1;
      var fs := tab.fs;
      ghost var d0, i0, t0 := fs.vol.disk, fs.layout.ino, fs.itab[..];
      UntouchedRefl(d0, i0, t0, {});
      if Writable(fs.itab[..], ip, o, count) {
        WritableIs(fs.itab[..], ip, o, count);
        Mark(ip);
        ghost var i1, t1 := fs.layout.ino, fs.itab[..];
        n := WriteMarked(ip, o, count, mem);
        MarkedSlot(t0, t1, fs.itab[..], ip);
        touched := {NumAt(t1, ip)};
        UntouchedTrans(d0, i0, t0, d0, i1, t1, fs.vol.disk, fs.layout.ino, fs.itab[..], {}, touched);
        assert {} + touched == touched;
      }
    }

    method WriteMarked(ip: int, o: Off, count: Word, mem: array<Byte>) returns (n: int)
      requires Sound() && mem.Length == 0x8000 && mem !in Parts() && Writable(tab.fs.itab[..], ip, o, count)
      modifies Parts()
      ensures tab.exact == old(tab.exact)
      ensures Sound() && pipes == old(pipes) && special == old(special)
      ensures ranged == (old(ranged) && Position(o) + count < 512 * 0xFFFF)
      ensures 0 <= n <= count && (n < count ==> tab.fs.vol.stack == [] && tab.fs.vol.error == ENOSPC)
      ensures Position(o) + count < FILE_MODULUS ==>
                SizeGrown(old(tab.fs.itab[..]), tab.fs.itab[..], ip, Position(o) + n)
      ensures SameSlot(old(tab.fs.itab[..]), tab.fs.itab[..], ip)
      ensures log == old(log) + [Put(NumAt(old(tab.fs.itab[..]), ip), Position(o), mem[..n])]
      ensures Untouched(old(tab.fs.vol.disk), old(tab.fs.layout.ino), old(tab.fs.itab[..]),
                        tab.fs.vol.disk, tab.fs.layout.ino, tab.fs.itab[..], {NumAt(old(tab.fs.itab[..]), ip)})
    {
      hide System.Sound, System.Good, System.Apart, StatesOf, Inodes.Ready, Inodes.Intact, Inodes.Valid, FileSys.Ready;
      hide FileSys.Valid, Vol.Valid, Vol.Linked;
      hide GoodLayout, GoodNumbers, TableUses, OtherDevices, GoodState, InUse, DiskNode, Untouched, Current, FileGood;
      hide IsEmpty, Slots;
      hide Writable, Position, Wrote, OnlyFile, SizeOf, GoodOff, SameSlot, Larger, OpenRegular;
      hide SizeGrown, SizeAt, Inodes.OnDevice, InodeTable.Linked, LooksFree;
      SoundIs();
      tab.ReadyMeans();
      var fs := tab.fs;
      WritableIs(fs.itab[..], ip, o, count);
      PositionNat(o);
      ghost var d, m, t, p, ps, r, l := fs.vol.disk, fs.layout, fs.itab[..], tab.pending, StatesOf(pipes), ranged, log;
      ghost var data := mem[..count];
      n := WriteSlot(tab, ip, o, count, mem);
      ghost var d', m', t' := fs.vol.disk, fs.layout, fs.itab[..];
      OnlyFileSlot(d, m.ino, t, d', m'.ino, t', ip);
      GrownAt(t, t', ip, Position(o) + n);
      tab.ReadyMeans();
      ranged := ranged && Position(o) + count < 512 * 0xFFFF;
      log := log + [Put(t[ip].num, Position(o), mem[..n])];
      assert data[..n] == mem[..n];
      WriteKeepsState(d, m, t, fs.vol.isize, fs.vol.fsize, ps, special, l, r, d', m', t', ip, o, n, data, ranged);
      SoundIs();
    }

    /** Creating a file that is not there: newfile, with the reference to the directory that n_open
        took. num is the new inode, or 0. */
    method DoCreate(wd: int, name: seq<Byte>, garbage: Block)
      returns (ip: int, ghost num: Word, ghost k: int, ghost touched: set<int>)
      requires Sound()
      modifies Parts()
      ensures Good() && (Sound() <==> !tab.corrupt) && pipes == old(pipes) && ranged == old(ranged)
              && special == old(special)
      ensures |tab.fs.itab[..]| == ITABSIZE == |old(tab.fs.itab[..])|
      ensures Counted(true, old(tab.fs.itab[..]), old(tab.pending), old(tab.exact), old(tab.ninode), old(tab.tinode),
                      tab.exact, tab.corrupt)
      ensures if old(NewName(tab.fs.vol.disk, tab.fs.itab[..], wd, name)) then
                && CreationLogged(old(log), log, old(tab.fs.itab[..]), wd, name, ip, num, k)
                && Created(old(tab.fs.vol.disk), old(tab.fs.itab[..]), tab.fs.vol.disk, tab.fs.itab[..], wd, name, ip,
                           num)
              else ip == -1 && num == 0 && log == old(log) && tab.fs.itab[..] == old(tab.fs.itab[..])
      ensures ip == -1 && old(NewName(tab.fs.vol.disk, tab.fs.itab[..], wd, name))
              && old(CanMake(tab.fs.vol.disk, tab.fs.itab[..], tab.pending, tab.exact, tab.fs.vol.isize,
                             tab.ninode)) ==>
                tab.fs.vol.stack == [] && num != 0
      ensures num != 0 ==> LooksFree(Current(old(tab.fs.vol.disk), old(tab.fs.itab[..]), num))
      ensures touched == {} || touched == {NumAt(old(tab.fs.itab[..]), wd)}
              || (num != 0 && touched == {NumAt(old(tab.fs.itab[..]), wd), num as int})
      ensures old(log) <= log && forall i | |old(log)| <= i < |log| :: log[i].n in touched
      ensures Untouched(old(tab.fs.vol.disk), old(tab.fs.layout.ino), old(tab.fs.itab[..]),
                        tab.fs.vol.disk, tab.fs.layout.ino, tab.fs.itab[..], touched)
    {
      hide System.Sound, System.Good, System.Apart, StatesOf, Inodes.Ready, Inodes.Intact, Inodes.Valid, FileSys.Ready;
      hide FileSys.Valid, Vol.Valid, Vol.Linked;
      hide GoodLayout, GoodNumbers, TableUses, OtherDevices, GoodState, InUse, DiskNode, Untouched, Current, FileGood;
      hide IsEmpty, Slots;
      hide EntryPut, MakeEntry, OthersSame, Listed, EntriesOf, Component, GoodDirectory, NewFileNode;
      hide NotListed, NameAdded, SameEntries, FreeSlot, UniqueNames, Settled, Created, CreationLogged;
      SoundTable();
      SoundIsGood();
      ip, num, k, touched := -1, 0, 0, {};
      ghost var d, t := tab.fs.vol.disk, tab.fs.itab[..];
      UntouchedRefl(d, tab.fs.layout.ino, t, {});
      if OpenDirectory(tab.fs.itab[..], wd) {
        if |name| == NAMELEN && Name(name) != [] {
          FieldAsString(name);
          var inum := DoSearch(wd, name + [0]);
          FoundOrNot(d, tab.fs.itab[..][wd].node.addr, Name(name), inum);
          if inum == -1 {
            ghost var l := log;
            ip, num, k := EnterNew(wd, name, garbage);
            touched := Changed(NumAt(t, wd) as Word, num);
            NewfileLogs(l, log, t, wd, name, ip, num, k);
          }
        }
      }
      SoundIsGood();
    }

    /** Srch_dir in an open directory. */
    method DoSearch(wd: int, name: seq<Byte>) returns (inum: int)
      requires Sound() && OpenDirectory(tab.fs.itab[..], wd) && 0 in name
      modifies tab.fs, tab.fs.itab, tab.fs.vol.Repr()
      ensures Sound() && tab.fs.vol.disk == old(tab.fs.vol.disk) && tab.fs.layout == old(tab.fs.layout)
      ensures tab.fs.itab[..] == old(tab.fs.itab[..]) && tab.fs.vol.error == OK && !tab.corrupt
      ensures UniqueNames(EntriesOf(tab.fs.vol.disk, tab.fs.itab[..][wd].node.addr))
      ensures Name(name) != [] ==>
                if inum == -1 then forall num ::
                  !Listed(EntriesOf(tab.fs.vol.disk, tab.fs.itab[..][wd].node.addr), Name(name), num)
                else Listed(EntriesOf(tab.fs.vol.disk, tab.fs.itab[..][wd].node.addr), Name(name), inum)
    {
      hide System.Sound, System.Good, System.Apart, StatesOf, Inodes.Ready, Inodes.Intact, Inodes.Valid, FileSys.Ready;
      hide FileSys.Valid, Vol.Valid, Vol.Linked;
      hide GoodLayout, GoodNumbers, TableUses, OtherDevices, GoodState, InUse, DiskNode, Untouched, Current, FileGood;
      hide IsEmpty, Slots;
      hide Listed, EntriesOf, Component, GoodDirectory, UniqueNames;
      SoundIs();
      tab.ReadyMeans();
      var fs := tab.fs;
      DirectoryFile(fs.vol.disk, fs.layout, fs.itab[..], fs.vol.isize, fs.vol.fsize, StatesOf(pipes),
                    special, log, ranged, wd);
      inum := FindName(tab, wd, name);
      SoundIs();
    }

    /** Newfile with a name that is not in the directory. */
    method EnterNew(wd: int, name: seq<Byte>, garbage: Block) returns (ip: int, ghost num: Word, ghost k: int)
      requires Sound() && OpenDirectory(tab.fs.itab[..], wd) && |name| == NAMELEN && tab.fs.vol.error == OK
      requires NotListed(tab.fs.vol.disk, tab.fs.itab[..][wd].node.addr, Name(name)) && Name(name) != []
      modifies Parts()
      ensures Good() && (Sound() <==> !tab.corrupt) && pipes == old(pipes) && ranged == old(ranged)
              && special == old(special)
      ensures Counted(true, old(tab.fs.itab[..]), old(tab.pending), old(tab.exact), old(tab.ninode), old(tab.tinode),
                      tab.exact, tab.corrupt)
      ensures |tab.fs.itab[..]| == ITABSIZE
      ensures Created(old(tab.fs.vol.disk), old(tab.fs.itab[..]), tab.fs.vol.disk, tab.fs.itab[..], wd, name, ip, num)
      ensures CreationLogged(old(log), log, old(tab.fs.itab[..]), wd, name, ip, num, k)
      ensures ip == -1 && num != 0 ==> tab.fs.vol.stack == []
      ensures num == 0 ==>
                !old(CanMake(tab.fs.vol.disk, tab.fs.itab[..], tab.pending, tab.exact, tab.fs.vol.isize, tab.ninode))
      ensures num != 0 ==> LooksFree(Current(old(tab.fs.vol.disk), old(tab.fs.itab[..]), num))
      ensures Untouched(old(tab.fs.vol.disk), old(tab.fs.layout.ino), old(tab.fs.itab[..]),
                        tab.fs.vol.disk, tab.fs.layout.ino, tab.fs.itab[..], Changed(old(tab.fs.itab[..])[wd].num, num))
    {
      hide System.Sound, System.Good, System.Apart, StatesOf, Inodes.Ready, Inodes.Intact, Inodes.Valid, FileSys.Ready;
      hide FileSys.Valid, Vol.Valid, Vol.Linked;
      hide GoodLayout, GoodNumbers, TableUses, OtherDevices, GoodState, InUse, DiskNode, Untouched, Current, FileGood;
      hide IsEmpty, Slots;
      hide EntryPut, MakeEntry, OthersSame, Listed, EntriesOf, Component, GoodDirectory, NewFileNode, NewfileLog;
      hide NotListed, NameAdded, SameEntries, UniqueNames, Settled, LooksFree, Created;
      SoundIs();
      tab.ReadyMeans();
      var fs := tab.fs;
      ghost var d, m, t, ps, l := fs.vol.disk, fs.layout, fs.itab[..], StatesOf(pipes), log;
      DirectoryFile(d, m, t, fs.vol.isize, fs.vol.fsize, ps, special, log, ranged, wd);
      LayoutBounds(d, m, t, fs.vol.isize, fs.vol.fsize, 0);
      assert fs.itab[wd] == t[wd];
      ip, num, k := Newfile(tab, wd, name, true, garbage);
      tab.IntactMeans();
      PutMeans(d, m.ino, t[wd].node, fs.vol.disk, fs.layout.ino, fs.itab[..][wd].node, t[wd].num, ip != -1, name, num,
               k);
      log := log + NewfileLog(t[wd].num, num, ip != -1, MakeEntry(num, name), k);
      CreatedIs(d, m.ino, t, fs.vol.disk, fs.layout.ino, fs.itab[..], wd, name, ip, num, k);
      NewfileKeepsState(d, m, t, fs.vol.isize, fs.vol.fsize, ps, special, l, ranged,
                        fs.vol.disk, fs.layout, fs.itab[..], wd, ip, num, name, k);
      GoodIs();
      SoundIsGood();
    }

    /** No other slot holds the inode in slot ip. */
    lemma OnlySlot(ip: int)
      requires Sound() && 0 <= ip < |tab.fs.itab[..]| && tab.fs.itab[..][ip].num != 0
      ensures forall s | 0 <= s < |tab.fs.itab[..]| && s != ip :: tab.fs.itab[..][s].num != tab.fs.itab[..][ip].num
    {
      hide GoodState, GoodLayout, GoodFreeList, GoodNumbers, TableUses, Consistent, System.Apart, StatesOf;
      var fs := tab.fs;
      forall s | 0 <= s < |fs.itab[..]| && s != ip
        ensures fs.itab[..][s].num != fs.itab[..][ip].num
      {
        if fs.itab[..][s].num != 0 {
          DistinctSlots(fs.vol.disk, fs.layout, fs.itab[..], fs.vol.isize, fs.vol.fsize, s, ip);
        }
      }
    }

    /** A reference less to an inode that is linked. */
    method DropSlot(ip: int)
      requires Sound() && tab.fs.Open(ip) && InodeTable.Linked(tab.fs.itab[ip].node)
      modifies Parts()
      ensures tab.exact == old(tab.exact)
      ensures Sound() && pipes == old(pipes) && log == old(log) && ranged == old(ranged) && special == old(special)
      ensures RefDropped(old(tab.fs.itab[..]), tab.fs.itab[..], ip)
      ensures Untouched(old(tab.fs.vol.disk), old(tab.fs.layout.ino), old(tab.fs.itab[..]),
                        tab.fs.vol.disk, tab.fs.layout.ino, tab.fs.itab[..], {})
    {
      hide System.Sound, System.Good, System.Apart, StatesOf, Inodes.Ready, Inodes.Intact, Inodes.Valid, FileSys.Ready;
      hide FileSys.Valid, Vol.Valid, Vol.Linked;
      hide GoodLayout, GoodNumbers, TableUses, OtherDevices, GoodState, InUse, DiskNode, Untouched, Current, FileGood;
      hide IsEmpty, Slots;
      SoundIs();
      tab.ReadyMeans();
      var fs := tab.fs;
      ghost var d, m, t, p, ps := fs.vol.disk, fs.layout, fs.itab[..], tab.pending, StatesOf(pipes);
      StateSlots(d, m, t, fs.vol.isize, fs.vol.fsize, ps, special, log, ranged);
      Drop(tab, ip);
      StateAfter(d, m, t, fs.vol.isize, fs.vol.fsize, ps, special, log, ranged,
                 fs.vol.disk, m.ino, fs.itab[..], ps, log, ranged, {}, -1);
      SoundIs();
    }

    /** Removing a regular file's name: n_open's search and i_open, then _unlink. num is its inode. */
    method DoRemove(wd: int, name: seq<Byte>, garbage: Block)
      returns (ok: bool, ghost num: Word, ghost k: int, ghost touched: set<int>)
      requires Sound()
      modifies Parts()
      ensures tab.exact == old(tab.exact)
      ensures Sound() && pipes == old(pipes) && ranged == old(ranged) && special == old(special)
      ensures |tab.fs.itab[..]| == ITABSIZE == |old(tab.fs.itab[..])|
      ensures ok <==> CanRemove(old(tab.fs.vol.disk), old(tab.fs.itab[..]), tab.fs.vol.isize, wd, name)
      ensures touched == if ok then {NumAt(old(tab.fs.itab[..]), wd), num as int} else {}
      ensures ok ==>
                && OpenDirectory(old(tab.fs.itab[..]), wd)
                && Listed(EntriesOf(old(tab.fs.vol.disk), old(tab.fs.itab[..])[wd].node.addr), Name(name), num as int)
                && NameGone(old(tab.fs.vol.disk), old(tab.fs.itab[..])[wd].node.addr,
                            tab.fs.vol.disk, tab.fs.itab[..][wd].node.addr, Name(name))
      ensures ok ==>
                && Removed(old(tab.fs.vol.disk), old(tab.fs.itab[..]), tab.fs.vol.disk, tab.fs.itab[..], wd, num)
                && log == old(log) + RemoveLog(old(tab.fs.vol.disk), old(tab.fs.itab[..]), wd, num, k)
      ensures !ok ==> log == old(log) && RefsKept(old(tab.fs.itab[..]), tab.fs.itab[..], {})
      ensures old(log) <= log && forall i | |old(log)| <= i < |log| :: log[i].n in touched
      ensures Untouched(old(tab.fs.vol.disk), old(tab.fs.layout.ino), old(tab.fs.itab[..]),
                        tab.fs.vol.disk, tab.fs.layout.ino, tab.fs.itab[..], touched)
    {
      hide System.Sound, System.Good, System.Apart, StatesOf, Inodes.Ready, Inodes.Intact, Inodes.Valid, FileSys.Ready;
      hide FileSys.Valid, Vol.Valid, Vol.Linked;
      hide GoodLayout, GoodNumbers, TableUses, OtherDevices, GoodState, InUse, DiskNode, Untouched, Current, FileGood;
      hide IsEmpty, Slots;
      hide Listed, EntriesOf, Component, OpenDirectory, OpenRegular, OthersSame, CanOpen, NameGone, NotListed;
      hide LinkLost, UniqueNames, Removed, Referenced, RefsKept, DirectorySlot, Unlinked, RemoveLog, UnlinkLog;
      hide MakeEntry;
      RefsKeptRefl(tab.fs.itab[..], {});
      SoundTable();
      ok, num, k, touched := false, 0, 0, {};
      var fs := tab.fs;
      ghost var d, i0, t := fs.vol.disk, fs.layout.ino, fs.itab[..];
      UntouchedRefl(d, i0, t, {});
      if OpenDirectory(fs.itab[..], wd) && 0 in name && Name(name) != [] {
        var inum := DoSearch(wd, name);
        OnlyThatName(d, t, fs.vol.isize, wd, name, inum);
        if 0 < inum < 0x1_0000 {
          var ip := DoOpen(inum, garbage);
          if ip != -1 {
            ghost var i1, t1 := fs.layout.ino, fs.itab[..];
            OpenDirectoryKept(t, t1, wd, ip);
            assert t1[ip] == fs.itab[ip];
            if ip != wd && OpenRegular(fs.itab[..], ip) {
              num := inum;
              ok := true;
              OnlySlot(ip);
              k := RemoveOpened(wd, ip, name, NO_NAME);
              touched := {t[wd].num as int, num as int};
              RemovedIs(d, t, t1, fs.vol.disk, fs.itab[..], wd, ip, num, k);
              UnlinkLogs(old(log), t1[wd].num, t1[ip], MakeEntry(0, NO_NAME), k);
            } else {
              DropSlot(ip);
              DroppedAgain(t, t1, fs.itab[..], inum, ip);
            }
            UntouchedTrans(d, i0, t, d, i1, t1, fs.vol.disk, fs.layout.ino, fs.itab[..], {}, touched);
            assert {} + touched == touched;
          } else {
            NotReferenced(t, fs.itab[..], inum);
          }
        }
      }
    }

    /** _unlink of an open regular file. */
    method RemoveOpened(wd: int, ip: int, name: seq<Byte>, blank: seq<Byte>) returns (ghost k: int)
      requires Sound() && OpenDirectory(tab.fs.itab[..], wd) && OpenRegular(tab.fs.itab[..], ip)
      requires InodeTable.Linked(tab.fs.itab[..][ip].node) && 0 in name && |blank| == NAMELEN && blank[0] == 0
      requires Name(name) != [] && !NotListed(tab.fs.vol.disk, tab.fs.itab[..][wd].node.addr, Name(name))
      modifies Parts()
      ensures tab.exact == old(tab.exact)
      ensures Sound() && pipes == old(pipes) && ranged == old(ranged) && special == old(special)
      ensures |tab.fs.itab[..]| == ITABSIZE == |old(tab.fs.itab[..])|
      ensures NameGone(old(tab.fs.vol.disk), old(tab.fs.itab[..])[wd].node.addr,
                       tab.fs.vol.disk, tab.fs.itab[..][wd].node.addr, Name(name))
      ensures DirectorySlot(old(tab.fs.itab[..]), tab.fs.itab[..], wd)
      ensures RefsKept(old(tab.fs.itab[..]), tab.fs.itab[..], {wd, ip})
      ensures Unlinked(old(tab.fs.vol.disk), old(tab.fs.itab[..]), tab.fs.vol.disk, tab.fs.itab[..], ip)
      ensures log == old(log) + UnlinkLog(old(tab.fs.itab[..])[wd].num, old(tab.fs.itab[..])[ip], MakeEntry(0, blank),
                                          k)
      ensures Untouched(old(tab.fs.vol.disk), old(tab.fs.layout.ino), old(tab.fs.itab[..]),
                        tab.fs.vol.disk, tab.fs.layout.ino, tab.fs.itab[..],
                        {old(tab.fs.itab[..])[wd].num as int, old(tab.fs.itab[..])[ip].num as int})
    {
      hide System.Sound, System.Good, System.Apart, StatesOf, Inodes.Ready, Inodes.Intact, Inodes.Valid, FileSys.Ready;
      hide FileSys.Valid, Vol.Valid, Vol.Linked;
      hide GoodLayout, GoodNumbers, TableUses, OtherDevices, GoodState, InUse, DiskNode, Untouched, Current, FileGood;
      hide IsEmpty, Slots;
      hide EntryPut, MakeEntry, OthersSame, Component, GoodDirectory, LinkLost, OpenDirectory, OpenRegular, UnlinkLog;
      hide OtherFiles, OtherInodes, NotListed, NameGone, UniqueNames, EntriesOf, Listed, DirectorySlot, Unlinked;
      hide RefsKept, Inodes.OnDevice, LastOf, FileBlock;
      SoundIs();
      tab.ReadyMeans();
      var fs := tab.fs;
      ghost var d, m, t, p, ps, l := fs.vol.disk, fs.layout, fs.itab[..], tab.pending, StatesOf(pipes), log;
      Removable(d, m, t, fs.vol.isize, fs.vol.fsize, ps, special, log, ranged, wd, ip);
      assert t[wd] == fs.itab[wd] && t[ip] == fs.itab[ip];
      ClearError(tab);
      NamedFirst(name);
      var ok;
      ok, k := Unlink(tab, wd, ip, name, blank, true);
      ghost var d', m', t' := fs.vol.disk, fs.layout, fs.itab[..];
      tab.ReadyMeans();
      log := log + UnlinkLog(t[wd].num, t[ip], MakeEntry(0, blank), k);
      OthersKept(t, t', {wd, ip});
      EntryPutSlot(d, m.ino, t, d', m'.ino, t', wd, ok, Name(name), MakeEntry(0, blank), k);
      UnlinkKeepsState(d, m, t, fs.vol.isize, fs.vol.fsize, ps, special, l, ranged, d', m', t', wd, ip, Name(name),
                       blank,
                       k);
      SoundIs();
    }

    /** _sync: what is in core is on the device. */
    method DoSync(garbage: Block)
      requires Sound()
      modifies Parts()
      ensures tab.exact == old(tab.exact)
      ensures Sound() && pipes == old(pipes) && log == old(log) && ranged == old(ranged) && special == old(special)
      ensures tab.fs.layout == old(tab.fs.layout) && tab.fs.vol.stack == old(tab.fs.vol.stack)
      ensures tab.ninode == old(tab.ninode) && tab.sinode[..] == old(tab.sinode[..]) && tab.tinode == old(tab.tinode)
      ensures tab.fs.itab.Length == ITABSIZE && forall s | 0 <= s < ITABSIZE ::
                tab.fs.itab[s] == if old(tab.fs.itab[s]).refs > 0 then old(tab.fs.itab[s]).(dirty := false)
                  else old(tab.fs.itab[s])
      ensures Saved(tab.fs.vol.disk, tab.fs.vol.isize, tab.fs.vol.fsize, tab.fs.vol.stack, tab.ninode, tab.sinode[..],
                    tab.tinode)
      ensures Now().saved
      ensures ValidDev(tab.fs.vol.dev)
              && forall b: Word :: tab.fs.vol.cache.store[tab.fs.vol.dev](b) == tab.fs.vol.disk(b)
      ensures Untouched(old(tab.fs.vol.disk), old(tab.fs.layout.ino), old(tab.fs.itab[..]),
                        tab.fs.vol.disk, tab.fs.layout.ino, tab.fs.itab[..], {})
    {
      hide System.Sound, System.Good, System.Apart, StatesOf, Inodes.Ready, Inodes.Intact, Inodes.Valid, FileSys.Ready;
      hide FileSys.Valid, Vol.Valid, Vol.Linked;
      hide GoodLayout, GoodNumbers, TableUses, OtherDevices, GoodState, InUse, DiskNode, Untouched, Current, FileGood;
      hide IsEmpty, Slots;
      hide SameInodes, Mountable;
      SoundIs();
      tab.ReadyMeans();
      var fs := tab.fs;
      ghost var d, m, t, p, ps := fs.vol.disk, fs.layout, fs.itab[..], tab.pending, StatesOf(pipes);
      StateSlots(d, m, t, fs.vol.isize, fs.vol.fsize, ps, special, log, ranged);
      tab.Sync(garbage);
      tab.ReadyMeans();
      SameToUntouched(d, m, t, fs.vol.disk, fs.itab[..], fs.vol.isize, fs.vol.fsize);
      StateAfter(d, m, t, fs.vol.isize, fs.vol.fsize, ps, special, log, ranged,
                 fs.vol.disk, m.ino, fs.itab[..], ps, log, ranged, {}, -1);
      SoundIs();
    }

    // ----- Pipes -----

    /** _pipe. num is the number of the new inode, or 0. */
    method DoPipe(garbage: Block) returns (made: bool, ghost num: Word)
      requires Sound()
      modifies Parts()
      ensures Good() && (Sound() <==> !tab.corrupt) && log == old(log) && ranged == old(ranged)
      ensures Counted(true, old(tab.fs.itab[..]), old(tab.pending), old(tab.exact), old(tab.ninode), old(tab.tinode),
                      tab.exact, tab.corrupt)
      ensures if made then |pipes| == |old(pipes)| + 1 && pipes[..|pipes| - 1] == old(pipes)
              && fresh(pipes[|pipes| - 1])
              else pipes == old(pipes)
      ensures old(CanMake(tab.fs.vol.disk, tab.fs.itab[..], tab.pending, tab.exact, tab.fs.vol.isize, tab.ninode)) ==>
                made
      ensures MakeStep(old(StatesOf(pipes)), StatesOf(pipes), made)
      ensures PipeSlot(old(tab.fs.itab[..]), tab.fs.itab[..], StatesOf(pipes), made)
      ensures made ==> num != 0 && LooksFree(Current(old(tab.fs.vol.disk), old(tab.fs.itab[..]), num))
      ensures Untouched(old(tab.fs.vol.disk), old(tab.fs.layout.ino), old(tab.fs.itab[..]),
                        tab.fs.vol.disk, tab.fs.layout.ino, tab.fs.itab[..], if made then {num as int} else {})
    {
      hide System.Sound, System.Good, System.Apart, StatesOf, Inodes.Ready, Inodes.Intact, Inodes.Valid, FileSys.Ready;
      hide FileSys.Valid, Vol.Valid, Vol.Linked;
      hide GoodLayout, GoodNumbers, TableUses, OtherDevices, GoodState, InUse, DiskNode, Untouched, Current, FileGood;
      hide IsEmpty, Slots;
      hide InPipe, OthersSame, GoodPipeEnds, PipePair.Valid, MakeStep, Allotted, LooksFree, Settled, RefsKept, PipeSlot;
      SoundIs();
      tab.ReadyMeans();
      var fs := tab.fs;
      ghost var d, m, t, p, ps, s := fs.vol.disk, fs.layout, fs.itab[..], tab.pending, StatesOf(pipes), special;
      LayoutBounds(d, m, t, fs.vol.isize, fs.vol.fsize, 0);
      assert forall i | 0 <= i < ITABSIZE :: fs.itab[i] == t[i];
      var ip;
      ip, num := PipeInode(tab, garbage);
      made := ip != -1;
      NotAllotted(d, t, p, old(tab.exact), old(tab.ninode), old(tab.tinode), fs.vol.disk, fs.vol.isize, num,
                  tab.pending, tab.exact, tab.tinode, tab.corrupt);
      tab.IntactMeans();
      NewSlots(t, fs.itab[..], ip);
      OthersKept(t, fs.itab[..], {ip});
      NotMade(ps);
      if ip == -1 {
        NoPipeSlot(t, fs.itab[..], ps);
        NothingKeepsState(d, m, t, fs.vol.isize, fs.vol.fsize, ps, special, log, ranged,
                          fs.vol.disk, m.ino, fs.itab[..]);
      } else {
        var q := AddPipe(ip, ps);
        MadeLast(ps, q.State());
        NewPipeSlot(t, fs.itab[..], ps, q.State());
        special := special + {num as int};
        PipeKeepsState(d, m, t, fs.vol.isize, fs.vol.fsize, ps, s, log, ranged,
                       fs.vol.disk, fs.layout, fs.itab[..], q.State());
      }
      GoodIs();
      SoundIsGood();
    }

    /** The new pipe is the last. */
    method AddPipe(ip: int, ghost ps: seq<Ends>) returns (q: PipePair)
      requires Apart() && ps == StatesOf(pipes) && tab.Ready() && tab.fs.Open(ip) && InPipe(tab.fs.itab[ip].node)
      requires tab.fs.itab[ip].refs == 2 && tab.fs.itab[ip].node.sizeBlk == 0 && tab.fs.itab[ip].node.sizeOff == 0
      requires tab.fs.itab[ip].num != ROOTINODE
      modifies `pipes
      ensures Apart() && fresh(q) && pipes == old(pipes) + [q] && StatesOf(pipes) == ps + [q.State()]
      ensures q.ip == ip && GoodPipeEnds(tab.fs.vol.disk, tab.fs.itab[..], q.State())
      ensures q.reader.Awake? && q.writer.Awake? && q.sent == [] && q.got == 0
    {
      hide Inodes.Ready, InPipe, GoodPipeEnds, PipePair.Valid;
      q := new PipePair(tab, ip);
      q.ValidIs();
      pipes := pipes + [q];
      assert pipes[..|pipes| - 1] == old(pipes);
    }

    /** The pipe at index k, ready for a call of its own. */
    lemma PipeAt(k: int)
      requires Sound() && 0 <= k < |pipes|
      ensures var q := pipes[k]; q.Valid() && q.tab == tab && q !in Parts() && tab.fs.Open(q.ip)
      ensures forall j | 0 <= j < |pipes| && j != k :: pipes[j] != pipes[k] && pipes[j] !in Parts()
      ensures StatesOf(pipes)[k] == pipes[k].State()
    {
      hide GoodLayout, GoodFreeList, Consistent, GoodNumbers, TableUses, FilesGood, OwnsNothing, GoodPipeEnds;
      assert GoodPipeEnds(tab.fs.vol.disk, tab.fs.itab[..], StatesOf(pipes)[k]);
      EndsSlot(tab.fs.vol.disk, tab.fs.itab[..], pipes[k].State());
      pipes[k].ValidIs();
      forall j | 0 <= j < |pipes| && j != k
        ensures pipes[j] != pipes[k] && pipes[j] !in Parts()
      {
        assert if j < k then true else k < j;
      }
    }

    /** One attempt to read from a pipe; -1 means that the process does not get to try. */
    method DoReadPipe(k: int, count: Word, again: bool, mem: array<Byte>) returns (n: int)
      requires Sound() && mem.Length == 0x8000 && mem !in Parts()
      modifies Parts(), pipes, mem
      ensures tab.exact == old(tab.exact)
      ensures Sound() && pipes == old(pipes) && log == old(log) && ranged == old(ranged) && special == old(special)
      ensures RefsKept(old(tab.fs.itab[..]), tab.fs.itab[..], {})
      ensures n == -1 <==> !CanRead(old(StatesOf(pipes)), k, count)
      ensures if n == -1 then StatesOf(pipes) == old(StatesOf(pipes))
              else ReadStep(old(StatesOf(pipes)), StatesOf(pipes), k, count, n, mem[..])
      ensures Untouched(old(tab.fs.vol.disk), old(tab.fs.layout.ino), old(tab.fs.itab[..]), tab.fs.vol.disk,
                        tab.fs.layout.ino,
                        tab.fs.itab[..], if n == -1 then {}
                          else {PipeNum(old(tab.fs.itab[..]), old(StatesOf(pipes)), k)})
    {
      hide System.Sound, System.Good, System.Apart, StatesOf, Inodes.Ready, Inodes.Intact, Inodes.Valid, FileSys.Ready;
      hide FileSys.Valid, Vol.Valid, Vol.Linked;
      hide GoodLayout, GoodNumbers, TableUses, OtherDevices, GoodState, InUse, DiskNode, Untouched, Current, FileGood;
      hide IsEmpty, Slots;
      hide PipePair.Valid, OnlyFile, ReadStep, RefsKept;
      n := -1;
      var fs := tab.fs;
      ghost var d0, i0, t0, ps := fs.vol.disk, fs.layout.ino, fs.itab[..], StatesOf(pipes);
      UntouchedRefl(d0, i0, t0, {});
      RefsKeptRefl(t0, {});
      if 0 <= k < |pipes| && pipes[k].reader.Awake? && count <= 0x7FFF {
        PipeAt(k);
        if !again {
          Mark(pipes[k].ip);
        }
        ghost var t1 := fs.itab[..];
        MarkKept(t0, t1, pipes[k].ip);
        n := ReadAttempt(k, count, mem);
        ReadStepNat(ps, StatesOf(pipes), k, count, n, mem[..]);
        KeptOnceMore(t0, t1, fs.itab[..]);
        ghost var num := PipeNum(t0, ps, k);
        UntouchedTrans(d0, i0, t0, d0, i0, t1, fs.vol.disk, fs.layout.ino, fs.itab[..], {}, {num});
        assert {} + {num} == {num};
      }
    }

    method ReadAttempt(k: int, count: Word, mem: array<Byte>) returns (n: int)
      requires Sound() && mem.Length == 0x8000 && mem !in Parts() && CanRead(StatesOf(pipes), k, count)
      modifies Parts(), pipes, mem
      ensures tab.exact == old(tab.exact)
      ensures Sound() && pipes == old(pipes) && log == old(log) && ranged == old(ranged) && special == old(special)
      ensures RefsKept(old(tab.fs.itab[..]), tab.fs.itab[..], {})
      ensures ReadStep(old(StatesOf(pipes)), StatesOf(pipes), k, count, n, mem[..])
      ensures Untouched(old(tab.fs.vol.disk), old(tab.fs.layout.ino), old(tab.fs.itab[..]), tab.fs.vol.disk,
                        tab.fs.layout.ino,
                        tab.fs.itab[..], {PipeNum(old(tab.fs.itab[..]), old(StatesOf(pipes)), k)})
    {
      hide System.Sound, System.Good, System.Apart, StatesOf, Inodes.Ready, Inodes.Intact, Inodes.Valid, FileSys.Ready;
      hide FileSys.Valid, Vol.Valid, Vol.Linked;
      hide GoodLayout, GoodNumbers, TableUses, OtherDevices, GoodState, InUse, DiskNode, Untouched, Current, FileGood;
      hide IsEmpty, Slots;
      hide PipePair.Valid, OnlyFile, GoodPipeEnds, RefsKept;
      SoundIs();
      tab.ReadyMeans();
      PipeAt(k);
      var fs := tab.fs;
      var q := pipes[k];
      ghost var d, m, t, p, ps := fs.vol.disk, fs.layout, fs.itab[..], tab.pending, StatesOf(pipes);
      q.ValidIs();
      EndsCounts(d, t, q.State());
      n := q.Read(mem, 0, count);
      n := if q.reader.Asleep? then 0 else n;
      assert mem[0..0 + n] == mem[..n];
      q.ValidIs();
      tab.ReadyMeans();
      assert StatesOf(pipes) == ps[k := q.State()];
      PipeStepKeepsState(d, m, t, fs.vol.isize, fs.vol.fsize, ps, special, log, ranged,
                         fs.vol.disk, fs.layout.ino, fs.itab[..], k, q.State());
      SoundIs();
    }

    /** One attempt to write to a pipe, from the start of memory; -1 without a reader. */
    method DoWritePipe(k: int, count: Word, again: bool, mem: array<Byte>) returns (n: int)
      requires Sound() && mem.Length == 0x8000 && mem !in Parts()
      modifies Parts(), pipes
      ensures tab.exact == old(tab.exact)
      ensures Sound() && pipes == old(pipes) && log == old(log) && ranged == old(ranged) && special == old(special)
      ensures RefsKept(old(tab.fs.itab[..]), tab.fs.itab[..], {})
      ensures if CanWrite(old(StatesOf(pipes)), k, count)
              then WriteStep(old(StatesOf(pipes)), StatesOf(pipes), k, count, n, mem[..], tab.fs.vol.stack == [])
              else n == 0 && StatesOf(pipes) == old(StatesOf(pipes))
      ensures Untouched(old(tab.fs.vol.disk), old(tab.fs.layout.ino), old(tab.fs.itab[..]), tab.fs.vol.disk,
                        tab.fs.layout.ino,
                        tab.fs.itab[..], if CanWrite(old(StatesOf(pipes)), k, count)
                                         then {PipeNum(old(tab.fs.itab[..]), old(StatesOf(pipes)), k)} else {})
    {
      hide System.Sound, System.Good, System.Apart, StatesOf, Inodes.Ready, Inodes.Intact, Inodes.Valid, FileSys.Ready;
      hide FileSys.Valid, Vol.Valid, Vol.Linked;
      hide GoodLayout, GoodNumbers, TableUses, OtherDevices, GoodState, InUse, DiskNode, Untouched, Current, FileGood;
      hide IsEmpty, Slots;
      hide PipePair.Valid, OnlyFile, WriteStep, RefsKept;
      n := 0;
      var fs := tab.fs;
      ghost var d0, i0, t0, ps := fs.vol.disk, fs.layout.ino, fs.itab[..], StatesOf(pipes);
      UntouchedRefl(d0, i0, t0, {});
      RefsKeptRefl(t0, {});
      if 0 <= k < |pipes| && pipes[k].writer.Awake? && count <= 0x8000 {
        PipeAt(k);
        if !again {
          Mark(pipes[k].ip);
        }
        ghost var t1 := fs.itab[..];
        MarkKept(t0, t1, pipes[k].ip);
        n := WriteAttempt(k, count, mem);
        KeptOnceMore(t0, t1, fs.itab[..]);
        ghost var num := PipeNum(t0, ps, k);
        UntouchedTrans(d0, i0, t0, d0, i0, t1, fs.vol.disk, fs.layout.ino, fs.itab[..], {}, {num});
        assert {} + {num} == {num};
      }
    }

    method WriteAttempt(k: int, count: Word, mem: array<Byte>) returns (n: int)
      requires Sound() && mem.Length == 0x8000 && mem !in Parts() && CanWrite(StatesOf(pipes), k, count)
      modifies Parts(), pipes
      ensures tab.exact == old(tab.exact)
      ensures Sound() && pipes == old(pipes) && log == old(log) && ranged == old(ranged) && special == old(special)
      ensures RefsKept(old(tab.fs.itab[..]), tab.fs.itab[..], {})
      ensures WriteStep(old(StatesOf(pipes)), StatesOf(pipes), k, count, n, mem[..], tab.fs.vol.stack == [])
      ensures Untouched(old(tab.fs.vol.disk), old(tab.fs.layout.ino), old(tab.fs.itab[..]), tab.fs.vol.disk,
                        tab.fs.layout.ino,
                        tab.fs.itab[..], {PipeNum(old(tab.fs.itab[..]), old(StatesOf(pipes)), k)})
    {
      hide System.Sound, System.Good, System.Apart, StatesOf, Inodes.Ready, Inodes.Intact, Inodes.Valid, FileSys.Ready;
      hide FileSys.Valid, Vol.Valid, Vol.Linked;
      hide GoodLayout, GoodNumbers, TableUses, OtherDevices, GoodState, InUse, DiskNode, Untouched, Current, FileGood;
      hide IsEmpty, Slots;
      hide PipePair.Valid, OnlyFile, GoodPipeEnds, RefsKept;
      SoundIs();
      tab.ReadyMeans();
      PipeAt(k);
      var fs := tab.fs;
      var q := pipes[k];
      ghost var d, m, t, p, ps := fs.vol.disk, fs.layout, fs.itab[..], tab.pending, StatesOf(pipes);
      var sigpipe;
      n, sigpipe := q.Write(mem, 0, count);
      assert forall j | 0 <= j <= mem.Length :: mem[0..0 + j] == mem[..j];
      q.ValidIs();
      tab.ReadyMeans();
      assert StatesOf(pipes) == ps[k := q.State()];
      PipeStepKeepsState(d, m, t, fs.vol.isize, fs.vol.fsize, ps, special, log, ranged,
                         fs.vol.disk, fs.layout.ino, fs.itab[..], k, q.State());
      SoundIs();
    }

    /** Closing one end. With the other closed already the inode and its blocks are free again, and
        the pipe is gone. */
    method DoCloseEnd(k: int, write: bool) returns (ghost gone: bool)
      requires Sound()
      modifies Parts(), pipes
      ensures tab.exact == old(tab.exact)
      ensures Sound() && ranged == old(ranged)
      ensures if gone then 0 <= k < |old(pipes)| && pipes == old(pipes)[..k] + old(pipes)[k + 1..]
              else pipes == old(pipes)
      ensures CloseStep(old(StatesOf(pipes)), StatesOf(pipes), k, write, gone)
      ensures EndSlot(old(tab.fs.itab[..]), tab.fs.itab[..], old(StatesOf(pipes)), k, write, gone)
      ensures log == if gone then old(log) + [Emptied(PipeNum(old(tab.fs.itab[..]), old(StatesOf(pipes)), k))]
              else old(log)
      ensures Untouched(old(tab.fs.vol.disk), old(tab.fs.layout.ino), old(tab.fs.itab[..]), tab.fs.vol.disk,
                        tab.fs.layout.ino,
                        tab.fs.itab[..], if gone then {PipeNum(old(tab.fs.itab[..]), old(StatesOf(pipes)), k)} else {})
    {
      hide System.Sound, System.Good, System.Apart, StatesOf, Inodes.Ready, Inodes.Intact, Inodes.Valid, FileSys.Ready;
      hide FileSys.Valid, Vol.Valid, Vol.Linked;
      hide GoodLayout, GoodNumbers, TableUses, OtherDevices, GoodState, InUse, DiskNode, Untouched, Current, FileGood;
      hide IsEmpty, Slots;
      hide PipePair.Valid, CloseStep, GoodPipeEnds, EndSlot;
      gone := false;
      UntouchedRefl(tab.fs.vol.disk, tab.fs.layout.ino, tab.fs.itab[..], {});
      NoClose(StatesOf(pipes), tab.fs.itab[..], k, write);
      if 0 <= k < |pipes| && (if write then pipes[k].writer else pipes[k].reader).Awake? {
        if (if write then pipes[k].reader else pipes[k].writer).Closed? {
          CloseLastEnd(k, write);
          gone := true;
        } else {
          CloseOneEnd(k, write);
        }
      }
    }

    method CloseOneEnd(k: int, write: bool)
      requires Sound() && 0 <= k < |pipes|
      requires (if write then pipes[k].writer else pipes[k].reader).Awake?
               && !(if write then pipes[k].reader else pipes[k].writer).Closed?
      modifies Parts(), pipes
      ensures tab.exact == old(tab.exact)
      ensures Sound() && ranged == old(ranged) && pipes == old(pipes) && log == old(log)
      ensures CloseStep(old(StatesOf(pipes)), StatesOf(pipes), k, write, false)
      ensures EndSlot(old(tab.fs.itab[..]), tab.fs.itab[..], old(StatesOf(pipes)), k, write, false)
      ensures Untouched(old(tab.fs.vol.disk), old(tab.fs.layout.ino), old(tab.fs.itab[..]),
                        tab.fs.vol.disk, tab.fs.layout.ino, tab.fs.itab[..], {})
    {
      hide System.Sound, System.Good, System.Apart, StatesOf, Inodes.Ready, Inodes.Intact, Inodes.Valid, FileSys.Ready;
      hide FileSys.Valid, Vol.Valid, Vol.Linked;
      hide GoodLayout, GoodNumbers, TableUses, OtherDevices, GoodState, InUse, DiskNode, Untouched, Current, FileGood;
      hide IsEmpty, Slots;
      hide PipePair.Valid, GoodPipeEnds, EndSlot;
      SoundIs();
      tab.ReadyMeans();
      PipeAt(k);
      var fs := tab.fs;
      var q := pipes[k];
      q.ValidIs();
      ghost var d, m, t, p, ps := fs.vol.disk, fs.layout, fs.itab[..], tab.pending, StatesOf(pipes);
      if write {
        q.CloseWriter();
      } else {
        q.CloseReader();
      }
      q.ValidIs();
      tab.ReadyMeans();
      assert StatesOf(pipes) == ps[k := q.State()];
      EndDropped(d, t, fs.itab[..], ps, k, write, false);
      CloseEndKeepsState(d, m, t, fs.vol.isize, fs.vol.fsize, ps, special, log, ranged, fs.itab[..], k, q.State());
      SoundIs();
    }

    method CloseLastEnd(k: int, write: bool)
      requires Sound() && 0 <= k < |pipes|
      requires (if write then pipes[k].writer else pipes[k].reader).Awake?
               && (if write then pipes[k].reader else pipes[k].writer).Closed?
      modifies Parts(), pipes
      ensures tab.exact == old(tab.exact)
      ensures Sound() && ranged == old(ranged) && pipes == old(pipes)[..k] + old(pipes)[k + 1..]
      ensures CloseStep(old(StatesOf(pipes)), StatesOf(pipes), k, write, true)
      ensures EndSlot(old(tab.fs.itab[..]), tab.fs.itab[..], old(StatesOf(pipes)), k, write, true)
      ensures log == old(log) + [Emptied(PipeNum(old(tab.fs.itab[..]), old(StatesOf(pipes)), k))]
      ensures Untouched(old(tab.fs.vol.disk), old(tab.fs.layout.ino), old(tab.fs.itab[..]), tab.fs.vol.disk,
                        tab.fs.layout.ino,
                        tab.fs.itab[..], {PipeNum(old(tab.fs.itab[..]), old(StatesOf(pipes)), k)})
    {
      hide System.Sound, System.Good, System.Apart, StatesOf, Inodes.Ready, Inodes.Intact, Inodes.Valid, FileSys.Ready;
      hide FileSys.Valid, Vol.Valid, Vol.Linked;
      hide GoodLayout, GoodNumbers, TableUses, OtherDevices, GoodState, InUse, DiskNode, Untouched, Current, FileGood;
      hide IsEmpty, Slots;
      hide PipePair.Valid, GoodPipeEnds, EndSlot;
      SoundIs();
      tab.ReadyMeans();
      PipeAt(k);
      var fs := tab.fs;
      var q := pipes[k];
      q.ValidIs();
      ghost var d, m, t, p, ps, l, s := fs.vol.disk, fs.layout, fs.itab[..], tab.pending, StatesOf(pipes), log, special;
      q.CloseLast();
      tab.ReadyMeans();
      RemovePipe(k, ps);
      ghost var num := PipeNum(t, ps, k);
      special := special - {num};
      log := log + [Emptied(num)];
      EndDropped(d, t, fs.itab[..], ps, k, write, true);
      LastCloseKeepsState(d, m, t, fs.vol.isize, fs.vol.fsize, ps, s, l, ranged,
                          fs.vol.disk, fs.layout, fs.itab[..], k);
      SoundIs();
    }

    method RemovePipe(k: int, ghost ps: seq<Ends>)
      requires Apart() && 0 <= k < |pipes| && |ps| == |pipes|
      requires forall j | 0 <= j < |pipes| && j != k :: pipes[j].State() == ps[j]
      modifies `pipes
      ensures Apart() && pipes == old(pipes)[..k] + old(pipes)[k + 1..] && StatesOf(pipes) == ps[..k] + ps[k + 1..]
    {
      hide PipePair.Valid, PipePair.State, Inodes.Intact, Inodes.Ready, GoodState, FileSys.Valid;
      ghost var was := pipes;
      pipes := pipes[..k] + pipes[k + 1..];
      forall i, j | 0 <= i < j < |pipes|
        ensures pipes[i] != pipes[j]
      {
        assert pipes[i] == was[if i < k then i else i + 1] && pipes[j] == was[if j < k then j else j + 1];
      }
    }

    // ----- Runs -----

    /** The calls that find or remove inodes. */
    method ServeName(call: Call, mem: array<Byte>, garbage: Block) returns (n: int, ghost touched: set<int>)
      requires Sound() && mem !in Parts() && (call.Open? || call.Remove?)
      modifies Parts()
      ensures Sound() && pipes == old(pipes)
      ensures CallDone(call, old(tab.fs.vol.disk), old(Now()), tab.fs.vol.disk, Now(), mem[..], n, touched)
    {
      hide System.Sound, System.Good, System.Apart, StatesOf, Inodes.Ready, Inodes.Intact, Inodes.Valid, FileSys.Ready;
      hide FileSys.Valid, Vol.Valid, Vol.Linked;
      hide GoodLayout, GoodNumbers, TableUses, OtherDevices, GoodState, InUse, DiskNode, Untouched, Current, FileGood;
      hide IsEmpty, Slots;
      hide HoldsLast, ReadStep, WriteStep, CanRead, CanWrite, CloseStep, PipeNum, NumAt, Position, OpenDirectory;
      hide Listed, EntriesOf, CanOpen, NewName, CanMake, CanRemove, NameAdded, NameGone, SameEntries, MakeStep, SizeAt;
      hide LastUse, RefDropped, SizeGone, SizeGrown, Readable, Writable, OpenFile, OpenRegular, NewFileNode, InFile;
      hide OthersSame, Component, Counted, Settled, LooksFree, Referenced, Created, CreationLogged, Removed, RemoveLog;
      hide RefsKept, PipeSlot, EndSlot, Vacant, SameSlot, Saved, DirectorySlot, LastName, MakeEntry;
      NotCounted(tab.fs.itab[..], tab.pending, tab.exact, tab.ninode, tab.tinode);
      n, touched := -1, {};
      UntouchedRefl(tab.fs.vol.disk, tab.fs.layout.ino, tab.fs.itab[..], {});
      NobodyReferenced(tab.fs.itab[..], 0);
      match call {
      case Open(i) =>
        if i != 0 {
          n := DoOpen(i, garbage);
        }
      case Remove(wd, name) =>
        ghost var num, k;
        var ok;
        ok, num, k, touched := DoRemove(wd, name, garbage);
        n := if ok then 0 else -1;
      }
      SoundIsGood();
    }

    /** Creation. */
    method ServeCreate(call: Call, mem: array<Byte>, garbage: Block) returns (n: int, ghost touched: set<int>)
      requires Sound() && mem !in Parts() && call.Create?
      modifies Parts()
      ensures Good() && (Sound() <==> !tab.corrupt) && pipes == old(pipes)
      ensures CallDone(call, old(tab.fs.vol.disk), old(Now()), tab.fs.vol.disk, Now(), mem[..], n, touched)
    {
      hide System.Sound, System.Good, System.Apart, StatesOf, Inodes.Ready, Inodes.Intact, Inodes.Valid, FileSys.Ready;
      hide FileSys.Valid, Vol.Valid, Vol.Linked;
      hide GoodLayout, GoodNumbers, TableUses, OtherDevices, GoodState, InUse, DiskNode, Untouched, Current, FileGood;
      hide IsEmpty, Slots;
      hide HoldsLast, ReadStep, WriteStep, CanRead, CanWrite, CloseStep, PipeNum, NumAt, Position, OpenDirectory;
      hide Listed, EntriesOf, CanOpen, NewName, CanMake, CanRemove, NameAdded, NameGone, SameEntries, MakeStep, SizeAt;
      hide LastUse, RefDropped, SizeGone, SizeGrown, Readable, Writable, OpenFile, OpenRegular, NewFileNode, InFile;
      hide OthersSame, Component, Counted, Settled, LooksFree, Referenced, Created, CreationLogged, Removed, RemoveLog;
      hide RefsKept, PipeSlot, EndSlot, Vacant, SameSlot, Saved, DirectorySlot, LastName, MakeEntry;
      NotCounted(tab.fs.itab[..], tab.pending, tab.exact, tab.ninode, tab.tinode);
      n, touched := -1, {};
      UntouchedRefl(tab.fs.vol.disk, tab.fs.layout.ino, tab.fs.itab[..], {});
      RefsKeptRefl(tab.fs.itab[..], {});
      ghost var num;
      ghost var k;
      n, num, k, touched := DoCreate(call.wd, call.name, garbage);
      SoundIsGood();
    }

    /** The calls on open files that move no data. */
    method ServeFile(call: Call, mem: array<Byte>) returns (n: int, ghost touched: set<int>)
      requires Sound() && mem.Length == 0x8000 && mem !in Parts()
      requires call.Close? || call.Truncate?
      modifies Parts()
      ensures Sound() && pipes == old(pipes)
      ensures CallDone(call, old(tab.fs.vol.disk), old(Now()), tab.fs.vol.disk, Now(), mem[..], n, touched)
    {
      hide System.Sound, System.Good, System.Apart, StatesOf, Inodes.Ready, Inodes.Intact, Inodes.Valid, FileSys.Ready;
      hide FileSys.Valid, Vol.Valid, Vol.Linked;
      hide GoodLayout, GoodNumbers, TableUses, OtherDevices, GoodState, InUse, DiskNode, Untouched, Current, FileGood;
      hide IsEmpty, Slots;
      hide HoldsLast, ReadStep, WriteStep, CanRead, CanWrite, CloseStep, PipeNum, NumAt, Position, OpenDirectory;
      hide Listed, EntriesOf, CanOpen, NewName, CanMake, CanRemove, NameAdded, NameGone, SameEntries, MakeStep, SizeAt;
      hide LastUse, RefDropped, SizeGone, SizeGrown, Readable, Writable, OpenFile, OpenRegular, NewFileNode, InFile;
      hide OthersSame, Component, Counted, Settled, LooksFree, Referenced, Created, CreationLogged, Removed, RemoveLog;
      hide RefsKept, PipeSlot, EndSlot, Vacant, SameSlot, Saved, DirectorySlot, LastName, MakeEntry;
      NotCounted(tab.fs.itab[..], tab.pending, tab.exact, tab.ninode, tab.tinode);
      n, touched := 0, {};
      match call {
      case Close(ip) =>
        touched := DoClose(ip);
      case Truncate(ip) =>
        touched := DoTruncate(ip);
      }
      SoundIsGood();
    }

    method ServeSync(mem: array<Byte>, garbage: Block) returns (n: int, ghost touched: set<int>)
      requires Sound() && mem.Length == 0x8000 && mem !in Parts()
      modifies Parts()
      ensures Sound() && pipes == old(pipes)
      ensures CallDone(SyncAll, old(tab.fs.vol.disk), old(Now()), tab.fs.vol.disk, Now(), mem[..], n, touched)
    {
      hide System.Sound, System.Good, System.Apart, StatesOf, Inodes.Ready, Inodes.Intact, Inodes.Valid, FileSys.Ready;
      hide FileSys.Valid, Vol.Valid, Vol.Linked;
      hide GoodLayout, GoodNumbers, TableUses, OtherDevices, GoodState, InUse, DiskNode, Untouched, Current, FileGood;
      hide IsEmpty, Slots;
      hide HoldsLast, ReadStep, WriteStep, CanRead, CanWrite, CloseStep, PipeNum, NumAt, Position, OpenDirectory;
      hide Listed, EntriesOf, CanOpen, NewName, CanMake, CanRemove, NameAdded, NameGone, SameEntries, MakeStep, SizeAt;
      hide LastUse, RefDropped, SizeGone, SizeGrown, Readable, Writable, OpenFile, OpenRegular, NewFileNode, InFile;
      hide OthersSame, Component, Saved, Referenced, Created, CreationLogged, Removed, RemoveLog;
      hide RefsKept, PipeSlot, EndSlot, Vacant, SameSlot, DirectorySlot, LastName, MakeEntry;
      n, touched := 0, {};
      DoSync(garbage);
      SoundIsGood();
    }

    /** Reads and writes of files. */
    method ServeTransfer(call: Call, mem: array<Byte>) returns (n: int, ghost touched: set<int>)
      requires Sound() && mem.Length == 0x8000 && mem !in Parts()
      requires call.ReadAt? || call.WriteAt?
      modifies Parts(), mem
      ensures Sound() && pipes == old(pipes)
      ensures CallDone(call, old(tab.fs.vol.disk), old(Now()), tab.fs.vol.disk, Now(), mem[..], n, touched)
    {
      hide System.Sound, System.Good, System.Apart, StatesOf, Inodes.Ready, Inodes.Intact, Inodes.Valid, FileSys.Ready;
      hide FileSys.Valid, Vol.Valid, Vol.Linked;
      hide GoodLayout, GoodNumbers, TableUses, OtherDevices, GoodState, InUse, DiskNode, Untouched, Current, FileGood;
      hide IsEmpty, Slots;
      hide HoldsLast, ReadStep, WriteStep, CanRead, CanWrite, CloseStep, PipeNum, NumAt, Position, OpenDirectory;
      hide Listed, EntriesOf, CanOpen, NewName, CanMake, CanRemove, NameAdded, NameGone, SameEntries, MakeStep, SizeAt;
      hide LastUse, RefDropped, SizeGone, SizeGrown, Readable, Writable, OpenFile, OpenRegular, NewFileNode, InFile;
      hide OthersSame, Component, Counted, Settled, LooksFree, Referenced, Created, CreationLogged, Removed, RemoveLog;
      hide RefsKept, PipeSlot, EndSlot, Vacant, SameSlot, Saved, DirectorySlot, LastName, MakeEntry;
      NotCounted(tab.fs.itab[..], tab.pending, tab.exact, tab.ninode, tab.tinode);
      n, touched := 0, {};
      match call {
      case ReadAt(ip, o, count) =>
        n := DoRead(ip, o, count, mem);
      case WriteAt(ip, o, count) =>
        n, touched := DoWrite(ip, o, count, mem);
      }
      SoundIsGood();
    }

    /** Making pipes and closing their ends. */
    method ServePipe(call: Call, mem: array<Byte>, garbage: Block) returns (n: int, ghost touched: set<int>)
      requires Sound() && mem.Length == 0x8000 && mem !in Parts()
      requires call.MakePipe? || call.CloseEnd?
      modifies Parts(), pipes
      ensures Good() && (Sound() <==> !tab.corrupt)
      ensures forall q | q in pipes :: q in old(pipes) || fresh(q)
      ensures CallDone(call, old(tab.fs.vol.disk), old(Now()), tab.fs.vol.disk, Now(), mem[..], n, touched)
    {
      hide System.Sound, System.Good, System.Apart, StatesOf, Inodes.Ready, Inodes.Intact, Inodes.Valid, FileSys.Ready;
      hide FileSys.Valid, Vol.Valid, Vol.Linked;
      hide GoodLayout, GoodNumbers, TableUses, OtherDevices, GoodState, InUse, DiskNode, Untouched, Current, FileGood;
      hide IsEmpty, Slots;
      hide HoldsLast, ReadStep, WriteStep, CanRead, CanWrite, CloseStep, PipeNum, NumAt, Position, OpenDirectory;
      hide Listed, EntriesOf, CanOpen, NewName, CanMake, CanRemove, NameAdded, NameGone, SameEntries, MakeStep, SizeAt;
      hide LastUse, RefDropped, SizeGone, SizeGrown, Readable, Writable, OpenFile, OpenRegular, NewFileNode, InFile;
      hide OthersSame, Component, Counted, Settled, LooksFree, Referenced, Created, CreationLogged, Removed, RemoveLog;
      hide RefsKept, PipeSlot, EndSlot, Vacant, SameSlot, Saved, DirectorySlot, LastName, MakeEntry;
      NotCounted(tab.fs.itab[..], tab.pending, tab.exact, tab.ninode, tab.tinode);
      n, touched := 0, {};
      match call {
      case MakePipe =>
        ghost var num;
        var made;
        made, num := DoPipe(garbage);
        n := if made then 0 else -1;
        touched := if made then {num as int} else {};
        OldOrNew(old(pipes), pipes);
      case CloseEnd(k, write) =>
        ghost var gone := DoCloseEnd(k, write);
        touched := if gone then {PipeNum(old(tab.fs.itab[..]), old(StatesOf(pipes)), k)} else {};
      }
      SoundIsGood();
    }

    /** Reads from pipes and writes to them. */
    method ServeEnds(call: Call, mem: array<Byte>) returns (n: int, ghost touched: set<int>)
      requires Sound() && mem.Length == 0x8000 && mem !in Parts()
      requires call.ReadPipe? || call.WritePipe?
      modifies Parts(), pipes, mem
      ensures Sound() && pipes == old(pipes)
      ensures CallDone(call, old(tab.fs.vol.disk), old(Now()), tab.fs.vol.disk, Now(), mem[..], n, touched)
    {
      hide System.Sound, System.Good, System.Apart, StatesOf, Inodes.Ready, Inodes.Intact, Inodes.Valid, FileSys.Ready;
      hide FileSys.Valid, Vol.Valid, Vol.Linked;
      hide GoodLayout, GoodNumbers, TableUses, OtherDevices, GoodState, InUse, DiskNode, Untouched, Current, FileGood;
      hide IsEmpty, Slots;
      hide HoldsLast, ReadStep, WriteStep, CanRead, CanWrite, CloseStep, PipeNum, NumAt, Position, OpenDirectory;
      hide Listed, EntriesOf, CanOpen, NewName, CanMake, CanRemove, NameAdded, NameGone, SameEntries, MakeStep, SizeAt;
      hide LastUse, RefDropped, SizeGone, SizeGrown, Readable, Writable, OpenFile, OpenRegular, NewFileNode, InFile;
      hide OthersSame, Component, Counted, Settled, LooksFree, Referenced, Created, CreationLogged, Removed, RemoveLog;
      hide RefsKept, PipeSlot, EndSlot, Vacant, SameSlot, Saved, DirectorySlot, LastName, MakeEntry;
      NotCounted(tab.fs.itab[..], tab.pending, tab.exact, tab.ninode, tab.tinode);
      n, touched := 0, {};
      match call {
      case ReadPipe(k, count, again) =>
        n := DoReadPipe(k, count, again, mem);
        touched := if n == -1 then {} else {PipeNum(old(tab.fs.itab[..]), old(StatesOf(pipes)), k)};
      case WritePipe(k, count, again) =>
        n := DoWritePipe(k, count, again, mem);
        touched := if CanWrite(old(StatesOf(pipes)), k, count)
          then {PipeNum(old(tab.fs.itab[..]), old(StatesOf(pipes)), k)} else {};
      }
      SoundIsGood();
    }

    /** Serves one call, whose files alone change (touched): what it does is `Served`. */
    method Serve(call: Call, mem: array<Byte>, garbage: Block) returns (n: int, ghost touched: set<int>)
      requires Sound() && mem.Length == 0x8000 && mem !in Parts()
      modifies Parts(), pipes, mem
      ensures Good() && (Sound() <==> !tab.corrupt)
      ensures forall q | q in pipes :: q in old(pipes) || fresh(q)
      ensures CallDone(call, old(tab.fs.vol.disk), old(Now()), tab.fs.vol.disk, Now(), mem[..], n, touched)
    {
      hide System.Sound, System.Good, System.Apart, StatesOf, Inodes.Ready, Inodes.Intact, Inodes.Valid, FileSys.Ready;
      hide FileSys.Valid, Vol.Valid, Vol.Linked;
      hide GoodLayout, GoodNumbers, TableUses, OtherDevices, GoodState, InUse, DiskNode, Untouched, Current, FileGood;
      hide IsEmpty, Slots;
      hide CallDone;
      if call.Open? || call.Remove? {
        n, touched := ServeName(call, mem, garbage);
      } else if call.Create? {
        n, touched := ServeCreate(call, mem, garbage);
      } else if call.MakePipe? || call.CloseEnd? {
        n, touched := ServePipe(call, mem, garbage);
      } else if call.ReadPipe? || call.WritePipe? {
        n, touched := ServeEnds(call, mem);
      } else if call.ReadAt? || call.WriteAt? {
        n, touched := ServeTransfer(call, mem);
      } else if call.SyncAll? {
        n, touched := ServeSync(mem, garbage);
      } else {
        n, touched := ServeFile(call, mem);
      }
      SoundIsGood();
    }

    /** Serves a sequence of calls, all of them unless the superblock becomes marked as corrupt. The
        states that it goes through, disk and rest, differ by the calls served. */
    method Run(calls: seq<Call>, mem: array<Byte>, garbage: Block)
      returns (served: nat, ghost disks: seq<Disk>, ghost cores: seq<Core>, ghost steps: seq<Step>)
      requires Sound() && mem.Length == 0x8000 && mem !in Parts()
      modifies Parts(), pipes, mem
      ensures Good() && (Sound() <==> !tab.corrupt) && served <= |calls| && (tab.corrupt || served == |calls|)
      ensures forall q | q in pipes :: q in old(pipes) || fresh(q)
      ensures old(ranged) && (forall i | 0 <= i < served :: InRange(calls[i])) ==> ranged
      ensures |disks| == |cores| == served + 1 && |steps| == served
      ensures disks[0] == old(tab.fs.vol.disk) && cores[0] == old(Now())
      ensures disks[served] == tab.fs.vol.disk && cores[served] == Now()
      ensures forall i | 0 <= i < served :: StepDone(calls[i], disks[i], cores[i], disks[i + 1], cores[i + 1], steps[i])
    {
      hide System.Sound, System.Good, System.Apart, StatesOf, Inodes.Ready, Inodes.Intact, Inodes.Valid, FileSys.Ready;
      hide FileSys.Valid, Vol.Valid, Vol.Linked;
      hide CallDone, System.Now, InRange;
      served, disks, cores, steps := 0, [tab.fs.vol.disk], [Now()], [];
      SoundIsGood();
      while served < |calls| && !tab.corrupt
        invariant Good() && (Sound() <==> !tab.corrupt) && served <= |calls|
        invariant forall q | q in pipes :: q in old(pipes) || fresh(q)
        invariant old(ranged) && (forall i | 0 <= i < served :: InRange(calls[i])) ==> ranged
        invariant |disks| == |cores| == served + 1 && |steps| == served
        invariant disks[0] == old(tab.fs.vol.disk) && cores[0] == old(Now())
        invariant disks[served] == tab.fs.vol.disk && cores[served] == Now()
        invariant forall i | 0 <= i < served ::
                    StepDone(calls[i], disks[i], cores[i], disks[i + 1], cores[i + 1], steps[i])
      {
        assert forall j | 0 <= j < |pipes| :: pipes[j] in old(pipes) || fresh(pipes[j]);
        var n;
        ghost var touched;
        ghost var d, c := tab.fs.vol.disk, Now();
        NowRanged();
        n, touched := Serve(calls[served], mem, garbage);
        StaysRanged(calls[served], d, c, tab.fs.vol.disk, Now(), mem[..], n, touched);
        NowRanged();
        disks, cores, steps := disks + [tab.fs.vol.disk], cores + [Now()], steps + [Step(mem[..], n, touched)];
        served := served + 1;
      }
    }
  }

  /** The memory and the result that a call leaves, and the inodes that it touched. */
  datatype Step = Step(mem: seq<Byte>, n: int, touched: set<int>)

  lemma {:induction false} StaysRanged(
      call: Call, d: Disk, c: Core, d': Disk, c': Core, mem: seq<Byte>, n: int, touched: set<int>)
    requires CallDone(call, d, c, d', c', mem, n, touched)
    ensures c.ranged && InRange(call) ==> c'.ranged
  {
    hide Served, Untouched, MayTouch, Counted, InRange;
  }

  ghost function Touches(steps: seq<Step>): set<int> {
    if steps == [] then {} else Touches(steps[..|steps| - 1]) + steps[|steps| - 1].touched
  }

  /** What a run does not touch is as it was, and only what it touches is in the longer log. */
  lemma {:induction false} RunFrame(calls: seq<Call>, disks: seq<Disk>, cores: seq<Core>, steps: seq<Step>, n: nat)
    requires |disks| == |cores| == |steps| + 1 && n <= |steps| <= |calls|
    requires forall i | 0 <= i < |steps| ::
               StepDone(calls[i], disks[i], cores[i], disks[i + 1], cores[i + 1], steps[i])
    ensures Untouched(disks[0], cores[0].ino, cores[0].tab, disks[n], cores[n].ino, cores[n].tab, Touches(steps[..n]))
    ensures cores[0].log <= cores[n].log
    ensures forall i | |cores[0].log| <= i < |cores[n].log| :: cores[n].log[i].n in Touches(steps[..n])
  {
    hide Served, Untouched, MayTouch, Counted, InRange;
    if n == 0 {
      UntouchedRefl(disks[0], cores[0].ino, cores[0].tab, {});
    } else {
      RunFrame(calls, disks, cores, steps, n - 1);
      assert steps[..n][..n - 1] == steps[..n - 1];
      assert StepDone(calls[n - 1], disks[n - 1], cores[n - 1], disks[n], cores[n], steps[n - 1]);
      UntouchedTrans(disks[0], cores[0].ino, cores[0].tab, disks[n - 1], cores[n - 1].ino, cores[n - 1].tab,
                     disks[n], cores[n].ino, cores[n].tab, Touches(steps[..n - 1]), steps[n - 1].touched);
    }
  }

  ghost predicate StepDone(call: Call, d: Disk, c: Core, d': Disk, c': Core, s: Step) {
    CallDone(call, d, c, d', c', s.mem, s.n, s.touched)
  }

  // ----- Calls on one slot of the table -----

  /** The number of the inode in slot ip. */
  function NumAt(t: seq<Cinode>, ip: int): int {
    if 0 <= ip < |t| then t[ip].num else 0
  }

  function SizeAt(t: seq<Cinode>, ip: int): Off
    requires 0 <= ip < |t|
  {
    SizeOf(t[ip].node)
  }

  /** An open regular file or directory. */
  predicate OpenFile(t: seq<Cinode>, ip: int) {
    0 <= ip < |t| && t[ip].num != 0 && t[ip].refs > 0 && IsFile(t[ip].node)
  }

  predicate OpenRegular(t: seq<Cinode>, ip: int) {
    0 <= ip < |t| && t[ip].num != 0 && t[ip].refs > 0 && Getmode(t[ip].node.mode) == F_REG
  }

  /** The reads of a run: from inside the file, and short enough for the end-of-file test. */
  predicate Readable(t: seq<Cinode>, ip: int, o: Off, count: Word) {
    OpenFile(t, ip) && GoodOff(o) && count <= 32257 && GoodOff(SizeAt(t, ip)) && Position(o) <= Position(SizeAt(t, ip))
  }

  predicate Writable(t: seq<Cinode>, ip: int, o: Off, count: Word) {
    OpenRegular(t, ip) && GoodOff(o) && count <= 0x7FFF && GoodOff(SizeAt(t, ip))
  }

  lemma {:induction false} ReadableIs(t: seq<Cinode>, ip: int, o: Off, count: Word)
    requires Readable(t, ip, o, count)
    ensures 0 <= ip < |t| && t[ip].num != 0 && t[ip].refs > 0 && IsFile(t[ip].node) && !IsPipe(t[ip].node)
    ensures Readable(t[ip := t[ip].(dirty := true)], ip, o, count)
  {
  }

  lemma {:induction false} WritableIs(t: seq<Cinode>, ip: int, o: Off, count: Word)
    requires Writable(t, ip, o, count)
    ensures 0 <= ip < |t| && t[ip].num != 0 && t[ip].refs > 0 && IsFile(t[ip].node) && !IsPipe(t[ip].node)
    ensures OpenRegular(t, ip) && GoodOff(o) && Writable(t[ip := t[ip].(dirty := true)], ip, o, count)
  {
  }

  /** The first n bytes of memory are those that were last written to the n positions from start. */
  ghost predicate HoldsLast(mem: seq<Byte>, n: int, log: seq<Change>, num: int, start: int) {
    0 <= n <= |mem| && forall i | 0 <= i < n :: mem[i] == LastByte(log, num, (start + i) % FILE_MODULUS)
  }

  lemma {:induction false} PositionNat(o: Off)
    requires GoodOff(o)
    ensures 0 <= Position(o) < FILE_MODULUS
  {
  }

  lemma {:induction false} WriteKeepsState(
      d: Disk, m: Layout, t: seq<Cinode>, lo: Word, hi: Word, ps: seq<Ends>, special: set<int>,
      log: seq<Change>, ranged: bool, d': Disk, m': Layout, t': seq<Cinode>, ip: int, o: Off, n: int, data: seq<Byte>,
        ranged': bool)
    requires GoodLayout(d, m, t, lo, hi) && GoodState(d, m.ino, t, ps, special, log, ranged)
    requires GoodLayout(d', m', t', lo, hi) && OnlyFile(d, m.ino, t, d', m'.ino, t', ip) && OpenRegular(t, ip)
    requires Wrote(d, m.ino, d', m'.ino, t[ip].num, Position(o), n, data, false) && 0 <= Position(o)
    requires t'[ip].node.sizeOff < 512
    requires ranged' ==> ranged && Position(o) + n < 512 * 0xFFFF
                         && Position(SizeOf(t'[ip].node)) == Larger(Position(SizeOf(t[ip].node)), Position(o) + n)
    ensures n <= |data|
    ensures GoodState(d', m'.ino, t', ps, special, log + [Put(t[ip].num, Position(o), data[..n])], ranged')
    ensures Untouched(d, m.ino, t, d', m'.ino, t', {t[ip].num as int})
  {
    hide GoodLayout, TableUses, GoodState, OnlyFile, Wrote, Position, FileGood, Current, Untouched;
    RegularMode(t[ip].node);
    FileSlot(d, m, t, lo, hi, ps, special, log, ranged, ip);
    StateSlots(d, m, t, lo, hi, ps, special, log, ranged);
    OnlyFileSlot(d, m.ino, t, d', m'.ino, t', ip);
    SlotOfTable(d', m', t', lo, hi, ip);
    SlotCurrent(d', m', t', lo, hi, ip);
    WroteStored(d, m.ino, d', m'.ino, t[ip].num, Position(o), n, data, false);
    PutGood(d, m.ino, t[ip].node, d', m'.ino, t'[ip].node, t[ip].num, Position(o), n, data, log, ranged, ranged');
    StateAfter(d, m, t, lo, hi, ps, special, log, ranged,
               d', m'.ino, t', ps, log + [Put(t[ip].num, Position(o), data[..n])], ranged', {t[ip].num as int}, -1);
  }

  /** The file in slot ip reaches as far as before, and at least to end. */
  predicate SizeGrown(t: seq<Cinode>, t': seq<Cinode>, ip: int, end: int) {
    0 <= ip < |t| == |t'| && Position(SizeAt(t', ip)) == Larger(Position(SizeAt(t, ip)), end)
  }

  lemma {:induction false} GrownAt(t: seq<Cinode>, t': seq<Cinode>, ip: int, end: int)
    requires 0 <= ip < |t| == |t'|
    ensures SizeGrown(t, t', ip, end) <==>
              Position(SizeOf(t'[ip].node)) == Larger(Position(SizeOf(t[ip].node)), end)
  {
    hide Position, Larger;
  }

  /** The file in slot ip has lost its blocks and its size, and nothing else of the table changes. */
  predicate SizeGone(t: seq<Cinode>, t': seq<Cinode>, ip: int) {
    && 0 <= ip < |t|
    && t' == t[ip := t[ip].(dirty := true, node := t[ip].node.(addr := NO_BLOCKS, sizeBlk := 0, sizeOff := 0))]
  }

  lemma {:induction false} GoneIsEmpty(t: seq<Cinode>, t': seq<Cinode>, ip: int)
    requires SizeGone(t, t', ip)
    ensures |t'| == |t| && 0 <= ip < |t| && IsEmpty(t'[ip].node) && forall s | 0 <= s < |t| && s != ip :: t'[s] == t[s]
    ensures t'[ip].num == t[ip].num && t'[ip].node.mode == t[ip].node.mode
  {
  }

  /** The inode in slot ip is free and empty. */
  predicate Vacant(t: seq<Cinode>, ip: int) {
    0 <= ip < |t| && LooksFree(t[ip].node) && IsEmpty(t[ip].node)
  }

  /** A directory that can take one more entry. */
  predicate OpenDirectory(t: seq<Cinode>, wd: int) {
    0 <= wd < |t| && t[wd].num != 0 && t[wd].refs > 0 && Getmode(t[wd].node.mode) == F_DIR
      && t[wd].node.sizeBlk < 0x7FFE
  }

  lemma {:induction false} OpenDirectoryKept(t: seq<Cinode>, t': seq<Cinode>, wd: int, ip: int)
    requires OpenDirectory(t, wd) && OthersSame(t, t', {ip}) && 0 <= ip < |t|
    requires t'[ip].num != 0 && t'[ip].refs > 0 && (t[ip].refs > 0 ==> t'[ip].node == t[ip].node)
    ensures |t'| == |t| && 0 <= wd < |t| && t[wd].refs > 0
    ensures wd != ip ==> OpenDirectory(t', wd) && t'[wd].num == t[wd].num && t'[wd].node == t[wd].node
    ensures Getmode(t'[ip].node.mode) == F_REG <==> ip != wd && OpenRegular(t', ip)
  {
  }

  /** A regular file is not the directory, and not the root. */
  lemma {:induction false} NotDirectory(d: Disk, ino: seq<Addr>, t: seq<Cinode>, wd: int, ip: int, log: seq<Change>,
      ranged: bool)
    requires OpenDirectory(t, wd) && OpenRegular(t, ip)
    ensures 0 <= ip < |t| && Getmode(t[ip].node.mode) == F_REG && wd != ip && t[ip].num != 0 && t[ip].refs > 0
            && !IsPipe(t[ip].node) && t[wd].node.sizeBlk < 0x7FFE
  {
  }

  lemma {:induction false} Removable(
      d: Disk, m: Layout, t: seq<Cinode>, lo: Word, hi: Word, ps: seq<Ends>, special: set<int>,
      log: seq<Change>, ranged: bool, wd: int, ip: int)
    requires GoodLayout(d, m, t, lo, hi) && GoodState(d, m.ino, t, ps, special, log, ranged)
    requires OpenDirectory(t, wd) && OpenRegular(t, ip)
    ensures |t| == ITABSIZE && wd != ip && 0 <= ip < |t| && t[ip].num != 0 && t[ip].refs > 0 && t[ip].num != ROOTINODE
    ensures DirectoryAt(d, t, wd) && t[wd].node.nlink != 0 && t[wd].node.sizeBlk < 0x7FFE
  {
    hide GoodLayout, TableUses, GoodState, FileGood, GoodDirectory, UniqueNames, EntriesOf, Current;
    NotDirectory(d, m.ino, t, wd, ip, log, ranged);
    DirectoryFile(d, m, t, lo, hi, ps, special, log, ranged, wd);
    FileSlot(d, m, t, lo, hi, ps, special, log, ranged, ip);
    FileFacts(d, m.ino, t[ip].node, t[ip].num, log, ranged);
  }

  lemma {:induction false} Closable(
      d: Disk, m: Layout, t: seq<Cinode>, lo: Word, hi: Word, ps: seq<Ends>, special: set<int>,
      log: seq<Change>, ranged: bool, ip: int)
    requires GoodLayout(d, m, t, lo, hi) && GoodState(d, m.ino, t, ps, special, log, ranged)
    requires OpenFile(t, ip)
    ensures |t| == ITABSIZE && 0 <= ip < |t| && t[ip].num != 0 && t[ip].refs > 0
    ensures t[ip].num == ROOTINODE ==> t[ip].node.nlink != 0
  {
    hide GoodLayout, TableUses, GoodState, FileGood, GoodDirectory, UniqueNames, EntriesOf, Current;
    FileSlot(d, m, t, lo, hi, ps, special, log, ranged, ip);
    FileFacts(d, m.ino, t[ip].node, t[ip].num, log, ranged);
  }

  lemma {:induction false} CloseKeepsState(
      d: Disk, m: Layout, t: seq<Cinode>, lo: Word, hi: Word, ps: seq<Ends>, special: set<int>,
      log: seq<Change>, ranged: bool, d': Disk, m': Layout, t': seq<Cinode>, ip: int,
      touched: set<int>, log': seq<Change>)
    requires GoodLayout(d, m, t, lo, hi) && GoodState(d, m.ino, t, ps, special, log, ranged)
    requires GoodLayout(d', m', t', lo, hi) && OpenFile(t, ip) && |t'| == |t|
    requires (forall s | 0 <= s < |t| && s != ip :: t'[s] == t[s]) && t'[ip].num == t[ip].num
    requires if t'[ip].refs == 0 && t[ip].node.nlink == 0 then
               && LooksFree(t'[ip].node) && IsEmpty(t'[ip].node)
               && touched == {t[ip].num as int} && log' == log + [Emptied(t[ip].num)]
             else touched == {} && log' == log
    requires Untouched(d, m.ino, t, d', m'.ino, t', touched)
    ensures GoodState(d', m'.ino, t', ps, special, log', ranged)
  {
    hide GoodLayout, TableUses, GoodState, FileGood, Current, Untouched, IsEmpty;
    FileSlot(d, m, t, lo, hi, ps, special, log, ranged, ip);
    StateSlots(d, m, t, lo, hi, ps, special, log, ranged);
    FileFacts(d, m.ino, t[ip].node, t[ip].num, log, ranged);
    if touched != {} {
      FreeIsPlain(t'[ip].node);
      EmptySlot(d', m', t', lo, hi, ip, log, ranged);
    }
    StateAfter(d, m, t, lo, hi, ps, special, log, ranged, d', m'.ino, t', ps, log', ranged, touched, -1);
  }

  /** Slot c holds the last reference to its inode, and the name that goes is its last link. */
  predicate LastOf(c: Cinode) {
    c.refs == 1 && c.node.nlink == 1
  }

  /** What _unlink of the inode in slot c logs: the directory has the entry, and an inode without links
      and references is empty. */
  ghost function UnlinkLog(dir: Word, c: Cinode, e: seq<Byte>, k: int): seq<Change> {
    [Put(dir, ENTRY * k, e)] + if LastOf(c) then [Emptied(c.num)] else []
  }

  lemma {:induction false} UnlinkLogs(l: seq<Change>, dir: Word, c: Cinode, e: seq<Byte>, k: int)
    ensures var l' := l + UnlinkLog(dir, c, e, k);
            l <= l' && forall i | |l| <= i < |l'| :: l'[i].n == dir || l'[i].n == c.num
  {
  }

  /** What _unlink makes of the inode in slot ip. */
  ghost predicate Unlinked(d: Disk, t: seq<Cinode>, d': Disk, t': seq<Cinode>, ip: int) {
    && 0 <= ip < |t| == |t'| && t'[ip].num == t[ip].num && t'[ip].refs == t[ip].refs - 1
    && var was, now := t[ip].node, Current(d', t', t[ip].num);
       if LastOf(t[ip]) then LooksFree(now) && IsEmpty(now)
       else
         && now.nlink == was.nlink - 1 && now == was.(nlink := now.nlink)
         && forall b: Word :: FileBlock(d', now.addr, b) == FileBlock(d, was.addr, b)
  }

  /** A reference taken by i_open and given back by _unlink, after which the inode is as the table and the
      disk before both say. */
  lemma {:induction false} RemovedIs(
      d: Disk, t: seq<Cinode>, t1: seq<Cinode>, d': Disk, t': seq<Cinode>, wd: int, ip: int, num: Word, k: int)
    requires Referenced(t, t1, num, ip) && OthersSame(t, t1, {ip}) && 0 <= ip < |t| && t1[ip].node == Current(d, t, num)
    requires t[ip].refs >= 0
    requires forall s | 0 <= s < |t1| && s != ip :: t1[s].num != num
    requires 0 <= wd < |t| && wd != ip && t[wd].refs > 0
    requires DirectorySlot(t1, t', wd) && RefsKept(t1, t', {wd, ip}) && Unlinked(d, t1, d', t', ip)
    ensures Removed(d, t, d', t', wd, num)
    ensures RemoveLog(d, t, wd, num, k) == UnlinkLog(t1[wd].num, t1[ip], MakeEntry(0, NO_NAME), k)
  {
    hide LooksFree, IsEmpty, Current, FileBlock, MakeEntry;
    assert LastName(d, t, num) <==> LastOf(t1[ip]) by {
      assert t[ip].refs > 0 ==> t[ip].num == num;
      assert forall s | 0 <= s < |t| && s != ip && t[s].refs > 0 :: t[s].num == t1[s].num;
    }
  }

  lemma {:induction false} EntryPutSlot(
      d: Disk, ino: seq<Addr>, t: seq<Cinode>, d': Disk, ino': seq<Addr>, t': seq<Cinode>, wd: int, ok: bool,
      name: seq<Byte>, e: seq<Byte>, k: int)
    requires 0 <= wd < |t| == |t'| && t'[wd].num == t[wd].num && t'[wd].refs == t[wd].refs - 1
    requires EntryPut(d, ino, t[wd].node, d', ino', t'[wd].node, t[wd].num as int, ok, name, e, k)
    ensures DirectorySlot(t, t', wd)
  {
    hide GoodDirectory, Stored, Directory.Linked, SameEntries, LinkedSize, Within;
  }

  lemma {:induction false} StateIp(pipes: seq<PipePair>, k: int)
    requires 0 <= k < |pipes|
    ensures StatesOf(pipes)[k].ip == pipes[k].ip
  {
  }

  ghost predicate FreeSlot(t: seq<Cinode>) {
    exists s :: 0 <= s < |t| && t[s].refs == 0
  }

  /** I_open of inode n succeeds. */
  ghost predicate CanOpen(d: Disk, t: seq<Cinode>, isize: Word, n: Word) {
    n < 8 * (isize - 2) && InodeTable.Linked(Current(d, t, n)) && (Loaded(t, n) || FreeSlot(t))
  }

  /** A new inode will be had: the numbers are exact, a rescan that is due will find none that is
      pending, and there is a free inode and a slot. */
  ghost predicate CanMake(d: Disk, t: seq<Cinode>, p: set<Word>, exact: bool, isize: Word, ninode: int) {
    && exact && FreeSlot(t) && (ninode == 0 ==> Settled(t, p))
    && exists m: Word :: m < 8 * (isize - 2) && !InUse(d, p, m)
  }

  /** Name is new in the directory in slot wd. */
  ghost predicate NewName(d: Disk, t: seq<Cinode>, wd: int, name: seq<Byte>) {
    && OpenDirectory(t, wd) && |name| == NAMELEN && Name(name) != [] && NotListed(d, t[wd].node.addr, Name(name))
  }

  /** Name in the directory in slot wd is that of a regular file that can be opened. */
  ghost predicate CanRemove(d: Disk, t: seq<Cinode>, isize: Word, wd: int, name: seq<Byte>) {
    && OpenDirectory(t, wd) && 0 in name && Name(name) != []
    && exists num: Word ::
         && num != 0 && Listed(EntriesOf(d, t[wd].node.addr), Name(name), num) && CanOpen(d, t, isize, num)
         && Getmode(Current(d, t, num).mode) == F_REG
  }

  lemma {:induction false} FoundOrNot(d: Disk, addr: Addr, name: seq<Byte>, inum: int)
    requires name != [] && if inum == -1 then forall num :: !Listed(EntriesOf(d, addr), name, num)
                           else Listed(EntriesOf(d, addr), name, inum)
    ensures NotListed(d, addr, name) <==> inum == -1
  {
    hide Listed, EntriesOf;
  }

  lemma {:induction false} NamedFirst(name: seq<Byte>)
    requires 0 in name && Name(name) != []
    ensures name[0] != 0
  {
    if name[0] == 0 {
      NoName(name);
    }
  }

  /** What the search found decides. */
  lemma {:induction false} OnlyThatName(d: Disk, t: seq<Cinode>, isize: Word, wd: int, name: seq<Byte>, inum: int)
    requires OpenDirectory(t, wd) && UniqueNames(EntriesOf(d, t[wd].node.addr)) && 0 in name && Name(name) != []
    requires if inum == -1 then forall num :: !Listed(EntriesOf(d, t[wd].node.addr), Name(name), num)
             else Listed(EntriesOf(d, t[wd].node.addr), Name(name), inum)
    ensures NotListed(d, t[wd].node.addr, Name(name)) <==> inum == -1
    ensures CanRemove(d, t, isize, wd, name) <==>
              && 0 < inum < 0x1_0000 && CanOpen(d, t, isize, inum) && Getmode(Current(d, t, inum).mode) == F_REG
  {
    hide Listed, EntriesOf, UniqueNames, CanOpen, Current, Component;
    forall num: Word | Listed(EntriesOf(d, t[wd].node.addr), Name(name), num)
      ensures num as int == inum
    {
      ListedOnce(EntriesOf(d, t[wd].node.addr), Name(name), num, inum);
    }
  }

  lemma {:induction false} CanOpenIs(d: Disk, t: seq<Cinode>, isize: Word, n: Word)
    ensures CanOpen(d, t, isize, n) <==>
              && n < 8 * (isize - 2) && InodeTable.Linked(Current(d, t, n))
              && (Loaded(t, n) || exists s :: 0 <= s < |t| && t[s].refs == 0)
  {
    hide Current, Loaded;
  }

  lemma {:induction false} SameCurrent(d: Disk, t: seq<Cinode>, d': Disk, t': seq<Cinode>, n: Word)
    requires SameInodes(d, t, d', t') && n != 0
    ensures Current(d', t', n) == Current(d, t, n)
  {
    hide Current;
  }

  lemma {:induction false} MarkedSlot(t: seq<Cinode>, t1: seq<Cinode>, t2: seq<Cinode>, ip: int)
    requires 0 <= ip < |t| && t1 == t[ip := t[ip].(dirty := true)] && SameSlot(t1, t2, ip)
    ensures SameSlot(t, t2, ip)
  {
  }

  /** The directory in slot wd has lost the reference that the call took over, and may have grown. */
  ghost predicate DirectorySlot(t: seq<Cinode>, t': seq<Cinode>, wd: int) {
    && 0 <= wd < |t| == |t'| && t'[wd].num == t[wd].num && t'[wd].refs == t[wd].refs - 1
    && t'[wd].node == t[wd].node.(sizeBlk := t'[wd].node.sizeBlk, sizeOff := t'[wd].node.sizeOff,
                                  addr := t'[wd].node.addr)
  }

  /** What a creation makes of the table, of the directory's names and of inode num, which was free. */
  ghost predicate Created(
      d: Disk, t: seq<Cinode>, d': Disk, t': seq<Cinode>, wd: int, name: seq<Byte>, n: int, num: Word)
  {
    && DirectorySlot(t, t', wd)
    && (num != 0 ==> LooksFree(Current(d, t, num)) && NewFileNode(Current(d', t', num)))
    && if n != -1 then
         && num != 0 && n != wd && 0 <= n < |t| && RefsKept(t, t', {wd, n})
         && t[n].refs == 0 && t'[n].refs == 1 && t'[n].num == num && NewFileNode(t'[n].node)
         && NameAdded(d, t[wd].node.addr, d', t'[wd].node.addr, Name(name), num)
       else
         RefsKept(t, t', {wd}) && SameEntries(d, t[wd].node.addr, d', t'[wd].node.addr)
  }

  lemma {:induction false} CreatedIs(
      d: Disk, ino: seq<Addr>, t: seq<Cinode>, d': Disk, ino': seq<Addr>, t': seq<Cinode>, wd: int, name: seq<Byte>,
      ip: int, num: Word, k: int)
    requires OthersSame(t, t', {wd, ip}) && 0 <= wd < |t| && |name| == NAMELEN
    requires t'[wd].num == t[wd].num && t'[wd].refs == t[wd].refs - 1
    requires EntryPut(d, ino, t[wd].node, d', ino', t'[wd].node, t[wd].num as int, ip != -1, [],
                      MakeEntry(num, name), k)
    requires num != 0 ==> LooksFree(Current(d, t, num)) && NewFileNode(Current(d', t', num))
    requires if ip != -1 then
               && num != 0 && ip != wd && 0 <= ip < |t| && t'[ip].num == num && t'[ip].refs == 1 && t[ip].refs == 0
               && NewFileNode(t'[ip].node)
               && NameAdded(d, t[wd].node.addr, d', t'[wd].node.addr, Name(name), num)
             else SameEntries(d, t[wd].node.addr, d', t'[wd].node.addr)
    ensures Created(d, t, d', t', wd, name, ip, num)
  {
    hide NameAdded, SameEntries, NewFileNode, Current, LooksFree, GoodDirectory, Stored, Directory.Linked, Within;
    hide MakeEntry, LinkedSize, Component;
  }

  ghost predicate CreationLogged(
      log: seq<Change>, log': seq<Change>, t: seq<Cinode>, wd: int, name: seq<Byte>, n: int, num: Word, k: int)
  {
    && 0 <= wd < |t| && |name| == NAMELEN
    && log' == log + NewfileLog(t[wd].num, num, n != -1, MakeEntry(num, name), k)
  }

  /** The name is the last link to inode num, and nobody has it open. */
  ghost predicate LastName(d: Disk, t: seq<Cinode>, num: Word) {
    Current(d, t, num).nlink == 1 && Unreferenced(t, num)
  }

  /** What a removal makes of the table and of inode num, whose name it is: the inode is free if that
      was the last link and reference, and otherwise has a link less, the same blocks and the same
      contents. */
  ghost predicate Removed(d: Disk, t: seq<Cinode>, d': Disk, t': seq<Cinode>, wd: int, num: Word) {
    && DirectorySlot(t, t', wd) && RefsKept(t, t', {wd})
    && var was, now := Current(d, t, num), Current(d', t', num);
       if LastName(d, t, num) then LooksFree(now) && IsEmpty(now)
       else
         && now.nlink == was.nlink - 1 && now == was.(nlink := now.nlink)
         && forall b: Word :: FileBlock(d', now.addr, b) == FileBlock(d, was.addr, b)
  }

  /** What a removal logs. */
  ghost function RemoveLog(d: Disk, t: seq<Cinode>, wd: int, num: Word, k: int): seq<Change> {
    [Put(NumAt(t, wd), ENTRY * k, MakeEntry(0, NO_NAME))] + (if LastName(d, t, num) then [Emptied(num)] else [])
  }

  /** Every byte of a removed file that goes on existing is the one written last before. */
  lemma {:induction false} RemovalKeepsBytes(
      d: Disk, t: seq<Cinode>, wd: int, num: Word, k: int, log: seq<Change>, p: int)
    requires !LastName(d, t, num) && NumAt(t, wd) != num
    ensures LastByte(log + RemoveLog(d, t, wd, num, k), num, p) == LastByte(log, num, p)
  {
    hide Current, Unreferenced, MakeEntry;
    var c := Put(NumAt(t, wd), ENTRY * k, MakeEntry(0, NO_NAME));
    assert log + RemoveLog(d, t, wd, num, k) == log + [c];
    OneMoreChange(log, c, num, p);
  }

  /** Every slot outside ex has the references that it had, to the same inode. */
  ghost predicate RefsKept(t: seq<Cinode>, t': seq<Cinode>, ex: set<int>) {
    |t'| == |t| && forall s | 0 <= s < |t| && s !in ex ::
      if t[s].refs > 0 then t'[s].refs == t[s].refs && t'[s].num == t[s].num else t[s].refs == 0 ==> t'[s].refs == 0
  }

  lemma {:induction false} RefsKeptRefl(t: seq<Cinode>, ex: set<int>)
    ensures RefsKept(t, t, ex)
  {
  }

  lemma {:induction false} MarkKept(t: seq<Cinode>, t': seq<Cinode>, ip: int)
    requires t' == t || (0 <= ip < |t| && t' == t[ip := t[ip].(dirty := true)])
    ensures RefsKept(t, t', {})
  {
  }

  lemma {:induction false} KeptOnceMore(t: seq<Cinode>, t1: seq<Cinode>, t2: seq<Cinode>)
    requires RefsKept(t, t1, {}) && RefsKept(t1, t2, {})
    ensures RefsKept(t, t2, {})
  {
  }

  lemma {:induction false} OthersKept(t: seq<Cinode>, t': seq<Cinode>, ex: set<int>)
    requires OthersSame(t, t', ex)
    ensures RefsKept(t, t', ex)
  {
  }

  lemma {:induction false} SlotKept(t: seq<Cinode>, t': seq<Cinode>, ip: int)
    requires SameSlot(t, t', ip)
    ensures RefsKept(t, t', {}) && 0 <= ip < |t| == |t'|
  {
  }

  /** One more reference in slot n to inode i, which it held or which is new in it; or, with -1, none. */
  ghost predicate Referenced(t: seq<Cinode>, t': seq<Cinode>, i: Word, n: int) {
    if n == -1 then RefsKept(t, t', {})
    else
      && 0 <= n < |t| == |t'| && RefsKept(t, t', {n}) && t'[n].num == i
      && if t[n].num == i then t'[n].refs == t[n].refs + 1 else t[n].refs <= 0 && t'[n].refs == 1
  }

  lemma {:induction false} NobodyReferenced(t: seq<Cinode>, i: Word)
    ensures Referenced(t, t, i, -1)
  {
  }

  lemma {:induction false} NotReferenced(t: seq<Cinode>, t': seq<Cinode>, i: Word)
    requires Referenced(t, t', i, -1)
    ensures RefsKept(t, t', {})
  {
  }

  lemma {:induction false} DroppedAgain(t: seq<Cinode>, t1: seq<Cinode>, t2: seq<Cinode>, i: Word, n: int)
    requires Referenced(t, t1, i, n) && RefDropped(t1, t2, n)
    ensures RefsKept(t, t2, {})
  {
  }

  lemma {:induction false} OneReferenced(t: seq<Cinode>, t': seq<Cinode>, i: Word, n: int)
    requires OthersSame(t, t', {n}) && -1 <= n < |t|
    requires n != -1 ==>
               && t'[n].num == i && t'[n].refs == (if t[n].num == i then t[n].refs + 1 else 1)
               && (t[n].refs > 0 ==> t'[n].num == t[n].num)
    ensures Referenced(t, t', i, n)
  {
  }

  predicate RefDropped(t: seq<Cinode>, t': seq<Cinode>, ip: int) {
    && 0 <= ip < |t| == |t'| && t'[ip].num == t[ip].num && t'[ip].refs == t[ip].refs - 1
    && forall s | 0 <= s < |t| && s != ip :: t'[s] == t[s]
  }

  /** What becomes of the numbers of free inodes. They stay exact, unless a new inode is asked for and a
      rescan finds one that is pending; only then, or with a count of zero, the superblock can be marked
      as corrupt. */
  ghost predicate Counted(asked: bool, t: seq<Cinode>, p: set<Word>, exact: bool, ninode: int, tinode: int,
      exact': bool, corrupt: bool) {
    && (exact' ==> exact) && (corrupt ==> asked && tinode == 0)
    && (exact && (asked && ninode == 0 ==> Settled(t, p)) ==> exact' && !corrupt)
  }

  /** The reference in slot ip is the last to a file without a name. */
  predicate LastUse(t: seq<Cinode>, ip: int) {
    OpenFile(t, ip) && t[ip].refs == 1 && t[ip].node.nlink == 0
  }

  lemma {:induction false} PipeMode(n: Dinode)
    requires IsPipe(n)
    ensures !LooksFree(n) && !IsFile(n)
  {
  }

  /** Srch_dir, which changes nothing. */
  method FindName(tab: Inodes, wd: int, name: seq<Byte>) returns (inum: int)
    requires tab.Ready() && DirectoryAt(tab.fs.vol.disk, tab.fs.itab[..], wd) && 0 in name
    modifies tab.fs, tab.fs.itab, tab.fs.vol.Repr()
    ensures tab.Ready() && tab.fs.vol.disk == old(tab.fs.vol.disk) && tab.fs.layout == old(tab.fs.layout)
    ensures tab.fs.itab[..] == old(tab.fs.itab[..]) && tab.fs.vol.error == OK
    ensures Name(name) != [] ==>
              if inum == -1 then forall num ::
                !Listed(EntriesOf(tab.fs.vol.disk, tab.fs.itab[wd].node.addr), Name(name), num)
              else Listed(EntriesOf(tab.fs.vol.disk, tab.fs.itab[wd].node.addr), Name(name), inum)
  {
    hide GoodLayout, GoodFreeList, Consistent, GoodNumbers, TableUses, GoodDirectory, Listed, EntriesOf, Component;
    inum := SrchDir(tab.fs, wd, name);
    tab.fs.vol.error := OK;
  }

  /** A system call starts without an error. */
  method ClearError(tab: Inodes)
    requires tab.Ready()
    modifies tab.fs.vol`error
    ensures tab.Ready() && tab.fs.vol.error == OK
  {
    hide GoodLayout, GoodFreeList, Consistent, GoodNumbers, TableUses;
    tab.fs.vol.error := OK;
  }

  /** An open directory of a good state. */
  lemma {:induction false} DirectoryFile(
      d: Disk, m: Layout, tab: seq<Cinode>, lo: Word, hi: Word, ps: seq<Ends>, special: set<int>,
      log: seq<Change>, ranged: bool, wd: int)
    requires GoodLayout(d, m, tab, lo, hi) && OpenDirectory(tab, wd)
    requires GoodState(d, m.ino, tab, ps, special, log, ranged)
    ensures DirectoryAt(d, tab, wd) && tab[wd].node.nlink != 0 && UniqueNames(EntriesOf(d, tab[wd].node.addr))
    ensures |tab| == ITABSIZE && 0 < tab[wd].num < |m.ino| && tab[wd].num as int !in special
    ensures FileGood(d, m.ino, tab[wd].node, tab[wd].num, log, ranged)
    ensures forall k | 0 <= k < |ps| :: ps[k].ip != wd && 0 <= ps[k].ip < ITABSIZE
  {
    hide GoodLayout, TableUses, GoodState, FileGood, GoodDirectory, UniqueNames, EntriesOf, Current;
    FileSlot(d, m, tab, lo, hi, ps, special, log, ranged, wd);
    FileFacts(d, m.ino, tab[wd].node, tab[wd].num, log, ranged);
  }

  /** What newfile logs: the new inode is empty, the directory has the entry. */
  ghost function NewfileLog(dir: Word, num: Word, ok: bool, e: seq<Byte>, k: int): seq<Change> {
    (if num == 0 then [] else [Emptied(num)]) + [Put(dir, ENTRY * k, if ok then e else [])]
  }

  lemma {:induction false} NewfileLogs(
      l: seq<Change>, l': seq<Change>, t: seq<Cinode>, wd: int, name: seq<Byte>, n: int, num: Word, k: int)
    requires CreationLogged(l, l', t, wd, name, n, num, k)
    ensures 0 <= wd < |t| && l <= l' && forall i | |l| <= i < |l'| :: l'[i].n in Changed(t[wd].num, num)
  {
  }

  lemma {:induction false} CurrentAddr(d: Disk, m: Layout, tab: seq<Cinode>, lo: Word, hi: Word, n: Word)
    requires GoodLayout(d, m, tab, lo, hi) && 0 < n < |m.ino|
    ensures m.ino[n] == Current(d, tab, n).addr
  {
    hide Partition, DiskNode;
    if s :| 0 <= s < |tab| && tab[s].num == n {
      assert SlotOk(tab[s], m.ino, d);
      CurrentIsSlot(d, m.ino, tab, s);
    } else {
      NotCurrent(d, tab, n);
    }
  }

  lemma {:induction false} NewfileKeepsState(
      d: Disk, m: Layout, t: seq<Cinode>, lo: Word, hi: Word, ps: seq<Ends>, special: set<int>,
      log: seq<Change>, ranged: bool, d': Disk, m': Layout, t': seq<Cinode>,
      wd: int, ip: int, num: Word, name: seq<Byte>, k: int)
    requires GoodLayout(d, m, t, lo, hi) && GoodState(d, m.ino, t, ps, special, log, ranged)
    requires GoodLayout(d', m', t', lo, hi) && OpenDirectory(t, wd) && |name| == NAMELEN
    requires OthersSame(t, t', {wd, ip}) && (ip != -1 ==> 0 <= ip < |t| && t[ip].refs == 0)
    requires Untouched(d, m.ino, t, d', m'.ino, t', Changed(t[wd].num, num))
    requires t'[wd].num == t[wd].num
    requires EntryPut(d, m.ino, t[wd].node, d', m'.ino, t'[wd].node, t[wd].num as int, ip != -1, [],
                      MakeEntry(num, name), k)
    requires NotListed(d, t[wd].node.addr, Name(name)) && Name(name) != []
    requires num != 0 ==>
               && ROOTINODE < num < |m.ino| && LooksFree(Current(d, t, num)) && NewFileNode(Current(d', t', num))
    requires ip != -1 ==> num != 0
    ensures GoodState(d', m'.ino, t', ps, special,
                      log + NewfileLog(t[wd].num, num, ip != -1, MakeEntry(num, name), k), ranged)
  {
    hide GoodLayout, TableUses, GoodState, FileGood, GoodDirectory, UniqueNames, EntriesOf, Current, EntryPut;
    hide Untouched;
    hide Listed, Component, LooksFree, NewFileNode, OtherFiles, OtherInodes, MakeEntry;
    var dir, e := t[wd].num, MakeEntry(num, name);
    var c := NewfileLog(dir, num, ip != -1, e, k);
    DirectoryFile(d, m, t, lo, hi, ps, special, log, ranged, wd);
    StateSlots(d, m, t, lo, hi, ps, special, log, ranged);
    UntouchedFiles(d, m.ino, t, d', m'.ino, t', Changed(dir, num));
    SlotCurrent(d', m', t', lo, hi, wd);
    EntryIs(num, name);
    assert NameIsNew(EntriesOf(d, t[wd].node.addr), [], EntryName(e));
    if num == 0 {
      EntryGood(d, m.ino, t[wd].node, d', m'.ino, t'[wd].node, dir, ip != -1, [], e, k, log, ranged);
      assert log + c == log + [Put(dir, ENTRY * k, if ip != -1 then e else [])];
    } else {
      UnusedNumber(d, m, t, lo, hi, ps, special, log, ranged, num);
      SlotCurrent(d, m, t, lo, hi, wd);
      DirectoryMode(d, t[wd].node);
      CurrentAddr(d', m', t', lo, hi, num);
      NewfileGood(d, m.ino, t[wd].node, d', m'.ino, t'[wd].node, dir, num, Current(d', t', num), ip != -1, e, k, log,
                  ranged);
      assert log + c == log + [Emptied(num)] + [Put(dir, ENTRY * k, if ip != -1 then e else [])];
    }
    StateAfter(d, m, t, lo, hi, ps, special, log, ranged,
               d', m'.ino, t', ps, log + c, ranged, Changed(dir, num), -1);
  }

  lemma {:induction false} UnlinkKeepsState(
      d: Disk, m: Layout, t: seq<Cinode>, lo: Word, hi: Word, ps: seq<Ends>, special: set<int>,
      log: seq<Change>, ranged: bool, d': Disk, m': Layout, t': seq<Cinode>,
      wd: int, ip: int, name: seq<Byte>, blank: seq<Byte>, k: int)
    requires GoodLayout(d, m, t, lo, hi) && GoodState(d, m.ino, t, ps, special, log, ranged)
    requires GoodLayout(d', m', t', lo, hi) && OpenDirectory(t, wd) && OpenRegular(t, ip) && t[ip].node.nlink >= 1
    requires |blank| == NAMELEN && blank[0] == 0 && OthersSame(t, t', {wd, ip})
    requires Untouched(d, m.ino, t, d', m'.ino, t', {t[wd].num as int, t[ip].num as int})
    requires t'[wd].num == t[wd].num && t'[ip].num == t[ip].num && LinkLost(t[ip], t'[ip], true)
    requires t'[ip].refs == t[ip].refs - 1
    requires EntryPut(d, m.ino, t[wd].node, d', m'.ino, t'[wd].node, t[wd].num as int, true, name, MakeEntry(0, blank),
                      k)
    requires t'[ip].refs == 0 == t'[ip].node.nlink || OtherFiles(d, m.ino, d', m'.ino, {t[wd].num as int})
    ensures GoodState(d', m'.ino, t', ps, special,
                      log + UnlinkLog(t[wd].num, t[ip], MakeEntry(0, blank), k), ranged)
    ensures NameGone(d, t[wd].node.addr, d', t'[wd].node.addr, name)
    ensures Unlinked(d, t, d', t', ip)
  {
    hide GoodLayout, TableUses, GoodState, FileGood, GoodDirectory, UniqueNames, EntriesOf, Current, EntryPut;
    hide Untouched;
    hide Listed, Component, InUse, OtherFiles, OtherInodes, IsEmpty, NameGone, FileBlock;
    var dir, num, e := t[wd].num, t[ip].num, MakeEntry(0, blank);
    DirectoryFile(d, m, t, lo, hi, ps, special, log, ranged, wd);
    FileSlot(d, m, t, lo, hi, ps, special, log, ranged, ip);
    StateSlots(d, m, t, lo, hi, ps, special, log, ranged);
    FileFacts(d, m.ino, t[ip].node, num, log, ranged);
    DistinctSlots(d, m, t, lo, hi, wd, ip);
    UntouchedFiles(d, m.ino, t, d', m'.ino, t', {dir as int, num as int});
    SlotCurrent(d', m', t', lo, hi, wd);
    SlotCurrent(d', m', t', lo, hi, ip);
    SlotOfTable(d', m', t', lo, hi, ip);
    EntryIs(0, blank);
    NoName(blank);
    NameCleared(d, m.ino, t[wd].node, d', m'.ino, t'[wd].node, dir, name, blank, k);
    var log1 := log + [Put(dir, ENTRY * k, e)];
    EntryGood(d, m.ino, t[wd].node, d', m'.ino, t'[wd].node, dir, true, name, e, k, log, ranged);
    OneAbout(log, Put(dir, ENTRY * k, e), num);
    if LastOf(t[ip]) {
      FreeIsPlain(t'[ip].node);
      EmptySlot(d', m', t', lo, hi, ip, log1, ranged);
      OtherFilesRefl(d', m'.ino, {num as int});
      OneAbout(log1, Emptied(num), dir);
      FileStays(d', m'.ino, d', m'.ino, {num as int}, t'[wd].node, dir, log1, log1 + [Emptied(num)], ranged, ranged);
      assert log + UnlinkLog(dir, t[ip], e, k) == log1 + [Emptied(num)];
    } else {
      SlotOfTable(d, m, t, lo, hi, ip);
      OtherFileBlocks(d, m.ino, d', m'.ino, {dir as int}, num);
      RelinkedGood(d, m.ino, t[ip].node, d', m'.ino, t'[ip].node, num, {dir as int}, log, log1, ranged);
      assert log + UnlinkLog(dir, t[ip], e, k) == log1;
    }
    StateAfter(d, m, t, lo, hi, ps, special, log, ranged, d', m'.ino, t', ps,
               log + UnlinkLog(dir, t[ip], e, k), ranged, {dir as int, num as int}, -1);
  }

  lemma {:induction false} OtherFileBlocks(d: Disk, ino: seq<Addr>, d': Disk, ino': seq<Addr>, ex: set<int>, n: int)
    requires OtherFiles(d, ino, d', ino', ex) && 0 <= n < |ino| && n !in ex
    ensures |ino'| == |ino| && forall b: Word :: FileBlock(d', ino'[n], b) == FileBlock(d, ino[n], b)
  {
    hide FileBlock;
  }

  /** A step that nobody sees. */
  lemma {:induction false} NothingKeepsState(
      d: Disk, m: Layout, t: seq<Cinode>, lo: Word, hi: Word, ps: seq<Ends>, special: set<int>,
      log: seq<Change>, ranged: bool, d': Disk, ino': seq<Addr>, t': seq<Cinode>)
    requires GoodLayout(d, m, t, lo, hi) && GoodState(d, m.ino, t, ps, special, log, ranged)
    requires OthersSame(t, t', {-1}) && Untouched(d, m.ino, t, d', ino', t', {})
    ensures GoodState(d', ino', t', ps, special, log, ranged)
  {
    hide GoodLayout, GoodState, FileGood, Current, Untouched;
    StateSlots(d, m, t, lo, hi, ps, special, log, ranged);
    StateAfter(d, m, t, lo, hi, ps, special, log, ranged, d', ino', t', ps, log, ranged, {}, -1);
  }

  lemma {:induction false} PipeKeepsState(
      d: Disk, m: Layout, t: seq<Cinode>, lo: Word, hi: Word, ps: seq<Ends>, special: set<int>,
      log: seq<Change>, ranged: bool, d': Disk, m': Layout, t': seq<Cinode>, e: Ends)
    requires GoodLayout(d, m, t, lo, hi) && GoodState(d, m.ino, t, ps, special, log, ranged)
    requires GoodPipeEnds(d', t', e) && OthersSame(t, t', {e.ip}) && t[e.ip].refs == 0
    requires t'[e.ip].num != 0 && LooksFree(Current(d, t, t'[e.ip].num))
    requires Untouched(d, m.ino, t, d', m'.ino, t', {t'[e.ip].num as int})
    ensures GoodState(d', m'.ino, t', ps + [e], special + {t'[e.ip].num as int}, log, ranged)
  {
    hide GoodLayout, TableUses, FilesGood, OwnsNothing, Untouched, Current, LooksFree, OtherFiles, OtherInodes;
    hide GoodPipeEnds, FileGood;
    EndsSlot(d', t', e);
    var num, ps' := t'[e.ip].num, ps + [e];
    UnusedNumber(d, m, t, lo, hi, ps, special, log, ranged, num);
    StateSlots(d, m, t, lo, hi, ps, special, log, ranged);
    UntouchedFiles(d, m.ino, t, d', m'.ino, t', {num as int});
    BootBlock(d, m.ino, d', m'.ino, {num as int});
    OwnsNothingStays(d, m.ino, d', m'.ino, {num as int}, 0);
    forall k | 0 <= k < |ps|
      ensures GoodPipeEnds(d', t', ps[k]) && ps[k].ip != e.ip && t'[ps[k].ip].num == t[ps[k].ip].num
    {
      PipeIsApart(d, m, t, lo, hi, ps, special, log, ranged, k, ps[k].ip);
      PipeSurvives(d, m, t, d', m'.ino, t', lo, hi, {num as int}, ps[k]);
    }
    assert forall j, k | 0 <= j < k < |ps'| :: ps'[j].ip != ps'[k].ip;
    NumbersMore(t, t', ps, special, e);
    FilesAfter(d, m.ino, t, d', m'.ino, t', {num as int}, special, special + {num as int}, log, log, ranged, ranged);
  }

  lemma {:induction false} PipeStepKeepsState(
      d: Disk, m: Layout, t: seq<Cinode>, lo: Word, hi: Word, ps: seq<Ends>, special: set<int>,
      log: seq<Change>, ranged: bool, d': Disk, ino': seq<Addr>, t': seq<Cinode>, k: int, e: Ends)
    requires GoodLayout(d, m, t, lo, hi) && GoodState(d, m.ino, t, ps, special, log, ranged)
    requires 0 <= k < |ps| && e.ip == ps[k].ip && GoodPipeEnds(d', t', e) && OnlyFile(d, m.ino, t, d', ino', t', e.ip)
    ensures GoodState(d', ino', t', ps[k := e], special, log, ranged)
    ensures Untouched(d, m.ino, t, d', ino', t', {NumAt(t, e.ip)}) && RefsKept(t, t', {})
  {
    hide GoodLayout, TableUses, GoodState, FileGood, Current, Untouched, OnlyFile, GoodPipeEnds, InUse, RefsKept;
    OnlyFileSlot(d, m.ino, t, d', ino', t', e.ip);
    SlotKept(t, t', e.ip);
    PipeIsApart(d, m, t, lo, hi, ps, special, log, ranged, k, e.ip);
    StateSlots(d, m, t, lo, hi, ps, special, log, ranged);
    PipesApart(d, m.ino, t, ps, special, log, ranged, k);
    StateAfter(d, m, t, lo, hi, ps, special, log, ranged, d', ino', t', ps[k := e], log, ranged,
               {t[e.ip].num as int}, k);
  }

  lemma {:induction false} PipesApart(
      d: Disk, ino: seq<Addr>, tab: seq<Cinode>, ps: seq<Ends>, special: set<int>,
      log: seq<Change>, ranged: bool, k: int)
    requires GoodState(d, ino, tab, ps, special, log, ranged) && 0 <= k < |ps|
    ensures forall j | 0 <= j < |ps| && j != k :: ps[j].ip != ps[k].ip
  {
    hide GoodPipeEnds, FilesGood, OwnsNothing, NumbersOf;
    forall j | 0 <= j < |ps| && j != k
      ensures ps[j].ip != ps[k].ip
    {
      assert if j < k then true else k < j;
    }
  }

  /** The number of pipe k. */
  ghost function PipeNum(t: seq<Cinode>, ps: seq<Ends>, k: int): int {
    if 0 <= k < |ps| then NumAt(t, ps[k].ip) else 0
  }

  predicate CanRead(ps: seq<Ends>, k: int, count: Word) {
    0 <= k < |ps| && ps[k].reader.Awake? && count <= 0x7FFF
  }

  predicate CanWrite(ps: seq<Ends>, k: int, count: Word) {
    0 <= k < |ps| && ps[k].writer.Awake? && count <= 0x8000
  }

  /** A new pipe comes last, with both ends open and nothing sent. */
  ghost predicate MakeStep(ps: seq<Ends>, ps': seq<Ends>, made: bool) {
    if made then
      && |ps'| == |ps| + 1 && ps'[..|ps|] == ps
      && var e := ps'[|ps|]; e.reader.Awake? && e.writer.Awake? && e.sent == [] && e.got == 0
    else ps' == ps
  }

  lemma {:induction false} MadeLast(ps: seq<Ends>, e: Ends)
    requires e.reader.Awake? && e.writer.Awake? && e.sent == [] && e.got == 0
    ensures MakeStep(ps, ps + [e], true)
  {
  }

  lemma {:induction false} EndDropped(
      d: Disk, t: seq<Cinode>, t': seq<Cinode>, ps: seq<Ends>, k: int, write: bool, gone: bool)
    requires 0 <= k < |ps| && GoodPipeEnds(d, t, ps[k])
    requires (if write then ps[k].writer else ps[k].reader).Awake?
             && (gone <==> (if write then ps[k].reader else ps[k].writer).Closed?)
    requires |t'| == |t| && forall s | 0 <= s < |t| && s != ps[k].ip :: t'[s] == t[s]
    requires t'[ps[k].ip].num == t[ps[k].ip].num && t'[ps[k].ip].refs == if gone then 0 else 1
    requires gone ==> LooksFree(t'[ps[k].ip].node) && IsEmpty(t'[ps[k].ip].node)
    ensures EndSlot(t, t', ps, k, write, gone)
  {
    hide Unread, InPipe, Pointers, Sleeping, LooksFree, IsEmpty;
  }

  lemma {:induction false} NewPipeSlot(t: seq<Cinode>, t': seq<Cinode>, ps: seq<Ends>, e: Ends)
    requires 0 <= e.ip < |t| == |t'| && RefsKept(t, t', {e.ip}) && t[e.ip].refs == 0 && t'[e.ip].refs == 2
    requires InPipe(t'[e.ip].node)
    ensures PipeSlot(t, t', ps + [e], true)
  {
  }

  lemma {:induction false} NoPipeSlot(t: seq<Cinode>, t': seq<Cinode>, ps: seq<Ends>)
    requires RefsKept(t, t', {-1})
    ensures PipeSlot(t, t', ps, false)
  {
  }

  lemma {:induction false} NotMade(ps: seq<Ends>)
    ensures MakeStep(ps, ps, false)
  {
  }

  /** A read of pipe k: the next unread bytes in the order they were sent, or the reader sleeps. */
  ghost predicate ReadStep(ps: seq<Ends>, ps': seq<Ends>, k: int, count: Word, n: int, mem: seq<Byte>) {
    && CanRead(ps, k, count) && |ps'| == |ps| && (forall j | 0 <= j < |ps| && j != k :: ps'[j] == ps[j])
    && var e, e' := ps[k], ps'[k];
       && e'.ip == e.ip && e'.wanted == e.wanted && e'.sent == e.sent && e'.got == e.got + n
       && 0 <= e.got <= e'.got <= |e.sent|
       && n == Lesser(count, |e.sent| - e.got) && 0 <= n <= |mem| && mem[..n] == e.sent[e.got..e'.got]
       && (e'.reader == if e.got == |e.sent| && !e.writer.Closed? then Asleep else Awake)
       && (e'.writer == if n > 0 && e.writer.Asleep? then Awake else e.writer)
  }

  /** A write to pipe k: the bytes follow those already sent, or the writer sleeps or fails. Some are
      left only on a full disk. */
  ghost predicate WriteStep(ps: seq<Ends>, ps': seq<Ends>, k: int, count: Word, n: int, mem: seq<Byte>, full: bool) {
    && CanWrite(ps, k, count) && |ps'| == |ps| && (forall j | 0 <= j < |ps| && j != k :: ps'[j] == ps[j])
    && var e, e' := ps[k], ps'[k];
       && e'.ip == e.ip && e'.got == e.got
       && if count > PIPE_SIZE - (|e.sent| - e.got) then
            && e'.sent == e.sent && e'.reader == e.reader
            && if e.reader.Closed? then n == -1 && e'.writer.Awake?
               else n == 0 && e'.writer.Asleep? && e'.wanted == count
          else
            && 0 <= n <= count && n <= |mem| && e'.sent == e.sent + mem[..n] && e'.writer.Awake?
            && (e'.reader == if n > 0 && e.reader.Asleep? then Awake else e.reader) && (n < count ==> full)
  }

  /** Closing an end of pipe k wakes the other; the last end takes the pipe away. */
  ghost predicate CloseStep(ps: seq<Ends>, ps': seq<Ends>, k: int, write: bool, gone: bool) {
    if 0 <= k < |ps| && (if write then ps[k].writer else ps[k].reader).Awake? then
      if (if write then ps[k].reader else ps[k].writer).Closed? then
        gone && ps' == ps[..k] + ps[k + 1..]
      else
        && !gone && |ps'| == |ps| && (forall j | 0 <= j < |ps| && j != k :: ps'[j] == ps[j])
        && ps'[k].sent == ps[k].sent && ps'[k].got == ps[k].got
        && if write then ps'[k].writer.Closed? && ps'[k].reader.Awake?
           else ps'[k].reader.Closed? && ps'[k].writer.Awake?
    else !gone && ps' == ps
  }

  /** The references to pipe k after one end is closed; with the last one its inode is free. */
  ghost predicate EndSlot(t: seq<Cinode>, t': seq<Cinode>, ps: seq<Ends>, k: int, write: bool, gone: bool) {
    if 0 <= k < |ps| && (if write then ps[k].writer else ps[k].reader).Awake? then
      var ip := ps[k].ip;
      && 0 <= ip < |t| == |t'| && RefsKept(t, t', {ip}) && t'[ip].num == t[ip].num && t'[ip].refs == t[ip].refs - 1
      && (gone ==> Vacant(t', ip))
    else RefsKept(t, t', {})
  }

  /** The slot of the new pipe, with a reference for each end. */
  ghost predicate PipeSlot(t: seq<Cinode>, t': seq<Cinode>, ps': seq<Ends>, made: bool) {
    if made then
      && ps' != []
      && var ip := ps'[|ps'| - 1].ip;
         && 0 <= ip < |t| == |t'| && RefsKept(t, t', {ip}) && t[ip].refs == 0 && t'[ip].refs == 2
         && InPipe(t'[ip].node)
    else RefsKept(t, t', {})
  }

  /** What a call can see and change, apart from the disk. */
  datatype Core = Core(
    ino: seq<Addr>, tab: seq<Cinode>, pending: set<Word>, exact: bool, corrupt: bool, isize: Word, ninode: int,
    tinode: int, ends: seq<Ends>, log: seq<Change>, ranged: bool, full: bool, saved: bool)

  ghost predicate MayMake(d: Disk, c: Core) {
    CanMake(d, c.tab, c.pending, c.exact, c.isize, c.ninode)
  }

  /** What a call does: to the log of file changes, to the pipes, to the directory that it names, and
      its result n. */
  ghost predicate Served(call: Call, d: Disk, c: Core, d': Disk, c': Core, mem: seq<Byte>, n: int) {
    var t, t', ps, ps', log, log' := c.tab, c'.tab, c.ends, c'.ends, c.log, c'.log;
    match call
    case Open(i) =>
      && ps' == ps && log' == log && Referenced(t, t', i, n)
      && if i != 0 && CanOpen(d, t, c.isize, i) then
           0 <= n < |t'| && t'[n].num == i && t'[n].refs > 0 && t'[n].node == Current(d, t, i)
         else n == -1
    case Create(wd, name) =>
      && ps' == ps && |t'| == |t|
      && if NewName(d, t, wd, name) then
           exists num: Word, k: int ::
             && CreationLogged(log, log', t, wd, name, n, num, k)
             && Created(d, t, d', t', wd, name, n, num) && (n == -1 && MayMake(d, c) ==> c'.full && num != 0)
         else n == -1 && log' == log && RefsKept(t, t', {})
    case Remove(wd, name) =>
      && ps' == ps && |t'| == |t|
      && if CanRemove(d, t, c.isize, wd, name) then
           && n == 0
           && exists num: Word, k: int ::
                && Listed(EntriesOf(d, t[wd].node.addr), Name(name), num)
                && NameGone(d, t[wd].node.addr, d', t'[wd].node.addr, Name(name))
                && Removed(d, t, d', t', wd, num) && log' == log + RemoveLog(d, t, wd, num, k)
         else n == -1 && log' == log && RefsKept(t, t', {})
    case Close(ip) =>
      && ps' == ps && log' == (if LastUse(t, ip) then log + [Emptied(NumAt(t, ip))] else log)
      && (if OpenFile(t, ip) then RefDropped(t, t', ip) else t' == t)
      && (LastUse(t, ip) ==> Vacant(t', ip))
    case Truncate(ip) =>
      && ps' == ps
      && if OpenRegular(t, ip) then log' == log + [Emptied(NumAt(t, ip))] && SizeGone(t, t', ip)
         else log' == log && t' == t
    case ReadAt(ip, o, count) =>
      && ps' == ps && log' == log && n == (if Readable(t, ip, o, count) then InFile(SizeAt(t, ip), o, count) else -1)
      && (n != -1 ==> HoldsLast(mem, n, log, NumAt(t, ip), Position(o))) && RefsKept(t, t', {})
    case WriteAt(ip, o, count) =>
      && ps' == ps
      && if Writable(t, ip, o, count) then
           && 0 <= n <= count && n <= |mem| && (n < count ==> c'.full) && SameSlot(t, t', ip)
           && log' == log + [Put(NumAt(t, ip), Position(o), mem[..n])]
           && (Position(o) + count < FILE_MODULUS ==> SizeGrown(t, t', ip, Position(o) + n))
         else n == -1 && log' == log && t' == t
    case MakePipe =>
      && log' == log && -1 <= n <= 0 && (MayMake(d, c) ==> n == 0) && MakeStep(ps, ps', n == 0)
      && PipeSlot(t, t', ps', n == 0)
    case ReadPipe(k, count, _) =>
      && log' == log && RefsKept(t, t', {})
      && if CanRead(ps, k, count) then ReadStep(ps, ps', k, count, n, mem) else n == -1 && ps' == ps
    case WritePipe(k, count, _) =>
      && log' == log && RefsKept(t, t', {})
      && if CanWrite(ps, k, count) then WriteStep(ps, ps', k, count, n, mem, c'.full) else ps' == ps
    case CloseEnd(k, write) =>
      exists gone ::
        && CloseStep(ps, ps', k, write, gone) && EndSlot(t, t', ps, k, write, gone)
        && log' == if gone then log + [Emptied(PipeNum(t, ps, k))] else log
    case SyncAll =>
      && ps' == ps && log' == log && c'.saved && |t'| == |t|
      && forall s | 0 <= s < |t| :: t'[s] == if t[s].refs > 0 then t[s].(dirty := false) else t[s]
  }

  /** A call served, of which only the inodes in touched show anything. */
  ghost predicate CallDone(
      call: Call, d: Disk, c: Core, d': Disk, c': Core, mem: seq<Byte>, n: int, touched: set<int>)
  {
    && Served(call, d, c, d', c', mem, n) && c'.isize == c.isize
    && Untouched(d, c.ino, c.tab, d', c'.ino, c'.tab, touched)
    && (forall x | x in touched :: MayTouch(call, d, c.tab, c.ends, x))
    && c.log <= c'.log && (forall i | |c.log| <= i < |c'.log| :: c'.log[i].n in touched)
    && (c.ranged && InRange(call) ==> c'.ranged)
    && Counted(call.Create? || call.MakePipe?, c.tab, c.pending, c.exact, c.ninode, c.tinode, c'.exact, c'.corrupt)
  }

  lemma {:induction false} NotCounted(t: seq<Cinode>, p: set<Word>, exact: bool, ninode: int, tinode: int)
    ensures Counted(false, t, p, exact, ninode, tinode, exact, false)
    ensures Counted(true, t, p, exact, ninode, tinode, exact, false)
  {
    hide Settled;
  }

  lemma {:induction false} NoClose(ps: seq<Ends>, t: seq<Cinode>, k: int, write: bool)
    ensures !(0 <= k < |ps| && (if write then ps[k].writer else ps[k].reader).Awake?) ==>
            CloseStep(ps, ps, k, write, false) && EndSlot(t, t, ps, k, write, false)
  {
  }

  lemma {:induction false} ReadStepNat(ps: seq<Ends>, ps': seq<Ends>, k: int, count: Word, n: int, mem: seq<Byte>)
    requires ReadStep(ps, ps', k, count, n, mem)
    ensures n >= 0
  {
  }

  lemma {:induction false} CloseEndKeepsState(
      d: Disk, m: Layout, t: seq<Cinode>, lo: Word, hi: Word, ps: seq<Ends>, special: set<int>,
      log: seq<Change>, ranged: bool, t': seq<Cinode>, k: int, e: Ends)
    requires GoodLayout(d, m, t, lo, hi) && GoodState(d, m.ino, t, ps, special, log, ranged)
    requires 0 <= k < |ps| && e.ip == ps[k].ip && GoodPipeEnds(d, t', e)
    requires |t'| == |t| && forall s | 0 <= s < |t| && s != e.ip :: t'[s] == t[s]
    requires 0 <= e.ip < |t| && t'[e.ip] == t[e.ip].(refs := 1)
    requires Untouched(d, m.ino, t, d, m.ino, t', {})
    ensures GoodState(d, m.ino, t', ps[k := e], special, log, ranged)
  {
    hide GoodLayout, TableUses, GoodState, FileGood, Current, Untouched, GoodPipeEnds, InUse;
    StateSlots(d, m, t, lo, hi, ps, special, log, ranged);
    PipesApart(d, m.ino, t, ps, special, log, ranged, k);
    StateAfter(d, m, t, lo, hi, ps, special, log, ranged, d, m.ino, t', ps[k := e], log, ranged, {}, k);
  }

  lemma {:induction false} LastCloseKeepsState(
      d: Disk, m: Layout, t: seq<Cinode>, lo: Word, hi: Word, ps: seq<Ends>, special: set<int>,
      log: seq<Change>, ranged: bool, d': Disk, m': Layout, t': seq<Cinode>, k: int)
    requires GoodLayout(d, m, t, lo, hi) && GoodState(d, m.ino, t, ps, special, log, ranged)
    requires GoodLayout(d', m', t', lo, hi) && 0 <= k < |ps| && 0 <= ps[k].ip < |t|
    requires |t'| == |t| && forall s | 0 <= s < |t| && s != ps[k].ip :: t'[s] == t[s]
    requires t'[ps[k].ip].num == t[ps[k].ip].num && LooksFree(t'[ps[k].ip].node) && IsEmpty(t'[ps[k].ip].node)
    requires Untouched(d, m.ino, t, d', m'.ino, t', {t[ps[k].ip].num as int})
    ensures var num := t[ps[k].ip].num as int;
            GoodState(d', m'.ino, t', ps[..k] + ps[k + 1..], special - {num}, log + [Emptied(num)], ranged)
  {
    hide GoodLayout, TableUses, FilesGood, OwnsNothing, Untouched, Current, OtherFiles, OtherInodes, GoodPipeEnds;
    hide FileGood, IsEmpty, DiskNode;
    var ip, rest := ps[k].ip, ps[..k] + ps[k + 1..];
    var num := t[ip].num;
    StateSlots(d, m, t, lo, hi, ps, special, log, ranged);
    PipesApart(d, m.ino, t, ps, special, log, ranged, k);
    UntouchedFiles(d, m.ino, t, d', m'.ino, t', {num as int});
    BootBlock(d, m.ino, d', m'.ino, {num as int});
    OwnsNothingStays(d, m.ino, d', m'.ino, {num as int}, 0);
    FreeIsPlain(t'[ip].node);
    NotRoot(d, t, ps[k]);
    EmptySlot(d', m', t', lo, hi, ip, log, ranged);
    forall j | 0 <= j < |ps| && j != k
      ensures GoodPipeEnds(d', t', ps[j]) && t[ps[j].ip].num != num
    {
      PipeIsApart(d, m, t, lo, hi, ps, special, log, ranged, k, ps[j].ip);
      PipeSurvives(d, m, t, d', m'.ino, t', lo, hi, {num as int}, ps[j]);
    }
    assert forall j | 0 <= j < |rest| :: rest[j] == ps[if j < k then j else j + 1];
    NumbersLess(t, t', ps, special, k);
    FilesAfter(d, m.ino, t, d', m'.ino, t', {num as int}, special, special - {num as int}, log, log + [Emptied(num)],
               ranged, ranged);
  }

  lemma {:induction false} NotRoot(d: Disk, t: seq<Cinode>, e: Ends)
    requires GoodPipeEnds(d, t, e)
    ensures t[e.ip].num > ROOTINODE
  {
    hide Unread, InPipe, Pointers, Sleeping;
  }

  lemma {:induction false} NumbersLess(t: seq<Cinode>, t': seq<Cinode>, ps: seq<Ends>, special: set<int>, k: int)
    requires NumbersOf(t, ps, special) && |t'| == |t| && 0 <= k < |ps|
             && forall j | 0 <= j < |ps| :: 0 <= ps[j].ip < |t|
    requires forall j | 0 <= j < |ps| :: t'[ps[j].ip].num == t[ps[j].ip].num
    requires forall j | 0 <= j < |ps| && j != k :: t[ps[j].ip].num != t[ps[k].ip].num
    ensures NumbersOf(t', ps[..k] + ps[k + 1..], special - {t[ps[k].ip].num as int})
  {
    var rest := ps[..k] + ps[k + 1..];
    forall n: int
      ensures n in special - {t[ps[k].ip].num as int} <==> IsNumber(t', rest, n)
    {
      if j :| 0 <= j < |ps| && t[ps[j].ip].num == n {
        if j != k {
          assert rest[if j < k then j else j - 1] == ps[j];
        }
      }
      if j :| 0 <= j < |rest| && 0 <= rest[j].ip < |t'| && t'[rest[j].ip].num == n {
        assert rest[j] == ps[if j < k then j else j + 1];
      }
    }
  }

  lemma {:induction false} OldOrNew(was: seq<PipePair>, now: seq<PipePair>)
    requires now == was || (|now| == |was| + 1 && now[..|now| - 1] == was)
    ensures forall q | q in now :: q in was || (now != [] && q == now[|now| - 1])
  {
  }

  lemma {:induction false} EndsSlot(d: Disk, tab: seq<Cinode>, e: Ends)
    requires GoodPipeEnds(d, tab, e)
    ensures 0 <= e.ip < |tab| && tab[e.ip].num != 0 && tab[e.ip].refs > 0
  {
    hide Unread, InPipe, Pointers, Sleeping;
  }

  lemma {:induction false} EndsCounts(d: Disk, tab: seq<Cinode>, e: Ends)
    requires GoodPipeEnds(d, tab, e)
    ensures 0 <= e.got <= |e.sent|
  {
    hide InPipe, Sleeping;
  }

  lemma {:induction false} NumbersMore(t: seq<Cinode>, t': seq<Cinode>, ps: seq<Ends>, special: set<int>, e: Ends)
    requires NumbersOf(t, ps, special) && |t'| == |t| && 0 <= e.ip < |t|
    requires forall k | 0 <= k < |ps| :: 0 <= ps[k].ip < |t| && t'[ps[k].ip].num == t[ps[k].ip].num
    ensures NumbersOf(t', ps + [e], special + {t'[e.ip].num as int})
  {
    var ps' := ps + [e];
    forall n: int
      ensures n in special + {t'[e.ip].num as int} <==> IsNumber(t', ps', n)
    {
      assert ps'[|ps|] == e;
      if k :| 0 <= k < |ps| && 0 <= ps[k].ip < |t| && t[ps[k].ip].num == n {
        assert ps'[k] == ps[k];
      }
    }
  }

  /** The superblock says what is in core. */
  ghost predicate Saved(d: Disk, isize: Word, fsize: Word, stack: seq<Word>, ninode: int, sinode: seq<Word>,
      tinode: int) {
    && Mountable(d, stack) && SbIsize(d(1)) == isize && SbFsize(d(1)) == fsize
    && WordAt(d(1), 54) == ninode && WordsOf(d(1), 55, 105) == sinode && WordAt(d(1), 109) == ToWord(tinode)
  }

  method TruncateSlot(tab: Inodes, ip: int)
    requires tab.Ready() && tab.fs.Open(ip)
    modifies tab.fs, tab.fs.itab, tab.fs.vol.Repr()
    ensures tab.Ready() && IsEmpty(tab.fs.itab[ip].node) && SizeGone(old(tab.fs.itab[..]), tab.fs.itab[..], ip)
    ensures Untouched(old(tab.fs.vol.disk), old(tab.fs.layout.ino), old(tab.fs.itab[..]),
                      tab.fs.vol.disk, tab.fs.layout.ino, tab.fs.itab[..], {tab.fs.itab[ip].num as int})
  {
    hide GoodLayout, GoodFreeList, Consistent, GoodNumbers, TableUses, InUse, DiskNode, Untouched, Slots;
    hide SameInodeBlocks;
    var fs := tab.fs;
    ghost var d, m, t := fs.vol.disk, fs.layout, fs.itab[..];
    fs.Ftrunc(ip);
    TruncatedNumbers(d, fs.vol.disk, m, t, fs.vol.isize, fs.vol.fsize, tab.ninode, tab.sinode[..], tab.tinode,
                     tab.pending, tab.exact, ip, fs.itab[ip]);
    assert fs.itab[..] == t[ip := fs.itab[ip]];
  }

  method ReadSlot(tab: Inodes, ip: int, o: Off, count: Word, mem: array<Byte>, ghost log: seq<Change>,
      ghost ranged: bool)
    returns (n: int)
    requires tab.Ready() && tab.fs.Open(ip) && Readable(tab.fs.itab[..], ip, o, count)
    requires mem.Length == 0x8000 && mem !in {tab, tab.sinode} + tab.fs.Repr()
    requires FileGood(tab.fs.vol.disk, tab.fs.layout.ino, tab.fs.itab[ip].node, tab.fs.itab[ip].num, log, ranged)
    modifies tab.fs, tab.fs.itab, tab.fs.vol.Repr(), mem
    ensures tab.Ready() && tab.fs.vol.disk == old(tab.fs.vol.disk) && tab.fs.layout.ino == old(tab.fs.layout.ino)
    ensures tab.fs.itab[..] == old(tab.fs.itab[..])
    ensures n == InFile(SizeOf(tab.fs.itab[ip].node), o, count)
    ensures HoldsLast(mem[..], n, log, tab.fs.itab[ip].num, Position(o))
  {
    hide GoodLayout, GoodFreeList, Consistent, GoodNumbers, TableUses, InUse, DiskNode, Filled, ReadLimit, Position;
    hide Around, FileGood, InFile, HoldsLast;
    var fs := tab.fs;
    ghost var d, ino, node, num := fs.vol.disk, fs.layout.ino, fs.itab[ip].node, fs.itab[ip].num;
    ShortReadsAreExact(SizeOf(node), o, count);
    InFileIs(SizeOf(node), o, count);
    fs.uBase, fs.uCount, fs.uOffset := 0, count, o;
    var _ := fs.Readi(ip, mem);
    n := fs.uCount;
    ReadsLast(mem[..], old(mem[..]), n, d, ino, node, num, Position(o), log, ranged);
  }

  method WriteSlot(tab: Inodes, ip: int, o: Off, count: Word, mem: array<Byte>) returns (n: int)
    requires tab.Ready() && tab.fs.Open(ip) && Writable(tab.fs.itab[..], ip, o, count)
    requires mem.Length == 0x8000 && mem !in {tab, tab.sinode} + tab.fs.Repr()
    modifies tab.fs, tab.fs.itab, tab.fs.vol.Repr()
    ensures tab.Ready() && 0 <= n <= count && (n < count ==> tab.fs.vol.stack == [] && tab.fs.vol.error == ENOSPC)
    ensures OnlyFile(old(tab.fs.vol.disk), old(tab.fs.layout.ino), old(tab.fs.itab[..]),
                     tab.fs.vol.disk, tab.fs.layout.ino, tab.fs.itab[..], ip)
    ensures Wrote(old(tab.fs.vol.disk), old(tab.fs.layout.ino), tab.fs.vol.disk, tab.fs.layout.ino,
                  old(tab.fs.itab[ip].num),
                  Position(o), n, mem[..count], false)
    ensures old(tab.fs.itab[ip].num) < |tab.fs.layout.ino|
            && tab.fs.layout.ino[old(tab.fs.itab[ip].num)] == tab.fs.itab[ip].node.addr
    ensures tab.fs.itab[ip].node.sizeOff < 512
    ensures Position(o) + count < FILE_MODULUS ==>
              Position(SizeOf(tab.fs.itab[ip].node)) ==
                Larger(Position(SizeOf(old(tab.fs.itab[ip].node))), Position(o) + n)
  {
    hide GoodLayout, GoodFreeList, Consistent, GoodNumbers, TableUses, InUse, DiskNode, Position, Around, Wrote;
    hide OnlyFile, SameSlot, FirstBlockOf, Lookup;
    var fs := tab.fs;
    ghost var d, m, t := fs.vol.disk, fs.layout, fs.itab[..];
    fs.uBase, fs.uCount, fs.uOffset := 0, count, o;
    var _, _ := fs.Writei(ip, mem);
    n := fs.uBase;
    assert mem[0..0 + count] == mem[..count];
    FileWritten(d, m, t, fs.vol.disk, fs.layout, fs.itab[..], fs.vol.isize, fs.vol.fsize, ip, Position(o), n,
                mem[..count], false);
    OnlyFileSlot(d, m.ino, t, fs.vol.disk, fs.layout.ino, fs.itab[..], ip);
    SlotOfTable(fs.vol.disk, fs.layout, fs.itab[..], fs.vol.isize, fs.vol.fsize, ip);
    TransferKeepsNumbers(d, fs.vol.disk, m, t, fs.itab[..], fs.vol.isize, fs.vol.fsize, tab.ninode, tab.sinode[..],
                         tab.tinode, tab.pending, tab.exact, ip);
    RegularMode(t[ip].node);
  }

  lemma {:induction false} RegularMode(n: Dinode)
    requires Getmode(n.mode) == F_REG
    ensures !LooksFree(n) && IsFile(n) && !IsPipe(n)
  {
  }

  lemma {:induction false} StateSlots(
      d: Disk, m: Layout, tab: seq<Cinode>, lo: Word, hi: Word, ps: seq<Ends>, special: set<int>,
      log: seq<Change>, ranged: bool)
    requires GoodLayout(d, m, tab, lo, hi) && GoodState(d, m.ino, tab, ps, special, log, ranged)
    ensures |tab| == ITABSIZE
    ensures forall k | 0 <= k < |ps| ::
              && 0 <= ps[k].ip < ITABSIZE && tab[ps[k].ip].refs > 0 && tab[ps[k].ip].num != 0
              && tab[ps[k].ip].node.nlink == 0 && IsPipe(tab[ps[k].ip].node)
  {
    hide Unread, Pointers, Sleeping, OwnsNothing, FilesGood, Partition, DiskNode;
  }

  lemma {:induction false} FileFacts(d: Disk, ino: seq<Addr>, node: Dinode, n: int, log: seq<Change>, ranged: bool)
    requires FileGood(d, ino, node, n, log, ranged)
    ensures n == ROOTINODE ==> Getmode(node.mode) == F_DIR
    ensures Getmode(node.mode) == F_DIR ==>
              node.nlink != 0 && GoodDirectory(d, node) && UniqueNames(EntriesOf(d, node.addr))
    ensures node.sizeOff < 512 && ino[n] == node.addr
  {
    hide Recorded, Extent, GoodDirectory, UniqueNames;
  }

  lemma {:induction false} InFileIs(size: Off, o: Off, count: Word)
    ensures 0 <= InFile(size, o, count) <= count
  {
  }

  /** What a read of a good file brings to memory. */
  lemma {:induction false} ReadsLast(
      mem: seq<Byte>, was: seq<Byte>, n: int, d: Disk, ino: seq<Addr>, node: Dinode, num: int, start: int,
      log: seq<Change>, ranged: bool)
    requires Filled(mem, was, 0, n, d, node.addr, start, false) && FileGood(d, ino, node, num, log, ranged)
    ensures HoldsLast(mem, n, log, num, start)
  {
    hide FileByte, LastByte, Extent, GoodDirectory, UniqueNames;
    forall i | 0 <= i < n
      ensures mem[i] == LastByte(log, num, (start + i) % FILE_MODULUS)
    {
      assert start + (i - 0) == start + i;
    }
  }

  // ----- What the invariant of a run means -----

  /** Every data block is on the free stack or at one position of one inode, and nowhere else; the
      superblock's counts are right. */
  lemma {:induction false} SoundMeans(sys: System, b: Word)
    requires sys.Good()
    ensures var d, m, lo, hi := sys.tab.fs.vol.disk, sys.tab.fs.layout, sys.tab.fs.vol.isize, sys.tab.fs.vol.fsize;
            && (lo <= b < hi && b !in sys.tab.fs.vol.stack ==>
                  exists p :: ValidPos(m.ino, p) && PtrAt(d, m.ino, p) == b)
            && (b in sys.tab.fs.vol.stack ==> lo <= b < hi && forall p | ValidPos(m.ino, p) :: PtrAt(d, m.ino, p) != b)
            && (forall p, q | ValidPos(m.ino, p) && ValidPos(m.ino, q)
                && PtrAt(d, m.ino, p) == PtrAt(d, m.ino, q) == b != 0 ::
                  p == q && lo <= b < hi)
    ensures sys.tab.fs.vol.tfree == |sys.tab.fs.vol.stack| ==
            sys.tab.fs.vol.fsize - sys.tab.fs.vol.isize - |sys.tab.fs.layout.owner|
    ensures sys.tab.tinode <= |FreeSet(sys.tab.fs.vol.disk, sys.tab.fs.vol.isize)| - |sys.tab.pending|
    ensures sys.tab.exact ==>
              sys.tab.tinode == |FreeSet(sys.tab.fs.vol.disk, sys.tab.fs.vol.isize)| - |sys.tab.pending|
  {
    hide Consistent, Coherent, GoodState, StatesOf, System.Apart;
    var fs := sys.tab.fs;
    fs.vol.StackIsTfree();
    BlocksAreConserved(fs.vol.disk, fs.layout.ino, fs.layout.owner, fs.layout.stack, fs.vol.isize, fs.vol.fsize);
    PartitionMeaning(fs.vol.disk, fs.layout.ino, fs.layout.owner, fs.layout.stack, fs.vol.isize, fs.vol.fsize, b);
  }

  /** Of the two processes at the ends of a pipe one can go on, unless the writer wants to write more
      than a pipe holds; what is unread is in the pipe, at most 8192 bytes. */
  lemma {:induction false} PipesGoOn(sys: System, k: int)
    requires sys.Good() && 0 <= k < |sys.pipes|
    ensures var q := sys.pipes[k];
            && (q.reader.Asleep? && q.writer.Asleep? ==> q.wanted > PIPE_SIZE)
            && (q.reader.Asleep? ==> q.got == |q.sent|) && 0 <= |q.sent| - q.got <= PIPE_SIZE
  {
    hide Unread, FilesGood, OwnsNothing, Inodes.Intact;
    var q, ps := sys.pipes[k], StatesOf(sys.pipes);
    assert GoodPipeEnds(sys.tab.fs.vol.disk, sys.tab.fs.itab[..], ps[k]) && ps[k] == q.State();
    BothAsleep(q.reader, q.writer, |q.sent| - q.got, q.wanted);
  }
}
