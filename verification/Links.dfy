/** Names and inodes together (fs/filesys.c: newfile; kernel/scall1.c: _unlink): what a process
    sees after it has entered a name in a directory or removed it. */
module Links {
  import opened Types
  import opened BufferCache
  import opened FreeOrder
  import opened BlockMap
  import opened Volume
  import opened Inode
  import opened FileBytes
  import opened FileSystem
  import opened InodeTable
  import opened Directory
  import opened Mkfs

  // ----- Directories that are not written -----

  /** A directory outside ex stays one, with the same entries. */
  lemma {:induction false} DirectoryStays(
      d: Disk, ino: seq<Addr>, d': Disk, ino': seq<Addr>, ex: set<int>, num: int, n: Dinode)
    requires OtherFiles(d, ino, d', ino', ex) && 0 <= num < |ino| && num !in ex && ino[num] == n.addr
             && GoodDirectory(d, n)
    ensures GoodDirectory(d', n) && SameEntries(d, n.addr, d', n.addr)
  {
    hide FileBlock, Lookup, PtrAt;
    assert forall p | 0 <= p < FILE_MODULUS :: FileByte(d', n.addr, p) == FileByte(d, n.addr, p);
    forall b: Word | b < BlockCount(n)
      ensures Lookup(d', n.addr, b) != 0
    {
      Walk(d, ino, num, b);
      Walk(d', ino', num, b);
    }
    hide FileByte;
    PositionIs(SizeOf(n));
    hide Position;
    forall j | 0 <= j < ENTRIES
      ensures EntryAt(d', n.addr, j) == EntryAt(d, n.addr, j)
    {
      assert forall i | 0 <= i < ENTRY :: EntryAt(d', n.addr, j)[i] == EntryAt(d, n.addr, j)[i];
    }
  }

  /** The same entries make the same map. */
  lemma {:induction false} SameMap(d: Disk, addr: Addr, d': Disk, addr': Addr)
    requires SameEntries(d, addr, d', addr')
    ensures UniqueNames(EntriesOf(d', addr')) == UniqueNames(EntriesOf(d, addr))
    ensures forall name, num :: Listed(EntriesOf(d', addr'), name, num) <==> Listed(EntriesOf(d, addr), name, num)
  {
    hide EntryName, Number;
    assert forall k | 0 <= k < ENTRIES :: EntriesOf(d', addr')(k) == EntriesOf(d, addr)(k);
  }

  // ----- Linking, then searching -----

  /** The name field as a string. */
  lemma {:induction false} FieldAsString(field: seq<Byte>)
    requires |field| == NAMELEN
    ensures 0 in field + [0] && Name(field + [0]) == Name(field)
  {
    var s, r := field + [0], Name(field);
    assert s[NAMELEN] == 0;
    if |r| < NAMELEN {
      assert Ends(s[|r|]);
    }
    ComponentIs(s, NAMELEN, |r|);
    assert s[..|r|] == field[..|r|];
  }

  lemma {:induction false} LinkedEntry(d: Disk, addr: Addr, d': Disk, addr': Addr, oldname: seq<Byte>, e: seq<Byte>,
      k: int)
    requires Directory.Linked(d, addr, d', addr', oldname, e, k) && UniqueNames(EntriesOf(d, addr))
    requires NameIsNew(EntriesOf(d, addr), oldname, EntryName(e)) && EntryName(e) != []
    ensures UniqueNames(EntriesOf(d', addr'))
    ensures forall num :: Listed(EntriesOf(d', addr'), EntryName(e), num) <==> num == Number(e)
  {
    hide EntryName, Number, UniqueNames, NameIsNew;
  }

  /** Ch_link, then srch_dir for the new name: it finds the number just linked. */
  method LinkAndFind(fs: FileSys, wd: int, oldname: seq<Byte>, newname: seq<Byte>, num: Word, mayWrite: bool)
    returns (ok: bool, found: int)
    requires fs.Ready() && fs.Open(wd) && GoodDirectory(fs.vol.disk, fs.itab[wd].node) && fs.vol.error == OK
    requires fs.itab[wd].node.sizeBlk < 0x7FFE && 0 in oldname && |newname| == NAMELEN && Name(newname) != []
    requires UniqueNames(EntriesOf(fs.vol.disk, fs.itab[wd].node.addr))
    requires NameIsNew(EntriesOf(fs.vol.disk, fs.itab[wd].node.addr), Name(oldname), Name(newname))
    modifies fs, fs.itab, fs.vol.Repr()
    ensures fs.Ready() && fs.Open(wd) && GoodDirectory(fs.vol.disk, fs.itab[wd].node)
    ensures UniqueNames(EntriesOf(fs.vol.disk, fs.itab[wd].node.addr))
    ensures if ok then found == num
            else SameEntries(old(fs.vol.disk), old(fs.itab[wd].node.addr), fs.vol.disk, fs.itab[wd].node.addr)
  {
    hide GoodLayout, GoodFreeList, Consistent, OtherDevices, GoodDirectory, Wrote, Component, EntryName, Number;
    hide UniqueNames;
    hide NameIsNew, Directory.Linked, Listed, OnlyFile, SameEntries, MakeEntry, Position;
    ghost var d, addr := fs.vol.disk, fs.itab[wd].node.addr;
    ghost var k;
    ok, k := ChLink(fs, wd, oldname, newname, num, mayWrite);
    ghost var d', addr' := fs.vol.disk, fs.itab[wd].node.addr;
    FieldAsString(newname);
    EntryIs(num, newname);
    if ok {
      LinkedEntry(d, addr, d', addr', Name(oldname), MakeEntry(num, newname), k);
    } else {
      SameMap(d, addr, d', addr');
    }
    found := SrchDir(fs, wd, newname + [0]);
    if ok {
      assert Listed(EntriesOf(d', addr'), EntryName(MakeEntry(num, newname)), num);
    }
  }

  lemma {:induction false} EntryIs(num: Word, field: seq<Byte>)
    requires |field| == NAMELEN
    ensures |MakeEntry(num, field)| == ENTRY && EntryName(MakeEntry(num, field)) == Name(field)
            && Number(MakeEntry(num, field)) == num
  {
    hide Component;
  }

  // ----- The root directory of a fresh image -----

  /** It is a directory that lists "." and ".." and nothing else. */
  lemma {:induction false} FreshRoot(d: Disk, isize: Word, fsize: Word)
    requires FreshImage(d, isize, fsize)
    ensures var n := RootInode(isize);
            && GoodDirectory(d, n) && UniqueNames(EntriesOf(d, n.addr))
            && forall name, num | name != [] ::
                 Listed(EntriesOf(d, n.addr), name, num) <==> num == ROOTINODE && (name == [46] || name == [46, 46])
  {
    var n := RootInode(isize);
    assert d(isize) == DirBlock() && isize != 0 by {
      hide Mountable, DirBlock;
    }
    RootBytes(d, isize);
    hide FreshImage, FileByte, Lookup, DirBlock, Component;
    forall k | 0 <= k < ENTRIES
      ensures EntryAt(d, n.addr, k) == if k == 0 then DotEntry([46]) else if k == 1 then DotEntry([46, 46])
              else NoEntry()
    {
      RootEntry(d, n.addr, k);
    }
    hide DotEntry, NoEntry;
    TwoEntries(EntriesOf(d, n.addr));
  }

  lemma {:induction false} TwoEntries(entry: int -> seq<Byte>)
    requires forall k | 0 <= k < ENTRIES ::
               entry(k) == if k == 0 then DotEntry([46]) else if k == 1 then DotEntry([46, 46]) else NoEntry()
    ensures UniqueNames(entry)
    ensures forall name, num | name != [] ::
              Listed(entry, name, num) <==> num == ROOTINODE && (name == [46] || name == [46, 46])
  {
    DotNames();
    hide DotEntry, NoEntry, EntryName, Number;
    assert entry(0) == DotEntry([46]) && entry(1) == DotEntry([46, 46]);
  }

  /** The entry of inode 1 with a name of dots; an empty entry. */
  function DotEntry(name: seq<Byte>): (e: seq<Byte>)
    requires |name| <= 2
    ensures |e| == ENTRY
  {
    [1, 0] + name + seq<Byte>(NAMELEN - |name|, _ => 0)
  }

  function NoEntry(): (e: seq<Byte>)
    ensures |e| == ENTRY
  {
    seq<Byte>(ENTRY, _ => 0)
  }

  lemma {:induction false} DotNames()
    ensures EntryName(DotEntry([46])) == [46] && EntryName(DotEntry([46, 46])) == [46, 46] && EntryName(NoEntry()) == []
    ensures Number(DotEntry([46])) == ROOTINODE == Number(DotEntry([46, 46]))
  {
    ComponentIs(DotEntry([46])[2..], NAMELEN, 1);
    ComponentIs(DotEntry([46, 46])[2..], NAMELEN, 2);
    ComponentIs(NoEntry()[2..], NAMELEN, 0);
    hide Component;
    assert DotEntry([46])[2..][..1] == [46];
    assert DotEntry([46, 46])[2..][..2] == [46, 46];
  }

  lemma {:induction false} RootBytes(d: Disk, isize: Word)
    requires d(isize) == DirBlock() && isize != 0
    ensures forall p | 0 <= p < FILE_MODULUS :: FileByte(d, NO_BLOCKS[0 := isize], p) == if p < 512 then DirBlock()[p]
            else 0
    ensures GoodDirectory(d, RootInode(isize))
  {
    hide DirBlock;
    var addr := NO_BLOCKS[0 := isize];
    forall p | 0 <= p < FILE_MODULUS
      ensures FileByte(d, addr, p) == if p < 512 then DirBlock()[p] else 0
    {
      RootByte(d, isize, p);
    }
    DirBlockIs();
    hide FileByte;
    RootIsDirectory(d, isize, addr);
  }

  lemma {:induction false} RootIsDirectory(d: Disk, isize: Word, addr: Addr)
    requires isize != 0 && addr == NO_BLOCKS[0 := isize]
    requires forall p | 32 <= p < FILE_MODULUS :: FileByte(d, addr, p) == 0
    ensures GoodDirectory(d, RootInode(isize))
  {
    hide FileByte;
    var n := RootInode(isize);
    assert n.addr == addr;
    assert Lookup(d, addr, 0) == isize;
    hide Lookup;
    PositionIs(SizeOf(n));
  }

  lemma {:induction false} RootByte(d: Disk, isize: Word, p: int)
    requires d(isize) == DirBlock() && isize != 0 && 0 <= p < FILE_MODULUS
    ensures FileByte(d, NO_BLOCKS[0 := isize], p) == if p < 512 then DirBlock()[p] else 0
  {
    hide DirBlock;
    var addr := NO_BLOCKS[0 := isize];
    if p >= 512 {
      assert Lookup(d, addr, p / 512) == 0;
    } else {
      assert p / 512 == 0 && p % 512 == p;
      assert Lookup(d, addr, 0) == isize;
    }
  }

  lemma {:induction false} DirBlockIs()
    ensures var b := DirBlock();
            forall i | 0 <= i < 512 ::
              b[i] == if i == 0 || i == 16 then 1 else if i == 2 || i == 18 || i == 19 then 46 else 0
  {
  }

  lemma {:induction false} RootEntry(d: Disk, addr: Addr, k: int)
    requires forall p | 0 <= p < FILE_MODULUS :: FileByte(d, addr, p) == if p < 512 then DirBlock()[p] else 0
    requires 0 <= k < ENTRIES
    ensures EntryAt(d, addr, k) == if k == 0 then DotEntry([46]) else if k == 1 then DotEntry([46, 46]) else NoEntry()
  {
    hide FileByte, DirBlock;
    DirBlockIs();
    var e := EntryAt(d, addr, k);
    forall i | 0 <= i < ENTRY
      ensures e[i] == if k == 0 then DotEntry([46])[i] else if k == 1 then DotEntry([46, 46])[i] else 0
    {
      assert e[i] == FileByte(d, addr, ENTRY * k + i);
    }
  }

  // ----- New files -----

  /** Slot wd refers to a directory. */
  ghost predicate DirectoryAt(d: Disk, tab: seq<Cinode>, wd: int) {
    0 <= wd < |tab| && tab[wd].num != 0 && tab[wd].refs > 0 && GoodDirectory(d, tab[wd].node)
  }

  /** What becomes of directory num, from n to n': entry k is e and the map is updated for these
      names alone, or nothing differs. It has no blocks behind its end if it had none. */
  ghost predicate EntryPut(
      d: Disk, ino: seq<Addr>, n: Dinode, d': Disk, ino': seq<Addr>, n': Dinode, num: int,
      ok: bool, oldname: seq<Byte>, e: seq<Byte>, k: int)
  {
    && 0 <= num < |ino| == |ino'| && ino[num] == n.addr && ino'[num] == n'.addr && 0 <= k < ENTRIES
    && GoodDirectory(d', n') && n' == n.(sizeBlk := n'.sizeBlk, sizeOff := n'.sizeOff, addr := n'.addr)
    && Stored(d, n.addr, d', n'.addr, ENTRY * k, if ok then e else [], false)
    && (if ok then Directory.Linked(d, n.addr, d', n'.addr, oldname, e, k) else SameEntries(d, n.addr, d', n'.addr))
    && SizeOf(n') == (if ok then LinkedSize(SizeOf(n), k) else SizeOf(n))
    && (Within(d, ino, num, n.sizeBlk + 1) ==> Within(d', ino', num, n'.sizeBlk + 1))
  }

  /** Around steps that do not touch the directory. */
  lemma {:induction false} PutBetween(
      d0: Disk, ino0: seq<Addr>, d: Disk, ino: seq<Addr>, n: Dinode, d': Disk, ino': seq<Addr>, n': Dinode,
      d1: Disk, ino1: seq<Addr>, num: int, ok: bool, oldname: seq<Byte>, e: seq<Byte>, k: int, ex: set<int>,
        ex': set<int>)
    requires OtherFiles(d0, ino0, d, ino, ex) && num !in ex && OtherFiles(d', ino', d1, ino1, ex') && num !in ex'
    requires EntryPut(d, ino, n, d', ino', n', num, ok, oldname, e, k)
    requires 0 <= num < |ino0| && ino0[num] == n.addr && GoodDirectory(d0, n)
    ensures EntryPut(d0, ino0, n, d1, ino1, n', num, ok, oldname, e, k)
  {
    hide Stored, Directory.Linked, GoodDirectory, SameEntries, Within, LinkedSize, FileBlock, PtrAt, SizeOf;
    BytesStay(d0, ino0, d, ino, ex, num);
    BytesStay(d', ino', d1, ino1, ex', num);
    StoredBetween(d0, n.addr, d, n.addr, d', n'.addr, d1, n'.addr, ENTRY * k, if ok then e else [], false);
    DirectoryStays(d0, ino0, d, ino, ex, num, n);
    DirectoryStays(d', ino', d1, ino1, ex', num, n');
    WithinStays(d0, ino0, d, ino, ex, num, n.sizeBlk + 1);
    WithinStays(d', ino', d1, ino1, ex', num, n'.sizeBlk + 1);
    hide OtherFiles;
    if ok {
      LinkedBetween(d0, n.addr, d, n.addr, d', n'.addr, d1, n'.addr, oldname, e, k);
    } else {
      EntriesTrans(d0, n.addr, d, n.addr, d', n'.addr);
      EntriesTrans(d0, n.addr, d', n'.addr, d1, n'.addr);
    }
  }

  lemma {:induction false} EntriesTrans(d1: Disk, a1: Addr, d2: Disk, a2: Addr, d3: Disk, a3: Addr)
    requires SameEntries(d1, a1, d2, a2) && SameEntries(d2, a2, d3, a3)
    ensures SameEntries(d1, a1, d3, a3)
  {
  }

  lemma {:induction false} LinkedBetween(
      d0: Disk, a0: Addr, d: Disk, a: Addr, d': Disk, a': Addr, d1: Disk, a1: Addr, oldname: seq<Byte>, e: seq<Byte>,
        k: int)
    requires SameEntries(d0, a0, d, a) && Directory.Linked(d, a, d', a', oldname, e, k) && SameEntries(d', a', d1, a1)
    ensures Directory.Linked(d0, a0, d1, a1, oldname, e, k)
  {
    hide EntryName, Listed, UniqueNames, Number;
    SameMap(d0, a0, d, a);
    SameMap(d', a', d1, a1);
  }

  /** Ch_link in terms of the whole table. */
  method LinkName(tab: Inodes, wd: int, oldname: seq<Byte>, newname: seq<Byte>, num: Word, mayWrite: bool)
    returns (ok: bool, ghost k: int)
    requires tab.Ready() && DirectoryAt(tab.fs.vol.disk, tab.fs.itab[..], wd) && tab.fs.vol.error == OK
    requires tab.fs.itab[wd].node.sizeBlk < 0x7FFE && 0 in oldname && |newname| == NAMELEN
    modifies tab.fs, tab.fs.itab, tab.fs.vol.Repr()
    ensures tab.Ready() && DirectoryAt(tab.fs.vol.disk, tab.fs.itab[..], wd)
    ensures OnlyFile(old(tab.fs.vol.disk), old(tab.fs.layout.ino), old(tab.fs.itab[..]),
                     tab.fs.vol.disk, tab.fs.layout.ino, tab.fs.itab[..], wd)
    ensures EntryPut(old(tab.fs.vol.disk), old(tab.fs.layout.ino), old(tab.fs.itab[wd].node),
                     tab.fs.vol.disk, tab.fs.layout.ino, tab.fs.itab[wd].node, old(tab.fs.itab[wd].num) as int,
                     ok, Name(oldname), MakeEntry(num, newname), k)
    ensures !ok && mayWrite ==>
              if oldname[0] == 0 then tab.fs.vol.stack == []
              else NotListed(old(tab.fs.vol.disk), old(tab.fs.itab[wd].node.addr), Name(oldname))
  {
    hide GoodLayout, GoodFreeList, Consistent, GoodNumbers, TableUses, GoodDirectory, Wrote, Component;
    hide Directory.Linked, OnlyFile, NotListed;
    hide SameEntries, NoMatch, Position, MakeEntry, LinkedSize, SizeOf, Stored, Within;
    var fs := tab.fs;
    ghost var d, m, t := fs.vol.disk, fs.layout, fs.itab[..];
    SlotOfTable(d, m, t, fs.vol.isize, fs.vol.fsize, wd);
    ok, k := ChLink(fs, wd, oldname, newname, num, mayWrite);
    OnlyFileSlot(d, m.ino, t, fs.vol.disk, fs.layout.ino, fs.itab[..], wd);
    SlotOfTable(fs.vol.disk, fs.layout, fs.itab[..], fs.vol.isize, fs.vol.fsize, wd);
    DirectoryMode(d, t[wd].node);
    TransferKeepsNumbers(d, fs.vol.disk, m, t, fs.itab[..], fs.vol.isize, fs.vol.fsize, tab.ninode, tab.sinode[..],
                         tab.tinode, tab.pending, tab.exact, wd);
    WroteStored(d, m.ino, fs.vol.disk, fs.layout.ino, t[wd].num, ENTRY * k, if ok then ENTRY
                else 0, MakeEntry(num, newname), false);
    assert MakeEntry(num, newname)[..ENTRY] == MakeEntry(num, newname);
    if Within(d, m.ino, t[wd].num, t[wd].node.sizeBlk + 1) {
      PutWithin(d, m.ino, fs.vol.disk, fs.layout.ino, t[wd].num, t[wd].node, fs.itab[wd].node, ok,
                MakeEntry(num, newname), k);
    }
    if !ok && mayWrite {
      SearchedAll(d, t[wd].node, Name(oldname), k);
    }
  }

  ghost predicate NotListed(d: Disk, addr: Addr, name: seq<Byte>) {
    name != [] ==> forall num :: !Listed(EntriesOf(d, addr), name, num)
  }

  /** A search that came to the end. */
  lemma {:induction false} SearchedAll(d: Disk, n: Dinode, name: seq<Byte>, k: int)
    requires GoodDirectory(d, n) && Position(SizeOf(n)) == ENTRY * k && NoMatch(d, n.addr, name, k)
    ensures NotListed(d, n.addr, name)
  {
    hide FileByte, Lookup, EntryName, Number;
    PositionIs(SizeOf(n));
    hide Position;
    forall j | 0 <= j < ENTRIES && name != []
      ensures EntryName(EntriesOf(d, n.addr)(j)) != name
    {
      if k <= j {
        NothingAtEnd(d, n, j);
      }
    }
  }

  /** Behind the end there are no names. */
  lemma {:induction false} NothingAtEnd(d: Disk, n: Dinode, j: int)
    requires GoodDirectory(d, n) && Position(SizeOf(n)) <= ENTRY * j && j < ENTRIES
    ensures EntryName(EntryAt(d, n.addr, j)) == []
  {
    hide FileByte, Component;
    var e := EntryAt(d, n.addr, j);
    assert e[2] == FileByte(d, n.addr, ENTRY * j + 2);
    NoName(e[2..]);
  }

  lemma {:induction false} PutWithin(
      d: Disk, ino: seq<Addr>, d': Disk, ino': seq<Addr>, num: int, n: Dinode, n': Dinode, ok: bool, e: seq<Byte>,
        k: int)
    requires Wrote(d, ino, d', ino', num, ENTRY * k, if ok then ENTRY else 0, e, false) && 0 <= k < ENTRIES
             && |e| == ENTRY
    requires GoodDirectory(d, n) && n.sizeBlk < 0x7FFE && SizeOf(n') == if ok then LinkedSize(SizeOf(n), k)
             else SizeOf(n)
    requires ok ==> ENTRY * k <= Position(SizeOf(n))
    requires Within(d, ino, num, n.sizeBlk + 1)
    ensures Within(d', ino', num, n'.sizeBlk + 1)
  {
    hide Wrote, Within, FileByte, Lookup;
    DirectorySize(d, n);
    PositionIs(SizeOf(n));
    PositionIs(SizeOf(n'));
    if ok {
      LinkedBounds(n, k);
      hide LinkedSize, Position, GoodDirectory;
      WrittenWithin(d, ino, d', ino', num, ENTRY * k, ENTRY, e, n.sizeBlk + 1, n'.sizeBlk + 1);
    } else {
      WrittenNothing(d, ino, d', ino', num, ENTRY * k, e, n.sizeBlk + 1);
    }
  }

  lemma {:induction false} DirectoryMode(d: Disk, n: Dinode)
    requires GoodDirectory(d, n)
    ensures Getmode(n.mode) == F_DIR && !LooksFree(n) && !IsPipe(n)
  {
  }

  /** I_deref of an inode that some directory names: a reference less, and nothing else is seen. */
  method Drop(tab: Inodes, ip: int)
    requires tab.Intact() && tab.fs.Open(ip) && tab.fs.itab[ip].node.nlink != 0
    modifies tab, tab.sinode, tab.fs, tab.fs.itab, tab.fs.vol.Repr()
    ensures tab.Intact() && tab.corrupt == old(tab.corrupt) && tab.exact == old(tab.exact)
    ensures old(tab.Ready()) ==> tab.Ready()
    ensures |tab.fs.itab[..]| == ITABSIZE && tab.fs.layout == old(tab.fs.layout)
            && tab.pending <= old(tab.pending) && tab.fs.vol.stack == old(tab.fs.vol.stack)
    ensures forall s | 0 <= s < ITABSIZE && s != ip :: tab.fs.itab[s] == old(tab.fs.itab[s])
    ensures tab.fs.itab[ip] ==
            old(tab.fs.itab[ip]).(refs := old(tab.fs.itab[ip].refs) - 1, dirty := tab.fs.itab[ip].dirty)
    ensures Untouched(old(tab.fs.vol.disk), old(tab.fs.layout.ino), old(tab.fs.itab[..]),
                      tab.fs.vol.disk, tab.fs.layout.ino, tab.fs.itab[..], {})
    ensures forall n: Word | n < 8 * (tab.fs.vol.isize - 2) && n != tab.fs.itab[ip].num ::
              InUse(tab.fs.vol.disk, tab.pending, n) <==> old(InUse(tab.fs.vol.disk, tab.pending, n))
  {
    hide GoodLayout, GoodFreeList, Consistent, GoodNumbers, TableUses, Slots, InUse, DiskNode, Untouched;
    tab.IDeref(ip);
  }

  /** Apart from those in ex, slots in use hold what they held, and unused slots stay unused. */
  ghost predicate OthersSame(tab: seq<Cinode>, tab': seq<Cinode>, ex: set<int>) {
    && |tab'| == |tab|
    && (forall s | 0 <= s < |tab| && s !in ex && tab[s].refs > 0 :: tab'[s] == tab[s].(dirty := tab'[s].dirty))
    && (forall s | 0 <= s < |tab| && s !in ex && tab[s].refs == 0 :: tab'[s].refs == 0)
  }

  lemma {:induction false} OthersSameTrans(t1: seq<Cinode>, t2: seq<Cinode>, t3: seq<Cinode>, ex: set<int>,
      ex': set<int>)
    requires OthersSame(t1, t2, ex) && OthersSame(t2, t3, ex')
    ensures OthersSame(t1, t3, ex + ex')
  {
  }

  lemma {:induction false} OneSlot(t: seq<Cinode>, t': seq<Cinode>, ip: int)
    requires |t'| == |t| && forall s | 0 <= s < |t| && s != ip :: t'[s] == t[s]
    ensures OthersSame(t, t', {ip})
  {
  }

  /** The second half of newfile: the name of the new inode in slot nindex is entered in the
      directory in slot pino, which loses a reference; without success the inode loses its own. */
  method EnterName(tab: Inodes, pino: int, nindex: int, name: seq<Byte>, mayWrite: bool)
    returns (ok: bool, ghost k: int)
    requires tab.Ready() && DirectoryAt(tab.fs.vol.disk, tab.fs.itab[..], pino) && tab.fs.vol.error == OK
    requires tab.fs.itab[pino].node.sizeBlk < 0x7FFE && tab.fs.itab[pino].node.nlink != 0 && |name| == NAMELEN
    requires tab.fs.Open(nindex) && nindex != pino && tab.fs.itab[nindex].node.nlink != 0
    modifies tab, tab.sinode, tab.fs, tab.fs.itab, tab.fs.vol.Repr()
    ensures tab.Ready() && |tab.fs.itab[..]| == ITABSIZE && tab.pending <= old(tab.pending)
            && tab.exact == old(tab.exact)
    ensures OthersSame(old(tab.fs.itab[..]), tab.fs.itab[..], {pino, nindex})
    ensures Untouched(old(tab.fs.vol.disk), old(tab.fs.layout.ino), old(tab.fs.itab[..]),
                      tab.fs.vol.disk, tab.fs.layout.ino, tab.fs.itab[..], {old(tab.fs.itab[pino].num) as int})
    ensures EntryPut(old(tab.fs.vol.disk), old(tab.fs.layout.ino), old(tab.fs.itab[pino].node),
                     tab.fs.vol.disk, tab.fs.layout.ino, tab.fs.itab[pino].node, old(tab.fs.itab[pino].num) as int,
                     ok, [], MakeEntry(old(tab.fs.itab[nindex].num), name), k)
    ensures tab.fs.itab[pino].num == old(tab.fs.itab[pino].num)
            && tab.fs.itab[pino].refs == old(tab.fs.itab[pino].refs) - 1
    ensures tab.fs.itab[nindex] == old(tab.fs.itab[nindex]).(dirty := tab.fs.itab[nindex].dirty,
              refs := if ok then old(tab.fs.itab[nindex].refs) else old(tab.fs.itab[nindex].refs) - 1)
    ensures !ok && mayWrite ==> tab.fs.vol.stack == []
  {
    hide GoodLayout, GoodFreeList, Consistent, GoodNumbers, TableUses, InUse, DiskNode, Untouched, EntryPut;
    hide GoodDirectory, MakeEntry, OtherFiles, OtherInodes;
    hide Component, OthersSame, OnlyFile, NotListed;
    var fs := tab.fs;
    ghost var d0, i0, t0, num, e := fs.vol.disk, fs.layout.ino, fs.itab[..], fs.itab[pino].num as int,
      MakeEntry(fs.itab[nindex].num, name);
    EmptyString([0]);
    SlotOfTable(d0, fs.layout, t0, fs.vol.isize, fs.vol.fsize, pino);
    ok, k := LinkName(tab, pino, [0], name, fs.itab[nindex].num, mayWrite);
    ghost var d1, i1, t1 := fs.vol.disk, fs.layout.ino, fs.itab[..];
    OnlyFileSlot(d0, i0, t0, d1, i1, t1, pino);
    ghost var none: set<int> := {};
    assert {num} + none == {num};
    UntouchedRefl(d1, i1, t1, none);
    if !ok {
      Drop(tab, nindex);
    }
    ghost var d2, t2 := fs.vol.disk, fs.itab[..];
    Drop(tab, pino);
    SlotsAfter(t0, t1, t2, fs.itab[..], pino, nindex);
    UntouchedTrans(d1, i1, t1, d2, i1, t2, fs.vol.disk, i1, fs.itab[..], none, none);
    assert none + none == none;
    UntouchedTrans(d0, i0, t0, d1, i1, t1, fs.vol.disk, i1, fs.itab[..], {num}, none);
    UntouchedFiles(d1, i1, t1, fs.vol.disk, i1, fs.itab[..], none);
    OtherFilesRefl(d0, i0, none);
    PutBetween(d0, i0, d0, i0, t0[pino].node, d1, i1, t1[pino].node, fs.vol.disk, i1, num, ok, [], e, k, none, none);
  }

  lemma {:induction false} UntouchedFiles(
      d: Disk, ino: seq<Addr>, tab: seq<Cinode>, d': Disk, ino': seq<Addr>, tab': seq<Cinode>, ex: set<int>)
    requires Untouched(d, ino, tab, d', ino', tab', ex)
    ensures OtherFiles(d, ino, d', ino', ex) && OtherInodes(d, tab, d', tab', |ino|, ex) && |ino'| == |ino|
  {
    OtherFilesSize(d, ino, d', ino', ex);
  }

  lemma {:induction false} SlotsAfter(
      t0: seq<Cinode>, t1: seq<Cinode>, t2: seq<Cinode>, t3: seq<Cinode>, pino: int, nindex: int)
    requires |t0| == |t1| == |t2| && 0 <= pino < |t0| && 0 <= nindex < |t0| && forall s | 0 <= s < |t0|
             && s != pino :: t1[s] == t0[s]
    requires |t3| == |t2| && forall s | 0 <= s < |t0| && s != nindex :: t2[s] == t1[s]
    requires forall s | 0 <= s < |t0| && s != pino :: t3[s] == t2[s]
    ensures OthersSame(t0, t3, {pino, nindex})
  {
  }

  /** Newfile: an empty file of one link and one reference, under a name in the directory in slot
      pino, which loses a reference. num is the new inode, or 0 if there was none. -1 means failure; if
      the name could not be entered, the inode stays on disk, in use and in no directory. */
  method Newfile(tab: Inodes, pino: int, name: seq<Byte>, mayWrite: bool, garbage: Block)
    returns (ip: int, ghost num: Word, ghost k: int)
    requires tab.Ready() && tab.fs.vol.error == OK
    requires DirectoryAt(tab.fs.vol.disk, tab.fs.itab[..], pino) && |name| == NAMELEN
    requires tab.fs.itab[pino].node.sizeBlk < 0x7FFE && tab.fs.itab[pino].node.nlink != 0
    modifies tab, tab.sinode, tab.fs, tab.fs.itab, tab.fs.vol.Repr()
    ensures tab.Intact() && (tab.Ready() <==> !tab.corrupt) && |tab.fs.itab[..]| == ITABSIZE
    ensures tab.corrupt ==> num == 0 && old(tab.tinode) == 0
    ensures tab.exact ==> old(tab.exact)
    ensures old(tab.exact) && (old(tab.ninode) == 0 ==> old(Settled(tab.fs.itab[..], tab.pending))) ==>
              && tab.exact && !tab.corrupt
              && (num == 0 ==>
                    || (forall m: Word | m < 8 * (tab.fs.vol.isize - 2) :: old(InUse(tab.fs.vol.disk, tab.pending, m)))
                    || (forall s | 0 <= s < ITABSIZE :: old(tab.fs.itab[s].refs) != 0))
    ensures OthersSame(old(tab.fs.itab[..]), tab.fs.itab[..], {pino, ip})
    ensures Untouched(old(tab.fs.vol.disk), old(tab.fs.layout.ino), old(tab.fs.itab[..]), tab.fs.vol.disk,
                      tab.fs.layout.ino,
                      tab.fs.itab[..], Changed(old(tab.fs.itab[pino].num), num))
    ensures EntryPut(old(tab.fs.vol.disk), old(tab.fs.layout.ino), old(tab.fs.itab[pino].node),
                     tab.fs.vol.disk, tab.fs.layout.ino, tab.fs.itab[pino].node, old(tab.fs.itab[pino].num) as int,
                     ip != -1, [], MakeEntry(num, name), k)
    ensures tab.fs.itab[pino].num == old(tab.fs.itab[pino].num)
            && tab.fs.itab[pino].refs == old(tab.fs.itab[pino].refs) - 1
    ensures num != 0 ==> 2 <= num < 8 * (tab.fs.vol.isize - 2)
    ensures num != 0 ==>
              && LooksFree(Current(old(tab.fs.vol.disk), old(tab.fs.itab[..]), num))
              && NewFileNode(Current(tab.fs.vol.disk, tab.fs.itab[..], num))
    ensures ip == -1 && num != 0 && mayWrite ==> tab.fs.vol.stack == []
    ensures ip != -1 ==>
              num != 0 && ip != pino && tab.fs.Open(ip) && tab.fs.itab[ip].num == num && tab.fs.itab[ip].refs == 1
              && old(tab.fs.itab[ip].refs) == 0 && NewFileNode(tab.fs.itab[ip].node)
  {
    hide GoodLayout, GoodFreeList, Consistent, GoodNumbers, TableUses, InUse, DiskNode, Untouched, EntryPut;
    hide GoodDirectory, MakeEntry, OtherFiles, OtherInodes, Allotted, Settled, Unreferenced, LooksFree;
    hide OthersSame, Current, IsEmpty;
    var fs := tab.fs;
    ghost var d0, i0, t0, p0, dir := fs.vol.disk, fs.layout.ino, fs.itab[..], tab.pending, fs.itab[pino].num as int;
    SlotCurrent(d0, fs.layout, t0, fs.vol.isize, fs.vol.fsize, pino);
    SlotOfTable(d0, fs.layout, t0, fs.vol.isize, fs.vol.fsize, pino);
    DirectoryMode(d0, t0[pino].node);
    ip, num := tab.NewInode(garbage);
    ghost var d1, t1 := fs.vol.disk, fs.itab[..];
    k := 0;
    if ip == -1 {
      NotAllotted(d0, t0, p0, old(tab.exact), old(tab.ninode), old(tab.tinode), d1, fs.vol.isize, num, tab.pending,
                  tab.exact, tab.tinode, tab.corrupt);
      num := 0;
      NewSlots(t0, t1, -1);
      ghost var none: set<int> := {};
      Drop(tab, pino);
      ghost var d2, t2 := fs.vol.disk, fs.itab[..];
      OneSlot(t1, t2, pino);
      OthersSameTrans(t0, t1, t2, {-1}, {pino});
      assert {-1} + {pino} == {pino, ip};
      UntouchedTrans(d0, i0, t0, d1, i0, t1, d2, i0, t2, none, none);
      assert none + none == none;
      UntouchedFiles(d0, i0, t0, d2, i0, t2, none);
      NothingPut(d0, i0, d2, i0, t0[pino].node, dir, MakeEntry(0, name), none);
      UntouchedMore(d0, i0, t0, d2, i0, t2, none, {dir});
      return;
    }
    NewSlots(t0, t1, ip);
    UntouchedFiles(d0, i0, t0, d1, i0, t1, {num as int});
    DirectoryStays(d0, i0, d1, i0, {num as int}, dir, t0[pino].node);
    ghost var nindex := ip;
    var ok;
    ok, k := EnterName(tab, pino, ip, name, mayWrite);
    ghost var d2, i2, t2 := fs.vol.disk, fs.layout.ino, fs.itab[..];
    OthersSameTrans(t0, t1, t2, {ip}, {pino, ip});
    assert {nindex} + {pino, nindex} == {pino, nindex};
    UntouchedTrans(d0, i0, t0, d1, i0, t1, d2, i2, t2, {num as int}, {dir});
    assert {num as int} + {dir} == Changed(dir as Word, num);
    OtherFilesRefl(d2, i2, {});
    PutBetween(d0, i0, d1, i0, t0[pino].node, d2, i2, t2[pino].node, d2, i2, dir, ok, [], MakeEntry(num, name), k,
               {num as int}, {});
    SlotCurrent(d2, fs.layout, t2, fs.vol.isize, fs.vol.fsize, ip);
    if !ok {
      SlotUnused(t0, t2, pino, ip);
      ip := -1;
    }
  }

  /** A number that is not given, or is refused. */
  lemma {:induction false} NotAllotted(
      d: Disk, tab: seq<Cinode>, pending: set<Word>, exact: bool, ninode: int, tinode: int,
      d': Disk, isize: Word, num: Word, pending': set<Word>, exact': bool, tinode': int, corrupt: bool)
    requires Allotted(d, tab, pending, exact, ninode, tinode, d', isize, num, pending', exact', tinode', corrupt)
    ensures (exact' ==> exact) && (corrupt ==> tinode == 0 && num == 0) && (num != 0 ==> 2 <= num < 8 * (isize - 2))
    ensures exact && (ninode == 0 ==> Settled(tab, pending)) ==>
              && exact' && !corrupt && (num != 0 ==> LooksFree(Current(d, tab, num)))
              && (num == 0 ==> forall m: Word | m < 8 * (isize - 2) :: InUse(d, pending, m))
  {
    hide Settled, SyncLeaves, InUse, Current, FreeSet, LooksFree;
  }

  lemma {:induction false} NewSlots(t0: seq<Cinode>, t1: seq<Cinode>, ip: int)
    requires |t0| == |t1|
    requires forall s | 0 <= s < |t0| && s != ip && t0[s].refs > 0 :: t1[s] == t0[s].(dirty := t1[s].dirty)
    requires forall s | 0 <= s < |t0| && s != ip && t0[s].refs == 0 :: t1[s].refs == 0
    ensures OthersSame(t0, t1, {ip})
  {
  }

  lemma {:induction false} SlotUnused(t0: seq<Cinode>, t1: seq<Cinode>, pino: int, ip: int)
    requires OthersSame(t0, t1, {pino, ip}) && 0 <= ip < |t0| && t0[ip].refs == 0 == t1[ip].refs
    ensures OthersSame(t0, t1, {pino, -1})
  {
  }

  lemma {:induction false} NothingPut(
      d: Disk, ino: seq<Addr>, d': Disk, ino': seq<Addr>, n: Dinode, num: int, e: seq<Byte>, ex: set<int>)
    requires OtherFiles(d, ino, d', ino', ex) && 0 <= num < |ino| && num !in ex && ino[num] == n.addr
             && GoodDirectory(d, n)
    ensures EntryPut(d, ino, n, d', ino', n, num, false, [], e, 0)
  {
    hide GoodDirectory, SameEntries, Within, FileByte, Ahead;
    BytesStay(d, ino, d', ino', ex, num);
    DirectoryStays(d, ino, d', ino', ex, num, n);
    WithinStays(d, ino, d', ino', ex, num, n.sizeBlk + 1);
    hide OtherFiles;
  }

  /** The inodes that newfile changes. */
  ghost function Changed(dir: Word, num: Word): set<int> {
    if num == 0 then {dir as int} else {dir as int, num as int}
  }

  predicate NewFileNode(n: Dinode) {
    n.mode == F_REG && n.nlink == 1 && IsEmpty(n)
  }

  /** As a map the directory has gained name, with num. */
  ghost predicate NameAdded(d: Disk, addr: Addr, d': Disk, addr': Addr, name: seq<Byte>, num: int) {
    forall x, m | x != [] ::
      Listed(EntriesOf(d', addr'), x, m) <==> if x == name then m == num else Listed(EntriesOf(d, addr), x, m)
  }

  /** As a map the directory has lost name. */
  ghost predicate NameGone(d: Disk, addr: Addr, d': Disk, addr': Addr, name: seq<Byte>) {
    forall x, m | x != [] ::
      Listed(EntriesOf(d', addr'), x, m) <==> x != name && Listed(EntriesOf(d, addr), x, m)
  }

  lemma {:induction false} NameEntered(
      d: Disk, ino: seq<Addr>, n: Dinode, d': Disk, ino': seq<Addr>, n': Dinode, dir: int, name: seq<Byte>, num: Word,
      k: int)
    requires |name| == NAMELEN && EntryPut(d, ino, n, d', ino', n', dir, true, [], MakeEntry(num, name), k)
    requires UniqueNames(EntriesOf(d, n.addr)) && NotListed(d, n.addr, Name(name)) && Name(name) != []
    ensures NameAdded(d, n.addr, d', n'.addr, Name(name), num)
  {
    hide UniqueNames, Listed, EntriesOf, Component, EntryName, MakeEntry, Number, GoodDirectory, Stored, Within;
    hide LinkedSize, FirstMatch;
    EntryIs(num, name);
  }

  lemma {:induction false} PutMeans(
      d: Disk, ino: seq<Addr>, n: Dinode, d': Disk, ino': seq<Addr>, n': Dinode, dir: int, ok: bool, name: seq<Byte>,
      num: Word, k: int)
    requires |name| == NAMELEN && EntryPut(d, ino, n, d', ino', n', dir, ok, [], MakeEntry(num, name), k)
    requires UniqueNames(EntriesOf(d, n.addr)) && NotListed(d, n.addr, Name(name)) && Name(name) != []
    ensures if ok then NameAdded(d, n.addr, d', n'.addr, Name(name), num) else SameEntries(d, n.addr, d', n'.addr)
  {
    hide UniqueNames, NotListed, NameAdded, Directory.Linked, GoodDirectory, Stored, Within, SameEntries, Component;
    hide MakeEntry;
    if ok {
      NameEntered(d, ino, n, d', ino', n', dir, name, num, k);
    }
  }

  lemma {:induction false} NameCleared(
      d: Disk, ino: seq<Addr>, n: Dinode, d': Disk, ino': seq<Addr>, n': Dinode, dir: int, name: seq<Byte>,
      blank: seq<Byte>, k: int)
    requires |blank| == NAMELEN && blank[0] == 0 && UniqueNames(EntriesOf(d, n.addr))
    requires EntryPut(d, ino, n, d', ino', n', dir, true, name, MakeEntry(0, blank), k)
    ensures NameGone(d, n.addr, d', n'.addr, name)
  {
    hide UniqueNames, Listed, EntriesOf, Component, EntryName, MakeEntry, Number, GoodDirectory, Stored, Within;
    hide LinkedSize, FirstMatch;
    EntryIs(0, blank);
    NoName(blank);
  }

  // ----- Removing names -----

  lemma {:induction false} ChangeNode(
      d: Disk, m: Layout, tab: seq<Cinode>, lo: Word, hi: Word, pending: set<Word>, ip: int, c: Cinode)
    requires GoodLayout(d, m, tab, lo, hi) && TableUses(d, tab, pending) && 0 <= ip < |tab| && tab[ip].num != 0
             && tab[ip].refs > 0
    requires c.num == tab[ip].num && c.refs == tab[ip].refs && c.dirty && c.node == tab[ip].node.(nlink := c.node.nlink)
    requires !Untyped(c.node)
    ensures GoodLayout(d, m, tab[ip := c], lo, hi) && TableUses(d, tab[ip := c], pending)
  {
    hide Partition, DiskNode;
    assert SlotOk(tab[ip], m.ino, d);
    CoherentUpdate(tab, m.ino, d, ip, c);
    assert m.ino[c.num := c.node.addr] == m.ino;
  }

  /** One link less, and setftime's mark. */
  method LoseLink(tab: Inodes, ip: int)
    requires tab.Ready() && tab.fs.Open(ip) && InodeTable.Linked(tab.fs.itab[ip].node)
    modifies tab.fs.itab
    ensures tab.Ready() && |tab.fs.itab[..]| == ITABSIZE
    ensures forall s | 0 <= s < ITABSIZE && s != ip :: tab.fs.itab[s] == old(tab.fs.itab[s])
    ensures tab.fs.itab[ip] ==
            old(tab.fs.itab[ip]).(dirty := true,
                                  node := old(tab.fs.itab[ip].node).(nlink := old(tab.fs.itab[ip].node.nlink) - 1))
    ensures Untouched(tab.fs.vol.disk, tab.fs.layout.ino, old(tab.fs.itab[..]),
                      tab.fs.vol.disk, tab.fs.layout.ino, tab.fs.itab[..], {tab.fs.itab[ip].num as int})
  {
    hide GoodLayout, GoodFreeList, Consistent, GoodNumbers, TableUses, Untouched, DiskNode;
    var fs := tab.fs;
    ghost var t := fs.itab[..];
    SlotCurrent(fs.vol.disk, fs.layout, t, fs.vol.isize, fs.vol.fsize, ip);
    var c := fs.itab[ip].(node := fs.itab[ip].node.(nlink := fs.itab[ip].node.nlink - 1), dirty := true);
    ChangeNode(fs.vol.disk, fs.layout, t, fs.vol.isize, fs.vol.fsize, tab.pending, ip, c);
    fs.itab[ip] := c;
    assert fs.itab[..] == t[ip := c];
    OneInodeDiffers(fs.vol.disk, fs.layout, t, fs.vol.disk, fs.itab[..], fs.vol.isize, fs.vol.fsize, ip);
  }

  /** The two calls of i_deref at the end of _unlink. */
  method DropBoth(tab: Inodes, pino: int, ino: int)
    requires tab.Ready() && tab.fs.Open(pino) && tab.fs.Open(ino) && ino != pino
    requires tab.fs.itab[pino].node.nlink != 0 && tab.fs.itab[ino].num != ROOTINODE
    modifies tab, tab.sinode, tab.fs, tab.fs.itab, tab.fs.vol.Repr()
    ensures tab.Ready() && |tab.fs.itab[..]| == ITABSIZE && tab.pending <= old(tab.pending)
            && tab.exact == old(tab.exact)
    ensures forall s | 0 <= s < ITABSIZE && s != pino && s != ino :: tab.fs.itab[s] == old(tab.fs.itab[s])
    ensures tab.fs.itab[pino] ==
            old(tab.fs.itab[pino]).(refs := old(tab.fs.itab[pino].refs) - 1, dirty := tab.fs.itab[pino].dirty)
    ensures tab.fs.itab[ino].num == old(tab.fs.itab[ino].num) && tab.fs.itab[ino].refs == old(tab.fs.itab[ino].refs) - 1
    ensures LinkLost(old(tab.fs.itab[ino]), tab.fs.itab[ino], false)
    ensures tab.fs.itab[ino].refs == 0 && tab.fs.itab[ino].node.nlink == 0 ==>
              !InUse(tab.fs.vol.disk, tab.pending, tab.fs.itab[ino].num)
    ensures tab.fs.itab[ino].refs == 0 && (old(tab.fs.itab[ino].dirty) || tab.fs.itab[ino].node.nlink == 0) ==>
              tab.OnDevice(tab.fs.itab[ino].num, tab.fs.itab[ino].node)
    ensures Untouched(old(tab.fs.vol.disk), old(tab.fs.layout.ino), old(tab.fs.itab[..]),
                      tab.fs.vol.disk, tab.fs.layout.ino, tab.fs.itab[..], {tab.fs.itab[ino].num as int})
    ensures tab.fs.itab[ino].refs > 0 || old(tab.fs.itab[ino].node.nlink) != 0 ==>
              Untouched(old(tab.fs.vol.disk), old(tab.fs.layout.ino), old(tab.fs.itab[..]),
                        tab.fs.vol.disk, tab.fs.layout.ino, tab.fs.itab[..], {})
  {
    hide GoodLayout, GoodFreeList, Consistent, GoodNumbers, TableUses, InUse, DiskNode, Untouched, Slots, IsEmpty;
    hide LooksFree;
    var fs := tab.fs;
    ghost var none: set<int> := {};
    ghost var d1, i1, t1, num := fs.vol.disk, fs.layout.ino, fs.itab[..], fs.itab[ino].num as int;
    Drop(tab, pino);
    ghost var d2, t2 := fs.vol.disk, fs.itab[..];
    tab.IDeref(ino);
    UntouchedTrans(d1, i1, t1, d2, i1, t2, fs.vol.disk, fs.layout.ino, fs.itab[..], none, {num});
    assert none + {num} == {num} && none + none == none;
    if fs.itab[ino].refs > 0 || t1[ino].node.nlink != 0 {
      UntouchedTrans(d1, i1, t1, d2, i1, t2, fs.vol.disk, fs.layout.ino, fs.itab[..], none, none);
    }
  }

  /** _unlink, once the directory and the file are found in slots pino and ino: the name is cleared
      and the file has a link less; with the last link and reference it is gone. `blank` is what
      stands where the empty name is: a NUL first. */
  method Unlink(tab: Inodes, pino: int, ino: int, name: seq<Byte>, blank: seq<Byte>, mayWrite: bool)
    returns (ok: bool, ghost k: int)
    requires tab.Ready() && tab.fs.vol.error == OK && DirectoryAt(tab.fs.vol.disk, tab.fs.itab[..], pino)
    requires tab.fs.itab[pino].node.sizeBlk < 0x7FFE && tab.fs.itab[pino].node.nlink != 0
    requires 0 in name && |blank| == NAMELEN && blank[0] == 0
    requires tab.fs.Open(ino) && ino != pino && tab.fs.itab[ino].num != ROOTINODE
             && InodeTable.Linked(tab.fs.itab[ino].node)
    modifies tab, tab.sinode, tab.fs, tab.fs.itab, tab.fs.vol.Repr()
    ensures tab.Ready() && |tab.fs.itab[..]| == ITABSIZE && tab.pending <= old(tab.pending)
            && tab.exact == old(tab.exact)
    ensures OthersSame(old(tab.fs.itab[..]), tab.fs.itab[..], {pino, ino})
    ensures Untouched(old(tab.fs.vol.disk), old(tab.fs.layout.ino), old(tab.fs.itab[..]), tab.fs.vol.disk,
                      tab.fs.layout.ino,
                      tab.fs.itab[..], {old(tab.fs.itab[pino].num) as int, old(tab.fs.itab[ino].num) as int})
    ensures EntryPut(old(tab.fs.vol.disk), old(tab.fs.layout.ino), old(tab.fs.itab[pino].node),
                     tab.fs.vol.disk, tab.fs.layout.ino, tab.fs.itab[pino].node, old(tab.fs.itab[pino].num) as int,
                     ok, Name(name), MakeEntry(0, blank), k)
    ensures tab.fs.itab[pino].num == old(tab.fs.itab[pino].num)
            && tab.fs.itab[pino].refs == old(tab.fs.itab[pino].refs) - 1
    ensures tab.fs.itab[ino].num == old(tab.fs.itab[ino].num) && tab.fs.itab[ino].refs == old(tab.fs.itab[ino].refs) - 1
    ensures LinkLost(old(tab.fs.itab[ino]), tab.fs.itab[ino], ok)
    ensures ok && tab.fs.itab[ino].refs == 0 ==> tab.OnDevice(tab.fs.itab[ino].num, tab.fs.itab[ino].node)
    ensures if tab.fs.itab[ino].refs == 0 && tab.fs.itab[ino].node.nlink == 0 then
              !InUse(tab.fs.vol.disk, tab.pending, tab.fs.itab[ino].num)
            else
              OtherFiles(old(tab.fs.vol.disk), old(tab.fs.layout.ino), tab.fs.vol.disk, tab.fs.layout.ino,
                         {old(tab.fs.itab[pino].num) as int})
    ensures !ok && mayWrite && name[0] != 0 ==>
            NotListed(old(tab.fs.vol.disk), old(tab.fs.itab[pino].node.addr), Name(name))
  {
    hide GoodLayout, GoodFreeList, Consistent, GoodNumbers, TableUses, InUse, DiskNode, Untouched, EntryPut;
    hide GoodDirectory, MakeEntry, OtherFiles, OtherInodes;
    hide Component, OthersSame, OnlyFile, Slots, IsEmpty, NotListed;
    var fs := tab.fs;
    ghost var d0, i0, t0, dir, num, e := fs.vol.disk, fs.layout.ino, fs.itab[..], fs.itab[pino].num as int,
      fs.itab[ino].num as int, MakeEntry(0, blank);
    DistinctSlots(d0, fs.layout, t0, fs.vol.isize, fs.vol.fsize, pino, ino);
    ok, k := LinkName(tab, pino, name, blank, 0, mayWrite);
    ghost var d1, i1, t1 := fs.vol.disk, fs.layout.ino, fs.itab[..];
    OnlyFileSlot(d0, i0, t0, d1, i1, t1, pino);
    UntouchedRefl(d1, i1, t1, {num});
    if ok {
      LoseLink(tab, ino);
    }
    ghost var t2 := fs.itab[..];
    DropBoth(tab, pino, ino);
    UnlinkDone(d0, i0, t0, d1, i1, t1, t2, fs.vol.disk, fs.layout.ino, fs.itab[..], pino, ino, ok, Name(name), e, k);
  }

  /** The steps of _unlink together. */
  lemma {:induction false} UnlinkDone(
      d0: Disk, i0: seq<Addr>, t0: seq<Cinode>, d1: Disk, i1: seq<Addr>, t1: seq<Cinode>, t2: seq<Cinode>,
      d4: Disk, i4: seq<Addr>, t4: seq<Cinode>, pino: int, ino: int, ok: bool, name: seq<Byte>, e: seq<Byte>, k: int)
    requires |t0| == |t1| == |t2| == |t4| && 0 <= pino < |t0| && 0 <= ino < |t0| && ino != pino
             && t0[ino].num != t0[pino].num
    requires OnlyFile(d0, i0, t0, d1, i1, t1, pino) && GoodDirectory(d0, t0[pino].node)
    requires EntryPut(d0, i0, t0[pino].node, d1, i1, t1[pino].node, t0[pino].num, ok, name, e, k)
    requires Untouched(d1, i1, t1, d1, i1, t2, {t0[ino].num as int}) && forall s | 0 <= s < |t0|
             && s != ino :: t2[s] == t1[s]
    requires Untouched(d1, i1, t2, d4, i4, t4, {t0[ino].num as int})
    requires forall s | 0 <= s < |t0| && s != pino && s != ino :: t4[s] == t2[s]
    requires t4[pino].node == t1[pino].node
    requires t4[ino].refs > 0 || t4[ino].node.nlink != 0 ==> Untouched(d1, i1, t2, d4, i4, t4, {})
    ensures OthersSame(t0, t4, {pino, ino})
    ensures Untouched(d0, i0, t0, d4, i4, t4, {t0[pino].num as int, t0[ino].num as int})
    ensures EntryPut(d0, i0, t0[pino].node, d4, i4, t4[pino].node, t0[pino].num, ok, name, e, k)
    ensures t4[ino].refs > 0 || t4[ino].node.nlink != 0 ==> OtherFiles(d0, i0, d4, i4, {t0[pino].num as int})
  {
    hide OnlyFile, EntryPut, GoodDirectory, Untouched, OtherFiles, OtherInodes, OthersSame;
    var dir, num := t0[pino].num as int, t0[ino].num as int;
    OnlyFileSlot(d0, i0, t0, d1, i1, t1, pino);
    EntryPutNode(d0, i0, t0[pino].node, d1, i1, t1[pino].node, dir, ok, name, e, k);
    UntouchedTrans(d1, i1, t1, d1, i1, t2, d4, i4, t4, {num}, {num});
    assert {num} + {num} == {num} && {dir} + {num} == {dir, num};
    UntouchedTrans(d0, i0, t0, d1, i1, t1, d4, i4, t4, {dir}, {num});
    UntouchedFiles(d1, i1, t1, d4, i4, t4, {num});
    OtherFilesRefl(d0, i0, {});
    PutBetween(d0, i0, d0, i0, t0[pino].node, d1, i1, t1[pino].node, d4, i4, dir, ok, name, e, k, {}, {num});
    TwoSlots(t0, t4, pino, ino);
    if t4[ino].refs > 0 || t4[ino].node.nlink != 0 {
      UntouchedFiles(d1, i1, t2, d4, i4, t4, {});
      UntouchedFiles(d0, i0, t0, d1, i1, t1, {dir});
      OtherFilesTrans(d0, i0, d1, i1, d4, i4, {dir}, {});
      assert {dir} + {} == {dir};
    }
  }

  lemma {:induction false} EntryPutNode(
      d: Disk, ino: seq<Addr>, n: Dinode, d': Disk, ino': seq<Addr>, n': Dinode, num: int,
      ok: bool, oldname: seq<Byte>, e: seq<Byte>, k: int)
    requires EntryPut(d, ino, n, d', ino', n', num, ok, oldname, e, k)
    ensures 0 <= num < |ino| && ino[num] == n.addr
  {
    hide Directory.Linked, GoodDirectory, Stored, SameEntries, Within, LinkedSize;
  }

  /** What a lost reference, and with ok a lost link, leave in a slot: a file without links and
      references is empty. */
  ghost predicate LinkLost(c: Cinode, c': Cinode, ok: bool) {
    var nlink := if ok then c.node.nlink - 1 else c.node.nlink;
    if c'.refs == 0 && nlink == 0 then LooksFree(c'.node) && IsEmpty(c'.node)
    else c'.node == c.node.(nlink := c'.node.nlink) && c'.node.nlink == nlink
  }

  lemma {:induction false} TwoSlots(t: seq<Cinode>, t': seq<Cinode>, a: int, b: int)
    requires |t'| == |t| && forall s | 0 <= s < |t| && s != a && s != b :: t'[s] == t[s]
    ensures OthersSame(t, t', {a, b})
  {
  }

  lemma {:induction false} DistinctSlots(d: Disk, m: Layout, tab: seq<Cinode>, lo: Word, hi: Word, a: int, b: int)
    requires GoodLayout(d, m, tab, lo, hi) && 0 <= a < |tab| && 0 <= b < |tab| && a != b && tab[a].num != 0
    ensures |tab| == ITABSIZE && tab[a].num != tab[b].num && tab[a].num < |m.ino|
            && m.ino[tab[a].num] == tab[a].node.addr
  {
    assert SlotOk(tab[a], m.ino, d);
  }
}
