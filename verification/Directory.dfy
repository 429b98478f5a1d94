/** Directories as finite maps from names to inode numbers (fs/filesys.c: namecomp, srch_dir,
    ch_link). A directory is a file of 16-byte entries: an inode number and a name of up to 14
    characters; an entry with an empty name is unused. */
module Directory {
  import opened Types
  import opened BufferCache
  import opened BlockMap
  import opened Volume
  import opened Inode
  import opened FileBytes
  import opened FileSystem

  const SLASH: Byte := 47
  const NAMELEN := 14
  const ENTRY := 16

  // ----- Names -----

  /** A character that ends a name. */
  predicate Ends(c: Byte) {
    c == 0 || c == SLASH
  }

  /** The name at the start of s: up to a NUL or a slash, at most limit characters. */
  function Component(s: seq<Byte>, limit: nat): (r: seq<Byte>)
    ensures |r| <= limit && |r| <= |s| && r == s[..|r|] && forall i | 0 <= i < |r| :: !Ends(r[i])
    ensures |r| < limit && |r| < |s| ==> Ends(s[|r|])
  {
    if limit == 0 || s == [] || Ends(s[0]) then [] else [s[0]] + Component(s[1..], limit - 1)
  }

  function Name(s: seq<Byte>): seq<Byte> {
    Component(s, NAMELEN)
  }

  /** A name is what stands in front of its end. */
  lemma {:induction false} ComponentIs(s: seq<Byte>, limit: nat, k: nat)
    requires k <= limit && k <= |s| && (forall i | 0 <= i < k :: !Ends(s[i])) && (k == limit || (k < |s| && Ends(s[k])))
    ensures Component(s, limit) == s[..k]
  {
    var r := Component(s, limit);
    assert forall i | 0 <= i < |r| :: r[i] == s[i];
  }

  /** Namecomp: the names are the same. n1 is a string, n2 the name field of an entry. */
  method Namecomp(n1: seq<Byte>, n2: seq<Byte>) returns (same: bool)
    requires |n2| == NAMELEN && 0 in n1
    ensures same <==> Name(n1) == Name(n2)
  {
    hide Component;
    var n, k := NAMELEN, 0;
    ghost var nul :| 0 <= nul < |n1| && n1[nul] == 0;
    while n1[k] != 0 && n1[k] != SLASH
      invariant 0 <= k < NAMELEN && k <= nul && n == NAMELEN - k
      invariant n1[..k] == n2[..k] && forall i | 0 <= i < k :: !Ends(n1[i])
      decreases n
    {
      if n1[k] != n2[k] {
        NamesDiffer(n1, n2, k);
        return false;
      }
      assert n1[..k + 1] == n2[..k + 1];
      k := k + 1;
      n := n - 1;
      if n == 0 {
        SamePrefix(n1, n2, k);
        ComponentIs(n1, NAMELEN, k);
        ComponentIs(n2, NAMELEN, k);
        return true;
      }
    }
    ComponentIs(n1, NAMELEN, k);
    SamePrefix(n1, n2, k);
    if Ends(n2[k]) {
      ComponentIs(n2, NAMELEN, k);
    } else {
      LongerName(n2, k);
    }
    return n2[k] == 0 || n2[k] == SLASH;
  }

  lemma {:induction false} SamePrefix(n1: seq<Byte>, n2: seq<Byte>, k: nat)
    requires k <= |n1| && k <= |n2| && n1[..k] == n2[..k]
    ensures forall i | 0 <= i < k :: n1[i] == n2[i]
  {
    assert forall i | 0 <= i < k :: n1[..k][i] == n1[i] && n2[..k][i] == n2[i];
  }

  lemma {:induction false} LongerName(s: seq<Byte>, k: nat)
    requires k < |s| && k < NAMELEN && forall i | 0 <= i <= k :: !Ends(s[i])
    ensures |Name(s)| > k
  {
    var r := Name(s);
    assert |r| < |s| && |r| < NAMELEN ==> Ends(s[|r|]);
  }

  lemma {:induction false} NamesDiffer(n1: seq<Byte>, n2: seq<Byte>, k: nat)
    requires k < |n1| && k < |n2| && k < NAMELEN && n1[k] != n2[k] && !Ends(n1[k])
    requires n1[..k] == n2[..k] && forall i | 0 <= i < k :: !Ends(n1[i])
    ensures Name(n1) != Name(n2)
  {
    LongerName(n1, k);
    var a, b := Name(n1), Name(n2);
    assert a[k] == n1[k] && (k < |b| ==> b[k] == n2[k]);
  }

  /** Filename: where the last component of a path starts. path is a string. */
  method Filename(path: seq<Byte>) returns (at: int)
    requires 0 in path
    ensures exists end :: 0 <= end < |path| && path[end] == 0 && (forall i | 0 <= i < end :: path[i] != 0)
                          && 0 <= at <= end && (at == 0 || path[at - 1] == SLASH)
                          && forall i | at <= i < end :: path[i] != SLASH
  {
    ghost var nul :| 0 <= nul < |path| && path[nul] == 0;
    var ptr := 0;
    while path[ptr] != 0
      invariant 0 <= ptr <= nul && forall i | 0 <= i < ptr :: path[i] != 0
      decreases nul - ptr
    {
      ptr := ptr + 1;
    }
    ghost var end := ptr;
    while ptr >= 0 && path[ptr] != SLASH
      invariant -1 <= ptr <= end && forall i | ptr < i < end :: path[i] != SLASH
    {
      ptr := ptr - 1;
    }
    assert ptr != end;
    at := ptr + 1;
  }

  // ----- Entries -----

  /** The highest number of entries that positions can express. */
  const ENTRIES := 0x20_0000

  /** The bytes of entry k of a directory. */
  function EntryAt(d: Disk, addr: Addr, k: int): (e: seq<Byte>)
    requires 0 <= k < ENTRIES
    ensures |e| == ENTRY && forall i | 0 <= i < ENTRY :: e[i] == FileByte(d, addr, ENTRY * k + i)
  {
    seq<Byte>(ENTRY, i requires 0 <= i < ENTRY => FileByte(d, addr, ENTRY * k + i))
  }

  function Number(e: seq<Byte>): int
    requires |e| == ENTRY
  {
    e[0] as int + 256 * (e[1] as int)
  }

  function EntryName(e: seq<Byte>): seq<Byte>
    requires |e| == ENTRY
  {
    Name(e[2..])
  }

  /** An entry with this inode number and the 14 characters of the name field. */
  function MakeEntry(num: Word, field: seq<Byte>): (e: seq<Byte>)
    requires |field| == NAMELEN
    ensures |e| == ENTRY && Number(e) == num && e[2..] == field
  {
    [num % 256, num / 256] + field
  }

  /** The name is in the directory, with this inode number. */
  ghost predicate Listed(entry: int -> seq<Byte>, name: seq<Byte>, num: int) {
    exists k :: 0 <= k < ENTRIES && |entry(k)| == ENTRY && EntryName(entry(k)) == name && Number(entry(k)) == num
  }

  /** No name is listed twice. */
  ghost predicate UniqueNames(entry: int -> seq<Byte>) {
    && (forall k | 0 <= k < ENTRIES :: |entry(k)| == ENTRY)
    && (forall j, k | 0 <= j < k < ENTRIES && EntryName(entry(j)) != [] :: EntryName(entry(j)) != EntryName(entry(k)))
  }

  /** With unique names a directory is a map. */
  lemma {:induction false} ListedOnce(entry: int -> seq<Byte>, name: seq<Byte>, n1: int, n2: int)
    requires UniqueNames(entry) && name != [] && Listed(entry, name, n1) && Listed(entry, name, n2)
    ensures n1 == n2
  {
    hide Component, Number;
    var j :| 0 <= j < ENTRIES && |entry(j)| == ENTRY && EntryName(entry(j)) == name && Number(entry(j)) == n1;
    var k :| 0 <= k < ENTRIES && |entry(k)| == ENTRY && EntryName(entry(k)) == name && Number(entry(k)) == n2;
  }

  /** Replacing the entry of one name (empty: an unused entry) by another name that is the same,
      empty or not yet listed: exactly these two names are listed differently. */
  lemma {:induction false} LinkUpdatesMap(entry: int -> seq<Byte>, entry': int -> seq<Byte>, k: int, e: seq<Byte>)
    requires UniqueNames(entry) && 0 <= k < ENTRIES && |e| == ENTRY
    requires forall j | 0 <= j < ENTRIES :: entry'(j) == if j == k then e else entry(j)
    requires EntryName(e) != [] && EntryName(e) != EntryName(entry(k)) ==>
             forall num :: !Listed(entry, EntryName(e), num)
    ensures UniqueNames(entry')
    ensures forall name, num | name != [] ::
              Listed(entry', name, num) <==>
              if name == EntryName(e) then num == Number(e)
              else name != EntryName(entry(k)) && Listed(entry, name, num)
  {
    hide Component, EntryName, Number;
    forall j | 0 <= j < ENTRIES && j != k && EntryName(e) != []
      ensures EntryName(entry(j)) != EntryName(e)
    {
      assert Listed(entry, EntryName(entry(j)), Number(entry(j)));
    }
    forall name, num | name != []
      ensures Listed(entry', name, num) <==>
              if name == EntryName(e) then num == Number(e)
              else name != EntryName(entry(k)) && Listed(entry, name, num)
    {
      ListedAfter(entry, entry', k, e, name, num);
    }
  }

  lemma {:induction false} ListedAfter(
      entry: int -> seq<Byte>, entry': int -> seq<Byte>, k: int, e: seq<Byte>, name: seq<Byte>, num: int)
    requires UniqueNames(entry) && 0 <= k < ENTRIES && |e| == ENTRY && name != []
    requires forall j | 0 <= j < ENTRIES :: entry'(j) == if j == k then e else entry(j)
    requires EntryName(e) != [] ==> forall j | 0 <= j < ENTRIES && j != k :: EntryName(entry(j)) != EntryName(e)
    ensures Listed(entry', name, num) <==>
            if name == EntryName(e) then num == Number(e)
            else name != EntryName(entry(k)) && Listed(entry, name, num)
  {
    hide Component, EntryName, Number;
    if j :| 0 <= j < ENTRIES && |entry'(j)| == ENTRY && EntryName(entry'(j)) == name && Number(entry'(j)) == num {
      assert j != k ==> entry'(j) == entry(j);
      assert j != k && name == EntryName(entry(k)) ==> j < k || k < j;
    }
    if j :| 0 <= j < ENTRIES && |entry(j)| == ENTRY && EntryName(entry(j)) == name && Number(entry(j)) == num {
      assert j != k ==> entry'(j) == entry(j);
    }
    assert entry'(k) == e;
  }

  /** The entries of a directory, by position; beyond its end they are empty. */
  ghost function EntriesOf(d: Disk, addr: Addr): int -> seq<Byte> {
    k => if 0 <= k < ENTRIES then EntryAt(d, addr, k) else []
  }

  /** A directory: entries are not cut off, nothing is behind the end, and no block is missing. */
  ghost predicate GoodDirectory(d: Disk, n: Dinode) {
    && Getmode(n.mode) == F_DIR && n.sizeOff < 512 && n.sizeOff % ENTRY == 0 && n.sizeBlk < 0x7FFF
    && (forall p | Position(SizeOf(n)) <= p < FILE_MODULUS :: FileByte(d, n.addr, p) == 0)
    && (forall b: Word | b < BlockCount(n) :: Lookup(d, n.addr, b) != 0)
  }

  function BlockCount(n: Dinode): int {
    n.sizeBlk + if n.sizeOff != 0 then 1 else 0
  }

  lemma {:induction false} EntryInBlock(d: Disk, addr: Addr, b: Word, c: int)
    requires 0 <= c < 32
    ensures 32 * b + c < ENTRIES
    ensures EntryAt(d, addr, 32 * b + c) == FileBlock(d, addr, b)[ENTRY * c..ENTRY * c + ENTRY]
  {
    hide FileBlock;
    var e, part := EntryAt(d, addr, 32 * b + c), FileBlock(d, addr, b)[ENTRY * c..ENTRY * c + ENTRY];
    forall i | 0 <= i < ENTRY
      ensures e[i] == part[i]
    {
      InBlock(b, ENTRY * c + i);
      assert ENTRY * (32 * b + c) + i == 512 * b + (ENTRY * c + i);
    }
  }

  lemma {:induction false} NoName(s: seq<Byte>)
    requires |s| > 0 && s[0] == 0
    ensures Name(s) == []
  {
  }

  /** Behind the last block there are no names. */
  lemma {:induction false} NothingBehind(d: Disk, n: Dinode, k: int)
    requires GoodDirectory(d, n) && 32 * BlockCount(n) <= k < ENTRIES
    ensures EntryName(EntryAt(d, n.addr, k)) == []
  {
    hide FileByte, Component;
    var e := EntryAt(d, n.addr, k);
    assert e[2] == FileByte(d, n.addr, ENTRY * k + 2);
    NoName(e[2..]);
  }

  /** Entry k is the first with this name. */
  ghost predicate FirstMatch(d: Disk, addr: Addr, name: seq<Byte>, k: int) {
    && 0 <= k < ENTRIES && EntryName(EntryAt(d, addr, k)) == name && NoMatch(d, addr, name, k)
  }

  ghost predicate NoMatch(d: Disk, addr: Addr, name: seq<Byte>, k: int) {
    k <= ENTRIES && forall j | 0 <= j < k :: EntryName(EntryAt(d, addr, j)) != name
  }

  lemma {:induction false} OneMoreMismatch(d: Disk, addr: Addr, name: seq<Byte>, k: int)
    requires NoMatch(d, addr, name, k) && 0 <= k < ENTRIES && EntryName(EntryAt(d, addr, k)) != name
    ensures NoMatch(d, addr, name, k + 1)
  {
    hide EntryName;
  }

  /** What a search has found is what the directory lists. */
  lemma {:induction false} MatchIsListed(d: Disk, n: Dinode, name: seq<Byte>, k: int)
    requires GoodDirectory(d, n)
    ensures FirstMatch(d, n.addr, name, k) ==> Listed(EntriesOf(d, n.addr), name, Number(EntryAt(d, n.addr, k)))
    ensures name != [] && NoMatch(d, n.addr, name, 32 * BlockCount(n)) ==>
            forall num :: !Listed(EntriesOf(d, n.addr), name, num)
  {
    hide EntryName, Number, GoodDirectory;
    var entry := EntriesOf(d, n.addr);
    if FirstMatch(d, n.addr, name, k) {
      assert entry(k) == EntryAt(d, n.addr, k);
    }
    if name != [] && NoMatch(d, n.addr, name, 32 * BlockCount(n)) {
      forall j | 0 <= j < ENTRIES
        ensures EntryName(entry(j)) != name
      {
        if 32 * BlockCount(n) <= j {
          NothingBehind(d, n, j);
        }
        assert entry(j) == EntryAt(d, n.addr, j);
      }
    }
  }

  lemma {:induction false} DirectoryFacts(d: Disk, n: Dinode)
    requires GoodDirectory(d, n)
    ensures n.sizeBlk < 0x7FFF && Getmode(n.mode) == F_DIR
            && forall b: Word | b < BlockCount(n) :: Lookup(d, n.addr, b) != 0
  {
  }

  lemma {:induction false} BlockIs(d: Disk, addr: Addr, b: Word)
    requires Lookup(d, addr, b) != 0
    ensures FileBlock(d, addr, b) == d(Lookup(d, addr, b))
  {
  }

  lemma {:induction false} NoneYet(d: Disk, addr: Addr, name: seq<Byte>)
    ensures NoMatch(d, addr, name, 0)
  {
  }

  /** Srch_dir's loop over the 32 entries of block b. */
  method SearchBlock(buf: Block, compname: seq<Byte>, ghost d: Disk, ghost addr: Addr, b: Word)
    returns (found: bool, inum: int, ghost k: int)
    requires buf == FileBlock(d, addr, b) && 0 in compname && NoMatch(d, addr, Name(compname), 32 * b)
    ensures found ==> FirstMatch(d, addr, Name(compname), k) && inum == Number(EntryAt(d, addr, k)) && inum >= 0
    ensures !found ==> NoMatch(d, addr, Name(compname), 32 * b + 32)
  {
    hide FileBlock, Component, FileByte, NoMatch;
    ghost var name := Name(compname);
    for curentry := 0 to 32
      invariant NoMatch(d, addr, name, 32 * b + curentry)
    {
      var entry := buf[ENTRY * curentry..ENTRY * curentry + ENTRY];
      k := 32 * b + curentry;
      EntryInBlock(d, addr, b, curentry);
      var same := Namecomp(compname, entry[2..]);
      if same {
        return true, Number(entry), k;
      }
      OneMoreMismatch(d, addr, name, k);
    }
    return false, -1, 0;
  }

  /** Srch_dir's search: the inode number of the first entry with the name, or -1. */
  method SrchDir(fs: FileSys, wd: int, compname: seq<Byte>) returns (inum: int)
    requires fs.Ready() && fs.Open(wd) && GoodDirectory(fs.vol.disk, fs.itab[wd].node) && 0 in compname
    modifies fs`layout, fs.itab, fs.vol.Repr()
    ensures fs.Ready() && fs.vol.disk == old(fs.vol.disk) && fs.layout == old(fs.layout)
            && fs.itab[..] == old(fs.itab[..])
    ensures Name(compname) != [] ==>
              if inum == -1 then forall num ::
                !Listed(EntriesOf(fs.vol.disk, fs.itab[wd].node.addr), Name(compname), num)
              else Listed(EntriesOf(fs.vol.disk, fs.itab[wd].node.addr), Name(compname), inum)
  {
    hide GoodLayout, GoodFreeList, Consistent, OtherDevices, Keeps, OnlyAddr, FileBlock, Lookup, Listed, NoMatch;
    hide EntryName, Number, GoodDirectory, Component;
    ghost var d, tab, m, name := fs.vol.disk, fs.itab[..], fs.layout, Name(compname);
    ghost var n := fs.itab[wd].node;
    DirectoryFacts(d, n);
    var nblocks: int := fs.itab[wd].node.sizeBlk;
    if fs.itab[wd].node.sizeOff != 0 {
      nblocks := nblocks + 1;
    }
    NoneYet(d, n.addr, name);
    var curblock: int := 0;
    while curblock < nblocks
      invariant 0 <= curblock <= nblocks == BlockCount(n)
      invariant fs.Ready() && fs.vol.disk == d && fs.layout == m && fs.itab[..] == tab
      invariant NoMatch(d, n.addr, name, 32 * curblock)
    {
      var pblk := fs.Bmap(wd, curblock, 1);
      var buf := fs.vol.ReadBlock(pblk);
      BlockIs(d, n.addr, curblock);
      var found;
      ghost var k;
      found, inum, k := SearchBlock(buf, compname, d, n.addr, curblock);
      if found {
        MatchIsListed(d, n, name, k);
        return;
      }
      curblock := curblock + 1;
    }
    MatchIsListed(d, n, name, 0);
    return -1;
  }

  // ----- Linking -----

  /** An offset in a directory, at entry k. */
  ghost predicate AtEntry(o: Off, k: int) {
    GoodOff(o) && Position(o) == ENTRY * k
  }

  lemma {:induction false} EntryRead(
      mem: seq<Byte>, was: seq<Byte>, d: Disk, addr: Addr, o: Off, o': Off, uBase: int, k: int)
    requires |mem| == ENTRY && Filled(mem, was, 0, ENTRY, d, addr, Position(o), false) && AtEntry(o, k) && 0 <= k
    requires Transferred(0, o, uBase, o', ENTRY, false) && ENTRY * k + ENTRY < FILE_MODULUS
    ensures k < ENTRIES && mem == EntryAt(d, addr, k) && AtEntry(o', k + 1)
  {
    hide FileByte, Position, GoodOff;
    var e := EntryAt(d, addr, k);
    SmallMod(Position(o) + ENTRY);
    forall i | 0 <= i < ENTRY
      ensures mem[i] == e[i]
    {
      SmallMod(Position(o) + i);
      FilledAt(mem, was, d, addr, Position(o), i);
    }
  }

  lemma {:induction false} FilledAt(mem: seq<Byte>, was: seq<Byte>, d: Disk, addr: Addr, start: int, i: int)
    requires Filled(mem, was, 0, ENTRY, d, addr, start, false) && |mem| == ENTRY && 0 <= i < ENTRY
    ensures mem[i] == FileByte(d, addr, (start + i) % FILE_MODULUS)
  {
    hide FileByte;
    assert i - 0 == i;
  }

  lemma {:induction false} SmallMod(p: int)
    ensures 0 <= p < FILE_MODULUS ==> p % FILE_MODULUS == p
  {
  }

  /** Readi of one entry, or of nothing at the end. */
  method ReadEntry(fs: FileSys, wd: int, cur: array<Byte>, ghost k: int)
    requires fs.Ready() && fs.Open(wd) && GoodDirectory(fs.vol.disk, fs.itab[wd].node)
    requires cur.Length == ENTRY && cur !in fs.Repr() && 0 <= k && AtEntry(fs.uOffset, k)
    requires ENTRY * k <= Position(SizeOf(fs.itab[wd].node))
    modifies fs, fs.itab, fs.vol.Repr(), cur
    ensures fs.Ready() && fs.vol.disk == old(fs.vol.disk) && fs.layout.ino == old(fs.layout.ino)
            && fs.vol.error == old(fs.vol.error)
    ensures fs.itab[..] == old(fs.itab[..])
    ensures if ENTRY * k < Position(SizeOf(fs.itab[wd].node)) then
              && k + 1 < ENTRIES && ENTRY * (k + 1) <= Position(SizeOf(fs.itab[wd].node))
              && fs.uCount == ENTRY && AtEntry(fs.uOffset, k + 1)
              && cur[..] == EntryAt(fs.vol.disk, fs.itab[wd].node.addr, k)
            else fs.uCount == 0 && AtEntry(fs.uOffset, k)
  {
    hide GoodLayout, GoodFreeList, Consistent, OtherDevices, GoodDirectory, Filled, FileByte, Around, ReadLimit, Chunk;
    hide Position, GoodOff, SizeOf;
    ghost var o, was := fs.uOffset, cur[..];
    fs.uCount := ENTRY;
    fs.uBase := 0;
    DirectoryRead(fs.vol.disk, fs.itab[wd].node, o, k);
    var _ := fs.Readi(wd, cur);
    if fs.uCount == ENTRY {
      EntryRead(cur[..], was, fs.vol.disk, fs.itab[wd].node.addr, o, fs.uOffset, fs.uBase, k);
    } else {
      NothingRead(o, fs.uOffset, fs.uBase, k);
    }
  }

  lemma {:induction false} DirectoryRead(d: Disk, n: Dinode, o: Off, k: int)
    requires GoodDirectory(d, n) && AtEntry(o, k) && 0 <= k && ENTRY * k <= Position(SizeOf(n))
    ensures GoodOff(SizeOf(n)) && GoodOff(o) && IsFile(n) && Getmode(n.mode) == F_DIR
    ensures ReadLimit(SizeOf(n), o, ENTRY) == if ENTRY * k < Position(SizeOf(n)) then ENTRY else 0
    ensures ENTRY * k < Position(SizeOf(n)) ==> k + 1 < ENTRIES && ENTRY * (k + 1) <= Position(SizeOf(n)) < FILE_MODULUS
  {
    hide ReadLimit, FileByte, Lookup, InFile, Position, GoodDirectory, GoodOff, SizeOf;
    DirectorySize(d, n);
    ShortReadsAreExact(SizeOf(n), o, ENTRY);
    EntryOrNothing(SizeOf(n), o, k);
    EntriesFit(Position(SizeOf(n)), k);
  }

  lemma {:induction false} EntryOrNothing(size: Off, o: Off, k: int)
    requires Position(size) % ENTRY == 0 && Position(o) == ENTRY * k <= Position(size)
    ensures InFile(size, o, ENTRY) == if ENTRY * k < Position(size) then ENTRY else 0
  {
    hide Position;
    EntriesFit(Position(size), k);
  }

  lemma {:induction false} EntriesFit(size: int, k: int)
    requires size % 16 == 0 && 16 * k <= size
    ensures 16 * k < size ==> 16 * (k + 1) <= size
    ensures 16 * k < size < 0x200_0000 - 1024 ==> k + 1 < 0x20_0000
  {
    var q := size / 16;
    assert size == 16 * q;
  }

  lemma {:induction false} DirectorySize(d: Disk, n: Dinode)
    requires GoodDirectory(d, n)
    ensures GoodOff(SizeOf(n)) && IsFile(n) && Getmode(n.mode) == F_DIR
    ensures 0 <= Position(SizeOf(n)) < FILE_MODULUS - 1024 && Position(SizeOf(n)) % ENTRY == 0
    ensures SizeOf(n).blkno == n.sizeBlk
  {
    hide FileByte, Lookup;
    assert Position(SizeOf(n)) == ENTRY * (32 * n.sizeBlk + n.sizeOff / ENTRY);
  }

  lemma {:induction false} NothingRead(o: Off, o': Off, uBase: int, k: int)
    requires AtEntry(o, k) && Transferred(0, o, uBase, o', 0, false) && 0 <= k && o.blkno < 0x1_0000
    ensures AtEntry(o', k)
  {
    PositionIsSmall(o);
    hide Position, GoodOff, Modulus;
    SmallMod(Position(o));
  }

  /** Ch_link's search for the entry of oldname, from the start: the entry just read, or the end. */
  method FindEntry(fs: FileSys, wd: int, oldname: seq<Byte>, cur: array<Byte>) returns (found: bool, ghost k: int)
    requires fs.Ready() && fs.Open(wd) && GoodDirectory(fs.vol.disk, fs.itab[wd].node)
    requires cur.Length == ENTRY && cur !in fs.Repr() && 0 in oldname
    modifies fs, fs.itab, fs.vol.Repr(), cur
    ensures fs.Ready() && fs.vol.disk == old(fs.vol.disk) && fs.layout.ino == old(fs.layout.ino)
            && fs.vol.error == old(fs.vol.error)
    ensures fs.itab[..] == old(fs.itab[..])
    ensures 0 <= k < ENTRIES && NoMatch(fs.vol.disk, fs.itab[wd].node.addr, Name(oldname), k)
    ensures if found then
              && fs.uCount == ENTRY && AtEntry(fs.uOffset, k + 1)
              && ENTRY * (k + 1) <= Position(SizeOf(fs.itab[wd].node))
              && EntryName(EntryAt(fs.vol.disk, fs.itab[wd].node.addr, k)) == Name(oldname)
            else fs.uCount == 0 && AtEntry(fs.uOffset, k) && Position(SizeOf(fs.itab[wd].node)) == ENTRY * k
  {
    hide GoodLayout, GoodFreeList, Consistent, GoodDirectory, FileByte, Position, GoodOff, SizeOf, NoMatch, Component;
    ghost var d, tab, name, node, ino, error := fs.vol.disk, fs.itab[..], Name(oldname), fs.itab[wd].node,
      fs.layout.ino, fs.vol.error;
    DirectorySize(d, node);
    NoneYet(d, node.addr, name);
    StartOfFile();
    fs.uOffset := Off(0, 0);
    k := 0;
    while true
      invariant 0 <= k && ENTRY * k <= Position(SizeOf(node)) && AtEntry(fs.uOffset, k)
                && NoMatch(d, node.addr, name, k)
      invariant fs.Ready() && fs.vol.disk == d && fs.itab[..] == tab && fs.layout.ino == ino && fs.vol.error == error
      decreases Position(SizeOf(node)) - ENTRY * k
    {
      ReadEntry(fs, wd, cur, k);
      if fs.uCount == 0 {
        return false, k;
      }
      var same := Namecomp(oldname, cur[2..]);
      if same {
        return true, k;
      }
      OneMoreMismatch(d, node.addr, name, k);
      k := k + 1;
    }
  }

  lemma {:induction false} StartOfFile()
    ensures AtEntry(Off(0, 0), 0)
  {
  }

  /** Ch_link's way back to the entry that was just read. */
  function BackUp(o: Off): Off {
    if o.offset == 0 then Off(ToWord(o.blkno - 1), 512 - ENTRY) else Off(o.blkno, o.offset - ENTRY)
  }

  /** It is the very entry. */
  lemma {:induction false} BackUpIsExact(o: Off, k: int)
    requires AtEntry(o, k + 1) && 0 <= k
    ensures AtEntry(BackUp(o), k)
  {
    hide ToWord, Position;
    PositionIs(o);
    PositionIs(BackUp(o));
    assert ENTRY * (k + 1) == 16 * k + 16 && ENTRY * k == 16 * k;
    if o.offset == 0 {
      SameWord(o.blkno - 1);
      assert Position(BackUp(o)) == 512 * (o.blkno - 1) + 496;
    } else {
      assert 16 * (k + 1 - 32 * o.blkno) == o.offset;
      assert Position(BackUp(o)) == 512 * o.blkno + o.offset - 16;
    }
  }

  // ----- What a stored entry changes -----

  lemma {:induction false} EntryAhead(j: int, i: int, k: int)
    requires 0 <= j < ENTRIES && 0 <= k < ENTRIES && 0 <= i < ENTRY
    ensures 0 <= ENTRY * j + i < FILE_MODULUS
    ensures j == k ==> Ahead(ENTRY * j + i, ENTRY * k, false) == i
    ensures j != k ==> Ahead(ENTRY * j + i, ENTRY * k, false) >= ENTRY
  {
    var x := ENTRY * (j - k) + i;
    assert ENTRY * j + i - ENTRY * k == x;
    if j < k {
      SmallMod(x + FILE_MODULUS);
    } else {
      SmallMod(x);
    }
  }

  /** Writing 16 bytes at entry k replaces that entry and no other. */
  lemma {:induction false} EntryWritten(
      d: Disk, ino: seq<Addr>, d': Disk, ino': seq<Addr>, n: int, data: seq<Byte>, k: int, j: int)
    requires Wrote(d, ino, d', ino', n, ENTRY * k, ENTRY, data, false) && |data| == ENTRY
    requires 0 <= k < ENTRIES && 0 <= j < ENTRIES
    ensures EntryAt(d', ino'[n], j) == if j == k then data else EntryAt(d, ino[n], j)
  {
    hide FileByte, Ahead;
    var e, was := EntryAt(d', ino'[n], j), EntryAt(d, ino[n], j);
    forall i | 0 <= i < ENTRY
      ensures e[i] == if j == k then data[i] else was[i]
    {
      EntryAhead(j, i, k);
      assert e[i] == FileByte(d', ino'[n], ENTRY * j + i);
    }
  }

  lemma {:induction false} NothingWritten(d: Disk, ino: seq<Addr>, d': Disk, ino': seq<Addr>, n: int, start: int,
      data: seq<Byte>, j: int)
    requires Wrote(d, ino, d', ino', n, start, 0, data, false) && 0 <= j < ENTRIES
    ensures EntryAt(d', ino'[n], j) == EntryAt(d, ino[n], j)
  {
    hide FileByte, Ahead;
    var e, was := EntryAt(d', ino'[n], j), EntryAt(d, ino[n], j);
    forall i | 0 <= i < ENTRY
      ensures e[i] == was[i]
    {
      assert e[i] == FileByte(d', ino'[n], ENTRY * j + i);
      AheadIsNat(ENTRY * j + i, start);
    }
  }

  lemma {:induction false} AheadIsNat(p: int, start: int)
    ensures Ahead(p, start, false) >= 0
  {
  }

  /** The size at the end of a link: past entry k, rounded up to whole blocks. */
  function LinkedSize(size: Off, k: int): Off
    requires 0 <= k
  {
    var end := if ENTRY * (k + 1) > Position(size) then ENTRY * (k + 1) else Position(size);
    Off(ToWord((end + 511) / 512), 0)
  }

  /** The directory stays one. */
  lemma {:induction false} LinkKeepsDirectory(
      d: Disk, ino: seq<Addr>, d': Disk, ino': seq<Addr>, num: int, data: seq<Byte>, k: int, n: Dinode, n': Dinode)
    requires Wrote(d, ino, d', ino', num, ENTRY * k, ENTRY, data, false) && |data| == ENTRY
    requires GoodDirectory(d, n) && n.sizeBlk < 0x7FFE && 0 <= k && ENTRY * k <= Position(SizeOf(n))
    requires ino[num] == n.addr && ino'[num] == n'.addr && n'.mode == n.mode && SizeOf(n') == LinkedSize(SizeOf(n), k)
    ensures GoodDirectory(d', n')
  {
    hide FileByte, Lookup, Ahead;
    LinkedBounds(n, k);
    forall p | Position(SizeOf(n')) <= p < FILE_MODULUS
      ensures FileByte(d', n'.addr, p) == 0
    {
      BehindEntry(p, k);
    }
    forall b: Word | b < BlockCount(n')
      ensures Lookup(d', n'.addr, b) != 0
    {
      if b >= BlockCount(n) {
        NewBlock(n, k, b);
      } else {
        assert Lookup(d, ino[num], b) != 0;
      }
    }
  }

  lemma {:induction false} LinkedBounds(n: Dinode, k: int)
    requires n.sizeOff < 512 && n.sizeBlk < 0x7FFE && 0 <= k && ENTRY * k <= Position(SizeOf(n))
    ensures var s := LinkedSize(SizeOf(n), k);
            && s.blkno < 0x7FFF && Position(s) >= ENTRY * (k + 1) && Position(s) >= Position(SizeOf(n)) && k < ENTRIES
            && s.offset == 0 && (Position(s) < ENTRY * (k + 1) + 512 || Position(s) < Position(SizeOf(n)) + 512)
  {
    hide ToWord, Position, LinkedSize;
    var size := SizeOf(n);
    PositionIs(size);
    EntryEnd(n.sizeBlk, n.sizeOff, k);
    RoundedBounds(size, n.sizeBlk, k, if ENTRY * (k + 1) > Position(size) then ENTRY * (k + 1) else Position(size));
  }

  lemma {:induction false} EntryEnd(blk: int, off: int, k: int)
    requires 0 <= off < 512 && 16 * k <= 512 * blk + off && 0 <= k
    ensures 16 * (k + 1) <= 512 * (blk + 1)
  {
  }

  lemma {:induction false} RoundedBounds(size: Off, blk: int, k: int, end: int)
    requires 0 <= k && end == if ENTRY * (k + 1) > Position(size) then ENTRY * (k + 1) else Position(size)
    requires 0 <= blk < 0x7FFE && 0 <= end <= 512 * (blk + 1)
    ensures var s := LinkedSize(size, k);
            && s.offset == 0 && end <= Position(s) < end + 512 && s.blkno <= blk + 1
            && ENTRY * (k + 1) <= 512 * (blk + 1) < 512 * 0x7FFF
  {
    hide ToWord, Position, LinkedSize;
    Ceiling(end, blk + 1);
    LinkedSizeIs(size, k, end);
    PositionIs(LinkedSize(size, k));
  }

  lemma {:induction false} LinkedSizeIs(size: Off, k: int, end: int)
    requires 0 <= k && end == (if ENTRY * (k + 1) > Position(size) then ENTRY * (k + 1) else Position(size))
    requires 0 <= (end + 511) / 512 < 0x1_0000
    ensures LinkedSize(size, k) == Off((end + 511) / 512, 0)
  {
    hide ToWord, Position;
    SameWord((end + 511) / 512);
  }

  lemma {:induction false} Ceiling(end: int, blocks: int)
    requires 0 <= end <= 512 * blocks
    ensures (end + 511) / 512 <= blocks && 512 * ((end + 511) / 512) >= end && (end + 511) / 512 >= 0
  {
  }

  lemma {:induction false} BehindEntry(p: int, k: int)
    requires 0 <= k < ENTRIES && ENTRY * (k + 1) <= p < FILE_MODULUS
    ensures Ahead(p, ENTRY * k, false) >= ENTRY
  {
    SmallMod(p - ENTRY * k);
  }

  lemma {:induction false} NewBlock(n: Dinode, k: int, b: Word)
    requires n.sizeOff < 512 && n.sizeOff % ENTRY == 0 && n.sizeBlk < 0x7FFE && 0 <= k
             && ENTRY * k <= Position(SizeOf(n))
    requires BlockCount(n) <= b < LinkedSize(SizeOf(n), k).blkno
    ensures b == FirstBlockOf(ENTRY * k, false)
  {
    hide FirstBlockOf, ToWord;
    var s := n.sizeOff / ENTRY;
    assert n.sizeOff == ENTRY * s && Position(SizeOf(n)) == ENTRY * (32 * n.sizeBlk + s);
    var x := if k + 1 > 32 * n.sizeBlk + s then k + 1 else 32 * n.sizeBlk + s;
    LinkedIs(n.sizeBlk, s, SizeOf(n), k, x);
    BlocksGrow(n.sizeBlk, s, k, x, b);
    FirstBlockIs(n.sizeBlk);
  }

  lemma {:induction false} LinkedIs(blk: int, s: int, size: Off, k: int, x: int)
    requires 0 <= blk < 0x7FFE && 0 <= s < 32 && Position(size) == ENTRY * (32 * blk + s) && 0 <= k <= 32 * blk + s
    requires x == if k + 1 > 32 * blk + s then k + 1 else 32 * blk + s
    ensures LinkedSize(size, k).blkno == (x + 31) / 32
  {
    hide Position;
    assert (ENTRY * x + 511) / 512 == (x + 31) / 32;
  }

  lemma {:induction false} BlocksGrow(blk: int, s: int, k: int, x: int, b: int)
    requires 0 <= s < 32 && 0 <= k <= 32 * blk + s && x == if k + 1 > 32 * blk + s then k + 1 else 32 * blk + s
    requires blk + (if s != 0 then 1 else 0) <= b < (x + 31) / 32
    ensures k == 32 * blk && b == blk
  {
  }

  lemma {:induction false} FirstBlockIs(blk: Word)
    ensures FirstBlockOf(ENTRY * (32 * blk), false) == blk
  {
    SmallMod(512 * blk);
  }

  lemma {:induction false} RoomForEntry(o: Off, k: int)
    requires AtEntry(o, k)
    ensures 512 - o.offset >= ENTRY && GoodOff(o) && Lesser(ENTRY, 512 - o.offset) == ENTRY
  {
    hide Position;
    assert o.offset == ENTRY * (k - 32 * o.blkno) by {
      assert 512 * o.blkno + o.offset == ENTRY * k by {
        PositionIs(o);
      }
    }
  }

  lemma {:induction false} PositionIs(o: Off)
    ensures Position(o) == 512 * o.blkno + o.offset
  {
  }

  /** Writei of one entry: all of it or nothing. */
  method StoreEntry(fs: FileSys, wd: int, cur: array<Byte>, ghost k: int) returns (ok: bool)
    requires fs.Ready() && fs.Open(wd) && GoodDirectory(fs.vol.disk, fs.itab[wd].node) && fs.vol.error == OK
    requires cur.Length == ENTRY && cur !in fs.Repr() && 0 <= k && AtEntry(fs.uOffset, k)
    requires ENTRY * k <= Position(SizeOf(fs.itab[wd].node))
    modifies fs, fs.itab, fs.vol.Repr()
    ensures fs.Ready() && SameSlot(old(fs.itab[..]), fs.itab[..], wd)
    ensures Wrote(old(fs.vol.disk), old(fs.layout.ino), fs.vol.disk, fs.layout.ino, old(fs.itab[wd].num), ENTRY * k,
                  if ok then ENTRY else 0, cur[..], false)
    ensures !ok ==>
            fs.vol.error == ENOSPC && fs.vol.stack == []
            && Getsize(fs.itab[wd]) == SizeOf(old(fs.itab[wd].node))
                    && Position(SizeOf(old(fs.itab[wd].node))) == ENTRY * k && old(fs.itab[wd].node.sizeOff) == 0
    ensures ok ==> fs.vol.error == OK && AtEntry(fs.uOffset, k + 1)
                   && Getsize(fs.itab[wd]) == if Position(fs.uOffset) > Position(SizeOf(old(fs.itab[wd].node)))
                      then fs.uOffset else SizeOf(old(fs.itab[wd].node))
  {
    hide GoodLayout, GoodFreeList, Consistent, OtherDevices, GoodDirectory, Wrote, SameSlot, Around, Position, GoodOff;
    hide SizeOf;
    ghost var o, node := fs.uOffset, fs.itab[wd].node;
    DirectorySize(fs.vol.disk, node);
    RoomForEntry(o, k);
    fs.uCount := ENTRY;
    fs.uBase := 0;
    var _, _ := fs.Writei(wd, cur);
    assert cur[0..ENTRY] == cur[..];
    ok := fs.vol.error == OK;
    if ok {
      EntryPassed(o, fs.uOffset, fs.uBase, k, node);
    } else {
      NoBlockForEntry(old(fs.vol.disk), node, k);
      NothingRead(o, fs.uOffset, fs.uBase, k);
      NotGrown(SizeOf(node), fs.uOffset, k);
    }
  }

  /** Only an entry at the end, where a block would begin, has no block yet. */
  lemma {:induction false} NoBlockForEntry(d: Disk, n: Dinode, k: int)
    requires GoodDirectory(d, n) && 0 <= k && ENTRY * k <= Position(SizeOf(n))
    requires Lookup(d, n.addr, FirstBlockOf(ENTRY * k, false)) == 0
    ensures Position(SizeOf(n)) == ENTRY * k && n.sizeOff == 0
  {
    hide FileByte, Lookup, FirstBlockOf, Position;
    DirectorySize(d, n);
    PositionIs(SizeOf(n));
    BlockOfEntry(ENTRY * k);
    var b := ENTRY * k / 512;
    assert Lookup(d, n.addr, b) == 0;
    assert b >= BlockCount(n);
    InBlock(n.sizeBlk, n.sizeOff);
  }

  lemma {:induction false} BlockOfEntry(p: int)
    requires 0 <= p < FILE_MODULUS
    ensures FirstBlockOf(p, false) == p / 512 && 0 <= p / 512 < 0x1_0000
  {
    SmallMod(p);
  }

  lemma {:induction false} NotGrown(size: Off, o: Off, k: int)
    requires AtEntry(o, k) && ENTRY * k <= Position(size)
    ensures GrownSize(size, o) == size
  {
  }

  lemma {:induction false} EntryPassed(o: Off, o': Off, uBase: int, k: int, n: Dinode)
    requires AtEntry(o, k) && Transferred(0, o, uBase, o', ENTRY, false) && 0 <= k
    requires ENTRY * k <= Position(SizeOf(n)) < FILE_MODULUS - 1024
    ensures AtEntry(o', k + 1)
  {
    hide Position, GoodOff;
    SmallMod(ENTRY * k + ENTRY);
  }

  lemma {:induction false} RoundedSize(size: Off, o: Off, s: Off, k: int)
    requires GoodOff(size) && size.blkno < 0x7FFE && AtEntry(o, k + 1) && 0 <= k && ENTRY * k <= Position(size)
    requires s == if Position(o) > Position(size) then o else size
    ensures GoodOff(s) && (if s.offset != 0 then Off(ToWord(s.blkno + 1), 0) else s) == LinkedSize(size, k)
  {
    hide ToWord, Position;
    PositionIs(s);
    assert Position(s) == if ENTRY * (k + 1) > Position(size) then ENTRY * (k + 1) else Position(size);
    RoundUp(s.blkno, s.offset);
    SameWord(s.blkno);
  }

  lemma {:induction false} RoundUp(blk: int, off: int)
    requires 0 <= off < 512
    ensures (512 * blk + off + 511) / 512 == if off != 0 then blk + 1 else blk
  {
  }

  lemma {:induction false} SameWord(w: Word)
    ensures ToWord(w) == w
  {
  }

  /** The directory as a map: name now has the number of e, oldname is gone unless it is the
      same, and nothing else differs. */
  ghost predicate MapUpdated(entry: int -> seq<Byte>, entry': int -> seq<Byte>, oldname: seq<Byte>, e: seq<Byte>)
    requires |e| == ENTRY
  {
    forall name, num | name != [] ::
      Listed(entry', name, num) <==>
      if name == EntryName(e) then num == Number(e) else name != oldname && Listed(entry, name, num)
  }

  /** The new name may be given to the entry: it is empty, the old one, or not listed yet. */
  ghost predicate NameIsNew(entry: int -> seq<Byte>, oldname: seq<Byte>, newname: seq<Byte>) {
    newname != [] && newname != oldname ==> forall num :: !Listed(entry, newname, num)
  }

  lemma {:induction false} LinkedMap(d: Disk, addr: Addr, d': Disk, addr': Addr, oldname: seq<Byte>, e: seq<Byte>,
      k: int)
    requires |e| == ENTRY && FirstMatch(d, addr, oldname, k)
    requires forall j | 0 <= j < ENTRIES :: EntryAt(d', addr', j) == if j == k then e else EntryAt(d, addr, j)
    requires UniqueNames(EntriesOf(d, addr)) && NameIsNew(EntriesOf(d, addr), oldname, EntryName(e))
    ensures UniqueNames(EntriesOf(d', addr')) && MapUpdated(EntriesOf(d, addr), EntriesOf(d', addr'), oldname, e)
  {
    hide EntryName, Number, Listed, UniqueNames, NoMatch;
    var entry, entry' := EntriesOf(d, addr), EntriesOf(d', addr');
    assert entry(k) == EntryAt(d, addr, k);
    assert forall j | 0 <= j < ENTRIES :: entry'(j) == EntryAt(d', addr', j) && entry(j) == EntryAt(d, addr, j);
    LinkUpdatesMap(entry, entry', k, e);
  }

  lemma {:induction false} EmptyEntryMatches(d: Disk, n: Dinode, name: seq<Byte>, k: int)
    requires GoodDirectory(d, n) && ENTRY * k == Position(SizeOf(n)) && 0 <= k < ENTRIES
    ensures EntryName(EntryAt(d, n.addr, k)) == []
  {
    hide FileByte, Component, Lookup, Position;
    var e := EntryAt(d, n.addr, k);
    assert e[2] == FileByte(d, n.addr, ENTRY * k + 2);
    NoName(e[2..]);
  }

  lemma {:induction false} EmptyString(s: seq<Byte>)
    requires |s| > 0 && s[0] == 0
    ensures Name(s) == []
  {
    NoName(s);
  }

  /** The end of ch_link: writes the entry, and rounds the length up to whole blocks. */
  method PutEntry(fs: FileSys, wd: int, cur: array<Byte>, ghost k: int, ghost name: seq<Byte>) returns (ok: bool)
    requires fs.Ready() && fs.Open(wd) && GoodDirectory(fs.vol.disk, fs.itab[wd].node) && fs.vol.error == OK
    requires fs.itab[wd].node.sizeBlk < 0x7FFE && cur.Length == ENTRY && cur !in fs.Repr()
    requires 0 <= k < ENTRIES && AtEntry(fs.uOffset, k) && ENTRY * k <= Position(SizeOf(fs.itab[wd].node))
    requires FirstMatch(fs.vol.disk, fs.itab[wd].node.addr, name, k)
    modifies fs, fs.itab, fs.vol.Repr()
    ensures fs.Ready() && fs.Open(wd) && GoodDirectory(fs.vol.disk, fs.itab[wd].node)
    ensures OnlyFile(old(fs.vol.disk), old(fs.layout.ino), old(fs.itab[..]), fs.vol.disk, fs.layout.ino, fs.itab[..],
                     wd)
    ensures Wrote(old(fs.vol.disk), old(fs.layout.ino), fs.vol.disk, fs.layout.ino, old(fs.itab[wd].num), ENTRY * k,
                  if ok then ENTRY else 0, cur[..], false)
    ensures !ok ==> Position(SizeOf(old(fs.itab[wd].node))) == ENTRY * k && old(fs.itab[wd].node.sizeOff) == 0
    ensures !ok ==> fs.vol.error == ENOSPC && fs.vol.stack == []
                    && SizeOf(fs.itab[wd].node) == SizeOf(old(fs.itab[wd].node))
                    && SameEntries(old(fs.vol.disk), old(fs.itab[wd].node.addr), fs.vol.disk, fs.itab[wd].node.addr)
    ensures ok ==>
              && fs.itab[wd].dirty && fs.vol.error == OK
              && SizeOf(fs.itab[wd].node) == LinkedSize(SizeOf(old(fs.itab[wd].node)), k)
              && Linked(old(fs.vol.disk), old(fs.itab[wd].node.addr), fs.vol.disk, fs.itab[wd].node.addr, name, cur[..],
                        k)
  {
    hide GoodLayout, GoodFreeList, Consistent, OtherDevices, GoodDirectory, Wrote, SameSlot, Position, GoodOff, SizeOf;
    hide NoMatch, FirstMatch;
    hide Component, FileBlock, EntryName, Number, Linked, LinkedSize, AtEntry, OnlyFile, SameEntries;
    ghost var d, m, tab, num, node := fs.vol.disk, fs.layout, fs.itab[..], fs.itab[wd].num, fs.itab[wd].node;
    SlotOfTable(d, m, tab, fs.vol.isize, fs.vol.fsize, wd);
    DirectorySize(d, node);
    ok := StoreEntry(fs, wd, cur, k);
    ghost var d1, tab1 := fs.vol.disk, fs.itab[..];
    SameSlotKind(tab, tab1, wd);
    SlotOfTable(d1, fs.layout, tab1, fs.vol.isize, fs.vol.fsize, wd);
    if !ok {
      EntriesKept(d, m.ino, d1, fs.layout.ino, num, ENTRY * k, cur[..]);
      StillDirectory(d, m.ino, d1, fs.layout.ino, num, ENTRY * k, cur[..], node, tab1[wd].node);
      FileWritten(d, m, tab, d1, fs.layout, tab1, fs.vol.isize, fs.vol.fsize, wd, ENTRY * k, 0, cur[..], false);
      return;
    }
    // the length goes up to the next block
    var size := Getsize(fs.itab[wd]);
    RoundedSize(SizeOf(node), fs.uOffset, size, k);
    if size.offset != 0 {
      size := Off(ToWord(size.blkno + 1), 0);
    }
    WholeBlocks(SizeOf(node), k);
    fs.SetSize(wd, size);
    ResizeSlot(tab, tab1, fs.itab[..], wd, size);
    SameSlotKind(tab, fs.itab[..], wd);
    LinkDone(d, m.ino, fs.vol.disk, fs.layout.ino, num, cur[..], k, node, fs.itab[wd].node, name);
    FileWritten(d, m, tab, d1, fs.layout, fs.itab[..], fs.vol.isize, fs.vol.fsize, wd, ENTRY * k, ENTRY, cur[..],
                false);
  }

  ghost predicate SameEntries(d: Disk, addr: Addr, d': Disk, addr': Addr) {
    forall j | 0 <= j < ENTRIES :: EntryAt(d', addr', j) == EntryAt(d, addr, j)
  }

  /** An entry that found no block leaves the directory as it was. */
  lemma {:induction false} StillDirectory(
      d: Disk, ino: seq<Addr>, d': Disk, ino': seq<Addr>, num: int, start: int, data: seq<Byte>, n: Dinode, n': Dinode)
    requires Wrote(d, ino, d', ino', num, start, 0, data, false) && GoodDirectory(d, n)
    requires ino[num] == n.addr && ino'[num] == n'.addr && n'.mode == n.mode && SizeOf(n') == SizeOf(n)
    ensures GoodDirectory(d', n')
  {
    hide FileByte, Lookup, Ahead, PtrAt;
    forall p | 0 <= p < FILE_MODULUS
      ensures FileByte(d', n'.addr, p) == FileByte(d, n.addr, p)
    {
      AheadIsNat(p, start);
    }
    forall b: Word | b < BlockCount(n')
      ensures Lookup(d', n'.addr, b) != 0
    {
      assert Lookup(d, ino[num], b) != 0;
    }
    PositionIs(SizeOf(n));
    hide Position;
  }

  lemma {:induction false} EntriesKept(d: Disk, ino: seq<Addr>, d': Disk, ino': seq<Addr>, n: int, start: int,
      data: seq<Byte>)
    requires Wrote(d, ino, d', ino', n, start, 0, data, false)
    ensures 0 <= n < |ino| == |ino'| && SameEntries(d, ino[n], d', ino'[n])
  {
    hide FileByte;
    forall j | 0 <= j < ENTRIES
      ensures EntryAt(d', ino'[n], j) == EntryAt(d, ino[n], j)
    {
      NothingWritten(d, ino, d', ino', n, start, data, j);
    }
  }

  /** What a successful link does: entry k, the first one with the old name, is replaced by e, and
      as a map the directory is updated for these names alone. */
  ghost predicate Linked(d: Disk, addr: Addr, d': Disk, addr': Addr, oldname: seq<Byte>, e: seq<Byte>, k: int) {
    && |e| == ENTRY && FirstMatch(d, addr, oldname, k)
    && (forall j | 0 <= j < ENTRIES :: EntryAt(d', addr', j) == if j == k then e else EntryAt(d, addr, j))
    && (UniqueNames(EntriesOf(d, addr)) && NameIsNew(EntriesOf(d, addr), oldname, EntryName(e)) ==>
          UniqueNames(EntriesOf(d', addr')) && MapUpdated(EntriesOf(d, addr), EntriesOf(d', addr'), oldname, e))
  }

  /** Back to entry k, which was just read. */
  method StepBack(fs: FileSys, ghost k: int)
    requires fs.Ready() && 0 <= k && AtEntry(fs.uOffset, k + 1)
    modifies fs`uOffset
    ensures fs.Ready() && AtEntry(fs.uOffset, k)
  {
    hide GoodLayout, GoodFreeList, Consistent, AtEntry;
    BackUpIsExact(fs.uOffset, k);
    fs.uOffset := BackUp(fs.uOffset);
  }

  /** Sets u_error. */
  method Fail(fs: FileSys, error: Errno)
    requires fs.Ready()
    modifies fs.vol`error
    ensures fs.Ready() && fs.vol.error == error
  {
    hide GoodLayout, GoodFreeList, Consistent;
    fs.vol.error := error;
  }

  /** Makes the entry of oldname (an empty one: an unused entry, or a new one at the end) an
      entry for newname and inode num; num == 0 with an empty name clears it. k is the entry. */
  method ChLink(fs: FileSys, wd: int, oldname: seq<Byte>, newname: seq<Byte>, num: Word, mayWrite: bool)
    returns (ok: bool, ghost k: int)
    requires fs.Ready() && fs.Open(wd) && GoodDirectory(fs.vol.disk, fs.itab[wd].node) && fs.vol.error == OK
    requires fs.itab[wd].node.sizeBlk < 0x7FFE && 0 in oldname && |newname| == NAMELEN
    modifies fs, fs.itab, fs.vol.Repr()
    ensures fs.Ready() && fs.Open(wd) && GoodDirectory(fs.vol.disk, fs.itab[wd].node) && 0 <= k < ENTRIES
    ensures OnlyFile(old(fs.vol.disk), old(fs.layout.ino), old(fs.itab[..]), fs.vol.disk, fs.layout.ino, fs.itab[..],
                     wd)
    ensures Wrote(old(fs.vol.disk), old(fs.layout.ino), fs.vol.disk, fs.layout.ino, old(fs.itab[wd].num), ENTRY * k,
                  if ok then ENTRY else 0, MakeEntry(num, newname), false)
    ensures !ok ==> SizeOf(fs.itab[wd].node) == SizeOf(old(fs.itab[wd].node))
                    && SameEntries(old(fs.vol.disk), old(fs.itab[wd].node.addr), fs.vol.disk, fs.itab[wd].node.addr)
    ensures !ok && mayWrite ==>
              && Position(SizeOf(old(fs.itab[wd].node))) == ENTRY * k
              && NoMatch(old(fs.vol.disk), old(fs.itab[wd].node.addr), Name(oldname), k)
    ensures !ok ==>
              if !mayWrite then fs.vol.error == EPERM
              else if oldname[0] != 0 then fs.vol.error == OK
              else fs.vol.error == ENOSPC && fs.vol.stack == [] && old(fs.itab[wd].node.sizeOff) == 0
    ensures ok ==>
              && fs.itab[wd].dirty && fs.vol.error == OK && ENTRY * k <= Position(SizeOf(old(fs.itab[wd].node)))
              && SizeOf(fs.itab[wd].node) == LinkedSize(SizeOf(old(fs.itab[wd].node)), k)
              && Linked(old(fs.vol.disk), old(fs.itab[wd].node.addr), fs.vol.disk, fs.itab[wd].node.addr,
                        Name(oldname), MakeEntry(num, newname), k)
  {
    hide GoodLayout, GoodFreeList, Consistent, OtherDevices, GoodDirectory, Wrote, SameSlot, Position, GoodOff, SizeOf;
    hide NoMatch, FirstMatch, FileSys.Valid, FileSys.Ready, Vol.Valid;
    hide Component, FileBlock, EntryName, Number, Linked, LinkedSize, BackUp, AtEntry, OnlyFile, SameEntries;
    ok, k := false, 0;
    ghost var d, m, tab, num0, node := fs.vol.disk, fs.layout, fs.itab[..], fs.itab[wd].num, fs.itab[wd].node;
    fs.LayoutIs();
    SlotOfTable(d, m, tab, fs.vol.isize, fs.vol.fsize, wd);
    SameSlotRefl(tab, wd);
    SameEntriesRefl(d, node.addr);
    WroteStart(d, m.ino, num0, 0, MakeEntry(num, newname), false);
    if !mayWrite {
      Fail(fs, EPERM);
      SlotMoved(d, m, tab, m, tab, fs.vol.isize, fs.vol.fsize, wd);
      return;
    }
    var cur := new Byte[ENTRY];
    var found;
    found, k := FindEntry(fs, wd, oldname, cur);
    if !found && oldname[0] != 0 {
      fs.LayoutIs();
      WroteStart(d, m.ino, num0, ENTRY * k, MakeEntry(num, newname), false);
      SlotMoved(d, m, tab, fs.layout, fs.itab[..], fs.vol.isize, fs.vol.fsize, wd);
      return;
    }
    PlaceFound(d, node, oldname, k, found);
    Bcopy(newname, cur, 2);
    cur[0], cur[1] := num % 256, num / 256;
    ghost var e := MakeEntry(num, newname);
    assert cur[..] == e;
    // an existing entry is used: back up the file offset
    if fs.uCount != 0 {
      StepBack(fs, k);
    }
    ok := PutEntry(fs, wd, cur, k, Name(oldname));
  }

  lemma {:induction false} SameEntriesRefl(d: Disk, addr: Addr)
    ensures SameEntries(d, addr, d, addr)
  {
  }

  /** The entry that will be stored has the name that was searched for. */
  lemma {:induction false} PlaceFound(d: Disk, n: Dinode, oldname: seq<Byte>, k: int, found: bool)
    requires GoodDirectory(d, n) && 0 <= k < ENTRIES && NoMatch(d, n.addr, Name(oldname), k) && 0 in oldname
    requires if found then EntryName(EntryAt(d, n.addr, k)) == Name(oldname) && ENTRY * (k + 1) <= Position(SizeOf(n))
             else oldname[0] == 0 && Position(SizeOf(n)) == ENTRY * k
    ensures FirstMatch(d, n.addr, Name(oldname), k) && ENTRY * k <= Position(SizeOf(n)) && GoodOff(SizeOf(n))
  {
    hide EntryName, Component, NoMatch, FileByte, Lookup;
    if !found {
      EmptyEntryMatches(d, n, Name(oldname), k);
      EmptyString(oldname);
    }
  }

  lemma {:induction false} WholeBlocks(size: Off, k: int)
    requires 0 <= k
    ensures GoodOff(LinkedSize(size, k))
  {
  }

  lemma {:induction false} LinkDone(
      d: Disk, ino: seq<Addr>, d': Disk, ino': seq<Addr>, num: int, e: seq<Byte>, k: int, n: Dinode, n': Dinode,
        oldname: seq<Byte>)
    requires Wrote(d, ino, d', ino', num, ENTRY * k, ENTRY, e, false) && |e| == ENTRY && 0 <= k < ENTRIES
    requires GoodDirectory(d, n) && n.sizeBlk < 0x7FFE && ENTRY * k <= Position(SizeOf(n))
    requires ino[num] == n.addr && ino'[num] == n'.addr && n'.mode == n.mode && SizeOf(n') == LinkedSize(SizeOf(n), k)
    requires FirstMatch(d, n.addr, oldname, k)
    ensures GoodDirectory(d', n') && Linked(d, n.addr, d', n'.addr, oldname, e, k)
  {
    hide Wrote, GoodDirectory, EntryName, UniqueNames, NameIsNew, MapUpdated, FirstMatch, FileByte, Position;
    hide LinkedSize;
    LinkKeepsDirectory(d, ino, d', ino', num, e, k, n, n');
    forall j | 0 <= j < ENTRIES
      ensures EntryAt(d', n'.addr, j) == if j == k then e else EntryAt(d, n.addr, j)
    {
      EntryWritten(d, ino, d', ino', num, e, k, j);
    }
    if UniqueNames(EntriesOf(d, n.addr)) && NameIsNew(EntriesOf(d, n.addr), oldname, EntryName(e)) {
      LinkedMap(d, n.addr, d', n'.addr, oldname, e, k);
    }
  }
}
