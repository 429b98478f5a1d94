/** What the files of a running system hold: the bytes written last, in directories a map of names,
    and no blocks behind the end. */
module History {
  import opened Types
  import opened BlockMap
  import opened Inode
  import opened FileBytes
  import opened FileSystem
  import opened Directory
  import opened Links

  // ----- The bytes written last -----

  /** A store of data in inode n from position start, or inode n made empty. */
  datatype Change = Put(n: int, start: int, data: seq<Byte>) | Emptied(n: int)

  /** The change decides byte p of inode n. */
  predicate Decides(c: Change, n: int, p: int) {
    c.n == n && (c.Put? ==> 0 <= Ahead(p, c.start, false) < |c.data|)
  }

  function Decided(c: Change, p: int): Byte
    requires Decides(c, c.n, p)
  {
    if c.Put? then c.data[Ahead(p, c.start, false)] else 0
  }

  /** Byte p of inode n after the changes of log, from the latest that decides it. */
  function LastByte(log: seq<Change>, n: int, p: int): Byte {
    if log == [] then 0
    else if Decides(log[|log| - 1], n, p) then Decided(log[|log| - 1], p)
    else LastByte(log[..|log| - 1], n, p)
  }

  /** It is what change i stored, if no later one decides the byte. */
  lemma {:induction false} LastByteIs(log: seq<Change>, n: int, p: int, i: int)
    requires 0 <= i < |log| && Decides(log[i], n, p) && forall j | i < j < |log| :: !Decides(log[j], n, p)
    ensures LastByte(log, n, p) == Decided(log[i], p)
  {
    hide Decides, Decided;
    if i < |log| - 1 {
      LastByteIs(log[..|log| - 1], n, p, i);
    }
  }

  lemma {:induction false} OneMoreChange(log: seq<Change>, c: Change, n: int, p: int)
    ensures LastByte(log + [c], n, p) == if Decides(c, n, p) then Decided(c, p) else LastByte(log, n, p)
  {
    assert (log + [c])[..|log|] == log;
  }

  /** The inode holds these bytes. */
  ghost predicate Recorded(d: Disk, addr: Addr, log: seq<Change>, n: int) {
    forall p | 0 <= p < FILE_MODULUS :: FileByte(d, addr, p) == LastByte(log, n, p)
  }

  lemma {:induction false} RecordedPut(d: Disk, addr: Addr, d': Disk, addr': Addr, log: seq<Change>, n: int, start: int,
      data: seq<Byte>)
    requires Recorded(d, addr, log, n) && Stored(d, addr, d', addr', start, data, false)
    ensures Recorded(d', addr', log + [Put(n, start, data)], n)
  {
    hide FileByte, Ahead, LastByte;
    forall p | 0 <= p < FILE_MODULUS
      ensures FileByte(d', addr', p) == LastByte(log + [Put(n, start, data)], n, p)
    {
      OneMoreChange(log, Put(n, start, data), n, p);
    }
  }

  lemma {:induction false} RecordedEmpty(d: Disk, log: seq<Change>, n: int)
    ensures Recorded(d, NO_BLOCKS, log + [Emptied(n)], n)
  {
    hide LastByte;
    forall p | 0 <= p < FILE_MODULUS
      ensures FileByte(d, NO_BLOCKS, p) == LastByte(log + [Emptied(n)], n, p)
    {
      OneMoreChange(log, Emptied(n), n, p);
      EmptyByte(d, p);
    }
  }

  lemma {:induction false} EmptyByte(d: Disk, p: int)
    requires 0 <= p < FILE_MODULUS
    ensures FileByte(d, NO_BLOCKS, p) == 0
  {
    assert Lookup(d, NO_BLOCKS, p / 512) == 0;
  }

  /** Changes of other inodes. */
  lemma {:induction false} RecordedOther(
      d: Disk, addr: Addr, d': Disk, addr': Addr, log: seq<Change>, log': seq<Change>, n: int)
    requires Recorded(d, addr, log, n) && SameBytes(d, addr, d', addr') && OnlyAbout(log, log', n)
    ensures Recorded(d', addr', log', n)
  {
    hide FileByte, LastByte;
    forall p | 0 <= p < FILE_MODULUS
      ensures LastByte(log', n, p) == LastByte(log, n, p)
    {
      SameLastByte(log, log', n, p);
    }
  }

  /** log' goes on from log, with changes of other inodes than n. */
  ghost predicate OnlyAbout(log: seq<Change>, log': seq<Change>, n: int) {
    log <= log' && forall i | |log| <= i < |log'| :: log'[i].n != n
  }

  lemma {:induction false} SameLastByte(log: seq<Change>, log': seq<Change>, n: int, p: int)
    requires OnlyAbout(log, log', n)
    ensures LastByte(log', n, p) == LastByte(log, n, p)
    decreases |log'|
  {
    if |log| < |log'| {
      SameLastByte(log, log'[..|log'| - 1], n, p);
    } else {
      assert log' == log;
    }
  }

  // ----- Extent -----

  /** No block is stored in inode n. */
  ghost predicate OwnsNothing(d: Disk, ino: seq<Addr>, n: int) {
    forall p: Pos | ValidPos(ino, p) && p.n == n :: PtrAt(d, ino, p) == 0
  }

  lemma {:induction false} EmptyOwnsNothing(d: Disk, ino: seq<Addr>, n: int)
    requires 0 <= n < |ino| && ino[n] == NO_BLOCKS
    ensures OwnsNothing(d, ino, n)
  {
  }

  lemma {:induction false} OwnsNothingStays(d: Disk, ino: seq<Addr>, d': Disk, ino': seq<Addr>, ex: set<int>, n: int)
    requires OtherFiles(d, ino, d', ino', ex) && n !in ex && OwnsNothing(d, ino, n)
    ensures OwnsNothing(d', ino', n)
  {
    hide PtrAt, FileBlock;
    assert forall p: Pos :: ValidPos(ino', p) == ValidPos(ino, p);
  }

  /** A file has data blocks up to the one its size is in, and nothing else has any. */
  ghost predicate Extent(d: Disk, ino: seq<Addr>, node: Dinode, n: int) {
    if IsFile(node) then node.sizeBlk < 0xFFFF && Within(d, ino, n, node.sizeBlk + 1) else OwnsNothing(d, ino, n)
  }

  // ----- Files -----

  /** What is known of inode n, which is not a pipe. ranged says that no write has gone beyond the
      sizes that fsck can follow. */
  ghost predicate FileGood(d: Disk, ino: seq<Addr>, node: Dinode, n: int, log: seq<Change>, ranged: bool) {
    && 0 <= n < |ino| && ino[n] == node.addr && node.sizeOff < 512 && !IsPipe(node)
    && Recorded(d, node.addr, log, n)
    && (n == ROOTINODE ==> Getmode(node.mode) == F_DIR)
    && (Getmode(node.mode) == F_DIR ==>
          node.nlink != 0 && GoodDirectory(d, node) && UniqueNames(EntriesOf(d, node.addr)))
    && (ranged ==> Extent(d, ino, node, n))
  }

  /** The inodes outside special, which are not pipes. */
  ghost predicate FilesGood(d: Disk, ino: seq<Addr>, tab: seq<Cinode>, special: set<int>, log: seq<Change>,
      ranged: bool) {
    forall n: Word | 0 < n < |ino| && n as int !in special :: FileGood(d, ino, Current(d, tab, n), n, log, ranged)
  }

  lemma {:induction false} FileStays(
      d: Disk, ino: seq<Addr>, d': Disk, ino': seq<Addr>, ex: set<int>, node: Dinode, n: int,
      log: seq<Change>, log': seq<Change>, ranged: bool, ranged': bool)
    requires OtherFiles(d, ino, d', ino', ex) && n !in ex && FileGood(d, ino, node, n, log, ranged)
             && OnlyAbout(log, log', n)
    requires ranged' ==> ranged
    ensures FileGood(d', ino', node, n, log', ranged')
  {
    hide Recorded, GoodDirectory, UniqueNames, Within, OwnsNothing, FileBlock, PtrAt, OnlyAbout, SameBytes, SameEntries;
    BytesStay(d, ino, d', ino', ex, n);
    hide OtherFiles;
    RecordedOther(d, node.addr, d', node.addr, log, log', n);
    if Getmode(node.mode) == F_DIR {
      DirectoryStays(d, ino, d', ino', ex, n, node);
      SameMap(d, node.addr, d', node.addr);
    }
    if ranged {
      if IsFile(node) {
        WithinStays(d, ino, d', ino', ex, n, node.sizeBlk + 1);
      } else {
        OwnsNothingStays(d, ino, d', ino', ex, n);
      }
    }
  }

  /** A step that changes the inodes in ex. */
  lemma {:induction false} FilesAfter(
      d: Disk, ino: seq<Addr>, tab: seq<Cinode>, d': Disk, ino': seq<Addr>, tab': seq<Cinode>, ex: set<int>,
      special: set<int>, special': set<int>, log: seq<Change>, log': seq<Change>, ranged: bool, ranged': bool)
    requires FilesGood(d, ino, tab, special, log, ranged) && Untouched(d, ino, tab, d', ino', tab', ex)
    requires log <= log' && (forall i | |log| <= i < |log'| :: log'[i].n in ex) && (ranged' ==> ranged)
    requires forall n | n in special :: n in special' || n in ex
    requires forall n: Word | 0 < n < |ino| && n as int in ex && n as int !in special' ::
               FileGood(d', ino', Current(d', tab', n), n, log', ranged')
    ensures FilesGood(d', ino', tab', special', log', ranged')
  {
    hide FileGood, Current, OtherFiles;
    OtherFilesSize(d, ino, d', ino', ex);
    forall n: Word | 0 < n < |ino| && n as int !in special'
      ensures FileGood(d', ino', Current(d', tab', n), n, log', ranged')
    {
      if n as int !in ex {
        assert Current(d', tab', n) == Current(d, tab, n);
        FileStays(d, ino, d', ino', ex, Current(d, tab, n), n, log, log', ranged, ranged');
      }
    }
  }

  /** A write to a regular file. */
  lemma {:induction false} PutGood(
      d: Disk, ino: seq<Addr>, node: Dinode, d': Disk, ino': seq<Addr>, node': Dinode, n: int,
      start: int, done: int, data: seq<Byte>, log: seq<Change>, ranged: bool, ranged': bool)
    requires FileGood(d, ino, node, n, log, ranged) && Getmode(node.mode) == F_REG
    requires Wrote(d, ino, d', ino', n, start, done, data, false) && ino'[n] == node'.addr
    requires node'.mode == node.mode && node'.sizeOff < 512 && 0 <= start
    requires ranged' ==>
               && ranged && start + done < 512 * 0xFFFF
               && Position(SizeOf(node')) == Larger(Position(SizeOf(node)), start + done)
    ensures FileGood(d', ino', node', n, log + [Put(n, start, data[..done])], ranged')
  {
    hide Recorded, Wrote, Within, OwnsNothing, GoodDirectory, Stored;
    WroteStored(d, ino, d', ino', n, start, done, data, false);
    RecordedPut(d, node.addr, d', node'.addr, log, n, start, data[..done]);
    if ranged' {
      SizesGrow(node, node', start + done);
      WrittenWithin(d, ino, d', ino', n, start, done, data, node.sizeBlk + 1, node'.sizeBlk + 1);
    }
  }

  lemma {:induction false} SizesGrow(n: Dinode, n': Dinode, end: int)
    requires n.sizeOff < 512 && n'.sizeOff < 512 && n.sizeBlk < 0xFFFF && 0 <= end < 512 * 0xFFFF
    requires Position(SizeOf(n')) == Larger(Position(SizeOf(n)), end)
    ensures n.sizeBlk <= n'.sizeBlk < 0xFFFF && end <= 512 * (n'.sizeBlk + 1) <= FILE_MODULUS
  {
  }

  /** An inode that has become empty and is no directory. */
  lemma {:induction false} EmptyGood(
      d: Disk, ino: seq<Addr>, node: Dinode, n: int, log: seq<Change>, ranged: bool)
    requires 0 < n < |ino| && n != ROOTINODE && ino[n] == node.addr == NO_BLOCKS && node.sizeOff == 0
             && node.sizeBlk == 0
    requires Getmode(node.mode) != F_DIR && !IsPipe(node)
    ensures FileGood(d, ino, node, n, log + [Emptied(n)], ranged)
  {
    hide Recorded, Within, OwnsNothing, GoodDirectory;
    RecordedEmpty(d, log, n);
    EmptyOwnsNothing(d, ino, n);
    WithinNothing(d, ino, n, 1);
  }

  /** A directory in which an entry was put. */
  lemma {:induction false} EntryGood(
      d: Disk, ino: seq<Addr>, node: Dinode, d': Disk, ino': seq<Addr>, node': Dinode, n: int, ok: bool,
      oldname: seq<Byte>, e: seq<Byte>, k: int, log: seq<Change>, ranged: bool)
    requires FileGood(d, ino, node, n, log, ranged) && Getmode(node.mode) == F_DIR && node.sizeBlk < 0x7FFE
    requires EntryPut(d, ino, node, d', ino', node', n, ok, oldname, e, k)
    requires |e| == ENTRY && (ok ==> NameIsNew(EntriesOf(d, node.addr), oldname, EntryName(e)))
    ensures FileGood(d', ino', node', n, log + [Put(n, ENTRY * k, if ok then e else [])], ranged)
  {
    hide Recorded, Within, OwnsNothing, Stored, UniqueNames, NameIsNew, EntryName, LinkedSize, SameEntries, Number;
    hide FileByte, Lookup;
    RecordedPut(d, node.addr, d', node'.addr, log, n, ENTRY * k, if ok then e else []);
    if !ok {
      SameMap(d, node.addr, d', node'.addr);
    }
  }

  /** A new inode, empty and of no directory yet, and the directory that newfile enters it in. */
  lemma {:induction false} NewfileGood(
      d: Disk, ino: seq<Addr>, node: Dinode, d': Disk, ino': seq<Addr>, node': Dinode, dir: int, num: int, file: Dinode,
      ok: bool, e: seq<Byte>, k: int, log: seq<Change>, ranged: bool)
    requires FileGood(d, ino, node, dir, log, ranged) && Getmode(node.mode) == F_DIR && node.sizeBlk < 0x7FFE
    requires EntryPut(d, ino, node, d', ino', node', dir, ok, [], e, k)
    requires |e| == ENTRY && (ok ==> NameIsNew(EntriesOf(d, node.addr), [], EntryName(e)))
    requires ROOTINODE < num < |ino| == |ino'| && num != dir && NewFileNode(file) && ino'[num] == file.addr
    ensures var log' := log + [Emptied(num)] + [Put(dir, ENTRY * k, if ok then e else [])];
            && FileGood(d', ino', node', dir, log', ranged) && FileGood(d', ino', file, num, log', ranged)
  {
    hide FileGood, EntryPut, NameIsNew, EntryName;
    var log1 := log + [Emptied(num)];
    var log2 := log1 + [Put(dir, ENTRY * k, if ok then e else [])];
    OtherFilesRefl(d, ino, {num});
    FileStays(d, ino, d, ino, {num}, node, dir, log, log1, ranged, ranged);
    EntryGood(d, ino, node, d', ino', node', dir, ok, [], e, k, log1, ranged);
    EmptyGood(d', ino', file, num, log, ranged);
    OtherFilesRefl(d', ino', {dir});
    FileStays(d', ino', d', ino', {dir}, file, num, log1, log2, ranged, ranged);
  }

  /** A file that lost a link and kept its contents. */
  lemma {:induction false} RelinkedGood(
      d: Disk, ino: seq<Addr>, node: Dinode, d': Disk, ino': seq<Addr>, node': Dinode, n: int, ex: set<int>,
      log: seq<Change>, log': seq<Change>, ranged: bool)
    requires FileGood(d, ino, node, n, log, ranged) && Getmode(node.mode) == F_REG
    requires OtherFiles(d, ino, d', ino', ex) && n !in ex && OnlyAbout(log, log', n)
    requires node' == node.(nlink := node'.nlink)
    ensures FileGood(d', ino', node', n, log', ranged)
  {
    FileStays(d, ino, d', ino', ex, node, n, log, log', ranged, ranged);
    hide Recorded, Within, OwnsNothing, GoodDirectory, OtherFiles;
  }

  /** A change of another inode says nothing of n. */
  lemma {:induction false} OneAbout(log: seq<Change>, c: Change, n: int)
    requires c.n != n
    ensures OnlyAbout(log, log + [c], n)
  {
  }
}
