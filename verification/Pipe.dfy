/** A pipe with one process at each end (the pipe half of readi and writei in kernel/scall1.c,
    psleep and wakeup in kernel/process.c, i_deref in fs/filesys.c). Kernel code runs until it
    sleeps, so an interleaving of the two processes is a sequence of the calls below. */
module Pipe {
  import opened Types
  import opened BufferCache
  import opened FreeOrder
  import opened BlockMap
  import opened Volume
  import opened Inode
  import opened FileBytes
  import opened FileSystem
  import opened InodeTable

  const PIPE_SIZE := 8192
  const RING := 9216

  /** The state of the process at one end. */
  datatype End = Awake | Asleep | Closed

  // ----- The ring -----

  /** The bytes sent but not yet received are in the ring. */
  ghost predicate Unread(d: Disk, addr: Addr, sent: seq<Byte>, got: int) {
    0 <= got <= |sent| && forall k | got <= k < |sent| :: FileByte(d, addr, k % RING) == sent[k]
  }

  lemma {:induction false} RingAhead(k: int, w: int)
    ensures 0 <= k - w < RING ==> (k % RING - w % RING) % RING == k - w
    ensures -RING <= k - w < 0 ==> (k % RING - w % RING) % RING == k - w + RING
  {
    var q := k / RING - w / RING;
    assert k % RING - w % RING == (k - w) - RING * q;
    RingMod(k - w, q);
  }

  lemma {:induction false} RingMod(x: int, q: int)
    ensures (x - RING * q) % RING == x % RING
  {
  }

  /** A read takes the next bytes in the order they were sent. */
  lemma {:induction false} ReadTakesNext(
      mem: seq<Byte>, was: seq<Byte>, base: int, n: int, d: Disk, addr: Addr, start: int, sent: seq<Byte>, got: int)
    requires Filled(mem, was, base, n, d, addr, start, true) && start == got % RING
    requires Unread(d, addr, sent, got) && got + n <= |sent|
    ensures mem[base..base + n] == sent[got..got + n] && Unread(d, addr, sent, got + n)
  {
    hide FileByte;
    forall j | base <= j < base + n
      ensures mem[j] == sent[got + (j - base)]
    {
      var i := j - base;
      RingMod(start + i, -(got / RING));
      assert start + i + RING * (got / RING) == got + i;
      assert mem[j] == FileByte(d, addr, (start + i) % Modulus(true));
    }
  }

  /** A write appends to what is unread and overwrites none of it. */
  lemma {:induction false} WriteAppends(
      d: Disk, ino: seq<Addr>, d': Disk, ino': seq<Addr>, n: int, start: int, done: int, data: seq<Byte>,
        sent: seq<Byte>, got: int)
    requires Wrote(d, ino, d', ino', n, start, done, data, true) && start == |sent| % RING
    requires Unread(d, ino[n], sent, got) && |sent| - got + done <= PIPE_SIZE
    ensures Unread(d', ino'[n], sent + data[..done], got)
  {
    hide FileByte;
    var sent' := sent + data[..done];
    forall k | got <= k < |sent'|
      ensures FileByte(d', ino'[n], k % RING) == sent'[k]
    {
      var p := k % RING;
      RingAhead(k, |sent|);
      assert Ahead(p, start, true) == if k >= |sent| then k - |sent| else k - |sent| + RING;
      assert FileByte(d', ino'[n], p) ==
             if p < Modulus(true) && Ahead(p, start, true) < done then data[Ahead(p, start, true)]
               else FileByte(d, ino[n], p);
    }
  }

  // ----- Frames -----

  lemma {:induction false} ShrunkSlot(tab: seq<Cinode>, tab': seq<Cinode>, ip: int, n: int)
    requires ShrunkBy(tab, tab', ip, n)
    ensures SameSlot(tab, tab', ip) && tab'[ip].node.addr == tab[ip].node.addr
    ensures GoodOff(Getsize(tab'[ip])) && Position(Getsize(tab'[ip])) == Position(Getsize(tab[ip])) - n
  {
  }

  lemma {:induction false} SameBlocks(d: Disk, ino: seq<Addr>)
    ensures SameInodeBlocks(d, d, ino)
  {
  }

  /** What a write leaves of the inode: the pipe stays within its direct blocks. */
  lemma {:induction false} WroteAddresses(
      d: Disk, ino: seq<Addr>, d': Disk, ino': seq<Addr>, n: int, start: int, done: int, data: seq<Byte>)
    requires Wrote(d, ino, d', ino', n, start, done, data, true)
    ensures SameInodeBlocks(d, d', ino) && |ino'| == |ino| && 0 <= n < |ino| && done <= |data|
    ensures ino'[n][18] == ino[n][18] && ino'[n][19] == ino[n][19]
  {
  }

  /** The two ends of the pipe in slot ip as values. */
  datatype Ends = Ends(ip: int, reader: End, writer: End, readPtr: Off, writePtr: Off, wanted: Word, sent: seq<Byte>,
                       got: int)

  function RefOf(e: End): int {
    if e.Closed? then 0 else 1
  }

  /** The inode, the ring and the ends of a pipe fit together. */
  ghost predicate GoodPipeEnds(d: Disk, tab: seq<Cinode>, p: Ends) {
    && 0 <= p.ip < |tab| && tab[p.ip].num != 0 && tab[p.ip].num != ROOTINODE
    && InPipe(tab[p.ip].node) && tab[p.ip].refs == RefOf(p.reader) + RefOf(p.writer) >= 1
    && Unread(d, tab[p.ip].node.addr, p.sent, p.got)
    && Pointers(tab[p.ip].node, p.readPtr, p.writePtr, |p.sent|, p.got)
    && Sleeping(p.reader, p.writer, |p.sent| - p.got, p.wanted)
  }

  class PipePair {
    const tab: Inodes
    const ip: int
    var reader: End
    var writer: End
    var readPtr: Off        // o_ptr of the file entry open for reading
    var writePtr: Off       // and of the one open for writing
    var wanted: Word        // what a sleeping writer wants to write
    ghost var sent: seq<Byte>
    ghost var got: int      // how many of these were received

    ghost function Repr(): set<object>
    {
      {this, tab, tab.sinode} + tab.fs.Repr()
    }

    /** How many of the two ends are open. */
    function Users(): int
      reads this
    {
      (if reader.Closed? then 0 else 1) + (if writer.Closed? then 0 else 1)
    }

    ghost predicate Valid()
      reads this, tab, tab.sinode, tab.fs, tab.fs.itab, tab.fs.vol, tab.fs.vol.free, tab.fs.vol.cache,
            tab.fs.vol.cache.pool
    {
      && tab.Ready() && tab.fs.Open(ip) && this !in {tab, tab.sinode} + tab.fs.Repr()
      && InPipe(tab.fs.itab[ip].node) && tab.fs.itab[ip].refs == Users() >= 1 && tab.fs.itab[ip].num != ROOTINODE
      && Unread(tab.fs.vol.disk, tab.fs.itab[ip].node.addr, sent, got)
      && Pointers(tab.fs.itab[ip].node, readPtr, writePtr, |sent|, got)
      && Sleeping(reader, writer, |sent| - got, wanted)
    }

    ghost function State(): Ends
      reads this
    {
      Ends(ip, reader, writer, readPtr, writePtr, wanted, sent, got)
    }

    lemma ValidIs()
      ensures Valid() <==>
              && tab.Ready() && this !in {tab, tab.sinode} + tab.fs.Repr()
              && GoodPipeEnds(tab.fs.vol.disk, tab.fs.itab[..], State())
    {
      hide Inodes.Valid, FileSys.Valid, Inodes.Ready, Unread, InPipe, Pointers, Sleeping;
      if 0 <= ip < tab.fs.itab.Length {
        assert tab.fs.itab[..][ip] == tab.fs.itab[ip];
      }
    }

    /** The state that _pipe sets up. */
    constructor (tab: Inodes, ip: int)
      requires tab.Ready() && tab.fs.Open(ip) && InPipe(tab.fs.itab[ip].node) && tab.fs.itab[ip].refs == 2
      requires tab.fs.itab[ip].node.sizeBlk == 0 && tab.fs.itab[ip].node.sizeOff == 0
               && tab.fs.itab[ip].num != ROOTINODE
      ensures Valid() && this.tab == tab && this.ip == ip && sent == [] && got == 0
      ensures reader == Awake && writer == Awake
    {
      this.tab, this.ip := tab, ip;
      reader, writer := Awake, Awake;
      readPtr, writePtr := Off(0, 0), Off(0, 0);
      wanted, sent, got := 0, [], 0;
    }

    /** Wakeup on the inode. */
    method Wakeup()
      modifies `reader, `writer
      ensures reader == if old(reader).Asleep? then Awake else old(reader)
      ensures writer == if old(writer).Asleep? then Awake else old(writer)
    {
      if reader.Asleep? {
        reader := Awake;
      }
      if writer.Asleep? {
        writer := Awake;
      }
    }

    /** A signal ends the sleep of the process at one end, which goes round its loop again. */
    method Interrupt(atReader: bool, atWriter: bool)
      requires Valid()
      modifies `reader, `writer
      ensures Valid()
      ensures reader == if atReader && old(reader).Asleep? then Awake else old(reader)
      ensures writer == if atWriter && old(writer).Asleep? then Awake else old(writer)
    {
      hide Inodes.Ready, FileSys.Open, Unread, InPipe, Pointers;
      if atReader && reader.Asleep? {
        reader := Awake;
      }
      if atWriter && writer.Asleep? {
        writer := Awake;
      }
    }

    /** One attempt to read: what a process does from the start of readi, or from its return
        from psleep, until it sleeps or is done. */
    method Read(mem: array<Byte>, base: int, count: Word) returns (n: int)
      requires Valid() && reader.Awake? && mem !in Repr() && count <= 0x7FFF && 0 <= base && base + count <= mem.Length
      modifies this, tab.fs, tab.fs.itab, tab.fs.vol.Repr(), mem
      ensures Valid() && sent == old(sent) && writePtr == old(writePtr) && wanted == old(wanted)
      ensures OnlyFile(old(tab.fs.vol.disk), old(tab.fs.layout.ino), old(tab.fs.itab[..]),
                           tab.fs.vol.disk, tab.fs.layout.ino, tab.fs.itab[..], ip)
                             && tab.fs.vol.disk == old(tab.fs.vol.disk)
      ensures reader == if old(got) == |sent| && !old(writer).Closed? then Asleep else Awake
      ensures reader.Asleep? ==>
                && mem[..] == old(mem[..]) && got == old(got) && writer == old(writer)
                && tab.fs.itab[..] == old(tab.fs.itab[..])
      ensures reader.Awake? ==>
                && n == Lesser(count, |sent| - old(got)) && got == old(got) + n
                && mem[base..base + n] == sent[old(got)..got]
                && (forall i | 0 <= i < mem.Length && !(base <= i < base + n) :: mem[i] == old(mem[i]))
                && writer == (if n > 0 && old(writer).Asleep? then Awake else old(writer))
    {
      hide GoodLayout, GoodFreeList, Consistent, OtherDevices, GoodNumbers, TableUses, Filled, Unread, SameSlot;
      hide OnlyFile, Inodes.Valid, FileSys.Valid, Inodes.Ready;
      hide InPipe, Pointers, SizeOf, Position, GoodOff;
      ghost var d, node, was := tab.fs.vol.disk, tab.fs.itab[ip].node, mem[..];
      PointersOf(node, readPtr, writePtr, |sent|, got);
      var w := tab.fs.wakeups;
      var sleep;
      sleep, n := Receive(mem, base, count);
      SameSlotKind(old(tab.fs.itab[..]), tab.fs.itab[..], ip);
      if sleep {
        reader := Asleep;
      } else {
        ReadTakesNext(mem[..], was, base, n, d, node.addr, Position(readPtr), sent, got);
        ReadPointer(node, tab.fs.itab[ip].node, readPtr, tab.fs.uOffset, writePtr, |sent|, got, n);
        FilledOnly(mem[..], was, base, n, d, node.addr, Position(readPtr));
        readPtr := tab.fs.uOffset;
        got := got + n;
        if tab.fs.wakeups > w {
          Wakeup();
        }
      }
    }

    /** Readi on the pipe, from the reader's file pointer. */
    method Receive(mem: array<Byte>, base: int, count: Word) returns (sleep: bool, n: int)
      requires tab.Ready() && tab.fs.Open(ip) && this !in {tab, tab.sinode} + tab.fs.Repr()
               && InPipe(tab.fs.itab[ip].node)
      requires GoodPipe(tab.fs.itab[ip].node, readPtr) && GoodOff(readPtr) && GoodOff(SizeOf(tab.fs.itab[ip].node))
      requires mem !in Repr() && count <= 0x7FFF && 0 <= base && base + count <= mem.Length
      modifies tab.fs, tab.fs.itab, tab.fs.vol.Repr(), mem
      ensures tab.Ready() && tab.fs.vol.disk == old(tab.fs.vol.disk)
              && SameSlot(old(tab.fs.itab[..]), tab.fs.itab[..], ip)
      ensures OnlyFile(old(tab.fs.vol.disk), old(tab.fs.layout.ino), old(tab.fs.itab[..]),
                           tab.fs.vol.disk, tab.fs.layout.ino, tab.fs.itab[..], ip)
      ensures tab.fs.itab[ip].node.addr == old(tab.fs.itab[ip].node.addr)
      ensures sleep <==> old(Position(SizeOf(tab.fs.itab[ip].node))) == 0 && old(tab.fs.itab[ip].refs) != 1
      ensures sleep ==> n == 0 && mem[..] == old(mem[..]) && tab.fs.itab[..] == old(tab.fs.itab[..])
      ensures !sleep ==>
                && n == Lesser(count, old(Position(SizeOf(tab.fs.itab[ip].node))))
                && GoodOff(SizeOf(tab.fs.itab[ip].node))
                && Position(SizeOf(tab.fs.itab[ip].node)) == old(Position(SizeOf(tab.fs.itab[ip].node))) - n
                && Filled(mem[..], old(mem[..]), base, n, tab.fs.vol.disk, tab.fs.itab[ip].node.addr, Position(readPtr),
                          true)
                && GoodOff(tab.fs.uOffset) && tab.fs.uOffset.blkno < 18
                && Position(tab.fs.uOffset) == (Position(readPtr) + n) % RING
                && (tab.fs.wakeups > old(tab.fs.wakeups) <==> n > 0)
    {
      hide GoodLayout, GoodFreeList, Consistent, OtherDevices, GoodNumbers, TableUses, Filled, ShrunkBy, SameSlot;
      hide OnlyFile;
      hide SizeOf, Position, GoodOff;
      var fs := tab.fs;
      ghost var d, m, t := fs.vol.disk, fs.layout, fs.itab[..];
      fs.uBase, fs.uCount, fs.uOffset := base, count, readPtr;
      sleep := fs.Readi(ip, mem);
      n := if sleep then 0 else fs.uCount;
      if sleep {
        SameSlotRefl(t, ip);
      } else {
        ShrunkSlot(t, fs.itab[..], ip, n);
      }
      SameBlocks(d, m.ino);
      SlotMoved(d, m, t, fs.layout, fs.itab[..], fs.vol.isize, fs.vol.fsize, ip);
      TransferKeepsNumbers(d, d, m, t, fs.itab[..], fs.vol.isize, fs.vol.fsize, tab.ninode, tab.sinode[..], tab.tinode,
                           tab.pending, tab.exact, ip);
    }

    /** One attempt to write, from the start of writei or from its return from psleep. -1 is
        the result without a reader, with SIGPIPE sent. */
    method Write(mem: array<Byte>, base: int, count: Word) returns (n: int, sigpipe: bool)
      requires Valid() && writer.Awake? && mem !in Repr() && 0 <= base && base + count <= mem.Length
      modifies this, tab.fs, tab.fs.itab, tab.fs.vol.Repr()
      ensures Valid() && got == old(got) && readPtr == old(readPtr)
      ensures OnlyFile(old(tab.fs.vol.disk), old(tab.fs.layout.ino), old(tab.fs.itab[..]),
                           tab.fs.vol.disk, tab.fs.layout.ino, tab.fs.itab[..], ip)
      ensures count > PIPE_SIZE - (|old(sent)| - got) ==>
                && sent == old(sent) && reader == old(reader) && tab.fs.itab[..] == old(tab.fs.itab[..])
                && (if reader.Closed? then writer.Awake? && n == -1 && sigpipe && tab.fs.vol.error == EPIPE
                    else writer.Asleep? && wanted == count && n == 0 && !sigpipe)
      ensures count <= PIPE_SIZE - (|old(sent)| - got) ==>
                && writer.Awake? && !sigpipe && 0 <= n <= count && sent == old(sent) + mem[base..base + n]
                && (n < count ==> tab.fs.vol.stack == [] && tab.fs.vol.error == ENOSPC)
                && reader == (if n > 0 && old(reader).Asleep? then Awake else old(reader))
    {
      hide GoodLayout, GoodFreeList, Consistent, OtherDevices, GoodNumbers, TableUses, Wrote, Unread, SameSlot;
      hide OnlyFile, Inodes.Valid, FileSys.Valid, Inodes.Ready;
      hide InPipe, Pointers, SizeOf, Position, GoodOff;
      ghost var d, ino, node, num := tab.fs.vol.disk, tab.fs.layout.ino, tab.fs.itab[ip].node, tab.fs.itab[ip].num;
      PointersOf(node, readPtr, writePtr, |sent|, got);
      var w := tab.fs.wakeups;
      var sleep;
      sleep, sigpipe, n := Send(mem, base, count);
      SameSlotKind(old(tab.fs.itab[..]), tab.fs.itab[..], ip);
      if sleep {
        writer, wanted := Asleep, count;
      } else if !sigpipe {
        ghost var data := mem[base..base + count];
        WriteAppends(d, ino, tab.fs.vol.disk, tab.fs.layout.ino, num, Position(writePtr), n, data, sent, got);
        WritePointer(node, tab.fs.itab[ip].node, readPtr, writePtr, tab.fs.uOffset, |sent|, got, n);
        writePtr := tab.fs.uOffset;
        assert data[..n] == mem[base..base + n];
        sent := sent + data[..n];
        assert Unread(tab.fs.vol.disk, tab.fs.itab[ip].node.addr, sent, got);
        assert Pointers(tab.fs.itab[ip].node, readPtr, writePtr, |sent|, got);
        if tab.fs.wakeups > w {
          Wakeup();
        }
      }
    }

    /** Writei on the pipe, from the writer's file pointer. */
    method Send(mem: array<Byte>, base: int, count: Word) returns (sleep: bool, sigpipe: bool, n: int)
      requires tab.Ready() && tab.fs.Open(ip) && this !in {tab, tab.sinode} + tab.fs.Repr()
               && InPipe(tab.fs.itab[ip].node)
      requires GoodPipe(tab.fs.itab[ip].node, writePtr) && GoodOff(writePtr) && GoodOff(SizeOf(tab.fs.itab[ip].node))
      requires mem !in Repr() && 0 <= base && base + count <= mem.Length
      modifies tab.fs, tab.fs.itab, tab.fs.vol.Repr()
      ensures tab.Ready() && SameSlot(old(tab.fs.itab[..]), tab.fs.itab[..], ip)
      ensures OnlyFile(old(tab.fs.vol.disk), old(tab.fs.layout.ino), old(tab.fs.itab[..]),
                           tab.fs.vol.disk, tab.fs.layout.ino, tab.fs.itab[..], ip)
      ensures old(tab.fs.itab[ip].num) < |old(tab.fs.layout.ino)|
              && old(tab.fs.layout.ino[tab.fs.itab[ip].num]) == old(tab.fs.itab[ip].node.addr)
      ensures count > PIPE_SIZE - old(Position(SizeOf(tab.fs.itab[ip].node))) ==>
                && tab.fs.vol.disk == old(tab.fs.vol.disk) && tab.fs.itab[..] == old(tab.fs.itab[..])
                && sleep == (old(tab.fs.itab[ip].refs) != 1) && sigpipe == !sleep
                && (sigpipe ==> n == -1 && tab.fs.vol.error == EPIPE)
                && (sleep ==> n == 0)
      ensures count <= PIPE_SIZE - old(Position(SizeOf(tab.fs.itab[ip].node))) ==>
                && !sleep && !sigpipe && 0 <= n <= count
                && (n < count ==> tab.fs.vol.stack == [] && tab.fs.vol.error == ENOSPC)
                && GoodOff(SizeOf(tab.fs.itab[ip].node))
                && Position(SizeOf(tab.fs.itab[ip].node)) == old(Position(SizeOf(tab.fs.itab[ip].node))) + n
                && tab.fs.itab[ip].num < |tab.fs.layout.ino|
                && tab.fs.itab[ip].node.addr == tab.fs.layout.ino[tab.fs.itab[ip].num]
                && Wrote(old(tab.fs.vol.disk), old(tab.fs.layout.ino), tab.fs.vol.disk, tab.fs.layout.ino,
                         old(tab.fs.itab[ip].num),
                         Position(writePtr), n, mem[base..base + count], true)
                && tab.fs.itab[ip].node.addr[18] == 0 && tab.fs.itab[ip].node.addr[19] == 0
                && GoodOff(tab.fs.uOffset) && tab.fs.uOffset.blkno < 18
                && Position(tab.fs.uOffset) == (Position(writePtr) + n) % RING
                && (tab.fs.wakeups > old(tab.fs.wakeups) <==> n > 0)
    {
      hide GoodLayout, GoodFreeList, Consistent, OtherDevices, GoodNumbers, TableUses, Wrote, SameSlot, OnlyFile;
      hide SizeOf, Position, GoodOff;
      var fs := tab.fs;
      ghost var d, m, t := fs.vol.disk, fs.layout, fs.itab[..];
      SlotOfTable(d, m, t, fs.vol.isize, fs.vol.fsize, ip);
      fs.uBase, fs.uCount, fs.uOffset := base, count, writePtr;
      sleep, sigpipe := fs.Writei(ip, mem);
      n := if sigpipe then -1 else if sleep then 0 else fs.uBase - base;
      if sleep || sigpipe {
        SameSlotRefl(t, ip);
        SameBlocks(d, m.ino);
        SlotMoved(d, m, t, fs.layout, fs.itab[..], fs.vol.isize, fs.vol.fsize, ip);
      } else {
        FileWritten(d, m, t, fs.vol.disk, fs.layout, fs.itab[..], fs.vol.isize, fs.vol.fsize, ip, Position(writePtr), n,
                    mem[base..base + count], true);
        WroteAddresses(d, m.ino, fs.vol.disk, fs.layout.ino, t[ip].num, Position(writePtr), n, mem[base..base + count]);
        SameSlotKind(t, fs.itab[..], ip);
        SlotOfTable(fs.vol.disk, fs.layout, fs.itab[..], fs.vol.isize, fs.vol.fsize, ip);
      }
      TransferKeepsNumbers(d, fs.vol.disk, m, t, fs.itab[..], fs.vol.isize, fs.vol.fsize, tab.ninode, tab.sinode[..],
                           tab.tinode, tab.pending, tab.exact, ip);
    }

    /** Closing the read end while the other is open. The wakeup comes before the reference is
        dropped, so a sleeping writer runs again and finds itself alone. */
    method CloseReader()
      requires Valid() && reader.Awake? && !writer.Closed?
      modifies this, tab, tab.sinode, tab.fs, tab.fs.itab, tab.fs.vol.Repr()
      ensures Valid() && reader.Closed? && writer.Awake? && sent == old(sent) && got == old(got)
      ensures tab.fs.vol.disk == old(tab.fs.vol.disk) && tab.fs.layout == old(tab.fs.layout)
              && tab.pending == old(tab.pending) && tab.exact == old(tab.exact)
      ensures |tab.fs.itab[..]| == ITABSIZE && forall s | 0 <= s < ITABSIZE
              && s != ip :: tab.fs.itab[s] == old(tab.fs.itab[s])
      ensures tab.fs.itab[ip] == old(tab.fs.itab[ip]).(refs := 1)
      ensures Untouched(old(tab.fs.vol.disk), old(tab.fs.layout.ino), old(tab.fs.itab[..]),
                        tab.fs.vol.disk, tab.fs.layout.ino, tab.fs.itab[..], {})
    {
      hide GoodLayout, GoodFreeList, Consistent, OtherDevices, GoodNumbers, TableUses, Unread, Inodes.Valid;
      hide FileSys.Valid, InPipe, Pointers, Untouched;
      PipeIsPipe(tab.fs.itab[ip].node);
      Wakeup();
      tab.IDeref(ip);
      reader := Closed;
    }

    /** Closing the write end while the other is open. */
    method CloseWriter()
      requires Valid() && writer.Awake? && !reader.Closed?
      modifies this, tab, tab.sinode, tab.fs, tab.fs.itab, tab.fs.vol.Repr()
      ensures Valid() && writer.Closed? && reader.Awake? && sent == old(sent) && got == old(got)
      ensures tab.fs.vol.disk == old(tab.fs.vol.disk) && tab.fs.layout == old(tab.fs.layout)
              && tab.pending == old(tab.pending) && tab.exact == old(tab.exact)
      ensures |tab.fs.itab[..]| == ITABSIZE && forall s | 0 <= s < ITABSIZE
              && s != ip :: tab.fs.itab[s] == old(tab.fs.itab[s])
      ensures tab.fs.itab[ip] == old(tab.fs.itab[ip]).(refs := 1)
      ensures Untouched(old(tab.fs.vol.disk), old(tab.fs.layout.ino), old(tab.fs.itab[..]),
                        tab.fs.vol.disk, tab.fs.layout.ino, tab.fs.itab[..], {})
    {
      hide GoodLayout, GoodFreeList, Consistent, OtherDevices, GoodNumbers, TableUses, Unread, Inodes.Valid;
      hide FileSys.Valid, InPipe, Pointers, Untouched;
      PipeIsPipe(tab.fs.itab[ip].node);
      Wakeup();
      tab.IDeref(ip);
      writer := Closed;
    }

    /** Closing the last end: the blocks of the ring and the inode number are free again. */
    method CloseLast()
      requires Valid() && Users() == 1 && !reader.Asleep? && !writer.Asleep?
      modifies this, tab, tab.sinode, tab.fs, tab.fs.itab, tab.fs.vol.Repr()
      ensures tab.Ready() && reader.Closed? && writer.Closed?
      ensures tab.fs.vol.stack == old(tab.fs.vol.stack) + Slots(old(tab.fs.vol.disk), old(tab.fs.itab[ip].node.addr), 0)
      ensures |tab.fs.itab[..]| == ITABSIZE && forall s | 0 <= s < ITABSIZE
              && s != ip :: tab.fs.itab[s] == old(tab.fs.itab[s])
      ensures tab.fs.itab[ip].num == old(tab.fs.itab[ip].num) && tab.fs.itab[ip].refs == 0
      ensures LooksFree(tab.fs.itab[ip].node) && IsEmpty(tab.fs.itab[ip].node)
      ensures !InUse(tab.fs.vol.disk, tab.pending, tab.fs.itab[ip].num) && tab.tinode == old(tab.tinode) + 1
      ensures tab.pending <= old(tab.pending) && tab.exact == old(tab.exact)
      ensures Untouched(old(tab.fs.vol.disk), old(tab.fs.layout.ino), old(tab.fs.itab[..]),
                        tab.fs.vol.disk, tab.fs.layout.ino, tab.fs.itab[..], {tab.fs.itab[ip].num as int})
    {
      hide GoodLayout, GoodFreeList, Consistent, OtherDevices, GoodNumbers, TableUses, Unread, FileSys.Valid, Pointers;
      hide Slots, InUse, Untouched;
      tab.IDeref(ip);
      reader, writer := Closed, Closed;
    }
  }

  /** A pipe survives what leaves its inode and its blocks alone: the calls on other files and on
      other pipes. */
  lemma {:induction false} PipeSurvives(
      d: Disk, m: Layout, tab: seq<Cinode>, d': Disk, ino': seq<Addr>, tab': seq<Cinode>, lo: Word, hi: Word,
      ex: set<int>, p: Ends)
    requires GoodLayout(d, m, tab, lo, hi) && GoodPipeEnds(d, tab, p) && Untouched(d, m.ino, tab, d', ino', tab', ex)
    requires |tab'| == |tab| && tab[p.ip].num as int !in ex && tab'[p.ip] == tab[p.ip].(dirty := tab'[p.ip].dirty)
    ensures GoodPipeEnds(d', tab', p)
  {
    hide GoodLayout, Unread, OtherFiles, OtherInodes, InPipe, Pointers, Sleeping;
    SlotOfTable(d, m, tab, lo, hi, p.ip);
    BytesStay(d, m.ino, d', ino', ex, tab[p.ip].num);
    UnreadStays(d, d', tab[p.ip].node.addr, p.sent, p.got);
  }

  lemma {:induction false} UnreadStays(d: Disk, d': Disk, addr: Addr, sent: seq<Byte>, got: int)
    requires Unread(d, addr, sent, got) && SameBytes(d, addr, d', addr)
    ensures Unread(d', addr, sent, got)
  {
    hide FileByte;
    forall k | got <= k < |sent|
      ensures FileByte(d', addr, k % RING) == sent[k]
    {
      assert 0 <= k % RING < RING;
    }
  }

  lemma {:induction false} PipeIsPipe(n: Dinode)
    requires InPipe(n)
    ensures IsPipe(n) && n.nlink == 0
  {
  }

  lemma {:induction false} WritePointer(n: Dinode, n': Dinode, readPtr: Off, o: Off, o': Off, sent: int, got: int,
      amount: int)
    requires InPipe(n) && Pointers(n, readPtr, o, sent, got) && n'.mode == n.mode && n'.nlink == n.nlink
    requires n'.addr[18] == 0 && n'.addr[19] == 0
    requires GoodOff(o') && o'.blkno < 18 && Position(o') == (Position(o) + amount) % RING
             && 0 <= amount <= PIPE_SIZE - (sent - got)
    requires GoodOff(SizeOf(n')) && Position(SizeOf(n')) == Position(SizeOf(n)) + amount
    ensures InPipe(n') && Pointers(n', readPtr, o', sent + amount, got)
  {
    MovedPointer(Position(o), sent, amount);
  }

  lemma {:induction false} MovedPointer(p: int, got: int, n: int)
    requires p == got % RING
    ensures (p + n) % RING == (got + n) % RING
  {
    RingMod(got + n, got / RING);
    assert got + n - RING * (got / RING) == p + n;
  }

  /** What the pointers say in a pipe. */
  lemma {:induction false} PointersOf(n: Dinode, readPtr: Off, writePtr: Off, sent: int, got: int)
    requires InPipe(n) && Pointers(n, readPtr, writePtr, sent, got)
    ensures GoodPipe(n, readPtr) && GoodPipe(n, writePtr) && GoodOff(readPtr) && GoodOff(writePtr) && GoodOff(SizeOf(n))
    ensures Position(SizeOf(n)) == sent - got && 0 <= sent - got <= PIPE_SIZE && Getmode(n.mode) == F_PIPE
            && n.nlink == 0
    ensures Position(readPtr) == got % RING && Position(writePtr) == sent % RING
  {
  }

  lemma {:induction false} ReadPointer(n: Dinode, n': Dinode, o: Off, o': Off, writePtr: Off, sent: int, got: int,
      amount: int)
    requires InPipe(n) && Pointers(n, o, writePtr, sent, got) && n'.mode == n.mode && n'.nlink == n.nlink
             && n'.addr == n.addr
    requires GoodOff(o') && o'.blkno < 18 && Position(o') == (Position(o) + amount) % RING && 0 <= amount <= sent - got
    requires GoodOff(SizeOf(n')) && Position(SizeOf(n')) == Position(SizeOf(n)) - amount
    ensures InPipe(n') && Pointers(n', o', writePtr, sent, got + amount)
  {
    MovedPointer(Position(o), got, amount);
  }

  lemma {:induction false} FilledOnly(mem: seq<Byte>, was: seq<Byte>, base: int, n: int, d: Disk, addr: Addr,
      start: int)
    requires Filled(mem, was, base, n, d, addr, start, true)
    ensures |mem| == |was| && forall i | 0 <= i < |mem| && !(base <= i < base + n) :: mem[i] == was[i]
  {
  }

  /** A pipe inode: no links, direct blocks only. */
  ghost predicate InPipe(n: Dinode) {
    IsPipe(n) && n.nlink == 0 && n.addr[18] == 0 && n.addr[19] == 0
  }

  /** The file pointers are where the ring of 18 blocks has got to, and the size is what is
      unread. */
  ghost predicate Pointers(n: Dinode, readPtr: Off, writePtr: Off, sent: int, got: int) {
    && GoodOff(readPtr) && readPtr.blkno < 18 && Position(readPtr) == got % RING
    && GoodOff(writePtr) && writePtr.blkno < 18 && Position(writePtr) == sent % RING
    && GoodOff(SizeOf(n)) && Position(SizeOf(n)) == sent - got && 0 <= sent - got <= PIPE_SIZE
  }

  /** A sleeping reader has an empty pipe with a writer, a sleeping writer too little room and
      a reader. */
  predicate Sleeping(reader: End, writer: End, size: int, wanted: int) {
    && (reader.Asleep? ==> size == 0 && !writer.Closed?)
    && (writer.Asleep? ==> wanted > PIPE_SIZE - size && !reader.Closed?)
  }

  /** No deadlock: they both sleep only if the writer wants to write more than a pipe holds. */
  lemma {:induction false} BothAsleep(reader: End, writer: End, size: int, wanted: int)
    requires Sleeping(reader, writer, size, wanted)
    ensures reader.Asleep? && writer.Asleep? ==> wanted > PIPE_SIZE
    ensures wanted <= PIPE_SIZE && reader.Asleep? ==> writer.Awake?
    ensures wanted <= PIPE_SIZE && writer.Asleep? ==> reader.Awake?
  {
  }

  /** _pipe's inode: new, with a reference for each end. It is not written to disk, so its
      number stays pending. num is the number that i_alloc gave, or 0. */
  method PipeInode(tab: Inodes, garbage: Block) returns (ip: int, ghost num: Word)
    requires tab.Ready()
    modifies tab, tab.sinode, tab.fs.itab, tab.fs.vol`disk, tab.fs.vol`error, tab.fs.vol.cache, tab.fs.vol.cache.pool
    ensures tab.Intact() && (ip != -1 ==> tab.Ready() && tab.fs.Open(ip))
    ensures |tab.fs.itab[..]| == ITABSIZE
    ensures forall b: Word | b == 0 || tab.fs.vol.isize <= b :: tab.fs.vol.disk(b) == old(tab.fs.vol.disk)(b)
    ensures forall s | 0 <= s < ITABSIZE && s != ip && old(tab.fs.itab[s].refs) > 0 ::
              && tab.fs.itab[s] == old(tab.fs.itab[s]).(dirty := tab.fs.itab[s].dirty)
              && (tab.fs.itab[s].dirty ==> old(tab.fs.itab[s]).dirty)
    ensures forall s | 0 <= s < ITABSIZE && s != ip && old(tab.fs.itab[s].refs) == 0 :: tab.fs.itab[s].refs == 0
    ensures Untouched(old(tab.fs.vol.disk), tab.fs.layout.ino, old(tab.fs.itab[..]), tab.fs.vol.disk, tab.fs.layout.ino,
                      tab.fs.itab[..], if ip == -1 then {} else {tab.fs.itab[ip].num as int})
    ensures Allotted(old(tab.fs.vol.disk), old(tab.fs.itab[..]), old(tab.pending), old(tab.exact), old(tab.ninode),
                     old(tab.tinode), tab.fs.vol.disk, tab.fs.vol.isize, num, tab.pending, tab.exact, tab.tinode,
                     tab.corrupt)
    ensures old(tab.ninode) == 0 && num != 0 ==> tab.ninode == ListSize(tab.fs.vol.disk, tab.fs.vol.isize) - 1
    ensures ip != -1 <==> num != 0 && LooksFree(Current(old(tab.fs.vol.disk), old(tab.fs.itab[..]), num))
                          && exists s :: 0 <= s < ITABSIZE && old(tab.fs.itab[s].refs) == 0
    ensures ip != -1 ==>
              && tab.fs.Open(ip) && InPipe(tab.fs.itab[ip].node) && tab.fs.itab[ip].refs == 2
              && tab.fs.itab[ip].node.mode == F_PIPE + 511
              && tab.fs.itab[ip].node.sizeBlk == 0 && tab.fs.itab[ip].node.sizeOff == 0 && !tab.fs.itab[ip].dirty
              && tab.fs.itab[ip].num == num && num in tab.pending && old(tab.fs.itab[ip].refs) == 0
  {
    hide GoodLayout, GoodFreeList, Consistent, OtherDevices, GoodNumbers, InUse, SameInodes, TableUses, DiskNode;
    hide Current, Loaded, Untouched, Allotted, OthersUse, ListSize;
    var fs := tab.fs;
    ghost var d0, m, tab0 := fs.vol.disk, fs.layout, fs.itab[..];
    ip, num := tab.IOpen(0, garbage);
    SameToUntouched(d0, m, tab0, fs.vol.disk, fs.itab[..], fs.vol.isize, fs.vol.fsize);
    if ip != -1 {
      ghost var d, t := fs.vol.disk, fs.itab[..];
      NewInTable(d, fs.layout, t, fs.vol.isize, fs.vol.fsize, tab.pending, ip);
      var node := fs.itab[ip].node.(mode := F_PIPE + 511, nlink := 0);
      StartPipe(d, fs.layout, t, fs.vol.isize, fs.vol.fsize, tab.pending, ip,
                fs.itab[ip].(node := node, refs := fs.itab[ip].refs + 1));
      fs.itab[ip] := fs.itab[ip].(node := node, refs := fs.itab[ip].refs + 1);
      assert fs.itab[..] == t[ip := fs.itab[ip]];
      OneInodeDiffers(d, m, t, d, fs.itab[..], fs.vol.isize, fs.vol.fsize, ip);
      UntouchedTrans(d0, m.ino, tab0, d, m.ino, t, d, m.ino, fs.itab[..], {}, {t[ip].num as int});
      assert {} + {t[ip].num as int} == {t[ip].num as int};
    }
  }

  lemma {:induction false} StartPipe(
      d: Disk, m: Layout, tab: seq<Cinode>, lo: Word, hi: Word, pending: set<Word>, ip: int, c: Cinode)
    requires GoodLayout(d, m, tab, lo, hi) && OthersUse(d, tab, pending, ip) && 0 <= ip < |tab| && tab[ip].num != 0
             && tab[ip].refs > 0 && InUse(d, pending, tab[ip].num)
    requires c.num == tab[ip].num && c.refs > 0 && GoodDinode(c.node) && c.node.addr == tab[ip].node.addr
    requires c.node.nlink == 0 && !Untyped(c.node)
    ensures GoodLayout(d, m, tab[ip := c], lo, hi) && TableUses(d, tab[ip := c], pending)
  {
    hide Partition, DiskNode;
    assert SlotOk(tab[ip], m.ino, d);
    CoherentUpdate(tab, m.ino, d, ip, c);
    assert m.ino[c.num := c.node.addr] == m.ino;
  }
}
