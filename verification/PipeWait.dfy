/** The ends of a pipe in the process table (psleep, wakeup, ssig and getproc in kernel/process.c, called
    by readi and writei in kernel/scall1.c; doexit in kernel/scall2.c). The process at an end sleeps in
    the table, on the pipe's inode, exactly while that end is asleep. */
module PipeWait {
  import opened Types
  import opened InodeTable
  import opened Process
  import FileSystem
  import Pipe

  const SIGPIPE := 13

  /** The process in slot s sleeps on the inode in slot ip. */
  ghost predicate Waits(tab: seq<Proc>, s: int, ip: int) {
    0 <= ip && 0 <= s < |tab| && tab[s].status.Sleep? && tab[s].wait == Address(ip)
  }

  ghost predicate Tied(e: Pipe.End, tab: seq<Proc>, s: int, ip: int) {
    0 <= s < |tab| && (e.Asleep? <==> Waits(tab, s, ip))
  }

  /** The process in slot r is at the read end of q, the one in slot w at its write end. */
  ghost predicate Together(q: Pipe.PipePair, procs: ProcTable, r: int, w: int)
    reads q, q.Repr(), q.tab, q.tab.sinode, q.tab.fs, q.tab.fs.itab, q.tab.fs.vol, q.tab.fs.vol.free,
          q.tab.fs.vol.cache, q.tab.fs.vol.cache.pool, procs, procs.ptab
  {
    && q.Valid() && procs.Valid() && procs !in q.Repr() && procs.ptab !in q.Repr() && 0 <= q.ip && r != w
    && Tied(q.reader, procs.ptab[..], r, q.ip) && Tied(q.writer, procs.ptab[..], w, q.ip)
  }

  /** Whoever sleeps at a pipe has a reason, in every state that the methods below reach: no wakeup is
      lost, whatever signals come. */
  lemma {:induction false} SleepsForAReason(q: Pipe.PipePair, procs: ProcTable, r: int, w: int)
    requires Together(q, procs, r, w)
    ensures Waits(procs.ptab[..], r, q.ip) ==> q.got == |q.sent| && !q.writer.Closed?
    ensures Waits(procs.ptab[..], w, q.ip) ==> q.wanted > Pipe.PIPE_SIZE - (|q.sent| - q.got) && !q.reader.Closed?
    ensures Waits(procs.ptab[..], r, q.ip) && Waits(procs.ptab[..], w, q.ip) ==> q.wanted > Pipe.PIPE_SIZE
  {
    hide Pipe.Unread, Pipe.InPipe, Pipe.Pointers, Inodes.Ready, Good, Waits;
    assert procs.ptab[..][r] == procs.ptab[r] && procs.ptab[..][w] == procs.ptab[w];
    Pipe.BothAsleep(q.reader, q.writer, |q.sent| - q.got, q.wanted);
  }

  // ----- What the steps of the table do to an end -----

  lemma {:induction false} WokenTied(e: Pipe.End, tab: seq<Proc>, s: int, ip: int)
    requires Tied(e, tab, s, ip) && 0 <= ip
    ensures Tied(if e.Asleep? then Pipe.Awake else e, Woken(tab, Address(ip)), s, ip)
  {
  }

  lemma {:induction false} SignalledTied(e: Pipe.End, tab: seq<Proc>, s: int, ip: int, p: int, sig: int)
    requires Tied(e, tab, s, ip) && 0 <= p < |tab|
    ensures var hit := s == p && sig !in tab[p].ignored;
            Tied(if hit && e.Asleep? then Pipe.Awake else e, tab[p := Signalled(tab[p], sig)], s, ip)
  {
  }

  lemma {:induction false} OthersTied(e: Pipe.End, tab: seq<Proc>, s: int, ip: int, p: int, c: Proc)
    requires Tied(e, tab, s, ip) && 0 <= p < |tab| && (p == s ==> !Waits(tab, s, ip) && !Waits(tab[p := c], s, ip))
    ensures Tied(e, tab[p := c], s, ip)
  {
  }

  lemma {:induction false} ExitedTied(
      e: Pipe.End, tab: seq<Proc>, s: int, ip: int, p: int, init: int, exitval: int)
    requires Tied(e, tab, s, ip) && 0 <= p < |tab| && (s == p ==> !e.Asleep?)
    ensures Tied(e, Exited(tab, p, init, exitval), s, ip)
  {
  }

  lemma {:induction false} InTable(procs: ProcTable)
    requires procs.Valid()
    ensures procs.ptab.Length == PTABSIZE && 0 <= procs.current < PTABSIZE
    ensures !procs.idle ==> procs.ptab[procs.current].status.Running?
                            && forall ip :: !Waits(procs.ptab[..], procs.current, ip)
  {
    assert procs.ptab[..][procs.current] == procs.ptab[procs.current];
  }

  lemma {:induction false} GotBounds(q: Pipe.PipePair)
    requires q.Valid()
    ensures 0 <= q.got <= |q.sent|
  {
    hide Pipe.InPipe, Pipe.Pointers, Pipe.Sleeping, Inodes.Ready;
  }

  lemma {:induction false} WaitingTied(tab: seq<Proc>, s: int, ip: int)
    requires 0 <= s < |tab| && 0 <= ip
    ensures Waits(tab[s := Asleep(tab[s], s, Address(ip))], s, ip)
    ensures Tied(Pipe.Asleep, tab[s := Asleep(tab[s], s, Address(ip))], s, ip)
  {
  }

  // ----- Reading and writing -----

  /** The n bytes of memory from base on are those of the data from k on. */
  ghost predicate Copied(mem: seq<Byte>, base: int, n: int, data: seq<Byte>, k: int) {
    0 <= base <= base + n <= |mem| && 0 <= k <= k + n <= |data| && mem[base..base + n] == data[k..k + n]
  }

  /** One attempt to read by the current process: it sleeps in the table or wakes the other end. */
  method Read(q: Pipe.PipePair, procs: ProcTable, r: int, w: int, mem: array<Byte>, base: int, count: Word)
    returns (n: int)
    requires Together(q, procs, r, w) && procs.current == r && !procs.idle && q.reader.Awake?
    requires mem !in q.Repr() && count <= 0x7FFF && 0 <= base && base + count <= mem.Length
    modifies q, q.tab.fs, q.tab.fs.itab, q.tab.fs.vol.Repr(), mem, procs`idle, procs.ptab
    ensures Together(q, procs, r, w) && q.sent == old(q.sent)
    ensures procs.idle <==> Waits(procs.ptab[..], r, q.ip)
    ensures procs.idle <==> old(q.got) == |q.sent| && !old(q.writer).Closed?
    ensures !procs.idle ==>
              && n == FileSystem.Lesser(count, |q.sent| - old(q.got)) && q.got == old(q.got) + n
              && Copied(mem[..], base, n, q.sent, old(q.got)) && (n > 0 ==> !Waits(procs.ptab[..], w, q.ip))
  {
    hide Pipe.PipePair.Valid, ProcTable.Valid, Waits, Good, Woken;
    ghost var t, e, ip := procs.ptab[..], q.writer, q.ip;
    InTable(procs);
    GotBounds(q);
    WaitingTied(t, r, ip);
    WokenTied(e, t, w, ip);
    WokenTied(q.reader, t, r, ip);
    OthersTied(e, t, w, ip, r, Asleep(t[r], r, Address(ip)));
    n := q.Read(mem, base, count);
    if q.reader.Asleep? {
      procs.Psleep(Address(q.ip));
    } else if n > 0 {
      procs.Wakeup(Address(q.ip));
    }
    InTable(procs);
    GotBounds(q);
  }

  /** One attempt to write by the current process. Without a reader it gets SIGPIPE. */
  method Write(q: Pipe.PipePair, procs: ProcTable, r: int, w: int, mem: array<Byte>, base: int, count: Word)
    returns (n: int)
    requires Together(q, procs, r, w) && procs.current == w && !procs.idle && q.writer.Awake?
    requires mem !in q.Repr() && 0 <= base && base + count <= mem.Length
    modifies q, q.tab.fs, q.tab.fs.itab, q.tab.fs.vol.Repr(), procs`idle, procs.ptab
    ensures Together(q, procs, r, w) && q.got == old(q.got)
    ensures procs.idle <==> Waits(procs.ptab[..], w, q.ip)
    ensures procs.idle <==> count > Pipe.PIPE_SIZE - (|old(q.sent)| - q.got) && !q.reader.Closed?
    ensures count > Pipe.PIPE_SIZE - (|old(q.sent)| - q.got) ==> q.sent == old(q.sent)
    ensures count > Pipe.PIPE_SIZE - (|old(q.sent)| - q.got) && q.reader.Closed? ==>
              n == -1 && procs.ptab[..] == old(procs.ptab[..])[w := Signalled(old(procs.ptab[w]), SIGPIPE)]
              && (SIGPIPE !in old(procs.ptab[w]).ignored ==> SIGPIPE in procs.ptab[w].pending)
    ensures count <= Pipe.PIPE_SIZE - (|old(q.sent)| - q.got) ==>
              && 0 <= n <= count && q.sent == old(q.sent) + mem[base..base + n]
              && (n > 0 ==> !Waits(procs.ptab[..], r, q.ip))
  {
    hide Pipe.PipePair.Valid, ProcTable.Valid, Waits, Good, Woken, Signalled;
    ghost var t, e, ip := procs.ptab[..], q.reader, q.ip;
    InTable(procs);
    WaitingTied(t, w, ip);
    WokenTied(e, t, r, ip);
    WokenTied(q.writer, t, w, ip);
    OthersTied(e, t, r, ip, w, Asleep(t[w], w, Address(ip)));
    SignalledTied(e, t, r, ip, w, SIGPIPE);
    SignalledTied(q.writer, t, w, ip, w, SIGPIPE);
    var sigpipe;
    n, sigpipe := q.Write(mem, base, count);
    if q.writer.Asleep? {
      procs.Psleep(Address(q.ip));
    } else if sigpipe {
      procs.Ssig(procs.current, SIGPIPE);
    } else if n > 0 {
      procs.Wakeup(Address(q.ip));
    }
    InTable(procs);
  }

  // ----- Closing, signals and exits -----

  /** The current process closes its end while the other end is open: nobody goes on sleeping. */
  method Close(q: Pipe.PipePair, procs: ProcTable, r: int, w: int)
    requires Together(q, procs, r, w) && (procs.current == r || procs.current == w) && !procs.idle
    requires if procs.current == r then q.reader.Awake? && !q.writer.Closed?
             else q.writer.Awake? && !q.reader.Closed?
    modifies q, q.tab, q.tab.sinode, q.tab.fs, q.tab.fs.itab, q.tab.fs.vol.Repr(), procs.ptab
    ensures Together(q, procs, r, w) && q.sent == old(q.sent) && q.got == old(q.got)
    ensures if procs.current == r then q.reader.Closed? && q.writer.Awake? else q.writer.Closed? && q.reader.Awake?
    ensures procs.ptab[..] == Woken(old(procs.ptab[..]), Address(q.ip))
    ensures !Waits(procs.ptab[..], r, q.ip) && !Waits(procs.ptab[..], w, q.ip)
  {
    hide Pipe.PipePair.Valid, ProcTable.Valid, Waits, Good, Woken;
    InTable(procs);
    WokenTied(q.reader, procs.ptab[..], r, q.ip);
    WokenTied(q.writer, procs.ptab[..], w, q.ip);
    procs.Wakeup(Address(q.ip));
    if procs.current == r {
      q.CloseReader();
    } else {
      q.CloseWriter();
    }
    InTable(procs);
  }

  /** A signal for any process. One that sleeps at an end, and does not ignore the signal, is made
      ready: it will look at the pipe again. */
  method Signal(q: Pipe.PipePair, procs: ProcTable, r: int, w: int, p: int, sig: int)
    requires Together(q, procs, r, w) && 0 <= p < PTABSIZE
    modifies q`reader, q`writer, procs.ptab
    ensures Together(q, procs, r, w)
    ensures procs.ptab[..] == old(procs.ptab[..])[p := Signalled(old(procs.ptab[p]), sig)]
    ensures !old(procs.ptab[p]).status.Empty? && sig !in old(procs.ptab[p]).ignored ==> sig in procs.ptab[p].pending
    ensures q.reader == if p == r && sig !in old(procs.ptab[p]).ignored && old(q.reader).Asleep? then Pipe.Awake
                        else old(q.reader)
    ensures q.writer == if p == w && sig !in old(procs.ptab[p]).ignored && old(q.writer).Asleep? then Pipe.Awake
                        else old(q.writer)
  {
    hide Pipe.PipePair.Valid, ProcTable.Valid, Waits, Good, Signalled;
    InTable(procs);
    var caught := sig !in procs.ptab[p].ignored;
    SignalledTied(q.reader, procs.ptab[..], r, q.ip, p, sig);
    SignalledTied(q.writer, procs.ptab[..], w, q.ip, p, sig);
    procs.Ssig(p, sig);
    q.Interrupt(p == r && caught, p == w && caught);
  }

  /** The process at one end exits, as chksigs makes it do after a signal, while the other end is
      open: that one is woken, and goes on with a pipe that has one user. */
  method Exit(q: Pipe.PipePair, procs: ProcTable, r: int, w: int, val: int, val2: int)
    requires Together(q, procs, r, w) && (procs.current == r || procs.current == w) && !procs.idle
    requires if procs.current == r then q.reader.Awake? && !q.writer.Closed?
             else q.writer.Awake? && !q.reader.Closed?
    requires procs.current != procs.init
    modifies q, q.tab, q.tab.sinode, q.tab.fs, q.tab.fs.itab, q.tab.fs.vol.Repr(), procs`idle, procs.ptab
    ensures Together(q, procs, r, w) && procs.idle && q.sent == old(q.sent) && q.got == old(q.got)
    ensures 0 <= procs.current < PTABSIZE && procs.ptab[..][procs.current].status.Zombie?
    ensures if procs.current == r then q.reader.Closed? && q.writer.Awake? else q.writer.Closed? && q.reader.Awake?
  {
    hide Pipe.PipePair.Valid, ProcTable.Valid, Waits, Good, Woken, Exited;
    Close(q, procs, r, w);
    ghost var t := procs.ptab[..];
    InTable(procs);
    var exitval := ToWord(val * 256) + val2 % 256;
    ExitedAt(t, procs.current, procs.init, exitval, procs.current);
    ExitedTied(q.reader, t, r, q.ip, procs.current, procs.init, exitval);
    ExitedTied(q.writer, t, w, q.ip, procs.current, procs.init, exitval);
    procs.Doexit(val, val2);
    InTable(procs);
  }

  /** The end of a time slice. */
  method Preempt(q: Pipe.PipePair, procs: ProcTable, r: int, w: int)
    requires Together(q, procs, r, w) && !procs.idle
    modifies procs`idle, procs.ptab
    ensures Together(q, procs, r, w) && procs.idle
  {
    hide Pipe.PipePair.Valid, ProcTable.Valid, Good;
    InTable(procs);
    ghost var t, p := procs.ptab[..], procs.current;
    OthersTied(q.reader, t, r, q.ip, p, t[p].(status := Ready));
    OthersTied(q.writer, t, w, q.ip, p, t[p].(status := Ready));
    procs.Preempt();
  }

  /** The choice of the next process. */
  method Dispatch(q: Pipe.PipePair, procs: ProcTable, r: int, w: int)
    requires Together(q, procs, r, w) && procs.idle
    requires exists s :: 0 <= s < PTABSIZE && procs.ptab[..][s].status.Ready?
    modifies procs`pp, procs`current, procs`idle, procs.ptab
    ensures Together(q, procs, r, w) && !procs.idle && 0 <= procs.current < PTABSIZE
    ensures old(procs.ptab[..])[procs.current].status.Ready?
  {
    hide Pipe.PipePair.Valid, ProcTable.Valid, Good;
    ghost var t := procs.ptab[..];
    InTable(procs);
    procs.Dispatch();
    ghost var p := procs.current;
    OthersTied(q.reader, t, r, q.ip, p, t[p].(status := Running));
    OthersTied(q.writer, t, w, q.ip, p, t[p].(status := Running));
  }
}
