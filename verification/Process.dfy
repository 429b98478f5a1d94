/** The process table (kernel/process.c; _wait and doexit in kernel/scall2.c).

    Kernel code is not preempted, so each step below is atomic. Between psleep (or the end of
    a time slice, or an exit) and the choice of the next process no process is running: the
    kernel is inside getproc, which `idle` records. */
module Process {
  import opened Types

  const PTABSIZE := 20
  const MAXPID := 32001

  datatype Status = Empty | Running | Ready | Sleep | XSleep | Pause | Forking | Wait | Zombie

  /** What a process sleeps on: an address, or the process table entry of slot s. */
  datatype Event = Nothing | Address(a: nat) | Entry(s: int)

  datatype Proc = Proc(status: Status, pid: int, parent: int, wait: Event, exitval: int, pending: set<int>,
                       ignored: set<int>)

  predicate Live(p: Proc) {
    !p.status.Empty? && !p.status.Zombie?
  }

  // ----- The invariant -----

  /** Only the current process runs, and none does inside getproc. */
  ghost predicate OneRuns(tab: seq<Proc>, current: int, idle: bool) {
    && 0 <= current < |tab|
    && (forall s | 0 <= s < |tab| && tab[s].status.Running? :: s == current && !idle)
    && (!idle ==> tab[current].status.Running?)
    && (forall s | 0 <= s < |tab| :: !tab[s].status.Forking?)
  }

  /** Process numbers are in range and different. */
  ghost predicate PidsDiffer(tab: seq<Proc>) {
    && (forall s | 0 <= s < |tab| && !tab[s].status.Empty? :: 1 <= tab[s].pid <= MAXPID)
    && (forall s, t | 0 <= s < t < |tab| && !tab[s].status.Empty? && !tab[t].status.Empty? :: tab[s].pid != tab[t].pid)
  }

  /** Every process has a parent that lives, nearer to init. */
  ghost predicate Tree(tab: seq<Proc>, init: int, depth: seq<nat>) {
    && |depth| == |tab| && 0 <= init < |tab| && Live(tab[init]) && tab[init].parent == init && depth[init] == 0
    && (forall s | 0 <= s < |tab| && s != init && !tab[s].status.Empty? ::
          0 <= tab[s].parent < |tab| && Live(tab[tab[s].parent]) && depth[tab[s].parent] < depth[s])
  }

  ghost predicate HasZombie(tab: seq<Proc>, s: int) {
    exists z :: 0 <= z < |tab| && tab[z].status.Zombie? && tab[z].parent == s
  }

  /** Who waits for what: no process but init waits for children while one of them is dead. */
  ghost predicate WaitsRight(tab: seq<Proc>, init: int) {
    forall s | 0 <= s < |tab| ::
      && (tab[s].status.Wait? ==> tab[s].wait == Entry(s) && (s != init ==> !HasZombie(tab, s)))
      && (tab[s].status.Ready? || tab[s].status.Running? || tab[s].status.Zombie? ==> tab[s].wait == Nothing)
  }

  ghost predicate Good(tab: seq<Proc>, init: int, current: int, idle: bool, depth: seq<nat>) {
    |tab| == PTABSIZE && OneRuns(tab, current, idle) && PidsDiffer(tab) && Tree(tab, init, depth)
      && WaitsRight(tab, init)
  }

  /** The k-th ancestor of slot s. */
  function Ancestor(tab: seq<Proc>, s: int, k: nat): int
    decreases k
  {
    if k == 0 || !(0 <= s < |tab|) then s else Ancestor(tab, tab[s].parent, k - 1)
  }

  /** Parent chains reach init. */
  lemma {:induction false} ReachesInit(tab: seq<Proc>, init: int, depth: seq<nat>, s: int) returns (k: nat)
    requires Tree(tab, init, depth) && 0 <= s < |tab| && !tab[s].status.Empty?
    ensures Ancestor(tab, s, k) == init && k <= depth[s]
    decreases depth[s]
  {
    if s == init {
      k := 0;
    } else {
      var j := ReachesInit(tab, init, depth, tab[s].parent);
      k := j + 1;
    }
  }

  // ----- Steps -----

  /** The same processes, dead or alive, with the same numbers and parents. */
  ghost predicate SameFamily(tab: seq<Proc>, t: seq<Proc>) {
    && |t| == |tab|
    && forall s | 0 <= s < |tab| ::
         && t[s].pid == tab[s].pid && t[s].parent == tab[s].parent
         && (t[s].status.Empty? <==> tab[s].status.Empty?) && (t[s].status.Zombie? <==> tab[s].status.Zombie?)
  }

  lemma {:induction false} FamilyStays(tab: seq<Proc>, t: seq<Proc>, init: int, depth: seq<nat>)
    requires SameFamily(tab, t) && PidsDiffer(tab) && Tree(tab, init, depth)
    ensures PidsDiffer(t) && Tree(t, init, depth) && forall s | 0 <= s < |tab| :: HasZombie(t, s) <==> HasZombie(tab, s)
  {
    FamilyTree(tab, t, init, depth);
    FamilyZombies(tab, t);
  }

  lemma {:induction false} FamilyTree(tab: seq<Proc>, t: seq<Proc>, init: int, depth: seq<nat>)
    requires SameFamily(tab, t) && Tree(tab, init, depth)
    ensures Tree(t, init, depth)
  {
  }

  lemma {:induction false} FamilyZombies(tab: seq<Proc>, t: seq<Proc>)
    requires SameFamily(tab, t)
    ensures forall s | 0 <= s < |tab| :: HasZombie(t, s) <==> HasZombie(tab, s)
  {
    forall s | 0 <= s < |tab|
      ensures HasZombie(t, s) <==> HasZombie(tab, s)
    {
      if z :| 0 <= z < |t| && t[z].status.Zombie? && t[z].parent == s {
        assert tab[z].status.Zombie? && tab[z].parent == s;
      }
      if z :| 0 <= z < |t| && tab[z].status.Zombie? && tab[z].parent == s {
        assert t[z].status.Zombie? && t[z].parent == s;
      }
    }
  }

  /** A process made ready has nothing to wait for. */
  function Roused(p: Proc): Proc {
    p.(status := Ready, wait := Nothing)
  }

  /** Wakeup(e). */
  function Woken(tab: seq<Proc>, e: Event): (t: seq<Proc>)
    ensures |t| == |tab|
  {
    seq(|tab|, s requires 0 <= s < |tab| =>
          if !tab[s].status.Empty? && !tab[s].status.Running? && tab[s].wait == e then Roused(tab[s]) else tab[s])
  }

  lemma {:induction false} WokenStaysGood(tab: seq<Proc>, init: int, current: int, idle: bool, depth: seq<nat>,
      e: Event)
    requires Good(tab, init, current, idle, depth) && e != Nothing
    ensures Good(Woken(tab, e), init, current, idle, depth)
  {
    hide HasZombie, PidsDiffer, Tree;
    FamilyStays(tab, Woken(tab, e), init, depth);
  }

  /** Ssig(p, sig). */
  function Signalled(p: Proc, sig: int): Proc {
    if p.status.Empty? || sig in p.ignored then p
    else p.(status := if p.status.Pause? || p.status.Wait? || p.status.Sleep? then Ready else p.status,
            wait := Nothing, pending := p.pending + {sig})
  }

  lemma {:induction false} SignalledStaysGood(tab: seq<Proc>, init: int, current: int, idle: bool, depth: seq<nat>,
      p: int, sig: int)
    requires Good(tab, init, current, idle, depth) && 0 <= p < PTABSIZE
    ensures Good(tab[p := Signalled(tab[p], sig)], init, current, idle, depth)
  {
    hide HasZombie, PidsDiffer, Tree;
    FamilyStays(tab, tab[p := Signalled(tab[p], sig)], init, depth);
  }

  /** The current process as psleep leaves it. */
  function Asleep(p: Proc, current: int, e: Event): Proc {
    p.(status := if e == Nothing then Pause else if e == Entry(current) then Wait else Sleep, wait := e)
  }

  lemma {:induction false} AsleepStaysGood(tab: seq<Proc>, init: int, current: int, depth: seq<nat>, e: Event)
    requires Good(tab, init, current, false, depth)
             && (e == Entry(current) && current != init ==> !HasZombie(tab, current))
    ensures Good(tab[current := Asleep(tab[current], current, e)], init, current, true, depth)
  {
    hide HasZombie, PidsDiffer, Tree;
    FamilyStays(tab, tab[current := Asleep(tab[current], current, e)], init, depth);
  }

  /** The end of a time slice: the current process stays ready. */
  lemma {:induction false} PreemptedStaysGood(tab: seq<Proc>, init: int, current: int, depth: seq<nat>)
    requires Good(tab, init, current, false, depth)
    ensures Good(tab[current := tab[current].(status := Ready)], init, current, true, depth)
  {
    hide HasZombie, PidsDiffer, Tree;
    FamilyStays(tab, tab[current := tab[current].(status := Ready)], init, depth);
  }

  /** Getproc's choice, made the current process by swapin. */
  lemma {:induction false} DispatchedStaysGood(tab: seq<Proc>, init: int, current: int, depth: seq<nat>, p: int)
    requires Good(tab, init, current, true, depth) && 0 <= p < PTABSIZE && tab[p].status.Ready?
    ensures Good(tab[p := tab[p].(status := Running)], init, p, false, depth)
  {
    hide HasZombie, PidsDiffer, Tree;
    FamilyStays(tab, tab[p := tab[p].(status := Running)], init, depth);
  }

  // ----- Exit, wait and fork -----

  /** The children of slot p handed to init. */
  function Orphaned(tab: seq<Proc>, p: int, init: int): (t: seq<Proc>)
    ensures |t| == |tab|
  {
    seq(|tab|, s requires 0 <= s < |tab| =>
          if !tab[s].status.Empty? && tab[s].parent == p then tab[s].(parent := init) else tab[s])
  }

  /** Doexit: children go to init, a waiting parent is woken, the slot keeps the exit value. */
  function Exited(tab: seq<Proc>, p: int, init: int, exitval: int): seq<Proc>
    requires 0 <= p < |tab|
  {
    var t := Woken(Orphaned(tab, p, init), Entry(tab[p].parent));
    t[p := t[p].(status := Zombie, wait := Nothing, exitval := exitval)]
  }

  lemma {:induction false} ExitedStaysGood(
      tab: seq<Proc>, init: int, current: int, idle: bool, depth: seq<nat>, exitval: int)
    requires Good(tab, init, current, idle, depth) && 0 <= current < PTABSIZE && Live(tab[current]) && current != init
    ensures Good(Exited(tab, current, init, exitval), init, current, true, depth)
  {
    hide HasZombie, PidsDiffer, Tree, OneRuns, Exited;
    forall s | 0 <= s < |tab|
      ensures ExitedSlot(tab, Exited(tab, current, init, exitval), current, init, s)
    {
      ExitedAt(tab, current, init, exitval, s);
    }
    var t := Exited(tab, current, init, exitval);
    ExitedAt(tab, current, init, exitval, current);
    ExitedRuns(tab, t, init, current, idle);
    ExitedTree(tab, t, init, current, depth);
    ExitedWaits(tab, t, init, current, depth);
  }

  /** What an exit of slot p does to slot s. */
  ghost predicate ExitedSlot(tab: seq<Proc>, t: seq<Proc>, p: int, init: int, s: int)
    requires 0 <= s < |tab| && 0 <= p < |tab|
  {
    && |t| == |tab| && t[s].pid == tab[s].pid && (t[s].status.Empty? <==> tab[s].status.Empty?)
    && t[s].parent == (if !tab[s].status.Empty? && tab[s].parent == p then init else tab[s].parent)
    && (if s == p then t[s].status.Zombie? && t[s].wait == Nothing
        else if tab[s].wait == Entry(tab[p].parent) && !tab[s].status.Empty? && !tab[s].status.Running? then
          t[s].status.Ready? && t[s].wait == Nothing
        else t[s].status == tab[s].status && t[s].wait == tab[s].wait)
  }

  lemma {:induction false} ExitedAt(tab: seq<Proc>, p: int, init: int, exitval: int, s: int)
    requires 0 <= s < |tab| && 0 <= p < |tab| && Live(tab[p])
    ensures |Exited(tab, p, init, exitval)| == |tab| && ExitedSlot(tab, Exited(tab, p, init, exitval), p, init, s)
  {
  }

  lemma {:induction false} ExitedRuns(tab: seq<Proc>, t: seq<Proc>, init: int, current: int, idle: bool)
    requires OneRuns(tab, current, idle) && |t| == |tab|
    requires forall s | 0 <= s < |tab| :: ExitedSlot(tab, t, current, init, s)
    ensures OneRuns(t, current, true)
  {
    assert forall s | 0 <= s < |tab| ::
        ExitedSlot(tab, t, current, init, s) ==> !t[s].status.Running? && !t[s].status.Forking?;
  }

  lemma {:induction false} ExitedTree(tab: seq<Proc>, t: seq<Proc>, init: int, current: int, depth: seq<nat>)
    requires Tree(tab, init, depth) && PidsDiffer(tab) && WaitsRight(tab, init)
    requires 0 <= current < |tab| && Live(tab[current]) && current != init && |t| == |tab|
    requires forall s | 0 <= s < |tab| :: ExitedSlot(tab, t, current, init, s)
    ensures Tree(t, init, depth) && PidsDiffer(t)
  {
    hide HasZombie;
    forall s | 0 <= s < |tab|
      ensures t[s].pid == tab[s].pid && (t[s].status.Empty? <==> tab[s].status.Empty?)
      ensures Live(t[s]) <==> Live(tab[s]) && s != current
      ensures t[s].parent == (if !tab[s].status.Empty? && tab[s].parent == current then init else tab[s].parent)
    {
      assert ExitedSlot(tab, t, current, init, s);
    }
    hide ExitedSlot, WaitsRight;
    ExitedPids(tab, t);
    ExitedParents(tab, t, init, current, depth);
  }

  lemma {:induction false} ExitedPids(tab: seq<Proc>, t: seq<Proc>)
    requires PidsDiffer(tab) && |t| == |tab|
    requires forall s | 0 <= s < |tab| :: t[s].pid == tab[s].pid && (t[s].status.Empty? <==> tab[s].status.Empty?)
    ensures PidsDiffer(t)
  {
  }

  lemma {:induction false} ExitedParents(tab: seq<Proc>, t: seq<Proc>, init: int, current: int, depth: seq<nat>)
    requires Tree(tab, init, depth) && 0 <= current < |tab| && current != init && |t| == |tab|
    requires forall s | 0 <= s < |tab| :: t[s].status.Empty? <==> tab[s].status.Empty?
    requires forall s | 0 <= s < |tab| :: Live(t[s]) <==> Live(tab[s]) && s != current
    requires forall s | 0 <= s < |tab| ::
               t[s].parent == if !tab[s].status.Empty? && tab[s].parent == current then init else tab[s].parent
    ensures Tree(t, init, depth)
  {
    hide Live;
  }

  lemma {:induction false} ExitedWaits(tab: seq<Proc>, t: seq<Proc>, init: int, current: int, depth: seq<nat>)
    requires WaitsRight(tab, init) && Tree(tab, init, depth) && |t| == |tab|
    requires 0 <= current < |tab| && Live(tab[current]) && current != init
    requires forall s | 0 <= s < |tab| :: ExitedSlot(tab, t, current, init, s)
    ensures WaitsRight(t, init)
  {
    hide HasZombie;
    var parent := tab[current].parent;
    assert parent != current;
    forall s | 0 <= s < |tab|
      ensures t[s].status.Wait? ==> t[s].wait == Entry(s) && (s != init ==> !HasZombie(t, s))
      ensures t[s].status.Ready? || t[s].status.Running? || t[s].status.Zombie? ==> t[s].wait == Nothing
    {
      assert ExitedSlot(tab, t, current, init, s);
      if t[s].status.Wait? && s != init {
        assert tab[s].status.Wait? && s != parent;
        ExitedZombies(tab, t, init, current, s);
      }
    }
  }

  /** Nobody but init and the parent gets a dead child. */
  lemma {:induction false} ExitedZombies(tab: seq<Proc>, t: seq<Proc>, init: int, current: int, s: int)
    requires 0 <= current < |tab| && 0 <= s < |tab| && s != init && s != tab[current].parent && |t| == |tab|
    requires tab[current].parent != current && !tab[current].status.Empty?
    requires forall z | 0 <= z < |tab| :: ExitedSlot(tab, t, current, init, z)
    ensures HasZombie(t, s) ==> HasZombie(tab, s)
  {
    if z :| 0 <= z < |t| && t[z].status.Zombie? && t[z].parent == s {
      assert ExitedSlot(tab, t, current, init, z);
      assert tab[z].status.Zombie? && tab[z].parent == s;
    }
  }

  /** Init is the exception to WaitsRight: it goes on waiting beside a dead child exactly when
      a process whose parent is another one exits and leaves dead children to init. */
  lemma {:induction false} InitMissesOrphans(
      tab: seq<Proc>, init: int, current: int, idle: bool, depth: seq<nat>, exitval: int)
    requires Good(tab, init, current, idle, depth) && 0 <= current < PTABSIZE && Live(tab[current]) && current != init
    requires 0 <= init < PTABSIZE && tab[init].status.Wait? && !HasZombie(tab, init)
    ensures var t := Exited(tab, current, init, exitval);
            && |t| == PTABSIZE
            && (t[init].status.Wait? && HasZombie(t, init) <==>
                  tab[current].parent != init && HasZombie(tab, current))
  {
    hide PidsDiffer, Exited, OneRuns;
    var t := Exited(tab, current, init, exitval);
    ExitedAt(tab, current, init, exitval, init);
    ExitedAt(tab, current, init, exitval, current);
    if z :| 0 <= z < |t| && t[z].status.Zombie? && t[z].parent == init {
      ExitedAt(tab, current, init, exitval, z);
      assert z != current && tab[current].parent != init ==> tab[z].status.Zombie?;
      assert z == current ==> tab[current].parent == init;
    }
    if z :| 0 <= z < |tab| && tab[z].status.Zombie? && tab[z].parent == current {
      ExitedAt(tab, current, init, exitval, z);
      assert t[z].parent == init;
    }
  }

  /** Such a table: init (slot 0) waits, slot 2 is a child of its child and runs, and has a dead child. */
  function OrphanTable(): (t: seq<Proc>)
    ensures |t| == PTABSIZE
    ensures t[0] == Proc(Wait, 1, 0, Entry(0), 0, {}, {}) && t[1] == Proc(Ready, 2, 0, Nothing, 0, {}, {})
    ensures t[2] == Proc(Running, 3, 1, Nothing, 0, {}, {}) && t[3] == Proc(Zombie, 4, 2, Nothing, 0, {}, {})
    ensures forall s | 4 <= s < PTABSIZE :: t[s].status.Empty?
  {
    [Proc(Wait, 1, 0, Entry(0), 0, {}, {}), Proc(Ready, 2, 0, Nothing, 0, {}, {}),
     Proc(Running, 3, 1, Nothing, 0, {}, {}), Proc(Zombie, 4, 2, Nothing, 0, {}, {})]
    + seq<Proc>(PTABSIZE - 4, _ => Proc(Empty, 0, 0, Nothing, 0, {}, {}))
  }

  /** Exit(0) of slot 2 leaves init waiting beside the dead slot 3. */
  lemma {:induction false} InitWaitsBesideOrphan()
    ensures var tab := OrphanTable();
            (exists depth :: Good(tab, 0, 2, false, depth)) && !HasZombie(tab, 0)
            && var t := Exited(tab, 2, 0, 0); |t| == PTABSIZE && t[0].status.Wait? && HasZombie(t, 0)
  {
    hide OrphanTable, Good, HasZombie, Exited;
    var tab := OrphanTable();
    var depth: seq<nat> := seq(PTABSIZE, s requires 0 <= s < PTABSIZE => if s < 4 then s else 0);
    OrphanTableIsGood(tab, depth);
    OrphanZombies(tab);
    InitMissesOrphans(tab, 0, 2, false, depth, 0);
  }

  lemma {:induction false} OrphanZombies(tab: seq<Proc>)
    requires tab == OrphanTable()
    ensures !HasZombie(tab, 0) && HasZombie(tab, 2)
  {
    hide OrphanTable;
    assert tab[3].status.Zombie? && tab[3].parent == 2;
  }

  lemma {:induction false} OrphanTableIsGood(tab: seq<Proc>, depth: seq<nat>)
    requires tab == OrphanTable() && |depth| == PTABSIZE && forall s | 0 <= s < 4 :: depth[s] == s
    ensures Good(tab, 0, 2, false, depth)
  {
    hide OrphanTable, HasZombie;
    assert forall s | 0 <= s < PTABSIZE :: tab[s].status.Empty? || s == 0 || s == 1 || s == 2 || s == 3;
  }

  /** _wait takes a dead process out of the table. */
  lemma {:induction false} CollectedStaysGood(tab: seq<Proc>, init: int, current: int, idle: bool, depth: seq<nat>,
      z: int)
    requires Good(tab, init, current, idle, depth) && 0 <= z < PTABSIZE && tab[z].status.Zombie?
    ensures Good(tab[z := tab[z].(status := Empty)], init, current, idle, depth)
  {
    hide HasZombie, PidsDiffer, Tree;
    var t := tab[z := tab[z].(status := Empty)];
    CollectedTree(tab, t, init, depth, z);
    FewerZombies(tab, t, z);
  }

  lemma {:induction false} CollectedTree(tab: seq<Proc>, t: seq<Proc>, init: int, depth: seq<nat>, z: int)
    requires PidsDiffer(tab) && Tree(tab, init, depth) && 0 <= z < |tab| && tab[z].status.Zombie?
    requires t == tab[z := tab[z].(status := Empty)]
    ensures PidsDiffer(t) && Tree(t, init, depth) && z != init
  {
    assert forall s | 0 <= s < |tab| && s != init && !tab[s].status.Empty? :: tab[s].parent != z;
  }

  lemma {:induction false} FewerZombies(tab: seq<Proc>, t: seq<Proc>, p: int)
    requires |t| == |tab| && 0 <= p < |tab| && !t[p].status.Zombie?
    requires forall s | 0 <= s < |tab| && s != p ::
               t[s].parent == tab[s].parent && t[s].status.Zombie? == tab[s].status.Zombie?
    ensures forall s | 0 <= s < |tab| && HasZombie(t, s) :: HasZombie(tab, s)
  {
    forall s | 0 <= s < |tab| && HasZombie(t, s)
      ensures HasZombie(tab, s)
    {
      var z :| 0 <= z < |t| && t[z].status.Zombie? && t[z].parent == s;
      assert tab[z].status.Zombie? && tab[z].parent == s;
    }
  }

  /** The table after a fork into slot p: the child runs and the parent is ready. */
  function Forked(tab: seq<Proc>, p: int, pid: int, parent: int): seq<Proc>
    requires 0 <= p < |tab| && 0 <= parent < |tab|
  {
    tab[parent := tab[parent].(status := Ready)][p := Proc(Running, pid, parent, Nothing, 0, {}, tab[parent].ignored)]
  }

  lemma {:induction false} ForkedStaysGood(tab: seq<Proc>, init: int, current: int, depth: seq<nat>, p: int, pid: int)
    requires Good(tab, init, current, false, depth) && 0 <= p < PTABSIZE && tab[p].status.Empty?
    requires 1 <= pid <= MAXPID && forall s | 0 <= s < PTABSIZE && !tab[s].status.Empty? :: tab[s].pid != pid
    ensures Good(Forked(tab, p, pid, current), init, p, false, depth[p := depth[current] + 1])
  {
    hide HasZombie, PidsDiffer, Tree, WaitsRight;
    ForkedTree(tab, init, current, depth, p, pid);
    ForkedPids(tab, current, p, pid);
    ForkedWaits(tab, init, current, depth, p, pid);
  }

  lemma {:induction false} ForkedPids(tab: seq<Proc>, current: int, p: int, pid: int)
    requires PidsDiffer(tab) && 0 <= current < |tab| && Live(tab[current]) && 0 <= p < |tab| && tab[p].status.Empty?
    requires 1 <= pid <= MAXPID && forall s | 0 <= s < |tab| && !tab[s].status.Empty? :: tab[s].pid != pid
    ensures PidsDiffer(Forked(tab, p, pid, current))
  {
  }

  lemma {:induction false} ForkedWaits(tab: seq<Proc>, init: int, current: int, depth: seq<nat>, p: int, pid: int)
    requires WaitsRight(tab, init) && Tree(tab, init, depth) && 0 <= current < |tab| && tab[current].status.Running?
    requires 0 <= p < |tab| && tab[p].status.Empty?
    ensures WaitsRight(Forked(tab, p, pid, current), init)
  {
    hide HasZombie, Tree;
    FewerZombies(tab, Forked(tab, p, pid, current), p);
  }

  lemma {:induction false} ForkedTree(tab: seq<Proc>, init: int, current: int, depth: seq<nat>, p: int, pid: int)
    requires Tree(tab, init, depth) && 0 <= current < |tab| && Live(tab[current]) && 0 <= p < |tab|
             && tab[p].status.Empty?
    ensures Tree(Forked(tab, p, pid, current), init, depth[p := depth[current] + 1])
  {
    var t, depth' := Forked(tab, p, pid, current), depth[p := depth[current] + 1];
    assert forall s | 0 <= s < |tab| && s != init && !tab[s].status.Empty? :: tab[s].parent != p;
    assert forall s | 0 <= s < |tab| && s != p ::
        t[s].parent == tab[s].parent && (Live(t[s]) <==> Live(tab[s])) && depth'[s] == depth[s];
  }

  // ----- The scheduler -----

  /** How far slot s is behind slot pp, going around the table. */
  function Distance(pp: int, s: int): int {
    if s > pp then s - pp else s - pp + PTABSIZE
  }

  /** Getproc's choice r after the choice pp: the first ready slot behind it. */
  ghost predicate Chosen(tab: seq<Proc>, pp: int, r: int) {
    && |tab| == PTABSIZE && 0 <= pp < PTABSIZE && 0 <= r < PTABSIZE && tab[r].status.Ready?
    && forall s | 0 <= s < PTABSIZE && tab[s].status.Ready? :: Distance(pp, r) <= Distance(pp, s)
  }

  /** A choice brings every other ready slot nearer. */
  lemma {:induction false} ChoiceComesNearer(tab: seq<Proc>, pp: int, r: int, s: int)
    requires Chosen(tab, pp, r) && 0 <= s < PTABSIZE && tab[s].status.Ready?
    ensures s != r ==> Distance(r, s) == Distance(pp, s) - Distance(pp, r) < Distance(pp, s)
  {
  }

  /** The successive choices of getproc from pp on, and the tables it sees. */
  ghost predicate Choices(tabs: seq<seq<Proc>>, pp: int, chosen: seq<int>)
    decreases |chosen|
  {
    && |tabs| == |chosen|
    && (chosen != [] ==> Chosen(tabs[0], pp, chosen[0]) && Choices(tabs[1..], chosen[0], chosen[1..]))
  }

  /** Fairness: a process that is ready at each of a run of choices of others sees at most
      nineteen of them. */
  lemma {:induction false} ReadyIsChosen(tabs: seq<seq<Proc>>, pp: int, chosen: seq<int>, s: int)
    requires Choices(tabs, pp, chosen) && 0 <= s < PTABSIZE && 0 <= pp < PTABSIZE
    requires forall i | 0 <= i < |chosen| :: s < |tabs[i]| && tabs[i][s].status.Ready?
    requires forall i | 0 <= i < |chosen| :: chosen[i] != s
    ensures |chosen| < Distance(pp, s) <= PTABSIZE
    decreases |chosen|
  {
    if chosen != [] {
      ChoiceComesNearer(tabs[0], pp, chosen[0], s);
      assert forall i | 0 <= i < |chosen[1..]| :: tabs[1..][i] == tabs[i + 1] && chosen[1..][i] == chosen[i + 1];
      ReadyIsChosen(tabs[1..], chosen[0], chosen[1..], s);
    }
  }

  // ----- Process numbers -----

  function NextPid(n: int): int {
    if n > 32000 then 1 else n + 1
  }

  /** The i-th number that ptab_alloc tries. */
  function Candidate(start: int, i: int): int {
    (start + i - 1) % MAXPID + 1
  }

  lemma {:induction false} CandidateStep(start: int, i: int)
    requires 0 <= start <= MAXPID && 0 <= i
    ensures i == 0 ==> NextPid(start) == Candidate(start, 1)
    ensures i > 0 ==> NextPid(Candidate(start, i)) == Candidate(start, i + 1)
    ensures 1 <= Candidate(start, i) <= MAXPID
  {
  }

  lemma {:induction false} CandidateIs(start: int, i: int)
    ensures Candidate(start, i) == (start + i - 1) % MAXPID + 1
  {
  }

  /** The first k candidates. */
  ghost function Candidates(start: int, k: nat): set<int> {
    if k == 0 then {} else Candidates(start, k - 1) + {Candidate(start, k)}
  }

  lemma {:induction false} CandidatesDiffer(start: int, k: nat, n: int)
    requires 0 <= start <= MAXPID && k < n <= MAXPID
    ensures |Candidates(start, k)| == k && Candidate(start, n) !in Candidates(start, k)
  {
    if k > 0 {
      CandidatesDiffer(start, k - 1, n);
      CandidatesDiffer(start, k - 1, k);
    }
  }

  /** The process numbers of the table. */
  ghost function PidsOf(tab: seq<Proc>): (r: set<int>)
  {
    set s | 0 <= s < |tab| && !tab[s].status.Empty? :: tab[s].pid
  }

  lemma {:induction false} FewPids(tab: seq<Proc>)
    ensures |PidsOf(tab)| <= |tab|
  {
    if tab != [] {
      var last := |tab| - 1;
      FewPids(tab[..last]);
      assert PidsOf(tab) == PidsOf(tab[..last]) + if tab[last].status.Empty? then {} else {tab[last].pid};
    }
  }

  lemma {:induction false} Pigeonhole(start: int, k: nat, used: set<int>)
    requires 0 <= start <= MAXPID && k < MAXPID && Candidates(start, k) <= used
    ensures k <= |used|
  {
    CandidatesDiffer(start, k, k + 1);
    SubsetSize(Candidates(start, k), used);
  }

  // ----- The table -----

  /** The outcome of one attempt of _wait. */
  datatype Waited = NoChild | Interrupted | Collected(pid: int, exitval: int) | Sleeps

  class ProcTable {
    const ptab: array<Proc>
    const init: int
    var current: int        // udata.u_ptab
    var idle: bool
    var nextpid: int
    var pp: int             // getproc's cursor
    ghost var depth: seq<nat>

    ghost predicate Valid()
      reads this, ptab
    {
      && ptab.Length == PTABSIZE && 0 <= nextpid <= MAXPID && 0 <= pp < PTABSIZE
      && Good(ptab[..], init, current, idle, depth)
    }

    /** Init2's first process, its own parent. */
    constructor ()
      ensures Valid() && fresh(ptab) && current == init == 0 && !idle
      ensures forall s | 1 <= s < PTABSIZE :: ptab[s].status.Empty?
    {
      ptab := new Proc[PTABSIZE](s => Proc(if s == 0 then Running else Empty, if s == 0 then 1
                                           else 0, 0, Nothing, 0, {}, {}));
      init, current, idle, nextpid, pp := 0, 0, false, 1, 0;
      depth := seq(PTABSIZE, _ => 0);
      new;
      assert ptab[..][0] == ptab[0];
    }

    /** Makes every process that waits for the event ready. */
    method Wakeup(e: Event)
      requires Valid() && e != Nothing
      modifies ptab
      ensures Valid() && ptab[..] == Woken(old(ptab[..]), e)
      ensures forall s | 0 <= s < PTABSIZE ::
                var p := old(ptab[..])[s];
                ptab[s] == if !p.status.Empty? && !p.status.Running? && p.wait == e
                           then p.(status := Ready, wait := Nothing) else p
    {
      ghost var tab := ptab[..];
      WokenStaysGood(tab, init, current, idle, depth, e);
      WakeLoop(e);
    }

    method WakeLoop(e: Event)
      requires ptab.Length == PTABSIZE
      modifies ptab
      ensures ptab[..] == Woken(old(ptab[..]), e)
    {
      ghost var tab := ptab[..];
      for p := 0 to PTABSIZE
        invariant forall s | 0 <= s < PTABSIZE :: ptab[s] == if s < p then Woken(tab, e)[s] else tab[s]
      {
        if !ptab[p].status.Empty? && !ptab[p].status.Running? && ptab[p].wait == e {
          ptab[p] := ptab[p].(status := Ready);
          ptab[p] := ptab[p].(wait := Nothing);
        }
      }
    }

    /** Sends a signal to a process. */
    method Ssig(p: int, sig: int)
      requires Valid() && 0 <= p < PTABSIZE
      modifies ptab
      ensures Valid() && ptab[..] == old(ptab[..])[p := Signalled(old(ptab[p]), sig)]
      ensures forall s | 0 <= s < PTABSIZE && s != p :: ptab[s] == old(ptab[s])
      ensures old(ptab[p]).status.Empty? || sig in old(ptab[p]).ignored ==> ptab[p] == old(ptab[p])
      ensures !old(ptab[p]).status.Empty? && sig !in old(ptab[p]).ignored ==>
                && ptab[p].pending == old(ptab[p]).pending + {sig} && ptab[p].wait == Nothing
                && ptab[p].status == (if old(ptab[p]).status in {Pause, Wait, Sleep} then Ready
                                      else old(ptab[p]).status)
                && ptab[p].pid == old(ptab[p]).pid && ptab[p].parent == old(ptab[p]).parent
                && ptab[p].ignored == old(ptab[p]).ignored && ptab[p].exitval == old(ptab[p]).exitval
    {
      hide Good;
      ghost var tab := ptab[..];
      SignalledStaysGood(tab, init, current, idle, depth, p, sig);
      if !ptab[p].status.Empty? && sig !in ptab[p].ignored {
        var stat := ptab[p].status;
        if stat.Pause? || stat.Wait? || stat.Sleep? {
          ptab[p] := ptab[p].(status := Ready);
        }
        ptab[p] := ptab[p].(wait := Nothing);
        ptab[p] := ptab[p].(pending := ptab[p].pending + {sig});
      }
      assert ptab[..] == tab[p := ptab[p]];
    }

    /** Puts the current process to sleep, up to the choice of the next one. */
    method Psleep(e: Event)
      requires Valid() && !idle
      requires e == Entry(current) && current != init ==> !HasZombie(ptab[..], current)
      modifies `idle, ptab
      ensures Valid() && idle && ptab[..] == old(ptab[..])[current := Asleep(old(ptab[current]), current, e)]
      ensures forall s | 0 <= s < PTABSIZE && s != current :: ptab[s] == old(ptab[s])
      ensures ptab[..][current].wait == e
      ensures ptab[..][current].status == if e == Nothing then Pause else if e == Entry(current) then Wait else Sleep
      ensures ptab[..][current] ==
              old(ptab[..])[current].(wait := ptab[..][current].wait, status := ptab[..][current].status)
    {
      hide HasZombie, PidsDiffer, Tree, WaitsRight;
      ghost var tab := ptab[..];
      AsleepStaysGood(tab, init, current, depth, e);
      assert ptab[current].status.Running?;   // otherwise "voodoo"
      if e == Nothing {
        ptab[current] := ptab[current].(status := Pause);
      } else if e == Entry(current) {
        ptab[current] := ptab[current].(status := Wait);
      } else {
        ptab[current] := ptab[current].(status := Sleep);
      }
      ptab[current] := ptab[current].(wait := e);
      idle := true;
      assert ptab[..] == tab[current := ptab[current]];
    }

    /** The end of a time slice, up to the choice of the next process. */
    method Preempt()
      requires Valid() && !idle
      modifies `idle, ptab
      ensures Valid() && idle && ptab[..] == old(ptab[..])[current := old(ptab[current]).(status := Ready)]
    {
      hide HasZombie, PidsDiffer, Tree, WaitsRight;
      ghost var tab := ptab[..];
      PreemptedStaysGood(tab, init, current, depth);
      ptab[current] := ptab[current].(status := Ready);
      idle := true;
      assert ptab[..] == tab[current := ptab[current]];
    }

    /** The round-robin scan. It ends when some process is ready. */
    method Getproc() returns (p: int)
      requires Valid() && idle && exists s :: 0 <= s < PTABSIZE && ptab[s].status.Ready?
      modifies `pp
      ensures Valid() && p == pp && Chosen(ptab[..], old(pp), p)
      ensures 0 <= p < PTABSIZE && ptab[p].status.Ready?
      ensures forall s | 0 <= s < PTABSIZE
              && (if p > old(pp) then old(pp) < s < p else old(pp) < s || s < p) :: !ptab[s].status.Ready?
    {
      hide HasZombie, PidsDiffer, Tree, WaitsRight;
      ghost var start := pp;
      ghost var r :| 0 <= r < PTABSIZE && ptab[r].status.Ready?;
      ghost var steps := 0;
      while true
        invariant 0 <= pp < PTABSIZE && 0 <= steps < Distance(start, r)
        invariant pp == if start + steps < PTABSIZE then start + steps else start + steps - PTABSIZE
        invariant forall s | 0 <= s < PTABSIZE && Distance(start, s) <= steps :: !ptab[s].status.Ready?
        decreases Distance(start, r) - steps
      {
        pp := pp + 1;
        if pp >= PTABSIZE {
          pp := 0;
        }
        steps := steps + 1;
        assert Distance(start, pp) == steps;
        assert !ptab[pp].status.Running?;   // otherwise "extra running"
        if ptab[pp].status.Ready? {
          return pp;
        }
      }
    }

    /** The end of swapout: the chosen process runs. */
    method Dispatch()
      requires Valid() && idle && exists s :: 0 <= s < PTABSIZE && ptab[s].status.Ready?
      modifies `pp, `current, `idle, ptab
      ensures Valid() && !idle && Chosen(old(ptab[..]), old(pp), current) && pp == current
      ensures 0 <= current < PTABSIZE && old(ptab[..])[current].status.Ready?
      ensures forall s | 0 <= s < PTABSIZE && (if current > old(pp) then old(pp) < s < current
                                               else old(pp) < s || s < current) :: !old(ptab[s]).status.Ready?
      ensures ptab[..] == old(ptab[..])[current := old(ptab[..])[current].(status := Running)]
    {
      hide HasZombie, PidsDiffer, Tree, WaitsRight, Good;
      ghost var tab := ptab[..];
      var newp := Getproc();
      DispatchedStaysGood(tab, init, current, depth, newp);
      current := newp;
      ptab[newp] := ptab[newp].(status := Running);
      idle := false;
      assert ptab[..] == tab[newp := ptab[newp]];
    }

    // ----- Fork -----

    /** Some process has this number. */
    method PidTaken(n: int) returns (taken: bool)
      requires ptab.Length == PTABSIZE
      ensures taken <==> n in PidsOf(ptab[..])
    {
      for q := 0 to PTABSIZE
        invariant forall s | 0 <= s < q && !ptab[s].status.Empty? :: ptab[s].pid != n
      {
        if !ptab[q].status.Empty? && ptab[q].pid == n {
          assert ptab[..][q].pid == n;
          return true;
        }
      }
      return false;
    }

    /** Ptab_alloc's search for a number. It ends after at most 21 tries, because at most 20
        numbers are taken and the first 32001 tries differ. */
    method FreshPid() returns (ghost tries: nat)
      requires ptab.Length == PTABSIZE && 0 <= nextpid <= MAXPID
      modifies `nextpid
      ensures 1 <= nextpid <= MAXPID && nextpid !in PidsOf(ptab[..])
      ensures 1 <= tries <= PTABSIZE + 1 && nextpid == Candidate(old(nextpid), tries)
      ensures nextpid == (old(nextpid) + tries - 1) % MAXPID + 1
      ensures Candidates(old(nextpid), tries - 1) <= PidsOf(ptab[..])
    {
      hide PidsOf, Candidate;
      ghost var start, used := nextpid, PidsOf(ptab[..]);
      FewPids(ptab[..]);
      tries := 0;
      while true
        invariant 0 <= tries <= PTABSIZE && Candidates(start, tries) <= used
        invariant nextpid == if tries == 0 then start else Candidate(start, tries)
        decreases PTABSIZE - tries
      {
        CandidateStep(start, tries);
        CandidateStep(start, tries + 1);
        nextpid := NextPid(nextpid);
        tries := tries + 1;
        CandidateIs(start, tries);
        var taken := PidTaken(nextpid);
        if !taken {
          return;
        }
        Pigeonhole(start, tries, used);
      }
    }

    /** A slot with a number that no other process has, or -1. */
    method PtabAlloc() returns (p: int)
      requires Valid()
      modifies `nextpid, ptab
      ensures 0 <= nextpid <= MAXPID && -1 <= p < PTABSIZE
      ensures p == -1 ==> ptab[..] == old(ptab[..]) && forall s | 0 <= s < PTABSIZE :: !ptab[s].status.Empty?
      ensures p != -1 ==>
                && old(ptab[p].status).Empty? && (forall s | 0 <= s < p :: !old(ptab[s].status).Empty?)
                && 1 <= nextpid <= MAXPID && nextpid !in PidsOf(old(ptab[..]))
                && ptab[..] == old(ptab[..])[p := Proc(Forking, nextpid, -1, Nothing, 0, {}, {})]
    {
      hide Good, PidsOf;
      p := 0;
      while p < PTABSIZE && !ptab[p].status.Empty?
        invariant 0 <= p <= PTABSIZE && forall s | 0 <= s < p :: !ptab[s].status.Empty?
      {
        p := p + 1;
      }
      if p == PTABSIZE {
        return -1;
      }
      ghost var tab := ptab[..];
      var _ := FreshPid();
      ptab[p] := Proc(Empty, 0, -1, Nothing, 0, {}, {});
      ptab[p] := ptab[p].(pid := nextpid);
      ptab[p] := ptab[p].(status := Forking);
      assert ptab[..] == tab[p := ptab[p]];
    }

    /** The child's number, with the child running, or -1 when the table is full. */
    method Dofork() returns (newid: int)
      requires Valid() && !idle
      modifies this, ptab
      ensures Valid() && !idle
      ensures newid == -1 <==> forall s | 0 <= s < PTABSIZE :: !old(ptab[s].status).Empty?
      ensures newid == -1 ==> ptab[..] == old(ptab[..]) && current == old(current)
      ensures newid != -1 ==>
                && 0 <= current < PTABSIZE && old(ptab[..])[current].status.Empty? && newid !in PidsOf(old(ptab[..]))
                && ptab[..] == Forked(old(ptab[..]), current, newid, old(current))
                && ptab[..][current] ==
                   Proc(Running, newid, old(current), Nothing, 0, {}, old(ptab[..])[old(current)].ignored)
                && ptab[..][old(current)] == old(ptab[..])[old(current)].(status := Ready)
                && forall s | 0 <= s < PTABSIZE && s != current && s != old(current) :: ptab[s] == old(ptab[s])
    {
      hide HasZombie, PidsDiffer, Tree, WaitsRight, PidsOf;
      ghost var tab := ptab[..];
      var p := PtabAlloc();
      if p == -1 {
        assert forall s | 0 <= s < PTABSIZE :: ptab[s] == tab[s];
        return -1;
      }
      NotTaken(tab, nextpid);
      CurrentIs(tab, init, current, depth);
      ForkedStaysGood(tab, init, current, depth, p, nextpid);
      depth := depth[p := depth[current] + 1];
      ptab[current] := ptab[current].(status := Ready);
      newid := ptab[p].pid;
      Newproc(p);
      ptab[p] := ptab[p].(status := Running);
      assert ptab[..] == Forked(tab, p, newid, old(current));
    }

    /** Newproc: the child inherits from the current process and becomes it. */
    method Newproc(p: int)
      requires ptab.Length == PTABSIZE && 0 <= p < PTABSIZE && 0 <= current < PTABSIZE
      modifies `current, ptab
      ensures current == p
      ensures ptab[..] == old(ptab[..])[p := old(ptab[p]).(
                status := Running, parent := old(current), ignored := old(ptab[current]).ignored)]
    {
      ghost var tab := ptab[..];
      ptab[p] := ptab[p].(status := Running);
      ptab[p] := ptab[p].(parent := current);
      ptab[p] := ptab[p].(ignored := ptab[current].ignored);
      current := p;
      assert ptab[..] == tab[p := ptab[p]];
    }

    // ----- Wait and exit -----

    /** One attempt of _wait: from its start (first) or from its return from psleep, until it
        returns or sleeps. signal tells whether a caught signal is pending. */
    method WaitOnce(first: bool, signal: bool) returns (w: Waited)
      requires Valid() && !idle
      modifies `idle, ptab
      ensures Valid() && (idle <==> w.Sleeps?)
      ensures w.NoChild? <==> first && forall s | 0 <= s < PTABSIZE
              && s != current :: !IsChild(old(ptab[..]), s, current)
      ensures w.Interrupted? <==> signal && !w.NoChild?
      ensures w.NoChild? || w.Interrupted? ==> ptab[..] == old(ptab[..])
      ensures w.Collected? ==>
                exists z :: 0 <= z < PTABSIZE && old(ptab[..])[z].status.Zombie? && old(ptab[..])[z].parent == current
                            && w == Collected(old(ptab[..])[z].pid, old(ptab[..])[z].exitval)
                            && ptab[..] == old(ptab[..])[z := old(ptab[..])[z].(status := Empty)]
                            && forall y | 0 <= y < z ::
                                 !(old(ptab[..])[y].status.Zombie? && old(ptab[..])[y].parent == current)
      ensures w.Sleeps? ==>
                && !HasZombie(old(ptab[..]), current)
                && ptab[..] == old(ptab[..])[current := old(ptab[current]).(status := Wait, wait := Entry(current))]
    {
      hide Good, HasZombie;
      ghost var tab := ptab[..];
      CurrentIs(tab, init, current, depth);
      if first {
        var p := 0;
        while p < PTABSIZE && !(!ptab[p].status.Empty? && ptab[p].parent == current && p != current)
          invariant 0 <= p <= PTABSIZE
          invariant forall s | 0 <= s < p && s != current :: !IsChild(tab, s, current)
        {
          p := p + 1;
        }
        if p == PTABSIZE {
          return NoChild;
        }
        assert IsChild(tab, p, current);
      }
      if signal {
        return Interrupted;
      }
      for p := 0 to PTABSIZE
        invariant ptab[..] == tab
        invariant forall z | 0 <= z < p :: !(tab[z].status.Zombie? && tab[z].parent == current)
      {
        if ptab[p].status.Zombie? && ptab[p].parent == current {
          CollectedStaysGood(tab, init, current, false, depth, p);
          w := Collected(ptab[p].pid, ptab[p].exitval);
          ptab[p] := ptab[p].(status := Empty);
          assert ptab[..] == tab[p := ptab[p]];
          return;
        }
      }
      NoZombie(tab, current);
      Psleep(Entry(current));
      return Sleeps;
    }

    /** Ends the current process. The table stays good exactly if it is not init, whose end nobody is
        told of. */
    method Doexit(val: int, val2: int)
      requires Valid() && 0 <= current < ptab.Length && Live(ptab[current])
      modifies `idle, ptab
      ensures idle && (Valid() <==> current != init)
      ensures var exitval := ToWord(val * 256) + val2 % 256;
              ptab[..] == if current != init then Exited(old(ptab[..]), current, init, exitval)
                          else old(ptab[..])[init :=
                                             old(ptab[..])[init].(status := Zombie, wait := Nothing,
                                                                  exitval := exitval)]
      ensures current != init ==>
                && ptab.Length == PTABSIZE
                && ptab[current] == old(ptab[current]).(status := Zombie, wait := Nothing,
                                                        exitval := ToWord(val * 256) + val2 % 256)
                && forall s | 0 <= s < PTABSIZE && s != current ::
                     LeftBy(old(ptab[..])[s], ptab[s], current, old(ptab[current]).parent, init)
    {
      hide Good, LeftBy;
      ghost var tab := ptab[..];
      var exitval := ToWord(val * 256) + val2 % 256;
      if current != init {
        ParentIsLive(tab, init, current, idle, depth);
        ExitedStaysGood(tab, init, current, idle, depth, exitval);
      }
      ptab[current] := ptab[current].(exitval := exitval);
      ghost var t1 := ptab[..];
      for p := 0 to PTABSIZE
        invariant forall s | 0 <= s < PTABSIZE :: ptab[s] == if s < p then Orphaned(t1, current, init)[s] else t1[s]
      {
        if !ptab[p].status.Empty? && ptab[p].parent == current {
          ptab[p] := ptab[p].(parent := init);
        }
      }
      assert ptab[..] == Orphaned(t1, current, init);
      if current != init {
        WakeLoop(Entry(ptab[current].parent));
      }
      ptab[current] := ptab[current].(wait := Nothing);   // overlaid by the times
      ptab[current] := ptab[current].(status := Zombie);
      idle := true;
      if current != init {
        ExitOrder(tab, t1, current, init, exitval);
        assert ptab[..] == Exited(tab, current, init, exitval);
        LeftSlots(tab, ptab[..], current, init, exitval);
      } else {
        InitExits(tab, t1, init, exitval, depth, ptab[..]);
      }
    }
  }

  /** What the exit of slot p, whose parent is slot `parent`, makes of process q: a child goes to init,
      and the waiting parent is ready. */
  ghost predicate LeftBy(q: Proc, q': Proc, p: int, parent: int, init: int) {
    && q' == q.(status := q'.status, wait := q'.wait, parent := q'.parent)
    && q'.parent == (if !q.status.Empty? && q.parent == p then init else q.parent)
    && (if q.wait == Entry(parent) && !q.status.Empty? && !q.status.Running? then q'.status.Ready? && q'.wait == Nothing
        else q'.status == q.status && q'.wait == q.wait)
  }

  lemma {:induction false} LeftSlots(tab: seq<Proc>, t: seq<Proc>, p: int, init: int, exitval: int)
    requires 0 <= p < |tab| && Live(tab[p]) && t == Exited(tab, p, init, exitval) && tab[p].parent != p
    ensures |t| == |tab| && t[p] == tab[p].(status := Zombie, wait := Nothing, exitval := exitval)
    ensures forall s | 0 <= s < |tab| && s != p :: LeftBy(tab[s], t[s], p, tab[p].parent, init)
  {
  }

  /** Init's exit: its children stay its children, and the tree has no live root. */
  lemma {:induction false} InitExits(tab: seq<Proc>, t1: seq<Proc>, init: int, exitval: int, depth: seq<nat>,
      t: seq<Proc>)
    requires 0 <= init < |tab| == PTABSIZE && t1 == tab[init := tab[init].(exitval := exitval)] && |t| == PTABSIZE
    requires forall s | 0 <= s < |t| ::
               t[s] == if s == init then Orphaned(t1, init, init)[s].(status := Zombie, wait := Nothing)
                 else Orphaned(t1, init, init)[s]
    ensures t == tab[init := tab[init].(status := Zombie, wait := Nothing, exitval := exitval)]
    ensures forall current, idle :: !Good(t, init, current, idle, depth)
  {
    hide OneRuns, PidsDiffer, WaitsRight;
    assert t == tab[init := tab[init].(status := Zombie, wait := Nothing, exitval := exitval)];
  }

  /** s is a process whose parent is p. */
  predicate IsChild(tab: seq<Proc>, s: int, p: int)
    requires 0 <= s < |tab|
  {
    !tab[s].status.Empty? && tab[s].parent == p
  }

  lemma {:induction false} NotTaken(tab: seq<Proc>, n: int)
    requires n !in PidsOf(tab)
    ensures forall s | 0 <= s < |tab| && !tab[s].status.Empty? :: tab[s].pid != n
  {
    forall s | 0 <= s < |tab| && !tab[s].status.Empty?
      ensures tab[s].pid != n
    {
      assert tab[s].pid in PidsOf(tab);
    }
  }

  lemma {:induction false} CurrentIs(tab: seq<Proc>, init: int, current: int, depth: seq<nat>)
    requires Good(tab, init, current, false, depth)
    ensures |tab| == |depth| == PTABSIZE && 0 <= current < PTABSIZE && tab[current].status.Running?
  {
  }

  lemma {:induction false} NoZombie(tab: seq<Proc>, p: int)
    requires forall z | 0 <= z < |tab| :: !(tab[z].status.Zombie? && tab[z].parent == p)
    ensures !HasZombie(tab, p)
  {
  }

  lemma {:induction false} ParentIsLive(tab: seq<Proc>, init: int, current: int, idle: bool, depth: seq<nat>)
    requires Good(tab, init, current, idle, depth) && 0 <= current < PTABSIZE && Live(tab[current]) && current != init
    ensures |tab| == PTABSIZE && 0 <= tab[current].parent < PTABSIZE && tab[current].parent != current
  {
  }

  /** Storing the exit value first or last makes no difference. */
  lemma {:induction false} ExitOrder(tab: seq<Proc>, t1: seq<Proc>, p: int, init: int, exitval: int)
    requires 0 <= p < |tab| && tab[p].parent != p && t1 == tab[p := tab[p].(exitval := exitval)]
    ensures var o := Orphaned(t1, p, init);
            o[p].parent == tab[p].parent
            && Woken(o, Entry(tab[p].parent))[p :=
                                              Woken(o, Entry(tab[p].parent))[p].(status := Zombie, wait := Nothing)]
               == Exited(tab, p, init, exitval)
  {
    var o := Orphaned(t1, p, init);
    var w := Woken(o, Entry(tab[p].parent));
    assert forall s | 0 <= s < |tab| ::
        w[p := w[p].(status := Zombie, wait := Nothing)][s] == Exited(tab, p, init, exitval)[s];
  }
}
