/** The block buffer pool (drivers/devio.c): NBUFS write-back buffers in front of
    the devices.

    `logical` is the storage a client sees: the data of the buffer that names a block if
    there is one, the device's own block otherwise. `held` is the set of buffers handed
    out by Bread and not yet released. Panics of the source ("want busy block",
    "no free buffers", "invalid dev") are preconditions. */
module BufferCache {
  import opened Types

  const NBUFS := 4
  const NDEVS := 5

  /** A block address: device and block number. */
  datatype Key = Key(dev: int, blk: Word)

  /** One buffer of the pool. name.dev == -1 means that it names no block. */
  datatype Buf = Buf(data: Block, name: Key, dirty: bool, busy: bool, time: Word)

  /** A buffer in a client's hands. It is clean when releasing it without the dirty
      flag loses nothing. */
  datatype Hold = Hold(name: Key, data: Block, clean: bool)

  predicate ValidDev(dev: int) {
    0 <= dev < NDEVS
  }

  const BLANK: Disk := (w: Word) => ZERO_BLOCK

  /** The contents of all devices. */
  type Storage = s: seq<Disk> | |s| == NDEVS witness [BLANK, BLANK, BLANK, BLANK, BLANK]

  function Load(s: Storage, k: Key): Block
    requires ValidDev(k.dev)
  {
    s[k.dev](k.blk)
  }

  function Store(s: Storage, k: Key, b: Block): Storage
    requires ValidDev(k.dev)
  {
    s[k.dev := Write(s[k.dev], k.blk, b)]
  }

  /** The age that the LRU scan compares: an unsigned 16-bit difference. */
  function Age(clock: Word, time: Word): Word {
    ToWord(clock - time)
  }

  /** The devices after writing b out, if it is dirty. */
  function WrittenBack(store: Storage, b: Buf): Storage {
    if b.dirty && ValidDev(b.name.dev) then Store(store, b.name, b.data) else store
  }

  /** r is the least recently used buffer that is not busy; later ones win ties. */
  ghost predicate Oldest(pool: seq<Buf>, clock: Word, r: int) {
    && 0 <= r < |pool| && !pool[r].busy
    && forall j | 0 <= j < |pool| && !pool[j].busy ::
         && Age(clock, pool[j].time) <= Age(clock, pool[r].time)
         && (r < j ==> Age(clock, pool[j].time) < Age(clock, pool[r].time))
  }

  /** No other buffer that is not busy has a lower stamp. */
  ghost predicate LowestStamp(pool: seq<Buf>, r: int) {
    0 <= r < |pool| && !pool[r].busy && forall j | 0 <= j < |pool| && !pool[j].busy :: pool[r].time <= pool[j].time
  }

  /** No stamp of a buffer that is not busy is ahead of the clock: the clock has not started over
      since these buffers were used. */
  ghost predicate NotAhead(pool: seq<Buf>, clock: Word) {
    forall j | 0 <= j < |pool| && !pool[j].busy :: pool[j].time <= clock
  }

  lemma {:induction false} OldestHasLowestStamp(pool: seq<Buf>, clock: Word, r: int)
    requires Oldest(pool, clock, r) && NotAhead(pool, clock)
    ensures LowestStamp(pool, r)
  {
    forall j | 0 <= j < |pool| && !pool[j].busy
      ensures pool[r].time <= pool[j].time
    {
      assert Age(clock, pool[j].time) == clock - pool[j].time && Age(clock, pool[r].time) == clock - pool[r].time;
    }
  }

  /** Least recently used, also when the 16-bit clock has started over: now and used[j] count the
      accesses without a bound, and no buffer has been out of use for 65536 of them. */
  lemma {:induction false} LeastRecentlyUsed(pool: seq<Buf>, clock: Word, r: int, now: int, used: seq<int>)
    requires Oldest(pool, clock, r) && |used| == |pool| && clock == ToWord(now)
    requires forall j | 0 <= j < |pool| && !pool[j].busy ::
               0 <= now - used[j] < 0x1_0000 && pool[j].time == ToWord(used[j])
    ensures forall j | 0 <= j < |pool| && !pool[j].busy ::
              used[r] <= used[j] && (r < j ==> used[r] < used[j])
  {
    forall j | 0 <= j < |pool| && !pool[j].busy
      ensures Age(clock, pool[j].time) == now - used[j]
    {
      AgeIs(now, used[j]);
    }
  }

  lemma {:induction false} AgeIs(now: int, used: int)
    requires 0 <= now - used < 0x1_0000
    ensures Age(ToWord(now), ToWord(used)) == now - used
  {
    var q := now / 0x1_0000 - used / 0x1_0000;
    assert ToWord(now) - ToWord(used) == now - used - 0x1_0000 * q;
    assert 0 <= q <= 1;
  }

  /** Otherwise it need not be: the buffer last used at access 0 seems new at access 65536, and the
      one used at access 65535 is taken. */
  lemma {:induction false} OldBufferSeemsNew(a: Buf, b: Buf)
    requires !a.busy && !b.busy && a.time == ToWord(0) && b.time == ToWord(65535)
    ensures Oldest([a, b], ToWord(65536), 1) && !Oldest([a, b], ToWord(65536), 0)
  {
    assert Age(ToWord(65536), a.time) == 0 && Age(ToWord(65536), b.time) == 1;
  }

  /** The pool index of the buffer that names a block, or -1. */
  function Find(pool: seq<Buf>, k: Key): int
    requires |pool| == NBUFS
  {
    if pool[0].name == k then 0
    else if pool[1].name == k then 1
    else if pool[2].name == k then 2
    else if pool[3].name == k then 3
    else -1
  }

  /** What a client sees of one block: buffer first, device otherwise. */
  function View(pool: seq<Buf>, store: Storage, k: Key): Block
    requires |pool| == NBUFS && ValidDev(k.dev)
  {
    var i := Find(pool, k);
    if i == -1 then Load(store, k) else pool[i].data
  }

  ghost predicate Seen(pool: seq<Buf>, store: Storage, logical: Storage, k: Key)
    requires |pool| == NBUFS && ValidDev(k.dev)
  {
    Load(logical, k) == View(pool, store, k)
  }

  /** s' is s with block k replaced by b. */
  ghost predicate Shows(s: Storage, s': Storage, k: Key, b: Block)
    requires ValidDev(k.dev)
  {
    forall j: Key | ValidDev(j.dev) :: Load(s', j) == if j == k then b else Load(s, j)
  }

  ghost predicate IsHeld(held: map<int, Hold>, k: Key) {
    exists i | i in held :: held[i].name == k
  }

  /** No two buffers name the same block. */
  ghost predicate Distinct(pool: seq<Buf>) {
    forall i, j | 0 <= i < j < |pool| && pool[i].name.dev != -1 :: pool[i].name != pool[j].name
  }

  /** Buffers that are neither busy nor dirty equal the device. */
  ghost predicate GoodBuf(b: Buf, store: Storage) {
    if b.name.dev == -1 then !b.dirty && !b.busy
    else ValidDev(b.name.dev) && (b.busy || b.dirty || b.data == Load(store, b.name))
  }

  ghost function HoldOf(b: Buf, store: Storage): Hold
    requires ValidDev(b.name.dev)
  {
    Hold(b.name, b.data, b.dirty || b.data == Load(store, b.name))
  }

  ghost predicate Consistent(pool: seq<Buf>, store: Storage, logical: Storage, held: map<int, Hold>) {
    && |pool| == NBUFS
    && Distinct(pool)
    && (forall i | 0 <= i < NBUFS :: GoodBuf(pool[i], store))
    && (forall i :: i in held <==> 0 <= i < NBUFS && pool[i].busy)
    && (forall i | i in held :: held[i] == HoldOf(pool[i], store))
    && (forall k: Key | ValidDev(k.dev) :: Seen(pool, store, logical, k))
  }

  /** If fewer than NBUFS buffers are held, one is not busy. */
  lemma {:induction false} SomeBufferIsFree(pool: seq<Buf>, held: map<int, Hold>)
    requires |pool| == NBUFS
    requires forall i :: i in held <==> 0 <= i < NBUFS && pool[i].busy
    requires |held| < NBUFS
    ensures exists i | 0 <= i < NBUFS :: !pool[i].busy
  {
    var all := {0, 1, 2, 3};
    assert all <= held.Keys ==> |held.Keys - all| == |held.Keys| - |all|;
    assert 0 !in held || 1 !in held || 2 !in held || 3 !in held;
  }

  lemma {:induction false} FoundAt(pool: seq<Buf>, r: int)
    requires |pool| == NBUFS && 0 <= r < NBUFS && Distinct(pool) && pool[r].name.dev != -1
    ensures Find(pool, pool[r].name) == r
  {
  }

  /** Find looks at names only. */
  lemma {:induction false} FindByName(pool: seq<Buf>, r: int, b: Buf, k: Key)
    requires |pool| == NBUFS && 0 <= r < NBUFS && pool[r].name == b.name
    ensures Find(pool[r := b], k) == Find(pool, k)
  {
  }

  lemma {:induction false} NotFound(pool: seq<Buf>, k: Key)
    requires |pool| == NBUFS && Find(pool, k) == -1
    ensures forall i | 0 <= i < NBUFS :: pool[i].name != k
  {
  }

  /** Renaming buffer r to b, when b's block is in no other buffer: only the block that r
      named before and the block that b names can look different. */
  lemma {:induction false} ViewAfterUpdate(pool: seq<Buf>, store: Storage, k: Key, r: int, b: Buf)
    requires |pool| == NBUFS && 0 <= r < NBUFS && ValidDev(k.dev)
    requires Distinct(pool)
    requires b.name.dev == -1 || Find(pool, b.name) == -1 || Find(pool, b.name) == r
    ensures k == b.name ==> View(pool[r := b], store, k) == b.data
    ensures k != b.name && k != pool[r].name ==> View(pool[r := b], store, k) == View(pool, store, k)
    ensures k != b.name && k == pool[r].name ==>
              View(pool[r := b], store, k) == Load(store, k) && View(pool, store, k) == pool[r].data
  {
  }

  /** Writing a dirty buffer to its device changes no view. */
  lemma {:induction false} ViewAfterWriteBack(pool: seq<Buf>, store: Storage, k: Key, r: int)
    requires |pool| == NBUFS && 0 <= r < NBUFS && ValidDev(k.dev) && Distinct(pool)
    requires GoodBuf(pool[r], store)
    ensures View(pool, WrittenBack(store, pool[r]), k) == View(pool, store, k)
    ensures View(pool[r := pool[r].(dirty := false)], WrittenBack(store, pool[r]), k) == View(pool, store, k)
  {
  }

  /** Evicting a buffer moves its data to the device; clients see no difference. */
  lemma {:induction false} EvictionIsTransparent(
      pool: seq<Buf>, store: Storage, logical: Storage, held: map<int, Hold>, r: int)
    requires Consistent(pool, store, logical, held) && 0 <= r < NBUFS && !pool[r].busy
    ensures Consistent(pool[r := pool[r].(dirty := false)], WrittenBack(store, pool[r]), logical, held)
  {
    hide View;
    var pool', store' := pool[r := pool[r].(dirty := false)], WrittenBack(store, pool[r]);
    forall k: Key | ValidDev(k.dev)
      ensures Seen(pool', store', logical, k)
    {
      assert Seen(pool, store, logical, k);
      ViewAfterWriteBack(pool, store, k, r);
    }
  }

  /** So does writing a buffer out and leaving it marked dirty, as bufsync does. */
  lemma {:induction false} SyncIsTransparent(
      pool: seq<Buf>, store: Storage, logical: Storage, held: map<int, Hold>, r: int)
    requires Consistent(pool, store, logical, held) && 0 <= r < NBUFS
    ensures Consistent(pool, WrittenBack(store, pool[r]), logical, held)
  {
    hide View;
    forall k: Key | ValidDev(k.dev)
      ensures Seen(pool, WrittenBack(store, pool[r]), logical, k)
    {
      assert Seen(pool, store, logical, k);
      ViewAfterWriteBack(pool, store, k, r);
    }
  }

  /** Naming a reusable buffer after an uncached block shows new data in that block only. */
  lemma {:induction false} LoadShowsOneBlock(
      pool: seq<Buf>, store: Storage, logical: Storage, logical': Storage, held: map<int, Hold>, r: int, b: Buf)
    requires Consistent(pool, store, logical, held) && 0 <= r < NBUFS
    requires !pool[r].busy && !pool[r].dirty
    requires ValidDev(b.name.dev) && Find(pool, b.name) == -1 && b.busy
    requires Shows(logical, logical', b.name, b.data)
    ensures Consistent(pool[r := b], store, logical', held[r := HoldOf(b, store)])
  {
    hide View, Find;
    forall k: Key | ValidDev(k.dev)
      ensures Seen(pool[r := b], store, logical', k)
    {
      assert Seen(pool, store, logical, k);
      ViewAfterUpdate(pool, store, k, r, b);
    }
    NotFound(pool, b.name);
  }

  /** Taking a reusable buffer's name away shows nothing new. */
  lemma {:induction false} UnnamingIsTransparent(
      pool: seq<Buf>, store: Storage, logical: Storage, held: map<int, Hold>, r: int, b: Buf)
    requires Consistent(pool, store, logical, held) && 0 <= r < NBUFS
    requires !pool[r].busy && !pool[r].dirty
    requires b.name.dev == -1 && !b.busy && !b.dirty
    ensures Consistent(pool[r := b], store, logical, held)
  {
    hide View, Find;
    forall k: Key | ValidDev(k.dev)
      ensures Seen(pool[r := b], store, logical, k)
    {
      assert Seen(pool, store, logical, k);
      ViewAfterUpdate(pool, store, k, r, b);
    }
  }

  /** Rewriting a named buffer in place, taking it or releasing it. */
  lemma {:induction false} UpdateShowsOneBlock(
      pool: seq<Buf>, store: Storage, logical: Storage, logical': Storage,
      held: map<int, Hold>, held': map<int, Hold>, r: int, b: Buf)
    requires Consistent(pool, store, logical, held) && 0 <= r < NBUFS
    requires ValidDev(b.name.dev) && pool[r].name == b.name && GoodBuf(b, store)
    requires held' == if b.busy then held[r := HoldOf(b, store)] else held - {r}
    requires Shows(logical, logical', b.name, b.data)
    ensures Consistent(pool[r := b], store, logical', held')
  {
    hide View, Find;
    FoundAt(pool, r);
    forall k: Key | ValidDev(k.dev)
      ensures Seen(pool[r := b], store, logical', k)
    {
      assert Seen(pool, store, logical, k);
      ViewAfterUpdate(pool, store, k, r, b);
    }
  }

  /** What Bread relies on when the block is cached and nobody holds it. */
  lemma {:induction false} HitFacts(
      pool: seq<Buf>, store: Storage, logical: Storage, held: map<int, Hold>, k: Key, i: int)
    requires Consistent(pool, store, logical, held) && ValidDev(k.dev) && !IsHeld(held, k)
    requires i == Find(pool, k) != -1
    ensures 0 <= i < NBUFS && i !in held && !pool[i].busy && pool[i].name == k
    ensures pool[i].data == Load(logical, k)
    ensures pool[i].dirty || pool[i].data == Load(store, k)
    ensures forall b: Buf | b.name == k && b.busy :: GoodBuf(b, store)
  {
    assert Seen(pool, store, logical, k);
    assert HoldOf(pool[i], store).name == k;
  }

  /** What Bread relies on when the block is not cached. */
  lemma {:induction false} MissFacts(
      pool: seq<Buf>, store: Storage, logical: Storage, held: map<int, Hold>, k: Key, i: int)
    requires Consistent(pool, store, logical, held) && ValidDev(k.dev)
    requires Find(pool, k) == -1 && 0 <= i < NBUFS && !pool[i].busy
    ensures i !in held && Load(store, k) == Load(logical, k)
  {
    assert Seen(pool, store, logical, k);
  }

  /** Releasing a buffer of zeroes does nothing. */
  lemma {:induction false} UnnamedStays(
      pool: seq<Buf>, store: Storage, logical: Storage, held: map<int, Hold>, i: int)
    requires Consistent(pool, store, logical, held) && 0 <= i < NBUFS && pool[i].name.dev == -1
    ensures pool[i := pool[i].(busy := false, dirty := pool[i].dirty || false)] == pool
    ensures held - {i} == held
  {
  }

  /** What a client knows of a buffer it holds. */
  lemma {:induction false} HeldFacts(pool: seq<Buf>, store: Storage, logical: Storage, held: map<int, Hold>, i: int)
    requires Consistent(pool, store, logical, held) && i in held
    ensures 0 <= i < NBUFS && ValidDev(pool[i].name.dev) && pool[i].busy
    ensures held[i] == HoldOf(pool[i], store)
    ensures Load(logical, pool[i].name) == pool[i].data
  {
    assert Seen(pool, store, logical, pool[i].name);
    FoundAt(pool, i);
  }

  /** Releasing a buffer: its data stays visible, in the pool or on the device. */
  lemma {:induction false} ReleaseIsTransparent(
      pool: seq<Buf>, store: Storage, logical: Storage, held: map<int, Hold>, i: int, dirty: bool)
    requires Consistent(pool, store, logical, held) && i in held
    requires !dirty ==> held[i].clean
    ensures 0 <= i < NBUFS
    ensures Consistent(pool[i := pool[i].(busy := false, dirty := pool[i].dirty || dirty)], store, logical, held - {i})
  {
    HeldFacts(pool, store, logical, held, i);
    var b := pool[i].(busy := false, dirty := pool[i].dirty || dirty);
    UpdateShowsOneBlock(pool, store, logical, logical, held, held - {i}, i, b);
  }

  /** The devices after writing out the dirty buffers among the first n. */
  ghost function Synced(pool: seq<Buf>, store: Storage, n: nat): Storage
    requires n <= |pool|
  {
    if n == 0 then store else WrittenBack(Synced(pool, store, n - 1), pool[n - 1])
  }

  /** A sync stores the data of each dirty buffer in its block and changes no other block. */
  lemma {:induction false} SyncedAt(pool: seq<Buf>, store: Storage, k: Key)
    requires |pool| == NBUFS && Distinct(pool) && ValidDev(k.dev)
    ensures Load(Synced(pool, store, NBUFS), k) ==
            var i := Find(pool, k); if i != -1 && pool[i].dirty then pool[i].data else Load(store, k)
  {
    assert Load(Synced(pool, store, 4), k) == Load(WrittenBack(Synced(pool, store, 3), pool[3]), k);
    assert Load(Synced(pool, store, 3), k) == Load(WrittenBack(Synced(pool, store, 2), pool[2]), k);
    assert Load(Synced(pool, store, 2), k) == Load(WrittenBack(Synced(pool, store, 1), pool[1]), k);
    assert Load(Synced(pool, store, 1), k) == Load(WrittenBack(store, pool[0]), k);
  }

  /** When nobody holds a buffer, a sync makes the devices equal to what clients see. */
  lemma {:induction false} SyncMakesDevicesCurrent(
      pool: seq<Buf>, store: Storage, logical: Storage, held: map<int, Hold>, k: Key)
    requires Consistent(pool, store, logical, held) && held == map[] && ValidDev(k.dev)
    ensures Load(Synced(pool, store, NBUFS), k) == Load(logical, k)
  {
    SyncedAt(pool, store, k);
    assert Seen(pool, store, logical, k);
  }

  class Cache {
    const pool: array<Buf>
    var clock: Word
    var store: Storage                  // the devices
    ghost var logical: Storage          // the devices as clients see them
    ghost var held: map<int, Hold>      // buffers in use, by pool index

    ghost predicate Valid()
      reads this, pool
    {
      pool.Length == NBUFS && Consistent(pool[..], store, logical, held)
    }

    /** Bufinit on a pool of never used buffers. */
    constructor (devices: Storage)
      ensures Valid() && fresh(pool)
      ensures store == devices && logical == devices && held == map[] && clock == 0
    {
      pool := new Buf[NBUFS](_ => Buf(ZERO_BLOCK, Key(-1, 0), false, false, 0));
      clock := 0;
      store := devices;
      logical, held := devices, map[];
    }

    method Bfind(k: Key) returns (r: int)
      requires Valid() && ValidDev(k.dev)
      ensures r == Find(pool[..], k)
    {
      hide Consistent;
      for i := 0 to NBUFS
        invariant forall j | 0 <= j < i :: pool[j].name != k
      {
        if pool[i].name == k {
          return i;
        }
      }
      return -1;
    }

    /** Picks the buffer to reuse and writes it out if it is dirty. */
    method Freebuf() returns (r: int)
      requires Valid() && |held| < NBUFS
      modifies this`store, pool
      ensures Valid()
      ensures 0 <= r < NBUFS && !pool[r].busy
      ensures Oldest(old(pool[..]), clock, r)
      ensures NotAhead(old(pool[..]), clock) ==> LowestStamp(old(pool[..]), r)
      ensures pool[..] == old(pool[..])[r := old(pool[..])[r].(dirty := false)]
      ensures store == WrittenBack(old(store), old(pool[..])[r])
    {
      var oldest, oldtime := -1, 0;
      for i := 0 to NBUFS
        invariant -1 <= oldest < i
        invariant oldest == -1 ==> oldtime == 0 && forall j | 0 <= j < i :: pool[j].busy
        invariant oldest != -1 ==> Oldest(pool[..i], clock, oldest) && oldtime == Age(clock, pool[oldest].time)
      {
        hide Consistent;
        if Age(clock, pool[i].time) >= oldtime && !pool[i].busy {
          oldest, oldtime := i, Age(clock, pool[i].time);
        }
      }
      assert pool[..NBUFS] == pool[..];
      SomeBufferIsFree(pool[..], held);
      EvictionIsTransparent(pool[..], store, logical, held, oldest);
      hide Consistent;
      if pool[oldest].dirty {
        store := Store(store, pool[oldest].name, pool[oldest].data);
        pool[oldest] := pool[oldest].(dirty := false);
      }
      r := oldest;
      if NotAhead(old(pool[..]), clock) {
        OldestHasLowestStamp(old(pool[..]), clock, r);
      }
    }

    /** Hands out the buffer of block k. rewrite == 0 reads the block, 2 clears it unless it
        was cached, 1 leaves whatever the buffer held. */
    method Bread(k: Key, rewrite: int) returns (i: int)
      requires Valid() && ValidDev(k.dev) && 0 <= rewrite <= 2
      requires !IsHeld(held, k)      // "want busy block"
      requires |held| < NBUFS        // "no free buffers"
      modifies this, pool
      ensures Valid() && 0 <= i < NBUFS && i !in old(held)
      ensures i in held && held == old(held)[i := Hold(k, pool[i].data, held[i].clean)]
      ensures rewrite == 0 ==> held[i].clean && pool[i].data == Load(old(logical), k) && logical == old(logical)
      ensures rewrite != 0 ==> logical == Store(old(logical), k, pool[i].data)
      ensures forall j | 0 <= j < NBUFS && j != i :: pool[j] == old(pool[j])
      ensures clock == ToWord(old(clock) + 1)
      ensures var at := Find(old(pool[..]), k);
              if at != -1 then
                i == at && pool[i] == old(pool[..])[i].(busy := true, time := clock) && store == old(store)
              else
                && Oldest(old(pool[..]), old(clock), i)
                && (NotAhead(old(pool[..]), old(clock)) ==> LowestStamp(old(pool[..]), i))
                && store == WrittenBack(old(store), old(pool[..])[i])
                && (pool[i].name, pool[i].dirty, pool[i].busy, pool[i].time) == (k, false, true, clock)
                && (rewrite == 1 ==> pool[i].data == old(pool[..])[i].data)
                && (rewrite == 2 ==> pool[i].data == ZERO_BLOCK)
    {
      hide Consistent, Find, Oldest, GoodBuf, NotAhead, LowestStamp;
      i := Bfind(k);
      if i == -1 {
        i := Miss(k, rewrite);
      } else {
        ghost var before := pool[..];
        HitFacts(before, store, logical, held, k, i);
        clock := ToWord(clock + 1);
        pool[i] := pool[i].(busy := true, time := clock);
        ghost var logical' := if rewrite == 0 then logical else Store(logical, k, pool[i].data);
        UpdateShowsOneBlock(before, store, logical, logical', held, held[i := HoldOf(pool[i], store)], i, pool[i]);
        assert pool[..] == before[i := pool[i]];
        held := held[i := HoldOf(pool[i], store)];
        if rewrite != 0 {
          logical := Store(logical, k, pool[i].data);
        }
      }
    }

    /** Bread of a block that is not cached. */
    method Miss(k: Key, rewrite: int) returns (i: int)
      requires Valid() && ValidDev(k.dev) && 0 <= rewrite <= 2 && |held| < NBUFS && Find(pool[..], k) == -1
      modifies this, pool
      ensures Valid() && 0 <= i < NBUFS && i !in old(held)
      ensures i in held && held == old(held)[i := Hold(k, pool[i].data, held[i].clean)]
      ensures rewrite == 0 ==> held[i].clean && pool[i].data == Load(old(logical), k) && logical == old(logical)
      ensures rewrite != 0 ==> logical == Store(old(logical), k, pool[i].data)
      ensures forall j | 0 <= j < NBUFS && j != i :: pool[j] == old(pool[j])
      ensures clock == ToWord(old(clock) + 1)
      ensures Oldest(old(pool[..]), old(clock), i) && store == WrittenBack(old(store), old(pool[..])[i])
      ensures NotAhead(old(pool[..]), old(clock)) ==> LowestStamp(old(pool[..]), i)
      ensures (pool[i].name, pool[i].dirty, pool[i].busy, pool[i].time) == (k, false, true, clock)
      ensures rewrite == 1 ==> pool[i].data == old(pool[..])[i].data
      ensures rewrite == 2 ==> pool[i].data == ZERO_BLOCK
    {
      hide Consistent, Find, Oldest, GoodBuf, NotAhead, LowestStamp;
      i := Freebuf();
      ghost var before := pool[..];
      FindByName(old(pool[..]), i, before[i], k);
      MissFacts(before, store, logical, held, k, i);
      pool[i] := pool[i].(name := k);
      if rewrite == 0 {
        pool[i] := pool[i].(data := Load(store, k));
      }
      if rewrite == 2 {
        pool[i] := pool[i].(data := ZERO_BLOCK);
      }
      clock := ToWord(clock + 1);
      pool[i] := pool[i].(busy := true, time := clock);
      ghost var logical' := if rewrite == 0 then logical else Store(logical, k, pool[i].data);
      LoadShowsOneBlock(before, store, logical, logical', held, i, pool[i]);
      assert pool[..] == before[i := pool[i]];
      held := held[i := HoldOf(pool[i], store)];
      if rewrite != 0 {
        logical := Store(logical, k, pool[i].data);
      }
    }

    /** Reading through the pointer that Bread returned. */
    method Get(i: int) returns (b: Block)
      requires Valid() && i in held
      ensures b == held[i].data
    {
      b := pool[i].data;
    }

    /** Storing through the pointer that Bread returned. */
    method Put(i: int, b: Block)
      requires Valid() && i in held
      modifies this`logical, this`held, pool
      ensures Valid()
      ensures pool[..] == old(pool[..])[i := old(pool[..])[i].(data := b)]
      ensures exists clean :: held == old(held)[i := Hold(old(held)[i].name, b, clean)]
      ensures ValidDev(old(held)[i].name.dev) && logical == Store(old(logical), old(held)[i].name, b)
    {
      ghost var before := pool[..];
      ghost var b' := before[i].(data := b);
      ghost var clean := b'.dirty || b'.data == Load(store, b'.name);
      HeldFacts(before, store, logical, held, i);
      UpdateShowsOneBlock(before, store, logical, Store(logical, b'.name, b), held, held[i := HoldOf(b', store)], i,
                          b');
      assert held[i := HoldOf(b', store)] == held[i := Hold(held[i].name, b, clean)];
      hide Consistent;
      pool[i] := pool[i].(data := b);
      assert pool[..] == before[i := b'];
      held := held[i := HoldOf(b', store)];
      logical := Store(logical, b'.name, b);
    }

    /** Releases a buffer. dirty == 1 leaves the write for later, 2 writes it out now. */
    method Bfree(i: int, dirty: int) returns (r: int)
      requires Valid() && 0 <= i < NBUFS && 0 <= dirty <= 2
      requires i in held || (pool[i].name.dev == -1 && dirty == 0)
      requires i in held && dirty == 0 ==> held[i].clean
      modifies this`store, this`held, pool
      ensures Valid()
      ensures held == old(held) - {i}
      ensures var b := old(pool[..])[i];
              if dirty == 2 then
                && r == -1 && store == Store(old(store), b.name, b.data)
                && pool[..] == old(pool[..])[i := b.(busy := false, dirty := false)]
              else
                && r == 0 && store == old(store)
                && pool[..] == old(pool[..])[i := b.(busy := false, dirty := b.dirty || dirty != 0)]
    {
      ghost var before := pool[..];
      ghost var b := before[i].(busy := false, dirty := before[i].dirty || dirty != 0);
      if i in held {
        ReleaseIsTransparent(before, store, logical, held, i, dirty != 0);
      } else {
        UnnamedStays(before, store, logical, held, i);
      }
      if dirty == 2 {
        EvictionIsTransparent(before[i := b], store, logical, held - {i}, i);
      }
      hide Consistent, GoodBuf;
      pool[i] := pool[i].(dirty := pool[i].dirty || dirty != 0);
      pool[i] := pool[i].(busy := false);
      assert pool[..] == before[i := b];
      if dirty == 2 {
        store := Store(store, pool[i].name, pool[i].data);
        pool[i] := pool[i].(dirty := false);
        r := -1;
      } else {
        r := 0;
      }
      held := held - {i};
    }

    /** A buffer of zeroes that belongs to no device. */
    method Zerobuf() returns (r: int)
      requires Valid() && |held| < NBUFS
      modifies this`store, pool
      ensures Valid()
      ensures 0 <= r < NBUFS && pool[r].data == ZERO_BLOCK && pool[r].name.dev == -1
      ensures Oldest(old(pool[..]), clock, r)
      ensures NotAhead(old(pool[..]), clock) ==> LowestStamp(old(pool[..]), r)
      ensures store == WrittenBack(old(store), old(pool[..])[r])
      ensures forall j | 0 <= j < NBUFS && j != r :: pool[j] == old(pool[j])
    {
      r := Freebuf();
      ghost var before := pool[..];
      ghost var b := Buf(ZERO_BLOCK, Key(-1, before[r].name.blk), false, false, before[r].time);
      UnnamingIsTransparent(before, store, logical, held, r, b);
      hide Consistent;
      pool[r] := pool[r].(name := Key(-1, pool[r].name.blk));
      pool[r] := pool[r].(data := ZERO_BLOCK);
      assert pool[..] == before[r := b];
    }

    /** Writes out every dirty buffer. The buffers stay marked dirty. */
    method Bufsync()
      requires Valid()
      modifies this`store
      ensures Valid()
      ensures store == Synced(pool[..], old(store), NBUFS)
    {
      for i := 0 to NBUFS
        invariant Valid()
        invariant store == Synced(pool[..], old(store), i)
      {
        SyncIsTransparent(pool[..], store, logical, held, i);
        if pool[i].name.dev != -1 && pool[i].dirty {
          store := Store(store, pool[i].name, pool[i].data);
        }
      }
    }
  }
}
