/** The order in which truncation frees the blocks of a tree, and why freeing them in
    that order empties the inode and nothing else. */
module FreeOrder {
  import opened Types
  import opened FreeList
  import opened BlockMap

  /** The blocks of the tree with root b, in the order freeblk releases them: entries from
      the last to the first, then the root. */
  function Order(d: Disk, b: Word, level: nat): seq<Word>
    decreases level, 257
  {
    if b == 0 then [] else if level == 0 then [b] else Kids(d, b, level, 0) + [b]
  }

  /** The trees of entries 255 down to j of indirect block b. */
  function Kids(d: Disk, b: Word, level: nat, j: nat): seq<Word>
    requires level > 0 && j <= 256
    decreases level, 256 - j
  {
    if j == 256 then [] else Kids(d, b, level, j + 1) + Order(d, WordAt(d(b), j), level - 1)
  }

  /** The trees of slots 19 down to k of an inode. */
  function Slots(d: Disk, addr: Addr, k: nat): seq<Word>
    requires k <= 20
    decreases 20 - k
  {
    if k == 20 then [] else Slots(d, addr, k + 1) + Order(d, addr[k], Level(k))
  }

  ghost predicate SameOn(d: Disk, d': Disk, s: seq<Word>) {
    forall b | b in s :: d'(b) == d(b)
  }

  ghost predicate SameOff(d: Disk, d': Disk, s: seq<Word>) {
    forall b: Word | b !in s :: d'(b) == d(b)
  }

  ghost predicate Disjoint(s: seq<Word>, t: seq<Word>) {
    forall b | b in s :: b !in t
  }

  lemma {:induction false} OrderFrame(d: Disk, d': Disk, b: Word, level: nat)
    requires SameOn(d, d', Order(d, b, level))
    ensures Order(d', b, level) == Order(d, b, level)
    decreases level, 257
  {
    if b != 0 && level > 0 {
      assert b in Order(d, b, level);
      KidsFrame(d, d', b, level, 0);
    }
  }

  lemma {:induction false} KidsFrame(d: Disk, d': Disk, b: Word, level: nat, j: nat)
    requires level > 0 && j <= 256 && d'(b) == d(b)
    requires SameOn(d, d', Kids(d, b, level, j))
    ensures Kids(d', b, level, j) == Kids(d, b, level, j)
    decreases level, 256 - j
  {
    if j < 256 {
      KidsFrame(d, d', b, level, j + 1);
      OrderFrame(d, d', WordAt(d(b), j), level - 1);
    }
  }

  lemma {:induction false} SlotsFrame(d: Disk, d': Disk, addr: Addr, k: nat)
    requires k <= 20 && SameOn(d, d', Slots(d, addr, k))
    ensures Slots(d', addr, k) == Slots(d, addr, k)
    decreases 20 - k
  {
    if k < 20 {
      SlotsFrame(d, d', addr, k + 1);
      OrderFrame(d, d', addr[k], Level(k));
    }
  }

  // ----- The order lists the stored block numbers of the tree -----

  /** The path of a position below entry j, seen from the root. */
  function Under(j: int, path: Path): Path
    requires !path.Leaf?
  {
    match path
    case Root => Mid(j)
    case Mid(i) => Leaf(j, i)
  }

  lemma {:induction false} AtUnder(d: Disk, b: Word, level: nat, j: int, p: Path)
    requires b != 0 && 0 <= j < 256 && 1 <= level <= 2 && ValidPath(level - 1, p)
    ensures At(d, b, Under(j, p)) == At(d, WordAt(d(b), j), p)
    ensures !p.Leaf? && ValidPath(level, Under(j, p)) && !Under(j, p).Root?
  {
  }

  lemma {:induction false} UnderIsInjective(j: int, p: Path, i: int, q: Path)
    requires !p.Leaf? && !q.Leaf? && Under(j, p) == Under(i, q)
    ensures j == i && p == q
  {
  }

  lemma {:induction false} KidsStep(d: Disk, b: Word, level: nat, j: nat)
    requires level > 0 && j <= 256
    ensures j == 256 ==> Kids(d, b, level, j) == []
    ensures j < 256 ==> Kids(d, b, level, j) == Kids(d, b, level, j + 1) + Order(d, WordAt(d(b), j), level - 1)
  {
  }

  lemma {:induction false} OrderStep(d: Disk, b: Word, level: nat)
    ensures b == 0 ==> Order(d, b, level) == []
    ensures b != 0 && level == 0 ==> Order(d, b, level) == [b]
    ensures b != 0 && level > 0 ==> Order(d, b, level) == Kids(d, b, level, 0) + [b]
    ensures At(d, b, Root) == b && ValidPath(level, Root)
  {
  }

  /** Every listed block number is stored at some position of the tree. */
  lemma {:induction false} ListedIsStored(d: Disk, b: Word, level: nat, x: nat) returns (p: Path)
    requires level <= 2 && x < |Order(d, b, level)|
    ensures b != 0 && ValidPath(level, p) && At(d, b, p) == Order(d, b, level)[x] != 0
    decreases level, 257
  {
    hide *;
    OrderStep(d, b, level);
    if x == |Order(d, b, level)| - 1 {
      p := Root;
    } else {
      var i, q := KidListedIsStored(d, b, level, 0, x);
      p := Under(i, q);
    }
  }

  lemma {:induction false} KidListedIsStored(d: Disk, b: Word, level: nat, j: nat, x: nat) returns (i: int, p: Path)
    requires 1 <= level <= 2 && j <= 256 && b != 0 && x < |Kids(d, b, level, j)|
    ensures j <= i < 256 && ValidPath(level - 1, p) && !p.Leaf? && ValidPath(level, Under(i, p))
    ensures !Under(i, p).Root? && At(d, b, Under(i, p)) == Kids(d, b, level, j)[x] != 0
    decreases level, 256 - j
  {
    hide *;
    KidsStep(d, b, level, j);
    var rest, kid := |Kids(d, b, level, j + 1)|, WordAt(d(b), j);
    if x < rest {
      i, p := KidListedIsStored(d, b, level, j + 1, x);
    } else {
      i := j;
      p := ListedIsStored(d, kid, level - 1, x - rest);
      AtUnder(d, b, level, j, p);
    }
  }

  /** Every stored block number is listed. */
  lemma {:induction false} StoredIsListed(d: Disk, b: Word, level: nat, p: Path) returns (x: nat)
    requires level <= 2 && ValidPath(level, p) && At(d, b, p) != 0
    ensures x < |Order(d, b, level)| && Order(d, b, level)[x] == At(d, b, p)
    decreases level, 257
  {
    OrderStep(d, b, level);
    if p.Root? {
      x := |Order(d, b, level)| - 1;
    } else {
      x := KidStoredIsListed(d, b, level, 0, p.i, if p.Mid? then Root else Mid(p.j));
    }
  }

  lemma {:induction false} KidStoredIsListed(d: Disk, b: Word, level: nat, j: nat, i: int, p: Path) returns (x: nat)
    requires 1 <= level <= 2 && j <= i < 256 && b != 0
    requires ValidPath(level - 1, p) && !p.Leaf? && At(d, b, Under(i, p)) != 0
    ensures x < |Kids(d, b, level, j)| && Kids(d, b, level, j)[x] == At(d, b, Under(i, p))
    decreases level, 256 - j
  {
    hide *;
    KidsStep(d, b, level, j);
    AtUnder(d, b, level, i, p);
    if i == j {
      var y := StoredIsListed(d, WordAt(d(b), j), level - 1, p);
      x := |Kids(d, b, level, j + 1)| + y;
    } else {
      x := KidStoredIsListed(d, b, level, j + 1, i, p);
    }
  }

  /** No two positions of the tree store the same block number. */
  ghost predicate Injective(d: Disk, b: Word, level: nat) {
    forall p, q: Path | ValidPath(level, p) && ValidPath(level, q) && At(d, b, p) == At(d, b, q) != 0 :: p == q
  }

  lemma {:induction false} OrderNoDup(d: Disk, b: Word, level: nat)
    requires level <= 2 && Injective(d, b, level)
    ensures NoDup(Order(d, b, level))
    decreases level, 257
  {
    OrderStep(d, b, level);
    if b != 0 && level > 0 {
      KidsNoDup(d, b, level, 0);
      hide Order, Kids, At;
      var kids := Kids(d, b, level, 0);
      forall x | 0 <= x < |kids|
        ensures kids[x] != b
      {
        var j, q := KidListedIsStored(d, b, level, 0, x);
      }
    }
  }

  lemma {:induction false} KidsNoDup(d: Disk, b: Word, level: nat, j: nat)
    requires 1 <= level <= 2 && j <= 256 && b != 0 && Injective(d, b, level)
    ensures NoDup(Kids(d, b, level, j))
    decreases level, 256 - j
  {
    hide Kids, Order, At, WordAt, Injective;
    KidsStep(d, b, level, j);
    if j < 256 {
      var rest, tree := Kids(d, b, level, j + 1), Order(d, WordAt(d(b), j), level - 1);
      KidIsInjective(d, b, level, j);
      KidsNoDup(d, b, level, j + 1);
      OrderNoDup(d, WordAt(d(b), j), level - 1);
      forall x, y | 0 <= x < |rest| && 0 <= y < |tree|
        ensures rest[x] != tree[y]
      {
        KidsDisjoint(d, b, level, j, x, y);
      }
      ConcatNoDup(rest, tree);
    }
  }

  lemma {:induction false} KidIsInjective(d: Disk, b: Word, level: nat, j: nat)
    requires 1 <= level <= 2 && j < 256 && b != 0 && Injective(d, b, level)
    ensures Injective(d, WordAt(d(b), j), level - 1)
  {
    var kid := WordAt(d(b), j);
    hide At, WordAt, ValidPath;
    forall p, q: Path | ValidPath(level - 1, p) && ValidPath(level - 1, q) && At(d, kid, p) == At(d, kid, q) != 0
      ensures p == q
    {
      AtUnder(d, b, level, j, p);
      AtUnder(d, b, level, j, q);
    }
  }

  lemma {:induction false} KidsDisjoint(d: Disk, b: Word, level: nat, j: nat, x: nat, y: nat)
    requires 1 <= level <= 2 && j < 256 && b != 0 && Injective(d, b, level)
    requires x < |Kids(d, b, level, j + 1)| && y < |Order(d, WordAt(d(b), j), level - 1)|
    ensures Kids(d, b, level, j + 1)[x] != Order(d, WordAt(d(b), j), level - 1)[y]
    decreases level, 256 - j, 0
  {
    hide Kids, Order, At, WordAt, ValidPath, Under;
    var i, p := KidListedIsStored(d, b, level, j + 1, x);
    var q := ListedIsStored(d, WordAt(d(b), j), level - 1, y);
    AtUnder(d, b, level, j, q);
    if Under(i, p) == Under(j, q) {
      UnderIsInjective(i, p, j, q);
    }
  }

  lemma {:induction false} ConcatNoDup(s: seq<Word>, t: seq<Word>)
    requires NoDup(s) && NoDup(t)
    requires forall x, y | 0 <= x < |s| && 0 <= y < |t| :: s[x] != t[y]
    ensures NoDup(s + t)
  {
  }

  // ----- A whole inode -----

  lemma {:induction false} SlotsStep(d: Disk, addr: Addr, k: nat)
    requires k <= 20
    ensures k == 20 ==> Slots(d, addr, k) == []
    ensures k < 20 ==> Slots(d, addr, k) == Slots(d, addr, k + 1) + Order(d, addr[k], Level(k))
    ensures Level(k) <= 2
  {
  }

  lemma {:induction false} SlotListedIsStored(d: Disk, addr: Addr, k: nat, x: nat) returns (i: int, p: Path)
    requires k <= 20 && x < |Slots(d, addr, k)|
    ensures k <= i < 20 && ValidPath(Level(i), p) && At(d, addr[i], p) == Slots(d, addr, k)[x] != 0
    decreases 20 - k
  {
    hide *;
    SlotsStep(d, addr, k);
    var rest := |Slots(d, addr, k + 1)|;
    if x < rest {
      i, p := SlotListedIsStored(d, addr, k + 1, x);
    } else {
      i := k;
      p := ListedIsStored(d, addr[k], Level(k), x - rest);
    }
  }

  lemma {:induction false} SlotStoredIsListed(d: Disk, addr: Addr, k: nat, i: nat, p: Path) returns (x: nat)
    requires k <= i < 20 && ValidPath(Level(i), p) && At(d, addr[i], p) != 0
    ensures x < |Slots(d, addr, k)| && Slots(d, addr, k)[x] == At(d, addr[i], p)
    decreases 20 - k
  {
    hide *;
    SlotsStep(d, addr, k);
    if i == k {
      var y := StoredIsListed(d, addr[k], Level(k), p);
      x := |Slots(d, addr, k + 1)| + y;
    } else {
      x := SlotStoredIsListed(d, addr, k + 1, i, p);
    }
  }

  /** No two positions of the inode store the same block number. */
  ghost predicate InjectiveInode(d: Disk, addr: Addr) {
    forall i, p: Path, j, q: Path | 0 <= i < 20 && 0 <= j < 20 && ValidPath(Level(i), p) && ValidPath(Level(j), q)
        && At(d, addr[i], p) == At(d, addr[j], q) != 0 :: i == j && p == q
  }

  lemma {:induction false} SlotsNoDup(d: Disk, addr: Addr, k: nat)
    requires k <= 20 && InjectiveInode(d, addr)
    ensures NoDup(Slots(d, addr, k))
    decreases 20 - k
  {
    hide Slots, Order, At, ValidPath;
    SlotsStep(d, addr, k);
    if k < 20 {
      var rest, tree := Slots(d, addr, k + 1), Order(d, addr[k], Level(k));
      SlotsNoDup(d, addr, k + 1);
      assert Injective(d, addr[k], Level(k));
      OrderNoDup(d, addr[k], Level(k));
      forall x, y | 0 <= x < |rest| && 0 <= y < |tree|
        ensures rest[x] != tree[y]
      {
        var i, p := SlotListedIsStored(d, addr, k + 1, x);
        var q := ListedIsStored(d, addr[k], Level(k), y);
      }
      ConcatNoDup(rest, tree);
    }
  }

  // ----- Truncation and ownership -----

  /** The blocks that truncating inode n frees are exactly the blocks it owns. */
  lemma {:induction false} SlotsAreOwned(
      d: Disk, ino: seq<Addr>, owner: map<Word, Pos>, stack: seq<Word>, lo: int, hi: int, n: int, b: Word)
    requires Partition(d, ino, owner, stack, lo, hi) && 0 < lo && 0 <= n < |ino|
    ensures b in Slots(d, ino[n], 0) <==> b in owner && owner[b].n == n
  {
    hide Slots, At;
    if b in Slots(d, ino[n], 0) {
      var x :| 0 <= x < |Slots(d, ino[n], 0)| && Slots(d, ino[n], 0)[x] == b;
      var k, p := SlotListedIsStored(d, ino[n], 0, x);
      assert ValidPos(ino, Pos(n, k, p)) && PtrAt(d, ino, Pos(n, k, p)) == b;
    }
    if b in owner && owner[b].n == n {
      var x := SlotStoredIsListed(d, ino[n], 0, owner[b].k, owner[b].path);
    }
  }

  lemma {:induction false} OwnedSlotsNoDup(
      d: Disk, ino: seq<Addr>, owner: map<Word, Pos>, stack: seq<Word>, lo: int, hi: int, n: int)
    requires Partition(d, ino, owner, stack, lo, hi) && 0 < lo && 0 <= n < |ino|
    ensures NoDup(stack + Slots(d, ino[n], 0))
    ensures forall b | b in Slots(d, ino[n], 0) :: lo <= b < hi
  {
    hide Slots;
    var freed := Slots(d, ino[n], 0);
    forall i, p: Path, j, q: Path | 0 <= i < 20 && 0 <= j < 20 && ValidPath(Level(i), p) && ValidPath(Level(j), q)
        && At(d, ino[n][i], p) == At(d, ino[n][j], q) != 0
      ensures i == j && p == q
    {
      assert ValidPos(ino, Pos(n, i, p)) && PtrAt(d, ino, Pos(n, i, p)) == At(d, ino[n][i], p);
      assert ValidPos(ino, Pos(n, j, q)) && PtrAt(d, ino, Pos(n, j, q)) == At(d, ino[n][j], q);
    }
    SlotsNoDup(d, ino[n], 0);
    forall b | b in freed
      ensures lo <= b < hi && b !in stack
    {
      SlotsAreOwned(d, ino, owner, stack, lo, hi, n, b);
    }
    assert forall x, y | 0 <= x < |stack| && 0 <= y < |freed| :: stack[x] in stack && freed[y] in freed;
    ConcatNoDup(stack, freed);
  }

  /** Once the blocks of inode n are on the free stack and its slots are cleared, every
      block is again in exactly one place. */
  lemma {:induction false} TruncationKeepsPartition(
      d: Disk, d': Disk, ino: seq<Addr>, owner: map<Word, Pos>, stack: seq<Word>, lo: int, hi: int, n: int)
    requires Partition(d, ino, owner, stack, lo, hi) && 0 < lo && 0 <= n < |ino|
    requires SameOff(d, d', Slots(d, ino[n], 0))
    ensures Partition(d', ino[n := NO_BLOCKS], map b | b in owner && owner[b].n != n :: owner[b],
                      stack + Slots(d, ino[n], 0), lo, hi)
    ensures forall p: Pos | ValidPos(ino, p) && p.n != n :: PtrAt(d', ino, p) == PtrAt(d, ino, p)
  {
    hide Slots, NoDup, At;
    var freed, ino' := Slots(d, ino[n], 0), ino[n := NO_BLOCKS];
    var owner' := map b | b in owner && owner[b].n != n :: owner[b];
    OwnedSlotsNoDup(d, ino, owner, stack, lo, hi, n);
    forall b: Word
      ensures b in freed <==> b in owner && owner[b].n == n
    {
      SlotsAreOwned(d, ino, owner, stack, lo, hi, n, b);
    }
    forall p: Pos | ValidPos(ino, p) && p.n != n
      ensures PtrAt(d', ino, p) == PtrAt(d, ino, p)
    {
      OtherTreeUntouched(d, d', ino, owner, stack, freed, lo, hi, n, p);
    }
    forall p: Pos | ValidPos(ino', p)
      ensures ValidPos(ino, p) && PtrAt(d', ino', p) == if p.n == n then 0 else PtrAt(d, ino, p)
    {
      if p.n == n {
        EmptyTree(d', p.k, p.path);
      }
    }
    assert forall b | b in owner' :: ValidPos(ino', owner'[b]);
  }

  lemma {:induction false} EmptyTree(d: Disk, k: int, p: Path)
    requires 0 <= k < 20
    ensures At(d, NO_BLOCKS[k], p) == 0
  {
  }

  lemma {:induction false} OtherTreeUntouched(
      d: Disk, d': Disk, ino: seq<Addr>, owner: map<Word, Pos>, stack: seq<Word>, freed: seq<Word>, lo: int, hi: int,
      n: int, p: Pos)
    requires Partition(d, ino, owner, stack, lo, hi) && 0 < lo && 0 <= n < |ino|
    requires SameOff(d, d', freed)
    requires forall b: Word :: b in freed <==> b in owner && owner[b].n == n
    requires ValidPos(ino, p) && p.n != n
    ensures PtrAt(d', ino, p) == PtrAt(d, ino, p)
  {
    var r := Pos(p.n, p.k, Root);
    assert ValidPos(ino, r) && PtrAt(d, ino, r) == ino[p.n][p.k];
    if p.path.Leaf? {
      var m := Pos(p.n, p.k, Mid(p.path.i));
      assert ValidPos(ino, m) && PtrAt(d, ino, m) == Entry(d, ino[p.n][p.k], p.path.i);
    }
  }

  // ----- One step of freeblk's loop -----

  lemma {:induction false} KidsPrefix(d: Disk, b: Word, level: nat, j: nat)
    requires level > 0 && j <= 256
    ensures Kids(d, b, level, j) <= Kids(d, b, level, 0)
    decreases j
  {
    hide Kids, Order;
    if j > 0 {
      KidsStep(d, b, level, j - 1);
      KidsPrefix(d, b, level, j - 1);
    }
  }

  lemma {:induction false} NoDupSplit(s: seq<Word>, t: seq<Word>, u: seq<Word>, whole: seq<Word>)
    requires NoDup(s + whole) && t + u <= whole
    ensures NoDup(s + t + u) && NoDup(s + t) && Disjoint(s + t, u) && Disjoint(u, s + t)
  {
    var all := s + whole;
    assert forall i | 0 <= i < |s + t + u| :: (s + t + u)[i] == all[i];
    assert forall i | 0 <= i < |u| :: u[i] == all[|s + t| + i];
    assert forall i | 0 <= i < |s + t| :: (s + t)[i] == all[i];
  }

  /** What freeing entry j of indirect block b may rely on: its tree, as it is on disk now,
      is new to the stack, and it does not contain b. */
  lemma {:induction false} NextKid(
      d: Disk, now: Disk, b: Word, level: nat, j: nat, stack: seq<Word>)
    requires 1 <= level && j < 256 && b != 0
    requires NoDup(stack + Order(d, b, level))
    requires SameOff(d, now, Kids(d, b, level, j + 1))
    ensures var tree, freed := Order(d, WordAt(d(b), j), level - 1), stack + Kids(d, b, level, j + 1);
            && Order(now, WordAt(d(b), j), level - 1) == tree
            && NoDup(freed + tree)
            && b !in tree
            && forall x | x in tree :: x in Order(d, b, level)
  {
    hide Order, Kids, NoDup, WordAt;
    var rest, tree := Kids(d, b, level, j + 1), Order(d, WordAt(d(b), j), level - 1);
    KidsStep(d, b, level, j);
    KidsPrefix(d, b, level, j);
    OrderStep(d, b, level);
    NoDupSplit(stack, rest, tree, Order(d, b, level));
    RootIsLast(stack, Kids(d, b, level, 0), b);
    assert rest + tree <= Kids(d, b, level, 0);
    assert forall i | 0 <= i < |tree| :: tree[i] == Kids(d, b, level, 0)[|rest| + i];
    assert forall x | x in tree :: x in Kids(d, b, level, 0);
    assert Disjoint(rest, tree) by {
      assert forall x | x in rest :: x in stack + rest;
    }
    OrderFrame(d, now, WordAt(d(b), j), level - 1);
  }

  lemma {:induction false} RootIsLast(stack: seq<Word>, kids: seq<Word>, b: Word)
    requires NoDup(stack + (kids + [b]))
    ensures b !in kids && b !in stack && NoDup(stack + kids)
  {
    var all := stack + (kids + [b]);
    assert forall i | 0 <= i < |stack + kids| :: (stack + kids)[i] == all[i];
    assert forall i | 0 <= i < |kids| :: kids[i] == all[|stack| + i];
    assert forall i | 0 <= i < |stack| :: stack[i] == all[i];
    assert all[|all| - 1] == b;
  }

  lemma {:induction false} SlotsPrefix(d: Disk, addr: Addr, k: nat)
    requires k <= 20
    ensures Slots(d, addr, k) <= Slots(d, addr, 0)
    decreases k
  {
    hide Slots, Order;
    if k > 0 {
      SlotsStep(d, addr, k - 1);
      SlotsPrefix(d, addr, k - 1);
    }
  }

  /** What freeing slot k may rely on once the later slots are freed. */
  lemma {:induction false} NextSlot(d: Disk, now: Disk, addr: Addr, k: nat, stack: seq<Word>)
    requires k < 20 && NoDup(stack + Slots(d, addr, 0)) && SameOff(d, now, Slots(d, addr, k + 1))
    ensures var tree, freed := Order(d, addr[k], Level(k)), stack + Slots(d, addr, k + 1);
            && Order(now, addr[k], Level(k)) == tree
            && NoDup(freed + tree)
            && Slots(d, addr, k) == Slots(d, addr, k + 1) + tree
            && forall x | x in tree :: x in Slots(d, addr, 0)
  {
    hide Order, Slots, NoDup, Level;
    var rest, tree := Slots(d, addr, k + 1), Order(d, addr[k], Level(k));
    SlotsStep(d, addr, k);
    SlotsPrefix(d, addr, k);
    NoDupSplit(stack, rest, tree, Slots(d, addr, 0));
    assert rest + tree <= Slots(d, addr, 0);
    assert forall i | 0 <= i < |tree| :: tree[i] == Slots(d, addr, 0)[|rest| + i];
    assert Disjoint(rest, tree) by {
      assert forall x | x in rest :: x in stack + rest;
    }
    OrderFrame(d, now, addr[k], Level(k));
  }

  // ----- Which block is freed first -----

  /** x stands somewhere in front of y. */
  ghost predicate Before(s: seq<Word>, x: Word, y: Word) {
    exists i, j :: 0 <= i < j < |s| && s[i] == x && s[j] == y
  }

  lemma {:induction false} BeforeAcross(s: seq<Word>, t: seq<Word>, i: nat, j: nat)
    requires i < |s| && j < |t|
    ensures Before(s + t, s[i], t[j])
  {
    var u := s + t;
    assert u[i] == s[i] && u[|s| + j] == t[j];
  }

  lemma {:induction false} BeforeInside(s: seq<Word>, t: seq<Word>, x: Word, y: Word)
    ensures Before(s, x, y) ==> Before(s + t, x, y)
    ensures Before(t, x, y) ==> Before(s + t, x, y)
  {
    var u := s + t;
    if i, j :| 0 <= i < j < |s| && s[i] == x && s[j] == y {
      assert u[i] == x && u[j] == y;
    }
    if i, j :| 0 <= i < j < |t| && t[i] == x && t[j] == y {
      assert u[|s| + i] == x && u[|s| + j] == y;
    }
  }

  /** Of two entries of an indirect block, what hangs under the higher one is freed first. */
  lemma {:induction false} KidsDescend(d: Disk, b: Word, level: nat, j: nat, hi: int, p: Path, lo: int, q: Path)
    requires 1 <= level <= 2 && b != 0 && j <= lo < hi < 256 && !p.Leaf? && !q.Leaf?
    requires ValidPath(level - 1, p) && At(d, b, Under(hi, p)) != 0
    requires ValidPath(level - 1, q) && At(d, b, Under(lo, q)) != 0
    ensures Before(Kids(d, b, level, j), At(d, b, Under(hi, p)), At(d, b, Under(lo, q)))
    decreases 256 - j
  {
    hide At, Before, Order, Kids;
    var x, y := At(d, b, Under(hi, p)), At(d, b, Under(lo, q));
    var rest, tree := Kids(d, b, level, j + 1), Order(d, WordAt(d(b), j), level - 1);
    KidsStep(d, b, level, j);
    if lo == j {
      AtUnder(d, b, level, lo, q);
      var i := KidStoredIsListed(d, b, level, j + 1, hi, p);
      var k := StoredIsListed(d, WordAt(d(b), j), level - 1, q);
      BeforeAcross(rest, tree, i, k);
    } else {
      KidsDescend(d, b, level, j + 1, hi, p, lo, q);
      BeforeInside(rest, tree, x, y);
    }
  }

  /** An indirect block is freed after all that it holds. */
  lemma {:induction false} HolderComesLast(d: Disk, b: Word, level: nat, p: Path)
    requires 1 <= level <= 2 && b != 0 && ValidPath(level, p) && !p.Root? && At(d, b, p) != 0
    ensures Before(Order(d, b, level), At(d, b, p), b)
    ensures p.Leaf? ==> Before(Order(d, b, level), At(d, b, p), At(d, b, Mid(p.i)))
    decreases level
  {
    hide Before, Order, Kids, At;
    OrderStep(d, b, level);
    var kids := Kids(d, b, level, 0);
    var q := if p.Mid? then Root else Mid(p.j);
    assert Under(p.i, q) == p;
    var x := KidStoredIsListed(d, b, level, 0, p.i, q);
    BeforeAcross(kids, [b], x, 0);
    if p.Leaf? {
      AtUnder(d, b, level, p.i, q);
      var c := WordAt(d(b), p.i);
      EntryIsKid(d, b, p.i, p.j);
      HolderComesLast(d, c, 1, q);
      KidInKids(d, b, level, 0, p.i, At(d, b, p), c);
      BeforeInside(kids, [b], At(d, b, p), c);
    }
  }

  lemma {:induction false} EntryIsKid(d: Disk, b: Word, i: int, j: int)
    requires b != 0 && 0 <= i < 256 && At(d, b, Leaf(i, j)) != 0
    ensures At(d, b, Mid(i)) == WordAt(d(b), i) != 0
  {
  }

  lemma {:induction false} KidInKids(d: Disk, b: Word, level: nat, j: nat, i: int, x: Word, y: Word)
    requires 1 <= level <= 2 && j <= i < 256 && Before(Order(d, WordAt(d(b), i), level - 1), x, y)
    ensures Before(Kids(d, b, level, j), x, y)
    decreases 256 - j
  {
    hide Before, Order, Kids;
    KidsStep(d, b, level, j);
    if i > j {
      KidInKids(d, b, level, j + 1, i, x, y);
    }
    BeforeInside(Kids(d, b, level, j + 1), Order(d, WordAt(d(b), j), level - 1), x, y);
  }

  lemma {:induction false} SlotInSlots(d: Disk, addr: Addr, k: nat, i: int, x: Word, y: Word)
    requires k <= i < 20 && Before(Order(d, addr[i], Level(i)), x, y)
    ensures Before(Slots(d, addr, k), x, y)
    decreases 20 - k
  {
    hide Before, Order, Kids, Slots;
    SlotsStep(d, addr, k);
    if i > k {
      SlotInSlots(d, addr, k + 1, i, x, y);
    }
    BeforeInside(Slots(d, addr, k + 1), Order(d, addr[k], Level(k)), x, y);
  }

  lemma {:induction false} SlotsDescend(d: Disk, addr: Addr, k: nat, hi: int, p: Path, lo: int, q: Path)
    requires k <= lo < hi < 20 && ValidPath(Level(hi), p) && At(d, addr[hi], p) != 0
    requires ValidPath(Level(lo), q) && At(d, addr[lo], q) != 0
    ensures Before(Slots(d, addr, k), At(d, addr[hi], p), At(d, addr[lo], q))
    decreases 20 - k
  {
    hide At, Before, Order, Kids, Slots;
    SlotsStep(d, addr, k);
    var rest, tree := Slots(d, addr, k + 1), Order(d, addr[k], Level(k));
    if lo == k {
      var i := SlotStoredIsListed(d, addr, k + 1, hi, p);
      var j := StoredIsListed(d, addr[k], Level(k), q);
      BeforeAcross(rest, tree, i, j);
    } else {
      SlotsDescend(d, addr, k + 1, hi, p, lo, q);
      BeforeInside(rest, tree, At(d, addr[hi], p), At(d, addr[lo], q));
    }
  }

  /** The order in terms of the file: a later block is freed before an earlier one, so that the stack
      hands them out again from the start of the file on. */
  lemma {:induction false} LaterBlocksFirst(d: Disk, addr: Addr, later: Word, earlier: Word)
    requires earlier < later && Lookup(d, addr, later) != 0 && Lookup(d, addr, earlier) != 0
    ensures Before(Slots(d, addr, 0), Lookup(d, addr, later), Lookup(d, addr, earlier))
  {
    hide Before, Order, Kids, Slots;
    var k, p, i, q := SlotOf(later), PathOf(later), SlotOf(earlier), PathOf(earlier);
    var x, y := Lookup(d, addr, later), Lookup(d, addr, earlier);
    if i < k {
      SlotsDescend(d, addr, 0, k, p, i, q);
    } else {
      var b := addr[k];
      OrderStep(d, b, Level(k));
      if k == 18 {
        KidsDescend(d, b, 1, 0, p.i, Root, q.i, Root);
      } else {
        LaterInDouble(d, b, p, q);
      }
      BeforeInside(Kids(d, b, Level(k), 0), [b], x, y);
      SlotInSlots(d, addr, 0, k, x, y);
    }
  }

  lemma {:induction false} LaterInDouble(d: Disk, b: Word, p: Path, q: Path)
    requires b != 0 && ValidPath(2, p) && ValidPath(2, q) && p.Leaf? && q.Leaf? && At(d, b, p) != 0 && At(d, b, q) != 0
    requires q.i < p.i || (q.i == p.i && q.j < p.j)
    ensures Before(Kids(d, b, 2, 0), At(d, b, p), At(d, b, q))
  {
    hide Before, Order, Kids;
    assert Under(p.i, Mid(p.j)) == p && Under(q.i, Mid(q.j)) == q;
    if q.i < p.i {
      KidsDescend(d, b, 2, 0, p.i, Mid(p.j), q.i, Mid(q.j));
    } else {
      var c := WordAt(d(b), p.i);
      KidsDescend(d, c, 1, 0, p.j, Root, q.j, Root);
      OrderStep(d, c, 1);
      BeforeInside(Kids(d, c, 1, 0), [c], At(d, b, p), At(d, b, q));
      KidInKids(d, b, 2, 0, p.i, At(d, b, p), At(d, b, q));
    }
  }
}
