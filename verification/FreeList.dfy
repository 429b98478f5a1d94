/** The block free list: a stack of block numbers kept inside the blocks it hands out.
    The superblock caches up to 50 of them; its entry 0 names a free block that holds the
    next 50, or is 0 at the bottom of the stack. */
module FreeList {
  import opened Types

  const NFREE := 50

  ghost predicate NoDup(s: seq<Word>) {
    forall i, j | 0 <= i < j < |s| :: s[i] != s[j]
  }

  /** Superblock fields (nfree, free) and the blocks of disk d store the stack, bottom first. */
  ghost predicate Chain(d: Disk, nfree: int, free: seq<Word>, stack: seq<Word>)
    decreases |stack|
  {
    && |free| == NFREE
    && 1 <= nfree <= NFREE && nfree - 1 <= |stack|
    && (forall k | 1 <= k < nfree :: free[k] == stack[|stack| - nfree + k])
    && if free[0] == 0 then
         |stack| == nfree - 1
       else
         && nfree <= |stack|
         && free[0] == stack[|stack| - nfree]
         && WordAt(d(free[0]), 0) == NFREE
         && Chain(d, NFREE, WordsOf(d(free[0]), 1, 1 + NFREE), stack[..|stack| - nfree])
  }

  /** The block that spills (nfree, free) to disk: the two fields, then whatever follows
      them in the superblock structure. */
  ghost predicate SpillBlock(b: Block, nfree: int, free: seq<Word>)
    requires |free| == NFREE
  {
    WordAt(b, 0) == nfree && WordsOf(b, 1, 1 + NFREE) == free
  }

  /** Only the blocks on the stack matter. */
  lemma {:induction false} ChainFrame(d: Disk, d': Disk, nfree: int, free: seq<Word>, stack: seq<Word>)
    requires Chain(d, nfree, free, stack)
    requires forall b | b in stack :: d'(b) == d(b)
    ensures Chain(d', nfree, free, stack)
    decreases |stack|
  {
    if free[0] != 0 {
      assert free[0] in stack;
      ChainFrame(d, d', NFREE, WordsOf(d(free[0]), 1, 1 + NFREE), stack[..|stack| - nfree]);
    }
  }

  /** Pushing into a superblock array that has room. */
  lemma {:induction false} PushInCore(d: Disk, nfree: int, free: seq<Word>, stack: seq<Word>, blk: Word)
    requires Chain(d, nfree, free, stack) && nfree < NFREE
    ensures Chain(d, nfree + 1, free[nfree := blk], stack + [blk])
  {
    var stack', free' := stack + [blk], free[nfree := blk];
    assert free[0] != 0 ==> stack'[..|stack'| - (nfree + 1)] == stack[..|stack| - nfree];
  }

  /** Pushing onto a full superblock array: blk takes the array over. */
  lemma {:induction false} PushSpills(d: Disk, d': Disk, free: seq<Word>, free': seq<Word>, stack: seq<Word>, blk: Word)
    requires Chain(d, NFREE, free, stack)
    requires blk != 0 && blk !in stack && (forall b | b in stack :: d'(b) == d(b))
    requires SpillBlock(d'(blk), NFREE, free)
    requires |free'| == NFREE && free'[0] == blk
    ensures Chain(d', 1, free', stack + [blk])
  {
    ChainFrame(d, d', NFREE, free, stack);
    assert (stack + [blk])[..|stack|] == stack;
  }

  /** Popping when at least one entry stays in core. */
  lemma {:induction false} PopInCore(d: Disk, nfree: int, free: seq<Word>, stack: seq<Word>)
    requires Chain(d, nfree, free, stack) && nfree > 1
    ensures |stack| > 0 && free[nfree - 1] == stack[|stack| - 1]
    ensures Chain(d, nfree - 1, free, stack[..|stack| - 1])
  {
    var stack' := stack[..|stack| - 1];
    assert free[0] != 0 ==> stack'[..|stack'| - (nfree - 1)] == stack[..|stack| - nfree];
  }

  /** Popping the last entry in core: it is the bottom marker exactly when the stack is
      empty, and otherwise the block that holds the next 50 entries. */
  lemma {:induction false} PopRefills(d: Disk, free: seq<Word>, stack: seq<Word>)
    requires Chain(d, 1, free, stack)
    ensures free[0] == 0 <==> stack == []
    ensures free[0] != 0 ==>
              && free[0] == stack[|stack| - 1]
              && WordAt(d(free[0]), 0) == NFREE
              && Chain(d, NFREE, WordsOf(d(free[0]), 1, 1 + NFREE), stack[..|stack| - 1])
  {
  }

  /** The stack is determined by what the superblock and the disk hold. */
  lemma {:induction false} ChainIsFunctional(d: Disk, nfree: int, free: seq<Word>, s1: seq<Word>, s2: seq<Word>)
    requires Chain(d, nfree, free, s1) && Chain(d, nfree, free, s2)
    requires 0 !in s1 && 0 !in s2
    ensures s1 == s2
    decreases |s1|
  {
    if free[0] == 0 {
      assert s1 == free[1..nfree] && s2 == free[1..nfree];
    } else {
      var m1, m2 := |s1| - nfree, |s2| - nfree;
      ChainIsFunctional(d, NFREE, WordsOf(d(free[0]), 1, 1 + NFREE), s1[..m1], s2[..m2]);
      assert s1[m1..] == free[..nfree] && s2[m2..] == free[..nfree];
      assert s1 == s1[..m1] + s1[m1..] && s2 == s2[..m2] + s2[m2..];
    }
  }

  lemma {:induction false} ChainLength(d: Disk, nfree: int, free: seq<Word>, stack: seq<Word>)
    requires Chain(d, nfree, free, stack) && 0 !in stack
    ensures nfree == if |stack| < NFREE then |stack| + 1 else (|stack| - NFREE) % NFREE + 1
    decreases |stack|
  {
    if free[0] != 0 {
      ChainLength(d, NFREE, WordsOf(d(free[0]), 1, 1 + NFREE), stack[..|stack| - nfree]);
    }
  }

  /** The stack determines every field that stores it. */
  lemma {:induction false} ChainIsCanonical(d: Disk, n: int, free: seq<Word>, d': Disk, n': int, free': seq<Word>,
      stack: seq<Word>)
    requires Chain(d, n, free, stack) && Chain(d', n', free', stack) && 0 !in stack
    ensures n == n' && free[..n] == free'[..n]
  {
    ChainLength(d, n, free, stack);
    ChainLength(d', n', free', stack);
  }

  function Top(stack: seq<Word>): Word
    requires stack != []
  {
    stack[|stack| - 1]
  }

  lemma {:induction false} TopOf(stack: seq<Word>)
    requires NoDup(stack) && stack != []
    ensures var top, rest := stack[|stack| - 1], stack[..|stack| - 1];
            top in stack && top !in rest && NoDup(rest) && forall b | b in rest :: b in stack
  {
  }

  /** A duplicate-free stack of blocks of [lo, hi) has at most hi - lo entries. */
  lemma {:induction false} StackIsSmall(stack: seq<Word>, lo: int, hi: int)
    requires NoDup(stack) && lo <= hi && forall i | 0 <= i < |stack| :: lo <= stack[i] < hi
    ensures |stack| <= hi - lo
    decreases hi - lo
  {
    if i :| 0 <= i < |stack| && stack[i] == hi - 1 {
      var rest := stack[..i] + stack[i + 1..];
      assert forall k | 0 <= k < |rest| :: rest[k] == stack[if k < i then k else k + 1];
      StackIsSmall(rest, lo, hi - 1);
    } else if |stack| > 0 {
      assert lo <= stack[0] < hi;
      StackIsSmall(stack, lo, hi - 1);
    }
  }

  /** The 512 bytes that the spill copies: nfree, the free array, then the memory behind it. */
  function SpillImage(nfree: Word, free: seq<Word>, behind: Block): (r: Block)
    requires |free| == NFREE
    ensures SpillBlock(r, nfree, free)
  {
    var words := [nfree] + free;
    var r := seq<Byte>(512, i requires 0 <= i < 512 =>
                         if i < 102 then (if i % 2 == 0 then words[i / 2] % 256 else words[i / 2] / 256)
                           else behind[i]);
    assert forall k | 0 <= k <= NFREE :: WordAt(r, k) == words[k];
    assert WordsOf(r, 1, 1 + NFREE) == free;
    r
  }
}
