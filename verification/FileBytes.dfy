/** File positions in 16-bit arithmetic (kernel/scall1.c: addoff, min, psize and readi's
    end-of-file test), and file contents as bytes. */
module FileBytes {
  import opened Types
  import opened BlockMap

  /** A file position or size: block number and offset in the block. */
  datatype Off = Off(blkno: Word, offset: int)

  predicate GoodOff(o: Off) {
    0 <= o.offset < 512
  }

  function Position(o: Off): int {
    512 * o.blkno + o.offset
  }

  /** The number of positions that a block number of 16 bits can express. */
  const FILE_MODULUS := 0x200_0000

  /** `min` compares its arguments as signed 16-bit numbers. */
  function Min16(a: int, b: int): int {
    if ToInt16(a) < ToInt16(b) then ToInt16(a) else ToInt16(b)
  }

  /** Addoff: C's % and / on the magnitude of a 16-bit amount, and a 16-bit block number. */
  function AddOff(o: Off, amount: int): Off
    requires -0x8000 <= amount < 0x8000
  {
    if amount >= 0 then
      var off := o.offset + amount % 512;
      if off >= 512 then Off(ToWord(o.blkno + 1 + amount / 512), off - 512)
      else Off(ToWord(o.blkno + amount / 512), off)
    else
      // -amount overflows back to -0x8000, whose quotient and remainder C truncates to zero
      var (mod, quot) := if amount == -0x8000 then (0, -64) else ((-amount) % 512, (-amount) / 512);
      var off := o.offset - mod;
      if off < 0 then Off(ToWord(o.blkno - 1 - quot), off + 512)
      else Off(ToWord(o.blkno - quot), off)
  }

  /** Addoff keeps offsets below 512 and adds exactly, modulo the width of a block number, for
      every amount but -0x8000, which it adds instead of subtracting. */
  lemma {:induction false} AddOffAdds(o: Off, amount: int)
    requires GoodOff(o) && -0x8000 <= amount < 0x8000
    ensures GoodOff(AddOff(o, amount))
    ensures Position(AddOff(o, amount)) == (Position(o) + amount) % FILE_MODULUS <==> amount != -0x8000
  {
    hide ToWord, AddOff;
    if amount >= 0 {
      AddOffForward(o, amount);
    } else if amount == -0x8000 {
      AddOffOverflow(o);
    } else {
      AddOffBack(o, -amount);
    }
  }

  lemma {:induction false} AddOffForward(o: Off, amount: int)
    requires GoodOff(o) && 0 <= amount < 0x8000
    ensures GoodOff(AddOff(o, amount)) && Position(AddOff(o, amount)) == (Position(o) + amount) % FILE_MODULUS
  {
    hide ToWord, AddOff;
    var q, r := amount / 512, amount % 512;
    AddOffIs(o, amount, q, r);
    WrapBlock(o.blkno + q, o.offset + r);
    assert 512 * (o.blkno + q) + (o.offset + r) == Position(o) + amount;
  }

  lemma {:induction false} AddOffIs(o: Off, amount: int, q: int, r: int)
    requires 0 <= amount < 0x8000 && q == amount / 512 && r == amount % 512
    ensures amount == 512 * q + r && 0 <= r < 512
    ensures AddOff(o, amount) ==
            if o.offset + r >= 512 then Off(ToWord((o.blkno + q) + 1), o.offset + r - 512)
            else Off(ToWord(o.blkno + q), o.offset + r)
  {
    hide ToWord;
    assert o.blkno + 1 + amount / 512 == (o.blkno + q) + 1;
  }

  lemma {:induction false} AddOffBack(o: Off, amount: int)
    requires GoodOff(o) && 0 < amount < 0x8000
    ensures GoodOff(AddOff(o, -amount)) && Position(AddOff(o, -amount)) == (Position(o) - amount) % FILE_MODULUS
  {
    hide ToWord;
    var q, r := amount / 512, amount % 512;
    assert amount == 512 * q + r && -(-amount) == amount;
    WrapBlock(o.blkno - q, o.offset - r);
    assert 512 * (o.blkno - q) + (o.offset - r) == Position(o) - amount;
  }

  lemma {:induction false} AddOffOverflow(o: Off)
    requires GoodOff(o)
    ensures GoodOff(AddOff(o, -0x8000)) && Position(AddOff(o, -0x8000)) != (Position(o) - 0x8000) % FILE_MODULUS
  {
    WrapBlock(o.blkno + 64, o.offset);
    WrapBlock(o.blkno - 64, o.offset);
  }

  /** Carrying an offset of -511..1022 into a 16-bit block number. */
  lemma {:induction false} WrapBlock(blk: int, off: int)
    requires -512 < off < 1024
    ensures (512 * blk + off) % FILE_MODULUS ==
            if off < 0 then 512 * ToWord(blk - 1) + off + 512
            else if off >= 512 then 512 * ToWord(blk + 1) + off - 512
            else 512 * ToWord(blk) + off
  {
    var carry := if off < 0 then -1 else if off >= 512 then 1 else 0;
    var q, r := WordQuotient(blk + carry);
    FileMod(512 * blk + off, q, 512 * r + (off - 512 * carry));
    hide ToWord;
  }

  lemma {:induction false} WordQuotient(x: int) returns (q: int, r: int)
    ensures x == 0x1_0000 * q + r && r == ToWord(x) && 0 <= r < 0x1_0000
  {
    q, r := x / 0x1_0000, x % 0x1_0000;
  }

  /** Moving within one block, or to the start of the next. */
  lemma {:induction false} AddOffInBlock(o: Off, amount: int)
    requires GoodOff(o) && 0 <= amount <= 512 - o.offset
    ensures AddOff(o, amount) ==
            if o.offset + amount == 512 then Off(ToWord(o.blkno + 1), 0) else Off(o.blkno, o.offset + amount)
  {
    hide ToWord;
    SameWord(o.blkno);
    if amount == 512 {
      assert amount % 512 == 0 && amount / 512 == 1;
      assert o.blkno + amount / 512 == o.blkno + 1;
    } else {
      assert amount % 512 == amount && amount / 512 == 0;
      assert o.blkno + 1 + amount / 512 == o.blkno + 1 && o.blkno + amount / 512 == o.blkno;
    }
  }

  lemma {:induction false} SameWord(w: Word)
    ensures ToWord(w) == w
  {
  }

  lemma {:induction false} NextWord(w: Word)
    ensures ToWord(w + 1) == if w == 0xFFFF then 0 else w + 1
  {
  }

  // ----- Reading up to the end of the file -----

  /** The number of bytes that readi sets out to read from a file. */
  function ReadLimit(size: Off, o: Off, count: Word): Word {
    if ToWord(size.blkno - o.blkno) >= 64 then count
    else ToWord(Min16(count, ToWord(512 * ToWord(size.blkno - o.blkno) + (size.offset - o.offset))))
  }

  /** The number of bytes between o and the end of the file, at most count. */
  function InFile(size: Off, o: Off, count: Word): int {
    var left := Position(size) - Position(o);
    if left <= 0 then 0 else if count <= left then count else left
  }

  /** Readi stops at the end of the file exactly for these arguments. */
  predicate ReadLimitHolds(size: Off, o: Off, count: Word) {
    var left := Position(size) - Position(o);
    if left < 0 then count == 0 && size.blkno != o.blkno
    else if size.blkno - o.blkno >= 64 then count <= left
    else count <= 0x7FFF
  }

  lemma {:induction false} ReadLimitIsExact(size: Off, o: Off, count: Word)
    requires GoodOff(size) && GoodOff(o)
    ensures ReadLimit(size, o, count) == InFile(size, o, count) <==> ReadLimitHolds(size, o, count)
  {
    hide ReadLimit, Min16;
    var blocks := size.blkno - o.blkno;
    if blocks < -0xFFC0 {
      // 0x1_0000 is at most 63 blocks ahead
      SmallDistance(blocks + 0x1_0000, size.offset - o.offset);
      LimitNear(size, o, count, blocks + 0x1_0000);
    } else if blocks < 0 || blocks >= 64 {
      LimitFar(size, o, count);
    } else {
      SmallDistance(blocks, size.offset - o.offset);
      LimitNear(size, o, count, blocks);
    }
  }

  /** Sixty-four blocks or more away, or behind the end, the count is not limited. */
  lemma {:induction false} LimitFar(size: Off, o: Off, count: Word)
    requires size.blkno - o.blkno >= 64 || -0xFFC0 <= size.blkno - o.blkno < 0
    ensures ReadLimit(size, o, count) == count
  {
    hide Min16;
  }

  /** Otherwise it is the lesser of two signed 16-bit numbers. */
  lemma {:induction false} LimitNear(size: Off, o: Off, count: Word, blocks: int)
    requires GoodOff(size) && GoodOff(o) && 0 <= blocks < 64 && blocks == ToWord(size.blkno - o.blkno)
    ensures var x := 512 * blocks + (size.offset - o.offset);
            ReadLimit(size, o, count) ==
            if count <= 0x7FFF && count >= x then (if x >= 0 then x else x + 0x1_0000)
            else if count > 0x7FFF && count - 0x1_0000 >= x then x + 0x1_0000
            else count
  {
    hide ToInt16;
    SmallDistance(blocks, size.offset - o.offset);
    SignedCount(count);
  }

  lemma {:induction false} SignedCount(count: Word)
    ensures ToInt16(count) == if count <= 0x7FFF then count else count - 0x1_0000
  {
  }

  lemma {:induction false} SmallDistance(blocks: int, diff: int)
    requires 0 <= blocks < 64 && -511 <= diff <= 511
    ensures var x := 512 * blocks + diff;
            -511 <= x <= 0x7FFF && ToInt16(ToWord(x)) == x
  {
  }

  /** A read that starts inside the file and asks for at most 32257 bytes gets exactly the
      bytes up to the end of the file. */
  lemma {:induction false} ShortReadsAreExact(size: Off, o: Off, count: Word)
    requires GoodOff(size) && GoodOff(o) && Position(o) <= Position(size) && count <= 32257
    ensures ReadLimit(size, o, count) == InFile(size, o, count)
  {
    ReadLimitIsExact(size, o, count);
  }

  /** One byte more and 64 blocks before the end, the read runs past the end of the file. */
  lemma {:induction false} LongReadPassesEnd()
    ensures var size, o := Off(64, 0), Off(0, 511);
            GoodOff(size) && GoodOff(o) && Position(o) <= Position(size)
            && ReadLimit(size, o, 32258) == InFile(size, o, 32258) + 1
  {
  }

  /** Asking for nothing just past the end, inside the last block, reads 65535 bytes. */
  lemma {:induction false} EmptyReadPastEnd()
    ensures ReadLimit(Off(0, 0), Off(0, 1), 0) == 0xFFFF
  {
  }

  // ----- One chunk -----

  /** The bytes that one round of the loops moves. */
  function Chunk(left: Word, o: Off): Word {
    ToWord(Min16(left, 512 - o.offset))
  }

  /** A chunk stays inside its block exactly when the remaining count, seen as a signed 16-bit
      number, is not negative. */
  lemma {:induction false} ChunkFits(left: Word, o: Off)
    requires GoodOff(o)
    ensures Chunk(left, o) <= 512 - o.offset <==> left <= 0x7FFF
    ensures left <= 0x7FFF ==> Chunk(left, o) == if left < 512 - o.offset then left else 512 - o.offset
  {
  }

  /** Psize: the number of bytes in a pipe. */
  function Psize(size: Off): int {
    ToInt16(512 * size.blkno + size.offset)
  }

  // ----- Contents -----

  /** Byte p of a file. */
  function FileByte(d: Disk, addr: Addr, p: int): Byte
    requires 0 <= p < FILE_MODULUS
  {
    FileBlock(d, addr, p / 512)[p % 512]
  }

  /** The number of blocks after which positions start over: 18 in a pipe, and the width of a
      block number in a file. */
  function Modulus(ispipe: bool): int {
    if ispipe then 18 * 512 else FILE_MODULUS
  }

  /** A position, going around. */
  function Around(p: int, ispipe: bool): int {
    p % Modulus(ispipe)
  }

  /** Stepping the position at the end of a chunk. */
  function NextOff(o: Off, amount: int, ispipe: bool): Off
    requires 0 <= amount <= 512
  {
    var o' := AddOff(o, amount);
    if ispipe && o'.blkno >= 18 then Off(0, o'.offset) else o'
  }

  lemma {:induction false} NextOffIs(o: Off, amount: int, ispipe: bool)
    requires GoodOff(o) && 0 <= amount <= 512 - o.offset && (ispipe ==> o.blkno < 18)
    ensures var o' := NextOff(o, amount, ispipe);
            && GoodOff(o') && (ispipe ==> o'.blkno < 18)
            && Position(o) + amount <= Modulus(ispipe)
            && Position(o') == if Position(o) + amount == Modulus(ispipe) then 0 else Position(o) + amount
  {
    hide AddOff, ToWord;
    AddOffInBlock(o, amount);
    NextWord(o.blkno);
  }

  /** p % m for the two ring sizes, from quotient and remainder. */
  lemma {:induction false} ModIs(p: int, q: int, r: int, ispipe: bool)
    requires 0 <= r < Modulus(ispipe) && p == (if ispipe then 9216 * q else 0x200_0000 * q) + r
    ensures p % Modulus(ispipe) == r
  {
    if ispipe {
      PipeMod(p, q, r);
    } else {
      FileMod(p, q, r);
    }
  }

  lemma {:induction false} PipeMod(p: int, q: int, r: int)
    requires p == 9216 * q + r && 0 <= r < 9216
    ensures p % 9216 == r && p / 9216 == q
  {
  }

  lemma {:induction false} FileMod(p: int, q: int, r: int)
    requires p == 0x200_0000 * q + r && 0 <= r < 0x200_0000
    ensures p % 0x200_0000 == r && p / 0x200_0000 == q
  {
  }

  /** Quotient and remainder of p. */
  lemma {:induction false} ModOf(p: int, ispipe: bool) returns (q: int, r: int)
    ensures r == p % Modulus(ispipe) && 0 <= r < Modulus(ispipe)
    ensures p == (if ispipe then 9216 * q else 0x200_0000 * q) + r
  {
    if ispipe {
      q, r := p / 9216, p % 9216;
    } else {
      q, r := p / 0x200_0000, p % 0x200_0000;
    }
  }

  lemma {:induction false} NextOffSteps(o: Off, amount: int, ispipe: bool, start: int, done: int)
    requires GoodOff(o) && 0 <= amount <= 512 - o.offset && (ispipe ==> o.blkno < 18)
    requires Position(o) == (start + done) % Modulus(ispipe)
    ensures var o' := NextOff(o, amount, ispipe);
            GoodOff(o') && (ispipe ==> o'.blkno < 18) && Position(o') == (start + done + amount) % Modulus(ispipe)
    ensures Position(o) + amount <= Modulus(ispipe)
  {
    hide NextOff, Position, GoodOff;
    NextOffIs(o, amount, ispipe);
    ModStep(start + done, Position(o), amount, ispipe);
  }

  lemma {:induction false} ModStep(p: int, cur: int, amount: int, ispipe: bool)
    requires cur == p % Modulus(ispipe) && 0 <= amount && cur + amount <= Modulus(ispipe)
    ensures (p + amount) % Modulus(ispipe) == if cur + amount == Modulus(ispipe) then 0 else cur + amount
  {
    var q, r := ModOf(p, ispipe);
    if cur + amount == Modulus(ispipe) {
      ModIs(p + amount, q + 1, 0, ispipe);
    } else {
      ModIs(p + amount, q, cur + amount, ispipe);
    }
  }

  /** How far position p is ahead of start, going around. */
  function Ahead(p: int, start: int, ispipe: bool): int {
    (p - start) % Modulus(ispipe)
  }

  /** The positions of a chunk are those between done and done + amount ahead of the start. */
  lemma {:induction false} ChunkPositions(p: int, start: int, done: int, cur: int, amount: int, ispipe: bool)
    requires cur == (start + done) % Modulus(ispipe) && 0 <= p < Modulus(ispipe)
    requires 0 <= done && 0 <= amount && cur + amount <= Modulus(ispipe) && done + amount <= Modulus(ispipe)
    ensures done <= Ahead(p, start, ispipe) < done + amount <==> cur <= p < cur + amount
    ensures cur <= p < cur + amount ==> Ahead(p, start, ispipe) == done + (p - cur)
  {
    var m, x := Modulus(ispipe), p - cur + done;
    var q, r := ModOf(start + done, ispipe);
    if x < 0 {
      ModIs(p - start, -q - 1, x + m, ispipe);
    } else if x < m {
      ModIs(p - start, -q, x, ispipe);
    } else {
      ModIs(p - start, 1 - q, x - m, ispipe);
    }
  }

  // ----- Whole transfers -----

  /** The first done bytes of a read that starts at position start are in memory at base. */
  ghost predicate Filled(
      mem: seq<Byte>, was: seq<Byte>, base: int, done: int, d: Disk, addr: Addr, start: int, ispipe: bool)
  {
    && |mem| == |was| && 0 <= done && 0 <= base && base + done <= |mem|
    && forall k | 0 <= k < |mem| ::
         mem[k] == if base <= k < base + done then FileByte(d, addr, (start + (k - base)) % Modulus(ispipe)) else was[k]
  }

  lemma {:induction false} ChunkByte(
      d: Disk, addr: Addr, start: int, done: int, o: Off, j: int, amount: int, ispipe: bool)
    requires GoodOff(o) && 0 <= j < amount <= 512 - o.offset && (ispipe ==> o.blkno < 18)
    requires Position(o) == (start + done) % Modulus(ispipe)
    ensures FileByte(d, addr, (start + (done + j)) % Modulus(ispipe)) == FileBlock(d, addr, o.blkno)[o.offset + j]
  {
    hide FileBlock, NextOff, FileByte;
    NextOffIs(o, amount, ispipe);
    hide Modulus;
    ModStep(start + done, Position(o), j, ispipe);
    assert start + done + j == start + (done + j);
    ByteInBlock(d, addr, o.blkno, o.offset + j);
  }

  lemma {:induction false} ByteInBlock(d: Disk, addr: Addr, blk: Word, off: int)
    requires 0 <= off < 512
    ensures 512 * blk + off < FILE_MODULUS && FileByte(d, addr, 512 * blk + off) == FileBlock(d, addr, blk)[off]
  {
    hide FileBlock;
    InBlock(blk, off);
  }

  lemma {:induction false} InBlock(blk: int, off: int)
    requires 0 <= off < 512
    ensures (512 * blk + off) / 512 == blk && (512 * blk + off) % 512 == off
  {
  }

  lemma {:induction false} FilledStep(
      mem: seq<Byte>, mem': seq<Byte>, was: seq<Byte>, base: int, done: int, d: Disk, addr: Addr, start: int,
        ispipe: bool,
      o: Off, amount: int)
    requires Filled(mem, was, base, done, d, addr, start, ispipe)
    requires GoodOff(o) && 0 <= amount <= 512 - o.offset && (ispipe ==> o.blkno < 18)
    requires Position(o) == (start + done) % Modulus(ispipe) && base + done + amount <= |mem|
    requires mem' == mem[..base + done] + FileBlock(d, addr, o.blkno)[o.offset..o.offset + amount]
             + mem[base + done + amount..]
    ensures Filled(mem', was, base, done + amount, d, addr, start, ispipe)
  {
    hide FileBlock, FileByte, Position;
    forall k | 0 <= k < |mem'|
      ensures mem'[k] == if base <= k < base + (done + amount)
              then FileByte(d, addr, (start + (k - base)) % Modulus(ispipe)) else was[k]
    {
      var j := k - base - done;
      if 0 <= j < amount {
        ChunkByte(d, addr, start, done, o, j, amount, ispipe);
        assert done + j == k - base;
      }
    }
  }

  /** The logical block of a position, going around. */
  function FirstBlockOf(start: int, ispipe: bool): Word {
    (start % Modulus(ispipe)) / 512
  }

  /** The position of the logical block that holds byte k of a transfer from start. */
  function BytePos(n: int, start: int, k: int, ispipe: bool): Pos {
    PosOf(n, FirstBlockOf(start + k, ispipe))
  }

  /** Block numbers are new only where none was: in indirect blocks' places, and for blocks that
      hold one of the first done bytes of a write from start. */
  ghost predicate PointersWritten(
      d: Disk, ino: seq<Addr>, d': Disk, ino': seq<Addr>, n: int, start: int, done: int, ispipe: bool)
  {
    && |ino'| == |ino|
    && forall p: Pos | ValidPos(ino, p) && PtrAt(d', ino', p) != PtrAt(d, ino, p) ::
         && PtrAt(d, ino, p) == 0 && p.n == n
         && (Interior(p) || exists k | 0 <= k < done :: p == BytePos(n, start, k, ispipe))
  }

  /** Of a write that starts at position start of inode n, the first done bytes are in the
      file; nothing else in any file differs. */
  ghost predicate Wrote(
      d: Disk, ino: seq<Addr>, d': Disk, ino': seq<Addr>, n: int, start: int, done: int, data: seq<Byte>, ispipe: bool)
  {
    && |ino'| == |ino| && 0 <= n < |ino| && 0 <= done <= |data| && SameInodeBlocks(d, d', ino)
    && (ispipe ==> ino'[n][18] == ino[n][18] && ino'[n][19] == ino[n][19])
    && StillMapped(d, ino, d', ino') && (done > 0 ==> Lookup(d', ino'[n], FirstBlockOf(start, ispipe)) != 0)
    && PointersWritten(d, ino, d', ino', n, start, done, ispipe)
    && (forall m | 0 <= m < |ino| && m != n :: ino'[m] == ino[m])
    && (forall m, b: Word | 0 <= m < |ino| && m != n :: FileBlock(d', ino'[m], b) == FileBlock(d, ino[m], b))
    && (forall p | 0 <= p < FILE_MODULUS ::
          FileByte(d', ino'[n], p) ==
          if p < Modulus(ispipe) && Ahead(p, start, ispipe) < done then data[Ahead(p, start, ispipe)]
          else FileByte(d, ino[n], p))
  }

  lemma {:induction false} SpliceAt(b: Block, off: int, data: seq<Byte>, i: int)
    requires 0 <= off && off + |data| <= 512 && 0 <= i < 512
    ensures Splice(b, off, data)[i] == if off <= i < off + |data| then data[i - off] else b[i]
  {
  }

  lemma {:induction false} WroteStep(
      d: Disk, ino: seq<Addr>, d1: Disk, ino1: seq<Addr>, d2: Disk, ino2: seq<Addr>, n: int, start: int, done: int,
      data: seq<Byte>, ispipe: bool, o: Off, amount: int, x: Block)
    requires Wrote(d, ino, d1, ino1, n, start, done, data, ispipe)
    requires GoodOff(o) && 0 < amount <= 512 - o.offset && (ispipe ==> o.blkno < 18)
    requires Position(o) == (start + done) % Modulus(ispipe) && done + amount <= |data| && |data| <= Modulus(ispipe)
    requires x == Splice(FileBlock(d1, ino1[n], o.blkno), o.offset, data[done..done + amount])
    requires OnlyBlock(d1, ino1, d2, ino2, n, o.blkno, x)
    ensures Wrote(d, ino, d2, ino2, n, start, done + amount, data, ispipe)
  {
    hide FileBlock, Splice, NextOff, PointersWritten, PointersToward, FirstBlockOf;
    NextOffSteps(o, amount, ispipe, start, done);
    BlockIs(o, start + done, ispipe);
    PointersStep(d, ino, d1, ino1, d2, ino2, n, start, done, amount, ispipe, o.blkno);
    forall p | 0 <= p < FILE_MODULUS
      ensures FileByte(d2, ino2[n], p) ==
              if p < Modulus(ispipe) && Ahead(p, start, ispipe) < done + amount then data[Ahead(p, start, ispipe)]
              else FileByte(d, ino[n], p)
    {
      WroteByte(d, ino, d1, ino1, d2, ino2, n, start, done, data, ispipe, o, amount, x, p);
    }
    hide FileByte, Ahead, Modulus, Position;
  }

  lemma {:induction false} BlockIs(o: Off, p: int, ispipe: bool)
    requires GoodOff(o) && Position(o) == p % Modulus(ispipe)
    ensures o.blkno == FirstBlockOf(p, ispipe)
  {
    hide Modulus;
    InBlock(o.blkno, o.offset);
  }

  lemma {:induction false} PointersStep(
      d: Disk, ino: seq<Addr>, d1: Disk, ino1: seq<Addr>, d2: Disk, ino2: seq<Addr>, n: int, start: int, done: int,
      amount: int, ispipe: bool, bn: Word)
    requires PointersWritten(d, ino, d1, ino1, n, start, done, ispipe) && PointersToward(d1, ino1, d2, ino2, n, bn)
    requires 0 <= done && 0 < amount && bn == FirstBlockOf(start + done, ispipe)
    ensures PointersWritten(d, ino, d2, ino2, n, start, done + amount, ispipe)
  {
    hide PtrAt, FirstBlockOf, SlotOf, PathOf;
    assert PosOf(n, bn) == BytePos(n, start, done, ispipe);
  }

  lemma {:induction false} WroteByte(
      d: Disk, ino: seq<Addr>, d1: Disk, ino1: seq<Addr>, d2: Disk, ino2: seq<Addr>, n: int, start: int, done: int,
      data: seq<Byte>, ispipe: bool, o: Off, amount: int, x: Block, p: int)
    requires Wrote(d, ino, d1, ino1, n, start, done, data, ispipe) && 0 <= p < FILE_MODULUS
    requires GoodOff(o) && 0 <= amount <= 512 - o.offset && (ispipe ==> o.blkno < 18)
    requires Position(o) == (start + done) % Modulus(ispipe) && done + amount <= |data| && |data| <= Modulus(ispipe)
    requires Position(o) + amount <= Modulus(ispipe)
    requires x == Splice(FileBlock(d1, ino1[n], o.blkno), o.offset, data[done..done + amount])
    requires OnlyBlock(d1, ino1, d2, ino2, n, o.blkno, x)
    ensures FileByte(d2, ino2[n], p) ==
            if p < Modulus(ispipe) && Ahead(p, start, ispipe) < done + amount then data[Ahead(p, start, ispipe)]
            else FileByte(d, ino[n], p)
  {
    hide FileBlock, Splice, Ahead, OnlyBlock;
    var chunk := data[done..done + amount];
    var inChunk := Position(o) <= p < Position(o) + amount;
    if p < Modulus(ispipe) {
      ChunkPositions(p, start, done, Position(o), amount, ispipe);
    }
    ByteAfterStore(d1, ino1, d2, ino2, n, o, chunk, x, p);
  }

  lemma {:induction false} ByteAfterStore(
      d1: Disk, ino1: seq<Addr>, d2: Disk, ino2: seq<Addr>, n: int, o: Off, chunk: seq<Byte>, x: Block, p: int)
    requires GoodOff(o) && o.offset + |chunk| <= 512 && 0 <= p < FILE_MODULUS && 0 <= n < |ino1|
    requires x == Splice(FileBlock(d1, ino1[n], o.blkno), o.offset, chunk)
    requires OnlyBlock(d1, ino1, d2, ino2, n, o.blkno, x)
    ensures FileByte(d2, ino2[n], p) ==
            if Position(o) <= p < Position(o) + |chunk| then chunk[p - Position(o)] else FileByte(d1, ino1[n], p)
  {
    hide FileBlock, Splice;
    SpliceAt(FileBlock(d1, ino1[n], o.blkno), o.offset, chunk, p % 512);
    assert p == 512 * (p / 512) + p % 512;
  }

  lemma {:induction false} WroteNothing(
      d: Disk, ino: seq<Addr>, d1: Disk, ino1: seq<Addr>, d2: Disk, ino2: seq<Addr>, n: int, start: int, done: int,
      data: seq<Byte>, ispipe: bool, bn: Word)
    requires Wrote(d, ino, d1, ino1, n, start, done, data, ispipe) && Keeps(d1, ino1, d2, ino2, n, bn)
    requires (ispipe ==> bn < 18) && Lookup(d2, ino2[n], bn) == 0
    ensures Wrote(d, ino, d2, ino2, n, start, done, data, ispipe)
  {
    hide FileBlock, Ahead, PointersWritten, PointersToward, PtrAt, Lookup, FirstBlockOf;
    PointersStop(d, ino, d1, ino1, d2, ino2, n, start, done, ispipe, bn);
  }

  /** A round that found no space has stored no block number but those of indirect blocks. */
  lemma {:induction false} PointersStop(
      d: Disk, ino: seq<Addr>, d1: Disk, ino1: seq<Addr>, d2: Disk, ino2: seq<Addr>, n: int, start: int, done: int,
      ispipe: bool, bn: Word)
    requires PointersWritten(d, ino, d1, ino1, n, start, done, ispipe) && PointersToward(d1, ino1, d2, ino2, n, bn)
    requires StillMapped(d1, ino1, d2, ino2) && 0 <= n < |ino| && Lookup(d2, ino2[n], bn) == 0
    ensures PointersWritten(d, ino, d2, ino2, n, start, done, ispipe)
  {
    assert PtrAt(d2, ino2, PosOf(n, bn)) == Lookup(d2, ino2[n], bn);
    assert PtrAt(d1, ino1, PosOf(n, bn)) == Lookup(d1, ino1[n], bn);
    hide PtrAt, Lookup, FirstBlockOf, SlotOf, PathOf;
  }

  /** A write changes no other file. */
  lemma {:induction false} WroteOthers(
      d: Disk, ino: seq<Addr>, d': Disk, ino': seq<Addr>, n: int, start: int, done: int, data: seq<Byte>, ispipe: bool)
    requires Wrote(d, ino, d', ino', n, start, done, data, ispipe)
    ensures OtherFiles(d, ino, d', ino', {n})
  {
    hide PtrAt, FileBlock, FileByte, Ahead;
  }

  /** The bytes of a file after a store of data from position start. */
  ghost predicate Stored(d: Disk, addr: Addr, d': Disk, addr': Addr, start: int, data: seq<Byte>, ispipe: bool) {
    forall p | 0 <= p < FILE_MODULUS ::
      FileByte(d', addr', p) ==
      if p < Modulus(ispipe) && 0 <= Ahead(p, start, ispipe) < |data| then data[Ahead(p, start, ispipe)]
      else FileByte(d, addr, p)
  }

  ghost predicate SameBytes(d: Disk, addr: Addr, d': Disk, addr': Addr) {
    forall p | 0 <= p < FILE_MODULUS :: FileByte(d', addr', p) == FileByte(d, addr, p)
  }

  lemma {:induction false} WroteStored(
      d: Disk, ino: seq<Addr>, d': Disk, ino': seq<Addr>, n: int, start: int, done: int, data: seq<Byte>, ispipe: bool)
    requires Wrote(d, ino, d', ino', n, start, done, data, ispipe)
    ensures 0 <= n < |ino| == |ino'| && 0 <= done <= |data|
    ensures Stored(d, ino[n], d', ino'[n], start, data[..done], ispipe)
  {
    hide FileByte, FileBlock, PtrAt, Ahead;
    forall p | 0 <= p < FILE_MODULUS
      ensures p < Modulus(ispipe) ==> Ahead(p, start, ispipe) >= 0
    {
      AheadNotNegative(p, start, ispipe);
    }
  }

  lemma {:induction false} AheadNotNegative(p: int, start: int, ispipe: bool)
    ensures Ahead(p, start, ispipe) >= 0
  {
  }

  lemma {:induction false} StoredBetween(
      d: Disk, addr: Addr, d1: Disk, addr1: Addr, d2: Disk, addr2: Addr, d': Disk, addr': Addr, start: int,
      data: seq<Byte>, ispipe: bool)
    requires SameBytes(d, addr, d1, addr1) && Stored(d1, addr1, d2, addr2, start, data, ispipe)
             && SameBytes(d2, addr2, d', addr')
    ensures Stored(d, addr, d', addr', start, data, ispipe)
  {
    hide FileByte, Ahead;
  }

  lemma {:induction false} BytesStay(d: Disk, ino: seq<Addr>, d': Disk, ino': seq<Addr>, ex: set<int>, n: int)
    requires OtherFiles(d, ino, d', ino', ex) && 0 <= n < |ino| && n !in ex
    ensures |ino'| == |ino| && ino'[n] == ino[n] && SameBytes(d, ino[n], d', ino'[n])
  {
    hide FileBlock, PtrAt;
  }

  /** After a write the file has no blocks but those it had and those that hold what was written. */
  lemma {:induction false} WrittenWithin(
      d: Disk, ino: seq<Addr>, d': Disk, ino': seq<Addr>, n: int, start: int, done: int, data: seq<Byte>,
      blocks: int, blocks': int)
    requires Wrote(d, ino, d', ino', n, start, done, data, false) && Within(d, ino, n, blocks)
    requires 0 <= start && start + done <= 512 * blocks' <= FILE_MODULUS && blocks <= blocks'
    ensures Within(d', ino', n, blocks')
  {
    hide FileByte, FileBlock, Lookup, Ahead, PtrAt, PosOf;
    forall p: Pos | ValidPos(ino', p) && p.n == n && PtrAt(d', ino', p) != 0
      ensures Interior(p) || UpTo(p, blocks')
    {
      assert ValidPos(ino, p);
      if PtrAt(d, ino, p) == 0 && !Interior(p) {
        var k :| 0 <= k < done && p == BytePos(n, start, k, false);
        BlockBelow(start + k, blocks');
      }
    }
  }

  lemma {:induction false} WrittenNothing(
      d: Disk, ino: seq<Addr>, d': Disk, ino': seq<Addr>, n: int, start: int, data: seq<Byte>, blocks: int)
    requires Wrote(d, ino, d', ino', n, start, 0, data, false) && Within(d, ino, n, blocks)
    ensures Within(d', ino', n, blocks)
  {
    hide FileByte, FileBlock, Lookup, Ahead, PtrAt, PosOf;
    assert forall p: Pos :: ValidPos(ino', p) == ValidPos(ino, p);
  }

  lemma {:induction false} BlockBelow(p: int, blocks: int)
    requires 0 <= p < 512 * blocks <= FILE_MODULUS
    ensures FirstBlockOf(p, false) < blocks
  {
    FileMod(p, 0, p);
  }

  lemma {:induction false} WroteStart(d: Disk, ino: seq<Addr>, n: int, start: int, data: seq<Byte>, ispipe: bool)
    requires 0 <= n < |ino|
    ensures Wrote(d, ino, d, ino, n, start, 0, data, ispipe)
  {
  }

  /** What was written at a position is what a read from there gets. */
  lemma {:induction false} WriteThenRead(
      d: Disk, ino: seq<Addr>, d': Disk, ino': seq<Addr>, n: int, start: int, data: seq<Byte>, ispipe: bool,
      mem: seq<Byte>, was: seq<Byte>, base: int)
    requires Wrote(d, ino, d', ino', n, start, |data|, data, ispipe) && |data| <= Modulus(ispipe)
    requires Filled(mem, was, base, |data|, d', ino'[n], start, ispipe)
    ensures mem[base..base + |data|] == data
  {
    hide FileByte, Ahead;
    forall k | base <= k < base + |data|
      ensures mem[k] == data[k - base]
    {
      var p := (start + (k - base)) % Modulus(ispipe);
      AheadOfStart(start, k - base, ispipe);
      assert mem[k] == FileByte(d', ino'[n], p);
    }
  }

  lemma {:induction false} AheadOfStart(start: int, i: int, ispipe: bool)
    requires 0 <= i < Modulus(ispipe)
    ensures var p := (start + i) % Modulus(ispipe);
            0 <= p < Modulus(ispipe) <= FILE_MODULUS && Ahead(p, start, ispipe) == i
  {
    if ispipe {
      RoundPipe(start, i);
    } else {
      RoundFile(start, i);
    }
  }

  lemma {:induction false} RoundPipe(start: int, i: int)
    requires 0 <= i < 9216
    ensures ((start + i) % 9216 - start) % 9216 == i
  {
  }

  lemma {:induction false} RoundFile(start: int, i: int)
    requires 0 <= i < FILE_MODULUS
    ensures ((start + i) % FILE_MODULUS - start) % FILE_MODULUS == i
  {
  }
}
