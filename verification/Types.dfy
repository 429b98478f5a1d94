/** Machine-level types of the 6502 target: bytes, 16-bit words and 512-byte
    disk blocks with their little-endian word view. */
module Types {
  type Byte = x: int | 0 <= x < 256
  type Word = x: int | 0 <= x < 0x1_0000

  const NULLBLK: Word := 0xFFFF

  type Block = s: seq<Byte> | |s| == 512 witness seq(512, _ => 0)

  function Zeroes(): (b: Block)
    ensures forall i | 0 <= i < 512 :: b[i] == 0
  {
    seq(512, _ => 0)
  }

  const ZERO_BLOCK: Block := Zeroes()

  /** The contents of one device: a block for every block number. */
  type Disk = Word -> Block

  /** d with block b replaced by x. */
  function Write(d: Disk, b: Word, x: Block): Disk {
    (c: Word) => if c == b then x else d(c)
  }

  /** Element i of a block seen as an array of 256 block numbers. */
  function WordAt(b: Block, i: int): Word
    requires 0 <= i < 256
  {
    b[2 * i] as int + 256 * (b[2 * i + 1] as int)
  }

  /** Stores w in element i of a block seen as an array of block numbers. */
  function PutWord(b: Block, i: int, w: Word): (r: Block)
    requires 0 <= i < 256
    ensures WordAt(r, i) == w
    ensures forall j | 0 <= j < 256 && j != i :: WordAt(r, j) == WordAt(b, j)
  {
    b[2 * i := w % 256][2 * i + 1 := w / 256]
  }

  /** The words lo..hi of a block, as a sequence. */
  function WordsOf(b: Block, lo: int, hi: int): (r: seq<Word>)
    requires 0 <= lo <= hi <= 256
    ensures |r| == hi - lo
    ensures forall j | 0 <= j < hi - lo :: r[j] == WordAt(b, lo + j)
  {
    seq<Word>(hi - lo, j requires 0 <= j < hi - lo => WordAt(b, lo + j))
  }

  /** The value of an `int` expression that the 16-bit target computes from x. */
  function ToInt16(x: int): int
    ensures -0x8000 <= ToInt16(x) < 0x8000
    ensures -0x8000 <= x < 0x8000 ==> ToInt16(x) == x
  {
    var u := x % 0x1_0000;
    if u < 0x8000 then u else u - 0x1_0000
  }

  /** The value of an unsigned expression that the 16-bit target computes from x. */
  function ToWord(x: int): Word
  {
    x % 0x1_0000
  }

  /** b with the bytes from off on replaced by data. */
  function Splice(b: Block, off: int, data: seq<Byte>): Block
    requires 0 <= off && off + |data| <= 512
  {
    b[..off] + data + b[off + |data|..]
  }

  lemma {:induction false} SubsetSize<T>(a: set<T>, b: set<T>)
    requires a <= b
    ensures |a| <= |b|
    decreases a
  {
    if x :| x in a {
      SubsetSize(a - {x}, b - {x});
    }
  }
}
