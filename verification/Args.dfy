/** Handing arguments to a new program (kernel/scall2.c: wargs and rargs): they are packed
    into one block of the swap device and unpacked at the top of the program's memory. */
module Args {
  import opened Types
  import opened BufferCache
  import opened FileSystem

  const SWAPDEV := 1
  const ARGMAX := 500
  const HEADER := 6       // a_argc, a_arglen, a_envc in front of a_buf

  /** A C string, without its terminating NUL. */
  type CString = s: seq<Byte> | forall i | 0 <= i < |s| :: s[i] != 0 witness []

  /** The strings one after the other, each with its NUL. */
  function Flat(args: seq<CString>): seq<Byte> {
    if args == [] then [] else Flat(args[..|args| - 1]) + args[|args| - 1] + [0]
  }

  /** Where string j starts. */
  function Start(args: seq<CString>, j: int): nat
    requires 0 <= j <= |args|
  {
    |Flat(args[..j])|
  }

  lemma {:induction false} FlatStep(args: seq<CString>, j: int)
    requires 0 <= j < |args|
    ensures Flat(args[..j + 1]) == Flat(args[..j]) + args[j] + [0]
    ensures Start(args, j + 1) == Start(args, j) + |args[j]| + 1
    ensures Start(args, 0) == 0 && args[..|args|] == args
  {
    assert args[..j + 1][..j] == args[..j];
  }

  lemma {:induction false} FlatPrefix(args: seq<CString>, j: int)
    requires 0 <= j <= |args|
    ensures Flat(args[..j]) <= Flat(args)
    decreases |args| - j
  {
    if j < |args| {
      FlatStep(args, j);
      FlatPrefix(args, j + 1);
    } else {
      assert args[..j] == args;
    }
  }

  /** String j of the packed strings. */
  lemma {:induction false} FlatAt(args: seq<CString>, j: int)
    requires 0 <= j < |args|
    ensures var at := Start(args, j);
            && at + |args[j]| < |Flat(args)|
            && Flat(args)[at..at + |args[j]|] == args[j] && Flat(args)[at + |args[j]|] == 0
  {
    FlatStep(args, j);
    FlatPrefix(args, j + 1);
    var at, n, upto := Start(args, j), |args[j]|, Flat(args[..j + 1]);
    assert forall i | 0 <= i < |upto| :: Flat(args)[i] == upto[i];
    assert upto[at..at + n] == args[j];
  }

  /** There are no more strings than packed bytes. */
  lemma {:induction false} CountFits(args: seq<CString>)
    ensures |args| <= |Flat(args)|
  {
    if args != [] {
      CountFits(args[..|args| - 1]);
    }
  }

  /** The block that wargs leaves for these arguments. */
  ghost predicate Packed(b: Block, args: seq<CString>) {
    && |Flat(args)| < ARGMAX
    && WordAt(b, 0) == |args| && WordAt(b, 1) == |Flat(args)|
    && b[HEADER..HEADER + |Flat(args)|] == Flat(args)
  }

  lemma {:induction false} HeaderKeeps(b: Block, argc: Word, n: Word, flat: seq<Byte>)
    requires |flat| == n < ARGMAX && b[HEADER..HEADER + n] == flat
    ensures var b' := PutWord(PutWord(b, 0, argc), 1, n);
            WordAt(b', 0) == argc && WordAt(b', 1) == n && b'[HEADER..HEADER + n] == flat
  {
    var b' := PutWord(PutWord(b, 0, argc), 1, n);
    assert forall i | HEADER <= i < 512 :: b'[i] == b[i];
  }

  /** Storing one more byte behind the packed ones. */
  lemma {:induction false} OneMore(b: Block, n: int, packed: seq<Byte>, c: Byte)
    requires 0 <= n < ARGMAX && b[HEADER..HEADER + n] == packed
    ensures b[HEADER + n := c][HEADER..HEADER + n + 1] == packed + [c]
  {
  }

  /** Packs the arguments into block blk of the swap device, whatever it held. The result is 0
      exactly when they take at most 499 bytes. */
  method Wargs(cache: Cache, blk: Word, args: seq<CString>) returns (r: int)
    requires cache.Valid() && cache.held == map[]
    modifies cache, cache.pool
    ensures cache.Valid() && cache.held == map[]
    ensures r == 0 || r == 1
    ensures r == 0 <==> |Flat(args)| < ARGMAX
    ensures r == 0 ==> Packed(Load(cache.logical, Key(SWAPDEV, blk)), args)
    ensures forall k: Key | ValidDev(k.dev)
            && k != Key(SWAPDEV, blk) :: Load(cache.logical, k) == Load(old(cache.logical), k)
  {
    hide Consistent, Flat, WordAt, Find, Oldest, PutWord, Packed;
    var i := cache.Bread(Key(SWAPDEV, blk), 2);
    var buf := cache.Get(i);
    buf, r := Pack(buf, args);
    cache.Put(i, buf);
    assert cache.held - {i} == map[];
    var _ := cache.Bfree(i, 1);
  }

  /** What wargs does to the buffer. */
  method Pack(b0: Block, args: seq<CString>) returns (b: Block, r: int)
    ensures r == 0 || r == 1
    ensures r == 0 <==> |Flat(args)| < ARGMAX
    ensures r == 0 ==> Packed(b, args)
  {
    hide Flat, WordAt, PutWord;
    var n := 0;
    b := b0;
    assert args[..0] == [] && Flat([]) == [] by {
      FlatNone();
    }
    for j := 0 to |args|
      invariant 0 <= n < ARGMAX && b[HEADER..HEADER + n] == Flat(args[..j])
    {
      var full;
      b, n, full := PackOne(b, n, args, j);
      if full {
        FlatPrefix(args, j + 1);
        return b, 1;
      }
    }
    assert args[..|args|] == args;
    CountFits(args);
    HeaderKeeps(b, |args|, n, Flat(args));
    b := PutWord(PutWord(b, 0, |args|), 1, n);
    r := 0;
  }

  lemma {:induction false} FlatNone()
    ensures Flat([]) == []
  {
  }

  /** Wargs' inner loop: copies string j up to and including its NUL, unless 500 bytes are
      reached. */
  method PackOne(b0: Block, n0: int, args: seq<CString>, j: int) returns (b: Block, n: int, full: bool)
    requires 0 <= j < |args| && 0 <= n0 < ARGMAX && b0[HEADER..HEADER + n0] == Flat(args[..j])
    ensures full <==> |Flat(args[..j + 1])| >= ARGMAX
    ensures !full ==> 0 <= n < ARGMAX && b[HEADER..HEADER + n] == Flat(args[..j + 1])
  {
    hide Flat;
    FlatStep(args, j);
    b, n, full := b0, n0, false;
    var k := 0;
    ghost var packed := Flat(args[..j]);
    while true
      invariant 0 <= k <= |args[j]| && n == |packed| + k < ARGMAX
      invariant b[HEADER..HEADER + n] == packed + args[j][..k]
      decreases |args[j]| - k
    {
      var c: Byte := if k < |args[j]| then args[j][k] else 0;
      OneMore(b, n, packed + args[j][..k], c);
      b := b[HEADER + n := c];
      n := n + 1;
      if n >= ARGMAX {
        full := true;
        return;
      }
      if c == 0 {
        assert args[j][..k] == args[j];
        return;
      }
      assert packed + args[j][..k] + [c] == packed + args[j][..k + 1];
      k := k + 1;
    }
  }

  // ----- Unpacking -----

  /** Element j of the array of addresses at a in memory. */
  function Pointer(mem: seq<Byte>, a: int, j: int): int
    requires 0 <= a && 0 <= j && a + 2 * j + 1 < |mem|
  {
    mem[a + 2 * j] as int + 256 * (mem[a + 2 * j + 1] as int)
  }

  /** The string at address a. */
  ghost predicate StringAt(mem: seq<Byte>, a: int, s: CString) {
    0 <= a && a + |s| < |mem| && mem[a..a + |s|] == s && mem[a + |s|] == 0
  }

  /** Memory from argv up to top holds the vector for args: the addresses, NULL, then the strings
      without gap or overlap. */
  ghost predicate Vector(mem: seq<Byte>, argv: int, top: int, args: seq<CString>) {
    && 0 <= argv && argv + 2 * (|args| + 1) + |Flat(args)| == top <= |mem|
    && (forall j | 0 <= j < |args| ::
          && Pointer(mem, argv, j) == argv + 2 * (|args| + 1) + Start(args, j)
          && StringAt(mem, Pointer(mem, argv, j), args[j]))
    && Pointer(mem, argv, |args|) == 0
  }

  lemma {:induction false} StringOfFlat(mem: seq<Byte>, at: int, args: seq<CString>, j: int)
    requires 0 <= at && at + |Flat(args)| <= |mem| && mem[at..at + |Flat(args)|] == Flat(args) && 0 <= j < |args|
    ensures StringAt(mem, at + Start(args, j), args[j])
    ensures Start(args, j) + |args[j]| + 1 <= |Flat(args)| && Start(args, j + 1) == Start(args, j) + |args[j]| + 1
    ensures Start(args, 0) == 0
  {
    hide Flat;
    FlatAt(args, j);
    FlatStep(args, j);
    var flat, a := Flat(args), at + Start(args, j);
    assert forall i | 0 <= i < |flat| :: mem[at + i] == flat[i];
    assert mem[a..a + |args[j]|] == flat[Start(args, j)..Start(args, j) + |args[j]|];
  }

  /** Strlen. */
  method Strlen(mem: array<Byte>, s: int, ghost str: CString) returns (len: int)
    requires StringAt(mem[..], s, str)
    ensures len == |str|
  {
    NulEndsString(mem[..], s, str);
    len := 0;
    while mem[s + len] != 0
      invariant 0 <= len <= |str|
      decreases |str| - len
    {
      len := len + 1;
    }
  }

  lemma {:induction false} NulEndsString(mem: seq<Byte>, s: int, str: CString)
    requires StringAt(mem, s, str)
    ensures 0 <= s && s + |str| < |mem| && forall k | s <= k <= s + |str| :: mem[k] == 0 <==> k == s + |str|
  {
    forall k | s <= k < s + |str|
      ensures mem[k] != 0
    {
      assert mem[k] == str[k - s];
    }
  }

  method StorePointer(mem: array<Byte>, a: int, j: int, w: int)
    requires 0 <= a && 0 <= j && a + 2 * j + 1 < mem.Length
    modifies mem
    ensures mem[..] == old(mem[..])[a + 2 * j := ToWord(w) % 256][a + 2 * j + 1 := ToWord(w) / 256]
  {
    mem[a + 2 * j] := ToWord(w) % 256;
    mem[a + 2 * j + 1] := ToWord(w) / 256;
  }

  lemma {:induction false} StoredPointer(mem: seq<Byte>, a: int, j: int, w: int)
    requires 0 <= a && 0 <= j && a + 2 * j + 1 < |mem|
    ensures var mem' := mem[a + 2 * j := ToWord(w) % 256][a + 2 * j + 1 := ToWord(w) / 256];
            && Pointer(mem', a, j) == ToWord(w)
            && (forall i | 0 <= i < j :: Pointer(mem', a, i) == Pointer(mem, a, i))
            && (forall i | 0 <= i < |mem| && !(a + 2 * j <= i <= a + 2 * j + 1) :: mem'[i] == mem[i])
  {
  }

  /** The vector is complete up to element n. */
  ghost predicate PartVector(mem: seq<Byte>, was: seq<Byte>, argv: int, top: int, args: seq<CString>, n: int) {
    && 0 <= argv && argv + 2 * (|args| + 1) + |Flat(args)| == top <= |mem| == |was| <= 0x1_0000 && 0 <= n <= |args|
    && mem[top - |Flat(args)|..top] == Flat(args)
    && (forall j | 0 <= j < n :: Pointer(mem, argv, j) == argv + 2 * (|args| + 1) + Start(args, j))
    && (forall i | 0 <= i < |mem| && !(argv <= i < top) :: mem[i] == was[i])
  }

  lemma {:induction false} NextPointer(
      mem: seq<Byte>, was: seq<Byte>, argv: int, top: int, args: seq<CString>, n: int, w: int)
    requires PartVector(mem, was, argv, top, args, n) && n < |args|
    requires w == argv + 2 * (|args| + 1) + Start(args, n)
    ensures argv + 2 * n + 1 < |mem| && 0 <= w < 0x1_0000
    ensures PartVector(mem[argv + 2 * n := ToWord(w) % 256][argv + 2 * n + 1 := ToWord(w) / 256], was, argv, top, args,
                       n + 1)
  {
    hide Flat, ToWord, Pointer;
    StoredPointer(mem, argv, n, w);
    StringOfFlat(mem, top - |Flat(args)|, args, n);
    SmallWord(w);
    var mem' := mem[argv + 2 * n := ToWord(w) % 256][argv + 2 * n + 1 := ToWord(w) / 256];
    assert mem'[top - |Flat(args)|..top] == mem[top - |Flat(args)|..top];
  }

  lemma {:induction false} SmallWord(w: int)
    ensures 0 <= w < 0x1_0000 ==> ToWord(w) == w
    ensures ToWord(0) == 0
  {
  }

  lemma {:induction false} LastPointer(mem: seq<Byte>, was: seq<Byte>, argv: int, top: int, args: seq<CString>)
    requires PartVector(mem, was, argv, top, args, |args|)
    ensures argv + 2 * |args| + 1 < |mem|
    ensures var mem' := mem[argv + 2 * |args| := ToWord(0) % 256][argv + 2 * |args| + 1 := ToWord(0) / 256];
            Vector(mem', argv, top, args) && forall i | 0 <= i < |mem| && !(argv <= i < top) :: mem'[i] == was[i]
  {
    hide Flat, ToWord, Pointer;
    StoredPointer(mem, argv, |args|, 0);
    SmallWord(0);
    var at, mem' := top - |Flat(args)|,
      mem[argv + 2 * |args| := ToWord(0) % 256][argv + 2 * |args| + 1 := ToWord(0) / 256];
    assert mem'[at..top] == mem[at..top];
    forall j | 0 <= j < |args|
      ensures Pointer(mem', argv, j) == at + Start(args, j) && StringAt(mem', at + Start(args, j), args[j])
    {
      StringOfFlat(mem', at, args, j);
    }
  }

  /** Unpacks the arguments of block blk below address top and returns the address of the
      vector. */
  method Rargs(cache: Cache, blk: Word, mem: array<Byte>, top: int, ghost args: seq<CString>)
    returns (argv: int, argc: int)
    requires cache.Valid() && cache.held == map[] && Packed(Load(cache.logical, Key(SWAPDEV, blk)), args)
    requires |Flat(args)| + 2 * (|args| + 1) <= top <= mem.Length <= 0x1_0000
    modifies cache, cache.pool, mem
    ensures cache.Valid() && cache.held == map[] && cache.logical == old(cache.logical)
    ensures argc == |args| && Vector(mem[..], argv, top, args)
    ensures forall i | 0 <= i < mem.Length && !(argv <= i < top) :: mem[i] == old(mem[i])
  {
    hide Consistent, Flat, WordAt, Find, Oldest, Vector;
    var i := cache.Bread(Key(SWAPDEV, blk), 0);
    var buf := cache.Get(i);
    argv, argc := Unpack(buf, mem, top, args);
    assert cache.held - {i} == map[];
    var _ := cache.Bfree(i, 0);
  }

  /** Rargs' work on the buffer and memory. */
  method Unpack(buf: Block, mem: array<Byte>, top: int, ghost args: seq<CString>) returns (argv: int, argc: int)
    requires Packed(buf, args) && |Flat(args)| + 2 * (|args| + 1) <= top <= mem.Length <= 0x1_0000
    modifies mem
    ensures argc == |args| && Vector(mem[..], argv, top, args)
    ensures forall i | 0 <= i < mem.Length && !(argv <= i < top) :: mem[i] == old(mem[i])
  {
    hide Flat, WordAt, Vector, ToWord, Pointer, StringAt;
    ghost var was, at := mem[..], top - |Flat(args)|;
    var arglen := WordAt(buf, 1);
    argc := WordAt(buf, 0);
    var ptr := top - arglen;
    if arglen != 0 {
      Bcopy(buf[HEADER..HEADER + arglen], mem, ptr);
    }
    argv := ptr - 2 * (argc + 1);
    StartPart(mem[..], was, argv, top, args);
    ghost var before := mem[..];
    StorePointer(mem, argv, 0, ptr);
    FirstStored(before, mem[..], was, argv, top, args);
    PointAll(mem, argv, argc, top, args, was);
    LastPointer(mem[..], was, argv, top, args);
    StorePointer(mem, argv, argc, 0);
  }

  /** Rargs' loop: each address is the previous one, past its string. */
  method PointAll(mem: array<Byte>, argv: int, argc: int, top: int, ghost args: seq<CString>, ghost was: seq<Byte>)
    requires argc == |args| && PartVector(mem[..], was, argv, top, args, if argc > 0 then 1 else 0)
    modifies mem
    ensures PartVector(mem[..], was, argv, top, args, argc)
  {
    hide Flat, ToWord, Pointer, StringAt;
    var n := 1;
    while n < argc
      invariant argc > 0 ==> 1 <= n <= argc
      invariant PartVector(mem[..], was, argv, top, args, if argc > 0 then n else 0)
    {
      ghost var at := top - |Flat(args)|;
      PartBounds(mem[..], was, argv, top, args, n);
      var prev := Pointer(mem[..], argv, n - 1);
      StringOfFlat(mem[..], at, args, n - 1);
      var len := Strlen(mem, prev, args[n - 1]);
      NextPointer(mem[..], was, argv, top, args, n, prev + len + 1);
      StorePointer(mem, argv, n, prev + len + 1);
      n := n + 1;
    }
  }

  lemma {:induction false} PartBounds(mem: seq<Byte>, was: seq<Byte>, argv: int, top: int, args: seq<CString>, n: int)
    requires PartVector(mem, was, argv, top, args, n) && n > 0
    ensures 0 <= argv && argv + 2 * (n - 1) + 1 < |mem| && argv + 2 * n + 1 < |mem|
    ensures Pointer(mem, argv, n - 1) == top - |Flat(args)| + Start(args, n - 1)
  {
    hide Flat, Pointer;
  }

  lemma {:induction false} StartPart(mem: seq<Byte>, was: seq<Byte>, argv: int, top: int, args: seq<CString>)
    requires 0 <= argv && argv + 2 * (|args| + 1) + |Flat(args)| == top <= |mem| == |was| <= 0x1_0000
    requires mem == was[..top - |Flat(args)|] + Flat(args) + was[top..] || (Flat(args) == [] && mem == was)
    ensures PartVector(mem, was, argv, top, args, 0)
  {
    hide Flat, Pointer;
  }

  lemma {:induction false} StartIsZero(args: seq<CString>)
    ensures Start(args, 0) == 0
  {
    assert args[..0] == [];
  }

  /** Storing argv[0]: with no arguments it is overwritten by NULL. */
  lemma {:induction false} FirstStored(mem: seq<Byte>, mem': seq<Byte>, was: seq<Byte>, argv: int, top: int,
      args: seq<CString>)
    requires PartVector(mem, was, argv, top, args, 0)
    requires var ptr := top - |Flat(args)|; mem' == mem[argv := ToWord(ptr) % 256][argv + 1 := ToWord(ptr) / 256]
    ensures PartVector(mem', was, argv, top, args, if |args| > 0 then 1 else 0)
  {
    hide Flat, ToWord, Pointer;
    StartIsZero(args);
    if |args| > 0 {
      NextPointer(mem, was, argv, top, args, 0, top - |Flat(args)|);
    } else {
      assert mem'[top - |Flat(args)|..top] == mem[top - |Flat(args)|..top];
    }
  }

  // ----- Execve -----

  /** A vector does not depend on the memory around it. */
  lemma {:induction false} VectorStays(mem: seq<Byte>, mem': seq<Byte>, argv: int, top: int, args: seq<CString>)
    requires Vector(mem, argv, top, args) && |mem'| == |mem| && forall i | argv <= i < top :: mem'[i] == mem[i]
    ensures Vector(mem', argv, top, args)
  {
    hide Flat;
    forall j | 0 <= j < |args|
      ensures Pointer(mem', argv, j) == Pointer(mem, argv, j) && StringAt(mem', Pointer(mem, argv, j), args[j])
    {
      FlatAt(args, j);
      var a, n := Pointer(mem, argv, j), |args[j]|;
      assert argv <= a && a + n < top;
      assert mem'[a..a + n] == mem[a..a + n];
    }
  }

  /** What the stack of a new program holds from sp on: argv's address, argc, then the environment's
      vector and the arguments', without gap or overlap. */
  ghost predicate ProgramStack(mem: seq<Byte>, sp: int, argv: int, top: int, args: seq<CString>, env: seq<CString>) {
    && 0 <= sp && Vector(mem, argv, top, args) && Vector(mem, sp + 4, argv, env)
    && Pointer(mem, sp, 0) == argv && Pointer(mem, sp, 1) == |args|
  }

  /** Execve's passing of argv and envp: each is packed into a block of its own, and the new program
      finds both vectors with exactly the strings that were passed, whatever the blocks and memory held. */
  method PassVectors(cache: Cache, swap: Word, args: seq<CString>, env: seq<CString>, mem: array<Byte>, top: int)
    returns (r: int, sp: int, argv: int)
    requires cache.Valid() && cache.held == map[] && swap < 0xFFFF
    requires |Flat(args)| <= 499 && |Flat(env)| <= 499 ==>
               |Flat(args)| + 2 * (|args| + 1) + |Flat(env)| + 2 * (|env| + 1) + 4 <= top <= mem.Length <= 0x1_0000
    modifies cache, cache.pool, mem
    ensures cache.Valid() && cache.held == map[]
    ensures r == 0 <==> |Flat(args)| <= 499 && |Flat(env)| <= 499
    ensures r == 0 ==> ProgramStack(mem[..], sp, argv, top, args, env)
                       && forall i | 0 <= i < mem.Length && !(sp <= i < top) :: mem[i] == old(mem[i])
    ensures r != 0 ==> mem[..] == old(mem[..])
    ensures forall k: Key | ValidDev(k.dev) && k != Key(SWAPDEV, swap) && k != Key(SWAPDEV, swap + 1) ::
              Load(cache.logical, k) == Load(old(cache.logical), k)
  {
    hide Consistent, Flat, Vector, Packed, Load, ProgramStack;
    sp, argv := 0, 0;
    r := Wargs(cache, swap, args);
    if r == 0 {
      r := Wargs(cache, swap + 1, env);
      if r == 0 {
        sp, argv := ReadBack(cache, swap, args, env, mem, top);
      }
    }
  }

  /** Exec2's part: reading both back and the two words below envp. */
  method ReadBack(cache: Cache, swap: Word, ghost args: seq<CString>, ghost env: seq<CString>, mem: array<Byte>,
      top: int)
    returns (sp: int, argv: int)
    requires cache.Valid() && cache.held == map[] && swap < 0xFFFF
    requires Packed(Load(cache.logical, Key(SWAPDEV, swap)), args)
             && Packed(Load(cache.logical, Key(SWAPDEV, swap + 1)), env)
    requires |Flat(args)| + 2 * (|args| + 1) + |Flat(env)| + 2 * (|env| + 1) + 4 <= top <= mem.Length <= 0x1_0000
    modifies cache, cache.pool, mem
    ensures cache.Valid() && cache.held == map[] && cache.logical == old(cache.logical)
    ensures ProgramStack(mem[..], sp, argv, top, args, env)
    ensures forall i | 0 <= i < mem.Length && !(sp <= i < top) :: mem[i] == old(mem[i])
  {
    hide Consistent, Flat, Vector, Packed, Load, ProgramStack, Pointer, ToWord;
    var argc;
    argv, argc := Rargs(cache, swap, mem, top, args);
    ghost var mem1 := mem[..];
    VectorBounds(mem1, argv, top, args);
    var envp, envc := Rargs(cache, swap + 1, mem, argv, env);
    ghost var mem2 := mem[..];
    VectorBounds(mem2, envp, argv, env);
    VectorStays(mem1, mem2, argv, top, args);
    sp := envp - 4;
    StorePointer(mem, sp, 1, argc);
    ghost var mem3 := mem[..];
    StorePointer(mem, sp, 0, argv);
    TwoWords(mem2, mem3, mem[..], sp, argc, argv);
    VectorStays(mem2, mem[..], argv, top, args);
    VectorStays(mem2, mem[..], envp, argv, env);
    StackIs(mem[..], sp, argv, top, args, env);
  }

  lemma {:induction false} VectorBounds(mem: seq<Byte>, argv: int, top: int, args: seq<CString>)
    requires Vector(mem, argv, top, args)
    ensures 0 <= argv && argv + 2 * (|args| + 1) + |Flat(args)| == top <= |mem|
  {
  }

  lemma {:induction false} TwoWords(mem: seq<Byte>, mem1: seq<Byte>, mem2: seq<Byte>, sp: int, argc: int, argv: int)
    requires 0 <= sp && sp + 4 <= |mem| && 0 <= argc < 0x1_0000 && 0 <= argv < 0x1_0000
    requires mem1 == mem[sp + 2 * 1 := ToWord(argc) % 256][sp + 2 * 1 + 1 := ToWord(argc) / 256]
    requires mem2 == mem1[sp + 2 * 0 := ToWord(argv) % 256][sp + 2 * 0 + 1 := ToWord(argv) / 256]
    ensures |mem2| == |mem| && Pointer(mem2, sp, 0) == argv && Pointer(mem2, sp, 1) == argc
    ensures forall i | 0 <= i < |mem| && !(sp <= i < sp + 4) :: mem2[i] == mem[i]
  {
    SmallWord(argc);
    SmallWord(argv);
    hide ToWord;
  }

  lemma {:induction false} StackIs(mem: seq<Byte>, sp: int, argv: int, top: int, args: seq<CString>, env: seq<CString>)
    requires 0 <= sp && Vector(mem, argv, top, args) && Vector(mem, sp + 4, argv, env)
    requires sp + 4 <= |mem| && Pointer(mem, sp, 0) == argv && Pointer(mem, sp, 1) == |args|
    ensures ProgramStack(mem, sp, argv, top, args, env)
  {
    hide Vector;
  }
}
