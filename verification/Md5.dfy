/**
 The streaming MD5 implementation: a context that is fed in pieces, with a
 partially filled block buffer, a split byte counter, and an unrolled block
 transform over rewritten boolean functions.
 */
module Md5 {
  import opened Md5Spec

  // ----- the boolean functions as the transform computes them

  function FastF(x: Word, y: Word, z: Word): Word { z ^ (x & (y ^ z)) }
  function FastG(x: Word, y: Word, z: Word): Word { y ^ (z & (x ^ y)) }
  function FastH(x: Word, y: Word, z: Word): Word { (x ^ y) ^ z }
  function FastH2(x: Word, y: Word, z: Word): Word { x ^ (y ^ z) }
  function FastI(x: Word, y: Word, z: Word): Word { y ^ (x | !z) }

  /** The selection by `x` without an AND-NOT. */
  lemma Selection(x: Word, y: Word, z: Word)
    ensures z ^ (x & (y ^ z)) == (x & y) | (!x & z)
    ensures y ^ (z & (x ^ y)) == (x & z) | (y & !z)
  {
  }

  lemma FastFIsF(x: Word, y: Word, z: Word)
    ensures FastF(x, y, z) == F(x, y, z)
  {
    Selection(x, y, z);
  }

  lemma FastGIsG(x: Word, y: Word, z: Word)
    ensures FastG(x, y, z) == G(x, y, z)
  {
    Selection(x, y, z);
  }

  lemma BothHAreH(x: Word, y: Word, z: Word)
    ensures FastH(x, y, z) == FastH2(x, y, z) == H(x, y, z)
  {
  }

  /** The function that the unrolled code uses for operation `i`. */
  function FastMix(i: nat, x: Word, y: Word, z: Word): Word {
    if i < 16 then FastF(x, y, z)
    else if i < 32 then FastG(x, y, z)
    else if i < 48 then (if i % 2 == 0 then FastH(x, y, z) else FastH2(x, y, z))
    else FastI(x, y, z)
  }

  lemma FastMixIsMix(i: nat, x: Word, y: Word, z: Word)
    ensures FastMix(i, x, y, z) == Mix(i, x, y, z)
  {
    hide F, G, H, FastF, FastG, FastH, FastH2;
    FastFIsF(x, y, z);
    FastGIsG(x, y, z);
    BothHAreH(x, y, z);
  }

  /** STEP: the new value of its first register. */
  function Step(f: Word, a: Word, b: Word, x: Word, t: Word, s: nat): Word
    requires 0 < s < 32
  {
    Circular(a + (f + x + t), s) + b
  }

  lemma StepIsRotated(f: Word, a: Word, b: Word, x: Word, t: Word, s: nat)
    requires 0 < s < 32
    ensures Step(f, a, b, x, t, s) == Rotated(a, b, f, x, t, s)
  {
    hide Circular;
    SumOrder(a, f, x, t);
    Commute(Circular(a + f + x + t, s), b);
  }

  lemma SumOrder(a: Word, f: Word, x: Word, t: Word)
    ensures a + (f + x + t) == a + f + x + t
  {
  }

  lemma Commute(v: Word, b: Word)
    ensures v + b == b + v
  {
  }

  // Operation `i` performed with STEP, for each of the registers it can rewrite.

  lemma StepA(i: nat, r: Registers, chunk: seq<Byte>, p: Registers, f: Word, k: nat, x: Word, t: Word, s: nat)
    requires i % 4 == 0 && i < 64 && 0 < s < 32 && |chunk| == BLOCK && p == Operations(i, r, chunk)
    requires f == FastMix(i, p.b, p.c, p.d) && Prescribed(i, k, t, s) && k < 16 && x == BlockWord(chunk, k)
    ensures Operations(i + 1, r, chunk) == p.(a := Step(f, p.a, p.b, x, t, s))
  {
    hide Rotated, Step, Mix, FastMix, BlockWord, MessageIndex, Sine, Shift;
    FastMixIsMix(i, p.b, p.c, p.d);
    StepIsRotated(f, p.a, p.b, x, t, s);
  }

  lemma StepD(i: nat, r: Registers, chunk: seq<Byte>, p: Registers, f: Word, k: nat, x: Word, t: Word, s: nat)
    requires i % 4 == 1 && i < 64 && 0 < s < 32 && |chunk| == BLOCK && p == Operations(i, r, chunk)
    requires f == FastMix(i, p.a, p.b, p.c) && Prescribed(i, k, t, s) && k < 16 && x == BlockWord(chunk, k)
    ensures Operations(i + 1, r, chunk) == p.(d := Step(f, p.d, p.a, x, t, s))
  {
    hide Rotated, Step, Mix, FastMix, BlockWord, MessageIndex, Sine, Shift;
    FastMixIsMix(i, p.a, p.b, p.c);
    StepIsRotated(f, p.d, p.a, x, t, s);
  }

  lemma StepC(i: nat, r: Registers, chunk: seq<Byte>, p: Registers, f: Word, k: nat, x: Word, t: Word, s: nat)
    requires i % 4 == 2 && i < 64 && 0 < s < 32 && |chunk| == BLOCK && p == Operations(i, r, chunk)
    requires f == FastMix(i, p.d, p.a, p.b) && Prescribed(i, k, t, s) && k < 16 && x == BlockWord(chunk, k)
    ensures Operations(i + 1, r, chunk) == p.(c := Step(f, p.c, p.d, x, t, s))
  {
    hide Rotated, Step, Mix, FastMix, BlockWord, MessageIndex, Sine, Shift;
    FastMixIsMix(i, p.d, p.a, p.b);
    StepIsRotated(f, p.c, p.d, x, t, s);
  }

  lemma StepB(i: nat, r: Registers, chunk: seq<Byte>, p: Registers, f: Word, k: nat, x: Word, t: Word, s: nat)
    requires i % 4 == 3 && i < 64 && 0 < s < 32 && |chunk| == BLOCK && p == Operations(i, r, chunk)
    requires f == FastMix(i, p.c, p.d, p.a) && Prescribed(i, k, t, s) && k < 16 && x == BlockWord(chunk, k)
    ensures Operations(i + 1, r, chunk) == p.(b := Step(f, p.b, p.c, x, t, s))
  {
    hide Rotated, Step, Mix, FastMix, BlockWord, MessageIndex, Sine, Shift;
    FastMixIsMix(i, p.c, p.d, p.a);
    StepIsRotated(f, p.b, p.c, x, t, s);
  }

  lemma WordOfBytes(b0: Byte, b1: Byte, b2: Byte, b3: Byte)
    ensures (b0 as Word) | ((b1 as Word) << 8) | ((b2 as Word) << 16) | ((b3 as Word) << 24) ==
            (b0 as Word) + (b1 as Word) * 0x100 + (b2 as Word) * 0x1_0000 + (b3 as Word) * 0x100_0000
  {
  }

  /** What the table prescribes for operation `i`. */
  ghost predicate Prescribed(i: nat, k: nat, t: Word, s: nat) {
    MessageIndex(i) == k && Sine(i) == t && Shift(i) == s
  }

  lemma Table1()
    ensures Prescribed(0, 0, 0xd76aa478, 7)
    ensures Prescribed(1, 1, 0xe8c7b756, 12)
    ensures Prescribed(2, 2, 0x242070db, 17)
    ensures Prescribed(3, 3, 0xc1bdceee, 22)
    ensures Prescribed(4, 4, 0xf57c0faf, 7)
    ensures Prescribed(5, 5, 0x4787c62a, 12)
    ensures Prescribed(6, 6, 0xa8304613, 17)
    ensures Prescribed(7, 7, 0xfd469501, 22)
    ensures Prescribed(8, 8, 0x698098d8, 7)
    ensures Prescribed(9, 9, 0x8b44f7af, 12)
    ensures Prescribed(10, 10, 0xffff5bb1, 17)
    ensures Prescribed(11, 11, 0x895cd7be, 22)
    ensures Prescribed(12, 12, 0x6b901122, 7)
    ensures Prescribed(13, 13, 0xfd987193, 12)
    ensures Prescribed(14, 14, 0xa679438e, 17)
    ensures Prescribed(15, 15, 0x49b40821, 22)
  {
  }

  lemma Table2()
    ensures Prescribed(16, 1, 0xf61e2562, 5)
    ensures Prescribed(17, 6, 0xc040b340, 9)
    ensures Prescribed(18, 11, 0x265e5a51, 14)
    ensures Prescribed(19, 0, 0xe9b6c7aa, 20)
    ensures Prescribed(20, 5, 0xd62f105d, 5)
    ensures Prescribed(21, 10, 0x02441453, 9)
    ensures Prescribed(22, 15, 0xd8a1e681, 14)
    ensures Prescribed(23, 4, 0xe7d3fbc8, 20)
    ensures Prescribed(24, 9, 0x21e1cde6, 5)
    ensures Prescribed(25, 14, 0xc33707d6, 9)
    ensures Prescribed(26, 3, 0xf4d50d87, 14)
    ensures Prescribed(27, 8, 0x455a14ed, 20)
    ensures Prescribed(28, 13, 0xa9e3e905, 5)
    ensures Prescribed(29, 2, 0xfcefa3f8, 9)
    ensures Prescribed(30, 7, 0x676f02d9, 14)
    ensures Prescribed(31, 12, 0x8d2a4c8a, 20)
  {
  }

  lemma Table3()
    ensures Prescribed(32, 5, 0xfffa3942, 4)
    ensures Prescribed(33, 8, 0x8771f681, 11)
    ensures Prescribed(34, 11, 0x6d9d6122, 16)
    ensures Prescribed(35, 14, 0xfde5380c, 23)
    ensures Prescribed(36, 1, 0xa4beea44, 4)
    ensures Prescribed(37, 4, 0x4bdecfa9, 11)
    ensures Prescribed(38, 7, 0xf6bb4b60, 16)
    ensures Prescribed(39, 10, 0xbebfbc70, 23)
    ensures Prescribed(40, 13, 0x289b7ec6, 4)
    ensures Prescribed(41, 0, 0xeaa127fa, 11)
    ensures Prescribed(42, 3, 0xd4ef3085, 16)
    ensures Prescribed(43, 6, 0x04881d05, 23)
    ensures Prescribed(44, 9, 0xd9d4d039, 4)
    ensures Prescribed(45, 12, 0xe6db99e5, 11)
    ensures Prescribed(46, 15, 0x1fa27cf8, 16)
    ensures Prescribed(47, 2, 0xc4ac5665, 23)
  {
  }

  lemma Table4()
    ensures Prescribed(48, 0, 0xf4292244, 6)
    ensures Prescribed(49, 7, 0x432aff97, 10)
    ensures Prescribed(50, 14, 0xab9423a7, 15)
    ensures Prescribed(51, 5, 0xfc93a039, 21)
    ensures Prescribed(52, 12, 0x655b59c3, 6)
    ensures Prescribed(53, 3, 0x8f0ccc92, 10)
    ensures Prescribed(54, 10, 0xffeff47d, 15)
    ensures Prescribed(55, 1, 0x85845dd1, 21)
    ensures Prescribed(56, 8, 0x6fa87e4f, 6)
    ensures Prescribed(57, 15, 0xfe2ce6e0, 10)
    ensures Prescribed(58, 6, 0xa3014314, 15)
    ensures Prescribed(59, 13, 0x4e0811a1, 21)
    ensures Prescribed(60, 4, 0xf7537e82, 6)
    ensures Prescribed(61, 11, 0xbd3af235, 10)
    ensures Prescribed(62, 2, 0x2ad7d2bb, 15)
    ensures Prescribed(63, 9, 0xeb86d391, 21)
  {
  }

  /** Widths of the two halves of the byte counter, and of `size_t`. */
  const LO_LIMIT: nat := 0x2000_0000
  const WORD_LIMIT: nat := 0x1_0000_0000
  const SIZE_LIMIT: nat := 0x1_0000_0000_0000_0000

  /** The length of the full blocks of `n` bytes. */
  function Full(n: nat): (f: nat)
    ensures f <= n < f + BLOCK && f % BLOCK == 0
  {
    n - n % BLOCK
  }

  /** `r` is the fold over the full blocks of `message`, and `tail` is the rest. */
  ghost predicate Absorbed(message: seq<Byte>, r: Registers, tail: seq<Byte>) {
    && r == ProcessAll(INITIAL, message[..Full(|message|)])
    && tail == message[Full(|message|)..]
  }

  class Context {
    var lo: nat
    var hi: nat
    var a: Word
    var b: Word
    var c: Word
    var d: Word
    const buffer: array<Byte>
    const block: array<Word>
    /** Everything that was fed in so far. */
    ghost var message: seq<Byte>

    ghost predicate Sized() {
      buffer.Length == BLOCK && block.Length == 16
    }

    ghost predicate Counted()
      reads this
    {
      lo == |message| % LO_LIMIT && hi == |message| / LO_LIMIT % WORD_LIMIT
    }

    ghost predicate Valid()
      reads this, buffer
    {
      && Sized() && Counted()
      && Absorbed(message, Regs(), buffer[..|message| % BLOCK])
    }

    /** SET: read a word and keep it for the later rounds. */
    method Set(n: nat, ptr: seq<Byte>) returns (x: Word)
      requires block.Length == 16 && n < 16 && |ptr| == BLOCK
      modifies block
      ensures x == block[n] == BlockWord(ptr, n)
      ensures forall k :: 0 <= k < 16 && k != n ==> block[k] == old(block[k])
    {
      x := (ptr[n * 4] as Word)
           | ((ptr[n * 4 + 1] as Word) << 8)
           | ((ptr[n * 4 + 2] as Word) << 16)
           | ((ptr[n * 4 + 3] as Word) << 24);
      WordOfBytes(ptr[n * 4], ptr[n * 4 + 1], ptr[n * 4 + 2], ptr[n * 4 + 3]);
      block[n] := x;
    }

    /** Four STEP lines of round 1, which repeat with other words and constants. */
    method Quarter1(ghost i: nat, ptr: seq<Byte>, a0: Word, b0: Word, c0: Word, d0: Word,
                    k0: nat, t0: Word, k1: nat, t1: Word, k2: nat, t2: Word, k3: nat, t3: Word, ghost r: Registers)
      returns (a: Word, b: Word, c: Word, d: Word)
      requires block.Length == 16 && |ptr| == BLOCK && 0 <= i < 16 && i % 4 == 0
      requires k0 == i && k1 == i + 1 && k2 == i + 2 && k3 == i + 3
      requires Prescribed(i, k0, t0, 7) && Prescribed(i + 1, k1, t1, 12)
      requires Prescribed(i + 2, k2, t2, 17) && Prescribed(i + 3, k3, t3, 22)
      requires Registers(a0, b0, c0, d0) == Operations(i, r, ptr)
      modifies block
      ensures forall k :: i <= k < i + 4 ==> block[k] == BlockWord(ptr, k)
      ensures forall k :: 0 <= k < i ==> block[k] == old(block[k])
      ensures Registers(a, b, c, d) == Operations(i + 4, r, ptr)
    {
      hide FastF, FastG, FastH, FastH2, FastI, Step, BlockWord, Operations, Prescribed;
      a, b, c, d := a0, b0, c0, d0;
      var x;
      x := Set(k0, ptr);
      StepA(i, r, ptr, Registers(a, b, c, d), FastF(b, c, d), k0, x, t0, 7);
      a := Step(FastF(b, c, d), a, b, x, t0, 7);
      x := Set(k1, ptr);
      StepD(i + 1, r, ptr, Registers(a, b, c, d), FastF(a, b, c), k1, x, t1, 12);
      d := Step(FastF(a, b, c), d, a, x, t1, 12);
      x := Set(k2, ptr);
      StepC(i + 2, r, ptr, Registers(a, b, c, d), FastF(d, a, b), k2, x, t2, 17);
      c := Step(FastF(d, a, b), c, d, x, t2, 17);
      x := Set(k3, ptr);
      StepB(i + 3, r, ptr, Registers(a, b, c, d), FastF(c, d, a), k3, x, t3, 22);
      b := Step(FastF(c, d, a), b, c, x, t3, 22);
    }

    /** Four STEP lines of round 2, which repeat with other words and constants. */
    method Quarter2(ghost i: nat, ptr: seq<Byte>, a0: Word, b0: Word, c0: Word, d0: Word,
                    k0: nat, t0: Word, k1: nat, t1: Word, k2: nat, t2: Word, k3: nat, t3: Word, ghost r: Registers)
      returns (a: Word, b: Word, c: Word, d: Word)
      requires block.Length == 16 && |ptr| == BLOCK && 16 <= i < 32 && i % 4 == 0
      requires k0 < 16 && k1 < 16 && k2 < 16 && k3 < 16
      requires Prescribed(i, k0, t0, 5) && Prescribed(i + 1, k1, t1, 9)
      requires Prescribed(i + 2, k2, t2, 14) && Prescribed(i + 3, k3, t3, 20)
      requires Registers(a0, b0, c0, d0) == Operations(i, r, ptr)
      requires forall k :: 0 <= k < 16 ==> block[k] == BlockWord(ptr, k)
      ensures Registers(a, b, c, d) == Operations(i + 4, r, ptr)
    {
      hide FastF, FastG, FastH, FastH2, FastI, Step, BlockWord, Operations, Prescribed;
      a, b, c, d := a0, b0, c0, d0;
      var x;
      x := block[k0];
      StepA(i, r, ptr, Registers(a, b, c, d), FastG(b, c, d), k0, x, t0, 5);
      a := Step(FastG(b, c, d), a, b, x, t0, 5);
      x := block[k1];
      StepD(i + 1, r, ptr, Registers(a, b, c, d), FastG(a, b, c), k1, x, t1, 9);
      d := Step(FastG(a, b, c), d, a, x, t1, 9);
      x := block[k2];
      StepC(i + 2, r, ptr, Registers(a, b, c, d), FastG(d, a, b), k2, x, t2, 14);
      c := Step(FastG(d, a, b), c, d, x, t2, 14);
      x := block[k3];
      StepB(i + 3, r, ptr, Registers(a, b, c, d), FastG(c, d, a), k3, x, t3, 20);
      b := Step(FastG(c, d, a), b, c, x, t3, 20);
    }

    /** Four STEP lines of round 3, which repeat with other words and constants. */
    method Quarter3(ghost i: nat, ptr: seq<Byte>, a0: Word, b0: Word, c0: Word, d0: Word,
                    k0: nat, t0: Word, k1: nat, t1: Word, k2: nat, t2: Word, k3: nat, t3: Word, ghost r: Registers)
      returns (a: Word, b: Word, c: Word, d: Word)
      requires block.Length == 16 && |ptr| == BLOCK && 32 <= i < 48 && i % 4 == 0
      requires k0 < 16 && k1 < 16 && k2 < 16 && k3 < 16
      requires Prescribed(i, k0, t0, 4) && Prescribed(i + 1, k1, t1, 11)
      requires Prescribed(i + 2, k2, t2, 16) && Prescribed(i + 3, k3, t3, 23)
      requires Registers(a0, b0, c0, d0) == Operations(i, r, ptr)
      requires forall k :: 0 <= k < 16 ==> block[k] == BlockWord(ptr, k)
      ensures Registers(a, b, c, d) == Operations(i + 4, r, ptr)
    {
      hide FastF, FastG, FastH, FastH2, FastI, Step, BlockWord, Operations, Prescribed;
      a, b, c, d := a0, b0, c0, d0;
      var x;
      x := block[k0];
      StepA(i, r, ptr, Registers(a, b, c, d), FastH(b, c, d), k0, x, t0, 4);
      a := Step(FastH(b, c, d), a, b, x, t0, 4);
      x := block[k1];
      StepD(i + 1, r, ptr, Registers(a, b, c, d), FastH2(a, b, c), k1, x, t1, 11);
      d := Step(FastH2(a, b, c), d, a, x, t1, 11);
      x := block[k2];
      StepC(i + 2, r, ptr, Registers(a, b, c, d), FastH(d, a, b), k2, x, t2, 16);
      c := Step(FastH(d, a, b), c, d, x, t2, 16);
      x := block[k3];
      StepB(i + 3, r, ptr, Registers(a, b, c, d), FastH2(c, d, a), k3, x, t3, 23);
      b := Step(FastH2(c, d, a), b, c, x, t3, 23);
    }

    /** Four STEP lines of round 4, which repeat with other words and constants. */
    method Quarter4(ghost i: nat, ptr: seq<Byte>, a0: Word, b0: Word, c0: Word, d0: Word,
                    k0: nat, t0: Word, k1: nat, t1: Word, k2: nat, t2: Word, k3: nat, t3: Word, ghost r: Registers)
      returns (a: Word, b: Word, c: Word, d: Word)
      requires block.Length == 16 && |ptr| == BLOCK && 48 <= i < 64 && i % 4 == 0
      requires k0 < 16 && k1 < 16 && k2 < 16 && k3 < 16
      requires Prescribed(i, k0, t0, 6) && Prescribed(i + 1, k1, t1, 10)
      requires Prescribed(i + 2, k2, t2, 15) && Prescribed(i + 3, k3, t3, 21)
      requires Registers(a0, b0, c0, d0) == Operations(i, r, ptr)
      requires forall k :: 0 <= k < 16 ==> block[k] == BlockWord(ptr, k)
      ensures Registers(a, b, c, d) == Operations(i + 4, r, ptr)
    {
      hide FastF, FastG, FastH, FastH2, FastI, Step, BlockWord, Operations, Prescribed;
      a, b, c, d := a0, b0, c0, d0;
      var x;
      x := block[k0];
      StepA(i, r, ptr, Registers(a, b, c, d), FastI(b, c, d), k0, x, t0, 6);
      a := Step(FastI(b, c, d), a, b, x, t0, 6);
      x := block[k1];
      StepD(i + 1, r, ptr, Registers(a, b, c, d), FastI(a, b, c), k1, x, t1, 10);
      d := Step(FastI(a, b, c), d, a, x, t1, 10);
      x := block[k2];
      StepC(i + 2, r, ptr, Registers(a, b, c, d), FastI(d, a, b), k2, x, t2, 15);
      c := Step(FastI(d, a, b), c, d, x, t2, 15);
      x := block[k3];
      StepB(i + 3, r, ptr, Registers(a, b, c, d), FastI(c, d, a), k3, x, t3, 21);
      b := Step(FastI(c, d, a), b, c, x, t3, 21);
    }

    method Round1(ptr: seq<Byte>, a0: Word, b0: Word, c0: Word, d0: Word, ghost r: Registers)
      returns (a: Word, b: Word, c: Word, d: Word)
      requires block.Length == 16 && |ptr| == BLOCK
      requires Registers(a0, b0, c0, d0) == Operations(0, r, ptr)
      modifies block
      ensures forall k :: 0 <= k < 16 ==> block[k] == BlockWord(ptr, k)
      ensures Registers(a, b, c, d) == Operations(16, r, ptr)
    {
      hide BlockWord, Operations, Prescribed;
      Table1();
      a, b, c, d := a0, b0, c0, d0;
      a, b, c, d := Quarter1(0, ptr, a, b, c, d, 0, 0xd76aa478, 1, 0xe8c7b756, 2, 0x242070db, 3, 0xc1bdceee, r);
      a, b, c, d := Quarter1(4, ptr, a, b, c, d, 4, 0xf57c0faf, 5, 0x4787c62a, 6, 0xa8304613, 7, 0xfd469501, r);
      a, b, c, d := Quarter1(8, ptr, a, b, c, d, 8, 0x698098d8, 9, 0x8b44f7af, 10, 0xffff5bb1, 11, 0x895cd7be, r);
      a, b, c, d := Quarter1(12, ptr, a, b, c, d, 12, 0x6b901122, 13, 0xfd987193, 14, 0xa679438e, 15, 0x49b40821, r);
    }

    method Round2(ptr: seq<Byte>, a0: Word, b0: Word, c0: Word, d0: Word, ghost r: Registers)
      returns (a: Word, b: Word, c: Word, d: Word)
      requires block.Length == 16 && |ptr| == BLOCK
      requires Registers(a0, b0, c0, d0) == Operations(16, r, ptr)
      requires forall k :: 0 <= k < 16 ==> block[k] == BlockWord(ptr, k)
      ensures Registers(a, b, c, d) == Operations(32, r, ptr)
    {
      hide BlockWord, Operations, Prescribed;
      Table2();
      a, b, c, d := a0, b0, c0, d0;
      a, b, c, d := Quarter2(16, ptr, a, b, c, d, 1, 0xf61e2562, 6, 0xc040b340, 11, 0x265e5a51, 0, 0xe9b6c7aa, r);
      a, b, c, d := Quarter2(20, ptr, a, b, c, d, 5, 0xd62f105d, 10, 0x02441453, 15, 0xd8a1e681, 4, 0xe7d3fbc8, r);
      a, b, c, d := Quarter2(24, ptr, a, b, c, d, 9, 0x21e1cde6, 14, 0xc33707d6, 3, 0xf4d50d87, 8, 0x455a14ed, r);
      a, b, c, d := Quarter2(28, ptr, a, b, c, d, 13, 0xa9e3e905, 2, 0xfcefa3f8, 7, 0x676f02d9, 12, 0x8d2a4c8a, r);
    }

    method Round3(ptr: seq<Byte>, a0: Word, b0: Word, c0: Word, d0: Word, ghost r: Registers)
      returns (a: Word, b: Word, c: Word, d: Word)
      requires block.Length == 16 && |ptr| == BLOCK
      requires Registers(a0, b0, c0, d0) == Operations(32, r, ptr)
      requires forall k :: 0 <= k < 16 ==> block[k] == BlockWord(ptr, k)
      ensures Registers(a, b, c, d) == Operations(48, r, ptr)
    {
      hide BlockWord, Operations, Prescribed;
      Table3();
      a, b, c, d := a0, b0, c0, d0;
      a, b, c, d := Quarter3(32, ptr, a, b, c, d, 5, 0xfffa3942, 8, 0x8771f681, 11, 0x6d9d6122, 14, 0xfde5380c, r);
      a, b, c, d := Quarter3(36, ptr, a, b, c, d, 1, 0xa4beea44, 4, 0x4bdecfa9, 7, 0xf6bb4b60, 10, 0xbebfbc70, r);
      a, b, c, d := Quarter3(40, ptr, a, b, c, d, 13, 0x289b7ec6, 0, 0xeaa127fa, 3, 0xd4ef3085, 6, 0x04881d05, r);
      a, b, c, d := Quarter3(44, ptr, a, b, c, d, 9, 0xd9d4d039, 12, 0xe6db99e5, 15, 0x1fa27cf8, 2, 0xc4ac5665, r);
    }

    method Round4(ptr: seq<Byte>, a0: Word, b0: Word, c0: Word, d0: Word, ghost r: Registers)
      returns (a: Word, b: Word, c: Word, d: Word)
      requires block.Length == 16 && |ptr| == BLOCK
      requires Registers(a0, b0, c0, d0) == Operations(48, r, ptr)
      requires forall k :: 0 <= k < 16 ==> block[k] == BlockWord(ptr, k)
      ensures Registers(a, b, c, d) == Operations(64, r, ptr)
    {
      hide BlockWord, Operations, Prescribed;
      Table4();
      a, b, c, d := a0, b0, c0, d0;
      a, b, c, d := Quarter4(48, ptr, a, b, c, d, 0, 0xf4292244, 7, 0x432aff97, 14, 0xab9423a7, 5, 0xfc93a039, r);
      a, b, c, d := Quarter4(52, ptr, a, b, c, d, 12, 0x655b59c3, 3, 0x8f0ccc92, 10, 0xffeff47d, 1, 0x85845dd1, r);
      a, b, c, d := Quarter4(56, ptr, a, b, c, d, 8, 0x6fa87e4f, 15, 0xfe2ce6e0, 6, 0xa3014314, 13, 0x4e0811a1, r);
      a, b, c, d := Quarter4(60, ptr, a, b, c, d, 4, 0xf7537e82, 11, 0xbd3af235, 2, 0x2ad7d2bb, 9, 0xeb86d391, r);
    }

    // ----- body: one or more blocks

    ghost function Regs(): Registers
      reads this
    {
      Registers(a, b, c, d)
    }

    method Rounds(ptr: seq<Byte>, a0: Word, b0: Word, c0: Word, d0: Word)
      returns (a: Word, b: Word, c: Word, d: Word)
      requires block.Length == 16 && |ptr| == BLOCK
      modifies block
      ensures Registers(a, b, c, d) == Operations(64, Registers(a0, b0, c0, d0), ptr)
    {
      hide Operations, BlockWord;
      ghost var r := Registers(a0, b0, c0, d0);
      NoOperations(r, ptr);
      a, b, c, d := Round1(ptr, a0, b0, c0, d0, r);
      a, b, c, d := Round2(ptr, a, b, c, d, r);
      a, b, c, d := Round3(ptr, a, b, c, d, r);
      a, b, c, d := Round4(ptr, a, b, c, d, r);
    }

    /** The rounds, and the sums with what was saved before them. */
    method OneBlock(ptr: seq<Byte>)
      requires block.Length == 16 && |ptr| == BLOCK
      modifies this`a, this`b, this`c, this`d, block
      ensures Regs() == Process(old(Regs()), ptr)
      ensures Added(old(Regs()), Operations(64, old(Regs()), ptr), Regs())
    {
      hide Operations, Process, Sum, Added;
      var savedA, savedB, savedC, savedD := a, b, c, d;
      var a', b', c', d' := Rounds(ptr, a, b, c, d);
      ProcessIs(Regs(), ptr, Registers(a', b', c', d'));
      a := Sum(a', savedA);
      b := Sum(b', savedB);
      c := Sum(c', savedC);
      d := Sum(d', savedD);
      SumsAdd(Registers(savedA, savedB, savedC, savedD), Registers(a', b', c', d'));
    }

    /** The do-while loop over the blocks of `data`; the rest of the input starts behind them. */
    method Body(data: seq<Byte>)
      requires block.Length == 16 && |data| > 0 && |data| % BLOCK == 0
      modifies this`a, this`b, this`c, this`d, block
      ensures Regs() == ProcessAll(old(Regs()), data)
    {
      hide Process, Operations, Added;
      var ptr, size := 0, |data|;
      ghost var goal := ProcessAll(Regs(), data);
      assert data[0..] == data;
      while true
        invariant 0 <= ptr && size > 0 && ptr + size == |data| && size % BLOCK == 0
        invariant goal == ProcessAll(Regs(), data[ptr..])
        decreases size
      {
        ghost var rest := data[ptr..];
        assert data[ptr..ptr + BLOCK] == rest[..BLOCK];
        assert data[ptr + BLOCK..] == rest[BLOCK..];
        OneBlock(data[ptr..ptr + BLOCK]);
        ptr := ptr + BLOCK;
        size := size - BLOCK;
        if size == 0 {
          break;
        }
      }
    }
    // ----- the interface

    constructor ()
      ensures Valid() && message == [] && fresh(buffer) && fresh(block)
    {
      a := 0x67452301;
      b := 0xefcdab89;
      c := 0x98badcfe;
      d := 0x10325476;
      lo := 0;
      hi := 0;
      buffer := new Byte[BLOCK](_ => 0);
      block := new Word[16](_ => 0);
      message := [];
    }

    /** `memcpy` into the block buffer. */
    method CopyIn(at: nat, data: seq<Byte>)
      requires at + |data| <= buffer.Length
      modifies buffer
      ensures buffer[..at + |data|] == old(buffer[..at]) + data
    {
      forall i | 0 <= i < |data| {
        buffer[at + i] := data[i];
      }
    }

    /** Feed in more of the message. */
    method Update(data: seq<Byte>)
      requires Valid() && |data| < SIZE_LIMIT
      modifies this`lo, this`hi, this`a, this`b, this`c, this`d, this`message, buffer, block
      ensures Valid() && message == old(message) + data
    {
      hide ProcessAll, Absorbed, Full;
      ghost var before := message;
      var savedLo := lo;
      Count(|data|);
      var used := savedLo % BLOCK;
      UsedBytes(|before|);
      message := before + data;
      var rest := data;
      if used > 0 {
        var available := BLOCK - used;
        if |data| < available {
          AbsorbShort(before, Regs(), buffer[..used], data);
          CopyIn(used, data);
          TailLength(before, data);
          return;
        }
        FillUp(data, used, before);
        rest := data[available..];
      }
      ghost var fed := data[..|data| - |rest|];
      assert before + [] == before;
      assert before + fed + rest == before + data;
      FeedBlocks(rest, before + fed);
    }

    /** Complete the block that is in the buffer. */
    method FillUp(data: seq<Byte>, used: nat, ghost before: seq<Byte>)
      requires Sized() && 0 < used < BLOCK <= used + |data| && Absorbed(before, Regs(), buffer[..used])
      modifies this`a, this`b, this`c, this`d, buffer, block
      ensures Absorbed(before + data[..BLOCK - used], Regs(), [])
    {
      hide ProcessAll, Absorbed;
      var available := BLOCK - used;
      AbsorbBlocks(before, Regs(), buffer[..used], data[..available]);
      CopyIn(used, data[..available]);
      assert buffer[..] == buffer[..BLOCK];
      Body(buffer[..]);
    }

    /** The full blocks of the rest go through the transform, what remains goes to the buffer. */
    method FeedBlocks(data: seq<Byte>, ghost before: seq<Byte>)
      requires Sized() && Absorbed(before, Regs(), [])
      modifies this`a, this`b, this`c, this`d, buffer, block
      ensures Absorbed(before + data, Regs(), buffer[..|before + data| % BLOCK])
    {
      hide ProcessAll, Absorbed;
      var rest := data;
      ghost var done := before;
      if |data| >= BLOCK {
        var whole := |data| - |data| % BLOCK;
        AbsorbBlocks(before, Regs(), [], data[..whole]);
        assert [] + data[..whole] == data[..whole];
        Body(data[..whole]);
        rest := data[whole..];
        done := before + data[..whole];
        assert done + rest == before + data;
      }
      KeepRest(rest, done);
    }

    /** Less than a block is kept for later. */
    method KeepRest(rest: seq<Byte>, ghost done: seq<Byte>)
      requires Sized() && Absorbed(done, Regs(), []) && |rest| < BLOCK
      modifies buffer
      ensures Absorbed(done + rest, Regs(), buffer[..|done + rest| % BLOCK])
    {
      hide ProcessAll, Absorbed;
      EmptyTail(done, Regs());
      AbsorbShort(done, Regs(), [], rest);
      assert [] + rest == rest;
      CopyIn(0, rest);
      TailLength(done, rest);
    }

    /** `memset` to zero. */
    method ClearFrom(at: nat, count: nat)
      requires at + count <= buffer.Length
      modifies buffer
      ensures buffer[..at + count] == old(buffer[..at]) + Zeros(count)
      ensures buffer[at + count..] == old(buffer[at + count..])
    {
      forall i | 0 <= i < count {
        buffer[at + i] := 0;
      }
    }

    /** OUT for a number, low-order byte first. */
    method OutNumber(at: nat, x: nat)
      requires at + 4 <= buffer.Length
      modifies buffer
      ensures buffer[..at + 4] == old(buffer[..at]) + LittleEndian(x)
    {
      buffer[at] := ByteOf(x % 0x100);
      buffer[at + 1] := ByteOf(x / 0x100 % 0x100);
      buffer[at + 2] := ByteOf(x / 0x1_0000 % 0x100);
      buffer[at + 3] := ByteOf(x / 0x100_0000 % 0x100);
    }

    /** The 0x80 byte and zeros up to the length field, with an extra block if the field does not fit. */
    method PadBuffer(length: nat)
      requires Sized() && length < BLOCK
      modifies this`a, this`b, this`c, this`d, buffer, block
      ensures length < 56 ==>
        Regs() == old(Regs()) && buffer[..56] == old(buffer[..length]) + [0x80] + Zeros(55 - length)
      ensures 56 <= length ==>
        && Regs() == ProcessAll(old(Regs()), old(buffer[..length]) + [0x80] + Zeros(63 - length))
        && buffer[..56] == Zeros(56)
    {
      hide ProcessAll;
      var used := length;
      ghost var tail := buffer[..length];
      buffer[used] := 0x80;
      used := used + 1;
      assert buffer[..used] == tail + [0x80];
      var available := BLOCK - used;
      if available < 8 {
        ClearFrom(used, available);
        assert buffer[..] == buffer[..BLOCK];
        Body(buffer[..]);
        used := 0;
        available := BLOCK;
      }
      ClearFrom(used, available - 8);
    }

    /** Pad, process what is left, and put out the digest; the context is wiped. */
    method Finish() returns (hash: seq<Byte>)
      requires Valid()
      modifies this, buffer, block
      ensures hash == Digest(message) && message == old(message)
      ensures lo == 0 && hi == 0 && Regs() == Registers(0, 0, 0, 0)
      ensures forall i :: 0 <= i < buffer.Length ==> buffer[i] == 0
      ensures forall i :: 0 <= i < block.Length ==> block[i] == 0
    {
      hide ProcessAll, Absorbed, WordBytes, LittleEndian, LengthField, Digest;
      ghost var r, tail := Regs(), buffer[..|message| % BLOCK];
      var used := lo % BLOCK;
      UsedBytes(|message|);
      PadBuffer(used);
      LengthIs(|message|);
      ghost var padded := buffer[..56];
      lo := lo * 8 % WORD_LIMIT;
      OutNumber(56, lo);
      OutNumber(60, hi);
      assert buffer[..] == buffer[..BLOCK] == padded + LengthField(|message|);
      DigestEnd(message, r, tail);
      Body(buffer[..]);
      hash := WordBytes(a) + WordBytes(b) + WordBytes(c) + WordBytes(d);
      Wipe();
    }

    method Wipe()
      modifies this`lo, this`hi, this`a, this`b, this`c, this`d, buffer, block
      ensures lo == 0 && hi == 0 && Regs() == Registers(0, 0, 0, 0)
      ensures forall i :: 0 <= i < buffer.Length ==> buffer[i] == 0
      ensures forall i :: 0 <= i < block.Length ==> block[i] == 0
    {
      lo, hi := 0, 0;
      a, b, c, d := 0, 0, 0, 0;
      forall i | 0 <= i < buffer.Length {
        buffer[i] := 0;
      }
      forall i | 0 <= i < block.Length {
        block[i] := 0;
      }
    }

    /** The byte counter, with the carry found by comparing. */
    method Count(size: nat)
      requires Counted() && size < SIZE_LIMIT
      modifies this`lo, this`hi
      ensures lo == (|message| + size) % LO_LIMIT && hi == (|message| + size) / LO_LIMIT % WORD_LIMIT
    {
      var savedLo := lo;
      CountSplit(|message|, size);
      lo := (savedLo + size) % SIZE_LIMIT % LO_LIMIT;
      if lo < savedLo {
        hi := (hi + 1) % WORD_LIMIT;
      }
      hi := (hi + size / LO_LIMIT) % WORD_LIMIT;
    }
  }

  /** Division with remainder is unique. */
  lemma Divided(x: nat, limit: nat, q: nat, r: nat)
    requires limit in {LO_LIMIT, WORD_LIMIT, BLOCK} && x == q * limit + r && r < limit
    ensures x / limit == q && x % limit == r
  {
  }

  /** Wrapping at the width of `size_t` does not disturb the low half. */
  lemma WrapsEvenly(sum: nat)
    requires sum < SIZE_LIMIT + LO_LIMIT
    ensures sum % SIZE_LIMIT % LO_LIMIT == sum % LO_LIMIT
  {
    if sum >= SIZE_LIMIT {
      assert sum % SIZE_LIMIT == sum - SIZE_LIMIT;
      var w := sum - SIZE_LIMIT;
      assert SIZE_LIMIT == 0x8_0000_0000 * LO_LIMIT;
      Divided(sum, LO_LIMIT, w / LO_LIMIT + 0x8_0000_0000, w % LO_LIMIT);
    }
  }

  lemma CarryWord(q: nat, carry: nat, p: nat)
    requires carry <= 1
    ensures ((q % WORD_LIMIT + carry) % WORD_LIMIT + p) % WORD_LIMIT == (q + p + carry) % WORD_LIMIT
  {
    var k, h := q / WORD_LIMIT, q % WORD_LIMIT;
    var h' := (h + carry) % WORD_LIMIT;
    var k' := k + (h + carry) / WORD_LIMIT;
    assert q + carry == k' * WORD_LIMIT + h';
    var all := h' + p;
    Divided(q + p + carry, WORD_LIMIT, k' + all / WORD_LIMIT, all % WORD_LIMIT);
  }

  /** The carry is there exactly if the new low half is smaller than the old one. */
  lemma CountSplit(n: nat, size: nat)
    requires size < SIZE_LIMIT
    ensures var saved, h := n % LO_LIMIT, n / LO_LIMIT % WORD_LIMIT;
      var lo := (saved + size) % SIZE_LIMIT % LO_LIMIT;
      var h' := if lo < saved then (h + 1) % WORD_LIMIT else h;
      && lo == (n + size) % LO_LIMIT
      && (h' + size / LO_LIMIT) % WORD_LIMIT == (n + size) / LO_LIMIT % WORD_LIMIT
  {
    var q, s := n / LO_LIMIT, n % LO_LIMIT;
    var p, t := size / LO_LIMIT, size % LO_LIMIT;
    WrapsEvenly(s + size);
    var carry := if s + t < LO_LIMIT then 0 else 1;
    Divided(s + size, LO_LIMIT, p + carry, s + t - carry * LO_LIMIT);
    Divided(n + size, LO_LIMIT, q + p + carry, s + t - carry * LO_LIMIT);
    CarryWord(q, carry, p);
  }

  lemma UsedBytes(n: nat)
    ensures n % LO_LIMIT % BLOCK == n % BLOCK
  {
  }

  lemma FullSplit(n: nat, size: nat)
    ensures n % BLOCK + size < BLOCK ==> Full(n + size) == Full(n)
    ensures (n % BLOCK + size) % BLOCK == 0 ==> Full(n + size) == n + size
  {
    var q := n / BLOCK;
    if n % BLOCK + size < BLOCK {
      Divided(n + size, BLOCK, q, n % BLOCK + size);
    } else {
      var m := n % BLOCK + size;
      Divided(n + size, BLOCK, q + m / BLOCK, m % BLOCK);
    }
  }

  /** Less than a block more: the tail grows. */
  lemma AbsorbShort(message: seq<Byte>, r: Registers, tail: seq<Byte>, data: seq<Byte>)
    requires Absorbed(message, r, tail) && |tail| + |data| < BLOCK
    ensures Absorbed(message + data, r, tail + data)
  {
    hide ProcessAll;
    FullSplit(|message|, |data|);
    var f := Full(|message|);
    assert (message + data)[..f] == message[..f];
    assert (message + data)[f..] == message[f..] + data;
  }

  /** Up to a block boundary: the tail and the new data are processed, and the tail is empty. */
  lemma AbsorbBlocks(message: seq<Byte>, r: Registers, tail: seq<Byte>, data: seq<Byte>)
    requires Absorbed(message, r, tail) && (|tail| + |data|) % BLOCK == 0
    ensures Absorbed(message + data, ProcessAll(r, tail + data), [])
  {
    hide ProcessAll, Full;
    var head := message[..Full(|message|)];
    assert message == head + tail;
    HeadAndRest(message, head, tail, data);
    BlocksAreFull(message, tail, data);
    ProcessAllSplit(INITIAL, head, tail + data);
  }

  lemma BlocksAreFull(message: seq<Byte>, tail: seq<Byte>, data: seq<Byte>)
    requires tail == message[Full(|message|)..] && (|tail| + |data|) % BLOCK == 0
    ensures Full(|message|) % BLOCK == 0
    ensures Full(|message + data|) == |message + data|
  {
    FullSplit(|message|, |data|);
  }

  lemma HeadAndRest(message: seq<Byte>, head: seq<Byte>, tail: seq<Byte>, data: seq<Byte>)
    requires message == head + tail
    ensures (message + data)[..|message + data|] == head + (tail + data)
    ensures (message + data)[|message + data|..] == []
  {
  }

  lemma EmptyTail(message: seq<Byte>, r: Registers)
    requires Absorbed(message, r, [])
    ensures |message| % BLOCK == 0
  {
  }

  /** The counter, shifted by three bits, is the length in bits. */
  lemma LengthIs(n: nat)
    ensures LittleEndian(n % LO_LIMIT * 8 % WORD_LIMIT) + LittleEndian(n / LO_LIMIT % WORD_LIMIT) == LengthField(n)
  {
    hide LittleEndian;
    var q, s := n / LO_LIMIT, n % LO_LIMIT;
    Divided(8 * n, WORD_LIMIT, q, 8 * s);
  }

  /** What is left after the full blocks, padded, gives the digest. */
  lemma DigestEnd(message: seq<Byte>, r: Registers, tail: seq<Byte>)
    requires Absorbed(message, r, tail)
    ensures var u, field := |tail|, LengthField(|message|);
      && u < BLOCK
      && (u < 56 ==> Output(ProcessAll(r, tail + [0x80] + Zeros(55 - u) + field)) == Digest(message))
      && (56 <= u ==> Output(ProcessAll(ProcessAll(r, tail + [0x80] + Zeros(63 - u)), Zeros(56) + field)) == Digest(message))
  {
    hide ProcessAll, Output, LengthField;
    var u, field := |tail|, LengthField(|message|);
    var head := message[..Full(|message|)];
    var padding := Padding(|message|);
    assert message + padding == head + (tail + padding);
    ProcessAllSplit(INITIAL, head, tail + padding);
    if u < 56 {
      assert tail + padding == tail + [0x80] + Zeros(55 - u) + field;
    } else {
      var first, last := tail + [0x80] + Zeros(63 - u), Zeros(56) + field;
      assert tail + padding == first + last by {
        assert Zeros(63 - u) + Zeros(56) == Zeros(119 - u);
      }
      ProcessAllSplit(r, first, last);
    }
  }

  lemma TailLength(message: seq<Byte>, data: seq<Byte>)
    requires |message| % BLOCK + |data| < BLOCK
    ensures |message + data| % BLOCK == |message| % BLOCK + |data|
  {
    FullSplit(|message|, |data|);
  }

  lemma ProcessIs(r: Registers, chunk: seq<Byte>, p: Registers)
    requires |chunk| == BLOCK && p == Operations(64, r, chunk)
    ensures Process(r, chunk) == Registers(Sum(p.a, r.a), Sum(p.b, r.b), Sum(p.c, r.c), Sum(p.d, r.d))
  {
    hide Operations, Sum;
  }

  /** What was saved is added, modulo 2^32. */
  ghost predicate Added(saved: Registers, p: Registers, r: Registers) {
    IsSum(p.a, saved.a, r.a) && IsSum(p.b, saved.b, r.b) && IsSum(p.c, saved.c, r.c) && IsSum(p.d, saved.d, r.d)
  }

  predicate IsSum(x: Word, y: Word, sum: Word) {
    sum == x + y
  }

  lemma IsSumExactly(x: Word, y: Word, sum: Word)
    ensures IsSum(x, y, sum) <==> sum == x + y
  {
  }

  lemma AddedIs(saved: Registers, p: Registers, r: Registers)
    ensures Added(saved, p, r) <==>
            IsSum(p.a, saved.a, r.a) && IsSum(p.b, saved.b, r.b) && IsSum(p.c, saved.c, r.c) && IsSum(p.d, saved.d, r.d)
  {
    hide IsSum;
  }

  lemma SumAdds(x: Word, y: Word)
    ensures IsSum(x, y, Sum(x, y))
  {
  }

  lemma SumsAdd(saved: Registers, p: Registers)
    ensures Added(saved, p, Registers(Sum(p.a, saved.a), Sum(p.b, saved.b), Sum(p.c, saved.c), Sum(p.d, saved.d)))
  {
    hide Sum, IsSum;
    SumAdds(p.a, saved.a);
    SumAdds(p.b, saved.b);
    SumAdds(p.c, saved.c);
    SumAdds(p.d, saved.d);
  }

  lemma NoOperations(r: Registers, chunk: seq<Byte>)
    requires |chunk| == BLOCK
    ensures Operations(0, r, chunk) == r
  {
  }

  /** The two halves of the counter together are the length modulo 2^61. */
  lemma CounterIsLength(n: nat)
    ensures n / LO_LIMIT % WORD_LIMIT * LO_LIMIT + n % LO_LIMIT == n % (WORD_LIMIT * LO_LIMIT)
  {
    var q, s := n / LO_LIMIT, n % LO_LIMIT;
    var k, h := q / WORD_LIMIT, q % WORD_LIMIT;
    var limit := WORD_LIMIT * LO_LIMIT;
    assert n == k * limit + (h * LO_LIMIT + s);
    assert h * LO_LIMIT + s < limit;
  }

  function Concat(chunks: seq<seq<Byte>>): seq<Byte> {
    if chunks == [] then [] else Concat(chunks[..|chunks| - 1]) + chunks[|chunks| - 1]
  }

  /** However a message is cut into chunks, the digest is that of RFC 1321 for the whole. */
  method DigestOfChunks(chunks: seq<seq<Byte>>) returns (hash: seq<Byte>)
    requires forall i :: 0 <= i < |chunks| ==> |chunks[i]| < SIZE_LIMIT
    ensures hash == Digest(Concat(chunks))
  {
    hide Digest, Context.Valid;
    var ctx := new Context();
    for i := 0 to |chunks|
      invariant ctx.Valid() && fresh(ctx) && fresh(ctx.buffer) && fresh(ctx.block)
      invariant ctx.message == Concat(chunks[..i])
    {
      ctx.Update(chunks[i]);
      assert chunks[..i + 1][..i] == chunks[..i];
    }
    assert chunks[..|chunks|] == chunks;
    hash := ctx.Finish();
  }
}
