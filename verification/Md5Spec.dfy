/**
 The MD5 message digest, written down from RFC 1321: padding (sections 3.1 and
 3.2), the table-driven block transform (section 3.4) and the output order
 (section 3.5).
 */
module Md5Spec {

  type Byte = bv8
  type Word = bv32

  datatype Registers = Registers(a: Word, b: Word, c: Word, d: Word)

  const INITIAL := Registers(0x67452301, 0xefcdab89, 0x98badcfe, 0x10325476)

  const BLOCK: nat := 64

  // ----- sections 3.1 and 3.2: padding

  /** How many zero bytes bring a message and the 0x80 byte to 56 modulo 64. */
  function ZeroCount(n: nat): (k: nat)
    ensures k < BLOCK && (n + 1 + k) % BLOCK == 56
  {
    (119 - n % BLOCK) % BLOCK
  }

  function Zeros(n: nat): (z: seq<Byte>)
    ensures |z| == n && forall i :: 0 <= i < n ==> z[i] == 0
  {
    seq(n, _ => 0)
  }

  function ByteOf(n: nat): Byte
    requires n < 0x100
  {
    n as Byte
  }

  /** The low 32 bits of a number as four bytes, low-order byte first. */
  function LittleEndian(x: nat): (bytes: seq<Byte>)
    ensures |bytes| == 4
  {
    [ByteOf(x % 0x100), ByteOf(x / 0x100 % 0x100), ByteOf(x / 0x1_0000 % 0x100), ByteOf(x / 0x100_0000 % 0x100)]
  }

  /** The length in bits, modulo 2^64, as two words, low-order word first. */
  function LengthField(n: nat): (bytes: seq<Byte>)
    ensures |bytes| == 8
  {
    LittleEndian(8 * n % 0x1_0000_0000) + LittleEndian(8 * n / 0x1_0000_0000 % 0x1_0000_0000)
  }

  function Padding(n: nat): (p: seq<Byte>)
    ensures |p| == ZeroCount(n) + 9
  {
    [0x80] + Zeros(ZeroCount(n)) + LengthField(n)
  }

  // ----- section 3.4: the block transform

  /** Word `i` of a block, low-order byte first. */
  function BlockWord(block: seq<Byte>, i: nat): Word
    requires |block| == BLOCK && i < 16
  {
    (block[4 * i] as Word) + (block[4 * i + 1] as Word) * 0x100
    + (block[4 * i + 2] as Word) * 0x1_0000 + (block[4 * i + 3] as Word) * 0x100_0000
  }

  function F(x: Word, y: Word, z: Word): Word { (x & y) | (!x & z) }
  function G(x: Word, y: Word, z: Word): Word { (x & z) | (y & !z) }
  function H(x: Word, y: Word, z: Word): Word { x ^ y ^ z }
  function I(x: Word, y: Word, z: Word): Word { y ^ (x | !z) }

  function Mix(i: nat, x: Word, y: Word, z: Word): Word {
    if i < 16 then F(x, y, z) else if i < 32 then G(x, y, z) else if i < 48 then H(x, y, z) else I(x, y, z)
  }

  /** The message word that operation `i` uses. */
  function MessageIndex(i: nat): (k: nat)
    ensures k < 16
  {
    if i < 16 then i % 16
    else if i < 32 then (5 * i + 1) % 16
    else if i < 48 then (3 * i + 5) % 16
    else 7 * i % 16
  }

  function Shift(i: nat): (s: nat)
    ensures 0 < s < 32
  {
    if i < 16 then Pick(i % 4, 7, 12, 17, 22)
    else if i < 32 then Pick(i % 4, 5, 9, 14, 20)
    else if i < 48 then Pick(i % 4, 4, 11, 16, 23)
    else Pick(i % 4, 6, 10, 15, 21)
  }

  function Pick(i: nat, s0: nat, s1: nat, s2: nat, s3: nat): nat {
    if i == 0 then s0 else if i == 1 then s1 else if i == 2 then s2 else s3
  }

  /** The table T of section 3.4, from index 0. */
  function Sine(i: nat): Word {
    if i < 16 then Sine1(i) else if i < 32 then Sine2(i) else if i < 48 then Sine3(i) else Sine4(i)
  }

  function PickWord(i: nat, w0: Word, w1: Word, w2: Word, w3: Word): Word {
    if i == 0 then w0 else if i == 1 then w1 else if i == 2 then w2 else w3
  }

  function Sine1(i: nat): Word {
    if i < 4 then PickWord(i % 4, 0xd76aa478, 0xe8c7b756, 0x242070db, 0xc1bdceee)
    else if i < 8 then PickWord(i % 4, 0xf57c0faf, 0x4787c62a, 0xa8304613, 0xfd469501)
    else if i < 12 then PickWord(i % 4, 0x698098d8, 0x8b44f7af, 0xffff5bb1, 0x895cd7be)
    else PickWord(i % 4, 0x6b901122, 0xfd987193, 0xa679438e, 0x49b40821)
  }

  function Sine2(i: nat): Word {
    if i < 20 then PickWord(i % 4, 0xf61e2562, 0xc040b340, 0x265e5a51, 0xe9b6c7aa)
    else if i < 24 then PickWord(i % 4, 0xd62f105d, 0x02441453, 0xd8a1e681, 0xe7d3fbc8)
    else if i < 28 then PickWord(i % 4, 0x21e1cde6, 0xc33707d6, 0xf4d50d87, 0x455a14ed)
    else PickWord(i % 4, 0xa9e3e905, 0xfcefa3f8, 0x676f02d9, 0x8d2a4c8a)
  }

  function Sine3(i: nat): Word {
    if i < 36 then PickWord(i % 4, 0xfffa3942, 0x8771f681, 0x6d9d6122, 0xfde5380c)
    else if i < 40 then PickWord(i % 4, 0xa4beea44, 0x4bdecfa9, 0xf6bb4b60, 0xbebfbc70)
    else if i < 44 then PickWord(i % 4, 0x289b7ec6, 0xeaa127fa, 0xd4ef3085, 0x04881d05)
    else PickWord(i % 4, 0xd9d4d039, 0xe6db99e5, 0x1fa27cf8, 0xc4ac5665)
  }

  function Sine4(i: nat): Word {
    if i < 52 then PickWord(i % 4, 0xf4292244, 0x432aff97, 0xab9423a7, 0xfc93a039)
    else if i < 56 then PickWord(i % 4, 0x655b59c3, 0x8f0ccc92, 0xffeff47d, 0x85845dd1)
    else if i < 60 then PickWord(i % 4, 0x6fa87e4f, 0xfe2ce6e0, 0xa3014314, 0x4e0811a1)
    else PickWord(i % 4, 0xf7537e82, 0xbd3af235, 0x2ad7d2bb, 0xeb86d391)
  }

  /** `v <<< s`: what is shifted out on the left comes in on the right. */
  function Circular(v: Word, s: nat): Word
    requires 0 < s < 32
  {
    (v << s) | (v >> (32 - s))
  }

  /** For the shift amounts of the table, this is the rotation of bit-vectors. */
  lemma CircularIsRotation(v: Word)
    ensures Circular(v, 7) == v.RotateLeft(7)
    ensures Circular(v, 12) == v.RotateLeft(12)
    ensures Circular(v, 17) == v.RotateLeft(17)
    ensures Circular(v, 22) == v.RotateLeft(22)
    ensures Circular(v, 5) == v.RotateLeft(5)
    ensures Circular(v, 9) == v.RotateLeft(9)
    ensures Circular(v, 14) == v.RotateLeft(14)
    ensures Circular(v, 20) == v.RotateLeft(20)
    ensures Circular(v, 4) == v.RotateLeft(4)
    ensures Circular(v, 11) == v.RotateLeft(11)
    ensures Circular(v, 16) == v.RotateLeft(16)
    ensures Circular(v, 23) == v.RotateLeft(23)
    ensures Circular(v, 6) == v.RotateLeft(6)
    ensures Circular(v, 10) == v.RotateLeft(10)
    ensures Circular(v, 15) == v.RotateLeft(15)
    ensures Circular(v, 21) == v.RotateLeft(21)
  {
  }

  /** `b + ((a + mixed + x + t) <<< s)`. */
  function Rotated(a: Word, b: Word, mixed: Word, x: Word, t: Word, s: nat): Word
    requires 0 < s < 32
  {
    b + Circular(a + mixed + x + t, s)
  }

  /** Operation `i`: the registers take turns as the one that is rewritten. */
  function Operation(i: nat, r: Registers, block: seq<Byte>): Registers
    requires |block| == BLOCK
  {
    var x, t, s := BlockWord(block, MessageIndex(i)), Sine(i), Shift(i);
    match i % 4
    case 0 => r.(a := Rotated(r.a, r.b, Mix(i, r.b, r.c, r.d), x, t, s))
    case 1 => r.(d := Rotated(r.d, r.a, Mix(i, r.a, r.b, r.c), x, t, s))
    case 2 => r.(c := Rotated(r.c, r.d, Mix(i, r.d, r.a, r.b), x, t, s))
    case _ => r.(b := Rotated(r.b, r.c, Mix(i, r.c, r.d, r.a), x, t, s))
  }

  /** The first `n` of the 64 operations. */
  function Operations(n: nat, r: Registers, block: seq<Byte>): Registers
    requires |block| == BLOCK
  {
    if n == 0 then r else Operation(n - 1, Operations(n - 1, r, block), block)
  }

  /** Addition modulo 2^32. */
  function Sum(x: Word, y: Word): Word {
    x + y
  }

  function Process(r: Registers, block: seq<Byte>): Registers
    requires |block| == BLOCK
  {
    var p := Operations(64, r, block);
    Registers(Sum(p.a, r.a), Sum(p.b, r.b), Sum(p.c, r.c), Sum(p.d, r.d))
  }

  /** All full blocks of `data`, one after the other. */
  function ProcessAll(r: Registers, data: seq<Byte>): Registers
    decreases |data|
  {
    if |data| < BLOCK then r else ProcessAll(Process(r, data[..BLOCK]), data[BLOCK..])
  }

  // ----- section 3.5: output

  function WordBytes(w: Word): seq<Byte> {
    [(w & 0xff) as Byte, ((w >> 8) & 0xff) as Byte, ((w >> 16) & 0xff) as Byte, ((w >> 24) & 0xff) as Byte]
  }

  function Output(r: Registers): seq<Byte> {
    WordBytes(r.a) + WordBytes(r.b) + WordBytes(r.c) + WordBytes(r.d)
  }

  function Digest(message: seq<Byte>): seq<Byte> {
    Output(ProcessAll(INITIAL, message + Padding(|message|)))
  }

  // ----- laws

  /** Blocks can be processed piece by piece. */
  lemma {:induction false} ProcessAllSplit(r: Registers, x: seq<Byte>, y: seq<Byte>)
    requires |x| % BLOCK == 0
    ensures ProcessAll(r, x + y) == ProcessAll(ProcessAll(r, x), y)
    decreases |x|
  {
    hide Process;
    if |x| < BLOCK {
      assert x + y == y;
    } else {
      assert (x + y)[..BLOCK] == x[..BLOCK];
      assert (x + y)[BLOCK..] == x[BLOCK..] + y;
      ProcessAllSplit(Process(r, x[..BLOCK]), x[BLOCK..], y);
    }
  }

  /** A number of four bytes, each with 256 times the weight of the one in front of it, is taken apart into them. */
  lemma LittleEndianIs(b0: nat, b1: nat, b2: nat, b3: nat)
    requires b0 < 0x100 && b1 < 0x100 && b2 < 0x100 && b3 < 0x100
    ensures LittleEndian(b0 + 0x100 * b1 + 0x1_0000 * b2 + 0x100_0000 * b3) ==
            [ByteOf(b0), ByteOf(b1), ByteOf(b2), ByteOf(b3)]
  {
    hide ByteOf;
    var x := b0 + 0x100 * b1 + 0x1_0000 * b2 + 0x100_0000 * b3;
    assert x / 0x100 == b1 + 0x100 * b2 + 0x1_0000 * b3 && x % 0x100 == b0;
    assert x / 0x1_0000 == b2 + 0x100 * b3 && x / 0x100_0000 == b3;
  }

  /** Reading a word of a block undoes writing it. */
  lemma WordsAndBytes(w: Word, block: seq<Byte>, i: nat)
    requires |block| == BLOCK && i < 16 && block[4 * i..4 * i + 4] == WordBytes(w)
    ensures BlockWord(block, i) == w
  {
    var b := WordBytes(w);
    assert forall j :: 0 <= j < 4 ==> block[4 * i + j] == block[4 * i..4 * i + 4][j] == b[j];
    assert block[4 * i + 0] == b[0];
    WordOfItsBytes(w);
  }

  lemma WordOfItsBytes(w: Word)
    ensures var b := WordBytes(w);
      (b[0] as Word) + (b[1] as Word) * 0x100 + (b[2] as Word) * 0x1_0000 + (b[3] as Word) * 0x100_0000 == w
  {
  }

  /** The registers start as the sixteen bytes of section 3.3, those of each word in order. */
  lemma InitialBytes()
    ensures Output(INITIAL) == [0x01, 0x23, 0x45, 0x67, 0x89, 0xab, 0xcd, 0xef, 0xfe, 0xdc, 0xba, 0x98, 0x76, 0x54, 0x32, 0x10]
  {
  }
}
