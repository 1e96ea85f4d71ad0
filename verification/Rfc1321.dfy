// The MD5 message digest as RFC 1321 defines it: padding (sections 3.1 and 3.2), register
// initialisation (3.3), the 64 indexed steps per block (3.4) and the output order (3.5).
// This is the one-shot reference that the streaming code is measured against.
module Rfc1321 {

  type Byte = bv8
  type Word = bv32

  datatype Regs = Regs(a: Word, b: Word, c: Word, d: Word)

  const INIT := Regs(0x67452301, 0xefcdab89, 0x98badcfe, 0x10325476)

  // ---- Section 3.4: one step ----

  // The auxiliary functions.
  function F(x: Word, y: Word, z: Word): Word { (x & y) | (!x & z) }
  function G(x: Word, y: Word, z: Word): Word { (x & z) | (y & !z) }
  function H(x: Word, y: Word, z: Word): Word { x ^ y ^ z }
  function I(x: Word, y: Word, z: Word): Word { y ^ (x | !z) }

  function Mix(i: nat, x: Word, y: Word, z: Word): Word {
    if i < 16 then F(x, y, z) else if i < 32 then G(x, y, z) else if i < 48 then H(x, y, z) else I(x, y, z)
  }

  // The message word used by step i.
  function K(i: nat): (k: nat)
    ensures k < 16
  {
    if i < 16 then i
    else if i < 32 then (5 * i + 1) % 16
    else if i < 48 then (3 * i + 5) % 16
    else (7 * i) % 16
  }

  // "<<<": circular shift to the left.
  function Circular(x: Word, n: nat): Word
    requires n <= 32
  {
    x.RotateLeft(n)
  }

  // The rotation amount of step i: four amounts per round, used cyclically.
  function S(i: nat): (s: nat)
    ensures 0 < s < 32
  {
    if i < 16 then Pick(i % 4, 7, 12, 17, 22)
    else if i < 32 then Pick(i % 4, 5, 9, 14, 20)
    else if i < 48 then Pick(i % 4, 4, 11, 16, 23)
    else Pick(i % 4, 6, 10, 15, 21)
  }

  function Pick<A>(j: nat, a: A, b: A, c: A, d: A): A {
    if j == 0 then a else if j == 1 then b else if j == 2 then c else d
  }

  // The 64-element table T of section 3.4, in the hexadecimal form of the RFC's appendix A.3.
  function T(i: nat): Word
    requires i < 64
  {
    if i < 32 then TLow(i) else THigh(i)
  }

  function TLow(i: nat): Word {
    if i < 4 then Pick(i % 4, 0xd76aa478, 0xe8c7b756, 0x242070db, 0xc1bdceee) else
    if i < 8 then Pick(i % 4, 0xf57c0faf, 0x4787c62a, 0xa8304613, 0xfd469501) else
    if i < 12 then Pick(i % 4, 0x698098d8, 0x8b44f7af, 0xffff5bb1, 0x895cd7be) else
    if i < 16 then Pick(i % 4, 0x6b901122, 0xfd987193, 0xa679438e, 0x49b40821) else
    if i < 20 then Pick(i % 4, 0xf61e2562, 0xc040b340, 0x265e5a51, 0xe9b6c7aa) else
    if i < 24 then Pick(i % 4, 0xd62f105d, 0x02441453, 0xd8a1e681, 0xe7d3fbc8) else
    if i < 28 then Pick(i % 4, 0x21e1cde6, 0xc33707d6, 0xf4d50d87, 0x455a14ed) else
    Pick(i % 4, 0xa9e3e905, 0xfcefa3f8, 0x676f02d9, 0x8d2a4c8a)
  }

  function THigh(i: nat): Word {
    if i < 36 then Pick(i % 4, 0xfffa3942, 0x8771f681, 0x6d9d6122, 0xfde5380c) else
    if i < 40 then Pick(i % 4, 0xa4beea44, 0x4bdecfa9, 0xf6bb4b60, 0xbebfbc70) else
    if i < 44 then Pick(i % 4, 0x289b7ec6, 0xeaa127fa, 0xd4ef3085, 0x04881d05) else
    if i < 48 then Pick(i % 4, 0xd9d4d039, 0xe6db99e5, 0x1fa27cf8, 0xc4ac5665) else
    if i < 52 then Pick(i % 4, 0xf4292244, 0x432aff97, 0xab9423a7, 0xfc93a039) else
    if i < 56 then Pick(i % 4, 0x655b59c3, 0x8f0ccc92, 0xffeff47d, 0x85845dd1) else
    if i < 60 then Pick(i % 4, 0x6fa87e4f, 0xfe2ce6e0, 0xa3014314, 0x4e0811a1) else
    Pick(i % 4, 0xf7537e82, 0xbd3af235, 0x2ad7d2bb, 0xeb86d391)
  }

  // Addition of words modulo 2^32.
  function Add(x: Word, y: Word): Word { x + y }

  function Sum(a: Word, f: Word, xk: Word, t: Word): Word { Add(Add(Add(a, f), xk), t) }

  // The operation [abcd k s i]: b + ((a + f(b,c,d) + X[k] + T[i]) <<< s).
  function Operation(f: Word, a: Word, b: Word, xk: Word, s: nat, t: Word): Word
    requires s <= 32
  {
    Add(Circular(Sum(a, f, xk, t), s), b)
  }

  // Step i replaces a, then the registers move one place round.
  function Step(i: nat, r: Regs, x: seq<Word>): Regs
    requires i < 64 && |x| == 16
  {
    Regs(r.d, Operation(Mix(i, r.b, r.c, r.d), r.a, r.b, x[K(i)], S(i), T(i)), r.b, r.c)
  }

  // The first n steps.
  function Steps(n: nat, r: Regs, x: seq<Word>): Regs
    requires n <= 64 && |x| == 16
  {
    if n == 0 then r else Step(n - 1, Steps(n - 1, r, x), x)
  }

  // A word is four bytes, low-order byte first (section 2).
  function WordOf(b0: Byte, b1: Byte, b2: Byte, b3: Byte): Word {
    (b0 as Word) + ((b1 as Word) << 8) + ((b2 as Word) << 16) + ((b3 as Word) << 24)
  }

  function WordsOf(block: seq<Byte>): (x: seq<Word>)
    requires |block| == 64
    ensures |x| == 16
  {
    seq(16, i requires 0 <= i < 16 =>
      WordOf(block[4 * i], block[4 * i + 1], block[4 * i + 2], block[4 * i + 3]))
  }

  function Block(r: Regs, block: seq<Byte>): Regs
    requires |block| == 64
  {
    var s := Steps(64, r, WordsOf(block));
    Regs(Add(r.a, s.a), Add(r.b, s.b), Add(r.c, s.c), Add(r.d, s.d))
  }

  // All blocks of m, in order.
  function Compress(m: seq<Byte>): Regs
    requires |m| % 64 == 0
  {
    if m == [] then INIT else Block(Compress(m[..|m| - 64]), m[|m| - 64..])
  }

  // ---- Sections 3.1 and 3.2: padding ----

  // The number of zero bytes after the 0x80 byte: the least that leaves 56 bytes mod 64.
  function Zeros(n: nat): (z: nat)
    ensures z < 64 && (n + 1 + z) % 64 == 56
  {
    (119 - n % 64) % 64
  }

  // The low 64 bits of the length in bits, low-order byte first.
  function LengthByte(n: nat, i: nat): Byte
    requires i < 8
  {
    (8 * n % 0x1_0000_0000_0000_0000 / Pow256(i) % 256) as Byte
  }

  function Pow256(i: nat): (p: nat)
    ensures p > 0
  {
    if i == 0 then 1 else 256 * Pow256(i - 1)
  }

  function LengthBytes(n: nat): (s: seq<Byte>)
    ensures |s| == 8
  {
    seq(8, i requires 0 <= i < 8 => LengthByte(n, i))
  }

  function Padding(n: nat): (p: seq<Byte>)
    ensures (n + |p|) % 64 == 0 && 9 <= |p| <= 72
  {
    [0x80] + seq(Zeros(n), _ => 0 as Byte) + LengthBytes(n)
  }

  // ---- Section 3.5: output ----

  function ByteOf(w: Word, j: nat): Byte
    requires j < 4
  {
    ((w >> (8 * j)) & 0xff) as Byte
  }

  function BytesOf(r: Regs): (s: seq<Byte>)
    ensures |s| == 16
  {
    seq(16, i requires 0 <= i < 16 =>
      ByteOf(if i / 4 == 0 then r.a else if i / 4 == 1 then r.b else if i / 4 == 2 then r.c else r.d, i % 4))
  }

  function Digest(m: seq<Byte>): (d: seq<Byte>)
    ensures |d| == 16
  {
    BytesOf(Compress(m + Padding(|m|)))
  }

  // Appending one block is one more application of Block.
  lemma CompressBlock(m: seq<Byte>, b: seq<Byte>)
    requires |m| % 64 == 0 && |b| == 64
    ensures Compress(m + b) == Block(Compress(m), b)
  {
    hide Block;
    assert (m + b)[..|m + b| - 64] == m && (m + b)[|m + b| - 64..] == b;
  }
}
