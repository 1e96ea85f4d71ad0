// A model of src/md5.c: the incremental MD5 state, its append and finish operations and the
// unrolled block function.
module Md5 {
  import opened Common
  import opened Rfc1321

  // The constants T1 to T64; T_MASK is the all-ones word.
  const T1: Word := 0xffff_ffff ^ 0x28955b87
  const T2: Word := 0xffff_ffff ^ 0x173848a9
  const T3: Word := 0x242070db
  const T4: Word := 0xffff_ffff ^ 0x3e423111
  const T5: Word := 0xffff_ffff ^ 0x0a83f050
  const T6: Word := 0x4787c62a
  const T7: Word := 0xffff_ffff ^ 0x57cfb9ec
  const T8: Word := 0xffff_ffff ^ 0x02b96afe
  const T9: Word := 0x698098d8
  const T10: Word := 0xffff_ffff ^ 0x74bb0850
  const T11: Word := 0xffff_ffff ^ 0x0000a44e
  const T12: Word := 0xffff_ffff ^ 0x76a32841
  const T13: Word := 0x6b901122
  const T14: Word := 0xffff_ffff ^ 0x02678e6c
  const T15: Word := 0xffff_ffff ^ 0x5986bc71
  const T16: Word := 0x49b40821
  const T17: Word := 0xffff_ffff ^ 0x09e1da9d
  const T18: Word := 0xffff_ffff ^ 0x3fbf4cbf
  const T19: Word := 0x265e5a51
  const T20: Word := 0xffff_ffff ^ 0x16493855
  const T21: Word := 0xffff_ffff ^ 0x29d0efa2
  const T22: Word := 0x02441453
  const T23: Word := 0xffff_ffff ^ 0x275e197e
  const T24: Word := 0xffff_ffff ^ 0x182c0437
  const T25: Word := 0x21e1cde6
  const T26: Word := 0xffff_ffff ^ 0x3cc8f829
  const T27: Word := 0xffff_ffff ^ 0x0b2af278
  const T28: Word := 0x455a14ed
  const T29: Word := 0xffff_ffff ^ 0x561c16fa
  const T30: Word := 0xffff_ffff ^ 0x03105c07
  const T31: Word := 0x676f02d9
  const T32: Word := 0xffff_ffff ^ 0x72d5b375
  const T33: Word := 0xffff_ffff ^ 0x0005c6bd
  const T34: Word := 0xffff_ffff ^ 0x788e097e
  const T35: Word := 0x6d9d6122
  const T36: Word := 0xffff_ffff ^ 0x021ac7f3
  const T37: Word := 0xffff_ffff ^ 0x5b4115bb
  const T38: Word := 0x4bdecfa9
  const T39: Word := 0xffff_ffff ^ 0x0944b49f
  const T40: Word := 0xffff_ffff ^ 0x4140438f
  const T41: Word := 0x289b7ec6
  const T42: Word := 0xffff_ffff ^ 0x155ed805
  const T43: Word := 0xffff_ffff ^ 0x2b10cf7a
  const T44: Word := 0x04881d05
  const T45: Word := 0xffff_ffff ^ 0x262b2fc6
  const T46: Word := 0xffff_ffff ^ 0x1924661a
  const T47: Word := 0x1fa27cf8
  const T48: Word := 0xffff_ffff ^ 0x3b53a99a
  const T49: Word := 0xffff_ffff ^ 0x0bd6ddbb
  const T50: Word := 0x432aff97
  const T51: Word := 0xffff_ffff ^ 0x546bdc58
  const T52: Word := 0xffff_ffff ^ 0x036c5fc6
  const T53: Word := 0x655b59c3
  const T54: Word := 0xffff_ffff ^ 0x70f3336d
  const T55: Word := 0xffff_ffff ^ 0x00100b82
  const T56: Word := 0xffff_ffff ^ 0x7a7ba22e
  const T57: Word := 0x6fa87e4f
  const T58: Word := 0xffff_ffff ^ 0x01d3191f
  const T59: Word := 0xffff_ffff ^ 0x5cfebceb
  const T60: Word := 0x4e0811a1
  const T61: Word := 0xffff_ffff ^ 0x08ac817d
  const T62: Word := 0xffff_ffff ^ 0x42c50dca
  const T63: Word := 0x2ad7d2bb
  const T64: Word := 0xffff_ffff ^ 0x14792c6e

  // ROTATE_LEFT and SET.
  function RotateLeft(x: Word, n: Word): Word
    requires n <= 32
  {
    (x << n) | (x >> (32 - n))
  }

  function Set(f: Word, a: Word, b: Word, xk: Word, s: Word, t: Word): Word
    requires s <= 32
  {
    Add(RotateLeft(Sum(a, f, xk, t), s), b)
  }

  lemma RotateF(x: Word)
    ensures RotateLeft(x, 7) == Circular(x, 7)
    ensures RotateLeft(x, 12) == Circular(x, 12)
    ensures RotateLeft(x, 17) == Circular(x, 17)
    ensures RotateLeft(x, 22) == Circular(x, 22)
  {
  }

  lemma RotateG(x: Word)
    ensures RotateLeft(x, 5) == Circular(x, 5)
    ensures RotateLeft(x, 9) == Circular(x, 9)
    ensures RotateLeft(x, 14) == Circular(x, 14)
    ensures RotateLeft(x, 20) == Circular(x, 20)
  {
  }

  lemma RotateH(x: Word)
    ensures RotateLeft(x, 4) == Circular(x, 4)
    ensures RotateLeft(x, 11) == Circular(x, 11)
    ensures RotateLeft(x, 16) == Circular(x, 16)
    ensures RotateLeft(x, 23) == Circular(x, 23)
  {
  }

  lemma RotateI(x: Word)
    ensures RotateLeft(x, 6) == Circular(x, 6)
    ensures RotateLeft(x, 10) == Circular(x, 10)
    ensures RotateLeft(x, 15) == Circular(x, 15)
    ensures RotateLeft(x, 21) == Circular(x, 21)
  {
  }

  // The shift-and-or macro is a circular shift for each amount that occurs.
  lemma RotateLeftIsCircular(i: nat, x: Word)
    requires i < 64
    ensures RotateLeft(x, Amount(i)) == Circular(x, S(i))
  {
    hide RotateLeft, Circular;
    if i < 16 { RotateF(x); } else if i < 32 { RotateG(x); } else if i < 48 { RotateH(x); } else { RotateI(x); }
  }

  // The amounts as written in the SET lines.
  function Amount(i: nat): (s: Word)
    ensures s <= 32
  {
    if i < 16 then Pick(i % 4, 7, 12, 17, 22)
    else if i < 32 then Pick(i % 4, 5, 9, 14, 20)
    else if i < 48 then Pick(i % 4, 4, 11, 16, 23)
    else Pick(i % 4, 6, 10, 15, 21)
  }

  lemma SetIsOperation(f: Word, a: Word, b: Word, xk: Word, s: Word, n: nat, t: Word)
    requires s <= 32 && n <= 32
    requires RotateLeft(Sum(a, f, xk, t), s) == Circular(Sum(a, f, xk, t), n)
    ensures Set(f, a, b, xk, s, t) == Operation(f, a, b, xk, n, t)
  {
    hide RotateLeft, Circular, Sum, Add;
  }

  // One SET line is one indexed step of the RFC on rotated register roles.
  lemma StepIsSet(i: nat, start: Regs, r: Regs, x: seq<Word>)
    requires i < 64 && |x| == 16 && r == Steps(i, start, x)
    ensures Steps(i + 1, start, x)
         == Regs(r.d, Set(Mix(i, r.b, r.c, r.d), r.a, r.b, x[K(i)], Amount(i), T(i)), r.b, r.c)
  {
    hide Set, Operation, Mix, K, S, Amount, T, Sum, RotateLeft, Circular;
    RotateLeftIsCircular(i, Sum(r.a, Mix(i, r.b, r.c, r.d), x[K(i)], T(i)));
    SetIsOperation(Mix(i, r.b, r.c, r.d), r.a, r.b, x[K(i)], Amount(i), S(i), T(i));
  }

  // Word index, rotation amount and constant of every SET line are the ones the RFC assigns.
  ghost predicate Line(i: nat, k: nat, s: Word, t: Word)
    requires i < 64
  {
    K(i) == k && Amount(i) == s && T(i) == t
  }

  lemma Table1()
    ensures Line(0, 0, 7, T1) && Line(1, 1, 12, T2)
    ensures Line(2, 2, 17, T3) && Line(3, 3, 22, T4)
    ensures Line(4, 4, 7, T5) && Line(5, 5, 12, T6)
    ensures Line(6, 6, 17, T7) && Line(7, 7, 22, T8)
    ensures Line(8, 8, 7, T9) && Line(9, 9, 12, T10)
    ensures Line(10, 10, 17, T11) && Line(11, 11, 22, T12)
    ensures Line(12, 12, 7, T13) && Line(13, 13, 12, T14)
    ensures Line(14, 14, 17, T15) && Line(15, 15, 22, T16)
  {
  }

  lemma Table2()
    ensures Line(16, 1, 5, T17) && Line(17, 6, 9, T18)
    ensures Line(18, 11, 14, T19) && Line(19, 0, 20, T20)
    ensures Line(20, 5, 5, T21) && Line(21, 10, 9, T22)
    ensures Line(22, 15, 14, T23) && Line(23, 4, 20, T24)
    ensures Line(24, 9, 5, T25) && Line(25, 14, 9, T26)
    ensures Line(26, 3, 14, T27) && Line(27, 8, 20, T28)
    ensures Line(28, 13, 5, T29) && Line(29, 2, 9, T30)
    ensures Line(30, 7, 14, T31) && Line(31, 12, 20, T32)
  {
  }

  lemma Table3()
    ensures Line(32, 5, 4, T33) && Line(33, 8, 11, T34)
    ensures Line(34, 11, 16, T35) && Line(35, 14, 23, T36)
    ensures Line(36, 1, 4, T37) && Line(37, 4, 11, T38)
    ensures Line(38, 7, 16, T39) && Line(39, 10, 23, T40)
    ensures Line(40, 13, 4, T41) && Line(41, 0, 11, T42)
    ensures Line(42, 3, 16, T43) && Line(43, 6, 23, T44)
    ensures Line(44, 9, 4, T45) && Line(45, 12, 11, T46)
    ensures Line(46, 15, 16, T47) && Line(47, 2, 23, T48)
  {
  }

  lemma Table4()
    ensures Line(48, 0, 6, T49) && Line(49, 7, 10, T50)
    ensures Line(50, 14, 15, T51) && Line(51, 5, 21, T52)
    ensures Line(52, 12, 6, T53) && Line(53, 3, 10, T54)
    ensures Line(54, 10, 15, T55) && Line(55, 1, 21, T56)
    ensures Line(56, 8, 6, T57) && Line(57, 15, 10, T58)
    ensures Line(58, 6, 15, T59) && Line(59, 13, 21, T60)
    ensures Line(60, 4, 6, T61) && Line(61, 11, 10, T62)
    ensures Line(62, 2, 15, T63) && Line(63, 9, 21, T64)
  {
  }

  // Round 1: steps 0 to 15, with the register roles rotated in the text.
  method Round1(ghost start: Regs, x: seq<Word>, a0: Word, b0: Word, c0: Word, d0: Word)
    returns (a: Word, b: Word, c: Word, d: Word)
    requires |x| == 16 && Regs(a0, b0, c0, d0) == Steps(0, start, x)
    ensures Regs(a, b, c, d) == Steps(16, start, x)
  {
    hide F, G, H, I, K, S, T, Amount, Set, Step, Steps;
    Table1();
    a, b, c, d := a0, b0, c0, d0;
    StepIsSet(0, start, Regs(a, b, c, d), x); a := Set(F(b, c, d), a, b, x[0], 7, T1);
    StepIsSet(1, start, Regs(d, a, b, c), x); d := Set(F(a, b, c), d, a, x[1], 12, T2);
    StepIsSet(2, start, Regs(c, d, a, b), x); c := Set(F(d, a, b), c, d, x[2], 17, T3);
    StepIsSet(3, start, Regs(b, c, d, a), x); b := Set(F(c, d, a), b, c, x[3], 22, T4);
    StepIsSet(4, start, Regs(a, b, c, d), x); a := Set(F(b, c, d), a, b, x[4], 7, T5);
    StepIsSet(5, start, Regs(d, a, b, c), x); d := Set(F(a, b, c), d, a, x[5], 12, T6);
    StepIsSet(6, start, Regs(c, d, a, b), x); c := Set(F(d, a, b), c, d, x[6], 17, T7);
    StepIsSet(7, start, Regs(b, c, d, a), x); b := Set(F(c, d, a), b, c, x[7], 22, T8);
    StepIsSet(8, start, Regs(a, b, c, d), x); a := Set(F(b, c, d), a, b, x[8], 7, T9);
    StepIsSet(9, start, Regs(d, a, b, c), x); d := Set(F(a, b, c), d, a, x[9], 12, T10);
    StepIsSet(10, start, Regs(c, d, a, b), x); c := Set(F(d, a, b), c, d, x[10], 17, T11);
    StepIsSet(11, start, Regs(b, c, d, a), x); b := Set(F(c, d, a), b, c, x[11], 22, T12);
    StepIsSet(12, start, Regs(a, b, c, d), x); a := Set(F(b, c, d), a, b, x[12], 7, T13);
    StepIsSet(13, start, Regs(d, a, b, c), x); d := Set(F(a, b, c), d, a, x[13], 12, T14);
    StepIsSet(14, start, Regs(c, d, a, b), x); c := Set(F(d, a, b), c, d, x[14], 17, T15);
    StepIsSet(15, start, Regs(b, c, d, a), x); b := Set(F(c, d, a), b, c, x[15], 22, T16);
  }

  // Round 2: steps 16 to 31, with the register roles rotated in the text.
  method Round2(ghost start: Regs, x: seq<Word>, a0: Word, b0: Word, c0: Word, d0: Word)
    returns (a: Word, b: Word, c: Word, d: Word)
    requires |x| == 16 && Regs(a0, b0, c0, d0) == Steps(16, start, x)
    ensures Regs(a, b, c, d) == Steps(32, start, x)
  {
    hide F, G, H, I, K, S, T, Amount, Set, Step, Steps;
    Table2();
    a, b, c, d := a0, b0, c0, d0;
    StepIsSet(16, start, Regs(a, b, c, d), x); a := Set(G(b, c, d), a, b, x[1], 5, T17);
    StepIsSet(17, start, Regs(d, a, b, c), x); d := Set(G(a, b, c), d, a, x[6], 9, T18);
    StepIsSet(18, start, Regs(c, d, a, b), x); c := Set(G(d, a, b), c, d, x[11], 14, T19);
    StepIsSet(19, start, Regs(b, c, d, a), x); b := Set(G(c, d, a), b, c, x[0], 20, T20);
    StepIsSet(20, start, Regs(a, b, c, d), x); a := Set(G(b, c, d), a, b, x[5], 5, T21);
    StepIsSet(21, start, Regs(d, a, b, c), x); d := Set(G(a, b, c), d, a, x[10], 9, T22);
    StepIsSet(22, start, Regs(c, d, a, b), x); c := Set(G(d, a, b), c, d, x[15], 14, T23);
    StepIsSet(23, start, Regs(b, c, d, a), x); b := Set(G(c, d, a), b, c, x[4], 20, T24);
    StepIsSet(24, start, Regs(a, b, c, d), x); a := Set(G(b, c, d), a, b, x[9], 5, T25);
    StepIsSet(25, start, Regs(d, a, b, c), x); d := Set(G(a, b, c), d, a, x[14], 9, T26);
    StepIsSet(26, start, Regs(c, d, a, b), x); c := Set(G(d, a, b), c, d, x[3], 14, T27);
    StepIsSet(27, start, Regs(b, c, d, a), x); b := Set(G(c, d, a), b, c, x[8], 20, T28);
    StepIsSet(28, start, Regs(a, b, c, d), x); a := Set(G(b, c, d), a, b, x[13], 5, T29);
    StepIsSet(29, start, Regs(d, a, b, c), x); d := Set(G(a, b, c), d, a, x[2], 9, T30);
    StepIsSet(30, start, Regs(c, d, a, b), x); c := Set(G(d, a, b), c, d, x[7], 14, T31);
    StepIsSet(31, start, Regs(b, c, d, a), x); b := Set(G(c, d, a), b, c, x[12], 20, T32);
  }

  // Round 3: steps 32 to 47, with the register roles rotated in the text.
  method Round3(ghost start: Regs, x: seq<Word>, a0: Word, b0: Word, c0: Word, d0: Word)
    returns (a: Word, b: Word, c: Word, d: Word)
    requires |x| == 16 && Regs(a0, b0, c0, d0) == Steps(32, start, x)
    ensures Regs(a, b, c, d) == Steps(48, start, x)
  {
    hide F, G, H, I, K, S, T, Amount, Set, Step, Steps;
    Table3();
    a, b, c, d := a0, b0, c0, d0;
    StepIsSet(32, start, Regs(a, b, c, d), x); a := Set(H(b, c, d), a, b, x[5], 4, T33);
    StepIsSet(33, start, Regs(d, a, b, c), x); d := Set(H(a, b, c), d, a, x[8], 11, T34);
    StepIsSet(34, start, Regs(c, d, a, b), x); c := Set(H(d, a, b), c, d, x[11], 16, T35);
    StepIsSet(35, start, Regs(b, c, d, a), x); b := Set(H(c, d, a), b, c, x[14], 23, T36);
    StepIsSet(36, start, Regs(a, b, c, d), x); a := Set(H(b, c, d), a, b, x[1], 4, T37);
    StepIsSet(37, start, Regs(d, a, b, c), x); d := Set(H(a, b, c), d, a, x[4], 11, T38);
    StepIsSet(38, start, Regs(c, d, a, b), x); c := Set(H(d, a, b), c, d, x[7], 16, T39);
    StepIsSet(39, start, Regs(b, c, d, a), x); b := Set(H(c, d, a), b, c, x[10], 23, T40);
    StepIsSet(40, start, Regs(a, b, c, d), x); a := Set(H(b, c, d), a, b, x[13], 4, T41);
    StepIsSet(41, start, Regs(d, a, b, c), x); d := Set(H(a, b, c), d, a, x[0], 11, T42);
    StepIsSet(42, start, Regs(c, d, a, b), x); c := Set(H(d, a, b), c, d, x[3], 16, T43);
    StepIsSet(43, start, Regs(b, c, d, a), x); b := Set(H(c, d, a), b, c, x[6], 23, T44);
    StepIsSet(44, start, Regs(a, b, c, d), x); a := Set(H(b, c, d), a, b, x[9], 4, T45);
    StepIsSet(45, start, Regs(d, a, b, c), x); d := Set(H(a, b, c), d, a, x[12], 11, T46);
    StepIsSet(46, start, Regs(c, d, a, b), x); c := Set(H(d, a, b), c, d, x[15], 16, T47);
    StepIsSet(47, start, Regs(b, c, d, a), x); b := Set(H(c, d, a), b, c, x[2], 23, T48);
  }

  // Round 4: steps 48 to 63, with the register roles rotated in the text.
  method Round4(ghost start: Regs, x: seq<Word>, a0: Word, b0: Word, c0: Word, d0: Word)
    returns (a: Word, b: Word, c: Word, d: Word)
    requires |x| == 16 && Regs(a0, b0, c0, d0) == Steps(48, start, x)
    ensures Regs(a, b, c, d) == Steps(64, start, x)
  {
    hide F, G, H, I, K, S, T, Amount, Set, Step, Steps;
    Table4();
    a, b, c, d := a0, b0, c0, d0;
    StepIsSet(48, start, Regs(a, b, c, d), x); a := Set(I(b, c, d), a, b, x[0], 6, T49);
    StepIsSet(49, start, Regs(d, a, b, c), x); d := Set(I(a, b, c), d, a, x[7], 10, T50);
    StepIsSet(50, start, Regs(c, d, a, b), x); c := Set(I(d, a, b), c, d, x[14], 15, T51);
    StepIsSet(51, start, Regs(b, c, d, a), x); b := Set(I(c, d, a), b, c, x[5], 21, T52);
    StepIsSet(52, start, Regs(a, b, c, d), x); a := Set(I(b, c, d), a, b, x[12], 6, T53);
    StepIsSet(53, start, Regs(d, a, b, c), x); d := Set(I(a, b, c), d, a, x[3], 10, T54);
    StepIsSet(54, start, Regs(c, d, a, b), x); c := Set(I(d, a, b), c, d, x[10], 15, T55);
    StepIsSet(55, start, Regs(b, c, d, a), x); b := Set(I(c, d, a), b, c, x[1], 21, T56);
    StepIsSet(56, start, Regs(a, b, c, d), x); a := Set(I(b, c, d), a, b, x[8], 6, T57);
    StepIsSet(57, start, Regs(d, a, b, c), x); d := Set(I(a, b, c), d, a, x[15], 10, T58);
    StepIsSet(58, start, Regs(c, d, a, b), x); c := Set(I(d, a, b), c, d, x[6], 15, T59);
    StepIsSet(59, start, Regs(b, c, d, a), x); b := Set(I(c, d, a), b, c, x[13], 21, T60);
    StepIsSet(60, start, Regs(a, b, c, d), x); a := Set(I(b, c, d), a, b, x[4], 6, T61);
    StepIsSet(61, start, Regs(d, a, b, c), x); d := Set(I(a, b, c), d, a, x[11], 10, T62);
    StepIsSet(62, start, Regs(c, d, a, b), x); c := Set(I(d, a, b), c, d, x[2], 15, T63);
    StepIsSet(63, start, Regs(b, c, d, a), x); b := Set(I(c, d, a), b, c, x[9], 21, T64);
  }

  // The number of message bytes already folded into the registers.
  function Full(n: nat): (f: nat)
    ensures f % 64 == 0 && f <= n < f + 64
  {
    n - n % 64
  }

  // md5_state_s: the bit count in two 32-bit words, the registers and the partial block.
  class State {
    var count0: nat
    var count1: nat
    const abcd: array<Word>
    const buf: array<Byte>
    ghost var message: seq<Byte>

    ghost function Registers(): Regs
      reads abcd
      requires abcd.Length == 4
    {
      Regs(abcd[0], abcd[1], abcd[2], abcd[3])
    }

    ghost predicate Valid()
      reads this, abcd, buf
    {
      && abcd.Length == 4 && buf.Length == 64
      && Counts(|message|)
      && Folded(message)
    }

    // The registers hold every full block of m, the buffer the bytes after them.
    ghost predicate Folded(m: seq<Byte>)
      requires abcd.Length == 4 && buf.Length == 64
      reads abcd, buf
    {
      Registers() == Compress(m[..Full(|m|)]) && buf[..|m| % 64] == m[Full(|m|)..]
    }

    // The length so far, in bits, modulo 2^64.
    ghost predicate Counts(n: nat)
      reads this`count0, this`count1
    {
      count0 < TWO32 && count1 < TWO32 && count0 + TWO32 * count1 == 8 * n % TWO64
    }

    constructor ()
      ensures Valid() && message == []
      ensures fresh(abcd) && fresh(buf)
    {
      count0, count1 := 0, 0;
      abcd := new Word[4];
      buf := new Byte[64];
      message := [];
      new;
      abcd[0], abcd[1], abcd[2], abcd[3] := 0x67452301, 0xffff_ffff ^ 0x10325476, 0xffff_ffff ^ 0x67452301, 0x10325476;
    }

    // md5_process
    method Process(block: seq<Byte>)
      requires abcd.Length == 4 && |block| == 64
      modifies abcd
      ensures Registers() == Block(old(Registers()), block)
    {
      hide WordOf, Add;
      var x := Decode(block);
      ghost var start := Registers();
      var a, b, c, d := Round1(start, x, abcd[0], abcd[1], abcd[2], abcd[3]);
      a, b, c, d := Round2(start, x, a, b, c, d);
      a, b, c, d := Round3(start, x, a, b, c, d);
      a, b, c, d := Round4(start, x, a, b, c, d);
      abcd[0] := Add(abcd[0], a);
      abcd[1] := Add(abcd[1], b);
      abcd[2] := Add(abcd[2], c);
      abcd[3] := Add(abcd[3], d);
    }

    // The length update of md5_append.
    method AddLength(nbytes: nat, ghost n: nat)
      requires Counts(n) && 0 < nbytes < 0x8000_0000
      modifies this`count0, this`count1
      ensures Counts(n + nbytes)
    {
      CountCarries(n, nbytes, count0, count1);
      var nbits := nbytes * 8 % TWO32;
      count1 := (count1 + nbytes / 0x2000_0000) % TWO32;
      count0 := (count0 + nbits) % TWO32;
      if count0 < nbits {
        count1 := (count1 + 1) % TWO32;
      }
    }

    // memcpy into buf.
    method Fill(offset: nat, data: seq<Byte>)
      requires buf.Length == 64 && offset + |data| <= 64
      modifies buf
      ensures buf[..offset] == old(buf[..offset]) && buf[offset..offset + |data|] == data
    {
      forall i | 0 <= i < |data| { buf[offset + i] := data[i]; }
    }

    // The loop of md5_append over full blocks; m is the whole message and data its last part.
    method FullBlocks(data: seq<Byte>, p0: nat, ghost m: seq<Byte>, ghost n: nat) returns (p: nat)
      requires abcd.Length == 4 && p0 <= |data|
      requires |m| == n + |data| && m[n..] == data && (n + p0) % 64 == 0
      requires Registers() == Compress(m[..n + p0])
      modifies abcd
      ensures p0 <= p <= |data| < p + 64 && (n + p) % 64 == 0
      ensures Registers() == Compress(m[..n + p])
    {
      hide Block, Compress;
      p := p0;
      var left := |data| - p;
      while left >= 64
        invariant p0 <= p <= |data| && left == |data| - p && (n + p) % 64 == 0
        invariant Registers() == Compress(m[..n + p])
      {
        var block := data[p..p + 64];
        Process(block);
        FoldNext(m, n + p, block);
        p, left := p + 64, left - 64;
      }
    }

    // The full blocks and the final partial block of md5_append.
    method Rest(data: seq<Byte>, p0: nat, ghost m: seq<Byte>, ghost n: nat)
      requires abcd.Length == 4 && buf.Length == 64 && p0 <= |data|
      requires |m| == n + |data| && m[n..] == data && (n + p0) % 64 == 0
      requires Registers() == Compress(m[..n + p0])
      modifies abcd, buf
      ensures Folded(m)
    {
      hide Block, Compress;
      var p := FullBlocks(data, p0, m, n);
      assert n + p == Full(|m|);
      if p != |data| {
        Fill(0, data[p..]);
      }
      assert m[n + p..] == data[p..];
    }

    // The initial partial block of md5_append: f bytes are folded and offset bytes are in buf.
    method Partial(data: seq<Byte>, offset: nat, ghost m: seq<Byte>, ghost f: nat) returns (p: nat)
      requires abcd.Length == 4 && buf.Length == 64
      requires 0 < offset < 64 && f % 64 == 0 && f + offset <= |m| && m[f + offset..] == data
      requires buf[..offset] == m[f..f + offset] && Registers() == Compress(m[..f])
      requires offset + |data| < TWO31
      modifies abcd, buf
      ensures p == if offset + |data| > 64 then 64 - offset else |data|
      ensures offset + p == 64 ==> Registers() == Compress(m[..f + 64])
      ensures offset + p < 64 ==> Registers() == Compress(m[..f]) && buf[..offset + p] == m[f..]
    {
      hide Block, Compress;
      p := Copied(offset, |data|);
      assert IntSum(offset, |data|) == offset + |data|;
      assert data[..p] == m[f + offset..f + offset + p];
      Fill(offset, data[..p]);
      assert buf[..offset + p] == buf[..offset] + buf[offset..offset + p];
      assert buf[..offset + p] == m[f..f + offset + p];
      if offset + p < 64 {
        return;
      }
      assert buf[..] == m[f..f + 64];
      Process(buf[..]);
      FoldNext(m, f, m[f..f + 64]);
    }

    // (count[0] >> 3) & 63 is the fill of the partial block.
    method Offset() returns (offset: nat)
      requires Valid()
      ensures offset == |message| % 64
    {
      OffsetIs(|message|, count0, count1);
      offset := count0 / 8 % 64;
    }

    // md5_append after the length update.
    method AppendBytes(data: seq<Byte>, offset: nat)
      requires abcd.Length == 4 && buf.Length == 64
      requires Folded(message) && offset == |message| % 64 && offset + |data| < TWO31
      modifies this`message, abcd, buf
      ensures message == old(message) + data && Folded(message)
    {
      hide Block, Compress;
      ghost var f, n := |message| - offset, |message|;
      ghost var m := message + data;
      assert m[..f] == message[..f] && m[f..n] == message[f..] && m[n..] == data;
      message := m;
      var p := 0;
      if offset != 0 {
        p := Partial(data, offset, m, f);
        if offset + p < 64 {
          assert |m| % 64 == offset + p;
          return;
        }
      }
      Rest(data, p, m, n);
    }

    // md5_append: nbytes is |data|. It is an int, and so is its sum with the bytes already buffered.
    method Append(data: seq<Byte>)
      requires Valid() && |message| % 64 + |data| < TWO31
      modifies this, abcd, buf
      ensures Valid() && message == old(message) + data
    {
      hide Full, Compress, Block, Counts, Folded, Registers;
      var offset := Offset();
      if |data| <= 0 {
        assert message + data == message;
        return;
      }
      AddLength(|data|, |message|);
      AppendBytes(data, offset);
    }

    // md5_finish
    method Finish() returns (digest: seq<Byte>)
      requires Valid()
      modifies this, abcd, buf
      ensures digest == Digest(old(message))
    {
      hide Block, Compress, Counts, Folded, Registers, Full, LengthByte;
      ghost var m := message;
      var data := SavedLength(|m|);
      var padding := PadBytes();
      Append(padding);
      Append(data);
      assert message == m + Padding(|m|);
      digest := Output();
    }

    // The first ((55 - (count[0] >> 3)) & 63) + 1 bytes of pad.
    method PadBytes() returns (padding: seq<Byte>)
      requires Valid()
      ensures padding == [0x80] + seq(Zeros(|message|), _ => 0 as Byte)
    {
      hide Folded;
      OffsetIs(|message|, count0, count1);
      PadCount(|message|, count0 / 8);
      var pad := [0x80 as Byte] + seq(63, _ => 0 as Byte);
      padding := pad[..(55 - count0 / 8) % 64 + 1];
    }

    // The length bytes saved before padding.
    method SavedLength(ghost n: nat) returns (data: seq<Byte>)
      requires Counts(n)
      ensures data == LengthBytes(n)
    {
      hide LengthByte;
      var d := new Byte[8];
      for i := 0 to 8
        invariant forall j :: 0 <= j < i ==> d[j] == LengthByte(n, j)
      {
        CountByte(n, count0, count1, i);
        d[i] := ((if i / 4 == 0 then count0 else count1) / Pow256(i % 4) % 256) as Byte;
      }
      data := d[..];
    }

    // The digest bytes, low-order byte of each register first.
    method Output() returns (digest: seq<Byte>)
      requires Valid() && |message| % 64 == 0
      ensures digest == BytesOf(Compress(message))
    {
      hide ByteOf, Block, Compress;
      assert message[..Full(|message|)] == message;
      var d := new Byte[16];
      for i := 0 to 16
        invariant forall j :: 0 <= j < i ==> d[j] == BytesOf(Registers())[j]
      {
        d[i] := ByteOf(abcd[i / 4], i % 4);
      }
      digest := d[..];
    }
  }

  // The sum of two ints as a machine computes it, wrapping around.
  function IntSum(a: int, b: int): int {
    (a + b + TWO31) % TWO32 - TWO31
  }

  // How much of an append goes into the partial block: copy in md5_append.
  function Copied(offset: nat, nbytes: nat): nat
    requires offset < 64
  {
    if IntSum(offset, nbytes) > 64 then 64 - offset else nbytes
  }

  // The copy stays inside the 64-byte buffer exactly when the int sum does not overflow: with one byte
  // buffered, an append of 2^31 - 1 bytes would be copied whole.
  lemma CopyFitsIff(offset: nat, nbytes: nat)
    requires 0 < offset < 64 && 0 < nbytes < TWO31
    ensures offset + Copied(offset, nbytes) <= 64 <==> offset + nbytes < TWO31
    ensures offset + nbytes >= TWO31 ==> Copied(offset, nbytes) == nbytes
  {
    if offset + nbytes < TWO31 {
      assert IntSum(offset, nbytes) == offset + nbytes;
    } else {
      assert IntSum(offset, nbytes) == offset + nbytes - TWO32;
    }
  }

  lemma CopyOverflows()
    ensures Copied(1, TWO31 - 1) == TWO31 - 1
  {
    CopyFitsIff(1, TWO31 - 1);
  }

  // Every way of cutting a message into appended pieces gives the one-shot digest.
  method HashPieces(pieces: seq<seq<Byte>>) returns (digest: seq<Byte>)
    requires forall i :: 0 <= i < |pieces| ==> |Flatten(pieces[..i])| % 64 + |pieces[i]| < TWO31
    ensures digest == Digest(Flatten(pieces))
  {
    hide Digest;
    hide State.Counts, State.Folded, State.Registers;
    var s := new State();
    for i := 0 to |pieces|
      invariant s.Valid() && fresh(s) && fresh(s.abcd) && fresh(s.buf)
      invariant s.message == Flatten(pieces[..i])
    {
      s.Append(pieces[i]);
      assert pieces[..i + 1][..i] == pieces[..i];
    }
    assert pieces[..|pieces|] == pieces;
    digest := s.Finish();
  }

  // The pad length computed with unsigned wrap-around is one byte more than the zeros of the RFC.
  lemma PadCount(n: nat, low: nat)
    requires low % 64 == n % 64
    ensures (55 - low) % 64 == Zeros(n)
  {
  }

  // Byte i of the two count words is byte i of the 64-bit length in bits.
  lemma CountByte(n: nat, c0: nat, c1: nat, i: nat)
    requires i < 8 && c0 < TWO32 && c1 < TWO32 && c0 + TWO32 * c1 == 8 * n % TWO64
    ensures ((if i / 4 == 0 then c0 else c1) / Pow256(i % 4) % 256) as Byte == LengthByte(n, i)
  {
    if i < 4 {
      LowByte(c0, c1, i);
    } else {
      HighByte(c0, c1, i);
    }
  }

  lemma LowByte(c0: nat, c1: nat, i: nat)
    requires i < 4
    ensures (c0 + TWO32 * c1) / Pow256(i) % 256 == c0 / Pow256(i) % 256
  {
    var v := c0 + TWO32 * c1;
    if i == 0 {
      ByteBelow(v, c0, 1, 0x100_0000 * c1);
    } else if i == 1 {
      assert Pow256(1) == 0x100;
      ByteBelow(v, c0, 0x100, 0x1_0000 * c1);
    } else if i == 2 {
      assert Pow256(2) == 0x1_0000;
      ByteBelow(v, c0, 0x1_0000, 0x100 * c1);
    } else {
      assert Pow256(3) == 0x100_0000;
      ByteBelow(v, c0, 0x100_0000, c1);
    }
  }

  lemma ByteBelow(v: nat, c: nat, p: nat, z: nat)
    requires p > 0 && v == c + p * (256 * z)
    ensures v / p % 256 == c / p % 256
  {
    Shift(c, 256 * z, p);
    AddMultipleOf(c / p, z, 256);
  }

  lemma Shift(x: nat, y: nat, d: nat)
    requires d > 0
    ensures (x + d * y) / d == x / d + y
  {
    var q, r := x / d, x % d;
    assert x + d * y == d * (q + y) + r;
    DivModUnique(x + d * y, d, q + y, r);
  }

  lemma HighByte(c0: nat, c1: nat, i: nat)
    requires 4 <= i < 8 && c0 < TWO32
    ensures (c0 + TWO32 * c1) / Pow256(i) == c1 / Pow256(i % 4)
  {
    var v := c0 + TWO32 * c1;
    if i == 4 {
      assert Pow256(4) == 0x1_0000_0000;
    } else if i == 5 {
      assert Pow256(5) == 0x100_0000_0000 && Pow256(1) == 0x100;
    } else if i == 6 {
      assert Pow256(6) == 0x1_0000_0000_0000 && Pow256(2) == 0x1_0000;
    } else {
      assert Pow256(7) == 0x100_0000_0000_0000 && Pow256(3) == 0x100_0000;
    }
  }

  lemma FoldNext(m: seq<Byte>, k: nat, block: seq<Byte>)
    requires k + 64 <= |m| && k % 64 == 0 && block == m[k..k + 64]
    ensures Compress(m[..k + 64]) == Block(Compress(m[..k]), block)
  {
    hide Block;
    CompressBlock(m[..k], block);
    assert m[..k] + block == m[..k + 64];
  }

  const TWO64 := 0x1_0000_0000_0000_0000
  const TWO32 := 0x1_0000_0000
  const TWO31 := 0x8000_0000

  // The copy into xbuf, byte order made explicit.
  method Decode(block: seq<Byte>) returns (x: seq<Word>)
    requires |block| == 64
    ensures x == WordsOf(block)
  {
    var xbuf := new Word[16];
    for i := 0 to 16
      invariant forall j :: 0 <= j < i ==> xbuf[j] == WordsOf(block)[j]
    {
      xbuf[i] := WordOf(block[4 * i], block[4 * i + 1], block[4 * i + 2], block[4 * i + 3]);
    }
    x := xbuf[..];
  }

  // The two-word bit count, with its carry, is the length in bits modulo 2^64.
  lemma CountCarries(n: nat, nbytes: nat, c0: nat, c1: nat)
    requires 0 < nbytes < 0x8000_0000 && c0 < TWO32 && c1 < TWO32
    requires c0 + TWO32 * c1 == 8 * n % TWO64
    ensures var nbits := nbytes * 8 % TWO32;
      var hi := (c1 + nbytes / 0x2000_0000) % TWO32;
      var lo := (c0 + nbits) % TWO32;
      lo + TWO32 * (if lo < nbits then (hi + 1) % TWO32 else hi) == 8 * (n + nbytes) % TWO64
  {
    var q, hi0, nbits := 8 * n / TWO64, nbytes / 0x2000_0000, nbytes * 8 % TWO32;
    assert 8 * n == q * TWO64 + c0 + TWO32 * c1;
    assert nbytes * 8 == hi0 * TWO32 + nbits;
    Carry(q, c0, c1, hi0, nbits, 8 * (n + nbytes));
  }

  lemma Carry(q: nat, c0: nat, c1: nat, hi0: nat, nbits: nat, total: nat)
    requires c0 < TWO32 && nbits < TWO32
    requires total == q * TWO64 + c0 + TWO32 * c1 + hi0 * TWO32 + nbits
    ensures var hi := (c1 + hi0) % TWO32;
      var lo := (c0 + nbits) % TWO32;
      lo + TWO32 * (if lo < nbits then (hi + 1) % TWO32 else hi) == total % TWO64
  {
    var lo := (c0 + nbits) % TWO32;
    if c0 + nbits >= TWO32 {
      assert lo == c0 + nbits - TWO32 < nbits;
      NextMod(c1 + hi0);
      HighWord(q, lo, c1 + hi0 + 1, total);
    } else {
      assert lo == c0 + nbits >= nbits;
      HighWord(q, lo, c1 + hi0, total);
    }
  }

  lemma NextMod(x: nat)
    ensures (x % TWO32 + 1) % TWO32 == (x + 1) % TWO32
  {
    AddMultipleOf(x % TWO32 + 1, x / TWO32, TWO32);
  }

  lemma HighWord(q: nat, lo: nat, s: nat, total: nat)
    requires lo < TWO32 && total == q * TWO64 + lo + TWO32 * s
    ensures lo + TWO32 * (s % TWO32) == total % TWO64
  {
    var r := s / TWO32;
    assert total == (q + r) * TWO64 + (lo + TWO32 * (s % TWO32));
  }

  // The low word of the count gives the fill of the partial block.
  lemma OffsetIs(n: nat, c0: nat, c1: nat)
    requires c0 < TWO32 && c0 + TWO32 * c1 == 8 * n % TWO64
    ensures c0 / 8 % 64 == n % 64
  {
    var k := 8 * n / TWO64 * TWO32 + c1;
    assert 8 * n == k * TWO32 + c0;
    assert c0 == 8 * (n - k * 0x2000_0000);
    AddMultipleOf(c0 / 8, k * 0x80_0000, 64);
  }
}
