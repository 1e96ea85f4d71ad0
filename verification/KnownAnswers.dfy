// The digests that RFC 1321 lists in appendix A.5, computed step by step from the definitions.
module KnownAnswers {
  import opened Common
  import opened Rfc1321
  import opened Md5

  // One step with its message word, amount, constant and outcome in figures.
  lemma StepTo(i: nat, start: Regs, r: Regs, x: seq<Word>, k: nat, s: Word, t: Word, b: Word) returns (r': Regs)
    requires i < 64 && |x| == 16 && r == Steps(i, start, x) && Line(i, k, s, t) && k < 16
    requires Set(Mix(i, r.b, r.c, r.d), r.a, r.b, x[k], s, t) == b
    ensures r' == Regs(r.d, b, r.b, r.c) == Steps(i + 1, start, x)
  {
    hide Set, Mix, K, Amount, T;
    StepIsSet(i, start, r, x);
    r' := Regs(r.d, b, r.b, r.c);
  }

  // The bytes of a padded message.
  lemma PaddedByte(m: seq<Byte>, i: nat)
    requires i < |m + Padding(|m|)|
    ensures (m + Padding(|m|))[i] ==
      if i < |m| then m[i] else if i == |m| then 0x80
      else if i < |m| + 1 + Zeros(|m|) then 0 else LengthByte(|m|, i - |m| - 1 - Zeros(|m|))
  {
    hide LengthByte;
  }

  lemma WordValue(b: seq<Byte>, k: nat)
    requires |b| == 64 && k < 16
    ensures WordsOf(b)[k] == WordOf(b[4 * k], b[4 * k + 1], b[4 * k + 2], b[4 * k + 3])
  {
  }

  // The words of a block that is zero but for its first word and the low byte of the length.
  lemma ShortWords(b: seq<Byte>)
    requires |b| == 64 && forall i :: 4 <= i < 64 && i != 56 ==> b[i] == 0
    ensures WordsOf(b)[0] == WordOf(b[0], b[1], b[2], b[3]) && WordsOf(b)[14] == b[56] as Word
    ensures forall k :: 1 <= k < 16 && k != 14 ==> WordsOf(b)[k] == 0
  {
    hide WordsOf;
    WordValue(b, 0);
    WordValue(b, 14);
    forall k | 1 <= k < 16 && k != 14
      ensures WordsOf(b)[k] == 0
    {
      WordValue(b, k);
      assert b[4 * k] == 0 && b[4 * k + 1] == 0 && b[4 * k + 2] == 0 && b[4 * k + 3] == 0;
    }
  }

  // Two length bytes are enough for a message of less than 8192 bytes.
  function SmallByte(n: nat, j: nat): (b: nat)
    requires n < 8192
    ensures b < 256
  {
    if j == 0 then 8 * n % 256 else if j == 1 then 8 * n / 256 else 0
  }

  lemma SmallLength(n: nat, j: nat)
    requires n < 8192 && j < 8
    ensures LengthByte(n, j) == SmallByte(n, j) as Byte
  {
    SmallPower(j);
    SmallValue(n, j);
    hide Pow256, SmallByte;
    assert 8 * n % 0x1_0000_0000_0000_0000 / Pow256(j) % 256 == SmallByte(n, j);
  }

  lemma SmallValue(n: nat, j: nat)
    requires n < 8192 && j < 8
    ensures 8 * n % 0x1_0000_0000_0000_0000 / Pow256(j) % 256 == SmallByte(n, j)
  {
    hide Pow256;
    SmallPower(j);
    assert 8 * n % 0x1_0000_0000_0000_0000 == 8 * n;
    if j >= 2 {
      assert 8 * n / Pow256(j) == 0;
    }
  }

  lemma SmallPower(j: nat)
    ensures (j == 0 ==> Pow256(j) == 1) && (j == 1 ==> Pow256(j) == 256) && (j >= 2 ==> Pow256(j) >= 0x1_0000)
  {
    if j > 2 {
      SmallPower(j - 1);
    }
  }

  function WordBytes(w: Word): (s: seq<Byte>)
    ensures |s| == 4
  {
    [(w & 0xff) as Byte, ((w >> 8) & 0xff) as Byte, ((w >> 16) & 0xff) as Byte, ((w >> 24) & 0xff) as Byte]
  }

  lemma RegBytes(r: Regs)
    ensures BytesOf(r) == WordBytes(r.a) + WordBytes(r.b) + WordBytes(r.c) + WordBytes(r.d)
  {
    hide ByteOf, WordBytes;
    ByteOfs(r.a);
    ByteOfs(r.b);
    ByteOfs(r.c);
    ByteOfs(r.d);
  }

  lemma ByteOfs(w: Word)
    ensures ByteOf(w, 0) == WordBytes(w)[0] && ByteOf(w, 1) == WordBytes(w)[1]
    ensures ByteOf(w, 2) == WordBytes(w)[2] && ByteOf(w, 3) == WordBytes(w)[3]
  {
    hide ByteOf;
    ByteOf0(w);
    ByteOf1(w);
    ByteOf2(w);
    ByteOf3(w);
  }

  lemma ByteOf0(w: Word)
    ensures ByteOf(w, 0) == (w & 0xff) as Byte
  {
  }

  lemma ByteOf1(w: Word)
    ensures ByteOf(w, 1) == ((w >> 8) & 0xff) as Byte
  {
    assert w >> 8 * 1 == w >> 8;
  }

  lemma ByteOf2(w: Word)
    ensures ByteOf(w, 2) == ((w >> 16) & 0xff) as Byte
  {
    assert w >> 8 * 2 == w >> 16;
  }

  lemma ByteOf3(w: Word)
    ensures ByteOf(w, 3) == ((w >> 24) & 0xff) as Byte
  {
    assert w >> 8 * 3 == w >> 24;
  }

  lemma OneBlock(b: seq<Byte>)
    requires |b| == 64
    ensures Compress(b) == Block(INIT, b)
  {
    hide Block;
    assert b[..0] == [] && b[0..] == b;
  }

  // ---- The empty message ----

  ghost predicate EmptyWords(x: seq<Word>) {
    && |x| == 16
    && x[0] == 0x00000080 && x[1] == 0 && x[2] == 0 && x[3] == 0
    && x[4] == 0 && x[5] == 0 && x[6] == 0 && x[7] == 0
    && x[8] == 0 && x[9] == 0 && x[10] == 0 && x[11] == 0
    && x[12] == 0 && x[13] == 0 && x[14] == 0 && x[15] == 0
  }

  lemma EmptyRound1(x: seq<Word>)
    requires EmptyWords(x)
    ensures Steps(16, INIT, x) == Regs(0xf56c7cf1, 0xd6819c6a, 0x5aa53f75, 0x374943a7)
  {
    Table1();
    var r := Regs(0x67452301, 0xefcdab89, 0x98badcfe, 0x10325476);
    r := StepTo(0, INIT, r, x, 0, 7, T1, 0xa5202774);
    r := StepTo(1, INIT, r, x, 1, 12, T2, 0xf59592dd);
    r := StepTo(2, INIT, r, x, 2, 17, T3, 0xe7f06b23);
    r := StepTo(3, INIT, r, x, 3, 22, T4, 0x1b163203);
    r := StepTo(4, INIT, r, x, 4, 7, T5, 0x32033344);
    r := StepTo(5, INIT, r, x, 5, 12, T6, 0x2f35d494);
    r := StepTo(6, INIT, r, x, 6, 17, T7, 0xf5b158db);
    r := StepTo(7, INIT, r, x, 7, 22, T8, 0x9bc13ce9);
    r := StepTo(8, INIT, r, x, 8, 7, T9, 0x3893b991);
    r := StepTo(9, INIT, r, x, 9, 12, T10, 0xfce4a312);
    r := StepTo(10, INIT, r, x, 10, 17, T11, 0xe1ef0576);
    r := StepTo(11, INIT, r, x, 11, 22, T12, 0x70768a29);
    r := StepTo(12, INIT, r, x, 12, 7, T13, 0xf56c7cf1);
    r := StepTo(13, INIT, r, x, 13, 12, T14, 0x374943a7);
    r := StepTo(14, INIT, r, x, 14, 17, T15, 0x5aa53f75);
    r := StepTo(15, INIT, r, x, 15, 22, T16, 0xd6819c6a);
  }

  lemma EmptyRound2(x: seq<Word>)
    requires EmptyWords(x)
    ensures Steps(32, INIT, x) == Regs(0x13707036, 0xa2205f1f, 0x1c31c384, 0xae7813db)
  {
    Table2();
    EmptyRound1(x);
    var r := Regs(0xf56c7cf1, 0xd6819c6a, 0x5aa53f75, 0x374943a7);
    r := StepTo(16, INIT, r, x, 1, 5, T17, 0x1c7d7513);
    r := StepTo(17, INIT, r, x, 6, 9, T18, 0x7bd57a3a);
    r := StepTo(18, INIT, r, x, 11, 14, T19, 0xc095f13a);
    r := StepTo(19, INIT, r, x, 0, 20, T20, 0xbd782e17);
    r := StepTo(20, INIT, r, x, 5, 5, T21, 0x3d1e3e6c);
    r := StepTo(21, INIT, r, x, 10, 9, T22, 0x68b7b3e3);
    r := StepTo(22, INIT, r, x, 15, 14, T23, 0xeb41643e);
    r := StepTo(23, INIT, r, x, 4, 20, T24, 0xe422531a);
    r := StepTo(24, INIT, r, x, 9, 5, T25, 0x306ec122);
    r := StepTo(25, INIT, r, x, 14, 9, T26, 0xd28c77c2);
    r := StepTo(26, INIT, r, x, 3, 14, T27, 0xa3c663da);
    r := StepTo(27, INIT, r, x, 8, 20, T28, 0xa0572807);
    r := StepTo(28, INIT, r, x, 13, 5, T29, 0x13707036);
    r := StepTo(29, INIT, r, x, 2, 9, T30, 0xae7813db);
    r := StepTo(30, INIT, r, x, 7, 14, T31, 0x1c31c384);
    r := StepTo(31, INIT, r, x, 12, 20, T32, 0xa2205f1f);
  }

  lemma EmptyRound3(x: seq<Word>)
    requires EmptyWords(x)
    ensures Steps(48, INIT, x) == Regs(0x3f55edfd, 0xca7d2dbd, 0x68d84ea2, 0x22a31f54)
  {
    Table3();
    EmptyRound2(x);
    var r := Regs(0x13707036, 0xa2205f1f, 0x1c31c384, 0xae7813db);
    r := StepTo(32, INIT, r, x, 5, 4, T33, 0xdf63eaa1);
    r := StepTo(33, INIT, r, x, 8, 11, T34, 0xc3689f5b);
    r := StepTo(34, INIT, r, x, 11, 16, T35, 0x12f3e755);
    r := StepTo(35, INIT, r, x, 14, 23, T36, 0x004b6669);
    r := StepTo(36, INIT, r, x, 1, 4, T37, 0x5f7a9b2e);
    r := StepTo(37, INIT, r, x, 4, 11, T38, 0xabc34e16);
    r := StepTo(38, INIT, r, x, 7, 16, T39, 0x91ca4cb7);
    r := StepTo(39, INIT, r, x, 10, 23, T40, 0xc5dc8c15);
    r := StepTo(40, INIT, r, x, 13, 4, T41, 0x4497169d);
    r := StepTo(41, INIT, r, x, 0, 11, T42, 0x76fd93d4);
    r := StepTo(42, INIT, r, x, 3, 16, T43, 0xfd95f243);
    r := StepTo(43, INIT, r, x, 6, 23, T44, 0x0fe32453);
    r := StepTo(44, INIT, r, x, 9, 4, T45, 0x3f55edfd);
    r := StepTo(45, INIT, r, x, 12, 11, T46, 0x22a31f54);
    r := StepTo(46, INIT, r, x, 15, 16, T47, 0x68d84ea2);
    r := StepTo(47, INIT, r, x, 2, 23, T48, 0xca7d2dbd);
  }

  lemma EmptyRound4(x: seq<Word>)
    requires EmptyWords(x)
    ensures Steps(64, INIT, x) == Regs(0x7246fad3, 0x14e45506, 0xff4ea3eb, 0x6e10a476)
  {
    Table4();
    EmptyRound3(x);
    var r := Regs(0x3f55edfd, 0xca7d2dbd, 0x68d84ea2, 0x22a31f54);
    r := StepTo(48, INIT, r, x, 0, 6, T49, 0x93aa2577);
    r := StepTo(49, INIT, r, x, 7, 10, T50, 0x1688dc85);
    r := StepTo(50, INIT, r, x, 14, 15, T51, 0xcd85b8cb);
    r := StepTo(51, INIT, r, x, 5, 21, T52, 0x561e0689);
    r := StepTo(52, INIT, r, x, 12, 6, T53, 0x5625a114);
    r := StepTo(53, INIT, r, x, 3, 10, T54, 0x3450f42b);
    r := StepTo(54, INIT, r, x, 10, 15, T55, 0x392ad0d0);
    r := StepTo(55, INIT, r, x, 1, 21, T56, 0x1e77fa61);
    r := StepTo(56, INIT, r, x, 8, 6, T57, 0x474a9c8c);
    r := StepTo(57, INIT, r, x, 15, 10, T58, 0xdfce00bc);
    r := StepTo(58, INIT, r, x, 6, 15, T59, 0x36594b14);
    r := StepTo(59, INIT, r, x, 13, 21, T60, 0x30130182);
    r := StepTo(60, INIT, r, x, 4, 6, T61, 0x7246fad3);
    r := StepTo(61, INIT, r, x, 11, 10, T62, 0x6e10a476);
    r := StepTo(62, INIT, r, x, 2, 15, T63, 0xff4ea3eb);
    r := StepTo(63, INIT, r, x, 9, 21, T64, 0x14e45506);
  }

  lemma EmptyBytes(b: seq<Byte>)
    requires b == [] + Padding(0)
    ensures |b| == 64 && forall i :: 0 <= i < 64 ==> b[i] == if i == 0 then 0x80 else 0
  {
    hide Padding, LengthByte;
    forall i | 0 <= i < 64
      ensures b[i] == if i == 0 then 0x80 else 0
    {
      PaddedByte([], i);
      if i >= 56 {
        SmallLength(0, i - 56);
      }
    }
  }

  lemma EmptyDigest()
    ensures Digest([]) == [0xd4, 0x1d, 0x8c, 0xd9, 0x8f, 0x00, 0xb2, 0x04, 0xe9, 0x80, 0x09, 0x98, 0xec, 0xf8, 0x42, 0x7e]
  {
    hide Steps, Padding, WordsOf;
    var b := [] + Padding(0);
    EmptyBytes(b);
    ShortWords(b);
    OneBlock(b);
    EmptyRound4(WordsOf(b));
    EmptyOut();
  }

  lemma EmptyOut()
    ensures BytesOf(Regs(0xd98c1dd4, 0x04b2008f, 0x980980e9, 0x7e42f8ec)) == [0xd4, 0x1d, 0x8c, 0xd9, 0x8f, 0x00, 0xb2, 0x04, 0xe9, 0x80, 0x09, 0x98, 0xec, 0xf8, 0x42, 0x7e]
  {
    hide BytesOf;
    RegBytes(Regs(0xd98c1dd4, 0x04b2008f, 0x980980e9, 0x7e42f8ec));
  }

  // ---- "abc" ----

  ghost predicate AbcWords(x: seq<Word>) {
    && |x| == 16
    && x[0] == 0x80636261 && x[1] == 0 && x[2] == 0 && x[3] == 0
    && x[4] == 0 && x[5] == 0 && x[6] == 0 && x[7] == 0
    && x[8] == 0 && x[9] == 0 && x[10] == 0 && x[11] == 0
    && x[12] == 0 && x[13] == 0 && x[14] == 0x00000018 && x[15] == 0
  }

  lemma AbcRound1(x: seq<Word>)
    requires AbcWords(x)
    ensures Steps(16, INIT, x) == Regs(0xdda9b9a6, 0x72aff2e0, 0xe396856b, 0xa1051895)
  {
    Table1();
    var r := Regs(0x67452301, 0xefcdab89, 0x98badcfe, 0x10325476);
    r := StepTo(0, INIT, r, x, 0, 7, T1, 0xd6d117b4);
    r := StepTo(1, INIT, r, x, 1, 12, T2, 0x344a8432);
    r := StepTo(2, INIT, r, x, 2, 17, T3, 0x2f6fbd72);
    r := StepTo(3, INIT, r, x, 3, 22, T4, 0x7ad956f2);
    r := StepTo(4, INIT, r, x, 4, 7, T5, 0xc73741ef);
    r := StepTo(5, INIT, r, x, 5, 12, T6, 0x8bac3051);
    r := StepTo(6, INIT, r, x, 6, 17, T7, 0x207dc67b);
    r := StepTo(7, INIT, r, x, 7, 22, T8, 0x928d99f6);
    r := StepTo(8, INIT, r, x, 8, 7, T9, 0x854b3712);
    r := StepTo(9, INIT, r, x, 9, 12, T10, 0x74e2f284);
    r := StepTo(10, INIT, r, x, 10, 17, T11, 0x3020401c);
    r := StepTo(11, INIT, r, x, 11, 22, T12, 0x5ed49596);
    r := StepTo(12, INIT, r, x, 12, 7, T13, 0xdda9b9a6);
    r := StepTo(13, INIT, r, x, 13, 12, T14, 0xa1051895);
    r := StepTo(14, INIT, r, x, 14, 17, T15, 0xe396856b);
    r := StepTo(15, INIT, r, x, 15, 22, T16, 0x72aff2e0);
  }

  lemma AbcRound2(x: seq<Word>)
    requires AbcWords(x)
    ensures Steps(32, INIT, x) == Regs(0x790a77fb, 0x726342d3, 0xa62884aa, 0x9f47e4f8)
  {
    Table2();
    AbcRound1(x);
    var r := Regs(0xdda9b9a6, 0x72aff2e0, 0xe396856b, 0xa1051895);
    r := StepTo(16, INIT, r, x, 1, 5, T17, 0x3e9e9126);
    r := StepTo(17, INIT, r, x, 6, 9, T18, 0x4a1d804e);
    r := StepTo(18, INIT, r, x, 11, 14, T19, 0xe25e1652);
    r := StepTo(19, INIT, r, x, 0, 20, T20, 0xb5b204e4);
    r := StepTo(20, INIT, r, x, 5, 5, T21, 0x59a8ffda);
    r := StepTo(21, INIT, r, x, 10, 9, T22, 0x6d002f1e);
    r := StepTo(22, INIT, r, x, 15, 14, T23, 0xabfc7920);
    r := StepTo(23, INIT, r, x, 4, 20, T24, 0x47092c07);
    r := StepTo(24, INIT, r, x, 9, 5, T25, 0xb7f268cf);
    r := StepTo(25, INIT, r, x, 14, 9, T26, 0x09388eff);
    r := StepTo(26, INIT, r, x, 3, 14, T27, 0xfe1623b1);
    r := StepTo(27, INIT, r, x, 8, 20, T28, 0x786acb8f);
    r := StepTo(28, INIT, r, x, 13, 5, T29, 0x790a77fb);
    r := StepTo(29, INIT, r, x, 2, 9, T30, 0x9f47e4f8);
    r := StepTo(30, INIT, r, x, 7, 14, T31, 0xa62884aa);
    r := StepTo(31, INIT, r, x, 12, 20, T32, 0x726342d3);
  }

  lemma AbcRound3(x: seq<Word>)
    requires AbcWords(x)
    ensures Steps(48, INIT, x) == Regs(0x7f2e507b, 0x7beb9700, 0x8fae6399, 0x99d9679d)
  {
    Table3();
    AbcRound2(x);
    var r := Regs(0x790a77fb, 0x726342d3, 0xa62884aa, 0x9f47e4f8);
    r := StepTo(32, INIT, r, x, 5, 4, T33, 0xb3707ebf);
    r := StepTo(33, INIT, r, x, 8, 11, T34, 0x60127b2e);
    r := StepTo(34, INIT, r, x, 11, 16, T35, 0x8d212ff5);
    r := StepTo(35, INIT, r, x, 14, 23, T36, 0x3b0875c7);
    r := StepTo(36, INIT, r, x, 1, 4, T37, 0x21b117b9);
    r := StepTo(37, INIT, r, x, 4, 11, T38, 0x6e7429d5);
    r := StepTo(38, INIT, r, x, 7, 16, T39, 0x3575227e);
    r := StepTo(39, INIT, r, x, 10, 23, T40, 0x5a2f5ea5);
    r := StepTo(40, INIT, r, x, 13, 4, T41, 0x11de1779);
    r := StepTo(41, INIT, r, x, 0, 11, T42, 0xfadcaa38);
    r := StepTo(42, INIT, r, x, 3, 16, T43, 0x31c465ca);
    r := StepTo(43, INIT, r, x, 6, 23, T44, 0x4c6124f4);
    r := StepTo(44, INIT, r, x, 9, 4, T45, 0x7f2e507b);
    r := StepTo(45, INIT, r, x, 12, 11, T46, 0x99d9679d);
    r := StepTo(46, INIT, r, x, 15, 16, T47, 0x8fae6399);
    r := StepTo(47, INIT, r, x, 2, 23, T48, 0x7beb9700);
  }

  lemma AbcRound4(x: seq<Word>)
    requires AbcWords(x)
    ensures Steps(64, INIT, x) == Regs(0x310ade8f, 0xc08226b3, 0xe484b9d8, 0x624d8cb2)
  {
    Table4();
    AbcRound3(x);
    var r := Regs(0x7f2e507b, 0x7beb9700, 0x8fae6399, 0x99d9679d);
    r := StepTo(48, INIT, r, x, 0, 6, T49, 0x7b201df8);
    r := StepTo(49, INIT, r, x, 7, 10, T50, 0xf4e8e96e);
    r := StepTo(50, INIT, r, x, 14, 15, T51, 0xb298cefd);
    r := StepTo(51, INIT, r, x, 5, 21, T52, 0x8bf025c4);
    r := StepTo(52, INIT, r, x, 12, 6, T53, 0x06cc5e8a);
    r := StepTo(53, INIT, r, x, 3, 10, T54, 0x5b0d97aa);
    r := StepTo(54, INIT, r, x, 10, 15, T55, 0x7d632dd0);
    r := StepTo(55, INIT, r, x, 1, 21, T56, 0x3bfa2c27);
    r := StepTo(56, INIT, r, x, 8, 6, T57, 0x7f81cc35);
    r := StepTo(57, INIT, r, x, 15, 10, T58, 0x094454ab);
    r := StepTo(58, INIT, r, x, 6, 15, T59, 0x4f9dbe3f);
    r := StepTo(59, INIT, r, x, 13, 21, T60, 0x7327d604);
    r := StepTo(60, INIT, r, x, 4, 6, T61, 0x310ade8f);
    r := StepTo(61, INIT, r, x, 11, 10, T62, 0x624d8cb2);
    r := StepTo(62, INIT, r, x, 2, 15, T63, 0xe484b9d8);
    r := StepTo(63, INIT, r, x, 9, 21, T64, 0xc08226b3);
  }

  lemma AbcBytes(b: seq<Byte>)
    requires b == [0x61, 0x62, 0x63] + Padding(3)
    ensures |b| == 64 && forall i :: 0 <= i < 64 ==> b[i] == if i < 3 then [0x61, 0x62, 0x63][i] else if i == 3 then 0x80 else if i == 56 then 0x18 else 0
  {
    hide Padding, LengthByte;
    forall i | 0 <= i < 64
      ensures b[i] == if i < 3 then [0x61, 0x62, 0x63][i] else if i == 3 then 0x80 else if i == 56 then 0x18 else 0
    {
      PaddedByte([0x61, 0x62, 0x63], i);
      if i >= 56 {
        SmallLength(3, i - 56);
      }
    }
  }

  lemma AbcDigest()
    ensures Digest([0x61, 0x62, 0x63]) == [0x90, 0x01, 0x50, 0x98, 0x3c, 0xd2, 0x4f, 0xb0, 0xd6, 0x96, 0x3f, 0x7d, 0x28, 0xe1, 0x7f, 0x72]
  {
    hide Steps, Padding, WordsOf;
    var b := [0x61, 0x62, 0x63] + Padding(3);
    AbcBytes(b);
    ShortWords(b);
    OneBlock(b);
    AbcRound4(WordsOf(b));
    AbcOut();
  }

  lemma AbcOut()
    ensures BytesOf(Regs(0x98500190, 0xb04fd23c, 0x7d3f96d6, 0x727fe128)) == [0x90, 0x01, 0x50, 0x98, 0x3c, 0xd2, 0x4f, 0xb0, 0xd6, 0x96, 0x3f, 0x7d, 0x28, 0xe1, 0x7f, 0x72]
  {
    hide BytesOf;
    RegBytes(Regs(0x98500190, 0xb04fd23c, 0x7d3f96d6, 0x727fe128));
  }

  // ---- "1234567890" eight times: two blocks ----

  // The registers after the first of them.
  const MIDDLE := Regs(0xc88d8bec, 0xa4a0dc8b, 0xe9edef99, 0xb0d18d1d)

  function Digit(i: nat): Byte {
    var d := i % 10;
    if d < 5 then Pick(d, 0x31, 0x32, 0x33, if d == 3 then 0x34 else 0x35)
    else if d == 9 then 0x30 else Pick(d - 5, 0x36, 0x37, 0x38, 0x39)
  }

  function Digits(): (m: seq<Byte>)
    ensures |m| == 80 && forall i :: 0 <= i < 80 ==> m[i] == Digit(i)
  {
    seq(80, i requires 0 <= i < 80 => Digit(i))
  }

  // Four digits in a row.
  function DigitWord(k: nat): Word {
    var d := k % 5;
    if d == 4 then 0x30393837 else Pick(d, 0x34333231, 0x38373635, 0x32313039, 0x36353433)
  }

  lemma DigitWordIs(k: nat)
    ensures WordOf(Digit(4 * k), Digit(4 * k + 1), Digit(4 * k + 2), Digit(4 * k + 3)) == DigitWord(k)
  {
    hide WordOf, Digit, DigitWord;
    var d := k % 5;
    DigitAgain(k, 0);
    DigitAgain(k, 1);
    DigitAgain(k, 2);
    DigitAgain(k, 3);
    DigitFour(d);
    assert DigitWord(k) == DigitWord(d) by { DigitWordAgain(k); }
  }

  lemma DigitAgain(k: nat, j: nat)
    ensures Digit(4 * k + j) == Digit(4 * (k % 5) + j)
  {
    assert 4 * k + j == 10 * (2 * (k / 5)) + (4 * (k % 5) + j);
    AddMultipleOf(4 * (k % 5) + j, 2 * (k / 5), 10);
  }

  lemma DigitWordAgain(k: nat)
    ensures DigitWord(k) == DigitWord(k % 5)
  {
  }

  lemma DigitFour(d: nat)
    requires d < 5
    ensures WordOf(Digit(4 * d), Digit(4 * d + 1), Digit(4 * d + 2), Digit(4 * d + 3)) == DigitWord(d)
  {
    hide WordOf, Digit;
    DigitTable();
    assert d == 0 || d == 1 || d == 2 || d == 3 || d == 4;
    DigitWords();
  }

  lemma DigitTable()
    ensures Digit(0) == 0x31 && Digit(1) == 0x32 && Digit(2) == 0x33 && Digit(3) == 0x34
    ensures Digit(4) == 0x35 && Digit(5) == 0x36 && Digit(6) == 0x37 && Digit(7) == 0x38
    ensures Digit(8) == 0x39 && Digit(9) == 0x30 && Digit(10) == 0x31 && Digit(11) == 0x32
    ensures Digit(12) == 0x33 && Digit(13) == 0x34 && Digit(14) == 0x35 && Digit(15) == 0x36
    ensures Digit(16) == 0x37 && Digit(17) == 0x38 && Digit(18) == 0x39 && Digit(19) == 0x30
  {
  }

  lemma DigitWords()
    ensures WordOf(0x31, 0x32, 0x33, 0x34) == 0x34333231 && WordOf(0x35, 0x36, 0x37, 0x38) == 0x38373635
    ensures WordOf(0x39, 0x30, 0x31, 0x32) == 0x32313039 && WordOf(0x33, 0x34, 0x35, 0x36) == 0x36353433
    ensures WordOf(0x37, 0x38, 0x39, 0x30) == 0x30393837
  {
  }

  // What the second block holds.
  function SecondByte(i: nat): Byte {
    if i < 16 then Digit(64 + i) else if i == 16 || i == 56 then 0x80 else if i == 57 then 0x02 else 0
  }

  ghost predicate FirstWords(x: seq<Word>) {
    && |x| == 16
    && x[0] == 0x34333231 && x[1] == 0x38373635 && x[2] == 0x32313039 && x[3] == 0x36353433
    && x[4] == 0x30393837 && x[5] == 0x34333231 && x[6] == 0x38373635 && x[7] == 0x32313039
    && x[8] == 0x36353433 && x[9] == 0x30393837 && x[10] == 0x34333231 && x[11] == 0x38373635
    && x[12] == 0x32313039 && x[13] == 0x36353433 && x[14] == 0x30393837 && x[15] == 0x34333231
  }

  lemma FirstRound1(x: seq<Word>)
    requires FirstWords(x)
    ensures Steps(16, INIT, x) == Regs(0x5157e49e, 0xaf506a03, 0x27e983a0, 0xffac907e)
  {
    Table1();
    var r := Regs(0x67452301, 0xefcdab89, 0x98badcfe, 0x10325476);
    r := StepTo(0, INIT, r, x, 0, 7, T1, 0xbeb8ff8e);
    r := StepTo(1, INIT, r, x, 1, 12, T2, 0x7d989d89);
    r := StepTo(2, INIT, r, x, 2, 17, T3, 0xf8cdf95d);
    r := StepTo(3, INIT, r, x, 3, 22, T4, 0x862797b0);
    r := StepTo(4, INIT, r, x, 4, 7, T5, 0x8c17de9f);
    r := StepTo(5, INIT, r, x, 5, 12, T6, 0xc0f32d81);
    r := StepTo(6, INIT, r, x, 6, 17, T7, 0xe99fec1b);
    r := StepTo(7, INIT, r, x, 7, 22, T8, 0xc57e78c1);
    r := StepTo(8, INIT, r, x, 8, 7, T9, 0x7c0aceb7);
    r := StepTo(9, INIT, r, x, 9, 12, T10, 0x8869d2d8);
    r := StepTo(10, INIT, r, x, 10, 17, T11, 0x5186a8ba);
    r := StepTo(11, INIT, r, x, 11, 22, T12, 0xa5f36f8d);
    r := StepTo(12, INIT, r, x, 12, 7, T13, 0x5157e49e);
    r := StepTo(13, INIT, r, x, 13, 12, T14, 0xffac907e);
    r := StepTo(14, INIT, r, x, 14, 17, T15, 0x27e983a0);
    r := StepTo(15, INIT, r, x, 15, 22, T16, 0xaf506a03);
  }

  lemma FirstRound2(x: seq<Word>)
    requires FirstWords(x)
    ensures Steps(32, INIT, x) == Regs(0xf8bcfbb0, 0x1bf25662, 0x99a0f1b8, 0xd760ed39)
  {
    Table2();
    FirstRound1(x);
    var r := Regs(0x5157e49e, 0xaf506a03, 0x27e983a0, 0xffac907e);
    r := StepTo(16, INIT, r, x, 1, 5, T17, 0x8d18e0e8);
    r := StepTo(17, INIT, r, x, 6, 9, T18, 0x07de0df2);
    r := StepTo(18, INIT, r, x, 11, 14, T19, 0xef223167);
    r := StepTo(19, INIT, r, x, 0, 20, T20, 0x04280170);
    r := StepTo(20, INIT, r, x, 5, 5, T21, 0x78929ee0);
    r := StepTo(21, INIT, r, x, 10, 9, T22, 0x375c6c2c);
    r := StepTo(22, INIT, r, x, 15, 14, T23, 0xb18aca50);
    r := StepTo(23, INIT, r, x, 4, 20, T24, 0xad400a91);
    r := StepTo(24, INIT, r, x, 9, 5, T25, 0xbb45f43f);
    r := StepTo(25, INIT, r, x, 14, 9, T26, 0xd61f8a0f);
    r := StepTo(26, INIT, r, x, 3, 14, T27, 0x98ade6b5);
    r := StepTo(27, INIT, r, x, 8, 20, T28, 0xb70e35a9);
    r := StepTo(28, INIT, r, x, 13, 5, T29, 0xf8bcfbb0);
    r := StepTo(29, INIT, r, x, 2, 9, T30, 0xd760ed39);
    r := StepTo(30, INIT, r, x, 7, 14, T31, 0x99a0f1b8);
    r := StepTo(31, INIT, r, x, 12, 20, T32, 0x1bf25662);
  }

  lemma FirstRound3(x: seq<Word>)
    requires FirstWords(x)
    ensures Steps(48, INIT, x) == Regs(0x697032ec, 0xdb4197da, 0xefc2c171, 0xfa597bfc)
  {
    Table3();
    FirstRound2(x);
    var r := Regs(0xf8bcfbb0, 0x1bf25662, 0x99a0f1b8, 0xd760ed39);
    r := StepTo(32, INIT, r, x, 5, 4, T33, 0x3dbd76ca);
    r := StepTo(33, INIT, r, x, 8, 11, T34, 0xfd056171);
    r := StepTo(34, INIT, r, x, 11, 16, T35, 0xc7ed7c30);
    r := StepTo(35, INIT, r, x, 14, 23, T36, 0xe0162f49);
    r := StepTo(36, INIT, r, x, 1, 4, T37, 0x3b32c408);
    r := StepTo(37, INIT, r, x, 4, 11, T38, 0x7338d8b7);
    r := StepTo(38, INIT, r, x, 7, 16, T39, 0x9ef871ad);
    r := StepTo(39, INIT, r, x, 10, 23, T40, 0x1d4d6f72);
    r := StepTo(40, INIT, r, x, 13, 4, T41, 0xc661460a);
    r := StepTo(41, INIT, r, x, 0, 11, T42, 0xd2bf04c9);
    r := StepTo(42, INIT, r, x, 3, 16, T43, 0xd6d5b879);
    r := StepTo(43, INIT, r, x, 6, 23, T44, 0x89e3c4d7);
    r := StepTo(44, INIT, r, x, 9, 4, T45, 0x697032ec);
    r := StepTo(45, INIT, r, x, 12, 11, T46, 0xfa597bfc);
    r := StepTo(46, INIT, r, x, 15, 16, T47, 0xefc2c171);
    r := StepTo(47, INIT, r, x, 2, 23, T48, 0xdb4197da);
  }

  lemma FirstRound4(x: seq<Word>)
    requires FirstWords(x)
    ensures Steps(64, INIT, x) == Regs(0x614868eb, 0xb4d33102, 0x5133129b, 0xa09f38a7)
  {
    Table4();
    FirstRound3(x);
    var r := Regs(0x697032ec, 0xdb4197da, 0xefc2c171, 0xfa597bfc);
    r := StepTo(48, INIT, r, x, 0, 6, T49, 0x57b91aca);
    r := StepTo(49, INIT, r, x, 7, 10, T50, 0x210c9ebc);
    r := StepTo(50, INIT, r, x, 14, 15, T51, 0x21efbd88);
    r := StepTo(51, INIT, r, x, 5, 21, T52, 0xcaa25b01);
    r := StepTo(52, INIT, r, x, 12, 6, T53, 0x633d3f7c);
    r := StepTo(53, INIT, r, x, 3, 10, T54, 0x1a4d3beb);
    r := StepTo(54, INIT, r, x, 10, 15, T55, 0xccaa1524);
    r := StepTo(55, INIT, r, x, 1, 21, T56, 0x7713f5df);
    r := StepTo(56, INIT, r, x, 8, 6, T57, 0x8448b430);
    r := StepTo(57, INIT, r, x, 15, 10, T58, 0x71c93463);
    r := StepTo(58, INIT, r, x, 6, 15, T59, 0x7e294727);
    r := StepTo(59, INIT, r, x, 13, 21, T60, 0x660a801d);
    r := StepTo(60, INIT, r, x, 4, 6, T61, 0x614868eb);
    r := StepTo(61, INIT, r, x, 11, 10, T62, 0xa09f38a7);
    r := StepTo(62, INIT, r, x, 2, 15, T63, 0x5133129b);
    r := StepTo(63, INIT, r, x, 9, 21, T64, 0xb4d33102);
  }

  ghost predicate SecondWords(x: seq<Word>) {
    && |x| == 16
    && x[0] == 0x38373635 && x[1] == 0x32313039 && x[2] == 0x36353433 && x[3] == 0x30393837
    && x[4] == 0x00000080 && x[5] == 0 && x[6] == 0 && x[7] == 0
    && x[8] == 0 && x[9] == 0 && x[10] == 0 && x[11] == 0
    && x[12] == 0 && x[13] == 0 && x[14] == 0x00000280 && x[15] == 0
  }

  lemma SecondRound1(x: seq<Word>)
    requires SecondWords(x)
    ensures Steps(16, MIDDLE, x) == Regs(0xdb4ff71c, 0x58b12eab, 0x04396a39, 0x9b6b4960)
  {
    Table1();
    var r := Regs(0xc88d8bec, 0xa4a0dc8b, 0xe9edef99, 0xb0d18d1d);
    r := StepTo(0, MIDDLE, r, x, 0, 7, T1, 0x353af7cf);
    r := StepTo(1, MIDDLE, r, x, 1, 12, T2, 0x3a4f735a);
    r := StepTo(2, MIDDLE, r, x, 2, 17, T3, 0x63356537);
    r := StepTo(3, MIDDLE, r, x, 3, 22, T4, 0x45e88f2c);
    r := StepTo(4, MIDDLE, r, x, 4, 7, T5, 0x3527497e);
    r := StepTo(5, MIDDLE, r, x, 5, 12, T6, 0xab92660e);
    r := StepTo(6, MIDDLE, r, x, 6, 17, T7, 0x948347ae);
    r := StepTo(7, MIDDLE, r, x, 7, 22, T8, 0x377c7d0a);
    r := StepTo(8, MIDDLE, r, x, 8, 7, T9, 0xcc912f27);
    r := StepTo(9, MIDDLE, r, x, 9, 12, T10, 0x6945a3d5);
    r := StepTo(10, MIDDLE, r, x, 10, 17, T11, 0xae23894d);
    r := StepTo(11, MIDDLE, r, x, 11, 22, T12, 0xb9ede40c);
    r := StepTo(12, MIDDLE, r, x, 12, 7, T13, 0xdb4ff71c);
    r := StepTo(13, MIDDLE, r, x, 13, 12, T14, 0x9b6b4960);
    r := StepTo(14, MIDDLE, r, x, 14, 17, T15, 0x04396a39);
    r := StepTo(15, MIDDLE, r, x, 15, 22, T16, 0x58b12eab);
  }

  lemma SecondRound2(x: seq<Word>)
    requires SecondWords(x)
    ensures Steps(32, MIDDLE, x) == Regs(0x8761f38e, 0x67092c33, 0x061bc867, 0x7a516116)
  {
    Table2();
    SecondRound1(x);
    var r := Regs(0xdb4ff71c, 0x58b12eab, 0x04396a39, 0x9b6b4960);
    r := StepTo(16, MIDDLE, r, x, 1, 5, T17, 0x52c00cae);
    r := StepTo(17, MIDDLE, r, x, 6, 9, T18, 0xaad2a216);
    r := StepTo(18, MIDDLE, r, x, 11, 14, T19, 0xa476af6f);
    r := StepTo(19, MIDDLE, r, x, 0, 20, T20, 0x50f8de8c);
    r := StepTo(20, MIDDLE, r, x, 5, 5, T21, 0x0d6e6d91);
    r := StepTo(21, MIDDLE, r, x, 10, 9, T22, 0x17d64195);
    r := StepTo(22, MIDDLE, r, x, 15, 14, T23, 0xd5b7a850);
    r := StepTo(23, MIDDLE, r, x, 4, 20, T24, 0x043cb080);
    r := StepTo(24, MIDDLE, r, x, 9, 5, T25, 0x74f9377e);
    r := StepTo(25, MIDDLE, r, x, 14, 9, T26, 0x01f2addd);
    r := StepTo(26, MIDDLE, r, x, 3, 14, T27, 0xe775c8ca);
    r := StepTo(27, MIDDLE, r, x, 8, 20, T28, 0xcb00b96e);
    r := StepTo(28, MIDDLE, r, x, 13, 5, T29, 0x8761f38e);
    r := StepTo(29, MIDDLE, r, x, 2, 9, T30, 0x7a516116);
    r := StepTo(30, MIDDLE, r, x, 7, 14, T31, 0x061bc867);
    r := StepTo(31, MIDDLE, r, x, 12, 20, T32, 0x67092c33);
  }

  lemma SecondRound3(x: seq<Word>)
    requires SecondWords(x)
    ensures Steps(48, MIDDLE, x) == Regs(0x71123afa, 0x1df7010a, 0xe6a8a386, 0xdc9c8ddb)
  {
    Table3();
    SecondRound2(x);
    var r := Regs(0x8761f38e, 0x67092c33, 0x061bc867, 0x7a516116);
    r := StepTo(32, MIDDLE, r, x, 5, 4, T33, 0x91044d5d);
    r := StepTo(33, MIDDLE, r, x, 8, 11, T34, 0x610954eb);
    r := StepTo(34, MIDDLE, r, x, 11, 16, T35, 0xc0175fa8);
    r := StepTo(35, MIDDLE, r, x, 14, 23, T36, 0x2ee1e3fe);
    r := StepTo(36, MIDDLE, r, x, 1, 4, T37, 0xae26ed7d);
    r := StepTo(37, MIDDLE, r, x, 4, 11, T38, 0x71d8ecea);
    r := StepTo(38, MIDDLE, r, x, 7, 16, T39, 0xff4a94dc);
    r := StepTo(39, MIDDLE, r, x, 10, 23, T40, 0xdbd1bff6);
    r := StepTo(40, MIDDLE, r, x, 13, 4, T41, 0x9c350028);
    r := StepTo(41, MIDDLE, r, x, 0, 11, T42, 0x97e5da92);
    r := StepTo(42, MIDDLE, r, x, 3, 16, T43, 0xfacaaf06);
    r := StepTo(43, MIDDLE, r, x, 6, 23, T44, 0x56b3692f);
    r := StepTo(44, MIDDLE, r, x, 9, 4, T45, 0x71123afa);
    r := StepTo(45, MIDDLE, r, x, 12, 11, T46, 0xdc9c8ddb);
    r := StepTo(46, MIDDLE, r, x, 15, 16, T47, 0xe6a8a386);
    r := StepTo(47, MIDDLE, r, x, 2, 23, T48, 0x1df7010a);
  }

  lemma SecondRound4(x: seq<Word>)
    requires SecondWords(x)
    ensures Steps(64, MIDDLE, x) == Regs(0xda67616b, 0xb12906a0, 0x44ec5a13, 0xc9e47a04)
  {
    Table4();
    SecondRound3(x);
    var r := Regs(0x71123afa, 0x1df7010a, 0xe6a8a386, 0xdc9c8ddb);
    r := StepTo(48, MIDDLE, r, x, 0, 6, T49, 0xd29007e7);
    r := StepTo(49, MIDDLE, r, x, 7, 10, T50, 0x7241a77e);
    r := StepTo(50, MIDDLE, r, x, 14, 15, T51, 0xd3248109);
    r := StepTo(51, MIDDLE, r, x, 5, 21, T52, 0xc8797828);
    r := StepTo(52, MIDDLE, r, x, 12, 6, T53, 0x7a504abd);
    r := StepTo(53, MIDDLE, r, x, 3, 10, T54, 0x211cc65d);
    r := StepTo(54, MIDDLE, r, x, 10, 15, T55, 0xa290d6ce);
    r := StepTo(55, MIDDLE, r, x, 1, 21, T56, 0x9b31b114);
    r := StepTo(56, MIDDLE, r, x, 8, 6, T57, 0x723fd22d);
    r := StepTo(57, MIDDLE, r, x, 15, 10, T58, 0xd21d6a3b);
    r := StepTo(58, MIDDLE, r, x, 6, 15, T59, 0x3d79cf74);
    r := StepTo(59, MIDDLE, r, x, 13, 21, T60, 0x4dc4f33d);
    r := StepTo(60, MIDDLE, r, x, 4, 6, T61, 0xda67616b);
    r := StepTo(61, MIDDLE, r, x, 11, 10, T62, 0xc9e47a04);
    r := StepTo(62, MIDDLE, r, x, 2, 15, T63, 0x44ec5a13);
    r := StepTo(63, MIDDLE, r, x, 9, 21, T64, 0xb12906a0);
  }

  lemma FirstIs(b: seq<Byte>)
    requires |b| == 64 && forall i :: 0 <= i < 64 ==> b[i] == Digit(i)
    ensures FirstWords(WordsOf(b))
  {
    hide WordsOf, WordOf, Digit;
    forall k | 0 <= k < 16
      ensures WordsOf(b)[k] == DigitWord(k)
    {
      WordValue(b, k);
      DigitWordIs(k);
    }
  }

  lemma SecondIs(b: seq<Byte>)
    requires |b| == 64 && forall i :: 0 <= i < 64 ==> b[i] == SecondByte(i)
    ensures SecondWords(WordsOf(b))
  {
    hide WordsOf, Digit;
    forall k | 0 <= k < 16
      ensures WordsOf(b)[k] ==
        if k < 4 then DigitWord(16 + k) else if k == 4 then 0x80 else if k == 14 then 0x280 else 0
    {
      WordValue(b, k);
      DigitWordIs(16 + k);
      assert k >= 4 ==> b[4 * k + 2] == 0 && b[4 * k + 3] == 0;
    }
  }

  lemma DigitsPadded(p: seq<Byte>)
    requires p == Digits() + Padding(80)
    ensures |p| == 128 && forall i :: 0 <= i < 64 ==> p[..64][i] == Digit(i)
    ensures forall i :: 0 <= i < 64 ==> p[64..][i] == SecondByte(i)
  {
    hide Padding, LengthByte, Digit, Digits;
    forall i | 0 <= i < 128
      ensures p[i] == if i < 80 then Digit(i) else if i == 80 then 0x80
        else if i == 120 then 0x80 else if i == 121 then 0x02 else 0
    {
      PaddedByte(Digits(), i);
      if i >= 120 {
        SmallLength(80, i - 120);
      }
    }
  }

  lemma DigitsDigest()
    ensures Digest(Digits()) == [0x57, 0xed, 0xf4, 0xa2, 0x2b, 0xe3, 0xc9, 0x55, 0xac, 0x49, 0xda, 0x2e, 0x21, 0x07, 0xb6, 0x7a]
  {
    hide Steps, Padding, WordsOf, Digits, FirstWords, SecondWords;
    var p := Digits() + Padding(80);
    DigitsPadded(p);
    FirstIs(p[..64]);
    SecondIs(p[64..]);
    OneBlock(p[..64]);
    CompressBlock(p[..64], p[64..]);
    assert p == p[..64] + p[64..];
    FirstRound4(WordsOf(p[..64]));
    SecondRound4(WordsOf(p[64..]));
    DigitsOut();
  }

  lemma DigitsOut()
    ensures BytesOf(Regs(0xa2f4ed57, 0x55c9e32b, 0x2eda49ac, 0x7ab60721)) == [0x57, 0xed, 0xf4, 0xa2, 0x2b, 0xe3, 0xc9, 0x55, 0xac, 0x49, 0xda, 0x2e, 0x21, 0x07, 0xb6, 0x7a]
  {
    hide BytesOf;
    RegBytes(Regs(0xa2f4ed57, 0x55c9e32b, 0x2eda49ac, 0x7ab60721));
  }

  // ---- The length in bits ----

  // The number that these digits make to the base 256, the lowest first.
  function Number(d: seq<nat>): nat {
    if d == [] then 0 else d[0] + 256 * Number(d[1..])
  }

  // The last eight bytes of the padding are the digits of the length in bits modulo 2^64.
  lemma LengthIsNumber(n: nat) returns (d: seq<nat>)
    ensures |d| == 8 && forall i :: 0 <= i < 8 ==> d[i] < 256 && Padding(n)[|Padding(n)| - 8 + i] == d[i] as Byte
    ensures Number(d) == 8 * n % 0x1_0000_0000_0000_0000
  {
    hide Number, Zeros, Pow256;
    var v := 8 * n % 0x1_0000_0000_0000_0000;
    d := seq(8, i requires 0 <= i < 8 => v / Pow256(i) % 256);
    forall i | 0 <= i < 8 ensures Padding(n)[|Padding(n)| - 8 + i] == d[i] as Byte {
      assert Padding(n)[|Padding(n)| - 8 + i] == LengthBytes(n)[i] == LengthByte(n, i);
    }
    DigitsFrom(v, d, 0);
    assert d[0..] == d;
    FirstPower();
  }

  lemma FirstPower()
    ensures Pow256(0) == 1
  {
  }

  lemma {:induction false} DigitsFrom(v: nat, d: seq<nat>, i: nat)
    requires i <= 8 == |d| && v < 0x1_0000_0000_0000_0000
    requires forall j :: 0 <= j < 8 ==> d[j] == v / Pow256(j) % 256
    ensures Number(d[i..]) == v / Pow256(i)
    decreases 8 - i
  {
    hide Pow256;
    if i == 8 {
      Power8();
    } else {
      DigitsFrom(v, d, i + 1);
      assert d[i..][1..] == d[i + 1..];
      NextPower(i);
      DivideAgain(v, Pow256(i));
    }
  }

  lemma Power8()
    ensures Pow256(8) == 0x1_0000_0000_0000_0000
  {
    assert Pow256(4) == 0x1_0000_0000;
  }

  lemma NextPower(i: nat)
    ensures Pow256(i + 1) == 256 * Pow256(i)
  {
  }

  lemma DivideAgain(v: nat, p: nat)
    requires p > 0
    ensures v / p == v / p % 256 + 256 * (v / (256 * p))
  {
    var q := v / p;
    var r := v % p;
    assert q == 256 * (q / 256) + q % 256;
    assert v == p * q + r;
    assert v == (256 * p) * (q / 256) + (p * (q % 256) + r) by {
      Distribute(p, q);
    }
    Below(p, q % 256, r);
    DivModUnique(v, 256 * p, q / 256, p * (q % 256) + r);
  }

  lemma Distribute(p: nat, q: nat)
    ensures p * q == (256 * p) * (q / 256) + p * (q % 256)
  {
    assert q == 256 * (q / 256) + q % 256;
  }

  lemma Below(p: nat, k: nat, r: nat)
    requires k < 256 && r < p
    ensures 0 <= p * k + r < 256 * p
  {
    assert p * k <= p * 255 by {
      ProductNonNegative(p, 255 - k);
    }
    ProductNonNegative(p, k);
  }
}
