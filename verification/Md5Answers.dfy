/**
 Known answers of the specification, worked out operation by operation: the digest of
 the empty message, and that of the longest message of section A.5 of RFC 1321, which
 takes two blocks.
 */
module Md5Answers {
  import opened Md5Spec
  import opened Md5

  ghost predicate HasWords(block: seq<Byte>, words: seq<Word>) {
    |block| == BLOCK && |words| == 16 && forall k :: 0 <= k < 16 ==> BlockWord(block, k) == words[k]
  }

  lemma TurnA(r: Registers, block: seq<Byte>, p: Registers, i: nat, k: nat, t: Word, s: nat, x: Word, next: Word)
    returns (q: Registers)
    requires |block| == BLOCK && i < 64 && i % 4 == 0 && Prescribed(i, k, t, s) && BlockWord(block, k) == x
    requires Operations(i, r, block) == p && next == Rotated(p.a, p.b, Mix(i, p.b, p.c, p.d), x, t, s)
    ensures q == p.(a := next) && Operations(i + 1, r, block) == q
  {
    hide BlockWord, Sine, Shift, MessageIndex, Mix, Rotated;
    q := p.(a := next);
  }

  lemma TurnD(r: Registers, block: seq<Byte>, p: Registers, i: nat, k: nat, t: Word, s: nat, x: Word, next: Word)
    returns (q: Registers)
    requires |block| == BLOCK && i < 64 && i % 4 == 1 && Prescribed(i, k, t, s) && BlockWord(block, k) == x
    requires Operations(i, r, block) == p && next == Rotated(p.d, p.a, Mix(i, p.a, p.b, p.c), x, t, s)
    ensures q == p.(d := next) && Operations(i + 1, r, block) == q
  {
    hide BlockWord, Sine, Shift, MessageIndex, Mix, Rotated;
    q := p.(d := next);
  }

  lemma TurnC(r: Registers, block: seq<Byte>, p: Registers, i: nat, k: nat, t: Word, s: nat, x: Word, next: Word)
    returns (q: Registers)
    requires |block| == BLOCK && i < 64 && i % 4 == 2 && Prescribed(i, k, t, s) && BlockWord(block, k) == x
    requires Operations(i, r, block) == p && next == Rotated(p.c, p.d, Mix(i, p.d, p.a, p.b), x, t, s)
    ensures q == p.(c := next) && Operations(i + 1, r, block) == q
  {
    hide BlockWord, Sine, Shift, MessageIndex, Mix, Rotated;
    q := p.(c := next);
  }

  lemma TurnB(r: Registers, block: seq<Byte>, p: Registers, i: nat, k: nat, t: Word, s: nat, x: Word, next: Word)
    returns (q: Registers)
    requires |block| == BLOCK && i < 64 && i % 4 == 3 && Prescribed(i, k, t, s) && BlockWord(block, k) == x
    requires Operations(i, r, block) == p && next == Rotated(p.b, p.c, Mix(i, p.c, p.d, p.a), x, t, s)
    ensures q == p.(b := next) && Operations(i + 1, r, block) == q
  {
    hide BlockWord, Sine, Shift, MessageIndex, Mix, Rotated;
    q := p.(b := next);
  }

  // ----- the only block of the empty message

  const EMPTY_WORDS: seq<Word> :=
    [0x00000080, 0x00000000, 0x00000000, 0x00000000, 0x00000000, 0x00000000, 0x00000000, 0x00000000,
     0x00000000, 0x00000000, 0x00000000, 0x00000000, 0x00000000, 0x00000000, 0x00000000, 0x00000000]

  lemma Empty1(block: seq<Byte>)
    requires HasWords(block, EMPTY_WORDS)
    ensures Operations(16, Registers(0x67452301, 0xefcdab89, 0x98badcfe, 0x10325476), block) ==
            Registers(0xf56c7cf1, 0xd6819c6a, 0x5aa53f75, 0x374943a7)
  {
    EmptyWords(block);
    Table1();
    NoOperations(Registers(0x67452301, 0xefcdab89, 0x98badcfe, 0x10325476), block);
    hide BlockWord, HasWords, Operations, Prescribed;
    var r, p := Registers(0x67452301, 0xefcdab89, 0x98badcfe, 0x10325476), Registers(0x67452301, 0xefcdab89, 0x98badcfe, 0x10325476);
    p := TurnA(r, block, p, 0, 0, 0xd76aa478, 7, 0x00000080, 0xa5202774);
    p := TurnD(r, block, p, 1, 1, 0xe8c7b756, 12, 0x00000000, 0xf59592dd);
    p := TurnC(r, block, p, 2, 2, 0x242070db, 17, 0x00000000, 0xe7f06b23);
    p := TurnB(r, block, p, 3, 3, 0xc1bdceee, 22, 0x00000000, 0x1b163203);
    p := TurnA(r, block, p, 4, 4, 0xf57c0faf, 7, 0x00000000, 0x32033344);
    p := TurnD(r, block, p, 5, 5, 0x4787c62a, 12, 0x00000000, 0x2f35d494);
    p := TurnC(r, block, p, 6, 6, 0xa8304613, 17, 0x00000000, 0xf5b158db);
    p := TurnB(r, block, p, 7, 7, 0xfd469501, 22, 0x00000000, 0x9bc13ce9);
    p := TurnA(r, block, p, 8, 8, 0x698098d8, 7, 0x00000000, 0x3893b991);
    p := TurnD(r, block, p, 9, 9, 0x8b44f7af, 12, 0x00000000, 0xfce4a312);
    p := TurnC(r, block, p, 10, 10, 0xffff5bb1, 17, 0x00000000, 0xe1ef0576);
    p := TurnB(r, block, p, 11, 11, 0x895cd7be, 22, 0x00000000, 0x70768a29);
    p := TurnA(r, block, p, 12, 12, 0x6b901122, 7, 0x00000000, 0xf56c7cf1);
    p := TurnD(r, block, p, 13, 13, 0xfd987193, 12, 0x00000000, 0x374943a7);
    p := TurnC(r, block, p, 14, 14, 0xa679438e, 17, 0x00000000, 0x5aa53f75);
    p := TurnB(r, block, p, 15, 15, 0x49b40821, 22, 0x00000000, 0xd6819c6a);
  }

  lemma Empty2(block: seq<Byte>)
    requires HasWords(block, EMPTY_WORDS)
    requires Operations(16, Registers(0x67452301, 0xefcdab89, 0x98badcfe, 0x10325476), block) ==
             Registers(0xf56c7cf1, 0xd6819c6a, 0x5aa53f75, 0x374943a7)
    ensures Operations(32, Registers(0x67452301, 0xefcdab89, 0x98badcfe, 0x10325476), block) ==
            Registers(0x13707036, 0xa2205f1f, 0x1c31c384, 0xae7813db)
  {
    EmptyWords(block);
    Table2();
    hide BlockWord, HasWords, Operations, Prescribed;
    var r, p := Registers(0x67452301, 0xefcdab89, 0x98badcfe, 0x10325476), Registers(0xf56c7cf1, 0xd6819c6a, 0x5aa53f75, 0x374943a7);
    p := TurnA(r, block, p, 16, 1, 0xf61e2562, 5, 0x00000000, 0x1c7d7513);
    p := TurnD(r, block, p, 17, 6, 0xc040b340, 9, 0x00000000, 0x7bd57a3a);
    p := TurnC(r, block, p, 18, 11, 0x265e5a51, 14, 0x00000000, 0xc095f13a);
    p := TurnB(r, block, p, 19, 0, 0xe9b6c7aa, 20, 0x00000080, 0xbd782e17);
    p := TurnA(r, block, p, 20, 5, 0xd62f105d, 5, 0x00000000, 0x3d1e3e6c);
    p := TurnD(r, block, p, 21, 10, 0x02441453, 9, 0x00000000, 0x68b7b3e3);
    p := TurnC(r, block, p, 22, 15, 0xd8a1e681, 14, 0x00000000, 0xeb41643e);
    p := TurnB(r, block, p, 23, 4, 0xe7d3fbc8, 20, 0x00000000, 0xe422531a);
    p := TurnA(r, block, p, 24, 9, 0x21e1cde6, 5, 0x00000000, 0x306ec122);
    p := TurnD(r, block, p, 25, 14, 0xc33707d6, 9, 0x00000000, 0xd28c77c2);
    p := TurnC(r, block, p, 26, 3, 0xf4d50d87, 14, 0x00000000, 0xa3c663da);
    p := TurnB(r, block, p, 27, 8, 0x455a14ed, 20, 0x00000000, 0xa0572807);
    p := TurnA(r, block, p, 28, 13, 0xa9e3e905, 5, 0x00000000, 0x13707036);
    p := TurnD(r, block, p, 29, 2, 0xfcefa3f8, 9, 0x00000000, 0xae7813db);
    p := TurnC(r, block, p, 30, 7, 0x676f02d9, 14, 0x00000000, 0x1c31c384);
    p := TurnB(r, block, p, 31, 12, 0x8d2a4c8a, 20, 0x00000000, 0xa2205f1f);
  }

  lemma Empty3(block: seq<Byte>)
    requires HasWords(block, EMPTY_WORDS)
    requires Operations(32, Registers(0x67452301, 0xefcdab89, 0x98badcfe, 0x10325476), block) ==
             Registers(0x13707036, 0xa2205f1f, 0x1c31c384, 0xae7813db)
    ensures Operations(48, Registers(0x67452301, 0xefcdab89, 0x98badcfe, 0x10325476), block) ==
            Registers(0x3f55edfd, 0xca7d2dbd, 0x68d84ea2, 0x22a31f54)
  {
    EmptyWords(block);
    Table3();
    hide BlockWord, HasWords, Operations, Prescribed;
    var r, p := Registers(0x67452301, 0xefcdab89, 0x98badcfe, 0x10325476), Registers(0x13707036, 0xa2205f1f, 0x1c31c384, 0xae7813db);
    p := TurnA(r, block, p, 32, 5, 0xfffa3942, 4, 0x00000000, 0xdf63eaa1);
    p := TurnD(r, block, p, 33, 8, 0x8771f681, 11, 0x00000000, 0xc3689f5b);
    p := TurnC(r, block, p, 34, 11, 0x6d9d6122, 16, 0x00000000, 0x12f3e755);
    p := TurnB(r, block, p, 35, 14, 0xfde5380c, 23, 0x00000000, 0x004b6669);
    p := TurnA(r, block, p, 36, 1, 0xa4beea44, 4, 0x00000000, 0x5f7a9b2e);
    p := TurnD(r, block, p, 37, 4, 0x4bdecfa9, 11, 0x00000000, 0xabc34e16);
    p := TurnC(r, block, p, 38, 7, 0xf6bb4b60, 16, 0x00000000, 0x91ca4cb7);
    p := TurnB(r, block, p, 39, 10, 0xbebfbc70, 23, 0x00000000, 0xc5dc8c15);
    p := TurnA(r, block, p, 40, 13, 0x289b7ec6, 4, 0x00000000, 0x4497169d);
    p := TurnD(r, block, p, 41, 0, 0xeaa127fa, 11, 0x00000080, 0x76fd93d4);
    p := TurnC(r, block, p, 42, 3, 0xd4ef3085, 16, 0x00000000, 0xfd95f243);
    p := TurnB(r, block, p, 43, 6, 0x04881d05, 23, 0x00000000, 0x0fe32453);
    p := TurnA(r, block, p, 44, 9, 0xd9d4d039, 4, 0x00000000, 0x3f55edfd);
    p := TurnD(r, block, p, 45, 12, 0xe6db99e5, 11, 0x00000000, 0x22a31f54);
    p := TurnC(r, block, p, 46, 15, 0x1fa27cf8, 16, 0x00000000, 0x68d84ea2);
    p := TurnB(r, block, p, 47, 2, 0xc4ac5665, 23, 0x00000000, 0xca7d2dbd);
  }

  lemma Empty4(block: seq<Byte>)
    requires HasWords(block, EMPTY_WORDS)
    requires Operations(48, Registers(0x67452301, 0xefcdab89, 0x98badcfe, 0x10325476), block) ==
             Registers(0x3f55edfd, 0xca7d2dbd, 0x68d84ea2, 0x22a31f54)
    ensures Operations(64, Registers(0x67452301, 0xefcdab89, 0x98badcfe, 0x10325476), block) ==
            Registers(0x7246fad3, 0x14e45506, 0xff4ea3eb, 0x6e10a476)
  {
    EmptyWords(block);
    Table4();
    hide BlockWord, HasWords, Operations, Prescribed;
    var r, p := Registers(0x67452301, 0xefcdab89, 0x98badcfe, 0x10325476), Registers(0x3f55edfd, 0xca7d2dbd, 0x68d84ea2, 0x22a31f54);
    p := TurnA(r, block, p, 48, 0, 0xf4292244, 6, 0x00000080, 0x93aa2577);
    p := TurnD(r, block, p, 49, 7, 0x432aff97, 10, 0x00000000, 0x1688dc85);
    p := TurnC(r, block, p, 50, 14, 0xab9423a7, 15, 0x00000000, 0xcd85b8cb);
    p := TurnB(r, block, p, 51, 5, 0xfc93a039, 21, 0x00000000, 0x561e0689);
    p := TurnA(r, block, p, 52, 12, 0x655b59c3, 6, 0x00000000, 0x5625a114);
    p := TurnD(r, block, p, 53, 3, 0x8f0ccc92, 10, 0x00000000, 0x3450f42b);
    p := TurnC(r, block, p, 54, 10, 0xffeff47d, 15, 0x00000000, 0x392ad0d0);
    p := TurnB(r, block, p, 55, 1, 0x85845dd1, 21, 0x00000000, 0x1e77fa61);
    p := TurnA(r, block, p, 56, 8, 0x6fa87e4f, 6, 0x00000000, 0x474a9c8c);
    p := TurnD(r, block, p, 57, 15, 0xfe2ce6e0, 10, 0x00000000, 0xdfce00bc);
    p := TurnC(r, block, p, 58, 6, 0xa3014314, 15, 0x00000000, 0x36594b14);
    p := TurnB(r, block, p, 59, 13, 0x4e0811a1, 21, 0x00000000, 0x30130182);
    p := TurnA(r, block, p, 60, 4, 0xf7537e82, 6, 0x00000000, 0x7246fad3);
    p := TurnD(r, block, p, 61, 11, 0xbd3af235, 10, 0x00000000, 0x6e10a476);
    p := TurnC(r, block, p, 62, 2, 0x2ad7d2bb, 15, 0x00000000, 0xff4ea3eb);
    p := TurnB(r, block, p, 63, 9, 0xeb86d391, 21, 0x00000000, 0x14e45506);
  }

  lemma EmptyWords(block: seq<Byte>)
    requires HasWords(block, EMPTY_WORDS)
    ensures BlockWord(block, 0) == 0x00000080 && BlockWord(block, 1) == 0x00000000
    ensures BlockWord(block, 2) == 0x00000000 && BlockWord(block, 3) == 0x00000000
    ensures BlockWord(block, 4) == 0x00000000 && BlockWord(block, 5) == 0x00000000
    ensures BlockWord(block, 6) == 0x00000000 && BlockWord(block, 7) == 0x00000000
    ensures BlockWord(block, 8) == 0x00000000 && BlockWord(block, 9) == 0x00000000
    ensures BlockWord(block, 10) == 0x00000000 && BlockWord(block, 11) == 0x00000000
    ensures BlockWord(block, 12) == 0x00000000 && BlockWord(block, 13) == 0x00000000
    ensures BlockWord(block, 14) == 0x00000000 && BlockWord(block, 15) == 0x00000000
  {
    hide BlockWord;
  }

  lemma EmptyBlock(block: seq<Byte>)
    requires HasWords(block, EMPTY_WORDS)
    ensures Process(Registers(0x67452301, 0xefcdab89, 0x98badcfe, 0x10325476), block) ==
            Registers(0xd98c1dd4, 0x04b2008f, 0x980980e9, 0x7e42f8ec)
  {
    Empty1(block);
    Empty2(block);
    Empty3(block);
    Empty4(block);
    hide Operations, HasWords;
  }

  // ----- the first block of the long message

  const FIRST_WORDS: seq<Word> :=
    [0x34333231, 0x38373635, 0x32313039, 0x36353433, 0x30393837, 0x34333231, 0x38373635, 0x32313039,
     0x36353433, 0x30393837, 0x34333231, 0x38373635, 0x32313039, 0x36353433, 0x30393837, 0x34333231]

  lemma First1(block: seq<Byte>)
    requires HasWords(block, FIRST_WORDS)
    ensures Operations(16, Registers(0x67452301, 0xefcdab89, 0x98badcfe, 0x10325476), block) ==
            Registers(0x5157e49e, 0xaf506a03, 0x27e983a0, 0xffac907e)
  {
    FirstWords(block);
    Table1();
    NoOperations(Registers(0x67452301, 0xefcdab89, 0x98badcfe, 0x10325476), block);
    hide BlockWord, HasWords, Operations, Prescribed;
    var r, p := Registers(0x67452301, 0xefcdab89, 0x98badcfe, 0x10325476), Registers(0x67452301, 0xefcdab89, 0x98badcfe, 0x10325476);
    p := TurnA(r, block, p, 0, 0, 0xd76aa478, 7, 0x34333231, 0xbeb8ff8e);
    p := TurnD(r, block, p, 1, 1, 0xe8c7b756, 12, 0x38373635, 0x7d989d89);
    p := TurnC(r, block, p, 2, 2, 0x242070db, 17, 0x32313039, 0xf8cdf95d);
    p := TurnB(r, block, p, 3, 3, 0xc1bdceee, 22, 0x36353433, 0x862797b0);
    p := TurnA(r, block, p, 4, 4, 0xf57c0faf, 7, 0x30393837, 0x8c17de9f);
    p := TurnD(r, block, p, 5, 5, 0x4787c62a, 12, 0x34333231, 0xc0f32d81);
    p := TurnC(r, block, p, 6, 6, 0xa8304613, 17, 0x38373635, 0xe99fec1b);
    p := TurnB(r, block, p, 7, 7, 0xfd469501, 22, 0x32313039, 0xc57e78c1);
    p := TurnA(r, block, p, 8, 8, 0x698098d8, 7, 0x36353433, 0x7c0aceb7);
    p := TurnD(r, block, p, 9, 9, 0x8b44f7af, 12, 0x30393837, 0x8869d2d8);
    p := TurnC(r, block, p, 10, 10, 0xffff5bb1, 17, 0x34333231, 0x5186a8ba);
    p := TurnB(r, block, p, 11, 11, 0x895cd7be, 22, 0x38373635, 0xa5f36f8d);
    p := TurnA(r, block, p, 12, 12, 0x6b901122, 7, 0x32313039, 0x5157e49e);
    p := TurnD(r, block, p, 13, 13, 0xfd987193, 12, 0x36353433, 0xffac907e);
    p := TurnC(r, block, p, 14, 14, 0xa679438e, 17, 0x30393837, 0x27e983a0);
    p := TurnB(r, block, p, 15, 15, 0x49b40821, 22, 0x34333231, 0xaf506a03);
  }

  lemma First2(block: seq<Byte>)
    requires HasWords(block, FIRST_WORDS)
    requires Operations(16, Registers(0x67452301, 0xefcdab89, 0x98badcfe, 0x10325476), block) ==
             Registers(0x5157e49e, 0xaf506a03, 0x27e983a0, 0xffac907e)
    ensures Operations(32, Registers(0x67452301, 0xefcdab89, 0x98badcfe, 0x10325476), block) ==
            Registers(0xf8bcfbb0, 0x1bf25662, 0x99a0f1b8, 0xd760ed39)
  {
    FirstWords(block);
    Table2();
    hide BlockWord, HasWords, Operations, Prescribed;
    var r, p := Registers(0x67452301, 0xefcdab89, 0x98badcfe, 0x10325476), Registers(0x5157e49e, 0xaf506a03, 0x27e983a0, 0xffac907e);
    p := TurnA(r, block, p, 16, 1, 0xf61e2562, 5, 0x38373635, 0x8d18e0e8);
    p := TurnD(r, block, p, 17, 6, 0xc040b340, 9, 0x38373635, 0x07de0df2);
    p := TurnC(r, block, p, 18, 11, 0x265e5a51, 14, 0x38373635, 0xef223167);
    p := TurnB(r, block, p, 19, 0, 0xe9b6c7aa, 20, 0x34333231, 0x04280170);
    p := TurnA(r, block, p, 20, 5, 0xd62f105d, 5, 0x34333231, 0x78929ee0);
    p := TurnD(r, block, p, 21, 10, 0x02441453, 9, 0x34333231, 0x375c6c2c);
    p := TurnC(r, block, p, 22, 15, 0xd8a1e681, 14, 0x34333231, 0xb18aca50);
    p := TurnB(r, block, p, 23, 4, 0xe7d3fbc8, 20, 0x30393837, 0xad400a91);
    p := TurnA(r, block, p, 24, 9, 0x21e1cde6, 5, 0x30393837, 0xbb45f43f);
    p := TurnD(r, block, p, 25, 14, 0xc33707d6, 9, 0x30393837, 0xd61f8a0f);
    p := TurnC(r, block, p, 26, 3, 0xf4d50d87, 14, 0x36353433, 0x98ade6b5);
    p := TurnB(r, block, p, 27, 8, 0x455a14ed, 20, 0x36353433, 0xb70e35a9);
    p := TurnA(r, block, p, 28, 13, 0xa9e3e905, 5, 0x36353433, 0xf8bcfbb0);
    p := TurnD(r, block, p, 29, 2, 0xfcefa3f8, 9, 0x32313039, 0xd760ed39);
    p := TurnC(r, block, p, 30, 7, 0x676f02d9, 14, 0x32313039, 0x99a0f1b8);
    p := TurnB(r, block, p, 31, 12, 0x8d2a4c8a, 20, 0x32313039, 0x1bf25662);
  }

  lemma First3(block: seq<Byte>)
    requires HasWords(block, FIRST_WORDS)
    requires Operations(32, Registers(0x67452301, 0xefcdab89, 0x98badcfe, 0x10325476), block) ==
             Registers(0xf8bcfbb0, 0x1bf25662, 0x99a0f1b8, 0xd760ed39)
    ensures Operations(48, Registers(0x67452301, 0xefcdab89, 0x98badcfe, 0x10325476), block) ==
            Registers(0x697032ec, 0xdb4197da, 0xefc2c171, 0xfa597bfc)
  {
    FirstWords(block);
    Table3();
    hide BlockWord, HasWords, Operations, Prescribed;
    var r, p := Registers(0x67452301, 0xefcdab89, 0x98badcfe, 0x10325476), Registers(0xf8bcfbb0, 0x1bf25662, 0x99a0f1b8, 0xd760ed39);
    p := TurnA(r, block, p, 32, 5, 0xfffa3942, 4, 0x34333231, 0x3dbd76ca);
    p := TurnD(r, block, p, 33, 8, 0x8771f681, 11, 0x36353433, 0xfd056171);
    p := TurnC(r, block, p, 34, 11, 0x6d9d6122, 16, 0x38373635, 0xc7ed7c30);
    p := TurnB(r, block, p, 35, 14, 0xfde5380c, 23, 0x30393837, 0xe0162f49);
    p := TurnA(r, block, p, 36, 1, 0xa4beea44, 4, 0x38373635, 0x3b32c408);
    p := TurnD(r, block, p, 37, 4, 0x4bdecfa9, 11, 0x30393837, 0x7338d8b7);
    p := TurnC(r, block, p, 38, 7, 0xf6bb4b60, 16, 0x32313039, 0x9ef871ad);
    p := TurnB(r, block, p, 39, 10, 0xbebfbc70, 23, 0x34333231, 0x1d4d6f72);
    p := TurnA(r, block, p, 40, 13, 0x289b7ec6, 4, 0x36353433, 0xc661460a);
    p := TurnD(r, block, p, 41, 0, 0xeaa127fa, 11, 0x34333231, 0xd2bf04c9);
    p := TurnC(r, block, p, 42, 3, 0xd4ef3085, 16, 0x36353433, 0xd6d5b879);
    p := TurnB(r, block, p, 43, 6, 0x04881d05, 23, 0x38373635, 0x89e3c4d7);
    p := TurnA(r, block, p, 44, 9, 0xd9d4d039, 4, 0x30393837, 0x697032ec);
    p := TurnD(r, block, p, 45, 12, 0xe6db99e5, 11, 0x32313039, 0xfa597bfc);
    p := TurnC(r, block, p, 46, 15, 0x1fa27cf8, 16, 0x34333231, 0xefc2c171);
    p := TurnB(r, block, p, 47, 2, 0xc4ac5665, 23, 0x32313039, 0xdb4197da);
  }

  lemma First4(block: seq<Byte>)
    requires HasWords(block, FIRST_WORDS)
    requires Operations(48, Registers(0x67452301, 0xefcdab89, 0x98badcfe, 0x10325476), block) ==
             Registers(0x697032ec, 0xdb4197da, 0xefc2c171, 0xfa597bfc)
    ensures Operations(64, Registers(0x67452301, 0xefcdab89, 0x98badcfe, 0x10325476), block) ==
            Registers(0x614868eb, 0xb4d33102, 0x5133129b, 0xa09f38a7)
  {
    FirstWords(block);
    Table4();
    hide BlockWord, HasWords, Operations, Prescribed;
    var r, p := Registers(0x67452301, 0xefcdab89, 0x98badcfe, 0x10325476), Registers(0x697032ec, 0xdb4197da, 0xefc2c171, 0xfa597bfc);
    p := TurnA(r, block, p, 48, 0, 0xf4292244, 6, 0x34333231, 0x57b91aca);
    p := TurnD(r, block, p, 49, 7, 0x432aff97, 10, 0x32313039, 0x210c9ebc);
    p := TurnC(r, block, p, 50, 14, 0xab9423a7, 15, 0x30393837, 0x21efbd88);
    p := TurnB(r, block, p, 51, 5, 0xfc93a039, 21, 0x34333231, 0xcaa25b01);
    p := TurnA(r, block, p, 52, 12, 0x655b59c3, 6, 0x32313039, 0x633d3f7c);
    p := TurnD(r, block, p, 53, 3, 0x8f0ccc92, 10, 0x36353433, 0x1a4d3beb);
    p := TurnC(r, block, p, 54, 10, 0xffeff47d, 15, 0x34333231, 0xccaa1524);
    p := TurnB(r, block, p, 55, 1, 0x85845dd1, 21, 0x38373635, 0x7713f5df);
    p := TurnA(r, block, p, 56, 8, 0x6fa87e4f, 6, 0x36353433, 0x8448b430);
    p := TurnD(r, block, p, 57, 15, 0xfe2ce6e0, 10, 0x34333231, 0x71c93463);
    p := TurnC(r, block, p, 58, 6, 0xa3014314, 15, 0x38373635, 0x7e294727);
    p := TurnB(r, block, p, 59, 13, 0x4e0811a1, 21, 0x36353433, 0x660a801d);
    p := TurnA(r, block, p, 60, 4, 0xf7537e82, 6, 0x30393837, 0x614868eb);
    p := TurnD(r, block, p, 61, 11, 0xbd3af235, 10, 0x38373635, 0xa09f38a7);
    p := TurnC(r, block, p, 62, 2, 0x2ad7d2bb, 15, 0x32313039, 0x5133129b);
    p := TurnB(r, block, p, 63, 9, 0xeb86d391, 21, 0x30393837, 0xb4d33102);
  }

  lemma FirstWords(block: seq<Byte>)
    requires HasWords(block, FIRST_WORDS)
    ensures BlockWord(block, 0) == 0x34333231 && BlockWord(block, 1) == 0x38373635
    ensures BlockWord(block, 2) == 0x32313039 && BlockWord(block, 3) == 0x36353433
    ensures BlockWord(block, 4) == 0x30393837 && BlockWord(block, 5) == 0x34333231
    ensures BlockWord(block, 6) == 0x38373635 && BlockWord(block, 7) == 0x32313039
    ensures BlockWord(block, 8) == 0x36353433 && BlockWord(block, 9) == 0x30393837
    ensures BlockWord(block, 10) == 0x34333231 && BlockWord(block, 11) == 0x38373635
    ensures BlockWord(block, 12) == 0x32313039 && BlockWord(block, 13) == 0x36353433
    ensures BlockWord(block, 14) == 0x30393837 && BlockWord(block, 15) == 0x34333231
  {
    hide BlockWord;
  }

  lemma FirstBlock(block: seq<Byte>)
    requires HasWords(block, FIRST_WORDS)
    ensures Process(Registers(0x67452301, 0xefcdab89, 0x98badcfe, 0x10325476), block) ==
            Registers(0xc88d8bec, 0xa4a0dc8b, 0xe9edef99, 0xb0d18d1d)
  {
    First1(block);
    First2(block);
    First3(block);
    First4(block);
    hide Operations, HasWords;
  }

  // ----- the second block of the long message, with its padding

  const SECOND_WORDS: seq<Word> :=
    [0x38373635, 0x32313039, 0x36353433, 0x30393837, 0x00000080, 0x00000000, 0x00000000, 0x00000000,
     0x00000000, 0x00000000, 0x00000000, 0x00000000, 0x00000000, 0x00000000, 0x00000280, 0x00000000]

  lemma Second1(block: seq<Byte>)
    requires HasWords(block, SECOND_WORDS)
    ensures Operations(16, Registers(0xc88d8bec, 0xa4a0dc8b, 0xe9edef99, 0xb0d18d1d), block) ==
            Registers(0xdb4ff71c, 0x58b12eab, 0x04396a39, 0x9b6b4960)
  {
    SecondWords(block);
    Table1();
    NoOperations(Registers(0xc88d8bec, 0xa4a0dc8b, 0xe9edef99, 0xb0d18d1d), block);
    hide BlockWord, HasWords, Operations, Prescribed;
    var r, p := Registers(0xc88d8bec, 0xa4a0dc8b, 0xe9edef99, 0xb0d18d1d), Registers(0xc88d8bec, 0xa4a0dc8b, 0xe9edef99, 0xb0d18d1d);
    p := TurnA(r, block, p, 0, 0, 0xd76aa478, 7, 0x38373635, 0x353af7cf);
    p := TurnD(r, block, p, 1, 1, 0xe8c7b756, 12, 0x32313039, 0x3a4f735a);
    p := TurnC(r, block, p, 2, 2, 0x242070db, 17, 0x36353433, 0x63356537);
    p := TurnB(r, block, p, 3, 3, 0xc1bdceee, 22, 0x30393837, 0x45e88f2c);
    p := TurnA(r, block, p, 4, 4, 0xf57c0faf, 7, 0x00000080, 0x3527497e);
    p := TurnD(r, block, p, 5, 5, 0x4787c62a, 12, 0x00000000, 0xab92660e);
    p := TurnC(r, block, p, 6, 6, 0xa8304613, 17, 0x00000000, 0x948347ae);
    p := TurnB(r, block, p, 7, 7, 0xfd469501, 22, 0x00000000, 0x377c7d0a);
    p := TurnA(r, block, p, 8, 8, 0x698098d8, 7, 0x00000000, 0xcc912f27);
    p := TurnD(r, block, p, 9, 9, 0x8b44f7af, 12, 0x00000000, 0x6945a3d5);
    p := TurnC(r, block, p, 10, 10, 0xffff5bb1, 17, 0x00000000, 0xae23894d);
    p := TurnB(r, block, p, 11, 11, 0x895cd7be, 22, 0x00000000, 0xb9ede40c);
    p := TurnA(r, block, p, 12, 12, 0x6b901122, 7, 0x00000000, 0xdb4ff71c);
    p := TurnD(r, block, p, 13, 13, 0xfd987193, 12, 0x00000000, 0x9b6b4960);
    p := TurnC(r, block, p, 14, 14, 0xa679438e, 17, 0x00000280, 0x04396a39);
    p := TurnB(r, block, p, 15, 15, 0x49b40821, 22, 0x00000000, 0x58b12eab);
  }

  lemma Second2(block: seq<Byte>)
    requires HasWords(block, SECOND_WORDS)
    requires Operations(16, Registers(0xc88d8bec, 0xa4a0dc8b, 0xe9edef99, 0xb0d18d1d), block) ==
             Registers(0xdb4ff71c, 0x58b12eab, 0x04396a39, 0x9b6b4960)
    ensures Operations(32, Registers(0xc88d8bec, 0xa4a0dc8b, 0xe9edef99, 0xb0d18d1d), block) ==
            Registers(0x8761f38e, 0x67092c33, 0x061bc867, 0x7a516116)
  {
    SecondWords(block);
    Table2();
    hide BlockWord, HasWords, Operations, Prescribed;
    var r, p := Registers(0xc88d8bec, 0xa4a0dc8b, 0xe9edef99, 0xb0d18d1d), Registers(0xdb4ff71c, 0x58b12eab, 0x04396a39, 0x9b6b4960);
    p := TurnA(r, block, p, 16, 1, 0xf61e2562, 5, 0x32313039, 0x52c00cae);
    p := TurnD(r, block, p, 17, 6, 0xc040b340, 9, 0x00000000, 0xaad2a216);
    p := TurnC(r, block, p, 18, 11, 0x265e5a51, 14, 0x00000000, 0xa476af6f);
    p := TurnB(r, block, p, 19, 0, 0xe9b6c7aa, 20, 0x38373635, 0x50f8de8c);
    p := TurnA(r, block, p, 20, 5, 0xd62f105d, 5, 0x00000000, 0x0d6e6d91);
    p := TurnD(r, block, p, 21, 10, 0x02441453, 9, 0x00000000, 0x17d64195);
    p := TurnC(r, block, p, 22, 15, 0xd8a1e681, 14, 0x00000000, 0xd5b7a850);
    p := TurnB(r, block, p, 23, 4, 0xe7d3fbc8, 20, 0x00000080, 0x043cb080);
    p := TurnA(r, block, p, 24, 9, 0x21e1cde6, 5, 0x00000000, 0x74f9377e);
    p := TurnD(r, block, p, 25, 14, 0xc33707d6, 9, 0x00000280, 0x01f2addd);
    p := TurnC(r, block, p, 26, 3, 0xf4d50d87, 14, 0x30393837, 0xe775c8ca);
    p := TurnB(r, block, p, 27, 8, 0x455a14ed, 20, 0x00000000, 0xcb00b96e);
    p := TurnA(r, block, p, 28, 13, 0xa9e3e905, 5, 0x00000000, 0x8761f38e);
    p := TurnD(r, block, p, 29, 2, 0xfcefa3f8, 9, 0x36353433, 0x7a516116);
    p := TurnC(r, block, p, 30, 7, 0x676f02d9, 14, 0x00000000, 0x061bc867);
    p := TurnB(r, block, p, 31, 12, 0x8d2a4c8a, 20, 0x00000000, 0x67092c33);
  }

  lemma Second3(block: seq<Byte>)
    requires HasWords(block, SECOND_WORDS)
    requires Operations(32, Registers(0xc88d8bec, 0xa4a0dc8b, 0xe9edef99, 0xb0d18d1d), block) ==
             Registers(0x8761f38e, 0x67092c33, 0x061bc867, 0x7a516116)
    ensures Operations(48, Registers(0xc88d8bec, 0xa4a0dc8b, 0xe9edef99, 0xb0d18d1d), block) ==
            Registers(0x71123afa, 0x1df7010a, 0xe6a8a386, 0xdc9c8ddb)
  {
    SecondWords(block);
    Table3();
    hide BlockWord, HasWords, Operations, Prescribed;
    var r, p := Registers(0xc88d8bec, 0xa4a0dc8b, 0xe9edef99, 0xb0d18d1d), Registers(0x8761f38e, 0x67092c33, 0x061bc867, 0x7a516116);
    p := TurnA(r, block, p, 32, 5, 0xfffa3942, 4, 0x00000000, 0x91044d5d);
    p := TurnD(r, block, p, 33, 8, 0x8771f681, 11, 0x00000000, 0x610954eb);
    p := TurnC(r, block, p, 34, 11, 0x6d9d6122, 16, 0x00000000, 0xc0175fa8);
    p := TurnB(r, block, p, 35, 14, 0xfde5380c, 23, 0x00000280, 0x2ee1e3fe);
    p := TurnA(r, block, p, 36, 1, 0xa4beea44, 4, 0x32313039, 0xae26ed7d);
    p := TurnD(r, block, p, 37, 4, 0x4bdecfa9, 11, 0x00000080, 0x71d8ecea);
    p := TurnC(r, block, p, 38, 7, 0xf6bb4b60, 16, 0x00000000, 0xff4a94dc);
    p := TurnB(r, block, p, 39, 10, 0xbebfbc70, 23, 0x00000000, 0xdbd1bff6);
    p := TurnA(r, block, p, 40, 13, 0x289b7ec6, 4, 0x00000000, 0x9c350028);
    p := TurnD(r, block, p, 41, 0, 0xeaa127fa, 11, 0x38373635, 0x97e5da92);
    p := TurnC(r, block, p, 42, 3, 0xd4ef3085, 16, 0x30393837, 0xfacaaf06);
    p := TurnB(r, block, p, 43, 6, 0x04881d05, 23, 0x00000000, 0x56b3692f);
    p := TurnA(r, block, p, 44, 9, 0xd9d4d039, 4, 0x00000000, 0x71123afa);
    p := TurnD(r, block, p, 45, 12, 0xe6db99e5, 11, 0x00000000, 0xdc9c8ddb);
    p := TurnC(r, block, p, 46, 15, 0x1fa27cf8, 16, 0x00000000, 0xe6a8a386);
    p := TurnB(r, block, p, 47, 2, 0xc4ac5665, 23, 0x36353433, 0x1df7010a);
  }

  lemma Second4(block: seq<Byte>)
    requires HasWords(block, SECOND_WORDS)
    requires Operations(48, Registers(0xc88d8bec, 0xa4a0dc8b, 0xe9edef99, 0xb0d18d1d), block) ==
             Registers(0x71123afa, 0x1df7010a, 0xe6a8a386, 0xdc9c8ddb)
    ensures Operations(64, Registers(0xc88d8bec, 0xa4a0dc8b, 0xe9edef99, 0xb0d18d1d), block) ==
            Registers(0xda67616b, 0xb12906a0, 0x44ec5a13, 0xc9e47a04)
  {
    SecondWords(block);
    Table4();
    hide BlockWord, HasWords, Operations, Prescribed;
    var r, p := Registers(0xc88d8bec, 0xa4a0dc8b, 0xe9edef99, 0xb0d18d1d), Registers(0x71123afa, 0x1df7010a, 0xe6a8a386, 0xdc9c8ddb);
    p := TurnA(r, block, p, 48, 0, 0xf4292244, 6, 0x38373635, 0xd29007e7);
    p := TurnD(r, block, p, 49, 7, 0x432aff97, 10, 0x00000000, 0x7241a77e);
    p := TurnC(r, block, p, 50, 14, 0xab9423a7, 15, 0x00000280, 0xd3248109);
    p := TurnB(r, block, p, 51, 5, 0xfc93a039, 21, 0x00000000, 0xc8797828);
    p := TurnA(r, block, p, 52, 12, 0x655b59c3, 6, 0x00000000, 0x7a504abd);
    p := TurnD(r, block, p, 53, 3, 0x8f0ccc92, 10, 0x30393837, 0x211cc65d);
    p := TurnC(r, block, p, 54, 10, 0xffeff47d, 15, 0x00000000, 0xa290d6ce);
    p := TurnB(r, block, p, 55, 1, 0x85845dd1, 21, 0x32313039, 0x9b31b114);
    p := TurnA(r, block, p, 56, 8, 0x6fa87e4f, 6, 0x00000000, 0x723fd22d);
    p := TurnD(r, block, p, 57, 15, 0xfe2ce6e0, 10, 0x00000000, 0xd21d6a3b);
    p := TurnC(r, block, p, 58, 6, 0xa3014314, 15, 0x00000000, 0x3d79cf74);
    p := TurnB(r, block, p, 59, 13, 0x4e0811a1, 21, 0x00000000, 0x4dc4f33d);
    p := TurnA(r, block, p, 60, 4, 0xf7537e82, 6, 0x00000080, 0xda67616b);
    p := TurnD(r, block, p, 61, 11, 0xbd3af235, 10, 0x00000000, 0xc9e47a04);
    p := TurnC(r, block, p, 62, 2, 0x2ad7d2bb, 15, 0x36353433, 0x44ec5a13);
    p := TurnB(r, block, p, 63, 9, 0xeb86d391, 21, 0x00000000, 0xb12906a0);
  }

  lemma SecondWords(block: seq<Byte>)
    requires HasWords(block, SECOND_WORDS)
    ensures BlockWord(block, 0) == 0x38373635 && BlockWord(block, 1) == 0x32313039
    ensures BlockWord(block, 2) == 0x36353433 && BlockWord(block, 3) == 0x30393837
    ensures BlockWord(block, 4) == 0x00000080 && BlockWord(block, 5) == 0x00000000
    ensures BlockWord(block, 6) == 0x00000000 && BlockWord(block, 7) == 0x00000000
    ensures BlockWord(block, 8) == 0x00000000 && BlockWord(block, 9) == 0x00000000
    ensures BlockWord(block, 10) == 0x00000000 && BlockWord(block, 11) == 0x00000000
    ensures BlockWord(block, 12) == 0x00000000 && BlockWord(block, 13) == 0x00000000
    ensures BlockWord(block, 14) == 0x00000280 && BlockWord(block, 15) == 0x00000000
  {
    hide BlockWord;
  }

  lemma SecondBlock(block: seq<Byte>)
    requires HasWords(block, SECOND_WORDS)
    ensures Process(Registers(0xc88d8bec, 0xa4a0dc8b, 0xe9edef99, 0xb0d18d1d), block) ==
            Registers(0xa2f4ed57, 0x55c9e32b, 0x2eda49ac, 0x7ab60721)
  {
    Second1(block);
    Second2(block);
    Second3(block);
    Second4(block);
    hide Operations, HasWords;
  }

  // ----- the padded messages, word by word

  lemma WordFrom(block: seq<Byte>, k: nat, b0: Byte, b1: Byte, b2: Byte, b3: Byte, w: Word)
    requires |block| == BLOCK && k < 16 && block[4 * k] == b0 && block[4 * k + 1] == b1
    requires block[4 * k + 2] == b2 && block[4 * k + 3] == b3
    requires w == (b0 as Word) | ((b1 as Word) << 8) | ((b2 as Word) << 16) | ((b3 as Word) << 24)
    ensures BlockWord(block, k) == w
  {
    WordOfBytes(b0, b1, b2, b3);
  }

  lemma NothingPadded(block: seq<Byte>)
    requires |block| == BLOCK && block[0] == 0x80 && forall i :: 1 <= i < BLOCK ==> block[i] == 0
    ensures HasWords(block, EMPTY_WORDS)
  {
    hide BlockWord;
    WordFrom(block, 0, 0x80, 0, 0, 0, 0x80);
    forall k | 1 <= k < 16 ensures BlockWord(block, k) == 0 {
      WordFrom(block, k, 0, 0, 0, 0, 0);
    }
  }

  function DigitAt(i: nat): Byte {
    if i % 10 == 0 then 0x31 else if i % 10 == 1 then 0x32 else if i % 10 == 2 then 0x33
    else if i % 10 == 3 then 0x34 else if i % 10 == 4 then 0x35 else if i % 10 == 5 then 0x36
    else if i % 10 == 6 then 0x37 else if i % 10 == 7 then 0x38 else if i % 10 == 8 then 0x39 else 0x30
  }

  /** Eighty characters: eight times the digits from one to zero. */
  function Digits(): (s: seq<Byte>)
    ensures |s| == 80 && forall i :: 0 <= i < 80 ==> s[i] == DigitAt(i)
  {
    seq(80, i requires 0 <= i < 80 => DigitAt(i))
  }

  lemma FirstPadded(block: seq<Byte>)
    requires |block| == BLOCK && forall i :: 0 <= i < BLOCK ==> block[i] == DigitAt(i)
    ensures HasWords(block, FIRST_WORDS)
  {
    hide BlockWord;
    WordFrom(block, 0, 0x31, 0x32, 0x33, 0x34, 0x34333231);
    WordFrom(block, 1, 0x35, 0x36, 0x37, 0x38, 0x38373635);
    WordFrom(block, 2, 0x39, 0x30, 0x31, 0x32, 0x32313039);
    WordFrom(block, 3, 0x33, 0x34, 0x35, 0x36, 0x36353433);
    WordFrom(block, 4, 0x37, 0x38, 0x39, 0x30, 0x30393837);
    WordFrom(block, 5, 0x31, 0x32, 0x33, 0x34, 0x34333231);
    WordFrom(block, 6, 0x35, 0x36, 0x37, 0x38, 0x38373635);
    WordFrom(block, 7, 0x39, 0x30, 0x31, 0x32, 0x32313039);
    FirstPaddedRest(block);
  }

  lemma FirstPaddedRest(block: seq<Byte>)
    requires |block| == BLOCK && forall i :: 0 <= i < BLOCK ==> block[i] == DigitAt(i)
    ensures forall k :: 8 <= k < 16 ==> BlockWord(block, k) == FIRST_WORDS[k]
  {
    hide BlockWord;
    WordFrom(block, 8, 0x33, 0x34, 0x35, 0x36, 0x36353433);
    WordFrom(block, 9, 0x37, 0x38, 0x39, 0x30, 0x30393837);
    WordFrom(block, 10, 0x31, 0x32, 0x33, 0x34, 0x34333231);
    WordFrom(block, 11, 0x35, 0x36, 0x37, 0x38, 0x38373635);
    WordFrom(block, 12, 0x39, 0x30, 0x31, 0x32, 0x32313039);
    WordFrom(block, 13, 0x33, 0x34, 0x35, 0x36, 0x36353433);
    WordFrom(block, 14, 0x37, 0x38, 0x39, 0x30, 0x30393837);
    WordFrom(block, 15, 0x31, 0x32, 0x33, 0x34, 0x34333231);
  }

  lemma SecondPadded(block: seq<Byte>)
    requires |block| == BLOCK && forall i :: 0 <= i < 16 ==> block[i] == DigitAt(BLOCK + i)
    requires block[16] == 0x80 && (forall i :: 17 <= i < 56 ==> block[i] == 0)
    requires block[56] == 0x80 && block[57] == 0x02 && forall i :: 58 <= i < BLOCK ==> block[i] == 0
    ensures HasWords(block, SECOND_WORDS)
  {
    hide BlockWord;
    WordFrom(block, 0, 0x35, 0x36, 0x37, 0x38, 0x38373635);
    WordFrom(block, 1, 0x39, 0x30, 0x31, 0x32, 0x32313039);
    WordFrom(block, 2, 0x33, 0x34, 0x35, 0x36, 0x36353433);
    WordFrom(block, 3, 0x37, 0x38, 0x39, 0x30, 0x30393837);
    WordFrom(block, 4, 0x80, 0x00, 0x00, 0x00, 0x00000080);
    WordFrom(block, 5, 0x00, 0x00, 0x00, 0x00, 0x00000000);
    WordFrom(block, 6, 0x00, 0x00, 0x00, 0x00, 0x00000000);
    WordFrom(block, 7, 0x00, 0x00, 0x00, 0x00, 0x00000000);
    WordFrom(block, 8, 0x00, 0x00, 0x00, 0x00, 0x00000000);
    WordFrom(block, 9, 0x00, 0x00, 0x00, 0x00, 0x00000000);
    WordFrom(block, 10, 0x00, 0x00, 0x00, 0x00, 0x00000000);
    WordFrom(block, 11, 0x00, 0x00, 0x00, 0x00, 0x00000000);
    WordFrom(block, 12, 0x00, 0x00, 0x00, 0x00, 0x00000000);
    WordFrom(block, 13, 0x00, 0x00, 0x00, 0x00, 0x00000000);
    WordFrom(block, 14, 0x80, 0x02, 0x00, 0x00, 0x00000280);
    WordFrom(block, 15, 0x00, 0x00, 0x00, 0x00, 0x00000000);
  }

  lemma SmallLength(n: nat)
    requires n < 0x2000
    ensures LengthField(n) == LittleEndian(8 * n) + LittleEndian(0)
  {
    hide LittleEndian;
    assert 8 * n % 0x1_0000_0000 == 8 * n && 8 * n / 0x1_0000_0000 == 0;
  }

  lemma FourBytes()
    ensures LittleEndian(0) == [0, 0, 0, 0]
    ensures LittleEndian(1) == [1, 0, 0, 0]
    ensures LittleEndian(640) == [0x80, 0x02, 0, 0]
    ensures LittleEndian(0x182_0280) == [0x80, 0x02, 0x82, 0x01]
  {
    LittleEndianIs(0, 0, 0, 0);
    LittleEndianIs(1, 0, 0, 0);
    LittleEndianIs(0x80, 0x02, 0, 0);
    LittleEndianIs(0x80, 0x02, 0x82, 0x01);
    SmallBytes();
    hide LittleEndian, ByteOf;
  }

  lemma SmallBytes()
    ensures ByteOf(0) == 0 && ByteOf(1) == 1 && ByteOf(2) == 2 && ByteOf(0x80) == 0x80 && ByteOf(0x82) == 0x82
  {
  }

  /** The length field of a message of 538984528 bytes, whose length in bits takes both words. */
  lemma LengthOfLongMessage()
    ensures LengthField(0x2030_4050) == [0x80, 0x02, 0x82, 0x01, 1, 0, 0, 0]
  {
    FourBytes();
    hide LittleEndian;
    assert 8 * 0x2030_4050 == 0x1_0182_0280;
  }

  lemma FieldOfNothing()
    ensures forall i :: 0 <= i < 8 ==> LengthField(0)[i] == 0
  {
    SmallLength(0);
    FourBytes();
    hide LengthField, LittleEndian;
  }

  lemma FieldOfDigits()
    ensures LengthField(80)[0] == 0x80 && LengthField(80)[1] == 0x02
    ensures forall i :: 2 <= i < 8 ==> LengthField(80)[i] == 0
  {
    SmallLength(80);
    FourBytes();
    hide LengthField, LittleEndian;
  }

  lemma PaddingOfNothing()
    ensures var p := Padding(0);
      |p| == BLOCK && p[0] == 0x80 && forall i :: 1 <= i < BLOCK ==> p[i] == 0
  {
    FieldOfNothing();
    hide LengthField;
    assert forall i :: 56 <= i < BLOCK ==> Padding(0)[i] == LengthField(0)[i - 56];
  }

  lemma PaddingOfDigits()
    ensures var p := Padding(80);
      && |p| == 48 && p[0] == 0x80 && (forall i :: 1 <= i < 40 ==> p[i] == 0)
      && p[40] == 0x80 && p[41] == 0x02 && forall i :: 42 <= i < 48 ==> p[i] == 0
  {
    FieldOfDigits();
    hide LengthField;
    assert forall i :: 40 <= i < 48 ==> Padding(80)[i] == LengthField(80)[i - 40];
  }

  /** The digest of no data at all. */
  lemma DigestOfNothing()
    ensures Digest([]) ==
            [0xd4, 0x1d, 0x8c, 0xd9, 0x8f, 0x00, 0xb2, 0x04, 0xe9, 0x80, 0x09, 0x98, 0xec, 0xf8, 0x42, 0x7e]
  {
    var padded := [] + Padding(0);
    assert padded == Padding(0);
    PaddingOfNothing();
    NothingPadded(padded);
    EmptyBlock(padded);
    hide Process, HasWords, Padding, ProcessAll, Output;
    OneBlockDigest(padded, INITIAL);
    OutputEmpty();
  }

  lemma OneBlockDigest(block: seq<Byte>, r: Registers)
    requires |block| == BLOCK
    ensures ProcessAll(r, block) == Process(r, block)
  {
    hide Process;
    assert block[..BLOCK] == block && block[BLOCK..] == [];
  }

  lemma OutputEmpty()
    ensures Output(Registers(0xd98c1dd4, 0x04b2008f, 0x980980e9, 0x7e42f8ec)) ==
            [0xd4, 0x1d, 0x8c, 0xd9, 0x8f, 0x00, 0xb2, 0x04, 0xe9, 0x80, 0x09, 0x98, 0xec, 0xf8, 0x42, 0x7e]
  {
  }

  lemma OutputDigits()
    ensures Output(Registers(0xa2f4ed57, 0x55c9e32b, 0x2eda49ac, 0x7ab60721)) ==
            [0x57, 0xed, 0xf4, 0xa2, 0x2b, 0xe3, 0xc9, 0x55, 0xac, 0x49, 0xda, 0x2e, 0x21, 0x07, 0xb6, 0x7a]
  {
  }

  lemma DigitsSplit() returns (first: seq<Byte>, second: seq<Byte>)
    ensures Digits() + Padding(80) == first + second
    ensures HasWords(first, FIRST_WORDS) && HasWords(second, SECOND_WORDS)
  {
    PaddingOfDigits();
    hide Padding, HasWords, DigitAt, Digits;
    var padded := Digits() + Padding(80);
    first, second := padded[..BLOCK], padded[BLOCK..];
    assert forall i :: 16 <= i < BLOCK ==> second[i] == Padding(80)[i - 16];
    FirstPadded(first);
    SecondPadded(second);
  }

  /** The digest of the eighty digits. */
  lemma DigestOfDigits()
    ensures Digest(Digits()) ==
            [0x57, 0xed, 0xf4, 0xa2, 0x2b, 0xe3, 0xc9, 0x55, 0xac, 0x49, 0xda, 0x2e, 0x21, 0x07, 0xb6, 0x7a]
  {
    hide Process, HasWords, Padding, ProcessAll, Output, Digits;
    var first, second := DigitsSplit();
    FirstBlock(first);
    SecondBlock(second);
    BothAreBlocks(first, second);
    OneBlockDigest(first, INITIAL);
    OneBlockDigest(second, Process(INITIAL, first));
    ProcessAllSplit(INITIAL, first, second);
    OutputDigits();
  }

  lemma BothAreBlocks(first: seq<Byte>, second: seq<Byte>)
    requires HasWords(first, FIRST_WORDS) && HasWords(second, SECOND_WORDS)
    ensures |first| == |second| == BLOCK
  {
  }
}
