/** The first example of RFC 1321, appendix A.5: the digest of the empty message, step by step. */
module Md5Example {
  import opened Md5Spec
  import opened Md5

  // The initial registers hold these sixteen bytes, low-order bytes first: section 3.3.
  lemma InitialBytes()
    ensures Bytes(INITIAL.a) + Bytes(INITIAL.b) + Bytes(INITIAL.c) + Bytes(INITIAL.d)
         == [0x01, 0x23, 0x45, 0x67, 0x89, 0xab, 0xcd, 0xef, 0xfe, 0xdc, 0xba, 0x98, 0x76, 0x54, 0x32, 0x10]
  {
  }

  // ----- Four steps at a time -----

  lemma Steps1()
    ensures FourSteps(F, F, Regs(0x67452301, 0xefcdab89, 0x98badcfe, 0x10325476),
                      Input(0x80, 0xd76aa478, 7), Input(0, 0xe8c7b756, 12), Input(0, 0x242070db, 17), Input(0, 0xc1bdceee, 22))
         == Regs(0xa5202774, 0x1b163203, 0xe7f06b23, 0xf59592dd)
  {
  }

  lemma Steps2()
    ensures FourSteps(F, F, Regs(0xa5202774, 0x1b163203, 0xe7f06b23, 0xf59592dd),
                      Input(0, 0xf57c0faf, 7), Input(0, 0x4787c62a, 12), Input(0, 0xa8304613, 17), Input(0, 0xfd469501, 22))
         == Regs(0x32033344, 0x9bc13ce9, 0xf5b158db, 0x2f35d494)
  {
  }

  lemma Steps3()
    ensures FourSteps(F, F, Regs(0x32033344, 0x9bc13ce9, 0xf5b158db, 0x2f35d494),
                      Input(0, 0x698098d8, 7), Input(0, 0x8b44f7af, 12), Input(0, 0xffff5bb1, 17), Input(0, 0x895cd7be, 22))
         == Regs(0x3893b991, 0x70768a29, 0xe1ef0576, 0xfce4a312)
  {
  }

  lemma Steps4()
    ensures FourSteps(F, F, Regs(0x3893b991, 0x70768a29, 0xe1ef0576, 0xfce4a312),
                      Input(0, 0x6b901122, 7), Input(0, 0xfd987193, 12), Input(0, 0xa679438e, 17), Input(0, 0x49b40821, 22))
         == Regs(0xf56c7cf1, 0xd6819c6a, 0x5aa53f75, 0x374943a7)
  {
  }

  lemma Steps5()
    ensures FourSteps(G, G, Regs(0xf56c7cf1, 0xd6819c6a, 0x5aa53f75, 0x374943a7),
                      Input(0, 0xf61e2562, 5), Input(0, 0xc040b340, 9), Input(0, 0x265e5a51, 14), Input(0x80, 0xe9b6c7aa, 20))
         == Regs(0x1c7d7513, 0xbd782e17, 0xc095f13a, 0x7bd57a3a)
  {
  }

  lemma Steps6()
    ensures FourSteps(G, G, Regs(0x1c7d7513, 0xbd782e17, 0xc095f13a, 0x7bd57a3a),
                      Input(0, 0xd62f105d, 5), Input(0, 0x02441453, 9), Input(0, 0xd8a1e681, 14), Input(0, 0xe7d3fbc8, 20))
         == Regs(0x3d1e3e6c, 0xe422531a, 0xeb41643e, 0x68b7b3e3)
  {
  }

  lemma Steps7()
    ensures FourSteps(G, G, Regs(0x3d1e3e6c, 0xe422531a, 0xeb41643e, 0x68b7b3e3),
                      Input(0, 0x21e1cde6, 5), Input(0, 0xc33707d6, 9), Input(0, 0xf4d50d87, 14), Input(0, 0x455a14ed, 20))
         == Regs(0x306ec122, 0xa0572807, 0xa3c663da, 0xd28c77c2)
  {
  }

  lemma Steps8()
    ensures FourSteps(G, G, Regs(0x306ec122, 0xa0572807, 0xa3c663da, 0xd28c77c2),
                      Input(0, 0xa9e3e905, 5), Input(0, 0xfcefa3f8, 9), Input(0, 0x676f02d9, 14), Input(0, 0x8d2a4c8a, 20))
         == Regs(0x13707036, 0xa2205f1f, 0x1c31c384, 0xae7813db)
  {
  }

  lemma Steps9()
    ensures FourSteps(H, H2, Regs(0x13707036, 0xa2205f1f, 0x1c31c384, 0xae7813db),
                      Input(0, 0xfffa3942, 4), Input(0, 0x8771f681, 11), Input(0, 0x6d9d6122, 16), Input(0, 0xfde5380c, 23))
         == Regs(0xdf63eaa1, 0x004b6669, 0x12f3e755, 0xc3689f5b)
  {
  }

  lemma Steps10()
    ensures FourSteps(H, H2, Regs(0xdf63eaa1, 0x004b6669, 0x12f3e755, 0xc3689f5b),
                      Input(0, 0xa4beea44, 4), Input(0, 0x4bdecfa9, 11), Input(0, 0xf6bb4b60, 16), Input(0, 0xbebfbc70, 23))
         == Regs(0x5f7a9b2e, 0xc5dc8c15, 0x91ca4cb7, 0xabc34e16)
  {
  }

  lemma Steps11()
    ensures FourSteps(H, H2, Regs(0x5f7a9b2e, 0xc5dc8c15, 0x91ca4cb7, 0xabc34e16),
                      Input(0, 0x289b7ec6, 4), Input(0x80, 0xeaa127fa, 11), Input(0, 0xd4ef3085, 16), Input(0, 0x04881d05, 23))
         == Regs(0x4497169d, 0x0fe32453, 0xfd95f243, 0x76fd93d4)
  {
  }

  lemma Steps12()
    ensures FourSteps(H, H2, Regs(0x4497169d, 0x0fe32453, 0xfd95f243, 0x76fd93d4),
                      Input(0, 0xd9d4d039, 4), Input(0, 0xe6db99e5, 11), Input(0, 0x1fa27cf8, 16), Input(0, 0xc4ac5665, 23))
         == Regs(0x3f55edfd, 0xca7d2dbd, 0x68d84ea2, 0x22a31f54)
  {
  }

  lemma Steps13()
    ensures FourSteps(I, I, Regs(0x3f55edfd, 0xca7d2dbd, 0x68d84ea2, 0x22a31f54),
                      Input(0x80, 0xf4292244, 6), Input(0, 0x432aff97, 10), Input(0, 0xab9423a7, 15), Input(0, 0xfc93a039, 21))
         == Regs(0x93aa2577, 0x561e0689, 0xcd85b8cb, 0x1688dc85)
  {
  }

  lemma Steps14()
    ensures FourSteps(I, I, Regs(0x93aa2577, 0x561e0689, 0xcd85b8cb, 0x1688dc85),
                      Input(0, 0x655b59c3, 6), Input(0, 0x8f0ccc92, 10), Input(0, 0xffeff47d, 15), Input(0, 0x85845dd1, 21))
         == Regs(0x5625a114, 0x1e77fa61, 0x392ad0d0, 0x3450f42b)
  {
  }

  lemma Steps15()
    ensures FourSteps(I, I, Regs(0x5625a114, 0x1e77fa61, 0x392ad0d0, 0x3450f42b),
                      Input(0, 0x6fa87e4f, 6), Input(0, 0xfe2ce6e0, 10), Input(0, 0xa3014314, 15), Input(0, 0x4e0811a1, 21))
         == Regs(0x474a9c8c, 0x30130182, 0x36594b14, 0xdfce00bc)
  {
  }

  lemma Steps16()
    ensures FourSteps(I, I, Regs(0x474a9c8c, 0x30130182, 0x36594b14, 0xdfce00bc),
                      Input(0, 0xf7537e82, 6), Input(0, 0xbd3af235, 10), Input(0, 0x2ad7d2bb, 15), Input(0, 0xeb86d391, 21))
         == Regs(0x7246fad3, 0x14e45506, 0xff4ea3eb, 0x6e10a476)
  {
  }

  // ----- The rounds -----

  // The padded empty message as words.
  ghost predicate Empty(w: seq<bv32>) {
    |w| == 16 && w[0] == 0x80 && forall k :: 0 < k < 16 ==> w[k] == 0
  }

  lemma FirstRound(w: seq<bv32>)
    requires Empty(w)
    ensures Round(Regs(0x67452301, 0xefcdab89, 0x98badcfe, 0x10325476), w, 0) == Regs(0xf56c7cf1, 0xd6819c6a, 0x5aa53f75, 0x374943a7)
  {
    hide FourSteps, Implements, Operations, WordIndex, SineTable, Rotation;
    RoundFunctions();
    Schedule1a();
    Schedule1b();
    var r0 := Regs(0x67452301, 0xefcdab89, 0x98badcfe, 0x10325476);
    NoOperations(r0, w, 0);
    FourOperations(F, F, r0, w, 0, 0);
    Steps1();
    FourOperations(F, F, r0, w, 0, 4);
    Steps2();
    FourOperations(F, F, r0, w, 0, 8);
    Steps3();
    FourOperations(F, F, r0, w, 0, 12);
    Steps4();
  }

  lemma SecondRound(w: seq<bv32>)
    requires Empty(w)
    ensures Round(Regs(0xf56c7cf1, 0xd6819c6a, 0x5aa53f75, 0x374943a7), w, 1) == Regs(0x13707036, 0xa2205f1f, 0x1c31c384, 0xae7813db)
  {
    hide FourSteps, Implements, Operations, WordIndex, SineTable, Rotation;
    RoundFunctions();
    Schedule2a();
    Schedule2b();
    var r0 := Regs(0xf56c7cf1, 0xd6819c6a, 0x5aa53f75, 0x374943a7);
    NoOperations(r0, w, 16);
    FourOperations(G, G, r0, w, 16, 0);
    Steps5();
    FourOperations(G, G, r0, w, 16, 4);
    Steps6();
    FourOperations(G, G, r0, w, 16, 8);
    Steps7();
    FourOperations(G, G, r0, w, 16, 12);
    Steps8();
  }

  lemma ThirdRound(w: seq<bv32>)
    requires Empty(w)
    ensures Round(Regs(0x13707036, 0xa2205f1f, 0x1c31c384, 0xae7813db), w, 2) == Regs(0x3f55edfd, 0xca7d2dbd, 0x68d84ea2, 0x22a31f54)
  {
    hide FourSteps, Implements, Operations, WordIndex, SineTable, Rotation;
    RoundFunctions();
    Schedule3a();
    Schedule3b();
    var r0 := Regs(0x13707036, 0xa2205f1f, 0x1c31c384, 0xae7813db);
    NoOperations(r0, w, 32);
    FourOperations(H, H2, r0, w, 32, 0);
    Steps9();
    FourOperations(H, H2, r0, w, 32, 4);
    Steps10();
    FourOperations(H, H2, r0, w, 32, 8);
    Steps11();
    FourOperations(H, H2, r0, w, 32, 12);
    Steps12();
  }

  lemma FourthRound(w: seq<bv32>)
    requires Empty(w)
    ensures Round(Regs(0x3f55edfd, 0xca7d2dbd, 0x68d84ea2, 0x22a31f54), w, 3) == Regs(0x7246fad3, 0x14e45506, 0xff4ea3eb, 0x6e10a476)
  {
    hide FourSteps, Implements, Operations, WordIndex, SineTable, Rotation;
    RoundFunctions();
    Schedule4a();
    Schedule4b();
    var r0 := Regs(0x3f55edfd, 0xca7d2dbd, 0x68d84ea2, 0x22a31f54);
    NoOperations(r0, w, 48);
    FourOperations(I, I, r0, w, 48, 0);
    Steps13();
    FourOperations(I, I, r0, w, 48, 4);
    Steps14();
    FourOperations(I, I, r0, w, 48, 8);
    Steps15();
    FourOperations(I, I, r0, w, 48, 12);
    Steps16();
  }

  lemma EmptyCompressed(b: seq<bv8>)
    requires |b| == BLOCK && b[0] == 0x80 && forall k :: 0 < k < BLOCK ==> b[k] == 0
    ensures Compress(INITIAL, b) == Regs(0xd98c1dd4, 0x04b2008f, 0x980980e9, 0x7e42f8ec)
  {
    hide Round;
    var w := Words(b);
    EmptyWords(b);
    FirstRound(w);
    SecondRound(w);
    ThirdRound(w);
    FourthRound(w);
  }

  lemma EmptyWords(b: seq<bv8>)
    requires |b| == BLOCK && b[0] == 0x80 && forall k :: 0 < k < BLOCK ==> b[k] == 0
    ensures Empty(Words(b))
  {
  }

  lemma EmptyDigest()
    ensures Digest([]) == [0xd4, 0x1d, 0x8c, 0xd9, 0x8f, 0x00, 0xb2, 0x04, 0xe9, 0x80, 0x09, 0x98, 0xec, 0xf8, 0x42, 0x7e]
  {
    hide Fold, Compress, INITIAL;
    var b := Pad([]);
    FoldOfBlock(INITIAL, b);
    EmptyCompressed(b);
  }
}
