/** The incremental MD5 implementation: a context that absorbs a message in pieces of any size. */
module Md5 {
  import opened Arithmetic
  import opened Md5Spec

  // ----- The basic functions, in the forms that need no AND-NOT -----

  // Choosing y where x has a one and z where it has a zero.
  lemma Selection(x: bv32, y: bv32, z: bv32)
    ensures z ^ (x & (y ^ z)) == (x & y) | (!x & z)
    ensures z ^ (x & (y ^ z)) == (y & x) | (z & !x)
  {
  }

  function F(x: bv32, y: bv32, z: bv32): (r: bv32)
    ensures r == AuxF(x, y, z)
  {
    Selection(x, y, z);
    z ^ (x & (y ^ z))
  }

  function G(x: bv32, y: bv32, z: bv32): (r: bv32)
    ensures r == AuxG(x, y, z)
  {
    Selection(z, x, y);
    y ^ (z & (x ^ y))
  }

  function H(x: bv32, y: bv32, z: bv32): (r: bv32)
    ensures r == AuxH(x, y, z)
  {
    (x ^ y) ^ z
  }

  function H2(x: bv32, y: bv32, z: bv32): (r: bv32)
    ensures r == AuxH(x, y, z)
  {
    x ^ (y ^ z)
  }

  function I(x: bv32, y: bv32, z: bv32): (r: bv32)
    ensures r == AuxI(x, y, z)
  {
    y ^ (x | !z)
  }

  // Four consecutive STEPs: the register roles rotate and come back to their places.
  function FourSteps(f: (bv32, bv32, bv32) -> bv32, g: (bv32, bv32, bv32) -> bv32, r: Regs,
                     o0: Input, o1: Input, o2: Input, o3: Input): Regs
    requires 0 < o0.s < 32 && 0 < o1.s < 32 && 0 < o2.s < 32 && 0 < o3.s < 32
  {
    var a := Mix(f(r.b, r.c, r.d), r.a, r.b, o0);
    var d := Mix(g(a, r.b, r.c), r.d, a, o1);
    var c := Mix(f(d, a, r.b), r.c, d, o2);
    var b := Mix(g(c, d, a), r.b, c, o3);
    Regs(a, b, c, d)
  }

  // f is the auxiliary function of the round that starts with operation i.
  ghost predicate Implements(f: (bv32, bv32, bv32) -> bv32, i: nat) {
    forall k, x, y, z :: i <= k < i + 16 ==> f(x, y, z) == Auxiliary(k, x, y, z)
  }

  lemma RoundFunctions()
    ensures Implements(F, 0) && Implements(G, 16) && Implements(H, 32) && Implements(H2, 32) && Implements(I, 48)
  {
    hide F, G, H, H2, I, AuxF, AuxG, AuxH, AuxI;
  }

  // The registers after four more operations of a round.
  lemma FourOperations(f: (bv32, bv32, bv32) -> bv32, g: (bv32, bv32, bv32) -> bv32, r0: Regs, w: seq<bv32>, i: nat, n: nat)
    requires |w| == 16 && n + 4 <= 16 && i + 16 <= 64 && Implements(f, i) && Implements(g, i)
    ensures var j := i + n;
            Operations(r0, w, i, n + 4) == FourSteps(f, g, Operations(r0, w, i, n), InputAt(w, j), InputAt(w, j + 1),
                                                     InputAt(w, j + 2), InputAt(w, j + 3))
  {
    hide Mix, Auxiliary, InputAt;
    assert Operations(r0, w, i, n + 2) == Operation(Operation(Operations(r0, w, i, n), w, i + n), w, i + n + 1);
  }

  lemma NoOperations(r0: Regs, w: seq<bv32>, i: nat)
    requires |w| == 16 && i <= 64
    ensures Operations(r0, w, i, 0) == r0
  {
  }

  // ----- The four rounds; each line names the word it reads, its constant and its rotation -----

  lemma Schedule1a()
    ensures WordIndex(0) == 0 && SineTable(0) == 0xd76aa478 && Rotation(0) == 7
    ensures WordIndex(1) == 1 && SineTable(1) == 0xe8c7b756 && Rotation(1) == 12
    ensures WordIndex(2) == 2 && SineTable(2) == 0x242070db && Rotation(2) == 17
    ensures WordIndex(3) == 3 && SineTable(3) == 0xc1bdceee && Rotation(3) == 22
    ensures WordIndex(4) == 4 && SineTable(4) == 0xf57c0faf && Rotation(4) == 7
    ensures WordIndex(5) == 5 && SineTable(5) == 0x4787c62a && Rotation(5) == 12
    ensures WordIndex(6) == 6 && SineTable(6) == 0xa8304613 && Rotation(6) == 17
    ensures WordIndex(7) == 7 && SineTable(7) == 0xfd469501 && Rotation(7) == 22
  {
  }

  lemma Schedule1b()
    ensures WordIndex(8) == 8 && SineTable(8) == 0x698098d8 && Rotation(8) == 7
    ensures WordIndex(9) == 9 && SineTable(9) == 0x8b44f7af && Rotation(9) == 12
    ensures WordIndex(10) == 10 && SineTable(10) == 0xffff5bb1 && Rotation(10) == 17
    ensures WordIndex(11) == 11 && SineTable(11) == 0x895cd7be && Rotation(11) == 22
    ensures WordIndex(12) == 12 && SineTable(12) == 0x6b901122 && Rotation(12) == 7
    ensures WordIndex(13) == 13 && SineTable(13) == 0xfd987193 && Rotation(13) == 12
    ensures WordIndex(14) == 14 && SineTable(14) == 0xa679438e && Rotation(14) == 17
    ensures WordIndex(15) == 15 && SineTable(15) == 0x49b40821 && Rotation(15) == 22
  {
  }

  method Round1FirstHalf(r0: Regs, w: seq<bv32>) returns (r: Regs)
    requires |w| == 16
    ensures r == Operations(r0, w, 0, 8)
  {
    hide FourSteps, Implements, Operations, WordIndex, SineTable, Rotation;
    RoundFunctions();
    Schedule1a();
    NoOperations(r0, w, 0);
    r := r0;
    FourOperations(F, F, r0, w, 0, 0);
    r := FourSteps(F, F, r, Input(w[0], 0xd76aa478, 7), Input(w[1], 0xe8c7b756, 12),
                   Input(w[2], 0x242070db, 17), Input(w[3], 0xc1bdceee, 22));
    FourOperations(F, F, r0, w, 0, 4);
    r := FourSteps(F, F, r, Input(w[4], 0xf57c0faf, 7), Input(w[5], 0x4787c62a, 12),
                   Input(w[6], 0xa8304613, 17), Input(w[7], 0xfd469501, 22));
  }

  method Round1SecondHalf(ghost r0: Regs, r8: Regs, w: seq<bv32>) returns (r: Regs)
    requires |w| == 16 && r8 == Operations(r0, w, 0, 8)
    ensures r == Round(r0, w, 0)
  {
    hide FourSteps, Implements, Operations, WordIndex, SineTable, Rotation;
    RoundFunctions();
    Schedule1b();
    r := r8;
    FourOperations(F, F, r0, w, 0, 8);
    r := FourSteps(F, F, r, Input(w[8], 0x698098d8, 7), Input(w[9], 0x8b44f7af, 12),
                   Input(w[10], 0xffff5bb1, 17), Input(w[11], 0x895cd7be, 22));
    FourOperations(F, F, r0, w, 0, 12);
    r := FourSteps(F, F, r, Input(w[12], 0x6b901122, 7), Input(w[13], 0xfd987193, 12),
                   Input(w[14], 0xa679438e, 17), Input(w[15], 0x49b40821, 22));
  }

  method Round1(r0: Regs, w: seq<bv32>) returns (r: Regs)
    requires |w| == 16
    ensures r == Round(r0, w, 0)
  {
    r := Round1FirstHalf(r0, w);
    r := Round1SecondHalf(r0, r, w);
  }

  lemma Schedule2a()
    ensures WordIndex(16) == 1 && SineTable(16) == 0xf61e2562 && Rotation(16) == 5
    ensures WordIndex(17) == 6 && SineTable(17) == 0xc040b340 && Rotation(17) == 9
    ensures WordIndex(18) == 11 && SineTable(18) == 0x265e5a51 && Rotation(18) == 14
    ensures WordIndex(19) == 0 && SineTable(19) == 0xe9b6c7aa && Rotation(19) == 20
    ensures WordIndex(20) == 5 && SineTable(20) == 0xd62f105d && Rotation(20) == 5
    ensures WordIndex(21) == 10 && SineTable(21) == 0x02441453 && Rotation(21) == 9
    ensures WordIndex(22) == 15 && SineTable(22) == 0xd8a1e681 && Rotation(22) == 14
    ensures WordIndex(23) == 4 && SineTable(23) == 0xe7d3fbc8 && Rotation(23) == 20
  {
  }

  lemma Schedule2b()
    ensures WordIndex(24) == 9 && SineTable(24) == 0x21e1cde6 && Rotation(24) == 5
    ensures WordIndex(25) == 14 && SineTable(25) == 0xc33707d6 && Rotation(25) == 9
    ensures WordIndex(26) == 3 && SineTable(26) == 0xf4d50d87 && Rotation(26) == 14
    ensures WordIndex(27) == 8 && SineTable(27) == 0x455a14ed && Rotation(27) == 20
    ensures WordIndex(28) == 13 && SineTable(28) == 0xa9e3e905 && Rotation(28) == 5
    ensures WordIndex(29) == 2 && SineTable(29) == 0xfcefa3f8 && Rotation(29) == 9
    ensures WordIndex(30) == 7 && SineTable(30) == 0x676f02d9 && Rotation(30) == 14
    ensures WordIndex(31) == 12 && SineTable(31) == 0x8d2a4c8a && Rotation(31) == 20
  {
  }

  method Round2FirstHalf(r0: Regs, w: seq<bv32>) returns (r: Regs)
    requires |w| == 16
    ensures r == Operations(r0, w, 16, 8)
  {
    hide FourSteps, Implements, Operations, WordIndex, SineTable, Rotation;
    RoundFunctions();
    Schedule2a();
    NoOperations(r0, w, 16);
    r := r0;
    FourOperations(G, G, r0, w, 16, 0);
    r := FourSteps(G, G, r, Input(w[1], 0xf61e2562, 5), Input(w[6], 0xc040b340, 9),
                   Input(w[11], 0x265e5a51, 14), Input(w[0], 0xe9b6c7aa, 20));
    FourOperations(G, G, r0, w, 16, 4);
    r := FourSteps(G, G, r, Input(w[5], 0xd62f105d, 5), Input(w[10], 0x02441453, 9),
                   Input(w[15], 0xd8a1e681, 14), Input(w[4], 0xe7d3fbc8, 20));
  }

  method Round2SecondHalf(ghost r0: Regs, r8: Regs, w: seq<bv32>) returns (r: Regs)
    requires |w| == 16 && r8 == Operations(r0, w, 16, 8)
    ensures r == Round(r0, w, 1)
  {
    hide FourSteps, Implements, Operations, WordIndex, SineTable, Rotation;
    RoundFunctions();
    Schedule2b();
    r := r8;
    FourOperations(G, G, r0, w, 16, 8);
    r := FourSteps(G, G, r, Input(w[9], 0x21e1cde6, 5), Input(w[14], 0xc33707d6, 9),
                   Input(w[3], 0xf4d50d87, 14), Input(w[8], 0x455a14ed, 20));
    FourOperations(G, G, r0, w, 16, 12);
    r := FourSteps(G, G, r, Input(w[13], 0xa9e3e905, 5), Input(w[2], 0xfcefa3f8, 9),
                   Input(w[7], 0x676f02d9, 14), Input(w[12], 0x8d2a4c8a, 20));
  }

  method Round2(r0: Regs, w: seq<bv32>) returns (r: Regs)
    requires |w| == 16
    ensures r == Round(r0, w, 1)
  {
    r := Round2FirstHalf(r0, w);
    r := Round2SecondHalf(r0, r, w);
  }

  lemma Schedule3a()
    ensures WordIndex(32) == 5 && SineTable(32) == 0xfffa3942 && Rotation(32) == 4
    ensures WordIndex(33) == 8 && SineTable(33) == 0x8771f681 && Rotation(33) == 11
    ensures WordIndex(34) == 11 && SineTable(34) == 0x6d9d6122 && Rotation(34) == 16
    ensures WordIndex(35) == 14 && SineTable(35) == 0xfde5380c && Rotation(35) == 23
    ensures WordIndex(36) == 1 && SineTable(36) == 0xa4beea44 && Rotation(36) == 4
    ensures WordIndex(37) == 4 && SineTable(37) == 0x4bdecfa9 && Rotation(37) == 11
    ensures WordIndex(38) == 7 && SineTable(38) == 0xf6bb4b60 && Rotation(38) == 16
    ensures WordIndex(39) == 10 && SineTable(39) == 0xbebfbc70 && Rotation(39) == 23
  {
  }

  lemma Schedule3b()
    ensures WordIndex(40) == 13 && SineTable(40) == 0x289b7ec6 && Rotation(40) == 4
    ensures WordIndex(41) == 0 && SineTable(41) == 0xeaa127fa && Rotation(41) == 11
    ensures WordIndex(42) == 3 && SineTable(42) == 0xd4ef3085 && Rotation(42) == 16
    ensures WordIndex(43) == 6 && SineTable(43) == 0x04881d05 && Rotation(43) == 23
    ensures WordIndex(44) == 9 && SineTable(44) == 0xd9d4d039 && Rotation(44) == 4
    ensures WordIndex(45) == 12 && SineTable(45) == 0xe6db99e5 && Rotation(45) == 11
    ensures WordIndex(46) == 15 && SineTable(46) == 0x1fa27cf8 && Rotation(46) == 16
    ensures WordIndex(47) == 2 && SineTable(47) == 0xc4ac5665 && Rotation(47) == 23
  {
  }

  method Round3FirstHalf(r0: Regs, w: seq<bv32>) returns (r: Regs)
    requires |w| == 16
    ensures r == Operations(r0, w, 32, 8)
  {
    hide FourSteps, Implements, Operations, WordIndex, SineTable, Rotation;
    RoundFunctions();
    Schedule3a();
    NoOperations(r0, w, 32);
    r := r0;
    FourOperations(H, H2, r0, w, 32, 0);
    r := FourSteps(H, H2, r, Input(w[5], 0xfffa3942, 4), Input(w[8], 0x8771f681, 11),
                   Input(w[11], 0x6d9d6122, 16), Input(w[14], 0xfde5380c, 23));
    FourOperations(H, H2, r0, w, 32, 4);
    r := FourSteps(H, H2, r, Input(w[1], 0xa4beea44, 4), Input(w[4], 0x4bdecfa9, 11),
                   Input(w[7], 0xf6bb4b60, 16), Input(w[10], 0xbebfbc70, 23));
  }

  method Round3SecondHalf(ghost r0: Regs, r8: Regs, w: seq<bv32>) returns (r: Regs)
    requires |w| == 16 && r8 == Operations(r0, w, 32, 8)
    ensures r == Round(r0, w, 2)
  {
    hide FourSteps, Implements, Operations, WordIndex, SineTable, Rotation;
    RoundFunctions();
    Schedule3b();
    r := r8;
    FourOperations(H, H2, r0, w, 32, 8);
    r := FourSteps(H, H2, r, Input(w[13], 0x289b7ec6, 4), Input(w[0], 0xeaa127fa, 11),
                   Input(w[3], 0xd4ef3085, 16), Input(w[6], 0x04881d05, 23));
    FourOperations(H, H2, r0, w, 32, 12);
    r := FourSteps(H, H2, r, Input(w[9], 0xd9d4d039, 4), Input(w[12], 0xe6db99e5, 11),
                   Input(w[15], 0x1fa27cf8, 16), Input(w[2], 0xc4ac5665, 23));
  }

  method Round3(r0: Regs, w: seq<bv32>) returns (r: Regs)
    requires |w| == 16
    ensures r == Round(r0, w, 2)
  {
    r := Round3FirstHalf(r0, w);
    r := Round3SecondHalf(r0, r, w);
  }

  lemma Schedule4a()
    ensures WordIndex(48) == 0 && SineTable(48) == 0xf4292244 && Rotation(48) == 6
    ensures WordIndex(49) == 7 && SineTable(49) == 0x432aff97 && Rotation(49) == 10
    ensures WordIndex(50) == 14 && SineTable(50) == 0xab9423a7 && Rotation(50) == 15
    ensures WordIndex(51) == 5 && SineTable(51) == 0xfc93a039 && Rotation(51) == 21
    ensures WordIndex(52) == 12 && SineTable(52) == 0x655b59c3 && Rotation(52) == 6
    ensures WordIndex(53) == 3 && SineTable(53) == 0x8f0ccc92 && Rotation(53) == 10
    ensures WordIndex(54) == 10 && SineTable(54) == 0xffeff47d && Rotation(54) == 15
    ensures WordIndex(55) == 1 && SineTable(55) == 0x85845dd1 && Rotation(55) == 21
  {
  }

  lemma Schedule4b()
    ensures WordIndex(56) == 8 && SineTable(56) == 0x6fa87e4f && Rotation(56) == 6
    ensures WordIndex(57) == 15 && SineTable(57) == 0xfe2ce6e0 && Rotation(57) == 10
    ensures WordIndex(58) == 6 && SineTable(58) == 0xa3014314 && Rotation(58) == 15
    ensures WordIndex(59) == 13 && SineTable(59) == 0x4e0811a1 && Rotation(59) == 21
    ensures WordIndex(60) == 4 && SineTable(60) == 0xf7537e82 && Rotation(60) == 6
    ensures WordIndex(61) == 11 && SineTable(61) == 0xbd3af235 && Rotation(61) == 10
    ensures WordIndex(62) == 2 && SineTable(62) == 0x2ad7d2bb && Rotation(62) == 15
    ensures WordIndex(63) == 9 && SineTable(63) == 0xeb86d391 && Rotation(63) == 21
  {
  }

  method Round4FirstHalf(r0: Regs, w: seq<bv32>) returns (r: Regs)
    requires |w| == 16
    ensures r == Operations(r0, w, 48, 8)
  {
    hide FourSteps, Implements, Operations, WordIndex, SineTable, Rotation;
    RoundFunctions();
    Schedule4a();
    NoOperations(r0, w, 48);
    r := r0;
    FourOperations(I, I, r0, w, 48, 0);
    r := FourSteps(I, I, r, Input(w[0], 0xf4292244, 6), Input(w[7], 0x432aff97, 10),
                   Input(w[14], 0xab9423a7, 15), Input(w[5], 0xfc93a039, 21));
    FourOperations(I, I, r0, w, 48, 4);
    r := FourSteps(I, I, r, Input(w[12], 0x655b59c3, 6), Input(w[3], 0x8f0ccc92, 10),
                   Input(w[10], 0xffeff47d, 15), Input(w[1], 0x85845dd1, 21));
  }

  method Round4SecondHalf(ghost r0: Regs, r8: Regs, w: seq<bv32>) returns (r: Regs)
    requires |w| == 16 && r8 == Operations(r0, w, 48, 8)
    ensures r == Round(r0, w, 3)
  {
    hide FourSteps, Implements, Operations, WordIndex, SineTable, Rotation;
    RoundFunctions();
    Schedule4b();
    r := r8;
    FourOperations(I, I, r0, w, 48, 8);
    r := FourSteps(I, I, r, Input(w[8], 0x6fa87e4f, 6), Input(w[15], 0xfe2ce6e0, 10),
                   Input(w[6], 0xa3014314, 15), Input(w[13], 0x4e0811a1, 21));
    FourOperations(I, I, r0, w, 48, 12);
    r := FourSteps(I, I, r, Input(w[4], 0xf7537e82, 6), Input(w[11], 0xbd3af235, 10),
                   Input(w[2], 0x2ad7d2bb, 15), Input(w[9], 0xeb86d391, 21));
  }

  method Round4(r0: Regs, w: seq<bv32>) returns (r: Regs)
    requires |w| == 16
    ensures r == Round(r0, w, 3)
  {
    r := Round4FirstHalf(r0, w);
    r := Round4SecondHalf(r0, r, w);
  }

  // The do-while loop: one or more whole blocks of data, starting at off.
  method Body(regs: Regs, data: array<bv8>, off: nat, size: nat) returns (r: Regs)
    requires 0 < size && size % BLOCK == 0 && off + size <= data.Length
    ensures r == Fold(regs, data[off..off + size])
  {
    hide Fold, Compress;
    r := regs;
    var ptr, left := off, size;
    ghost var done: seq<bv8> := [];
    FoldOfPart(r, done);
    while true
      invariant off <= ptr && 0 < left && left % BLOCK == 0 && ptr + left == off + size
      invariant done == data[off..ptr] && |done| % BLOCK == 0
      invariant r == Fold(regs, done)
      decreases left
    {
      ghost var block := data[ptr..ptr + BLOCK];
      FoldOfBlock(r, block);
      FoldSplits(regs, done, block);
      r := OneBlock(r, data, ptr);
      assert done + block == data[off..ptr + BLOCK];
      done := done + block;
      ptr := ptr + BLOCK;
      left := left - BLOCK;
      if left == 0 {
        break;
      }
    }
  }

  // The body of that loop.
  method OneBlock(saved: Regs, data: array<bv8>, ptr: nat) returns (r: Regs)
    requires ptr + BLOCK <= data.Length
    ensures r == Compress(saved, data[ptr..ptr + BLOCK])
  {
    hide Round, Words, Plus;
    var w := LoadWords(data, ptr);
    r := Round1(saved, w);
    r := Round2(r, w);
    r := Round3(r, w);
    r := Round4(r, w);
    r := Regs(Plus(r.a, saved.a), Plus(r.b, saved.b), Plus(r.c, saved.c), Plus(r.d, saved.d));
  }

  lemma FoldOfPart(r: Regs, m: seq<bv8>)
    requires |m| < BLOCK
    ensures Fold(r, m) == r
  {
  }

  // The words SET stores, read low-order byte first.
  method LoadWords(data: array<bv8>, ptr: nat) returns (w: seq<bv32>)
    requires ptr + BLOCK <= data.Length
    ensures w == Words(data[ptr..ptr + BLOCK])
  {
    w := [];
    for n := 0 to 16
      invariant |w| == n && forall k :: 0 <= k < n ==> w[k] == Words(data[ptr..ptr + BLOCK])[k]
    {
      w := w + [data[ptr + 4 * n] as bv32 | (data[ptr + 4 * n + 1] as bv32 << 8) |
                (data[ptr + 4 * n + 2] as bv32 << 16) | (data[ptr + 4 * n + 3] as bv32 << 24)];
    }
  }

  // ----- The context -----

  const LO_RANGE := 0x2000_0000
  const HI_RANGE := 0x1_0000_0000

  // The bytes of a message after its last whole block.
  function Tail(m: seq<bv8>): seq<bv8> {
    m[|m| - |m| % BLOCK..]
  }

  // The byte counter is split at bit 29: adding size to lo carries into hi exactly when lo wraps.
  lemma CounterCarries(n: nat, size: nat, lo: nat, hi: nat)
    requires lo == n % LO_RANGE && hi == n / LO_RANGE % HI_RANGE
    ensures var lo' := (lo + size) % LO_RANGE;
            var hi' := if lo' < lo then (hi + 1) % HI_RANGE else hi;
            lo' == (n + size) % LO_RANGE && (hi' + size / LO_RANGE) % HI_RANGE == (n + size) / LO_RANGE % HI_RANGE
  {
    var q, p, s := n / LO_RANGE, size / LO_RANGE, size % LO_RANGE;
    if lo + s < LO_RANGE {
      DivModUnique(lo + size, LO_RANGE, p, lo + s);
      DivModUnique(n + size, LO_RANGE, q + p, lo + s);
      HighSum(q, p);
    } else {
      DivModUnique(lo + size, LO_RANGE, p + 1, lo + s - LO_RANGE);
      DivModUnique(n + size, LO_RANGE, q + p + 1, lo + s - LO_RANGE);
      HighSum(q, 1);
      HighSum(q + 1, p);
    }
  }

  lemma HighSum(a: nat, b: nat)
    ensures (a % HI_RANGE + b) % HI_RANGE == (a + b) % HI_RANGE
  {
    var c := a % HI_RANGE + b;
    DivModUnique(a + b, HI_RANGE, a / HI_RANGE + c / HI_RANGE, c % HI_RANGE);
  }

  // The low six bits of the counter are the fill of the buffer.
  lemma LowBits(n: nat)
    ensures n % LO_RANGE % BLOCK == n % BLOCK
  {
    assert n == LO_RANGE * (n / LO_RANGE) + n % LO_RANGE;
  }

  lemma BlockArithmetic(n: nat, k: nat)
    ensures (n - n % BLOCK) % BLOCK == 0
    ensures n % BLOCK + k < BLOCK ==> (n + k) % BLOCK == n % BLOCK + k
    ensures n % BLOCK + k == BLOCK ==> (n + k) % BLOCK == 0
    ensures n % BLOCK == 0 ==> (n + k) % BLOCK == k % BLOCK
  {
    var q, r := n / BLOCK, n % BLOCK;
    DivModUnique(n - r, BLOCK, q, 0);
    if r + k < BLOCK {
      DivModUnique(n + k, BLOCK, q, r + k);
    } else if r + k == BLOCK {
      DivModUnique(n + k, BLOCK, q + 1, 0);
    }
    if r == 0 {
      DivModUnique(n + k, BLOCK, q + k / BLOCK, k % BLOCK);
    }
  }

  lemma SplitAtTail(r: Regs, m: seq<bv8>, head: seq<bv8>)
    requires head == m[..|m| - |m| % BLOCK]
    ensures |head| % BLOCK == 0 && |Tail(m)| == |m| % BLOCK && m == head + Tail(m)
    ensures Fold(r, m) == Fold(r, head)
  {
    hide Fold;
    BlockArithmetic(|m|, 0);
    FoldSplits(r, head, Tail(m));
    FoldOfPart(Fold(r, head), Tail(m));
  }

  // Bytes that leave the last block incomplete change nothing but the tail.
  lemma AppendToTail(r: Regs, m: seq<bv8>, d: seq<bv8>)
    requires |m| % BLOCK + |d| < BLOCK
    ensures Fold(r, m + d) == Fold(r, m)
    ensures Tail(m + d) == Tail(m) + d && |m + d| % BLOCK == |m| % BLOCK + |d|
  {
    hide Fold;
    BlockArithmetic(|m|, |d|);
    var k := |m| - |m| % BLOCK;
    SplitAtTail(r, m, m[..k]);
    assert (m + d)[..k] == m[..k];
    assert |m + d| - |m + d| % BLOCK == k;
    assert (m + d)[k..] == m[k..] + d;
    SplitAtTail(r, m + d, m[..k]);
  }

  // Bytes that complete the last block: it is the old tail followed by them.
  lemma CompleteTail(r: Regs, m: seq<bv8>, x: seq<bv8>)
    requires |m| % BLOCK + |x| == BLOCK
    ensures |m + x| % BLOCK == 0 && |Tail(m)| == |m| % BLOCK
    ensures Fold(r, m + x) == Fold(Fold(r, m), Tail(m) + x)
  {
    hide Fold, Tail;
    BlockArithmetic(|m|, |x|);
    var head := m[..|m| - |m| % BLOCK];
    SplitAtTail(r, m, head);
    FoldSplits(r, head, Tail(m) + x);
    assert m + x == head + (Tail(m) + x);
  }

  lemma TailOfAligned(m: seq<bv8>, d: seq<bv8>)
    requires |m| % BLOCK == 0
    ensures Tail(m + d) == Tail(d) && |m + d| % BLOCK == |d| % BLOCK
  {
    BlockArithmetic(|m|, |d|);
  }

  method Copy(dst: array<bv8>, at: nat, src: array<bv8>, from: nat, n: nat)
    requires at + n <= dst.Length && from + n <= src.Length && src != dst
    modifies dst
    ensures dst[..] == old(dst[..at]) + src[from..from + n] + old(dst[at + n..])
  {
    forall i | 0 <= i < n {
      dst[at + i] := src[from + i];
    }
  }

  method Fill(dst: array<bv8>, at: nat, n: nat)
    requires at + n <= dst.Length
    modifies dst
    ensures dst[..] == old(dst[..at]) + Zeros(n) + old(dst[at + n..])
  {
    forall i | 0 <= i < n {
      dst[at + i] := 0;
    }
  }

  // Four bytes of a register, low-order byte first.
  method StoreRegister(dst: array<bv8>, at: nat, w: bv32)
    requires at + 4 <= dst.Length
    modifies dst
    ensures dst[..] == old(dst[..at]) + Bytes(w) + old(dst[at + 4..])
  {
    dst[at] := (w & 0xff) as bv8;
    dst[at + 1] := ((w >> 8) & 0xff) as bv8;
    dst[at + 2] := ((w >> 16) & 0xff) as bv8;
    dst[at + 3] := ((w >> 24) & 0xff) as bv8;
  }

  // The padded message ends in one block if the length field still fits behind the marker ...
  lemma PaddedEndInOne(m: seq<bv8>, u: nat)
    requires u == |m| % BLOCK && u <= 55
    ensures Fold(INITIAL, Pad(m)) == Fold(Fold(INITIAL, m), Tail(m) + [0x80] + Zeros(55 - u) + BitCount(|m|))
  {
    hide Fold, BitCount, Tail, Zeros, Pad;
    var head := m[..|m| - u];
    SplitAtTail(INITIAL, m, head);
    PadFromTail(m, head);
    FoldSplits(INITIAL, head, Tail(m) + [0x80] + Zeros(55 - u) + BitCount(|m|));
  }

  // ... and in two if it does not.
  lemma PaddedEndInTwo(m: seq<bv8>, u: nat)
    requires u == |m| % BLOCK && u > 55
    ensures Fold(INITIAL, Pad(m))
         == Fold(Fold(Fold(INITIAL, m), Tail(m) + [0x80] + Zeros(63 - u)), Zeros(56) + BitCount(|m|))
  {
    hide Fold, BitCount, Tail, Zeros, Pad;
    var head := m[..|m| - u];
    SplitAtTail(INITIAL, m, head);
    PadFromTail(m, head);
    var first, second := Tail(m) + [0x80] + Zeros(63 - u), Zeros(56) + BitCount(|m|);
    TwoBlocks(Tail(m) + [0x80], 63 - u, BitCount(|m|));
    FoldSplits(INITIAL, head, first + second);
    FoldSplits(Fold(INITIAL, head), first, second);
  }

  lemma TwoBlocks(kept: seq<bv8>, n: nat, length: seq<bv8>)
    ensures kept + Zeros(n + 56) + length == (kept + Zeros(n)) + (Zeros(56) + length)
  {
    hide Zeros;
    ZerosAdd(n, 56);
  }

  lemma PadFromTail(m: seq<bv8>, head: seq<bv8>)
    requires m == head + Tail(m)
    ensures var u := |m| % BLOCK;
            Pad(m) == head + (Tail(m) + [0x80] + Zeros(if u <= 55 then 55 - u else 119 - u) + BitCount(|m|))
  {
    hide BitCount, Tail, Zeros;
    var u := |m| % BLOCK;
    assert (119 - u) % BLOCK == if u <= 55 then 55 - u else 119 - u;
  }

  lemma ZerosAdd(a: nat, b: nat)
    ensures Zeros(a + b) == Zeros(a) + Zeros(b)
  {
  }

  class Md5Ctx {
    var lo: nat
    var hi: nat
    var regs: Regs
    const buffer: array<bv8>

    // hi * 2^29 + lo is the byte count modulo 2^61.
    ghost predicate Counted(n: nat)
      reads this
    {
      lo == n % LO_RANGE && hi == n / LO_RANGE % HI_RANGE
    }

    // The registers have folded the whole blocks of m and the buffer starts with the rest.
    ghost predicate Holds(m: seq<bv8>)
      reads this, buffer
    {
      buffer.Length == BLOCK && regs == Fold(INITIAL, m) && buffer[..|m| % BLOCK] == Tail(m)
    }

    ghost predicate Absorbed(m: seq<bv8>)
      reads this, buffer
    {
      Counted(|m|) && Holds(m)
    }

    constructor Init()
      ensures Absorbed([]) && fresh(buffer)
    {
      regs := Regs(0x67452301, 0xefcdab89, 0x98badcfe, 0x10325476);
      lo := 0;
      hi := 0;
      buffer := new bv8[BLOCK];
    }

    // hi * 2^29 + lo goes up by size.
    method Count(size: nat, ghost n: nat)
      requires Counted(n)
      modifies this`lo, this`hi
      ensures Counted(n + size)
    {
      CounterCarries(n, size, lo, hi);
      var savedLo := lo;
      lo := (savedLo + size) % LO_RANGE;
      if lo < savedLo {
        hi := (hi + 1) % HI_RANGE;
      }
      hi := (hi + size / LO_RANGE) % HI_RANGE;
    }

    // The part of Update that starts from an empty buffer: whole blocks, then the rest. The data
    // from from on is what follows the prefix m, already folded.
    method AbsorbAligned(data: array<bv8>, from: nat, size: nat, ghost m: seq<bv8>)
      requires buffer.Length == BLOCK && from + size <= data.Length && data != buffer
      requires |m| % BLOCK == 0 && regs == Fold(INITIAL, m)
      modifies this`regs, buffer
      ensures regs == Fold(INITIAL, m + data[from..from + size])
      ensures buffer[..size % BLOCK] == Tail(data[from..from + size])
    {
      hide Fold, Tail;
      ghost var d := data[from..from + size];
      TailCut(d, size - size % BLOCK);
      var at, left := from, size;
      ghost var whole: seq<bv8> := [];
      if left >= BLOCK {
        var n := size - size % BLOCK;
        whole := data[from..from + n];
        regs := Body(regs, data, from, n);
        at, left := from + n, size % BLOCK;
      } else {
        FoldOfPart(regs, whole);
      }
      Copy(buffer, 0, data, at, left);
      ghost var rest := data[at..at + left];
      assert d == whole + rest && rest == Tail(d);
      FoldAligned(m, whole, rest);
    }

    lemma TailCut(d: seq<bv8>, n: nat)
      requires n == |d| - |d| % BLOCK
      ensures n % BLOCK == 0 && d == d[..n] + d[n..] && Tail(d) == d[n..]
    {
      BlockArithmetic(|d|, 0);
    }

    // Folding an aligned message, whole blocks and a part of one.
    lemma FoldAligned(m: seq<bv8>, whole: seq<bv8>, rest: seq<bv8>)
      requires |m| % BLOCK == 0 && |whole| % BLOCK == 0 && |rest| < BLOCK
      ensures Fold(INITIAL, m + (whole + rest)) == Fold(Fold(INITIAL, m), whole)
    {
      hide Fold;
      FoldSplits(INITIAL, m, whole + rest);
      FoldSplits(Fold(INITIAL, m), whole, rest);
      FoldOfPart(Fold(Fold(INITIAL, m), whole), rest);
    }

    // The part of Update for a buffer that is in use.
    method AbsorbBuffered(data: array<bv8>, size: nat, used: nat, ghost m: seq<bv8>)
      requires Holds(m) && size <= data.Length && data != buffer && 0 < used == |m| % BLOCK
      modifies this`regs, buffer
      ensures Holds(m + data[..size])
    {
      hide Fold, Tail;
      ghost var d := data[..size];
      var available := BLOCK - used;
      if size < available {
        assert data[0..size] == d;
        AppendToTail(INITIAL, m, d);
        Copy(buffer, used, data, 0, size);
        return;
      }
      ghost var x := data[0..available];
      Copy(buffer, used, data, 0, available);
      CompleteTail(INITIAL, m, x);
      assert buffer[0..BLOCK] == Tail(m) + x;
      regs := Body(regs, buffer, 0, BLOCK);
      ghost var rest := data[available..size];
      AbsorbAligned(data, available, size - available, m + x);
      assert m + d == (m + x) + rest;
      TailOfAligned(m + x, rest);
    }

    method Update(data: array<bv8>, size: nat, ghost m: seq<bv8>)
      requires Absorbed(m) && size <= data.Length && data != buffer
      modifies this, buffer
      ensures Absorbed(m + data[..size])
    {
      hide Fold, Tail;
      LowBits(|m|);
      var used := lo % BLOCK;
      Count(size, |m|);
      if used > 0 {
        AbsorbBuffered(data, size, used, m);
      } else {
        assert data[0..0 + size] == data[..size];
        AbsorbAligned(data, 0, size, m);
        TailOfAligned(m, data[..size]);
      }
    }

    // Four bytes of a 32-bit value, low-order byte first.
    method StoreWord(at: nat, v: nat)
      requires at + 4 <= buffer.Length
      modifies buffer
      ensures buffer[..] == old(buffer[..at]) + WordBytes(v) + old(buffer[at + 4..])
    {
      hide ByteAt;
      buffer[at] := ByteAt(v, 1);
      buffer[at + 1] := ByteAt(v, 0x100);
      buffer[at + 2] := ByteAt(v, 0x1_0000);
      buffer[at + 3] := ByteAt(v, 0x100_0000);
    }

    // The eight length bytes at the end of the buffer, from lo << 3 and hi.
    method StoreLength(ghost n: nat)
      requires Counted(n) && buffer.Length == BLOCK
      modifies buffer, this`lo
      ensures buffer[..] == old(buffer[..56]) + BitCount(n)
    {
      hide WordBytes, BitCount;
      LengthBytes(n, lo, hi);
      lo := lo * 8 % HI_RANGE;
      StoreWord(56, lo);
      StoreWord(60, hi);
    }

    // Marker, zeros and length: one or two more blocks.
    method FoldPadding(ghost m: seq<bv8>)
      requires Absorbed(m)
      modifies this, buffer
      ensures regs == Fold(INITIAL, Pad(m))
    {
      hide Fold, Tail, BitCount, Pad;
      LowBits(|m|);
      TailLength(m);
      var used := lo % BLOCK;
      if used <= 55 {
        PaddedEndInOne(m, used);
      } else {
        PaddedEndInTwo(m, used);
      }
      ghost var kept := Tail(m) + [0x80];
      buffer[used] := 0x80;
      used := used + 1;
      assert buffer[..used] == kept;
      var available := BLOCK - used;
      if available < 8 {
        Fill(buffer, used, available);
        assert buffer[0..BLOCK] == kept + Zeros(available);
        regs := Body(regs, buffer, 0, BLOCK);
        used, available, kept := 0, BLOCK, [];
      }
      CloseBlock(used, available, |m|, kept);
      assert [] + Zeros(56) == Zeros(56);
    }

    // The last block: what it already holds, zeros, and the length.
    method CloseBlock(used: nat, available: nat, ghost n: nat, ghost kept: seq<bv8>)
      requires Counted(n) && buffer.Length == BLOCK && used + available == BLOCK && available >= 8 && buffer[..used] == kept
      modifies this, buffer
      ensures regs == Fold(old(regs), kept + Zeros(available - 8) + BitCount(n))
    {
      hide Fold, BitCount;
      Fill(buffer, used, available - 8);
      assert buffer[..56] == kept + Zeros(available - 8);
      StoreLength(n);
      assert buffer[0..BLOCK] == kept + Zeros(available - 8) + BitCount(n);
      regs := Body(regs, buffer, 0, BLOCK);
    }

    method Final(result: array<bv8>, ghost m: seq<bv8>)
      requires Absorbed(m) && result.Length >= 16 && result != buffer
      modifies this, buffer, result
      ensures result[..16] == Digest(m)
    {
      hide Fold, Pad, Bytes;
      FoldPadding(m);
      StoreRegister(result, 0, regs.a);
      StoreRegister(result, 4, regs.b);
      StoreRegister(result, 8, regs.c);
      StoreRegister(result, 12, regs.d);
      lo, hi, regs := 0, 0, Regs(0, 0, 0, 0);
      Fill(buffer, 0, BLOCK);
    }
  }

  lemma TailLength(m: seq<bv8>)
    ensures |Tail(m)| == |m| % BLOCK
  {
  }

  // ----- The digest of a message does not depend on how it is cut into updates -----

  function Concat(chunks: seq<seq<bv8>>): seq<bv8> {
    if chunks == [] then [] else Concat(chunks[..|chunks| - 1]) + chunks[|chunks| - 1]
  }

  method DigestOfChunks(chunks: seq<seq<bv8>>) returns (digest: seq<bv8>)
    ensures digest == Digest(Concat(chunks))
  {
    hide Digest, Fold, Pad, Tail;
    var ctx := new Md5Ctx.Init();
    for i := 0 to |chunks|
      invariant fresh(ctx) && fresh(ctx.buffer)
      invariant ctx.Absorbed(Concat(chunks[..i]))
    {
      var chunk := chunks[i];
      var data := new bv8[|chunk|](j requires 0 <= j < |chunk| => chunk[j]);
      assert data[..|chunk|] == chunk;
      ctx.Update(data, |chunk|, Concat(chunks[..i]));
      assert chunks[..i + 1][..i] == chunks[..i];
    }
    var result := new bv8[16];
    assert chunks[..|chunks|] == chunks;
    ctx.Final(result, Concat(chunks));
    digest := result[..16];
  }

  function WordBytes(v: nat): (b: seq<bv8>)
    ensures |b| == 4
  {
    [ByteAt(v, 1), ByteAt(v, 0x100), ByteAt(v, 0x1_0000), ByteAt(v, 0x100_0000)]
  }

  // The length field read off the split counter.
  lemma LengthBytes(n: nat, lo: nat, hi: nat)
    requires lo == n % LO_RANGE && hi == n / LO_RANGE % HI_RANGE
    ensures BitCount(n) == WordBytes(lo * 8 % HI_RANGE) + WordBytes(hi)
  {
    hide ByteAt;
    var q, l := n / LO_RANGE, 8 * lo;
    assert 8 * n == HI_RANGE * q + l && lo * 8 % HI_RANGE == l;
    LowPart(q, l, 1, 0x100_0000);
    LowPart(q, l, 0x100, 0x1_0000);
    LowPart(q, l, 0x1_0000, 0x100);
    LowPart(q, l, 0x100_0000, 1);
    HighPart(q, l, 1, 0x100_0000);
    HighPart(q, l, 0x100, 0x1_0000);
    HighPart(q, l, 0x1_0000, 0x100);
    HighPart(q, l, 0x100_0000, 1);
  }

  lemma LowPart(q: nat, l: nat, p: nat, s: nat)
    requires p > 0 && p * s * 256 == HI_RANGE
    ensures ByteAt(HI_RANGE * q + l, p) == ByteAt(l, p)
  {
    hide ByteAt;
    var v, a := HI_RANGE * q + l, 256 * (s * q) + l / p;
    Regroup(p, s, q, l / p);
    DivModUnique(v, p, a, l % p);
    SameByteModulo(v, p, l, s * q);
  }

  lemma Regroup(p: nat, s: nat, q: nat, k: nat)
    ensures (p * s * 256) * q + p * k == p * (256 * (s * q) + k)
  {
  }

  lemma SameByteModulo(v: nat, p: nat, w: nat, k: nat)
    requires p > 0 && v / p == 256 * k + w / p
    ensures ByteAt(v, p) == ByteAt(w, p)
  {
    hide Byte;
    assert v / p % 256 == w / p % 256;
  }

  lemma HighPart(q: nat, l: nat, p: nat, s: nat)
    requires p > 0 && p * s * 256 == HI_RANGE && l < HI_RANGE
    ensures ByteAt(HI_RANGE * q + l, HI_RANGE * p) == ByteAt(q % HI_RANGE, p)
  {
    hide ByteAt;
    var v, r := HI_RANGE * q + l, q % p;
    assert v == (HI_RANGE * p) * (q / p) + (HI_RANGE * r + l);
    assert HI_RANGE * r + l < HI_RANGE * p;
    DivModUnique(v, HI_RANGE * p, q / p, HI_RANGE * r + l);
    SameByte(v, HI_RANGE * p, q, p);
    LowPart(q / HI_RANGE, q % HI_RANGE, p, s);
  }

  lemma SameByte(v: nat, p: nat, w: nat, r: nat)
    requires p > 0 && r > 0 && v / p == w / r
    ensures ByteAt(v, p) == ByteAt(w, r)
  {
    hide Byte;
  }
}
