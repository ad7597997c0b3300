/** The MD5 message digest as RFC 1321 defines it. */
module Md5Spec {
  import opened Arithmetic

  datatype Regs = Regs(a: bv32, b: bv32, c: bv32, d: bv32)

  const INITIAL := Regs(0x67452301, 0xefcdab89, 0x98badcfe, 0x10325476)
  const BLOCK := 64
  const OPERATIONS := 16

  // ----- The sixty-four operations on one block: section 3.4 -----

  function AuxF(x: bv32, y: bv32, z: bv32): bv32 {
    (x & y) | (!x & z)
  }

  function AuxG(x: bv32, y: bv32, z: bv32): bv32 {
    (x & z) | (y & !z)
  }

  function AuxH(x: bv32, y: bv32, z: bv32): bv32 {
    x ^ y ^ z
  }

  function AuxI(x: bv32, y: bv32, z: bv32): bv32 {
    y ^ (x | !z)
  }

  // The auxiliary function of the round operation i belongs to.
  function Auxiliary(i: nat, x: bv32, y: bv32, z: bv32): bv32 {
    if i < 16 then AuxF(x, y, z)
    else if i < 32 then AuxG(x, y, z)
    else if i < 48 then AuxH(x, y, z)
    else AuxI(x, y, z)
  }

  // The word of the block that operation i reads.
  function WordIndex(i: nat): (k: nat)
    ensures k < 16
  {
    if i < 16 then i
    else if i < 32 then (5 * i + 1) % 16
    else if i < 48 then (3 * i + 5) % 16
    else 7 * i % 16
  }

  // How far operation i rotates.
  function Rotation(i: nat): (s: bv8)
    ensures 0 < s < 32
  {
    if i < 16 then Cycle(i, 7, 12, 17, 22)
    else if i < 32 then Cycle(i, 5, 9, 14, 20)
    else if i < 48 then Cycle(i, 4, 11, 16, 23)
    else Cycle(i, 6, 10, 15, 21)
  }

  function Cycle(i: nat, s0: bv8, s1: bv8, s2: bv8, s3: bv8): bv8 {
    if i % 4 == 0 then s0 else if i % 4 == 1 then s1 else if i % 4 == 2 then s2 else s3
  }

  // The sine table, counted from zero, one function per round.
  function SineTable(i: nat): bv32 {
    if i < 16 then Sine1(i) else if i < 32 then Sine2(i) else if i < 48 then Sine3(i) else Sine4(i)
  }

  function Sine1(i: nat): bv32 {
    match i
    case 0 => 0xd76aa478 case 1 => 0xe8c7b756 case 2 => 0x242070db case 3 => 0xc1bdceee
    case 4 => 0xf57c0faf case 5 => 0x4787c62a case 6 => 0xa8304613 case 7 => 0xfd469501
    case 8 => 0x698098d8 case 9 => 0x8b44f7af case 10 => 0xffff5bb1 case 11 => 0x895cd7be
    case 12 => 0x6b901122 case 13 => 0xfd987193 case 14 => 0xa679438e case _ => 0x49b40821
  }

  function Sine2(i: nat): bv32 {
    match i
    case 16 => 0xf61e2562 case 17 => 0xc040b340 case 18 => 0x265e5a51 case 19 => 0xe9b6c7aa
    case 20 => 0xd62f105d case 21 => 0x02441453 case 22 => 0xd8a1e681 case 23 => 0xe7d3fbc8
    case 24 => 0x21e1cde6 case 25 => 0xc33707d6 case 26 => 0xf4d50d87 case 27 => 0x455a14ed
    case 28 => 0xa9e3e905 case 29 => 0xfcefa3f8 case 30 => 0x676f02d9 case _ => 0x8d2a4c8a
  }

  function Sine3(i: nat): bv32 {
    match i
    case 32 => 0xfffa3942 case 33 => 0x8771f681 case 34 => 0x6d9d6122 case 35 => 0xfde5380c
    case 36 => 0xa4beea44 case 37 => 0x4bdecfa9 case 38 => 0xf6bb4b60 case 39 => 0xbebfbc70
    case 40 => 0x289b7ec6 case 41 => 0xeaa127fa case 42 => 0xd4ef3085 case 43 => 0x04881d05
    case 44 => 0xd9d4d039 case 45 => 0xe6db99e5 case 46 => 0x1fa27cf8 case _ => 0xc4ac5665
  }

  function Sine4(i: nat): bv32 {
    match i
    case 48 => 0xf4292244 case 49 => 0x432aff97 case 50 => 0xab9423a7 case 51 => 0xfc93a039
    case 52 => 0x655b59c3 case 53 => 0x8f0ccc92 case 54 => 0xffeff47d case 55 => 0x85845dd1
    case 56 => 0x6fa87e4f case 57 => 0xfe2ce6e0 case 58 => 0xa3014314 case 59 => 0x4e0811a1
    case 60 => 0xf7537e82 case 61 => 0xbd3af235 case 62 => 0x2ad7d2bb case _ => 0xeb86d391
  }

  function RotateLeft(v: bv32, s: bv8): bv32
    requires 0 < s < 32
  {
    (v << s) | (v >> (32 - s))
  }

  // What an operation takes from the block and the tables.
  datatype Input = Input(x: bv32, t: bv32, s: bv8)

  // The new value of one register: b + ((a + f + x + t) <<< s).
  function Mix(f: bv32, a: bv32, b: bv32, o: Input): bv32
    requires 0 < o.s < 32
  {
    RotateLeft(a + (f + o.x + o.t), o.s) + b
  }

  function InputAt(words: seq<bv32>, i: nat): (o: Input)
    requires |words| == 16
    ensures 0 < o.s < 32
  {
    Input(words[WordIndex(i)], SineTable(i), Rotation(i))
  }

  // Operation i, after which the registers have moved on by one place.
  function Operation(r: Regs, words: seq<bv32>, i: nat): Regs
    requires |words| == 16
  {
    Regs(r.d, Mix(Auxiliary(i, r.b, r.c, r.d), r.a, r.b, InputAt(words, i)), r.b, r.c)
  }

  // n operations, the first of them operation i.
  function Operations(r: Regs, words: seq<bv32>, i: nat, n: nat): Regs
    requires |words| == 16 && i + n <= 64
  {
    if n == 0 then r else Operation(Operations(r, words, i, n - 1), words, i + n - 1)
  }

  // The sixteen operations of round k, counted from zero.
  function Round(r: Regs, words: seq<bv32>, k: nat): Regs
    requires |words| == 16 && k < 4
  {
    Operations(r, words, OPERATIONS * k, OPERATIONS)
  }

  // Four bytes, low-order byte first.
  function Word(b: seq<bv8>, k: nat): bv32
    requires k + 4 <= |b|
  {
    b[k] as bv32 | (b[k + 1] as bv32 << 8) | (b[k + 2] as bv32 << 16) | (b[k + 3] as bv32 << 24)
  }

  function Words(b: seq<bv8>): (w: seq<bv32>)
    requires |b| == BLOCK
    ensures |w| == 16
  {
    seq(16, k requires 0 <= k < 16 => Word(b, 4 * k))
  }

  // Addition modulo 2^32.
  function Plus(x: bv32, y: bv32): bv32 {
    x + y
  }

  function Sum(r: Regs, s: Regs): Regs {
    Regs(Plus(r.a, s.a), Plus(r.b, s.b), Plus(r.c, s.c), Plus(r.d, s.d))
  }

  function Compress(r: Regs, b: seq<bv8>): Regs
    requires |b| == BLOCK
  {
    var w := Words(b);
    Sum(Round(Round(Round(Round(r, w, 0), w, 1), w, 2), w, 3), r)
  }

  // All the whole blocks of a message in turn; a last partial block is not looked at.
  function Fold(r: Regs, m: seq<bv8>): Regs
    decreases |m|
  {
    if |m| < BLOCK then r else Fold(Compress(r, m[..BLOCK]), m[BLOCK..])
  }

  lemma {:induction false} FoldSplits(r: Regs, x: seq<bv8>, y: seq<bv8>)
    requires |x| % BLOCK == 0
    ensures Fold(r, x + y) == Fold(Fold(r, x), y)
    decreases |x|
  {
    hide Compress;
    if x == [] {
      assert x + y == y;
    } else {
      assert (x + y)[..BLOCK] == x[..BLOCK];
      assert (x + y)[BLOCK..] == x[BLOCK..] + y;
      FoldSplits(Compress(r, x[..BLOCK]), x[BLOCK..], y);
    }
  }

  lemma FoldOfBlock(r: Regs, b: seq<bv8>)
    requires |b| == BLOCK
    ensures Fold(r, b) == Compress(r, b)
  {
    hide Compress;
    assert b[..BLOCK] == b;
  }

  // ----- Padding and output: sections 3.1, 3.2 and 3.5 -----

  function Byte(x: nat): bv8
    requires x < 256
  {
    x as bv8
  }

  // The byte of v that counts multiples of p.
  function ByteAt(v: nat, p: nat): bv8
    requires p > 0
  {
    Byte(v / p % 256)
  }

  // The eight low-order bytes of the bit count, low-order byte first.
  function BitCount(size: nat): (b: seq<bv8>)
    ensures |b| == 8
  {
    var bits := 8 * size;
    [ByteAt(bits, 1), ByteAt(bits, 0x100), ByteAt(bits, 0x1_0000), ByteAt(bits, 0x100_0000),
     ByteAt(bits, 0x1_0000_0000), ByteAt(bits, 0x100_0000_0000),
     ByteAt(bits, 0x1_0000_0000_0000), ByteAt(bits, 0x100_0000_0000_0000)]
  }

  function Zeros(n: nat): (z: seq<bv8>)
    ensures |z| == n
  {
    seq(n, _ => 0)
  }

  lemma PadLength(n: nat)
    ensures (n + 1 + (119 - n % BLOCK) % BLOCK + 8) % BLOCK == 0
  {
    var q, r := n / BLOCK, n % BLOCK;
    if r <= 55 {
      assert (119 - r) % BLOCK == 55 - r;
      DivModUnique(n + 64 - r, BLOCK, q + 1, 0);
    } else {
      DivModUnique(n + 128 - r, BLOCK, q + 2, 0);
    }
  }

  function Pad(m: seq<bv8>): (p: seq<bv8>)
    ensures |p| % BLOCK == 0
  {
    PadLength(|m|);
    m + [0x80] + Zeros((119 - |m| % BLOCK) % BLOCK) + BitCount(|m|)
  }

  function Bytes(w: bv32): (b: seq<bv8>)
    ensures |b| == 4
  {
    [(w & 0xff) as bv8, ((w >> 8) & 0xff) as bv8, ((w >> 16) & 0xff) as bv8, ((w >> 24) & 0xff) as bv8]
  }

  function Digest(m: seq<bv8>): (d: seq<bv8>)
    ensures |d| == 16
  {
    var r := Fold(INITIAL, Pad(m));
    Bytes(r.a) + Bytes(r.b) + Bytes(r.c) + Bytes(r.d)
  }

  // Splitting a word into bytes undoes reading it.
  lemma BytesOfWord(b: seq<bv8>, k: nat)
    requires k + 4 <= |b|
    ensures Bytes(Word(b, k)) == b[k..k + 4]
  {
  }

  // Bytes as a number, low-order byte first.
  function LittleEndian(b: seq<bv8>): nat {
    if b == [] then 0 else b[0] as nat + 256 * LittleEndian(b[1..])
  }

  // The length field is the bit count modulo 2^64.
  lemma LengthField(n: nat)
    ensures LittleEndian(BitCount(n)) == 8 * n % 0x1_0000_0000_0000_0000
  {
    hide ByteAt, LittleEndian, Part;
    var b := BitCount(n);
    Digits(b, 8 * n);
    assert b[0..] == b;
    WholePart(8 * n, 0x1_0000_0000_0000_0000);
  }

  lemma Digits(b: seq<bv8>, v: nat)
    requires |b| == 8
    requires b[0] == ByteAt(v, 1) && b[1] == ByteAt(v, 0x100)
    requires b[2] == ByteAt(v, 0x1_0000) && b[3] == ByteAt(v, 0x100_0000)
    requires b[4] == ByteAt(v, 0x1_0000_0000) && b[5] == ByteAt(v, 0x100_0000_0000)
    requires b[6] == ByteAt(v, 0x1_0000_0000_0000) && b[7] == ByteAt(v, 0x100_0000_0000_0000)
    ensures LittleEndian(b[0..]) == Part(v, 1, 0x1_0000_0000_0000_0000)
  {
    hide ByteAt, LittleEndian, Part;
    NoDigit(b[8..], v, 0x1_0000_0000_0000_0000);
    Digit(b, 7, v, 0x100_0000_0000_0000, 1);
    Digit(b, 6, v, 0x1_0000_0000_0000, 0x100);
    Digit(b, 5, v, 0x100_0000_0000, 0x1_0000);
    Digit(b, 4, v, 0x1_0000_0000, 0x100_0000);
    Digit(b, 3, v, 0x100_0000, 0x1_0000_0000);
    Digit(b, 2, v, 0x1_0000, 0x100_0000_0000);
    Digit(b, 1, v, 0x100, 0x1_0000_0000_0000);
    Digit(b, 0, v, 1, 0x100_0000_0000_0000);
  }

  // The multiples of p in v, modulo m.
  function Part(v: nat, p: nat, m: nat): nat
    requires p > 0 && m > 0
  {
    v / p % m
  }

  lemma WholePart(v: nat, m: nat)
    requires m > 0
    ensures Part(v, 1, m) == v % m
  {
  }

  lemma NoDigit(b: seq<bv8>, v: nat, p: nat)
    requires b == [] && p > 0
    ensures LittleEndian(b) == Part(v, p, 1)
  {
  }

  // The bytes of v from the one that counts multiples of p on.
  lemma Digit(b: seq<bv8>, k: nat, v: nat, p: nat, m: nat)
    requires k < |b| && p > 0 && m > 0
    requires b[k] == ByteAt(v, p) && LittleEndian(b[k + 1..]) == Part(v, 256 * p, m)
    ensures LittleEndian(b[k..]) == Part(v, p, 256 * m)
  {
    ByteOfNat(v / p % 256);
    SplitModulo(v / p, m);
    DivideTwice(v, p);
    assert b[k..][1..] == b[k + 1..];
  }

  lemma DivideTwice(v: nat, p: nat)
    requires p > 0
    ensures v / (256 * p) == v / p / 256
  {
    var q := v / p;
    var r := v % p;
    assert v == (256 * p) * (q / 256) + (p * (q % 256) + r);
    ProductMonotonic(p, q % 256, 255);
    DivModUnique(v, 256 * p, q / 256, p * (q % 256) + r);
  }
}
