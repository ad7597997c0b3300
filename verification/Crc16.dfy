/**
 The 16-bit cyclic redundancy check: a shift register over the polynomial 0x1021, fed one message bit
 at a time, most significant bits first.
 */
module Crc16 {

  const INITIAL: bv16 := 0x1D0F

  // The operations of one step, named one by one.
  predicate High(crc: bv16) {
    crc & 0x8000 != 0
  }

  function Twice(crc: bv16): bv16 {
    crc << 1
  }

  function Reduced(crc: bv16): bv16 {
    crc ^ 0x1021
  }

  predicate Picks(b: bv8, mask: bv8) {
    b & mask != 0
  }

  function Step(crc: bv16, bit: bool): bv16 {
    if bit != High(crc) then Reduced(Twice(crc)) else Twice(crc)
  }

  // The register after the bits.
  function Run(crc: bv16, bits: seq<bool>): bv16
    decreases |bits|
  {
    if bits == [] then crc else Run(Step(crc, bits[0]), bits[1..])
  }

  // Bit i of a byte, counted from its most significant one.
  function Mask(i: nat): bv8 {
    if i == 0 then 0x80 else Mask(i - 1) >> 1
  }

  function ByteBits(b: bv8): (s: seq<bool>)
    ensures |s| == 8
  {
    seq(8, i requires 0 <= i < 8 => Picks(b, Mask(i)))
  }

  function Bits(data: seq<bv8>): (s: seq<bool>)
    ensures |s| == 8 * |data|
  {
    if data == [] then [] else Bits(data[..|data| - 1]) + ByteBits(data[|data| - 1])
  }

  lemma {:induction false} RunSplits(crc: bv16, x: seq<bool>, y: seq<bool>)
    ensures Run(crc, x + y) == Run(Run(crc, x), y)
    decreases |x|
  {
    if x == [] {
      assert x + y == y;
    } else {
      assert (x + y)[1..] == x[1..] + y;
      RunSplits(Step(crc, x[0]), x[1..], y);
    }
  }

  lemma MaskValues()
    ensures Mask(0) == 0x80 && Mask(1) == 0x40 && Mask(2) == 0x20 && Mask(3) == 0x10
    ensures Mask(4) == 8 && Mask(5) == 4 && Mask(6) == 2 && Mask(7) == 1 && Mask(8) == 0
  {
    assert Mask(1) == 0x40 && Mask(2) == 0x20 && Mask(3) == 0x10;
    assert Mask(4) == 8 && Mask(5) == 4 && Mask(6) == 2;
  }

  method Crc16(data: seq<bv8>) returns (crc: bv16)
    ensures crc == Run(INITIAL, Bits(data))
  {
    crc := 0x1D0F;
    var k := 0;
    while k < |data|
      invariant k <= |data|
      invariant crc == Run(INITIAL, Bits(data[..k]))
    {
      crc := FeedByte(crc, data[k]);
      assert data[..k + 1][..k] == data[..k];
      RunSplits(INITIAL, Bits(data[..k]), ByteBits(data[k]));
      k := k + 1;
    }
    assert data[..k] == data;
  }

  method FeedByte(before: bv16, workData: bv8) returns (crc: bv16)
    ensures crc == Run(before, ByteBits(workData))
  {
    hide High, Twice, Reduced, Picks;
    crc := before;
    MaskValues();
    var bitMask: bv8 := 0x80;
    ghost var bits, i := ByteBits(workData), 0;
    while bitMask != 0
      invariant 0 <= i <= 8 && bitMask == Mask(i)
      invariant crc == Run(before, bits[..i])
      decreases 8 - i
    {
      ghost var c := crc;
      var newBit := Picks(workData, bitMask) != High(crc);
      crc := Twice(crc);
      if newBit {
        crc := Reduced(crc);
      }
      assert crc == Step(c, bits[i]);
      bitMask := bitMask >> 1;
      assert bits[..i + 1] == bits[..i] + [bits[i]];
      RunSplits(before, bits[..i], [bits[i]]);
      i := i + 1;
    }
    assert bits[..i] == bits;
  }

  // ----- Registers as messages -----

  // Bits aligned to the left end of the register.
  function Left(bits: seq<bool>): bv16 {
    if bits == [] then 0 else Load(bits[0], Left(bits[1..]))
  }

  function Load(bit: bool, l: bv16): bv16 {
    Top(bit) | Half(l)
  }

  function Top(bit: bool): bv16 {
    if bit then 0x8000 else 0
  }

  function Half(l: bv16): bv16 {
    l >> 1
  }

  predicate Apart(l: bv16, m: bv16) {
    l & m == 0
  }

  function Xor(a: bv16, b: bv16): bv16 {
    a ^ b
  }

  function HalfTimes(m: bv16, n: nat): bv16
    decreases n
  {
    if n == 0 then m else Half(HalfTimes(m, n - 1))
  }

  // The positions that a left-aligned string of n bits does not reach.
  function Beyond(n: nat): bv16 {
    HalfTimes(0xFFFF, n)
  }

  lemma {:induction false} LeftFits(bits: seq<bool>)
    ensures Apart(Left(bits), Beyond(|bits|))
  {
    hide Apart, Load, Half;
    if bits == [] {
      ZeroApart(0xFFFF);
    } else {
      LeftFits(bits[1..]);
      LoadApart(bits[0], Left(bits[1..]), Beyond(|bits| - 1));
    }
  }

  lemma ZeroApart(m: bv16)
    ensures Apart(0, m)
  {
  }

  lemma LoadApart(bit: bool, l: bv16, m: bv16)
    requires Apart(l, m)
    ensures Apart(Load(bit, l), Half(m))
  {
    if bit {
      HighApart(l, m);
    } else {
      HalvesApart(l, m);
    }
  }

  lemma HighApart(l: bv16, m: bv16)
    requires l & m == 0
    ensures (0x8000 | (l >> 1)) & (m >> 1) == 0
  {
  }

  lemma HalvesApart(l: bv16, m: bv16)
    requires l & m == 0
    ensures (0 | (l >> 1)) & (m >> 1) == 0
  {
  }

  predicate Low(l: bv16) {
    l & 1 != 0
  }

  lemma BeyondLow(n: nat)
    requires n < 16
    ensures Low(Beyond(n))
  {
    assert Beyond(3) == 0x1FFF;
    assert Beyond(6) == 0x03FF;
    assert Beyond(9) == 0x007F;
    assert Beyond(12) == 0x000F;
    assert Beyond(15) == 0x0001;
  }

  // Fewer than sixteen bits leave the lowest position free.
  lemma LeftLow(bits: seq<bool>)
    requires |bits| < 16
    ensures !Low(Left(bits))
  {
    hide Left, HalfTimes;
    LeftFits(bits);
    BeyondLow(|bits|);
    ApartLow(Left(bits), Beyond(|bits|));
  }

  lemma ApartLow(l: bv16, m: bv16)
    requires Apart(l, m) && Low(m)
    ensures !Low(l)
  {
  }

  lemma {:induction false} LeftInjective(x: seq<bool>, y: seq<bool>)
    requires |x| == |y| <= 16 && Left(x) == Left(y)
    ensures x == y
  {
    hide Load, Low;
    if x != [] {
      LeftLow(x[1..]);
      LeftLow(y[1..]);
      LoadInjective(x[0], Left(x[1..]), y[0], Left(y[1..]));
      LeftInjective(x[1..], y[1..]);
      assert x == [x[0]] + x[1..] && y == [y[0]] + y[1..];
    }
  }

  lemma LoadInjective(a: bool, l: bv16, b: bool, m: bv16)
    requires !Low(l) && !Low(m) && Load(a, l) == Load(b, m)
    ensures a == b && l == m
  {
  }

  // Feeding zeros.
  function Shifted(crc: bv16, n: nat): bv16
    decreases n
  {
    if n == 0 then crc else Shifted(Step(crc, false), n - 1)
  }

  // Feeding up to sixteen bits is loading them into the register and feeding zeros.
  lemma {:induction false} Loaded(crc: bv16, bits: seq<bool>)
    requires |bits| <= 16
    ensures Run(crc, bits) == Shifted(Xor(crc, Left(bits)), |bits|)
    decreases |bits|
  {
    hide Xor, Load, Low, Step;
    if bits == [] {
      XorZero(crc);
    } else {
      LeftLow(bits[1..]);
      LoadStep(crc, bits[0], Left(bits[1..]));
      Loaded(Step(crc, bits[0]), bits[1..]);
    }
  }

  lemma XorZero(crc: bv16)
    ensures Xor(crc, 0) == crc && Xor(crc, crc) == 0
  {
  }

  lemma LoadStep(crc: bv16, bit: bool, l: bv16)
    requires !Low(l)
    ensures Step(Xor(crc, Load(bit, l)), false) == Xor(Step(crc, bit), l)
  {
    hide High, Twice, Reduced, Load, Low, Xor;
    LoadHigh(crc, bit, l);
    LoadTwice(crc, bit, l);
    ReducedXor(Twice(crc), l);
  }

  lemma LoadHigh(crc: bv16, bit: bool, l: bv16)
    ensures High(Xor(crc, Load(bit, l))) == (High(crc) != bit)
  {
  }

  lemma LoadTwice(crc: bv16, bit: bool, l: bv16)
    requires !Low(l)
    ensures Twice(Xor(crc, Load(bit, l))) == Xor(Twice(crc), l)
  {
    if bit {
      HighLoadTwice(crc, l);
    } else {
      LowLoadTwice(crc, l);
    }
  }

  lemma HighLoadTwice(c: bv16, l: bv16)
    requires l & 1 == 0
    ensures (c ^ (0x8000 | (l >> 1))) << 1 == (c << 1) ^ l
  {
  }

  lemma LowLoadTwice(c: bv16, l: bv16)
    requires l & 1 == 0
    ensures (c ^ (0 | (l >> 1))) << 1 == (c << 1) ^ l
  {
  }

  lemma ReducedXor(a: bv16, l: bv16)
    ensures Reduced(Xor(a, l)) == Xor(Reduced(a), l)
  {
  }

  // ----- What the check detects -----

  // The low bit of the polynomial tells which way a step went.
  lemma StepInjective(a: bv16, b: bv16, bit: bool)
    requires Step(a, bit) == Step(b, bit)
    ensures a == b
  {
    hide High, Twice, Reduced;
    ReducedOdd(a, b);
    ReducedOdd(b, a);
    if Reduced(Twice(a)) == Reduced(Twice(b)) {
      ReducedInjective(Twice(a), Twice(b));
    }
    if Twice(a) == Twice(b) && High(a) == High(b) {
      TwiceInjective(a, b);
    }
  }

  lemma ReducedOdd(a: bv16, b: bv16)
    ensures Reduced(Twice(a)) != Twice(b)
  {
  }

  lemma ReducedInjective(a: bv16, b: bv16)
    requires Reduced(a) == Reduced(b)
    ensures a == b
  {
  }

  lemma TwiceInjective(a: bv16, b: bv16)
    requires Twice(a) == Twice(b) && High(a) == High(b)
    ensures a == b
  {
  }

  lemma {:induction false} RunInjective(a: bv16, b: bv16, bits: seq<bool>)
    requires Run(a, bits) == Run(b, bits)
    ensures a == b
    decreases |bits|
  {
    if bits != [] {
      RunInjective(Step(a, bits[0]), Step(b, bits[0]), bits[1..]);
      StepInjective(a, b, bits[0]);
    }
  }

  lemma {:induction false} ShiftedInjective(a: bv16, b: bv16, n: nat)
    requires Shifted(a, n) == Shifted(b, n)
    ensures a == b
    decreases n
  {
    if n > 0 {
      ShiftedInjective(Step(a, false), Step(b, false), n - 1);
      StepInjective(a, b, false);
    }
  }

  // Two bit strings that agree outside positions k to k + 15.
  predicate DifferWithin(x: seq<bool>, y: seq<bool>, k: nat) {
    |x| == |y| && forall i :: 0 <= i < |x| && !(k <= i < k + 16) ==> x[i] == y[i]
  }

  // Messages that differ, but only within sixteen consecutive bits, have different checks.
  lemma BurstDetected(m1: seq<bv8>, m2: seq<bv8>, k: nat)
    requires |m1| == |m2| && m1 != m2 && DifferWithin(Bits(m1), Bits(m2), k)
    ensures Run(INITIAL, Bits(m1)) != Run(INITIAL, Bits(m2))
  {
    BitsInjective(m1, m2);
    BurstFound(INITIAL, Bits(m1), Bits(m2), k);
  }

  lemma BurstFound(c: bv16, x: seq<bool>, y: seq<bool>, k: nat)
    requires DifferWithin(x, y, k) && x != y
    ensures Run(c, x) != Run(c, y)
  {
    hide Run;
    var start := if k <= |x| then k else |x|;
    var end := if start + 16 <= |x| then start + 16 else |x|;
    var a, b, rest := x[start..end], y[start..end], x[end..];
    assert y[..start] == x[..start] && y[end..] == rest;
    assert x == x[..start] + (a + rest) && y == x[..start] + (b + rest);
    RunSplits(c, x[..start], a + rest);
    RunSplits(c, x[..start], b + rest);
    WindowDetected(Run(c, x[..start]), a, b, rest);
  }

  lemma WindowDetected(c: bv16, a: seq<bool>, b: seq<bool>, rest: seq<bool>)
    requires |a| == |b| <= 16 && a != b
    ensures Run(c, a + rest) != Run(c, b + rest)
  {
    hide Run, Shifted, Left, Xor;
    RunSplits(c, a, rest);
    RunSplits(c, b, rest);
    if Run(c, a + rest) == Run(c, b + rest) {
      RunInjective(Run(c, a), Run(c, b), rest);
      Loaded(c, a);
      Loaded(c, b);
      ShiftedInjective(Xor(c, Left(a)), Xor(c, Left(b)), |a|);
      XorInjective(c, Left(a), Left(b));
      LeftInjective(a, b);
      assert false;
    }
  }

  lemma XorInjective(c: bv16, a: bv16, b: bv16)
    requires Xor(c, a) == Xor(c, b)
    ensures a == b
  {
  }

  lemma {:induction false} BitsInjective(m1: seq<bv8>, m2: seq<bv8>)
    requires |m1| == |m2|
    ensures Bits(m1) == Bits(m2) ==> m1 == m2
  {
    if m1 != [] {
      var n := |m1| - 1;
      BitsInjective(m1[..n], m2[..n]);
      if Bits(m1) == Bits(m2) {
        assert Bits(m1)[..8 * n] == Bits(m1[..n]) && Bits(m1)[8 * n..] == ByteBits(m1[n]);
        assert Bits(m2)[..8 * n] == Bits(m2[..n]) && Bits(m2)[8 * n..] == ByteBits(m2[n]);
        ByteBitsInjective(m1[n], m2[n]);
        assert m1 == m1[..n] + [m1[n]] && m2 == m2[..n] + [m2[n]];
      }
    }
  }

  lemma ByteBitsInjective(a: bv8, b: bv8)
    requires ByteBits(a) == ByteBits(b)
    ensures a == b
  {
    hide Picks;
    MaskValues();
    forall i | 0 <= i < 8
      ensures Picks(a, Mask(i)) == Picks(b, Mask(i))
    {
      assert ByteBits(a)[i] == ByteBits(b)[i];
    }
    SameBits(a, b);
  }

  lemma SameBits(a: bv8, b: bv8)
    requires Picks(a, 0x80) == Picks(b, 0x80) && Picks(a, 0x40) == Picks(b, 0x40)
    requires Picks(a, 0x20) == Picks(b, 0x20) && Picks(a, 0x10) == Picks(b, 0x10)
    requires Picks(a, 8) == Picks(b, 8) && Picks(a, 4) == Picks(b, 4)
    requires Picks(a, 2) == Picks(b, 2) && Picks(a, 1) == Picks(b, 1)
    ensures a == b
  {
  }

  // ----- Appending the check -----

  function HighByte(crc: bv16): bv8 {
    (crc >> 8) as bv8
  }

  function LowByte(crc: bv16): bv8 {
    (crc & 0xFF) as bv8
  }

  function TwiceTimes(crc: bv16, n: nat): bv16
    decreases n
  {
    if n == 0 then crc else TwiceTimes(Twice(crc), n - 1)
  }

  // Bits that are those the register shifts out make up the register.
  lemma {:induction false} ShiftedOut(s: seq<bool>, c: bv16)
    requires forall i :: 0 <= i < |s| ==> s[i] == High(TwiceTimes(c, i))
    requires TwiceTimes(c, |s|) == 0
    ensures Left(s) == c
    decreases |s|
  {
    hide High, Twice, Load;
    if s != [] {
      assert s[0] == High(TwiceTimes(c, 0));
      forall i | 0 <= i < |s| - 1
        ensures s[1..][i] == High(TwiceTimes(Twice(c), i))
      {
        assert s[i + 1] == High(TwiceTimes(c, i + 1));
      }
      ShiftedOut(s[1..], Twice(c));
      Reloaded(c);
    }
  }

  lemma Reloaded(c: bv16)
    ensures Load(High(c), Twice(c)) == c
  {
    if High(c) {
      HighReloaded(c);
    } else {
      LowReloaded(c);
    }
  }

  lemma HighReloaded(c: bv16)
    requires c & 0x8000 != 0
    ensures 0x8000 | ((c << 1) >> 1) == c
  {
  }

  lemma LowReloaded(c: bv16)
    requires c & 0x8000 == 0
    ensures 0 | ((c << 1) >> 1) == c
  {
  }

  // Looking at one position of a shifted register is looking further down in the register.
  lemma {:induction false} LookDown(c: bv16, m: bv16, n: nat)
    ensures Apart(TwiceTimes(c, n), m) <==> Apart(c, HalfTimes(m, n))
    decreases n
  {
    hide Apart, Twice, Half;
    if n > 0 {
      LookDown(Twice(c), m, n - 1);
      LookOneDown(c, HalfTimes(m, n - 1));
    }
  }

  lemma LookOneDown(c: bv16, m: bv16)
    ensures Apart(Twice(c), m) <==> Apart(c, Half(m))
  {
  }

  lemma HighMasks()
    ensures HalfTimes(0x8000, 0) == 0x8000 && HalfTimes(0x8000, 1) == 0x4000 && HalfTimes(0x8000, 2) == 0x2000
    ensures HalfTimes(0x8000, 3) == 0x1000 && HalfTimes(0x8000, 4) == 0x800 && HalfTimes(0x8000, 5) == 0x400
    ensures HalfTimes(0x8000, 6) == 0x200 && HalfTimes(0x8000, 7) == 0x100 && HalfTimes(0x8000, 8) == 0x80
  {
    assert HalfTimes(0x8000, 2) == 0x2000;
    assert HalfTimes(0x8000, 4) == 0x800;
    assert HalfTimes(0x8000, 6) == 0x200;
  }

  lemma LowMasks()
    ensures HalfTimes(0x8000, 8) == 0x80 && HalfTimes(0x8000, 9) == 0x40 && HalfTimes(0x8000, 10) == 0x20
    ensures HalfTimes(0x8000, 11) == 0x10 && HalfTimes(0x8000, 12) == 8 && HalfTimes(0x8000, 13) == 4
    ensures HalfTimes(0x8000, 14) == 2 && HalfTimes(0x8000, 15) == 1
  {
    HighMasks();
    assert HalfTimes(0x8000, 10) == 0x20;
    assert HalfTimes(0x8000, 12) == 8;
    assert HalfTimes(0x8000, 14) == 2;
  }

  lemma HighByteBits(c: bv16, h: bv8)
    requires h == (c >> 8) as bv8
    ensures (c & 0x8000 == 0) == (h & 0x80 == 0)
    ensures (c & 0x4000 == 0) == (h & 0x40 == 0)
    ensures (c & 0x2000 == 0) == (h & 0x20 == 0)
    ensures (c & 0x1000 == 0) == (h & 0x10 == 0)
    ensures (c & 0x800 == 0) == (h & 0x8 == 0)
    ensures (c & 0x400 == 0) == (h & 0x4 == 0)
    ensures (c & 0x200 == 0) == (h & 0x2 == 0)
    ensures (c & 0x100 == 0) == (h & 0x1 == 0)
  {
  }

  lemma LowByteBits(c: bv16, l: bv8)
    requires l == (c & 0xFF) as bv8
    ensures (c & 0x80 == 0) == (l & 0x80 == 0)
    ensures (c & 0x40 == 0) == (l & 0x40 == 0)
    ensures (c & 0x20 == 0) == (l & 0x20 == 0)
    ensures (c & 0x10 == 0) == (l & 0x10 == 0)
    ensures (c & 0x8 == 0) == (l & 0x8 == 0)
    ensures (c & 0x4 == 0) == (l & 0x4 == 0)
    ensures (c & 0x2 == 0) == (l & 0x2 == 0)
    ensures (c & 0x1 == 0) == (l & 0x1 == 0)
  {
  }

  // Position i of the register, from the top, is bit i of its two bytes.
  lemma HighOwnBit(c: bv16, i: nat)
    requires i < 8
    ensures !Apart(c, HalfTimes(0x8000, i)) <==> Picks(HighByte(c), Mask(i))
  {
    hide Mask, HalfTimes;
    MaskValues();
    HighMasks();
    HighByteBits(c, HighByte(c));
  }

  lemma LowOwnBit(c: bv16, i: nat)
    requires i < 8
    ensures !Apart(c, HalfTimes(0x8000, i + 8)) <==> Picks(LowByte(c), Mask(i))
  {
    hide Mask, HalfTimes;
    MaskValues();
    LowMasks();
    LowByteBits(c, LowByte(c));
  }

  lemma OwnBit(c: bv16, i: nat)
    requires i < 16
    ensures High(TwiceTimes(c, i)) <==> (ByteBits(HighByte(c)) + ByteBits(LowByte(c)))[i]
  {
    hide Mask, HalfTimes, Apart, High, Picks, HighByte, LowByte, TwiceTimes;
    LookDown(c, 0x8000, i);
    HighIsApart(TwiceTimes(c, i));
    if i < 8 {
      HighOwnBit(c, i);
    } else {
      LowOwnBit(c, i - 8);
    }
  }

  lemma HighIsApart(c: bv16)
    ensures High(c) <==> !Apart(c, 0x8000)
  {
  }

  lemma AllOut(c: bv16)
    ensures TwiceTimes(c, 16) == 0
  {
    LookDown(c, 0xFFFF, 16);
    LowestOut();
    ApartFromAll(TwiceTimes(c, 16), c);
  }

  lemma LowestOut()
    ensures HalfTimes(0xFFFF, 16) == 0
  {
    BeyondLow(15);
    assert HalfTimes(0xFFFF, 15) == 1;
  }

  lemma ApartFromAll(x: bv16, c: bv16)
    requires Apart(x, 0xFFFF) <==> Apart(c, 0)
    ensures x == 0
  {
  }

  // A register fed its own bits comes to zero.
  lemma OwnBits(crc: bv16)
    ensures Left(ByteBits(HighByte(crc)) + ByteBits(LowByte(crc))) == crc
  {
    hide High, Left, ByteBits, TwiceTimes;
    var s := ByteBits(HighByte(crc)) + ByteBits(LowByte(crc));
    forall i | 0 <= i < |s|
      ensures s[i] == High(TwiceTimes(crc, i))
    {
      OwnBit(crc, i);
    }
    AllOut(crc);
    ShiftedOut(s, crc);
  }

  lemma {:induction false} ShiftedZero(n: nat)
    ensures Shifted(0, n) == 0
  {
    if n > 0 {
      ZeroStep();
      ShiftedZero(n - 1);
    }
  }

  lemma ZeroStep()
    ensures Step(0, false) == 0
  {
  }

  // A message followed by its check, high byte first, checks to zero.
  lemma CheckAppended(m: seq<bv8>)
    ensures var crc := Run(INITIAL, Bits(m));
      Run(INITIAL, Bits(m + [HighByte(crc), LowByte(crc)])) == 0
  {
    hide Run, Left, Shifted, ByteBits;
    var crc := Run(INITIAL, Bits(m));
    var h, l := HighByte(crc), LowByte(crc);
    assert (m + [h, l])[..|m| + 1] == m + [h] && (m + [h])[..|m|] == m;
    assert Bits(m + [h, l]) == Bits(m) + (ByteBits(h) + ByteBits(l));
    RunSplits(INITIAL, Bits(m), ByteBits(h) + ByteBits(l));
    Loaded(crc, ByteBits(h) + ByteBits(l));
    OwnBits(crc);
    XorZero(crc);
    ShiftedZero(16);
  }

  // ----- Linearity, and where detection ends -----

  function XorBits(x: seq<bool>, y: seq<bool>): seq<bool>
    requires |x| == |y|
  {
    seq(|x|, i requires 0 <= i < |x| => x[i] != y[i])
  }

  // The register run is linear in its start value and the bits together.
  lemma {:induction false} RunLinear(a: bv16, b: bv16, x: seq<bool>, y: seq<bool>)
    requires |x| == |y|
    ensures Run(Xor(a, b), XorBits(x, y)) == Xor(Run(a, x), Run(b, y))
    decreases |x|
  {
    hide Xor, Step;
    if x != [] {
      StepLinear(a, b, x[0], y[0]);
      assert XorBits(x, y)[1..] == XorBits(x[1..], y[1..]);
      RunLinear(Step(a, x[0]), Step(b, y[0]), x[1..], y[1..]);
    }
  }

  lemma StepLinear(a: bv16, b: bv16, x: bool, y: bool)
    ensures Step(Xor(a, b), x != y) == Xor(Step(a, x), Step(b, y))
  {
    hide High, Twice, Reduced, Xor;
    XorHigh(a, b);
    XorTwice(a, b);
    ReducedXor(Twice(a), Twice(b));
    XorReduced(Twice(a), Twice(b));
    ReducedXor(Twice(a), Reduced(Twice(b)));
    ReducedTwice(Xor(Twice(a), Twice(b)));
  }

  lemma XorHigh(a: bv16, b: bv16)
    ensures High(Xor(a, b)) == (High(a) != High(b))
  {
  }

  lemma XorTwice(a: bv16, b: bv16)
    ensures Twice(Xor(a, b)) == Xor(Twice(a), Twice(b))
  {
  }

  lemma XorReduced(a: bv16, b: bv16)
    ensures Xor(a, Reduced(b)) == Reduced(Xor(a, b))
  {
  }

  lemma ReducedTwice(a: bv16)
    ensures Reduced(Reduced(a)) == a
  {
  }

  // Whether two messages of one length share their check depends on their difference only.
  lemma OnlyDifferenceMatters(c: bv16, x: seq<bool>, y: seq<bool>)
    requires |x| == |y|
    ensures Run(c, x) == Run(c, y) <==> Run(0, XorBits(x, y)) == 0
  {
    hide Run, Xor;
    RunLinear(c, c, x, y);
    XorZero(c);
    XorEqual(Run(c, x), Run(c, y));
  }

  lemma XorEqual(a: bv16, b: bv16)
    ensures Xor(a, b) == 0 <==> a == b
  {
    hide Xor;
    XorZero(b);
    if Xor(a, b) == 0 {
      XorNothingLeft(a, b);
    }
  }

  lemma XorNothingLeft(a: bv16, b: bv16)
    requires Xor(a, b) == 0
    ensures a == b
  {
    SameBitsOnly(a, b);
  }

  lemma SameBitsOnly(a: bv16, b: bv16)
    ensures a ^ b == 0 ==> a == b
  {
  }

  // ----- Bursts of seventeen bits -----

  function Zeros(n: nat): (z: seq<bool>)
    ensures |z| == n
  {
    seq(n, _ => false)
  }

  // The polynomial, its leading term included.
  function Polynomial(): (p: seq<bool>)
    ensures |p| == 17
  {
    [true] + ByteBits(0x10) + ByteBits(0x21)
  }

  lemma {:induction false} ZerosRun(n: nat)
    ensures Run(0, Zeros(n)) == 0
    decreases n
  {
    if n > 0 {
      ZeroStep();
      assert Zeros(n)[1..] == Zeros(n - 1);
      ZerosRun(n - 1);
    }
  }

  // Zeros before and behind a difference change nothing about its being noticed.
  lemma ZerosAround(k: nat, w: seq<bool>, rest: nat)
    ensures Run(0, Zeros(k) + (w + Zeros(rest))) == 0 <==> Run(0, w) == 0
  {
    hide Run, Zeros;
    RunSplits(0, Zeros(k), w + Zeros(rest));
    RunSplits(0, w, Zeros(rest));
    ZerosRun(k);
    ZerosRun(rest);
    if Run(Run(0, w), Zeros(rest)) == 0 {
      RunInjective(Run(0, w), 0, Zeros(rest));
    }
  }

  // Sixteen bits bring the register to zero exactly when they are its own.
  lemma SixteenToZero(c: bv16, w: seq<bool>)
    requires |w| == 16
    ensures Run(c, w) == 0 <==> Left(w) == c
  {
    hide Run, Left, Shifted, Xor;
    Loaded(c, w);
    ShiftedZero(16);
    XorEqual(c, Left(w));
    if Shifted(Xor(c, Left(w)), 16) == 0 {
      ShiftedInjective(Xor(c, Left(w)), 0, 16);
    }
  }

  lemma {:induction false} LeftOfZeros(n: nat)
    ensures Left(Zeros(n)) == 0
    decreases n
  {
    if n > 0 {
      assert Zeros(n)[1..] == Zeros(n - 1);
      LeftOfZeros(n - 1);
      LoadNothing();
    }
  }

  lemma LoadNothing()
    ensures Load(false, 0) == 0
  {
  }

  // Of all differences of seventeen bits only the polynomial goes unnoticed, and none at all.
  lemma SeventeenToZero(w: seq<bool>)
    requires |w| == 17
    ensures Run(0, w) == 0 <==> w == Zeros(17) || w == Polynomial()
  {
    var tail := w[1..];
    var own := ByteBits(0x10) + ByteBits(0x21);
    var c := Step(0, w[0]);
    assert w == [w[0]] + tail && Zeros(17) == [false] + Zeros(16) && Polynomial() == [true] + own;
    assert (w == Zeros(17) <==> !w[0] && tail == Zeros(16)) && (w == Polynomial() <==> w[0] && tail == own) by {
      Prefixed(w[0], tail, false, Zeros(16));
      Prefixed(w[0], tail, true, own);
    }
    ZeroStep();
    PolynomialLoaded();
    OwnBits(0x1021);
    LeftOfZeros(16);
    SixteenToZero(c, tail);
    assert Run(0, w) == Run(c, tail);
    SameWhenLeftSame(tail, if w[0] then own else Zeros(16));
  }

  lemma Prefixed(a: bool, x: seq<bool>, b: bool, y: seq<bool>)
    ensures [a] + x == [b] + y <==> a == b && x == y
  {
    assert ([a] + x)[0] == a && ([b] + y)[0] == b;
    assert ([a] + x)[1..] == x && ([b] + y)[1..] == y;
  }

  lemma SameWhenLeftSame(x: seq<bool>, y: seq<bool>)
    requires |x| == |y| == 16
    ensures Left(x) == Left(y) <==> x == y
  {
    hide Left;
    if Left(x) == Left(y) {
      LeftInjective(x, y);
    }
  }

  lemma PolynomialLoaded()
    ensures Step(0, true) == 0x1021 && HighByte(0x1021) == 0x10 && LowByte(0x1021) == 0x21
  {
  }

  // Sixteen is the limit. Two messages of one length whose difference lies within seventeen
  // consecutive bits share their check exactly when they are equal or differ by the polynomial.
  lemma SeventeenBitBurst(m1: seq<bv8>, m2: seq<bv8>, k: nat, w: seq<bool>, rest: nat)
    requires |m1| == |m2| && |w| == 17
    requires XorBits(Bits(m1), Bits(m2)) == Zeros(k) + (w + Zeros(rest))
    ensures Run(INITIAL, Bits(m1)) == Run(INITIAL, Bits(m2)) <==> w == Zeros(17) || w == Polynomial()
    ensures w == Zeros(17) <==> m1 == m2
  {
    hide Run, Bits, Polynomial;
    OnlyDifferenceMatters(INITIAL, Bits(m1), Bits(m2));
    ZerosAround(k, w, rest);
    SeventeenToZero(w);
    BitsInjective(m1, m2);
    NoDifference(Bits(m1), Bits(m2), k, w, rest);
  }

  lemma NoDifference(x: seq<bool>, y: seq<bool>, k: nat, w: seq<bool>, rest: nat)
    requires |x| == |y| && |w| == 17 && XorBits(x, y) == Zeros(k) + (w + Zeros(rest))
    ensures w == Zeros(17) <==> x == y
  {
    var d := XorBits(x, y);
    assert |d| == k + 17 + rest;
    assert forall i :: 0 <= i < 17 ==> d[k + i] == w[i];
    if w == Zeros(17) {
      forall i | 0 <= i < |x|
        ensures x[i] == y[i]
      {
        assert !d[i];
      }
    }
    if x == y {
      assert forall i :: 0 <= i < 17 ==> !w[i];
    }
  }

  // Two such messages: three zero bytes, and the polynomial in the last seventeen bits.
  lemma PolynomialMissed()
    ensures Run(INITIAL, Bits([0, 0, 0])) == Run(INITIAL, Bits([0x01, 0x10, 0x21]))
  {
    var m1: seq<bv8>, m2: seq<bv8> := [0, 0, 0], [0x01, 0x10, 0x21];
    BitsInjective(m1, m2);
    ThreeBytes(0, 0, 0);
    ThreeBytes(0x01, 0x10, 0x21);
    PolynomialAtTheEnd();
    SeventeenBitBurst(m1, m2, 7, Polynomial(), 0);
  }

  lemma ThreeBytes(a: bv8, b: bv8, c: bv8)
    ensures Bits([a, b, c]) == ByteBits(a) + ByteBits(b) + ByteBits(c)
  {
    assert [a, b, c][..2] == [a, b] && [a, b][..1] == [a] && [a][..0] == [];
    assert Bits([a]) == ByteBits(a);
  }

  lemma PolynomialAtTheEnd()
    ensures XorBits(ByteBits(0) + ByteBits(0) + ByteBits(0), ByteBits(0x01) + ByteBits(0x10) + ByteBits(0x21))
         == Zeros(7) + (Polynomial() + Zeros(0))
  {
    OnlyLastBit();
    assert ByteBits(0x01) == Zeros(7) + [true];
    assert ByteBits(0) == Zeros(8);
  }

  lemma OnlyLastBit()
    ensures forall i :: 0 <= i < 8 ==> (ByteBits(0x01)[i] <==> i == 7)
    ensures forall i :: 0 <= i < 8 ==> !ByteBits(0)[i]
  {
    MaskValues();
  }

  // ----- A fixed message -----

  // The register after one byte, bit by bit.
  function After(crc: bv16, b: bv8): bv16 {
    var c4 := Step(Step(Step(Step(crc, Picks(b, 0x80)), Picks(b, 0x40)), Picks(b, 0x20)), Picks(b, 0x10));
    Step(Step(Step(Step(c4, Picks(b, 8)), Picks(b, 4)), Picks(b, 2)), Picks(b, 1))
  }

  lemma {:induction false} RunOfByte(crc: bv16, s: seq<bool>)
    requires |s| == 8
    ensures Run(crc, s)
         == Step(Step(Step(Step(Step(Step(Step(Step(crc, s[0]), s[1]), s[2]), s[3]), s[4]), s[5]), s[6]), s[7])
  {
    hide Step, Run;
    var (a, b) := (s[..4], s[4..]);
    RunOfFour(crc, a);
    RunOfFour(Run(crc, a), b);
    RunSplits(crc, a, b);
    assert s == a + b;
    assert b[0] == s[4] && b[1] == s[5] && b[2] == s[6] && b[3] == s[7];
  }

  lemma RunOfFour(crc: bv16, s: seq<bool>)
    requires |s| == 4
    ensures Run(crc, s) == Step(Step(Step(Step(crc, s[0]), s[1]), s[2]), s[3])
  {
    hide Step;
    RunSplits(crc, s[..2], s[2..]);
    assert s == s[..2] + s[2..];
    RunOfTwo(crc, s[..2]);
    RunOfTwo(Run(crc, s[..2]), s[2..]);
  }

  lemma RunOfTwo(crc: bv16, s: seq<bool>)
    requires |s| == 2
    ensures Run(crc, s) == Step(Step(crc, s[0]), s[1])
  {
    hide Step;
    var c := Step(crc, s[0]);
    assert Run(crc, s) == Run(c, s[1..]) == Run(Step(c, s[1]), s[1..][1..]);
  }

  lemma NextByte(m: seq<bv8>, b: bv8, longer: seq<bv8>)
    requires longer == m + [b]
    ensures Run(INITIAL, Bits(longer)) == After(Run(INITIAL, Bits(m)), b)
  {
    hide Step, Run, Picks;
    MaskValues();
    RunSplits(INITIAL, Bits(m), ByteBits(b));
    RunOfByte(Run(INITIAL, Bits(m)), ByteBits(b));
    assert longer[..|m|] == m;
  }

  lemma CheckSteps()
    ensures After(0x1d0f, 0x31) == 0xeaee
    ensures After(0xeaee, 0x32) == 0xa475
    ensures After(0xa475, 0x33) == 0x865e
    ensures After(0x865e, 0x34) == 0xd999
    ensures After(0xd999, 0x35) == 0xa5a2
    ensures After(0xa5a2, 0x36) == 0x11da
    ensures After(0x11da, 0x37) == 0x9ea4
    ensures After(0x9ea4, 0x38) == 0x712c
    ensures After(0x712c, 0x39) == 0xe5cc
  {
  }

  lemma EmptyCheck()
    ensures Run(INITIAL, Bits([])) == 0x1d0f
  {
  }

  // The check of the nine digits 1 to 9.
  lemma DigitsCheck()
    ensures Run(INITIAL, Bits([0x31, 0x32, 0x33, 0x34, 0x35, 0x36, 0x37, 0x38, 0x39])) == 0xe5cc
  {
    hide After, Run, Bits;
    EmptyCheck();
    CheckSteps();
    NextByte([], 0x31, [0x31]);
    NextByte([0x31], 0x32, [0x31, 0x32]);
    NextByte([0x31, 0x32], 0x33, [0x31, 0x32, 0x33]);
    NextByte([0x31, 0x32, 0x33], 0x34, [0x31, 0x32, 0x33, 0x34]);
    NextByte([0x31, 0x32, 0x33, 0x34], 0x35, [0x31, 0x32, 0x33, 0x34, 0x35]);
    NextByte([0x31, 0x32, 0x33, 0x34, 0x35], 0x36, [0x31, 0x32, 0x33, 0x34, 0x35, 0x36]);
    NextByte([0x31, 0x32, 0x33, 0x34, 0x35, 0x36], 0x37, [0x31, 0x32, 0x33, 0x34, 0x35, 0x36, 0x37]);
    NextByte([0x31, 0x32, 0x33, 0x34, 0x35, 0x36, 0x37], 0x38, [0x31, 0x32, 0x33, 0x34, 0x35, 0x36, 0x37, 0x38]);
    NextByte([0x31, 0x32, 0x33, 0x34, 0x35, 0x36, 0x37, 0x38], 0x39, [0x31, 0x32, 0x33, 0x34, 0x35, 0x36, 0x37, 0x38, 0x39]);
  }
}
