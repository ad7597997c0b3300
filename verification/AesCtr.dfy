/** Counter mode: the initialization vector counts blocks as a 128-bit big-endian number. */
module AesCtr {
  import opened Arithmetic
  import opened AesCipher
  import opened AesInPlace
  import opened AesCbc

  // ----- Big-endian numbers -----

  function Pow256(n: nat): (p: nat)
    ensures p > 0
  {
    if n == 0 then 1 else 256 * Pow256(n - 1)
  }

  function BigEndian(b: seq<bv8>): nat {
    if b == [] then 0 else 256 * BigEndian(b[..|b| - 1]) + b[|b| - 1] as nat
  }

  function ToBigEndian(n: nat, len: nat): (b: seq<bv8>)
    ensures |b| == len
  {
    if len == 0 then [] else ToBigEndian(n / 256, len - 1) + [(n % 256) as bv8]
  }

  lemma ToBigEndianOfAppend(high: nat, low: bv8, len: nat)
    ensures ToBigEndian(256 * high + low as nat, len + 1) == ToBigEndian(high, len) + [low]
  {
    var n := 256 * high + low as nat;
    DivModUnique(n, 256, high, low as nat);
    NatOfByte(low);
  }

  lemma ToBigEndianOfNothing(n: nat)
    ensures ToBigEndian(n, 0) == []
  {
  }

  lemma {:induction false} ToBigEndianInverse(b: seq<bv8>)
    ensures ToBigEndian(BigEndian(b), |b|) == b
  {
    if b != [] {
      var n := |b| - 1;
      ToBigEndianInverse(b[..n]);
      ToBigEndianOfAppend(BigEndian(b[..n]), b[n], n);
    }
  }

  lemma {:induction false} BigEndianInverse(n: nat, len: nat)
    ensures BigEndian(ToBigEndian(n, len)) == n % Pow256(len)
  {
    if len > 0 {
      var high := ToBigEndian(n / 256, len - 1);
      BigEndianInverse(n / 256, len - 1);
      BigEndianOfAppend(high, (n % 256) as bv8);
      ByteOfNat(n % 256);
      SplitModulo(n, Pow256(len - 1));
    }
  }

  lemma BigEndianOfAppend(high: seq<bv8>, low: bv8)
    ensures BigEndian(high + [low]) == 256 * BigEndian(high) + low as nat
  {
    assert (high + [low])[..|high|] == high;
  }

  // ----- The counter -----

  // The carry loop's effect: trailing 255s become 0 and the byte before them goes up by one.
  function Incremented(b: seq<bv8>): (r: seq<bv8>)
    ensures |r| == |b|
  {
    if b == [] then []
    else if b[|b| - 1] == 255 then Incremented(b[..|b| - 1]) + [0]
    else b[..|b| - 1] + [b[|b| - 1] + 1]
  }

  // Incrementing adds one, modulo the number of values the bytes can hold.
  lemma {:induction false} IncrementedAddsOne(b: seq<bv8>)
    ensures Incremented(b) == ToBigEndian(BigEndian(b) + 1, |b|)
  {
    hide ToBigEndian;
    if b == [] {
      ToBigEndianOfNothing(1);
    } else {
      var n := |b| - 1;
      var high := BigEndian(b[..n]);
      if b[n] == 255 {
        assert BigEndian(b) + 1 == 256 * (high + 1) + (0 as bv8) as nat;
        ToBigEndianOfAppend(high + 1, 0, n);
        IncrementedAddsOne(b[..n]);
      } else {
        NextByte(b[n]);
        ToBigEndianOfAppend(high, b[n] + 1, n);
        ToBigEndianInverse(b[..n]);
      }
    }
  }

  const COUNTERS := Pow256(16)

  function Counter(iv: State): nat {
    BigEndian(Bytes(iv))
  }

  function Wrapped(c: nat): nat {
    c % COUNTERS
  }

  // The counter block n steps after iv.
  function Advance(iv: State, n: nat): State {
    Load(ToBigEndian(Wrapped(Counter(iv) + n), 16), 0)
  }

  // Sixteen bytes hold a number modulo 2^128.
  lemma WrappedBytes(c: nat)
    ensures Wrapped(Wrapped(c)) == Wrapped(c)
    ensures BigEndian(ToBigEndian(c, 16)) == Wrapped(c)
    ensures ToBigEndian(Wrapped(c), 16) == ToBigEndian(c, 16)
  {
    hide Pow256, BigEndian, ToBigEndian;
    SumModulo(c, 0, COUNTERS);
    BigEndianInverse(c, 16);
    BigEndianInverse(Wrapped(c), 16);
    ToBigEndianInverse(ToBigEndian(c, 16));
    ToBigEndianInverse(ToBigEndian(Wrapped(c), 16));
  }

  lemma WrappedSum(c: nat, n: nat)
    ensures Wrapped(Wrapped(c) + n) == Wrapped(c + n)
  {
    hide Pow256;
    SumModulo(c, n, COUNTERS);
  }

  lemma CounterOfAdvance(iv: State, n: nat)
    ensures Counter(Advance(iv, n)) == Wrapped(Counter(iv) + n)
  {
    hide Wrapped, Load, Bytes, BigEndian, ToBigEndian;
    var b := ToBigEndian(Wrapped(Counter(iv) + n), 16);
    BytesOfLoad(b, 0);
    assert b[0..16] == b;
    WrappedBytes(Wrapped(Counter(iv) + n));
    WrappedBytes(Counter(iv) + n);
  }

  lemma AdvanceTwice(iv: State, m: nat, n: nat)
    ensures Advance(Advance(iv, m), n) == Advance(iv, m + n)
  {
    hide Wrapped, Load, Counter, ToBigEndian;
    CounterOfAdvance(iv, m);
    WrappedSum(Counter(iv) + m, n);
  }

  // Counter blocks repeat exactly after 2^128 steps.
  lemma CounterPeriod(iv: State, m: nat, n: nat)
    ensures Advance(iv, m) == Advance(iv, n) <==> m % COUNTERS == n % COUNTERS
    ensures m < n < m + COUNTERS ==> Advance(iv, m) != Advance(iv, n)
  {
    hide Load, Counter, ToBigEndian, Pow256;
    CounterOfAdvance(iv, m);
    CounterOfAdvance(iv, n);
    SameModulo(Counter(iv), m, n, COUNTERS);
    if m < n < m + COUNTERS {
      Distinct(m, n, COUNTERS);
    }
  }

  lemma AddMultiple(x: nat, k: nat, m: nat)
    requires m > 0
    ensures (x + m * k) % m == x % m
  {
    DivModUnique(x + m * k, m, x / m + k, x % m);
  }

  // Numbers with one remainder are a multiple apart.
  lemma MultipleApart(x: nat, y: nat, m: nat) returns (k: nat)
    requires m > 0 && x <= y && x % m == y % m
    ensures y == x + m * k
  {
    var a, b := x / m, y / m;
    if b < a {
      ProductMonotonic(m, b + 1, a);
    }
    k := b - a;
    assert m * b == m * a + m * k;
  }

  lemma Ordered(c: nat, x: nat, y: nat, m: nat)
    requires m > 0 && x <= y
    ensures (c + x) % m == (c + y) % m <==> x % m == y % m
  {
    if (c + x) % m == (c + y) % m {
      var k := MultipleApart(c + x, c + y, m);
      AddMultiple(x, k, m);
    }
    if x % m == y % m {
      var k := MultipleApart(x, y, m);
      AddMultiple(c + x, k, m);
    }
  }

  lemma SameModulo(c: nat, x: nat, y: nat, m: nat)
    requires m > 0
    ensures (c + x) % m == (c + y) % m <==> x % m == y % m
  {
    if x <= y {
      Ordered(c, x, y, m);
    } else {
      Ordered(c, y, x, m);
    }
  }

  lemma Distinct(x: nat, y: nat, m: nat)
    requires x < y < x + m
    ensures x % m != y % m
  {
    if x % m == y % m {
      var k := MultipleApart(x, y, m);
      if k > 0 {
        ProductMonotonic(m, 1, k);
      }
    }
  }

  lemma SumModulo(c: nat, n: nat, m: nat)
    requires m > 0
    ensures (c % m + n) % m == (c + n) % m
  {
    var r := c % m + n;
    assert c + n == m * (c / m + r / m) + r % m;
    DivModUnique(c + n, m, c / m + r / m, r % m);
  }

  lemma AdvanceByNothing(iv: State)
    ensures Advance(iv, 0) == iv
  {
    hide Wrapped, Load, BigEndian, ToBigEndian;
    ToBigEndianInverse(Bytes(iv));
    WrappedBytes(Counter(iv));
    LoadOfBytes(iv);
  }

  // ----- The mode: section 6.5 of NIST SP 800-38A -----

  function KeyStream(key: ExpandedKey, iv: State, i: nat): bv8 {
    Bytes(Cipher(Advance(iv, i / BLOCK_LEN), key))[i % BLOCK_LEN]
  }

  function CtrXcrypt(key: ExpandedKey, iv: State, data: seq<bv8>): (r: seq<bv8>)
    ensures |r| == |data|
  {
    seq(|data|, i requires 0 <= i < |data| => data[i] ^ KeyStream(key, iv, i))
  }

  lemma CtrTwiceRestores(key: ExpandedKey, iv: State, data: seq<bv8>)
    ensures CtrXcrypt(key, iv, CtrXcrypt(key, iv, data)) == data
  {
    hide KeyStream;
    forall i | 0 <= i < |data|
      ensures CtrXcrypt(key, iv, CtrXcrypt(key, iv, data))[i] == data[i]
    {
      XorTwice(data[i], KeyStream(key, iv, i));
    }
  }

  lemma AllCounters()
    ensures COUNTERS == 0x1_0000_0000_0000_0000_0000_0000_0000_0000
  {
    assert Pow256(4) == 0x1_0000_0000;
    assert Pow256(8) == 0x1_0000_0000_0000_0000;
    assert Pow256(12) == 0x1_0000_0000_0000_0000_0000_0000;
  }

  // Byte i is added to byte i % 16 of the enciphered counter block of value iv + i / 16, modulo 2^128.
  lemma CtrXcryptAt(key: ExpandedKey, iv: State, data: seq<bv8>, i: nat, c: State)
    requires i < |data|
    requires BigEndian(Bytes(c)) == (BigEndian(Bytes(iv)) + i / 16) % 0x1_0000_0000_0000_0000_0000_0000_0000_0000
    ensures CtrXcrypt(key, iv, data)[i] == data[i] ^ Bytes(Cipher(c, key))[i % 16]
  {
    hide Cipher, Load, Bytes, BigEndian, ToBigEndian, Pow256;
    AllCounters();
    CounterOfAdvance(iv, i / 16);
    CounterDetermines(c, Advance(iv, i / 16));
  }

  lemma CounterDetermines(c: State, d: State)
    requires Counter(c) == Counter(d)
    ensures c == d
  {
    hide BigEndian, ToBigEndian;
    ToBigEndianInverse(Bytes(c));
    ToBigEndianInverse(Bytes(d));
    LoadOfBytes(c);
    LoadOfBytes(d);
  }

  lemma XorTwice(x: bv8, k: bv8)
    ensures (x ^ k) ^ k == x
  {
  }

  lemma CtrSplits(key: ExpandedKey, iv: State, a: seq<bv8>, b: seq<bv8>)
    requires |a| % BLOCK_LEN == 0
    ensures CtrXcrypt(key, iv, a + b) == CtrXcrypt(key, iv, a) + CtrXcrypt(key, Advance(iv, |a| / BLOCK_LEN), b)
  {
    hide Cipher, Advance;
    forall i | 0 <= i < |b|
      ensures KeyStream(key, iv, |a| + i) == KeyStream(key, Advance(iv, |a| / BLOCK_LEN), i)
    {
      assert (|a| + i) / BLOCK_LEN == |a| / BLOCK_LEN + i / BLOCK_LEN;
      assert (|a| + i) % BLOCK_LEN == i % BLOCK_LEN;
      AdvanceTwice(iv, |a| / BLOCK_LEN, i / BLOCK_LEN);
    }
  }

  // ----- The code -----

  lemma IncrementedIsAdvance(iv: State)
    ensures Incremented(Bytes(iv)) == Bytes(Advance(iv, 1))
  {
    hide Wrapped, Load, Bytes, Incremented, BigEndian, ToBigEndian;
    IncrementedAddsOne(Bytes(iv));
    var b := ToBigEndian(Counter(iv) + 1, 16);
    WrappedBytes(Counter(iv) + 1);
    BytesOfLoad(b, 0);
    assert b[0..16] == b;
  }

  lemma IncrementedStep(b: seq<bv8>, n: nat)
    requires n < |b|
    ensures Incremented(b[..n + 1]) == if b[n] == 255 then Incremented(b[..n]) + [0] else b[..n] + [b[n] + 1]
  {
    assert b[..n + 1][..n] == b[..n];
  }

  method IncrementIv(iv: array<bv8>)
    requires iv.Length == BLOCK_LEN
    modifies iv
    ensures iv[..] == Incremented(old(iv[..]))
  {
    hide Incremented;
    ghost var was := iv[..];
    assert was[..BLOCK_LEN] == was && iv[BLOCK_LEN..] == [];
    var bi := BLOCK_LEN - 1;
    while bi >= 0
      invariant -1 <= bi < BLOCK_LEN
      invariant iv[..bi + 1] == was[..bi + 1]
      invariant Incremented(was) == Incremented(was[..bi + 1]) + iv[bi + 1..]
    {
      IncrementedStep(was, bi);
      assert iv[bi] == was[bi];
      ghost var carried := iv[bi + 1..];
      if iv[bi] == 255 {
        iv[bi] := 0;
        assert iv[bi..] == [0] + carried;
        bi := bi - 1;
        continue;
      }
      iv[bi] := iv[bi] + 1;
      assert iv[..] == was[..bi] + [was[bi] + 1] + carried;
      return;
    }
    IncrementedNothing(was[..0]);
    assert iv[..] == iv[0..];
  }

  lemma IncrementedNothing(b: seq<bv8>)
    requires b == []
    ensures Incremented(b) == []
  {
  }

  lemma KeyStreamAt(key: ExpandedKey, iv: State, g: nat, k: nat)
    requires k < BLOCK_LEN
    ensures KeyStream(key, iv, BLOCK_LEN * g + k) == Bytes(Cipher(Advance(iv, g), key))[k]
  {
    hide Cipher, Advance, Bytes;
  }

  method CtrXcryptBuffer(ctx: AesCtx, buf: array<bv8>, length: nat)
    requires ctx.Valid() && length <= buf.Length && buf != ctx.roundKey && buf != ctx.iv
    modifies buf, ctx.iv
    ensures buf[..length] == CtrXcrypt(ctx.roundKey[..], old(ctx.Iv()), old(buf[..length]))
    ensures ctx.Iv() == Advance(old(ctx.Iv()), (length + 15) / BLOCK_LEN)
    ensures buf[length..] == old(buf[length..])
  {
    hide StateAt, Cipher, Advance, Bytes, KeyStream;
    ghost var key, iv0, data := ctx.roundKey[..], ctx.Iv(), buf[..length];
    var buffer := new bv8[BLOCK_LEN];
    var i, bi := 0, BLOCK_LEN;
    ghost var g := 0;  // key stream blocks generated so far
    AdvanceByNothing(iv0);
    while i < length
      invariant 0 <= i <= length && ctx.roundKey[..] == key
      invariant 1 <= bi <= BLOCK_LEN && i == BLOCK_LEN * (g - 1) + bi && g >= 0
      invariant ctx.Iv() == Advance(iv0, g)
      invariant g > 0 ==> buffer[..] == Bytes(Cipher(Advance(iv0, g - 1), key))
      invariant forall p :: 0 <= p < i ==> buf[p] == data[p] ^ KeyStream(key, iv0, p)
      invariant forall p :: i <= p < length ==> buf[p] == data[p]
      invariant buf[length..] == old(buf[length..])
    {
      if bi == BLOCK_LEN {
        NextKeyBlock(ctx, buffer);
        AdvanceTwice(iv0, g, 1);
        g := g + 1;
        bi := 0;
      }
      KeyStreamAt(key, iv0, g - 1, bi);
      buf[i] := buf[i] ^ buffer[bi];
      i, bi := i + 1, bi + 1;
    }
  }

  // Regenerate the key stream block from the counter, and step the counter.
  method NextKeyBlock(ctx: AesCtx, buffer: array<bv8>)
    requires ctx.Valid() && buffer.Length == BLOCK_LEN && buffer != ctx.roundKey && buffer != ctx.iv
    modifies buffer, ctx.iv
    ensures buffer[..] == Bytes(Cipher(old(ctx.Iv()), ctx.roundKey[..]))
    ensures ctx.Iv() == Advance(old(ctx.Iv()), 1)
  {
    hide StateAt, Cipher, Advance, Load, Bytes;
    forall p | 0 <= p < BLOCK_LEN {
      buffer[p] := ctx.iv[p];
    }
    StateAtIsLoad(buffer, 0);
    StateAtIsLoad(ctx.iv, 0);
    assert buffer[..] == ctx.iv[..];
    CipherInPlace(buffer, 0, ctx.roundKey);
    StateAtIsLoad(buffer, 0);
    BytesOfLoad(buffer[..], 0);
    assert buffer[..][0..16] == buffer[..];
    BytesOfLoad(ctx.iv[..], 0);
    assert ctx.iv[..][0..16] == ctx.iv[..];
    IncrementedIsAdvance(ctx.Iv());
    IncrementIv(ctx.iv);
    StateAtIsLoad(ctx.iv, 0);
    LoadOfBytes(Advance(old(ctx.Iv()), 1));
  }
}
