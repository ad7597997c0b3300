/**
 Base 64 as section 4 of RFC 4648 defines it, and the two loops of the program, which work byte by
 byte and write their output as they go.
 */
module Base64 {
  import opened Octets
  import opened Arithmetic

  const PAD: byte := 61
  const INVALID := 1

  type sextet = v: int | 0 <= v < 64

  // The alphabet: A to Z, a to z, 0 to 9, + and /.
  function En(v: sextet): byte {
    if v < 26 then 65 + v
    else if v < 52 then 97 + (v - 26)
    else if v < 62 then 48 + (v - 52)
    else if v == 62 then 43 else 47
  }

  function De(c: byte): (v: int)
    ensures -1 <= v < 64
  {
    if 65 <= c <= 90 then c - 65
    else if 97 <= c <= 122 then 26 + (c - 97)
    else if 48 <= c <= 57 then 52 + (c - 48)
    else if c == 43 then 62
    else if c == 47 then 63 else -1
  }

  lemma AlphabetRead(v: sextet)
    ensures De(En(v)) == v && En(v) != PAD
  {
  }

  // Table 1 of RFC 4648, at the ends of its four runs.
  lemma AlphabetRuns()
    ensures En(0) == 'A' as int && En(25) == 'Z' as int && En(26) == 'a' as int && En(51) == 'z' as int
    ensures En(52) == '0' as int && En(61) == '9' as int && En(62) == '+' as int && En(63) == '/' as int
  {
  }

  // ----- Groups of three bytes, groups of four sextets -----

  function First(a: byte): sextet {
    a / 4
  }

  function Second(a: byte, b: byte): sextet {
    a % 4 * 16 + b / 16
  }

  function Third(b: byte, c: byte): sextet {
    b % 16 * 4 + c / 64
  }

  function Fourth(c: byte): sextet {
    c % 64
  }

  // The sextets of s; a last group of one or two bytes is filled up with zero bits.
  function Sextets(s: seq<byte>): seq<sextet> {
    if |s| == 0 then []
    else if |s| == 1 then [First(s[0]), Second(s[0], 0)]
    else if |s| == 2 then [First(s[0]), Second(s[0], s[1]), Third(s[1], 0)]
    else [First(s[0]), Second(s[0], s[1]), Third(s[1], s[2]), Fourth(s[2])] + Sextets(s[3..])
  }

  // The bytes that whole sextets make up.
  function Bytes(v: seq<sextet>): seq<byte> {
    if |v| <= 1 then []
    else if |v| == 2 then [Low(v[0], v[1])]
    else if |v| == 3 then [Low(v[0], v[1]), Middle(v[1], v[2])]
    else [Low(v[0], v[1]), Middle(v[1], v[2]), High(v[2], v[3])] + Bytes(v[4..])
  }

  function Low(p: sextet, q: sextet): byte {
    p * 4 + q / 16
  }

  function Middle(p: sextet, q: sextet): byte {
    p % 16 * 16 + q / 4
  }

  function High(p: sextet, q: sextet): byte {
    p % 4 * 64 + q
  }

  function Chars(v: seq<sextet>): (s: seq<byte>)
    ensures |s| == |v|
  {
    seq(|v|, i requires 0 <= i < |v| => En(v[i]))
  }

  function Padding(n: nat): seq<byte> {
    if n % 3 == 1 then [PAD, PAD] else if n % 3 == 2 then [PAD] else []
  }

  function Encoded(s: seq<byte>): seq<byte> {
    Chars(Sextets(s)) + Padding(|s|)
  }

  lemma {:induction false} BytesOfSextets(s: seq<byte>)
    ensures Bytes(Sextets(s)) == s
  {
    hide First, Second, Third, Fourth, Low, Middle, High;
    if |s| == 1 {
      GroupRead(s[0], 0, 0);
    } else if |s| == 2 {
      GroupRead(s[0], s[1], 0);
    } else if |s| >= 3 {
      GroupRead(s[0], s[1], s[2]);
      BytesOfSextets(s[3..]);
      assert Sextets(s)[4..] == Sextets(s[3..]);
      assert s == [s[0], s[1], s[2]] + s[3..];
    }
  }

  lemma GroupRead(a: byte, b: byte, c: byte)
    ensures Low(First(a), Second(a, b)) == a
    ensures Middle(Second(a, b), Third(b, c)) == b
    ensures High(Third(b, c), Fourth(c)) == c
  {
  }

  // Three bytes and four sextets are one number, most significant part first.
  lemma GroupValue(a: byte, b: byte, c: byte)
    ensures First(a) * 0x4_0000 + Second(a, b) * 0x1000 + Third(b, c) * 0x40 + Fourth(c) == a * 0x1_0000 + b * 0x100 + c
  {
  }

  // f, fo and foo encode to Zg==, Zm8= and Zm9v: the test vectors of section 10 of RFC 4648.
  lemma PaddedVectors()
    ensures Encoded([102]) == [90, 103, 61, 61]
    ensures Encoded([102, 111]) == [90, 109, 56, 61]
    ensures Encoded([102, 111, 111]) == [90, 109, 57, 118]
  {
    hide Sextets;
    LastGroups();
    assert Chars([25, 32]) == [90, 103] && Chars([25, 38, 60]) == [90, 109, 56] && Chars([25, 38, 61, 47]) == [90, 109, 57, 118];
  }

  lemma LastGroups()
    ensures Sextets([102]) == [25, 32] && Sextets([102, 111]) == [25, 38, 60] && Sextets([102, 111, 111]) == [25, 38, 61, 47]
  {
    assert [102, 111, 111][3..] == [];
  }

  lemma {:induction false} SextetsLength(s: seq<byte>)
    ensures |Sextets(s)| == |s| + (|s| + 2) / 3
    ensures |Encoded(s)| == (|s| + 2) / 3 * 4
  {
    hide First, Second, Third, Fourth, En;
    if |s| >= 3 {
      SextetsLength(s[3..]);
    }
  }

  // ----- Encoding -----

  // What has been written when the bytes of s have been read: the last bits still wait.
  function Partial(s: seq<byte>): seq<sextet> {
    if |s| == 0 then []
    else if |s| == 1 then [First(s[0])]
    else if |s| == 2 then [First(s[0]), Second(s[0], s[1])]
    else [First(s[0]), Second(s[0], s[1]), Third(s[1], s[2]), Fourth(s[2])] + Partial(s[3..])
  }

  // What byte i adds.
  function Added(s: seq<byte>, i: nat): seq<sextet>
    requires i < |s|
  {
    if i % 3 == 0 then [First(s[i])]
    else if i % 3 == 1 then [Second(s[i - 1], s[i])]
    else [Third(s[i - 1], s[i]), Fourth(s[i])]
  }

  lemma {:induction false} PartialStep(s: seq<byte>, i: nat)
    requires i < |s|
    ensures Partial(s[..i + 1]) == Partial(s[..i]) + Added(s, i)
    ensures |Partial(s[..i])| == i + i / 3
    decreases i
  {
    hide First, Second, Third, Fourth;
    if i >= 3 {
      PartialStep(s[3..], i - 3);
      assert s[..i + 1][3..] == s[3..][..i - 2] && s[..i][3..] == s[3..][..i - 3];
    } else if i == 2 {
      assert s[..3][3..] == [];
    }
  }

  // The bits left over at the end.
  function Rest(s: seq<byte>): seq<sextet>
    requires s != []
  {
    var c := s[|s| - 1];
    if |s| % 3 == 1 then [Second(c, 0)] else if |s| % 3 == 2 then [Third(c, 0)] else []
  }

  lemma {:induction false} PartialAndRest(s: seq<byte>)
    requires s != []
    ensures Sextets(s) == Partial(s) + Rest(s)
    decreases |s|
  {
    hide First, Second, Third, Fourth;
    if |s| > 3 {
      PartialAndRest(s[3..]);
      assert Rest(s) == Rest(s[3..]);
    }
  }

  // The output up to j stands for the sextets done.
  ghost predicate Holds(out: array<byte>, j: nat, done: seq<sextet>)
    reads out
  {
    j == |done| <= out.Length && out[..j] == Chars(done)
  }

  // Append to the output.
  method Put(out: array<byte>, j: nat, ghost done: seq<sextet>, v: sextet) returns (next: nat)
    requires Holds(out, j, done) && j < out.Length
    modifies out
    ensures next == j + 1 && Holds(out, next, done + [v])
    ensures forall p :: j < p < out.Length ==> out[p] == old(out[p])
  {
    out[j] := En(v);
    next := j + 1;
    assert out[..next] == Chars(done) + [En(v)];
  }

  method PutByte(s: seq<byte>, i: nat, out: array<byte>, j: nat) returns (next: nat)
    requires i < |s| && Holds(out, j, Partial(s[..i])) && |Partial(s[..i + 1])| <= out.Length
    modifies out
    ensures Holds(out, next, Partial(s[..i + 1]))
    ensures forall p :: next <= p < out.Length ==> out[p] == old(out[p])
  {
    hide Holds, Partial;
    PartialStep(s, i);
    ghost var done := Partial(s[..i]);
    Size(out, j, done);
    if i % 3 == 0 {
      next := Put(out, j, done, s[i] / 4);
    } else if i % 3 == 1 {
      next := Put(out, j, done, s[i - 1] % 4 * 16 + s[i] / 16);
    } else {
      next := Put(out, j, done, s[i - 1] % 16 * 4 + s[i] / 64);
      next := Put(out, next, done + [Third(s[i - 1], s[i])], s[i] % 64);
      assert done + [Third(s[i - 1], s[i])] + [Fourth(s[i])] == done + Added(s, i);
    }
  }

  lemma Size(out: array<byte>, j: nat, done: seq<sextet>)
    requires Holds(out, j, done)
    ensures j == |done|
  {
  }

  // Flush the last bits and pad; i is the index of the last byte.
  method Finish(s: seq<byte>, i: nat, out: array<byte>, j: nat)
    requires |s| == i + 1 && Holds(out, j, Partial(s)) && |Encoded(s)| <= out.Length
    modifies out
    ensures out[..|Encoded(s)|] == Encoded(s)
    ensures forall p :: |Encoded(s)| <= p < out.Length ==> out[p] == old(out[p])
  {
    hide Partial, Sextets, Chars;
    PartialAndRest(s);
    var next := j;
    if i % 3 == 0 {
      next := Put(out, j, Partial(s), s[i] % 4 * 16);
      out[next], out[next + 1] := PAD, PAD;
    } else if i % 3 == 1 {
      next := Put(out, j, Partial(s), s[i] % 16 * 4);
      out[next] := PAD;
    } else {
      assert Partial(s) + [] == Partial(s);
    }
  }

  method Encode(s: seq<byte>, out: array<byte>)
    requires s != [] && |Encoded(s)| <= out.Length
    modifies out
    ensures out[..|Encoded(s)|] == Encoded(s)
    ensures forall p :: |Encoded(s)| <= p < out.Length ==> out[p] == old(out[p])
  {
    hide Partial, Sextets, Chars, Encoded;
    SextetsLength(s);
    var n := |s|;
    var i, j := 0, 0;
    PartialStart(s, out);
    while i < n
      invariant i <= n && Holds(out, j, Partial(s[..i]))
      invariant forall p :: |Encoded(s)| <= p < out.Length ==> out[p] == old(out[p])
    {
      PartialLength(s, i + 1);
      j := PutByte(s, i, out, j);
      i := i + 1;
    }
    assert s[..n] == s;
    i := i - 1;
    Finish(s, i, out, j);
  }

  lemma PartialStart(s: seq<byte>, out: array<byte>)
    ensures Holds(out, 0, Partial(s[..0]))
  {
  }

  lemma PartialLength(s: seq<byte>, i: nat)
    requires i <= |s|
    ensures |Partial(s[..i])| <= |Encoded(s)|
  {
    SextetsLength(s);
    if i < |s| {
      PartialStep(s, i);
    } else if s != [] {
      assert s[..i] == s;
      PartialAndRest(s);
    }
  }

  // ----- Decoding -----

  // The first character outside the alphabet, which the padding is too.
  function Stop(s: seq<byte>): (k: nat)
    ensures k <= |s| && (k < |s| ==> De(s[k]) == -1)
    ensures forall i :: 0 <= i < k ==> De(s[i]) != -1
  {
    if s == [] || De(s[0]) == -1 then 0 else 1 + Stop(s[1..])
  }

  // The values of the characters before k.
  function Values(s: seq<byte>, k: nat): (v: seq<sextet>)
    requires k <= Stop(s)
    ensures |v| == k
  {
    seq(k, i requires 0 <= i < k => De(s[i]))
  }

  // The byte that sextet i completes.
  function Completed(v: seq<sextet>, i: nat): seq<byte>
    requires i < |v|
  {
    if i % 4 == 0 then []
    else if i % 4 == 1 then [Low(v[i - 1], v[i])]
    else if i % 4 == 2 then [Middle(v[i - 1], v[i])]
    else [High(v[i - 1], v[i])]
  }

  lemma {:induction false} BytesStep(v: seq<sextet>, i: nat)
    requires i < |v|
    ensures Bytes(v[..i + 1]) == Bytes(v[..i]) + Completed(v, i)
    decreases i
  {
    hide Low, Middle, High, Completed, Bytes;
    if i >= 4 {
      BytesStep(v[4..], i - 4);
      FirstGroup(v, i);
      FirstGroup(v, i + 1);
      CompletedShift(v, i);
    } else {
      FirstBytes(v, i);
    }
  }

  lemma FirstGroup(v: seq<sextet>, i: nat)
    requires 4 <= i <= |v|
    ensures Bytes(v[..i]) == [Low(v[0], v[1]), Middle(v[1], v[2]), High(v[2], v[3])] + Bytes(v[4..][..i - 4])
  {
    hide Low, Middle, High;
    assert v[..i][4..] == v[4..][..i - 4];
  }

  lemma CompletedShift(v: seq<sextet>, i: nat)
    requires 4 <= i < |v|
    ensures Completed(v, i) == Completed(v[4..], i - 4)
  {
    hide Low, Middle, High;
    assert (i - 4) % 4 == i % 4;
  }

  lemma FirstBytes(v: seq<sextet>, i: nat)
    requires i < |v| && i < 4
    ensures Bytes(v[..i + 1]) == Bytes(v[..i]) + Completed(v, i)
  {
    hide Low, Middle, High;
    if i == 3 {
      assert v[..4][4..] == [];
    }
  }

  lemma {:induction false} BytesLength(v: seq<sextet>)
    ensures |Bytes(v)| == |v| * 3 / 4
  {
    if |v| >= 4 {
      BytesLength(v[4..]);
    }
  }

  // The part of the next byte that the sextet before i already gives.
  function Begun(s: seq<byte>, i: nat): byte
    requires 0 < i <= Stop(s)
  {
    var p: sextet := De(s[i - 1]);
    if i % 4 == 1 then Low(p, 0) else if i % 4 == 2 then Middle(p, 0) else High(p, 0)
  }

  // The look-ahead of the loop: only padding follows, and the bits left over are dropped.
  predicate LastBeforePadding(s: seq<byte>, i: nat) {
    || (i % 4 == 2 && 3 <= |s| && i >= |s| - 2 && s[|s| - 2] == PAD)
    || (i % 4 == 3 && 2 <= |s| && i >= |s| - 1 && s[|s| - 1] == PAD)
  }

  // How many positions of the output decoding s may write.
  function Touched(s: seq<byte>): nat {
    var k := Stop(s);
    k * 3 / 4 + (if k % 4 == 0 || LastBeforePadding(s, k) then 0 else 1)
  }

  // After i characters: the whole bytes, and the one begun.
  ghost predicate Read(s: seq<byte>, i: nat, out: array<byte>, j: nat)
    reads out
  {
    && i <= Stop(s) && j == |Bytes(Values(s, i))| <= out.Length
    && out[..j] == Bytes(Values(s, i))
    && (i < Stop(s) && i % 4 != 0 ==> j < out.Length && out[j] == Begun(s, i))
  }

  // Room for the byte at hand, and for the one that the next character begins.
  lemma RoomFor(s: seq<byte>, i: nat, j: nat)
    requires i < Stop(s) && j == |Bytes(Values(s, i))|
    ensures j + 1 <= Touched(s)
    ensures (i % 4 == 1 || i % 4 == 2) && !LastBeforePadding(s, i + 1) ==> j + 2 <= Touched(s)
  {
    hide Values, Bytes;
    BytesLength(Values(s, i));
    RoomArithmetic(i / 4, i % 4);
    if i + 1 < Stop(s) {
      assert (i + 2) * 3 / 4 <= Stop(s) * 3 / 4;
    } else {
      assert Stop(s) == i + 1;
    }
  }

  lemma RoomArithmetic(q: nat, r: nat)
    requires r < 4
    ensures var i := 4 * q + r;
      && i * 3 / 4 == 3 * q + (if r < 2 then 0 else r - 1)
      && (i + 1) * 3 / 4 == 3 * q + r
      && (i + 2) * 3 / 4 == 3 * q + (if r == 3 then 3 else r + 1)
      && (i + 1) % 4 == (if r == 3 then 0 else r + 1)
  {
    Quarters(q, 3 * r);
    Quarters(q, 3 * r + 3);
    Quarters(q, 3 * r + 6);
    DivModUnique(4 * q + r + 1, 4, if r == 3 then q + 1 else q, if r == 3 then 0 else r + 1);
  }

  lemma Quarters(q: nat, k: nat)
    requires k < 16
    ensures (12 * q + k) / 4 == 3 * q + (if k < 4 then 0 else if k < 8 then 1 else if k < 12 then 2 else 3)
  {
    var d := if k < 4 then 0 else if k < 8 then 1 else if k < 12 then 2 else 3;
    DivModUnique(12 * q + k, 4, 3 * q + d, k - 4 * d);
  }

  // Only when nothing of the alphabet follows are the bits left over dropped.
  lemma NothingFollows(s: seq<byte>, i: nat)
    requires 0 < i <= Stop(s) && LastBeforePadding(s, i)
    ensures i == Stop(s)
  {
    assert De(PAD) == -1;
  }

  lemma ValuesStep(s: seq<byte>, i: nat)
    requires i < Stop(s)
    ensures Bytes(Values(s, i + 1)) == Bytes(Values(s, i)) + Completed(Values(s, i + 1), i)
  {
    BytesStep(Values(s, i + 1), i);
    assert Values(s, i + 1)[..i + 1] == Values(s, i + 1);
    assert Values(s, i + 1)[..i] == Values(s, i);
  }

  lemma LowSum(p: sextet, q: sextet)
    ensures Low(p, q) == (Low(p, 0) + q / 16 % 4) % 256
  {
    assert q / 16 < 4;
  }

  lemma MiddleSum(p: sextet, q: sextet)
    ensures Middle(p, q) == (Middle(p, 0) + q / 4 % 16) % 256
  {
    assert q / 4 < 16;
  }

  lemma HighSum(p: sextet, q: sextet)
    ensures High(p, q) == (High(p, 0) + q) % 256
  {
    var r := p % 4;
    assert r <= 3 && r * 64 + q < 256;
  }

  // What is added to the byte begun to complete it, and what begins the next.
  lemma Completing(s: seq<byte>, i: nat)
    requires i < Stop(s)
    ensures i % 4 == 0 ==> Completed(Values(s, i + 1), i) == []
    ensures i % 4 == 1 ==> Completed(Values(s, i + 1), i) == [(Begun(s, i) + De(s[i]) / 16 % 4) % 256]
    ensures i % 4 == 2 ==> Completed(Values(s, i + 1), i) == [(Begun(s, i) + De(s[i]) / 4 % 16) % 256]
    ensures i % 4 == 3 ==> Completed(Values(s, i + 1), i) == [(Begun(s, i) + De(s[i])) % 256]
  {
    hide De, Low, Middle, High, Stop;
    var v := Values(s, i + 1);
    if i % 4 == 1 {
      LowSum(v[i - 1], v[i]);
    } else if i % 4 == 2 {
      MiddleSum(v[i - 1], v[i]);
    } else if i % 4 == 3 {
      HighSum(v[i - 1], v[i]);
    }
  }

  lemma Beginning(s: seq<byte>, i: nat)
    requires i < Stop(s)
    ensures i % 4 == 0 ==> Begun(s, i + 1) == De(s[i]) * 4 % 256
    ensures i % 4 == 1 ==> Begun(s, i + 1) == De(s[i]) % 16 * 16
    ensures i % 4 == 2 ==> Begun(s, i + 1) == De(s[i]) % 4 * 64
  {
    hide De;
    RoomArithmetic(i / 4, i % 4);
  }

  method ReadChar(s: seq<byte>, i: nat, out: array<byte>, j: nat) returns (next: nat)
    requires Read(s, i, out, j) && i < Stop(s) && Touched(s) <= out.Length
    modifies out
    ensures Read(s, i + 1, out, next)
    ensures forall p :: Touched(s) <= p < out.Length ==> out[p] == old(out[p])
  {
    hide Bytes, Touched, Values, Completed, Begun, De;
    var c: sextet := De(s[i]);
    ValuesStep(s, i);
    RoomFor(s, i, j);
    assert (i + 1) % 4 == if i % 4 == 3 then 0 else i % 4 + 1;
    Completing(s, i);
    Beginning(s, i);
    if LastBeforePadding(s, i + 1) {
      NothingFollows(s, i + 1);
    }
    ghost var done := out[..j];
    next := j;
    if i % 4 == 0 {
      out[j] := c * 4 % 256;
    } else if i % 4 == 1 {
      out[j] := (out[j] + c / 16 % 4) % 256;
      next := j + 1;
      if (|s| < 3 || i < |s| - 3) || s[|s| - 2] != PAD {
        out[next] := c % 16 * 16;
      }
    } else if i % 4 == 2 {
      out[j] := (out[j] + c / 4 % 16) % 256;
      next := j + 1;
      if (|s| < 2 || i < |s| - 2) || s[|s| - 1] != PAD {
        out[next] := c % 4 * 64;
      }
    } else {
      out[j] := (out[j] + c) % 256;
      next := j + 1;
    }
    assert out[..j] == done;
    assert next == j + 1 ==> out[..next] == done + [out[j]];
  }

  // Whether the first character outside the alphabet is an error rather than padding.
  predicate Rejected(s: seq<byte>) {
    Stop(s) < |s| && s[Stop(s)] != PAD
  }

  // The bytes that the characters before it stand for.
  function Decoded(s: seq<byte>): seq<byte> {
    Bytes(Values(s, Stop(s)))
  }

  // The result of the decoder: a length, or the error code, which is a length too.
  function Returned(s: seq<byte>): nat {
    if Rejected(s) then INVALID else |Decoded(s)|
  }

  method Decode(s: seq<byte>, out: array<byte>) returns (r: int)
    requires Touched(s) <= out.Length
    modifies out
    ensures r == Returned(s)
    ensures |Decoded(s)| <= out.Length && out[..|Decoded(s)|] == Decoded(s)
    ensures forall p :: Touched(s) <= p < out.Length ==> out[p] == old(out[p])
  {
    hide Bytes, Touched, Begun;
    var i, j := 0, 0;
    assert Read(s, 0, out, 0) by { assert |Values(s, 0)| == 0; BytesOfNone(); }
    while i < |s|
      invariant i <= |s| && Read(s, i, out, j)
      invariant forall p :: Touched(s) <= p < out.Length ==> out[p] == old(out[p])
    {
      if s[i] == PAD {
        return j;
      }
      if De(s[i]) == -1 {
        return INVALID;
      }
      j := ReadChar(s, i, out, j);
      i := i + 1;
    }
    r := j;
  }

  lemma BytesOfNone()
    ensures Bytes([]) == []
  {
  }

  // ----- What the result tells -----

  // A result other than 1 is a length; 1 means an error, or two characters and so one byte.
  lemma ResultRead(s: seq<byte>)
    ensures Returned(s) != INVALID ==> !Rejected(s) && Returned(s) == |Decoded(s)|
    ensures Returned(s) == INVALID <==> Rejected(s) || Stop(s) == 2
  {
    hide Bytes, Values;
    BytesLength(Values(s, Stop(s)));
  }

  // "!" is an error and "QQ==" is the byte 65, and both give 1.
  lemma ErrorLooksLikeLength()
    ensures Rejected([33]) && Returned([33]) == 1
    ensures !Rejected([81, 81, PAD, PAD]) && Decoded([81, 81, PAD, PAD]) == [65] && Returned([81, 81, PAD, PAD]) == 1
  {
    var s: seq<byte> := [81, 81, PAD, PAD];
    assert s[1..] == [81, PAD, PAD] && s[1..][1..] == [PAD, PAD];
    assert Stop(s[1..][1..]) == 0 && Stop(s[1..]) == 1 && Stop(s) == 2;
    assert Values(s, 2) == [16, 16];
    assert Low(16, 16) == 65;
  }

  // The result tells whether the text was rejected exactly when it was not, and does not stand for
  // two characters and so one byte.
  lemma OutcomeTold(s: seq<byte>)
    ensures (forall t :: Returned(t) == Returned(s) ==> (Rejected(t) <==> Rejected(s))) <==> !Rejected(s) && Stop(s) != 2
  {
    hide Returned, Rejected, Decoded, Stop;
    ResultRead(s);
    if Returned(s) == INVALID {
      ErrorLooksLikeLength();
      var rejected, accepted: seq<byte> := [33], [81, 81, PAD, PAD];
      assert Returned(rejected) == Returned(s) == Returned(accepted);
    } else {
      forall t | Returned(t) == Returned(s)
        ensures !Rejected(t)
      {
        ResultRead(t);
      }
    }
  }

  // ----- There and back -----

  lemma {:induction false} StopAfterChars(v: seq<sextet>, rest: seq<byte>)
    requires rest == [] || De(rest[0]) == -1
    ensures Stop(Chars(v) + rest) == |v|
    decreases |v|
  {
    hide En, De;
    if v == [] {
      assert Chars(v) + rest == rest;
    } else {
      AlphabetRead(v[0]);
      StopAfterChars(v[1..], rest);
      assert (Chars(v) + rest)[1..] == Chars(v[1..]) + rest;
    }
  }

  lemma ValuesOfChars(v: seq<sextet>, rest: seq<byte>)
    requires rest == [] || De(rest[0]) == -1
    ensures Stop(Chars(v) + rest) == |v| && Values(Chars(v) + rest, |v|) == v
  {
    StopAfterChars(v, rest);
    hide En, De, Stop;
    forall i | 0 <= i < |v|
      ensures Values(Chars(v) + rest, |v|)[i] == v[i]
    {
      AlphabetRead(v[i]);
    }
  }

  // What the decoder makes of the encoder's output: the original bytes, nothing written behind
  // them, and no complaint.
  lemma EncodedDecodes(s: seq<byte>)
    ensures var e := Encoded(s);
      Decoded(e) == s && !Rejected(e) && Touched(e) == |s|
  {
    hide Chars, Sextets, Bytes, Stop, Values, De;
    var v, e := Sextets(s), Encoded(s);
    SextetsLength(s);
    PadRead();
    ValuesOfChars(v, Padding(|s|));
    BytesOfSextets(s);
    BytesLength(v);
    assert Stop(e) < |e| ==> e[Stop(e)] == Padding(|s|)[0];
    TailArithmetic(|s|);
  }

  lemma PadRead()
    ensures De(PAD) == -1
  {
  }

  lemma TailArithmetic(n: nat)
    ensures var k := n + (n + 2) / 3;
      && k % 4 == (if n % 3 == 0 then 0 else n % 3 + 1)
      && (n % 3 == 0 <==> k == (n + 2) / 3 * 4)
  {
    var q, r := n / 3, n % 3;
    if r == 0 {
      DivModUnique(n + 2, 3, q, 2);
      DivModUnique(4 * q, 4, q, 0);
    } else {
      DivModUnique(n + 2, 3, q + 1, r - 1);
      DivModUnique(4 * q + r + 1, 4, q, r + 1);
    }
  }

  // Encode, then decode into a buffer of exactly the original size.
  method RoundTrip(s: seq<byte>) returns (r: int, out: array<byte>)
    requires s != []
    ensures r == |s| == out.Length && out[..] == s
  {
    hide Encoded, Stop, Values, Bytes, Touched, De;
    EncodedDecodes(s);
    var text := new byte[|Encoded(s)|];
    Encode(s, text);
    assert text[..] == Encoded(s);
    out := new byte[|s|];
    r := Decode(text[..], out);
    assert out[..] == out[..|s|];
  }
}
