/** The round steps and the cipher as they run: in place, on sixteen bytes of a buffer. */
module AesInPlace {
  import opened GaloisField
  import opened AesCipher

  // The sixteen bytes at off, which the code casts to a state pointer.
  ghost function StateAt(buf: array<bv8>, off: nat): State
    requires off + 16 <= buf.Length
    reads buf
  {
    State(ColumnAt(buf, off), ColumnAt(buf, off + 4), ColumnAt(buf, off + 8), ColumnAt(buf, off + 12))
  }

  ghost function ColumnAt(buf: array<bv8>, off: nat): Column
    requires off + 4 <= buf.Length
    reads buf
  {
    Column(buf[off], buf[off + 1], buf[off + 2], buf[off + 3])
  }

  // Nothing outside the n bytes at off has changed.
  twostate predicate OnlyChanged(buf: array<bv8>, off: nat, n: nat)
    reads buf
  {
    forall p :: 0 <= p < buf.Length && !(off <= p < off + n) ==> buf[p] == old(buf[p])
  }

  method AddColumnInPlace(buf: array<bv8>, off: nat, roundKey: array<bv8>, keyOff: nat)
    requires off + 4 <= buf.Length && keyOff + 4 <= roundKey.Length && buf != roundKey
    modifies buf
    ensures ColumnAt(buf, off) == AddColumn(old(ColumnAt(buf, off)), ColumnAt(roundKey, keyOff))
    ensures OnlyChanged(buf, off, 4)
  {
    hide Xor;
    for j := 0 to 4
      invariant buf[off] == if 0 < j then Xor(old(buf[off]), roundKey[keyOff]) else old(buf[off])
      invariant buf[off + 1] == if 1 < j then Xor(old(buf[off + 1]), roundKey[keyOff + 1]) else old(buf[off + 1])
      invariant buf[off + 2] == if 2 < j then Xor(old(buf[off + 2]), roundKey[keyOff + 2]) else old(buf[off + 2])
      invariant buf[off + 3] == if 3 < j then Xor(old(buf[off + 3]), roundKey[keyOff + 3]) else old(buf[off + 3])
      invariant OnlyChanged(buf, off, 4)
    {
      buf[off + j] := Xor(buf[off + j], roundKey[keyOff + j]);
    }
  }

  method AddRoundKeyInPlace(round: nat, buf: array<bv8>, off: nat, roundKey: array<bv8>)
    requires round <= ROUNDS && off + 16 <= buf.Length && roundKey.Length == EXPANDED_KEY_LEN && buf != roundKey
    modifies buf
    ensures StateAt(buf, off) == AddRoundKey(old(StateAt(buf, off)), roundKey[..], round)
    ensures OnlyChanged(buf, off, 16)
  {
    for i := 0 to 4
      invariant ColumnAt(buf, off) == if 0 < i then AddColumn(old(ColumnAt(buf, off)), ColumnAt(roundKey, 16 * round)) else old(ColumnAt(buf, off))
      invariant ColumnAt(buf, off + 4) == if 1 < i then AddColumn(old(ColumnAt(buf, off + 4)), ColumnAt(roundKey, 16 * round + 4)) else old(ColumnAt(buf, off + 4))
      invariant ColumnAt(buf, off + 8) == if 2 < i then AddColumn(old(ColumnAt(buf, off + 8)), ColumnAt(roundKey, 16 * round + 8)) else old(ColumnAt(buf, off + 8))
      invariant ColumnAt(buf, off + 12) == if 3 < i then AddColumn(old(ColumnAt(buf, off + 12)), ColumnAt(roundKey, 16 * round + 12)) else old(ColumnAt(buf, off + 12))
      invariant OnlyChanged(buf, off, 16)
    {
      AddColumnInPlace(buf, off + i * 4, roundKey, round * 4 * 4 + i * 4);
    }
    StateAtIsLoad(roundKey, 16 * round);
  }

  lemma StateAtIsLoad(buf: array<bv8>, off: nat)
    requires off + 16 <= buf.Length
    ensures StateAt(buf, off) == Load(buf[..], off)
  {
  }

  // One row, as the inner loop of the substitution visits it.
  method SubstituteRowInPlace(table: bv8 -> bv8, buf: array<bv8>, off: nat)
    requires off + 13 <= buf.Length
    modifies buf
    ensures buf[off] == table(old(buf[off])) && buf[off + 4] == table(old(buf[off + 4]))
    ensures buf[off + 8] == table(old(buf[off + 8])) && buf[off + 12] == table(old(buf[off + 12]))
    ensures forall p :: 0 <= p < buf.Length && p !in {off, off + 4, off + 8, off + 12} ==> buf[p] == old(buf[p])
  {
    for j := 0 to 4
      invariant buf[off] == if 0 < j then table(old(buf[off])) else old(buf[off])
      invariant buf[off + 4] == if 1 < j then table(old(buf[off + 4])) else old(buf[off + 4])
      invariant buf[off + 8] == if 2 < j then table(old(buf[off + 8])) else old(buf[off + 8])
      invariant buf[off + 12] == if 3 < j then table(old(buf[off + 12])) else old(buf[off + 12])
      invariant forall p :: 0 <= p < buf.Length && p !in {off, off + 4, off + 8, off + 12} ==> buf[p] == old(buf[p])
    {
      buf[off + 4 * j] := table(buf[off + 4 * j]);
    }
  }

  // SubBytes and InvSubBytes run the same loops and differ in the table only.
  method SubstituteInPlace(table: bv8 -> bv8, buf: array<bv8>, off: nat)
    requires off + 16 <= buf.Length
    modifies buf
    ensures StateAt(buf, off) == Substitute(table, old(StateAt(buf, off)))
    ensures OnlyChanged(buf, off, 16)
  {
    for i := 0 to 4
      invariant forall p :: off <= p < off + 16 ==>
        buf[p] == if (p - off) % 4 < i then table(old(buf[p])) else old(buf[p])
      invariant OnlyChanged(buf, off, 16)
    {
      SubstituteRowInPlace(table, buf, off + i);
    }
  }

  method SubBytesInPlace(buf: array<bv8>, off: nat)
    requires off + 16 <= buf.Length
    modifies buf
    ensures StateAt(buf, off) == SubBytes(old(StateAt(buf, off)))
    ensures OnlyChanged(buf, off, 16)
  {
    SubstituteInPlace(SBox, buf, off);
  }

  method InvSubBytesInPlace(buf: array<bv8>, off: nat)
    requires off + 16 <= buf.Length
    modifies buf
    ensures StateAt(buf, off) == InvSubBytes(old(StateAt(buf, off)))
    ensures OnlyChanged(buf, off, 16)
  {
    SubstituteInPlace(RSBox, buf, off);
  }

  // Four cells move one place to the left, the first one wrapping round.
  method Rotate4(buf: array<bv8>, a: nat, b: nat, c: nat, d: nat)
    requires a < buf.Length && b < buf.Length && c < buf.Length && d < buf.Length
    requires a != b && a != c && a != d && b != c && b != d && c != d
    modifies buf
    ensures buf[a] == old(buf[b]) && buf[b] == old(buf[c]) && buf[c] == old(buf[d]) && buf[d] == old(buf[a])
    ensures forall p :: 0 <= p < buf.Length && p != a && p != b && p != c && p != d ==> buf[p] == old(buf[p])
  {
    var temp := buf[a];
    buf[a] := buf[b];
    buf[b] := buf[c];
    buf[c] := buf[d];
    buf[d] := temp;
  }

  method Swap(buf: array<bv8>, a: nat, b: nat)
    requires a < buf.Length && b < buf.Length
    modifies buf
    ensures buf[a] == old(buf[b]) && buf[b] == old(buf[a])
    ensures forall p :: 0 <= p < buf.Length && p != a && p != b ==> buf[p] == old(buf[p])
  {
    var temp := buf[a];
    buf[a] := buf[b];
    buf[b] := temp;
  }

  method ShiftRowsInPlace(buf: array<bv8>, off: nat)
    requires off + 16 <= buf.Length
    modifies buf
    ensures StateAt(buf, off) == ShiftRows(old(StateAt(buf, off)))
    ensures OnlyChanged(buf, off, 16)
  {
    Rotate4(buf, off + 1, off + 5, off + 9, off + 13);
    Swap(buf, off + 2, off + 10);
    Swap(buf, off + 6, off + 14);
    Rotate4(buf, off + 3, off + 15, off + 11, off + 7);
  }

  method InvShiftRowsInPlace(buf: array<bv8>, off: nat)
    requires off + 16 <= buf.Length
    modifies buf
    ensures StateAt(buf, off) == InvShiftRows(old(StateAt(buf, off)))
    ensures OnlyChanged(buf, off, 16)
  {
    Rotate4(buf, off + 13, off + 9, off + 5, off + 1);
    Swap(buf, off + 2, off + 10);
    Swap(buf, off + 6, off + 14);
    Rotate4(buf, off + 3, off + 7, off + 11, off + 15);
  }

  // The update MixColumns makes to one byte: x ^= Tm ^ Tmp.
  function MixUpdate(x: bv8, tm: bv8, tmp: bv8): bv8 {
    x ^ (tm ^ tmp)
  }

  lemma MixUpdateIsSum(a: bv8, a1: bv8, b1: bv8, b: bv8, c: bv8, d: bv8)
    ensures MixUpdate(a, a1 ^ b1, a ^ b ^ c ^ d) == Sum5(a1, b1, b, c, d)
  {
  }

  // The code's single doubling per byte computes the circulant product.
  lemma MixUpdateIsMixByte(a: bv8, b: bv8, c: bv8, d: bv8)
    ensures MixUpdate(a, XTime(Xor(a, b)), Sum4(a, b, c, d)) == MixByte(a, b, c, d)
  {
    hide XTime, MixUpdate, MixByte, Sum5;
    XTimeXor(a, b);
    MixByteAsSum(a, b, c, d);
    MixUpdateIsSum(a, XTime(a), XTime(b), b, c, d);
  }

  lemma SumRotates(a: bv8, b: bv8, c: bv8, d: bv8)
    ensures Sum4(a, b, c, d) == Sum4(b, c, d, a)
  {
  }

  lemma MixColumnUpdates(a: bv8, b: bv8, c: bv8, d: bv8)
    ensures MixUpdate(a, XTime(Xor(a, b)), Sum4(a, b, c, d)) == MixByte(a, b, c, d)
    ensures MixUpdate(b, XTime(Xor(b, c)), Sum4(a, b, c, d)) == MixByte(b, c, d, a)
    ensures MixUpdate(c, XTime(Xor(c, d)), Sum4(a, b, c, d)) == MixByte(c, d, a, b)
    ensures MixUpdate(d, XTime(Xor(d, a)), Sum4(a, b, c, d)) == MixByte(d, a, b, c)
  {
    hide XTime, MixUpdate, MixByte, Sum4, Xor;
    SumRotates(a, b, c, d);
    SumRotates(b, c, d, a);
    SumRotates(c, d, a, b);
    MixUpdateIsMixByte(a, b, c, d);
    MixUpdateIsMixByte(b, c, d, a);
    MixUpdateIsMixByte(c, d, a, b);
    MixUpdateIsMixByte(d, a, b, c);
  }

  method MixColumnInPlace(buf: array<bv8>, off: nat)
    requires off + 4 <= buf.Length
    modifies buf
    ensures ColumnAt(buf, off) == MixColumn(old(ColumnAt(buf, off)))
    ensures OnlyChanged(buf, off, 4)
  {
    hide XTime, Xor, Sum4, MixUpdate, MixByte;
    ghost var a, b, c, d := buf[off], buf[off + 1], buf[off + 2], buf[off + 3];
    var t := buf[off];
    var tmp := Sum4(buf[off], buf[off + 1], buf[off + 2], buf[off + 3]);
    var tm := XTime(Xor(buf[off], buf[off + 1]));
    buf[off] := MixUpdate(buf[off], tm, tmp);
    tm := XTime(Xor(buf[off + 1], buf[off + 2]));
    buf[off + 1] := MixUpdate(buf[off + 1], tm, tmp);
    tm := XTime(Xor(buf[off + 2], buf[off + 3]));
    buf[off + 2] := MixUpdate(buf[off + 2], tm, tmp);
    tm := XTime(Xor(buf[off + 3], t));
    buf[off + 3] := MixUpdate(buf[off + 3], tm, tmp);
    MixColumnUpdates(a, b, c, d);
  }

  method MixColumnsInPlace(buf: array<bv8>, off: nat)
    requires off + 16 <= buf.Length
    modifies buf
    ensures StateAt(buf, off) == MixColumns(old(StateAt(buf, off)))
    ensures OnlyChanged(buf, off, 16)
  {
    for i := 0 to 4
      invariant ColumnAt(buf, off) == if 0 < i then MixColumn(old(ColumnAt(buf, off))) else old(ColumnAt(buf, off))
      invariant ColumnAt(buf, off + 4) == if 1 < i then MixColumn(old(ColumnAt(buf, off + 4))) else old(ColumnAt(buf, off + 4))
      invariant ColumnAt(buf, off + 8) == if 2 < i then MixColumn(old(ColumnAt(buf, off + 8))) else old(ColumnAt(buf, off + 8))
      invariant ColumnAt(buf, off + 12) == if 3 < i then MixColumn(old(ColumnAt(buf, off + 12))) else old(ColumnAt(buf, off + 12))
      invariant OnlyChanged(buf, off, 16)
    {
      MixColumnInPlace(buf, off + 4 * i);
    }
  }

  // The decryptor's row of products, computed with its five-bit multiplication.
  lemma ProductsAreInvMixByte(a: bv8, b: bv8, c: bv8, d: bv8)
    ensures Sum4(Multiply(a, 0x0e), Multiply(b, 0x0b), Multiply(c, 0x0d), Multiply(d, 0x09)) == InvMixByte(a, b, c, d)
  {
    MultiplyIsTimes(a, 0x0e);
    MultiplyIsTimes(b, 0x0b);
    MultiplyIsTimes(c, 0x0d);
    MultiplyIsTimes(d, 0x09);
  }

  method InvMixColumnInPlace(buf: array<bv8>, off: nat)
    requires off + 4 <= buf.Length
    modifies buf
    ensures ColumnAt(buf, off) == InvMixColumn(old(ColumnAt(buf, off)))
    ensures OnlyChanged(buf, off, 4)
  {
    var a, b, c, d := buf[off], buf[off + 1], buf[off + 2], buf[off + 3];
    ProductsAreInvMixByte(a, b, c, d);
    ProductsAreInvMixByte(b, c, d, a);
    ProductsAreInvMixByte(c, d, a, b);
    ProductsAreInvMixByte(d, a, b, c);
    buf[off] := Sum4(Multiply(a, 0x0e), Multiply(b, 0x0b), Multiply(c, 0x0d), Multiply(d, 0x09));
    buf[off + 1] := Sum4(Multiply(b, 0x0e), Multiply(c, 0x0b), Multiply(d, 0x0d), Multiply(a, 0x09));
    buf[off + 2] := Sum4(Multiply(c, 0x0e), Multiply(d, 0x0b), Multiply(a, 0x0d), Multiply(b, 0x09));
    buf[off + 3] := Sum4(Multiply(d, 0x0e), Multiply(a, 0x0b), Multiply(b, 0x0d), Multiply(c, 0x09));
  }

  method InvMixColumnsInPlace(buf: array<bv8>, off: nat)
    requires off + 16 <= buf.Length
    modifies buf
    ensures StateAt(buf, off) == InvMixColumns(old(StateAt(buf, off)))
    ensures OnlyChanged(buf, off, 16)
  {
    for i := 0 to 4
      invariant ColumnAt(buf, off) == if 0 < i then InvMixColumn(old(ColumnAt(buf, off))) else old(ColumnAt(buf, off))
      invariant ColumnAt(buf, off + 4) == if 1 < i then InvMixColumn(old(ColumnAt(buf, off + 4))) else old(ColumnAt(buf, off + 4))
      invariant ColumnAt(buf, off + 8) == if 2 < i then InvMixColumn(old(ColumnAt(buf, off + 8))) else old(ColumnAt(buf, off + 8))
      invariant ColumnAt(buf, off + 12) == if 3 < i then InvMixColumn(old(ColumnAt(buf, off + 12))) else old(ColumnAt(buf, off + 12))
      invariant OnlyChanged(buf, off, 16)
    {
      InvMixColumnInPlace(buf, off + 4 * i);
    }
  }

  method RoundInPlace(round: nat, buf: array<bv8>, off: nat, roundKey: array<bv8>)
    requires round <= ROUNDS && off + 16 <= buf.Length && roundKey.Length == EXPANDED_KEY_LEN && buf != roundKey
    modifies buf
    ensures StateAt(buf, off) == AddRoundKey(MixColumns(Scramble(old(StateAt(buf, off)))), roundKey[..], round)
    ensures OnlyChanged(buf, off, 16)
  {
    SubBytesInPlace(buf, off);
    ShiftRowsInPlace(buf, off);
    MixColumnsInPlace(buf, off);
    AddRoundKeyInPlace(round, buf, off, roundKey);
  }

  method LastRoundInPlace(buf: array<bv8>, off: nat, roundKey: array<bv8>)
    requires off + 16 <= buf.Length && roundKey.Length == EXPANDED_KEY_LEN && buf != roundKey
    modifies buf
    ensures StateAt(buf, off) == AddRoundKey(Scramble(old(StateAt(buf, off))), roundKey[..], ROUNDS)
    ensures OnlyChanged(buf, off, 16)
  {
    SubBytesInPlace(buf, off);
    ShiftRowsInPlace(buf, off);
    AddRoundKeyInPlace(ROUNDS, buf, off, roundKey);
  }

  method CipherInPlace(buf: array<bv8>, off: nat, roundKey: array<bv8>)
    requires off + 16 <= buf.Length && roundKey.Length == EXPANDED_KEY_LEN && buf != roundKey
    modifies buf
    ensures StateAt(buf, off) == Cipher(old(StateAt(buf, off)), roundKey[..])
    ensures OnlyChanged(buf, off, 16)
  {
    hide MixColumns, Scramble, AddRoundKey;
    AddRoundKeyInPlace(0, buf, off, roundKey);
    for round := 1 to ROUNDS
      invariant StateAt(buf, off) == Rounds(old(StateAt(buf, off)), roundKey[..], round - 1)
      invariant OnlyChanged(buf, off, 16)
    {
      RoundInPlace(round, buf, off, roundKey);
    }
    LastRoundInPlace(buf, off, roundKey);
  }

  // What InvCipher does before the column product of a round, and alone in its last round.
  method UnscrambleInPlace(round: nat, buf: array<bv8>, off: nat, roundKey: array<bv8>)
    requires round <= ROUNDS && off + 16 <= buf.Length && roundKey.Length == EXPANDED_KEY_LEN && buf != roundKey
    modifies buf
    ensures StateAt(buf, off) == AddRoundKey(Unscramble(old(StateAt(buf, off))), roundKey[..], round)
    ensures OnlyChanged(buf, off, 16)
  {
    InvShiftRowsInPlace(buf, off);
    InvSubBytesInPlace(buf, off);
    AddRoundKeyInPlace(round, buf, off, roundKey);
  }

  method InvCipherInPlace(buf: array<bv8>, off: nat, roundKey: array<bv8>)
    requires off + 16 <= buf.Length && roundKey.Length == EXPANDED_KEY_LEN && buf != roundKey
    modifies buf
    ensures StateAt(buf, off) == InvCipher(old(StateAt(buf, off)), roundKey[..])
    ensures OnlyChanged(buf, off, 16)
  {
    hide InvMixColumns, Unscramble, AddRoundKey;
    AddRoundKeyInPlace(ROUNDS, buf, off, roundKey);
    var round := ROUNDS - 1;
    while round > 0
      invariant 0 <= round <= ROUNDS - 1
      invariant UndoRounds(StateAt(buf, off), roundKey[..], round) == InvCipher(old(StateAt(buf, off)), roundKey[..])
      invariant OnlyChanged(buf, off, 16)
    {
      UnscrambleInPlace(round, buf, off, roundKey);
      InvMixColumnsInPlace(buf, off);
      round := round - 1;
    }
    UnscrambleInPlace(0, buf, off, roundKey);
  }
}
