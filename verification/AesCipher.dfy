/** AES-128: the round steps, the cipher and its inverse, as FIPS 197 defines them. */
module AesCipher {
  import opened GaloisField

  const ROUNDS := 10
  const EXPANDED_KEY_LEN := 176

  // The four-by-four state; the code indexes it as state[column][row].
  datatype Column = Column(r0: bv8, r1: bv8, r2: bv8, r3: bv8)
  datatype State = State(c0: Column, c1: Column, c2: Column, c3: Column)

  type ExpandedKey = s: seq<bv8> | |s| == EXPANDED_KEY_LEN witness seq(EXPANDED_KEY_LEN, _ => 0)

  // Sixteen bytes of a buffer, read as a state column by column.
  function Load(b: seq<bv8>, off: nat): State
    requires off + 16 <= |b|
  {
    State(LoadColumn(b, off), LoadColumn(b, off + 4), LoadColumn(b, off + 8), LoadColumn(b, off + 12))
  }

  function LoadColumn(b: seq<bv8>, off: nat): Column
    requires off + 4 <= |b|
  {
    Column(b[off], b[off + 1], b[off + 2], b[off + 3])
  }

  function Bytes(s: State): (b: seq<bv8>)
    ensures |b| == 16
  {
    ColumnBytes(s.c0) + ColumnBytes(s.c1) + ColumnBytes(s.c2) + ColumnBytes(s.c3)
  }

  function ColumnBytes(c: Column): (b: seq<bv8>)
    ensures |b| == 4
  {
    [c.r0, c.r1, c.r2, c.r3]
  }

  lemma LoadOfBytes(s: State)
    ensures Load(Bytes(s), 0) == s
  {
  }

  lemma BytesOfLoad(b: seq<bv8>, off: nat)
    requires off + 16 <= |b|
    ensures Bytes(Load(b, off)) == b[off..off + 16]
  {
    assert ColumnBytes(LoadColumn(b, off)) == b[off..off + 4];
    assert ColumnBytes(LoadColumn(b, off + 4)) == b[off + 4..off + 8];
    assert ColumnBytes(LoadColumn(b, off + 8)) == b[off + 8..off + 12];
    assert ColumnBytes(LoadColumn(b, off + 12)) == b[off + 12..off + 16];
  }

  // ----- The round steps -----

  function SubstituteColumn(table: bv8 -> bv8, c: Column): Column {
    Column(table(c.r0), table(c.r1), table(c.r2), table(c.r3))
  }

  function Substitute(table: bv8 -> bv8, s: State): State {
    State(SubstituteColumn(table, s.c0), SubstituteColumn(table, s.c1),
          SubstituteColumn(table, s.c2), SubstituteColumn(table, s.c3))
  }

  function SubBytes(s: State): State {
    Substitute(SBox, s)
  }

  function InvSubBytes(s: State): State {
    Substitute(RSBox, s)
  }

  // Row r rotates left by r columns.
  function ShiftRows(s: State): State {
    State(Column(s.c0.r0, s.c1.r1, s.c2.r2, s.c3.r3),
          Column(s.c1.r0, s.c2.r1, s.c3.r2, s.c0.r3),
          Column(s.c2.r0, s.c3.r1, s.c0.r2, s.c1.r3),
          Column(s.c3.r0, s.c0.r1, s.c1.r2, s.c2.r3))
  }

  // Row r rotates right by r columns.
  function InvShiftRows(s: State): State {
    State(Column(s.c0.r0, s.c3.r1, s.c2.r2, s.c1.r3),
          Column(s.c1.r0, s.c0.r1, s.c3.r2, s.c2.r3),
          Column(s.c2.r0, s.c1.r1, s.c0.r2, s.c3.r3),
          Column(s.c3.r0, s.c2.r1, s.c1.r2, s.c0.r3))
  }

  function Sum4(a: bv8, b: bv8, c: bv8, d: bv8): bv8 {
    a ^ b ^ c ^ d
  }

  // One output byte of a column product: the circulant row {02} {03} {01} {01}.
  function MixByte(a: bv8, b: bv8, c: bv8, d: bv8): bv8 {
    Sum4(Times(a, 0x02), Times(b, 0x03), c, d)
  }

  // The circulant row {0e} {0b} {0d} {09}.
  function InvMixByte(a: bv8, b: bv8, c: bv8, d: bv8): bv8 {
    Sum4(Times(a, 0x0e), Times(b, 0x0b), Times(c, 0x0d), Times(d, 0x09))
  }

  function MixColumn(c: Column): Column {
    Column(MixByte(c.r0, c.r1, c.r2, c.r3), MixByte(c.r1, c.r2, c.r3, c.r0),
           MixByte(c.r2, c.r3, c.r0, c.r1), MixByte(c.r3, c.r0, c.r1, c.r2))
  }

  function InvMixColumn(c: Column): Column {
    Column(InvMixByte(c.r0, c.r1, c.r2, c.r3), InvMixByte(c.r1, c.r2, c.r3, c.r0),
           InvMixByte(c.r2, c.r3, c.r0, c.r1), InvMixByte(c.r3, c.r0, c.r1, c.r2))
  }

  function MixColumns(s: State): State {
    State(MixColumn(s.c0), MixColumn(s.c1), MixColumn(s.c2), MixColumn(s.c3))
  }

  function InvMixColumns(s: State): State {
    State(InvMixColumn(s.c0), InvMixColumn(s.c1), InvMixColumn(s.c2), InvMixColumn(s.c3))
  }

  function AddColumn(c: Column, k: Column): Column {
    Column(Xor(c.r0, k.r0), Xor(c.r1, k.r1), Xor(c.r2, k.r2), Xor(c.r3, k.r3))
  }

  function Add(s: State, k: State): State {
    State(AddColumn(s.c0, k.c0), AddColumn(s.c1, k.c1), AddColumn(s.c2, k.c2), AddColumn(s.c3, k.c3))
  }

  function AddRoundKey(s: State, key: ExpandedKey, round: nat): State
    requires round <= ROUNDS
  {
    Add(s, Load(key, 16 * round))
  }

  // What follows the key addition of a round: substitution and row shift.
  function Scramble(s: State): State {
    ShiftRows(SubBytes(s))
  }

  function Unscramble(s: State): State {
    InvSubBytes(InvShiftRows(s))
  }

  // The state after the initial key addition and n full rounds.
  function Rounds(s: State, key: ExpandedKey, n: nat): State
    requires n <= ROUNDS
  {
    if n == 0 then AddRoundKey(s, key, 0)
    else AddRoundKey(MixColumns(Scramble(Rounds(s, key, n - 1))), key, n)
  }

  function Cipher(s: State, key: ExpandedKey): State {
    AddRoundKey(Scramble(Rounds(s, key, ROUNDS - 1)), key, ROUNDS)
  }

  // Undo rounds n, n - 1, ..., 1 and then the initial key addition.
  function UndoRounds(t: State, key: ExpandedKey, n: nat): State
    requires n <= ROUNDS
    decreases n
  {
    var u := AddRoundKey(Unscramble(t), key, n);
    if n == 0 then u else UndoRounds(InvMixColumns(u), key, n - 1)
  }

  function InvCipher(t: State, key: ExpandedKey): State {
    UndoRounds(AddRoundKey(t, key, ROUNDS), key, ROUNDS - 1)
  }

  // ----- Each step and its inverse -----

  lemma SubstituteInverse(f: bv8 -> bv8, g: bv8 -> bv8, s: State)
    requires forall x :: g(f(x)) == x
    ensures Substitute(g, Substitute(f, s)) == s
  {
  }

  lemma SubBytesInverse(s: State)
    ensures InvSubBytes(SubBytes(s)) == s && SubBytes(InvSubBytes(s)) == s
  {
    forall x
      ensures RSBox(SBox(x)) == x && SBox(RSBox(x)) == x
    {
      TablesInverse(x);
    }
    SubstituteInverse(SBox, RSBox, s);
    SubstituteInverse(RSBox, SBox, s);
  }

  lemma ShiftRowsInverse(s: State)
    ensures InvShiftRows(ShiftRows(s)) == s && ShiftRows(InvShiftRows(s)) == s
  {
  }

  lemma AddInvolution(s: State, k: State)
    ensures Add(Add(s, k), k) == s
  {
    AddColumnInvolution(s.c0, k.c0);
    AddColumnInvolution(s.c1, k.c1);
    AddColumnInvolution(s.c2, k.c2);
    AddColumnInvolution(s.c3, k.c3);
  }

  lemma AddColumnInvolution(c: Column, k: Column)
    ensures AddColumn(AddColumn(c, k), k) == c
  {
  }

  // ----- The two column matrices are inverse to each other -----

  // A row of the encryptor's product, as a sum of doublings.
  lemma MixByteAsSum(a: bv8, b: bv8, c: bv8, d: bv8)
    ensures MixByte(a, b, c, d) == Sum5(XTime(a), XTime(b), b, c, d)
  {
    hide XTime, Times, Sum4, Sum5;
    TimesTwoAndThree(a);
    TimesTwoAndThree(b);
    FiveTerms(XTime(a), XTime(b), b, c, d);
  }

  lemma FiveTerms(a1: bv8, b1: bv8, b: bv8, c: bv8, d: bv8)
    ensures Sum4(a1, b1 ^ b, c, d) == Sum5(a1, b1, b, c, d)
  {
  }

  // A row of the decryptor's.
  lemma InvMixByteAsSum(a: bv8, b: bv8, c: bv8, d: bv8)
    ensures var a1, b1, c1, d1 := XTime(a), XTime(b), XTime(c), XTime(d);
            var a2, b2, c2, d2 := XTime(a1), XTime(b1), XTime(c1), XTime(d1);
            var a3, b3, c3, d3 := XTime(a2), XTime(b2), XTime(c2), XTime(d2);
            InvMixByte(a, b, c, d) == Sum11(a3, a2, a1, b3, b1, b, c3, c2, c, d3, d)
  {
    hide XTime, Times, Sum4, Sum11;
    TimesThirteenAndFourteen(a);
    TimesNineAndEleven(b);
    TimesThirteenAndFourteen(c);
    TimesNineAndEleven(d);
    var a1, b1, c1, d1 := XTime(a), XTime(b), XTime(c), XTime(d);
    var a2, b2, c2, d2 := XTime(a1), XTime(b1), XTime(c1), XTime(d1);
    ElevenTerms(XTime(a2), a2, a1, XTime(b2), b1, b, XTime(c2), c2, c, XTime(d2), d);
  }

  lemma ElevenTerms(a3: bv8, a2: bv8, a1: bv8, b3: bv8, b1: bv8, b: bv8, c3: bv8, c2: bv8, c: bv8, d3: bv8, d: bv8)
    ensures Sum4(a3 ^ a2 ^ a1, b3 ^ b1 ^ b, c3 ^ c2 ^ c, d3 ^ d) == Sum11(a3, a2, a1, b3, b1, b, c3, c2, c, d3, d)
  {
  }

  // The eleven terms, for proofs that keep Sum11 folded.
  lemma ElevenWritten(a: bv8, b: bv8, c: bv8, d: bv8, e: bv8, f: bv8, g: bv8, h: bv8, i: bv8, j: bv8, k: bv8)
    ensures Sum11(a, b, c, d, e, f, g, h, i, j, k) == a ^ b ^ c ^ d ^ e ^ f ^ g ^ h ^ i ^ j ^ k
  {
  }

  // The doublings of one byte, up to the fourth.
  datatype Doublings = Doublings(x0: bv8, x1: bv8, x2: bv8, x3: bv8, x4: bv8)

  function DoublingsOf(x: bv8): Doublings {
    var x1 := XTime(x);
    var x2 := XTime(x1);
    var x3 := XTime(x2);
    Doublings(x, x1, x2, x3, XTime(x3))
  }

  // The doublings of the result of a row, term by term.
  lemma MixByteDoubled(a: bv8, b: bv8, c: bv8, d: bv8)
    ensures var (A, B, C, D) := (DoublingsOf(a), DoublingsOf(b), DoublingsOf(c), DoublingsOf(d));
            var m := DoublingsOf(MixByte(a, b, c, d));
            && m.x0 == Sum5(A.x1, B.x1, B.x0, C.x0, D.x0)
            && m.x1 == Sum5(A.x2, B.x2, B.x1, C.x1, D.x1)
            && m.x2 == Sum5(A.x3, B.x3, B.x2, C.x2, D.x2)
            && m.x3 == Sum5(A.x4, B.x4, B.x3, C.x3, D.x3)
  {
    hide XTime, MixByte, Sum5;
    var A, B, C, D := DoublingsOf(a), DoublingsOf(b), DoublingsOf(c), DoublingsOf(d);
    MixByteAsSum(a, b, c, d);
    XTimeSum5(A.x1, B.x1, B.x0, C.x0, D.x0);
    XTimeSum5(A.x2, B.x2, B.x1, C.x1, D.x1);
    XTimeSum5(A.x3, B.x3, B.x2, C.x2, D.x2);
  }

  lemma InvMixByteDoubled(a: bv8, b: bv8, c: bv8, d: bv8)
    ensures var (A, B, C, D) := (DoublingsOf(a), DoublingsOf(b), DoublingsOf(c), DoublingsOf(d));
            var m := DoublingsOf(InvMixByte(a, b, c, d));
            && m.x0 == Sum11(A.x3, A.x2, A.x1, B.x3, B.x1, B.x0, C.x3, C.x2, C.x0, D.x3, D.x0)
            && m.x1 == Sum11(A.x4, A.x3, A.x2, B.x4, B.x2, B.x1, C.x4, C.x3, C.x1, D.x4, D.x1)
  {
    hide XTime, InvMixByte, Sum11;
    var A, B, C, D := DoublingsOf(a), DoublingsOf(b), DoublingsOf(c), DoublingsOf(d);
    InvMixByteAsSum(a, b, c, d);
    XTimeSum11(A.x3, A.x2, A.x1, B.x3, B.x1, B.x0, C.x3, C.x2, C.x0, D.x3, D.x0);
  }

  // With the doublings as indeterminates, both products of the two matrices are the identity.
  lemma TermsCancel(A: Doublings, B: Doublings, C: Doublings, D: Doublings)
    ensures Sum11(
            A.x4 ^ B.x4 ^ B.x3 ^ C.x3 ^ D.x3,
            A.x3 ^ B.x3 ^ B.x2 ^ C.x2 ^ D.x2,
            A.x2 ^ B.x2 ^ B.x1 ^ C.x1 ^ D.x1,
            B.x4 ^ C.x4 ^ C.x3 ^ D.x3 ^ A.x3,
            B.x2 ^ C.x2 ^ C.x1 ^ D.x1 ^ A.x1,
            B.x1 ^ C.x1 ^ C.x0 ^ D.x0 ^ A.x0,
            C.x4 ^ D.x4 ^ D.x3 ^ A.x3 ^ B.x3,
            C.x3 ^ D.x3 ^ D.x2 ^ A.x2 ^ B.x2,
            C.x1 ^ D.x1 ^ D.x0 ^ A.x0 ^ B.x0,
            D.x4 ^ A.x4 ^ A.x3 ^ B.x3 ^ C.x3,
            D.x1 ^ A.x1 ^ A.x0 ^ B.x0 ^ C.x0) == A.x0
  {
  }

  lemma InvTermsCancel(A: Doublings, B: Doublings, C: Doublings, D: Doublings)
    ensures Sum5(
            A.x4 ^ A.x3 ^ A.x2 ^ B.x4 ^ B.x2 ^ B.x1 ^ C.x4 ^ C.x3 ^ C.x1 ^ D.x4 ^ D.x1,
            B.x4 ^ B.x3 ^ B.x2 ^ C.x4 ^ C.x2 ^ C.x1 ^ D.x4 ^ D.x3 ^ D.x1 ^ A.x4 ^ A.x1,
            B.x3 ^ B.x2 ^ B.x1 ^ C.x3 ^ C.x1 ^ C.x0 ^ D.x3 ^ D.x2 ^ D.x0 ^ A.x3 ^ A.x0,
            C.x3 ^ C.x2 ^ C.x1 ^ D.x3 ^ D.x1 ^ D.x0 ^ A.x3 ^ A.x2 ^ A.x0 ^ B.x3 ^ B.x0,
            D.x3 ^ D.x2 ^ D.x1 ^ A.x3 ^ A.x1 ^ A.x0 ^ B.x3 ^ B.x2 ^ B.x0 ^ C.x3 ^ C.x0) == A.x0
  {
  }

  lemma MixByteInverse(a: bv8, b: bv8, c: bv8, d: bv8)
    ensures InvMixByte(MixByte(a, b, c, d), MixByte(b, c, d, a), MixByte(c, d, a, b), MixByte(d, a, b, c)) == a
  {
    hide XTime, MixByte, InvMixByte, Sum5, Sum11;
    var A, B, C, D := DoublingsOf(a), DoublingsOf(b), DoublingsOf(c), DoublingsOf(d);
    MixByteDoubled(a, b, c, d);
    MixByteDoubled(b, c, d, a);
    MixByteDoubled(c, d, a, b);
    MixByteDoubled(d, a, b, c);
    InvMixByteAsSum(MixByte(a, b, c, d), MixByte(b, c, d, a), MixByte(c, d, a, b), MixByte(d, a, b, c));
    FirstFive(A.x4, B.x4, B.x3, C.x3, D.x3);
    FirstFive(A.x3, B.x3, B.x2, C.x2, D.x2);
    FirstFive(A.x2, B.x2, B.x1, C.x1, D.x1);
    FirstFive(B.x4, C.x4, C.x3, D.x3, A.x3);
    FirstFive(B.x2, C.x2, C.x1, D.x1, A.x1);
    FirstFive(B.x1, C.x1, C.x0, D.x0, A.x0);
    FirstFive(C.x4, D.x4, D.x3, A.x3, B.x3);
    FirstFive(C.x3, D.x3, D.x2, A.x2, B.x2);
    FirstFive(C.x1, D.x1, D.x0, A.x0, B.x0);
    FirstFive(D.x4, A.x4, A.x3, B.x3, C.x3);
    FirstFive(D.x1, A.x1, A.x0, B.x0, C.x0);
    TermsCancel(A, B, C, D);
  }

  lemma InvMixByteInverse(a: bv8, b: bv8, c: bv8, d: bv8)
    ensures MixByte(InvMixByte(a, b, c, d), InvMixByte(b, c, d, a), InvMixByte(c, d, a, b), InvMixByte(d, a, b, c)) == a
  {
    hide XTime, MixByte, InvMixByte, Sum5, Sum11;
    var A, B, C, D := DoublingsOf(a), DoublingsOf(b), DoublingsOf(c), DoublingsOf(d);
    InvMixByteDoubled(a, b, c, d);
    InvMixByteDoubled(b, c, d, a);
    InvMixByteDoubled(c, d, a, b);
    InvMixByteDoubled(d, a, b, c);
    MixByteAsSum(InvMixByte(a, b, c, d), InvMixByte(b, c, d, a), InvMixByte(c, d, a, b), InvMixByte(d, a, b, c));
    ElevenWritten(A.x4, A.x3, A.x2, B.x4, B.x2, B.x1, C.x4, C.x3, C.x1, D.x4, D.x1);
    ElevenWritten(B.x4, B.x3, B.x2, C.x4, C.x2, C.x1, D.x4, D.x3, D.x1, A.x4, A.x1);
    ElevenWritten(B.x3, B.x2, B.x1, C.x3, C.x1, C.x0, D.x3, D.x2, D.x0, A.x3, A.x0);
    ElevenWritten(C.x3, C.x2, C.x1, D.x3, D.x1, D.x0, A.x3, A.x2, A.x0, B.x3, B.x0);
    ElevenWritten(D.x3, D.x2, D.x1, A.x3, A.x1, A.x0, B.x3, B.x2, B.x0, C.x3, C.x0);
    InvTermsCancel(A, B, C, D);
  }

  lemma MixColumnInverse(c: Column)
    ensures InvMixColumn(MixColumn(c)) == c && MixColumn(InvMixColumn(c)) == c
  {
    MixByteInverse(c.r0, c.r1, c.r2, c.r3);
    MixByteInverse(c.r1, c.r2, c.r3, c.r0);
    MixByteInverse(c.r2, c.r3, c.r0, c.r1);
    MixByteInverse(c.r3, c.r0, c.r1, c.r2);
    InvMixByteInverse(c.r0, c.r1, c.r2, c.r3);
    InvMixByteInverse(c.r1, c.r2, c.r3, c.r0);
    InvMixByteInverse(c.r2, c.r3, c.r0, c.r1);
    InvMixByteInverse(c.r3, c.r0, c.r1, c.r2);
  }

  lemma MixColumnsInverse(s: State)
    ensures InvMixColumns(MixColumns(s)) == s && MixColumns(InvMixColumns(s)) == s
  {
    MixColumnInverse(s.c0);
    MixColumnInverse(s.c1);
    MixColumnInverse(s.c2);
    MixColumnInverse(s.c3);
  }

  // ----- The cipher and its inverse, for every state and every expanded key -----

  lemma AddKeyTwice(s: State, key: ExpandedKey, round: nat)
    requires round <= ROUNDS
    ensures AddRoundKey(AddRoundKey(s, key, round), key, round) == s
  {
    AddInvolution(s, Load(key, 16 * round));
  }

  lemma ScrambleInverse(s: State)
    ensures Unscramble(Scramble(s)) == s && Scramble(Unscramble(s)) == s
  {
    ShiftRowsInverse(SubBytes(s));
    SubBytesInverse(s);
    ShiftRowsInverse(s);
    SubBytesInverse(InvShiftRows(s));
  }

  lemma UndoLastRound(t: State, key: ExpandedKey, n: nat)
    requires 0 < n <= ROUNDS
    ensures UndoRounds(Scramble(AddRoundKey(MixColumns(t), key, n)), key, n) == UndoRounds(t, key, n - 1)
  {
    hide Scramble, Unscramble, AddRoundKey, MixColumns, InvMixColumns;
    var r := AddRoundKey(MixColumns(t), key, n);
    var u := AddRoundKey(Unscramble(Scramble(r)), key, n);
    assert u == MixColumns(t) by {
      ScrambleInverse(r);
      AddKeyTwice(MixColumns(t), key, n);
    }
    assert InvMixColumns(u) == t by {
      MixColumnsInverse(t);
    }
  }

  lemma UndoFirstKey(s: State, key: ExpandedKey)
    ensures UndoRounds(Scramble(AddRoundKey(s, key, 0)), key, 0) == s
  {
    ScrambleInverse(AddRoundKey(s, key, 0));
    AddKeyTwice(s, key, 0);
  }

  lemma {:induction false} UndoRoundsInverse(s: State, key: ExpandedKey, n: nat)
    requires n <= ROUNDS
    ensures UndoRounds(Scramble(Rounds(s, key, n)), key, n) == s
  {
    hide Scramble, Unscramble, AddRoundKey, MixColumns, InvMixColumns, UndoRounds;
    if n == 0 {
      UndoFirstKey(s, key);
    } else {
      UndoLastRound(Scramble(Rounds(s, key, n - 1)), key, n);
      UndoRoundsInverse(s, key, n - 1);
    }
  }

  lemma {:induction false} RoundsInverse(t: State, key: ExpandedKey, n: nat)
    requires n <= ROUNDS
    ensures Scramble(Rounds(UndoRounds(t, key, n), key, n)) == t
    decreases n
  {
    hide Scramble, Unscramble, AddRoundKey, MixColumns, InvMixColumns;
    var u := Unscramble(t);
    ScrambleInverse(t);
    AddKeyTwice(u, key, n);
    if n > 0 {
      var v := InvMixColumns(AddRoundKey(u, key, n));
      RoundsInverse(v, key, n - 1);
      MixColumnsInverse(AddRoundKey(u, key, n));
    }
  }

  lemma InvCipherUndoesCipher(s: State, key: ExpandedKey)
    ensures InvCipher(Cipher(s, key), key) == s
  {
    AddKeyTwice(Scramble(Rounds(s, key, ROUNDS - 1)), key, ROUNDS);
    UndoRoundsInverse(s, key, ROUNDS - 1);
  }

  lemma CipherUndoesInvCipher(t: State, key: ExpandedKey)
    ensures Cipher(InvCipher(t, key), key) == t
  {
    RoundsInverse(AddRoundKey(t, key, ROUNDS), key, ROUNDS - 1);
    AddKeyTwice(t, key, ROUNDS);
  }

  // ----- Each of the eleven round keys counts -----

  // The two expanded keys differ, and nowhere but in round key n.
  ghost predicate DifferOnlyIn(k1: ExpandedKey, k2: ExpandedKey, n: nat) {
    k1 != k2 && forall i :: 0 <= i < 176 && (i < 16 * n || 16 * n + 16 <= i) ==> k1[i] == k2[i]
  }

  lemma RoundKeysDiffer(k1: ExpandedKey, k2: ExpandedKey, n: nat, round: nat)
    requires n <= 10 && round <= 10 && DifferOnlyIn(k1, k2, n)
    ensures Load(k1, 16 * round) == Load(k2, 16 * round) <==> round != n
  {
    if round == n && Load(k1, 16 * n) == Load(k2, 16 * n) {
      hide Load, Bytes;
      BytesOfLoad(k1, 16 * n);
      BytesOfLoad(k2, 16 * n);
      SameEverywhere(k1, k2, 16 * n);
    }
  }

  lemma SameEverywhere(a: seq<bv8>, b: seq<bv8>, at: nat)
    requires |a| == |b| && at + 16 <= |a| && a[at..at + 16] == b[at..at + 16]
    requires forall i :: 0 <= i < |a| && (i < at || at + 16 <= i) ==> a[i] == b[i]
    ensures a == b
  {
    assert a == a[..at] + a[at..at + 16] + a[at + 16..];
    assert b == b[..at] + b[at..at + 16] + b[at + 16..];
  }

  lemma XorInjective(x: bv8, y: bv8, k: bv8, l: bv8)
    requires Xor(x, k) == Xor(y, l)
    ensures x == y <==> k == l
  {
    hide Xor;
    XorUndone(x, k);
    XorUndone(y, l);
  }

  lemma XorUndone(x: bv8, k: bv8)
    ensures Xor(Xor(x, k), k) == x && Xor(Xor(x, k), x) == k
  {
  }

  lemma AddInjective(s: State, t: State, k: State, l: State)
    requires s == t || k == l
    ensures Add(s, k) == Add(t, l) <==> s == t && k == l
  {
    if Add(s, k) == Add(t, l) {
      AddColumnInjective(s.c0, t.c0, k.c0, l.c0);
      AddColumnInjective(s.c1, t.c1, k.c1, l.c1);
      AddColumnInjective(s.c2, t.c2, k.c2, l.c2);
      AddColumnInjective(s.c3, t.c3, k.c3, l.c3);
    }
  }

  lemma AddColumnInjective(c: Column, d: Column, k: Column, l: Column)
    requires AddColumn(c, k) == AddColumn(d, l)
    ensures c == d <==> k == l
  {
    hide Xor;
    XorInjective(c.r0, d.r0, k.r0, l.r0);
    XorInjective(c.r1, d.r1, k.r1, l.r1);
    XorInjective(c.r2, d.r2, k.r2, l.r2);
    XorInjective(c.r3, d.r3, k.r3, l.r3);
  }

  // Up to round n the states agree, from round n on they differ.
  lemma {:induction false} RoundsDiffer(s: State, k1: ExpandedKey, k2: ExpandedKey, n: nat, m: nat)
    requires n <= 10 && m <= 9 && DifferOnlyIn(k1, k2, n)
    ensures Rounds(s, k1, m) == Rounds(s, k2, m) <==> m < n
  {
    hide Load, Add, MixColumns, Scramble, DifferOnlyIn;
    RoundKeysDiffer(k1, k2, n, m);
    var (l1, l2) := (Load(k1, 16 * m), Load(k2, 16 * m));
    if m == 0 {
      AddInjective(s, s, l1, l2);
    } else {
      RoundsDiffer(s, k1, k2, n, m - 1);
      RoundInjective(Rounds(s, k1, m - 1), Rounds(s, k2, m - 1), l1, l2);
    }
  }

  lemma RoundInjective(s: State, t: State, k: State, l: State)
    requires s == t || k == l
    ensures Add(MixColumns(Scramble(s)), k) == Add(MixColumns(Scramble(t)), l) <==> s == t && k == l
  {
    hide Add, MixColumns, InvMixColumns, Scramble, Unscramble;
    ScrambleInverse(s);
    ScrambleInverse(t);
    MixColumnsInverse(Scramble(s));
    MixColumnsInverse(Scramble(t));
    AddInjective(MixColumns(Scramble(s)), MixColumns(Scramble(t)), k, l);
  }

  lemma EachRoundKeyCounts(s: State, k1: ExpandedKey, k2: ExpandedKey, n: nat)
    requires n <= 10 && DifferOnlyIn(k1, k2, n)
    ensures Cipher(s, k1) != Cipher(s, k2)
  {
    hide Load, Add, Scramble, Rounds, DifferOnlyIn;
    RoundsDiffer(s, k1, k2, n, 9);
    RoundKeysDiffer(k1, k2, n, 10);
    var (r1, r2) := (Rounds(s, k1, 9), Rounds(s, k2, 9));
    ScrambleInverse(r1);
    ScrambleInverse(r2);
    AddInjective(Scramble(r1), Scramble(r2), Load(k1, 160), Load(k2, 160));
  }
}
