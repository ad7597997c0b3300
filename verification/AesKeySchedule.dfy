/** AES-128 key expansion: sixteen key bytes become the eleven round keys. */
module AesKeySchedule {
  import opened GaloisField
  import opened AesCipher
  import opened AesInPlace

  const KEY_LEN := 16
  const KEY_WORDS := 4
  const SCHEDULE_WORDS := 44

  // The round constants as the code tabulates them; entry 0 is never used.
  function Rcon(i: nat): bv8
    requires i <= 10
  {
    match i
    case 0 => 0x8d
    case 1 => 0x01
    case 2 => 0x02
    case 3 => 0x04
    case 4 => 0x08
    case 5 => 0x10
    case 6 => 0x20
    case 7 => 0x40
    case 8 => 0x80
    case 9 => 0x1b
    case 10 => 0x36
  }

  // {02} to the power n in GF(2^8).
  function PowerOfTwo(n: nat): bv8 {
    if n == 0 then 1 else XTime(PowerOfTwo(n - 1))
  }

  lemma RconIsPower(i: nat)
    requires 1 <= i <= 10
    ensures Rcon(i) == PowerOfTwo(i - 1)
  {
    if i > 1 {
      RconIsPower(i - 1);
      assert Rcon(i) == XTime(Rcon(i - 1));
    }
  }

  function RotWord(w: Column): Column {
    Column(w.r1, w.r2, w.r3, w.r0)
  }

  function SubWord(w: Column): Column {
    SubstituteColumn(SBox, w)
  }

  // What a word contributes to word i: every fourth one is rotated, substituted and offset.
  function Mixed(temp: Column, i: nat): Column
    requires KEY_WORDS <= i
  {
    if i % KEY_WORDS == 0 then AddColumn(SubWord(RotWord(temp)), Column(PowerOfTwo(i / KEY_WORDS - 1), 0, 0, 0))
    else temp
  }

  // Word i of the key schedule, section 5.2 of FIPS 197.
  function KeyWord(key: seq<bv8>, i: nat): Column
    requires |key| == KEY_LEN
  {
    if i < KEY_WORDS then LoadColumn(key, 4 * i)
    else AddColumn(KeyWord(key, i - KEY_WORDS), Mixed(KeyWord(key, i - 1), i))
  }

  // The first n words of the schedule, as bytes.
  function Schedule(key: seq<bv8>, n: nat): (s: seq<bv8>)
    requires |key| == KEY_LEN
    ensures |s| == 4 * n
  {
    if n == 0 then [] else Schedule(key, n - 1) + ColumnBytes(KeyWord(key, n - 1))
  }

  function ExpandKey(key: seq<bv8>): ExpandedKey
    requires |key| == KEY_LEN
  {
    Schedule(key, SCHEDULE_WORDS)
  }

  lemma {:induction false} ScheduleWord(key: seq<bv8>, n: nat, i: nat)
    requires |key| == KEY_LEN && i < n
    ensures LoadColumn(Schedule(key, n), 4 * i) == KeyWord(key, i)
  {
    hide KeyWord;
    if i < n - 1 {
      ScheduleWord(key, n - 1, i);
    }
  }

  lemma {:induction false} ScheduleOfKey(key: seq<bv8>, n: nat)
    requires |key| == KEY_LEN && n <= KEY_WORDS
    ensures Schedule(key, n) == key[..4 * n]
  {
    hide ColumnBytes, KeyWord;
    if n > 0 {
      ScheduleOfKey(key, n - 1);
      KeyWordBytes(key, n - 1);
      assert key[..4 * n] == key[..4 * (n - 1)] + key[4 * (n - 1)..4 * n];
    }
  }

  // The first words are those of the key.
  lemma KeyWordBytes(key: seq<bv8>, i: nat)
    requires |key| == KEY_LEN && i < KEY_WORDS
    ensures ColumnBytes(KeyWord(key, i)) == key[4 * i..4 * (i + 1)]
  {
    var p := 4 * i;
    assert KeyWord(key, i) == LoadColumn(key, p);
    assert key[p..p + 4] == [key[p], key[p + 1], key[p + 2], key[p + 3]];
  }

  method KeyExpansion(roundKey: array<bv8>, key: array<bv8>)
    requires roundKey.Length == EXPANDED_KEY_LEN && key.Length == KEY_LEN && roundKey != key
    modifies roundKey
    ensures roundKey[..] == ExpandKey(key[..])
  {
    hide Schedule;
    ghost var k0 := key[..];
    for i := 0 to KEY_WORDS
      invariant key[..] == k0
      invariant forall p :: 0 <= p < 4 * i ==> roundKey[p] == key[p]
    {
      roundKey[i * 4] := key[i * 4];
      roundKey[i * 4 + 1] := key[i * 4 + 1];
      roundKey[i * 4 + 2] := key[i * 4 + 2];
      roundKey[i * 4 + 3] := key[i * 4 + 3];
    }
    ScheduleOfKey(k0, KEY_WORDS);
    for i := KEY_WORDS to SCHEDULE_WORDS
      invariant key[..] == k0
      invariant roundKey[..4 * i] == Schedule(k0, i)
    {
      NextWord(roundKey, k0, i);
    }
    assert roundKey[..] == roundKey[..4 * SCHEDULE_WORDS];
  }

  lemma ScheduleStep(key: seq<bv8>, n: nat)
    requires |key| == KEY_LEN
    ensures Schedule(key, n + 1) == Schedule(key, n) + ColumnBytes(KeyWord(key, n))
    ensures KEY_WORDS <= n ==> KeyWord(key, n) == AddColumn(KeyWord(key, n - KEY_WORDS), Mixed(KeyWord(key, n - 1), n))
  {
  }

  // The body of the second loop: word i from words i - 1 and i - 4.
  method NextWord(roundKey: array<bv8>, ghost key: seq<bv8>, i: nat)
    requires roundKey.Length == EXPANDED_KEY_LEN && |key| == KEY_LEN && KEY_WORDS <= i < SCHEDULE_WORDS
    requires roundKey[..4 * i] == Schedule(key, i)
    modifies roundKey
    ensures roundKey[..4 * (i + 1)] == Schedule(key, i + 1)
  {
    hide SBox, Schedule, KeyWord, Mixed;
    ghost var s := roundKey[..4 * i];
    var k := (i - 1) * 4;
    ScheduleWord(key, i, i - 1);
    var t0, t1, t2, t3 := MixTemp(roundKey[k], roundKey[k + 1], roundKey[k + 2], roundKey[k + 3], i);
    assert Column(t0, t1, t2, t3) == Mixed(LoadColumn(s, k), i);
    var j := i * 4;
    k := (i - KEY_WORDS) * 4;
    ScheduleWord(key, i, i - KEY_WORDS);
    WriteWord(roundKey, j, k, t0, t1, t2, t3);
    ScheduleStep(key, i);
    assert ColumnAt(roundKey, j) == KeyWord(key, i);
    assert roundKey[..j] == s;
    assert roundKey[..j + 4] == roundKey[..j] + ColumnBytes(ColumnAt(roundKey, j));
  }

  method MixTemp(a0: bv8, a1: bv8, a2: bv8, a3: bv8, i: nat) returns (t0: bv8, t1: bv8, t2: bv8, t3: bv8)
    requires KEY_WORDS <= i < SCHEDULE_WORDS
    ensures Column(t0, t1, t2, t3) == Mixed(Column(a0, a1, a2, a3), i)
  {
    hide SBox;
    t0, t1, t2, t3 := a0, a1, a2, a3;
    if i % KEY_WORDS == 0 {
      var k := t0;
      t0, t1, t2 := t1, t2, t3;
      t3 := k;
      t0, t1, t2, t3 := SBox(t0), SBox(t1), SBox(t2), SBox(t3);
      RconIsPower(i / KEY_WORDS);
      t0 := t0 ^ Rcon(i / KEY_WORDS);
    }
  }

  method WriteWord(roundKey: array<bv8>, j: nat, k: nat, t0: bv8, t1: bv8, t2: bv8, t3: bv8)
    requires k + 4 <= j && j + 4 <= roundKey.Length
    modifies roundKey
    ensures ColumnAt(roundKey, j) == AddColumn(old(ColumnAt(roundKey, k)), Column(t0, t1, t2, t3))
    ensures OnlyChanged(roundKey, j, 4)
  {
    roundKey[j] := roundKey[k] ^ t0;
    roundKey[j + 1] := roundKey[k + 1] ^ t1;
    roundKey[j + 2] := roundKey[k + 2] ^ t2;
    roundKey[j + 3] := roundKey[k + 3] ^ t3;
  }
}
