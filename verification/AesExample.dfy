/**
 The cipher example of FIPS 197: the key expansion of appendix A.1 and the encryption of appendix B,
 with the values the standard prints for each round.
 */
module AesExample {
  import opened GaloisField
  import opened AesCipher
  import opened AesKeySchedule

  // Four columns as numbers, first byte first.
  function Hex(a: bv32, b: bv32, c: bv32, d: bv32): State {
    State(HexColumn(a), HexColumn(b), HexColumn(c), HexColumn(d))
  }

  function HexColumn(x: bv32): Column {
    Column((x >> 24) as bv8, ((x >> 16) & 0xff) as bv8, ((x >> 8) & 0xff) as bv8, (x & 0xff) as bv8)
  }

  function Key(): (key: seq<bv8>)
    ensures |key| == 16
  {
    [0x2b, 0x7e, 0x15, 0x16, 0x28, 0xae, 0xd2, 0xa6, 0xab, 0xf7, 0x15, 0x88, 0x09, 0xcf, 0x4f, 0x3c]
  }

  function Plaintext(): (text: seq<bv8>)
    ensures |text| == 16
  {
    [0x32, 0x43, 0xf6, 0xa8, 0x88, 0x5a, 0x30, 0x8d, 0x31, 0x31, 0x98, 0xa2, 0xe0, 0x37, 0x07, 0x34]
  }

  function Ciphertext(): (text: seq<bv8>)
    ensures |text| == 16
  {
    [0x39, 0x25, 0x84, 0x1d, 0x02, 0xdc, 0x09, 0xfb, 0xdc, 0x11, 0x85, 0x97, 0x19, 0x6a, 0x0b, 0x32]
  }

  // ----- One round key from the one before -----

  // Words 4 * n to 4 * n + 3 of the schedule.
  function KeyState(key: seq<bv8>, n: nat): State
    requires |key| == KEY_LEN
  {
    State(KeyWord(key, 4 * n), KeyWord(key, 4 * n + 1), KeyWord(key, 4 * n + 2), KeyWord(key, 4 * n + 3))
  }

  function NextKey(k: State, rcon: bv8): State {
    var c0 := AddColumn(k.c0, AddColumn(SubWord(RotWord(k.c3)), Column(rcon, 0, 0, 0)));
    var c1 := AddColumn(k.c1, c0);
    var c2 := AddColumn(k.c2, c1);
    State(c0, c1, c2, AddColumn(k.c3, c2))
  }

  lemma KeyStep(key: seq<bv8>, n: nat)
    requires |key| == KEY_LEN && n < 10
    ensures KeyState(key, n + 1) == NextKey(KeyState(key, n), Rcon(n + 1))
  {
    hide KeyWord, SubWord, RotWord, AddColumn, Rcon;
    FirstOfFour(key, n);
    OtherWord(key, 4 * n + 5);
    OtherWord(key, 4 * n + 6);
    OtherWord(key, 4 * n + 7);
  }

  lemma FirstOfFour(key: seq<bv8>, n: nat)
    requires |key| == KEY_LEN && n < 10
    ensures KeyWord(key, 4 * n + 4)
         == AddColumn(KeyWord(key, 4 * n), AddColumn(SubWord(RotWord(KeyWord(key, 4 * n + 3))), Column(Rcon(n + 1), 0, 0, 0)))
  {
    hide KeyWord, PowerOfTwo, AddColumn, SubWord, RotWord, Rcon;
    ScheduleStep(key, 4 * n + 4);
    RconIsPower(n + 1);
  }

  lemma OtherWord(key: seq<bv8>, i: nat)
    requires |key| == KEY_LEN && KEY_WORDS <= i && i % KEY_WORDS != 0
    ensures KeyWord(key, i) == AddColumn(KeyWord(key, i - 4), KeyWord(key, i - 1))
  {
    hide KeyWord, AddColumn;
    ScheduleStep(key, i);
  }

  lemma LoadedKey(key: seq<bv8>, n: nat)
    requires |key| == KEY_LEN && n <= 10
    ensures Load(ExpandKey(key), 16 * n) == KeyState(key, n)
  {
    hide KeyWord, Schedule;
    ScheduleWord(key, SCHEDULE_WORDS, 4 * n);
    ScheduleWord(key, SCHEDULE_WORDS, 4 * n + 1);
    ScheduleWord(key, SCHEDULE_WORDS, 4 * n + 2);
    ScheduleWord(key, SCHEDULE_WORDS, 4 * n + 3);
  }

  // ----- A column product as sums of doublings -----

  function Sums(c: Column): Column {
    Column(Sum5(XTime(c.r0), XTime(c.r1), c.r1, c.r2, c.r3), Sum5(XTime(c.r1), XTime(c.r2), c.r2, c.r3, c.r0),
           Sum5(XTime(c.r2), XTime(c.r3), c.r3, c.r0, c.r1), Sum5(XTime(c.r3), XTime(c.r0), c.r0, c.r1, c.r2))
  }

  lemma MixColumnAsSums(c: Column)
    ensures MixColumn(c) == Sums(c)
  {
    hide MixByte, Sum5, XTime;
    MixByteAsSum(c.r0, c.r1, c.r2, c.r3);
    MixByteAsSum(c.r1, c.r2, c.r3, c.r0);
    MixByteAsSum(c.r2, c.r3, c.r0, c.r1);
    MixByteAsSum(c.r3, c.r0, c.r1, c.r2);
  }

  lemma MixColumnsAsSums(s: State)
    ensures MixColumns(s) == State(Sums(s.c0), Sums(s.c1), Sums(s.c2), Sums(s.c3))
  {
    hide MixColumn, Sums;
    MixColumnAsSums(s.c0);
    MixColumnAsSums(s.c1);
    MixColumnAsSums(s.c2);
    MixColumnAsSums(s.c3);
  }

  // ----- The ten rounds: round key, start, SubBytes, ShiftRows, MixColumns, key addition -----

  lemma Round1()
    ensures NextKey(Hex(0x2b7e1516, 0x28aed2a6, 0xabf71588, 0x09cf4f3c), 0x01)
         == Hex(0xa0fafe17, 0x88542cb1, 0x23a33939, 0x2a6c7605)
    ensures SubBytes(Hex(0x193de3be, 0xa0f4e22b, 0x9ac68d2a, 0xe9f84808))
         == Hex(0xd42711ae, 0xe0bf98f1, 0xb8b45de5, 0x1e415230)
    ensures ShiftRows(Hex(0xd42711ae, 0xe0bf98f1, 0xb8b45de5, 0x1e415230))
         == Hex(0xd4bf5d30, 0xe0b452ae, 0xb84111f1, 0x1e2798e5)
    ensures MixColumns(Hex(0xd4bf5d30, 0xe0b452ae, 0xb84111f1, 0x1e2798e5))
         == Hex(0x046681e5, 0xe0cb199a, 0x48f8d37a, 0x2806264c)
    ensures Add(Hex(0x046681e5, 0xe0cb199a, 0x48f8d37a, 0x2806264c), Hex(0xa0fafe17, 0x88542cb1, 0x23a33939, 0x2a6c7605))
         == Hex(0xa49c7ff2, 0x689f352b, 0x6b5bea43, 0x026a5049)
  {
    hide MixColumns;
    MixColumnsAsSums(Hex(0xd4bf5d30, 0xe0b452ae, 0xb84111f1, 0x1e2798e5));
  }

  lemma Round2()
    ensures NextKey(Hex(0xa0fafe17, 0x88542cb1, 0x23a33939, 0x2a6c7605), 0x02)
         == Hex(0xf2c295f2, 0x7a96b943, 0x5935807a, 0x7359f67f)
    ensures SubBytes(Hex(0xa49c7ff2, 0x689f352b, 0x6b5bea43, 0x026a5049))
         == Hex(0x49ded289, 0x45db96f1, 0x7f39871a, 0x7702533b)
    ensures ShiftRows(Hex(0x49ded289, 0x45db96f1, 0x7f39871a, 0x7702533b))
         == Hex(0x49db873b, 0x45395389, 0x7f02d2f1, 0x77de961a)
    ensures MixColumns(Hex(0x49db873b, 0x45395389, 0x7f02d2f1, 0x77de961a))
         == Hex(0x584dcaf1, 0x1b4b5aac, 0xdbe7caa8, 0x1b6bb0e5)
    ensures Add(Hex(0x584dcaf1, 0x1b4b5aac, 0xdbe7caa8, 0x1b6bb0e5), Hex(0xf2c295f2, 0x7a96b943, 0x5935807a, 0x7359f67f))
         == Hex(0xaa8f5f03, 0x61dde3ef, 0x82d24ad2, 0x6832469a)
  {
    hide MixColumns;
    MixColumnsAsSums(Hex(0x49db873b, 0x45395389, 0x7f02d2f1, 0x77de961a));
  }

  lemma Round3()
    ensures NextKey(Hex(0xf2c295f2, 0x7a96b943, 0x5935807a, 0x7359f67f), 0x04)
         == Hex(0x3d80477d, 0x4716fe3e, 0x1e237e44, 0x6d7a883b)
    ensures SubBytes(Hex(0xaa8f5f03, 0x61dde3ef, 0x82d24ad2, 0x6832469a))
         == Hex(0xac73cf7b, 0xefc111df, 0x13b5d6b5, 0x45235ab8)
    ensures ShiftRows(Hex(0xac73cf7b, 0xefc111df, 0x13b5d6b5, 0x45235ab8))
         == Hex(0xacc1d6b8, 0xefb55a7b, 0x1323cfdf, 0x457311b5)
    ensures MixColumns(Hex(0xacc1d6b8, 0xefb55a7b, 0x1323cfdf, 0x457311b5))
         == Hex(0x75ec0993, 0x200b6333, 0x53c0cf7c, 0xbb25d0dc)
    ensures Add(Hex(0x75ec0993, 0x200b6333, 0x53c0cf7c, 0xbb25d0dc), Hex(0x3d80477d, 0x4716fe3e, 0x1e237e44, 0x6d7a883b))
         == Hex(0x486c4eee, 0x671d9d0d, 0x4de3b138, 0xd65f58e7)
  {
    hide MixColumns;
    MixColumnsAsSums(Hex(0xacc1d6b8, 0xefb55a7b, 0x1323cfdf, 0x457311b5));
  }

  lemma Round4()
    ensures NextKey(Hex(0x3d80477d, 0x4716fe3e, 0x1e237e44, 0x6d7a883b), 0x08)
         == Hex(0xef44a541, 0xa8525b7f, 0xb671253b, 0xdb0bad00)
    ensures SubBytes(Hex(0x486c4eee, 0x671d9d0d, 0x4de3b138, 0xd65f58e7))
         == Hex(0x52502f28, 0x85a45ed7, 0xe311c807, 0xf6cf6a94)
    ensures ShiftRows(Hex(0x52502f28, 0x85a45ed7, 0xe311c807, 0xf6cf6a94))
         == Hex(0x52a4c894, 0x85116a28, 0xe3cf2fd7, 0xf6505e07)
    ensures MixColumns(Hex(0x52a4c894, 0x85116a28, 0xe3cf2fd7, 0xf6505e07))
         == Hex(0x0fd6daa9, 0x603138bf, 0x6fc0106b, 0x5eb31301)
    ensures Add(Hex(0x0fd6daa9, 0x603138bf, 0x6fc0106b, 0x5eb31301), Hex(0xef44a541, 0xa8525b7f, 0xb671253b, 0xdb0bad00))
         == Hex(0xe0927fe8, 0xc86363c0, 0xd9b13550, 0x85b8be01)
  {
    hide MixColumns;
    MixColumnsAsSums(Hex(0x52a4c894, 0x85116a28, 0xe3cf2fd7, 0xf6505e07));
  }

  lemma Round5()
    ensures NextKey(Hex(0xef44a541, 0xa8525b7f, 0xb671253b, 0xdb0bad00), 0x10)
         == Hex(0xd4d1c6f8, 0x7c839d87, 0xcaf2b8bc, 0x11f915bc)
    ensures SubBytes(Hex(0xe0927fe8, 0xc86363c0, 0xd9b13550, 0x85b8be01))
         == Hex(0xe14fd29b, 0xe8fbfbba, 0x35c89653, 0x976cae7c)
    ensures ShiftRows(Hex(0xe14fd29b, 0xe8fbfbba, 0x35c89653, 0x976cae7c))
         == Hex(0xe1fb967c, 0xe8c8ae9b, 0x356cd2ba, 0x974ffb53)
    ensures MixColumns(Hex(0xe1fb967c, 0xe8c8ae9b, 0x356cd2ba, 0x974ffb53))
         == Hex(0x25d1a9ad, 0xbd11d168, 0xb63a338e, 0x4c4cc0b0)
    ensures Add(Hex(0x25d1a9ad, 0xbd11d168, 0xb63a338e, 0x4c4cc0b0), Hex(0xd4d1c6f8, 0x7c839d87, 0xcaf2b8bc, 0x11f915bc))
         == Hex(0xf1006f55, 0xc1924cef, 0x7cc88b32, 0x5db5d50c)
  {
    hide MixColumns;
    MixColumnsAsSums(Hex(0xe1fb967c, 0xe8c8ae9b, 0x356cd2ba, 0x974ffb53));
  }

  lemma Round6()
    ensures NextKey(Hex(0xd4d1c6f8, 0x7c839d87, 0xcaf2b8bc, 0x11f915bc), 0x20)
         == Hex(0x6d88a37a, 0x110b3efd, 0xdbf98641, 0xca0093fd)
    ensures SubBytes(Hex(0xf1006f55, 0xc1924cef, 0x7cc88b32, 0x5db5d50c))
         == Hex(0xa163a8fc, 0x784f29df, 0x10e83d23, 0x4cd503fe)
    ensures ShiftRows(Hex(0xa163a8fc, 0x784f29df, 0x10e83d23, 0x4cd503fe))
         == Hex(0xa14f3dfe, 0x78e803fc, 0x10d5a8df, 0x4c632923)
    ensures MixColumns(Hex(0xa14f3dfe, 0x78e803fc, 0x10d5a8df, 0x4c632923))
         == Hex(0x4b868d6d, 0x2c4a8980, 0x339df4e8, 0x37d218d8)
    ensures Add(Hex(0x4b868d6d, 0x2c4a8980, 0x339df4e8, 0x37d218d8), Hex(0x6d88a37a, 0x110b3efd, 0xdbf98641, 0xca0093fd))
         == Hex(0x260e2e17, 0x3d41b77d, 0xe86472a9, 0xfdd28b25)
  {
    hide MixColumns;
    MixColumnsAsSums(Hex(0xa14f3dfe, 0x78e803fc, 0x10d5a8df, 0x4c632923));
  }

  lemma Round7()
    ensures NextKey(Hex(0x6d88a37a, 0x110b3efd, 0xdbf98641, 0xca0093fd), 0x40)
         == Hex(0x4e54f70e, 0x5f5fc9f3, 0x84a64fb2, 0x4ea6dc4f)
    ensures SubBytes(Hex(0x260e2e17, 0x3d41b77d, 0xe86472a9, 0xfdd28b25))
         == Hex(0xf7ab31f0, 0x2783a9ff, 0x9b4340d3, 0x54b53d3f)
    ensures ShiftRows(Hex(0xf7ab31f0, 0x2783a9ff, 0x9b4340d3, 0x54b53d3f))
         == Hex(0xf783403f, 0x27433df0, 0x9bb531ff, 0x54aba9d3)
    ensures MixColumns(Hex(0xf783403f, 0x27433df0, 0x9bb531ff, 0x54aba9d3))
         == Hex(0x1415b5bf, 0x461615ec, 0x274656d7, 0x342ad843)
    ensures Add(Hex(0x1415b5bf, 0x461615ec, 0x274656d7, 0x342ad843), Hex(0x4e54f70e, 0x5f5fc9f3, 0x84a64fb2, 0x4ea6dc4f))
         == Hex(0x5a4142b1, 0x1949dc1f, 0xa3e01965, 0x7a8c040c)
  {
    hide MixColumns;
    MixColumnsAsSums(Hex(0xf783403f, 0x27433df0, 0x9bb531ff, 0x54aba9d3));
  }

  lemma Round8()
    ensures NextKey(Hex(0x4e54f70e, 0x5f5fc9f3, 0x84a64fb2, 0x4ea6dc4f), 0x80)
         == Hex(0xead27321, 0xb58dbad2, 0x312bf560, 0x7f8d292f)
    ensures SubBytes(Hex(0x5a4142b1, 0x1949dc1f, 0xa3e01965, 0x7a8c040c))
         == Hex(0xbe832cc8, 0xd43b86c0, 0x0ae1d44d, 0xda64f2fe)
    ensures ShiftRows(Hex(0xbe832cc8, 0xd43b86c0, 0x0ae1d44d, 0xda64f2fe))
         == Hex(0xbe3bd4fe, 0xd4e1f2c8, 0x0a642cc0, 0xda83864d)
    ensures MixColumns(Hex(0xbe3bd4fe, 0xd4e1f2c8, 0x0a642cc0, 0xda83864d))
         == Hex(0x00512fd1, 0xb1c889ff, 0x54766dcd, 0xfa1b99ea)
    ensures Add(Hex(0x00512fd1, 0xb1c889ff, 0x54766dcd, 0xfa1b99ea), Hex(0xead27321, 0xb58dbad2, 0x312bf560, 0x7f8d292f))
         == Hex(0xea835cf0, 0x0445332d, 0x655d98ad, 0x8596b0c5)
  {
    hide MixColumns;
    MixColumnsAsSums(Hex(0xbe3bd4fe, 0xd4e1f2c8, 0x0a642cc0, 0xda83864d));
  }

  lemma Round9()
    ensures NextKey(Hex(0xead27321, 0xb58dbad2, 0x312bf560, 0x7f8d292f), 0x1b)
         == Hex(0xac7766f3, 0x19fadc21, 0x28d12941, 0x575c006e)
    ensures SubBytes(Hex(0xea835cf0, 0x0445332d, 0x655d98ad, 0x8596b0c5))
         == Hex(0x87ec4a8c, 0xf26ec3d8, 0x4d4c4695, 0x9790e7a6)
    ensures ShiftRows(Hex(0x87ec4a8c, 0xf26ec3d8, 0x4d4c4695, 0x9790e7a6))
         == Hex(0x876e46a6, 0xf24ce78c, 0x4d904ad8, 0x97ecc395)
    ensures MixColumns(Hex(0x876e46a6, 0xf24ce78c, 0x4d904ad8, 0x97ecc395))
         == Hex(0x473794ed, 0x40d4e4a5, 0xa3703aa6, 0x4c9f42bc)
    ensures Add(Hex(0x473794ed, 0x40d4e4a5, 0xa3703aa6, 0x4c9f42bc), Hex(0xac7766f3, 0x19fadc21, 0x28d12941, 0x575c006e))
         == Hex(0xeb40f21e, 0x592e3884, 0x8ba113e7, 0x1bc342d2)
  {
    hide MixColumns;
    MixColumnsAsSums(Hex(0x876e46a6, 0xf24ce78c, 0x4d904ad8, 0x97ecc395));
  }

  lemma Round10()
    ensures NextKey(Hex(0xac7766f3, 0x19fadc21, 0x28d12941, 0x575c006e), 0x36)
         == Hex(0xd014f9a8, 0xc9ee2589, 0xe13f0cc8, 0xb6630ca6)
    ensures SubBytes(Hex(0xeb40f21e, 0x592e3884, 0x8ba113e7, 0x1bc342d2))
         == Hex(0xe9098972, 0xcb31075f, 0x3d327d94, 0xaf2e2cb5)
    ensures ShiftRows(Hex(0xe9098972, 0xcb31075f, 0x3d327d94, 0xaf2e2cb5))
         == Hex(0xe9317db5, 0xcb322c72, 0x3d2e895f, 0xaf090794)
    ensures Add(Hex(0xe9317db5, 0xcb322c72, 0x3d2e895f, 0xaf090794), Hex(0xd014f9a8, 0xc9ee2589, 0xe13f0cc8, 0xb6630ca6))
         == Hex(0x3925841d, 0x02dc09fb, 0xdc118597, 0x196a0b32)
  {
  }

  // ----- The rounds put together -----

  // After n rounds the last round key was k and the state is s.
  ghost predicate Reached(text: State, key: seq<bv8>, n: nat, k: State, s: State) {
    |key| == KEY_LEN && n <= 9 && KeyState(key, n) == k && Rounds(text, ExpandKey(key), n) == s
  }

  lemma Continue(text: State, key: seq<bv8>, n: nat, k: State, s: State)
    requires Reached(text, key, n, k, s) && n < 9
    ensures var k1 := NextKey(k, Rcon(n + 1));
            Reached(text, key, n + 1, k1, Add(MixColumns(ShiftRows(SubBytes(s))), k1))
  {
    hide Load, ExpandKey, KeyState, NextKey, Rcon, Add, MixColumns, ShiftRows, SubBytes;
    KeyStep(key, n);
    LoadedKey(key, n + 1);
  }

  lemma Finish(text: State, key: seq<bv8>, k: State, s: State)
    requires Reached(text, key, 9, k, s)
    ensures Cipher(text, ExpandKey(key)) == Add(ShiftRows(SubBytes(s)), NextKey(k, Rcon(10)))
  {
    hide Load, ExpandKey, Rounds, KeyState, NextKey, Rcon, Add, ShiftRows, SubBytes;
    KeyStep(key, 9);
    LoadedKey(key, 10);
  }

  lemma Begin()
    ensures Reached(Load(Plaintext(), 0), Key(), 0, Hex(0x2b7e1516, 0x28aed2a6, 0xabf71588, 0x09cf4f3c), Hex(0x193de3be, 0xa0f4e22b, 0x9ac68d2a, 0xe9f84808))
  {
    hide ExpandKey;
    LoadedKey(Key(), 0);
  }

  // Appendix B.
  lemma CipherExample()
    ensures Bytes(Cipher(Load(Plaintext(), 0), ExpandKey(Key()))) == Ciphertext()
  {
    hide Key, Plaintext, Ciphertext, Bytes, Hex, NextKey, Load, Cipher, ExpandKey, Add, MixColumns, ShiftRows, SubBytes, Reached;
    var (text, key) := (Load(Plaintext(), 0), Key());
    Begin();
    Round1();
    Continue(text, key, 0, Hex(0x2b7e1516, 0x28aed2a6, 0xabf71588, 0x09cf4f3c), Hex(0x193de3be, 0xa0f4e22b, 0x9ac68d2a, 0xe9f84808));
    Round2();
    Continue(text, key, 1, Hex(0xa0fafe17, 0x88542cb1, 0x23a33939, 0x2a6c7605), Hex(0xa49c7ff2, 0x689f352b, 0x6b5bea43, 0x026a5049));
    Round3();
    Continue(text, key, 2, Hex(0xf2c295f2, 0x7a96b943, 0x5935807a, 0x7359f67f), Hex(0xaa8f5f03, 0x61dde3ef, 0x82d24ad2, 0x6832469a));
    Round4();
    Continue(text, key, 3, Hex(0x3d80477d, 0x4716fe3e, 0x1e237e44, 0x6d7a883b), Hex(0x486c4eee, 0x671d9d0d, 0x4de3b138, 0xd65f58e7));
    Round5();
    Continue(text, key, 4, Hex(0xef44a541, 0xa8525b7f, 0xb671253b, 0xdb0bad00), Hex(0xe0927fe8, 0xc86363c0, 0xd9b13550, 0x85b8be01));
    Round6();
    Continue(text, key, 5, Hex(0xd4d1c6f8, 0x7c839d87, 0xcaf2b8bc, 0x11f915bc), Hex(0xf1006f55, 0xc1924cef, 0x7cc88b32, 0x5db5d50c));
    Round7();
    Continue(text, key, 6, Hex(0x6d88a37a, 0x110b3efd, 0xdbf98641, 0xca0093fd), Hex(0x260e2e17, 0x3d41b77d, 0xe86472a9, 0xfdd28b25));
    Round8();
    Continue(text, key, 7, Hex(0x4e54f70e, 0x5f5fc9f3, 0x84a64fb2, 0x4ea6dc4f), Hex(0x5a4142b1, 0x1949dc1f, 0xa3e01965, 0x7a8c040c));
    Round9();
    Continue(text, key, 8, Hex(0xead27321, 0xb58dbad2, 0x312bf560, 0x7f8d292f), Hex(0xea835cf0, 0x0445332d, 0x655d98ad, 0x8596b0c5));
    Round10();
    Finish(text, key, Hex(0xac7766f3, 0x19fadc21, 0x28d12941, 0x575c006e), Hex(0xeb40f21e, 0x592e3884, 0x8ba113e7, 0x1bc342d2));
    LastBytes();
  }

  lemma LastBytes()
    ensures Bytes(Hex(0x3925841d, 0x02dc09fb, 0xdc118597, 0x196a0b32)) == Ciphertext()
  {
  }
}
