/** Arithmetic of GF(2^8) and the two substitution tables of the block cipher. */
module GaloisField {

  // Doubling in GF(2^8): shift, and reduce by x^8 + x^4 + x^3 + x + 1 on overflow.
  function XTime(x: bv8): bv8 {
    (x << 1) ^ (((x >> 7) & 1) * 0x1b)
  }

  function Xor(x: bv8, y: bv8): bv8 {
    x ^ y
  }

  function Sum5(a: bv8, b: bv8, c: bv8, d: bv8, e: bv8): bv8 {
    a ^ b ^ c ^ d ^ e
  }

  // The multiplication the decryptor uses; it looks at five bits of y only.
  function Multiply(x: bv8, y: bv8): bv8 {
    Sum5((y & 1) * x,
         ((y >> 1) & 1) * XTime(x),
         ((y >> 2) & 1) * XTime(XTime(x)),
         ((y >> 3) & 1) * XTime(XTime(XTime(x))),
         ((y >> 4) & 1) * XTime(XTime(XTime(XTime(x)))))
  }

  // The field multiplication itself: the sum of x * 2^k over the bits k set in y.
  function Times(x: bv8, y: bv8): bv8 {
    var x1 := XTime(x);
    var x2 := XTime(x1);
    var x3 := XTime(x2);
    var x4 := XTime(x3);
    var x5 := XTime(x4);
    var x6 := XTime(x5);
    var x7 := XTime(x6);
    Xor(Sum5(When(y & 0x01, x), When(y & 0x02, x1), When(y & 0x04, x2), When(y & 0x08, x3), When(y & 0x10, x4)),
        Xor(When(y & 0x20, x5), Xor(When(y & 0x40, x6), When(y & 0x80, x7))))
  }

  function When(bit: bv8, x: bv8): bv8 {
    if bit != 0 then x else 0
  }

  // Doubling is linear.
  lemma XTimeXor(x: bv8, y: bv8)
    ensures XTime(Xor(x, y)) == Xor(XTime(x), XTime(y))
  {
  }

  lemma Sum5IsXor(a: bv8, b: bv8, c: bv8, d: bv8, e: bv8)
    ensures Sum5(a, b, c, d, e) == Xor(Xor(Xor(Xor(a, b), c), d), e)
  {
  }

  lemma XTimeSum5(a: bv8, b: bv8, c: bv8, d: bv8, e: bv8)
    ensures XTime(Sum5(a, b, c, d, e)) == Sum5(XTime(a), XTime(b), XTime(c), XTime(d), XTime(e))
  {
    hide XTime, Xor, Sum5;
    Sum5IsXor(a, b, c, d, e);
    Sum5IsXor(XTime(a), XTime(b), XTime(c), XTime(d), XTime(e));
    XTimeXor(Xor(Xor(Xor(a, b), c), d), e);
    XTimeXor(Xor(Xor(a, b), c), d);
    XTimeXor(Xor(a, b), c);
    XTimeXor(a, b);
  }

  // The eleven of a row of the decryptor's.
  function Sum11(a: bv8, b: bv8, c: bv8, d: bv8, e: bv8, f: bv8, g: bv8, h: bv8, i: bv8, j: bv8, k: bv8): bv8 {
    a ^ b ^ c ^ d ^ e ^ f ^ g ^ h ^ i ^ j ^ k
  }

  lemma Sum11IsXor(a: bv8, b: bv8, c: bv8, d: bv8, e: bv8, f: bv8, g: bv8, h: bv8, i: bv8, j: bv8, k: bv8)
    ensures Sum11(a, b, c, d, e, f, g, h, i, j, k) == Xor(Sum5(Sum5(a, b, c, d, e), f, g, h, i), Xor(j, k))
  {
    hide Sum11, Sum5, Xor;
    FirstFive(a, b, c, d, e);
    FirstNine(a, b, c, d, e, f, g, h, i);
    LastTwo(j, k);
    AllEleven(a, b, c, d, e, f, g, h, i, j, k);
  }

  lemma FirstFive(a: bv8, b: bv8, c: bv8, d: bv8, e: bv8)
    ensures Sum5(a, b, c, d, e) == a ^ b ^ c ^ d ^ e
  {
  }

  lemma FirstNine(a: bv8, b: bv8, c: bv8, d: bv8, e: bv8, f: bv8, g: bv8, h: bv8, i: bv8)
    ensures Sum5(a ^ b ^ c ^ d ^ e, f, g, h, i) == a ^ b ^ c ^ d ^ e ^ f ^ g ^ h ^ i
  {
  }

  lemma LastTwo(j: bv8, k: bv8)
    ensures Xor(j, k) == j ^ k
  {
  }

  lemma AllEleven(a: bv8, b: bv8, c: bv8, d: bv8, e: bv8, f: bv8, g: bv8, h: bv8, i: bv8, j: bv8, k: bv8)
    ensures Sum11(a, b, c, d, e, f, g, h, i, j, k) == Xor(a ^ b ^ c ^ d ^ e ^ f ^ g ^ h ^ i, j ^ k)
  {
  }

  lemma XTimeSum11(a: bv8, b: bv8, c: bv8, d: bv8, e: bv8, f: bv8, g: bv8, h: bv8, i: bv8, j: bv8, k: bv8)
    ensures XTime(Sum11(a, b, c, d, e, f, g, h, i, j, k))
         == Sum11(XTime(a), XTime(b), XTime(c), XTime(d), XTime(e), XTime(f), XTime(g), XTime(h), XTime(i), XTime(j), XTime(k))
  {
    hide XTime, Xor, Sum5, Sum11;
    Sum11IsXor(a, b, c, d, e, f, g, h, i, j, k);
    Sum11IsXor(XTime(a), XTime(b), XTime(c), XTime(d), XTime(e), XTime(f), XTime(g), XTime(h), XTime(i), XTime(j), XTime(k));
    XTimeXor(Sum5(Sum5(a, b, c, d, e), f, g, h, i), Xor(j, k));
    XTimeXor(j, k);
    XTimeSum5(Sum5(a, b, c, d, e), f, g, h, i);
    XTimeSum5(a, b, c, d, e);
  }

  // On the multipliers the decryptor passes (all below 2^5) the two multiplications agree.
  lemma MultiplyIsTimes(x: bv8, y: bv8)
    requires y < 0x20
    ensures Multiply(x, y) == Times(x, y)
  {
    hide XTime, When, Xor, Sum5;
    var x1 := XTime(x);
    var x2 := XTime(x1);
    var x3 := XTime(x2);
    var x4 := XTime(x3);
    BitSelects(x, x1, x2, x3, x4, y);
    HighBitsSelectNothing(XTime(x4), XTime(XTime(x4)), XTime(XTime(XTime(x4))), y);
    XorNothing(Multiply(x, y));
  }

  lemma BitSelects(x: bv8, x1: bv8, x2: bv8, x3: bv8, x4: bv8, y: bv8)
    ensures (y & 1) * x == When(y & 0x01, x)
    ensures ((y >> 1) & 1) * x1 == When(y & 0x02, x1)
    ensures ((y >> 2) & 1) * x2 == When(y & 0x04, x2)
    ensures ((y >> 3) & 1) * x3 == When(y & 0x08, x3)
    ensures ((y >> 4) & 1) * x4 == When(y & 0x10, x4)
  {
  }

  lemma HighBitsSelectNothing(x5: bv8, x6: bv8, x7: bv8, y: bv8)
    requires y < 0x20
    ensures When(y & 0x20, x5) == 0 && When(y & 0x40, x6) == 0 && When(y & 0x80, x7) == 0
  {
  }

  lemma XorNothing(s: bv8)
    ensures Xor(s, Xor(0, Xor(0, 0))) == s
  {
  }

  // The products the column matrices use, as sums of doublings.
  lemma TimesTwoAndThree(x: bv8)
    ensures Times(x, 0x02) == XTime(x)
    ensures Times(x, 0x03) == XTime(x) ^ x
  {
  }

  lemma TimesNineAndEleven(x: bv8)
    ensures var x1 := XTime(x);
            var x3 := XTime(XTime(x1));
            Times(x, 0x09) == x3 ^ x && Times(x, 0x0b) == x3 ^ x1 ^ x
  {
  }

  lemma TimesThirteenAndFourteen(x: bv8)
    ensures var x1 := XTime(x);
            var x2 := XTime(x1);
            var x3 := XTime(x2);
            Times(x, 0x0d) == x3 ^ x2 ^ x && Times(x, 0x0e) == x3 ^ x2 ^ x1
  {
  }

  // ----- The substitution tables: a row of sixteen entries for each high nibble -----

  function SBoxRow(x: bv8): bv128 {
    if x < 0x10 then 0x637c777b_f26b6fc5_3001672b_fed7ab76
    else if x < 0x20 then 0xca82c97d_fa5947f0_add4a2af_9ca472c0
    else if x < 0x30 then 0xb7fd9326_363ff7cc_34a5e5f1_71d83115
    else if x < 0x40 then 0x04c723c3_1896059a_071280e2_eb27b275
    else if x < 0x50 then 0x09832c1a_1b6e5aa0_523bd6b3_29e32f84
    else if x < 0x60 then 0x53d100ed_20fcb15b_6acbbe39_4a4c58cf
    else if x < 0x70 then 0xd0efaafb_434d3385_45f9027f_503c9fa8
    else if x < 0x80 then 0x51a3408f_929d38f5_bcb6da21_10fff3d2
    else if x < 0x90 then 0xcd0c13ec_5f974417_c4a77e3d_645d1973
    else if x < 0xa0 then 0x60814fdc_222a9088_46eeb814_de5e0bdb
    else if x < 0xb0 then 0xe0323a0a_4906245c_c2d3ac62_9195e479
    else if x < 0xc0 then 0xe7c8376d_8dd54ea9_6c56f4ea_657aae08
    else if x < 0xd0 then 0xba78252e_1ca6b4c6_e8dd741f_4bbd8b8a
    else if x < 0xe0 then 0x703eb566_4803f60e_613557b9_86c11d9e
    else if x < 0xf0 then 0xe1f89811_69d98e94_9b1e87e9_ce5528df
    else 0x8ca1890d_bfe64268_41992d0f_b054bb16
  }

  function RSBoxRow(x: bv8): bv128 {
    if x < 0x10 then 0x52096ad5_3036a538_bf40a39e_81f3d7fb
    else if x < 0x20 then 0x7ce33982_9b2fff87_348e4344_c4dee9cb
    else if x < 0x30 then 0x547b9432_a6c2233d_ee4c950b_42fac34e
    else if x < 0x40 then 0x082ea166_28d924b2_765ba249_6d8bd125
    else if x < 0x50 then 0x72f8f664_86689816_d4a45ccc_5d65b692
    else if x < 0x60 then 0x6c704850_fdedb9da_5e154657_a78d9d84
    else if x < 0x70 then 0x90d8ab00_8cbcd30a_f7e45805_b8b34506
    else if x < 0x80 then 0xd02c1e8f_ca3f0f02_c1afbd03_01138a6b
    else if x < 0x90 then 0x3a911141_4f67dcea_97f2cfce_f0b4e673
    else if x < 0xa0 then 0x96ac7422_e7ad3585_e2f937e8_1c75df6e
    else if x < 0xb0 then 0x47f11a71_1d29c589_6fb7620e_aa18be1b
    else if x < 0xc0 then 0xfc563e4b_c6d27920_9adbc0fe_78cd5af4
    else if x < 0xd0 then 0x1fdda833_8807c731_b1121059_2780ec5f
    else if x < 0xe0 then 0x60517fa9_19b54a0d_2de57a9f_93c99cef
    else if x < 0xf0 then 0xa0e03b4d_ae2af5b0_c8ebbb3c_83539961
    else 0x172b047e_ba77d626_e1691463_55210c7d
  }

  // The entry of a row for the low nibble of x.
  function Entry(row: bv128, x: bv8): bv8 {
    ((row << ((x & 0x0f) << 3)) >> 120) as bv8
  }

  // The forward substitution table.
  function SBox(x: bv8): bv8 {
    Entry(SBoxRow(x), x)
  }

  // The inverse substitution table.
  function RSBox(x: bv8): bv8 {
    Entry(RSBoxRow(x), x)
  }

  lemma Quarter1Inverse(x: bv8)
    requires x < 0x40
    ensures RSBox(SBox(x)) == x && SBox(RSBox(x)) == x
  {
  }

  lemma Quarter2Inverse(x: bv8)
    requires 0x40 <= x < 0x80
    ensures RSBox(SBox(x)) == x && SBox(RSBox(x)) == x
  {
  }

  lemma Quarter3Inverse(x: bv8)
    requires 0x80 <= x < 0xc0
    ensures RSBox(SBox(x)) == x && SBox(RSBox(x)) == x
  {
  }

  lemma Quarter4Inverse(x: bv8)
    requires 0xc0 <= x
    ensures RSBox(SBox(x)) == x && SBox(RSBox(x)) == x
  {
  }

  lemma TablesInverse(x: bv8)
    ensures RSBox(SBox(x)) == x && SBox(RSBox(x)) == x
  {
    hide SBox, RSBox;
    if x < 0x40 {
      Quarter1Inverse(x);
    } else if x < 0x80 {
      Quarter2Inverse(x);
    } else if x < 0xc0 {
      Quarter3Inverse(x);
    } else {
      Quarter4Inverse(x);
    }
  }

  // The affine map of section 5.1.1 of FIPS 197, and its inverse (section 5.3.2).
  function Affine(b: bv8): bv8 {
    b ^ ((b << 1) | (b >> 7)) ^ ((b << 2) | (b >> 6)) ^ ((b << 3) | (b >> 5)) ^ ((b << 4) | (b >> 4)) ^ 0x63
  }

  function InvAffine(b: bv8): bv8 {
    ((b << 1) | (b >> 7)) ^ ((b << 3) | (b >> 5)) ^ ((b << 6) | (b >> 2)) ^ 0x05
  }

  lemma AffineInverse(z: bv8)
    ensures Affine(InvAffine(z)) == z
  {
  }

  // The table is the one FIPS 197 constructs: the affine image of the multiplicative inverse.
  lemma SBoxIsAffineOfInverse(x: bv8)
    ensures exists y :: SBox(x) == Affine(y) && (if x == 0 then y == 0 else Times(x, y) == 1)
  {
    var y := InvAffine(SBox(x));
    AffineInverse(SBox(x));
    assert if x == 0 then y == 0 else Times(x, y) == 1;
  }
}
