/** PKCS#7 padding around the CBC mode. */
module AesPkcs7 {
  import opened AesCipher
  import opened AesInPlace
  import opened AesKeySchedule
  import opened AesCbc

  // The padded length: the next multiple of the block length, always leaving room for padding.
  function Pkcs7Length(inlen: nat): (r: nat)
    ensures r % BLOCK_LEN == 0 && inlen < r <= inlen + BLOCK_LEN
  {
    if inlen % BLOCK_LEN == 0 then inlen + 16 else inlen / BLOCK_LEN * BLOCK_LEN + BLOCK_LEN
  }

  // Section 6.3 of RFC 5652: k bytes of value k complete the last block.
  function Padded(p: seq<bv8>): (r: seq<bv8>)
    ensures |r| == Pkcs7Length(|p|)
  {
    var k := Pkcs7Length(|p|) - |p|;
    p + seq(k, _ => k as bv8)
  }

  // The last byte's value n, if n bytes of that value end the data and something precedes them; else 0.
  function PaddingLength(data: seq<bv8>): nat
    requires data != []
  {
    var n := data[|data| - 1] as nat;
    if n < |data| && forall i :: |data| - n <= i < |data| ==> data[i] == data[|data| - 1] then n else 0
  }

  // Padding is recognised again exactly when there was something to pad: a block of nothing but
  // padding makes the backward scan stop at the first byte, one short of the count it looks for.
  lemma PaddingRecognised(p: seq<bv8>)
    ensures var r := Padded(p); r[..|r| - PaddingLength(r)] == p <==> p != []
  {
    var r := Padded(p);
    var k := Pkcs7Length(|p|) - |p|;
    PadByte(k);
    if p != [] {
      assert PaddingLength(r) == k;
      assert r[..|p|] == p;
    } else {
      assert PaddingLength(r) == 0;
    }
  }

  lemma PadByte(k: nat)
    requires k <= 16
    ensures (k as bv8) as nat == k
  {
  }

  method Pkcs7DecodePaddingLength(data: array<bv8>, dlen: nat) returns (r: nat)
    requires 0 < dlen <= data.Length
    ensures r == PaddingLength(data[..dlen])
    ensures r != 0 ==> r < dlen && forall i :: dlen - r <= i < dlen ==> data[i] as nat == r
    ensures r == 0 <==> var n := data[dlen - 1] as nat;
                        n == 0 || dlen <= n || exists i :: dlen - n <= i < dlen && data[i] != data[dlen - 1]
  {
    var end := dlen - 1;
    var tmp := end;
    while tmp != 0 && data[tmp] == data[end] && end - tmp < data[end] as nat
      invariant 0 <= tmp <= end && end - tmp <= data[end] as nat
      invariant forall i :: tmp < i <= end ==> data[i] == data[end]
    {
      tmp := tmp - 1;
    }
    r := if end - tmp != data[end] as nat then 0 else data[end] as nat;
  }

  method EncryptPkcs7(input: array<bv8>, out: array<bv8>, iolen: nat, key: array<bv8>, iv: array<bv8>)
    requires iolen <= input.Length && iolen <= out.Length && iolen % BLOCK_LEN == 0
    requires key.Length == KEY_LEN && iv.Length == BLOCK_LEN && out != key && out != iv
    modifies out
    ensures Blocks(out[..iolen]) == CbcEncrypt(ExpandKey(key[..]), Load(iv[..], 0), old(Blocks(input[..iolen])))
  {
    hide ExpandKey, CbcEncrypt, Load, StateAt, Blocks;
    ghost var source, key0, iv0 := input[..iolen], key[..], iv[..];
    var ctx := new AesCtx(key, iv);
    forall i | 0 <= i < iolen {
      out[i] := input[i];
    }
    assert out[..iolen] == source;
    StateAtIsLoad(ctx.iv, 0);
    assert ctx.iv[..] == iv0;
    assert ctx.roundKey[..] == ExpandKey(key0) && ctx.Iv() == Load(iv0, 0);
    ctx.CbcEncryptBuffer(out, iolen);
    assert ctx.roundKey[..] == ExpandKey(key0);
    assert key[..] == key0 && iv[..] == iv0;
  }

  method DecryptPkcs7(input: array<bv8>, out: array<bv8>, iolen: nat, key: array<bv8>, iv: array<bv8>)
    requires iolen <= input.Length && iolen <= out.Length && iolen % BLOCK_LEN == 0
    requires key.Length == KEY_LEN && iv.Length == BLOCK_LEN && out != key && out != iv
    modifies out
    ensures Blocks(out[..iolen]) == CbcDecrypt(ExpandKey(key[..]), Load(iv[..], 0), old(Blocks(input[..iolen])))
  {
    hide ExpandKey, CbcDecrypt, Load, StateAt, Blocks;
    ghost var source, key0, iv0 := input[..iolen], key[..], iv[..];
    var ctx := new AesCtx(key, iv);
    forall i | 0 <= i < iolen {
      out[i] := input[i];
    }
    assert out[..iolen] == source;
    StateAtIsLoad(ctx.iv, 0);
    assert ctx.iv[..] == iv0;
    assert ctx.roundKey[..] == ExpandKey(key0) && ctx.Iv() == Load(iv0, 0);
    ctx.CbcDecryptBuffer(out, iolen);
    assert ctx.roundKey[..] == ExpandKey(key0);
    assert key[..] == key0 && iv[..] == iv0;
  }

  method EncryptPkcs7Ex(input: array<bv8>, inlen: nat, key: array<bv8>, iv: array<bv8>) returns (out: array<bv8>)
    requires inlen <= input.Length && key.Length == KEY_LEN && iv.Length == BLOCK_LEN
    ensures fresh(out) && out.Length == Pkcs7Length(inlen)
    ensures Blocks(out[..]) == CbcEncrypt(ExpandKey(key[..]), Load(iv[..], 0), Blocks(Padded(input[..inlen])))
  {
    hide ExpandKey, CbcEncrypt, Load, Blocks;
    var enlen := Pkcs7Length(inlen);
    var pkcs := enlen - inlen;
    var cache := new bv8[enlen];
    out := new bv8[enlen];
    forall i | 0 <= i < inlen {
      cache[i] := input[i];
    }
    for i := inlen to enlen
      invariant cache[..inlen] == input[..inlen]
      invariant forall j :: inlen <= j < i ==> cache[j] == pkcs as bv8
    {
      cache[i] := pkcs as bv8;
    }
    assert cache[..enlen] == Padded(input[..inlen]);
    EncryptPkcs7(cache, out, enlen, key, iv);
    assert out[..enlen] == out[..];
  }

  // Pad and encrypt, then decrypt with the same key and vector and drop the recognised padding.
  method PadEncryptDecryptUnpad(input: array<bv8>, key: array<bv8>, iv: array<bv8>) returns (plain: seq<bv8>)
    requires key.Length == KEY_LEN && iv.Length == BLOCK_LEN
    ensures plain == input[..] <==> input.Length > 0
  {
    hide ExpandKey, CbcEncrypt, CbcDecrypt, Load, Blocks, PaddingLength;
    var coded := EncryptPkcs7Ex(input, input.Length, key, iv);
    var decoded := new bv8[coded.Length];
    ghost var key0, iv0, padded := ExpandKey(key[..]), Load(iv[..], 0), Padded(input[..]);
    assert input[..input.Length] == input[..];
    assert coded[..coded.Length] == coded[..];
    DecryptPkcs7(coded, decoded, coded.Length, key, iv);
    assert decoded[..coded.Length] == decoded[..];
    CbcDecryptUndoesEncrypt(key0, iv0, Blocks(padded));
    BlocksInjective(decoded[..], padded);
    var n := Pkcs7DecodePaddingLength(decoded, decoded.Length);
    PaddingRecognised(input[..]);
    PaddingFits(padded);
    plain := decoded[..decoded.Length - n];
  }

  lemma PaddingFits(data: seq<bv8>)
    requires data != []
    ensures PaddingLength(data) < |data|
  {
  }
}
