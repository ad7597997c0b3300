/** The cipher context and its CBC mode, which encrypts and decrypts a buffer in place. */
module AesCbc {
  import opened AesCipher
  import opened AesInPlace
  import opened AesKeySchedule

  const BLOCK_LEN := 16

  // ----- CBC on a sequence of blocks: section 6.2 of NIST SP 800-38A -----

  // The block that the next plaintext block is added to.
  function Chain(iv: State, cs: seq<State>): State {
    if cs == [] then iv else cs[|cs| - 1]
  }

  function CbcEncrypt(key: ExpandedKey, iv: State, ps: seq<State>): (cs: seq<State>)
    ensures |cs| == |ps|
  {
    if ps == [] then []
    else
      var cs := CbcEncrypt(key, iv, ps[..|ps| - 1]);
      cs + [Cipher(Add(ps[|ps| - 1], Chain(iv, cs)), key)]
  }

  lemma CbcEncryptStep(key: ExpandedKey, iv: State, ps: seq<State>, n: nat)
    requires n < |ps|
    ensures var cs := CbcEncrypt(key, iv, ps[..n]);
      CbcEncrypt(key, iv, ps[..n + 1]) == cs + [Cipher(Add(ps[n], Chain(iv, cs)), key)]
  {
    hide Cipher, Add;
    assert ps[..n + 1][..n] == ps[..n];
  }

  function CbcDecrypt(key: ExpandedKey, iv: State, cs: seq<State>): seq<State> {
    seq(|cs|, k requires 0 <= k < |cs| => Add(InvCipher(cs[k], key), Chain(iv, cs[..k])))
  }

  lemma {:induction false} CbcEncryptAt(key: ExpandedKey, iv: State, ps: seq<State>, k: nat)
    requires k < |ps|
    ensures var cs := CbcEncrypt(key, iv, ps);
            cs[k] == Cipher(Add(ps[k], if k == 0 then iv else cs[k - 1]), key)
  {
    hide Cipher, Add;
    var n := |ps| - 1;
    var prev := CbcEncrypt(key, iv, ps[..n]);
    var cs := CbcEncrypt(key, iv, ps);
    if k < n {
      CbcEncryptAt(key, iv, ps[..n], k);
      assert cs[..k] == prev[..k];
    } else {
      assert cs[..k] == prev;
    }
  }

  lemma CbcDecryptUndoesEncrypt(key: ExpandedKey, iv: State, ps: seq<State>)
    ensures CbcDecrypt(key, iv, CbcEncrypt(key, iv, ps)) == ps
  {
    hide Cipher, InvCipher, Add;
    var cs := CbcEncrypt(key, iv, ps);
    forall k | 0 <= k < |ps|
      ensures CbcDecrypt(key, iv, cs)[k] == ps[k]
    {
      CbcEncryptAt(key, iv, ps, k);
      InvCipherUndoesCipher(Add(ps[k], Chain(iv, cs[..k])), key);
      AddInvolution(ps[k], Chain(iv, cs[..k]));
    }
  }

  // Encrypting in two calls, the second starting from the chaining block the first one leaves.
  lemma {:induction false} CbcEncryptSplits(key: ExpandedKey, iv: State, ps: seq<State>, qs: seq<State>)
    ensures var cs := CbcEncrypt(key, iv, ps);
            CbcEncrypt(key, iv, ps + qs) == cs + CbcEncrypt(key, Chain(iv, cs), qs)
    decreases |qs|
  {
    hide Cipher, Add;
    var cs := CbcEncrypt(key, iv, ps);
    if qs == [] {
      assert ps + qs == ps;
    } else {
      var n := |qs| - 1;
      assert (ps + qs)[..|ps| + n] == ps + qs[..n];
      CbcEncryptSplits(key, iv, ps, qs[..n]);
      var ds := CbcEncrypt(key, Chain(iv, cs), qs[..n]);
      assert Chain(iv, cs + ds) == Chain(Chain(iv, cs), ds);
    }
  }

  lemma CbcDecryptSplits(key: ExpandedKey, iv: State, cs: seq<State>, ds: seq<State>)
    ensures CbcDecrypt(key, iv, cs + ds) == CbcDecrypt(key, iv, cs) + CbcDecrypt(key, Chain(iv, cs), ds)
  {
    hide InvCipher, Add;
    forall k | 0 <= k < |cs| + |ds|
      ensures CbcDecrypt(key, iv, cs + ds)[k] == (CbcDecrypt(key, iv, cs) + CbcDecrypt(key, Chain(iv, cs), ds))[k]
    {
      if k < |cs| {
        assert (cs + ds)[..k] == cs[..k];
      } else {
        assert (cs + ds)[..k] == cs + ds[..k - |cs|];
        assert Chain(iv, cs + ds[..k - |cs|]) == Chain(Chain(iv, cs), ds[..k - |cs|]);
      }
    }
  }

  // ----- Buffers as sequences of blocks -----

  function Blocks(b: seq<bv8>): (s: seq<State>)
    requires |b| % BLOCK_LEN == 0
    ensures |s| == |b| / BLOCK_LEN
  {
    seq(|b| / BLOCK_LEN, k requires 0 <= k < |b| / BLOCK_LEN => Load(b, BLOCK_LEN * k))
  }

  // A buffer is determined by its blocks.
  lemma BlocksInjective(a: seq<bv8>, b: seq<bv8>)
    requires |a| % BLOCK_LEN == 0 && |b| % BLOCK_LEN == 0 && Blocks(a) == Blocks(b)
    ensures a == b
  {
    assert |a| == |b| by {
      assert |a| == BLOCK_LEN * |Blocks(a)| && |b| == BLOCK_LEN * |Blocks(b)|;
    }
    forall i | 0 <= i < |a|
      ensures a[i] == b[i]
    {
      var k := i / BLOCK_LEN;
      assert Blocks(a)[k] == Load(a, BLOCK_LEN * k) && Blocks(b)[k] == Load(b, BLOCK_LEN * k);
      BytesOfLoad(a, BLOCK_LEN * k);
      BytesOfLoad(b, BLOCK_LEN * k);
      assert a[i] == a[BLOCK_LEN * k..BLOCK_LEN * k + 16][i % BLOCK_LEN];
      assert b[i] == b[BLOCK_LEN * k..BLOCK_LEN * k + 16][i % BLOCK_LEN];
    }
  }

  ghost function BlockAt(buf: array<bv8>, k: nat): State
    requires BLOCK_LEN * k + 16 <= buf.Length
    reads buf
  {
    StateAt(buf, BLOCK_LEN * k)
  }

  ghost function BlocksAt(buf: array<bv8>, length: nat): (s: seq<State>)
    requires length <= buf.Length && length % BLOCK_LEN == 0
    reads buf
    ensures s == Blocks(buf[..length])
  {
    hide StateAt, Load;
    forall k | 0 <= k < length / BLOCK_LEN
      ensures BlockAt(buf, k) == Load(buf[..length], BLOCK_LEN * k)
    {
      BlockIsLoad(buf, length, k);
    }
    seq(length / BLOCK_LEN, k requires 0 <= k < length / BLOCK_LEN reads buf => BlockAt(buf, k))
  }

  lemma BlockIsLoad(buf: array<bv8>, length: nat, k: nat)
    requires length <= buf.Length && BLOCK_LEN * k + 16 <= length
    ensures BlockAt(buf, k) == Load(buf[..length], BLOCK_LEN * k)
  {
  }

  lemma SumOfBlocks(s: seq<bv8>, a: seq<bv8>, b: seq<bv8>)
    requires |s| == |a| == |b| == 16 && forall i :: 0 <= i < 16 ==> s[i] == a[i] ^ b[i]
    ensures Load(s, 0) == Add(Load(a, 0), Load(b, 0))
  {
    hide LoadColumn, AddColumn;
    SumOfColumns(s, a, b, 0);
    SumOfColumns(s, a, b, 4);
    SumOfColumns(s, a, b, 8);
    SumOfColumns(s, a, b, 12);
  }

  lemma SumOfColumns(s: seq<bv8>, a: seq<bv8>, b: seq<bv8>, off: nat)
    requires |s| == |a| == |b| && off + 4 <= |s| && forall i :: 0 <= i < |s| ==> s[i] == a[i] ^ b[i]
    ensures LoadColumn(s, off) == AddColumn(LoadColumn(a, off), LoadColumn(b, off))
  {
  }

  lemma SliceIsState(buf: array<bv8>, off: nat)
    requires off + 16 <= buf.Length
    ensures Load(buf[off..off + 16], 0) == StateAt(buf, off)
  {
  }

  // buf[off..off + 16] ^= src[from..from + 16]; the two ranges may lie in one array but do not overlap.
  method XorWithIv(buf: array<bv8>, off: nat, src: array<bv8>, from: nat)
    requires off + 16 <= buf.Length && from + 16 <= src.Length
    requires buf == src ==> from + 16 <= off
    modifies buf
    ensures StateAt(buf, off) == Add(old(StateAt(buf, off)), old(StateAt(src, from)))
    ensures OnlyChanged(buf, off, 16)
  {
    hide StateAt, Add, Load;
    ghost var a, b := buf[off..off + 16], src[from..from + 16];
    SliceIsState(buf, off);
    SliceIsState(src, from);
    for i := 0 to BLOCK_LEN
      invariant forall p :: 0 <= p < 16 ==> src[from..from + 16][p] == b[p]
      invariant forall p :: 0 <= p < 16 ==> buf[off..off + 16][p] == if p < i then a[p] ^ b[p] else a[p]
      invariant OnlyChanged(buf, off, 16)
    {
      buf[off + i] := buf[off + i] ^ src[from + i];
    }
    SumOfBlocks(buf[off..off + 16], a, b);
    SliceIsState(buf, off);
  }

  // ----- The context -----

  class AesCtx {
    const roundKey: array<bv8>
    const iv: array<bv8>

    ghost predicate Valid() {
      roundKey.Length == EXPANDED_KEY_LEN && iv.Length == BLOCK_LEN && roundKey != iv
    }

    ghost function Iv(): State
      requires Valid()
      reads iv
    {
      StateAt(iv, 0)
    }

    constructor (key: array<bv8>, iv0: array<bv8>)
      requires key.Length == KEY_LEN && iv0.Length == BLOCK_LEN
      ensures Valid() && fresh(roundKey) && fresh(iv)
      ensures roundKey[..] == ExpandKey(key[..]) && iv[..] == iv0[..]
    {
      roundKey := new bv8[EXPANDED_KEY_LEN];
      iv := new bv8[BLOCK_LEN];
      new;
      KeyExpansion(roundKey, key);
      SetIv(iv0);
    }

    method SetIv(iv0: array<bv8>)
      requires Valid() && iv0.Length == BLOCK_LEN
      modifies iv
      ensures iv[..] == old(iv0[..])
    {
      forall i | 0 <= i < BLOCK_LEN {
        iv[i] := iv0[i];
      }
    }

    // One turn of the encryption loop: the block at i is added to the chaining block and enciphered.
    method EncryptBlock(buf: array<bv8>, i: nat, ivBuf: array<bv8>, ivOff: nat)
      requires Valid() && buf != roundKey && i + BLOCK_LEN <= buf.Length && ivOff + BLOCK_LEN <= ivBuf.Length
      requires buf == ivBuf ==> ivOff + BLOCK_LEN <= i
      modifies buf
      ensures StateAt(buf, i) == Cipher(Add(old(StateAt(buf, i)), old(StateAt(ivBuf, ivOff))), roundKey[..])
      ensures OnlyChanged(buf, i, BLOCK_LEN)
    {
      hide Cipher, Add;
      XorWithIv(buf, i, ivBuf, ivOff);
      CipherInPlace(buf, i, roundKey);
    }

    method EncryptBlockAt(buf: array<bv8>, n: nat, ivBuf: array<bv8>, ivOff: nat)
      requires Valid() && buf != roundKey && BLOCK_LEN * n + 16 <= buf.Length && ivOff + BLOCK_LEN <= ivBuf.Length
      requires buf == ivBuf ==> ivOff + BLOCK_LEN <= BLOCK_LEN * n
      modifies buf
      ensures BlockAt(buf, n) == Cipher(Add(old(BlockAt(buf, n)), old(StateAt(ivBuf, ivOff))), roundKey[..])
      ensures OnlyChanged(buf, BLOCK_LEN * n, BLOCK_LEN)
      ensures forall k :: 0 <= k && BLOCK_LEN * k + 16 <= buf.Length && k != n ==> BlockAt(buf, k) == old(BlockAt(buf, k))
    {
      hide Cipher, Add;
      EncryptBlock(buf, BLOCK_LEN * n, ivBuf, ivOff);
    }

    method CbcEncryptBuffer(buf: array<bv8>, length: nat)
      requires Valid() && length % BLOCK_LEN == 0 && length <= buf.Length && buf != roundKey && buf != iv
      modifies buf, iv
      ensures Blocks(buf[..length]) == CbcEncrypt(roundKey[..], old(Iv()), old(Blocks(buf[..length])))
      ensures Iv() == Chain(old(Iv()), Blocks(buf[..length]))
      ensures buf[length..] == old(buf[length..])
    {
      hide StateAt, CbcEncrypt;
      ghost var before, after := BlocksAt(buf, length), CbcEncrypt(roundKey[..], Iv(), BlocksAt(buf, length));
      var ivBuf, ivOff := EncryptBlocks(buf, length);
      assert BlocksAt(buf, length) == after;
      StoreIv(ivBuf, ivOff);
      assert BlocksAt(buf, length) == after;
    }

    // The loop; the chaining block for the next call is left at ivOff in ivBuf.
    method EncryptBlocks(buf: array<bv8>, length: nat) returns (ivBuf: array<bv8>, ivOff: nat)
      requires Valid() && length % BLOCK_LEN == 0 && length <= buf.Length && buf != roundKey && buf != iv
      modifies buf
      ensures BlocksAt(buf, length) == CbcEncrypt(roundKey[..], Iv(), old(BlocksAt(buf, length)))
      ensures ivOff + BLOCK_LEN <= ivBuf.Length && (ivBuf == iv ==> ivOff == 0) && (ivBuf == iv || ivBuf == buf)
      ensures StateAt(ivBuf, ivOff) == Chain(Iv(), BlocksAt(buf, length))
      ensures buf[length..] == old(buf[length..])
    {
      hide StateAt, Cipher, Add, Load, CbcEncrypt;
      ghost var key, iv0, ps := roundKey[..], Iv(), BlocksAt(buf, length);
      ivBuf, ivOff := iv, 0;
      var i := 0;
      ghost var n := 0;
      ghost var cs := CbcEncrypt(key, iv0, ps[..0]);
      while i < length
        invariant i == BLOCK_LEN * n && n <= |ps| && cs == CbcEncrypt(key, iv0, ps[..n])
        invariant roundKey[..] == key && Iv() == iv0
        invariant if n == 0 then ivBuf == iv && ivOff == 0 else ivBuf == buf && ivOff == i - BLOCK_LEN
        invariant StateAt(ivBuf, ivOff) == Chain(iv0, cs)
        invariant forall k :: 0 <= k < n ==> BlockAt(buf, k) == cs[k]
        invariant forall k :: n <= k < |ps| ==> BlockAt(buf, k) == ps[k]
        invariant buf[length..] == old(buf[length..])
      {
        CbcEncryptStep(key, iv0, ps, n);
        assert BlockAt(buf, n) == ps[n];
        EncryptBlockAt(buf, i / BLOCK_LEN, ivBuf, ivOff);
        cs := cs + [BlockAt(buf, n)];
        ivBuf, ivOff := buf, i;
        i := i + BLOCK_LEN;
        n := n + 1;
      }
      assert n == |ps| && ps[..n] == ps;
      assert BlocksAt(buf, length) == cs;
    }

    // Keep the last chaining block for the next call.
    method StoreIv(src: array<bv8>, off: nat)
      requires Valid() && off + BLOCK_LEN <= src.Length && (src == iv ==> off == 0)
      modifies iv
      ensures Iv() == old(StateAt(src, off))
    {
      forall i | 0 <= i < BLOCK_LEN {
        iv[i] := src[off + i];
      }
    }

    method SavedBlock(buf: array<bv8>, i: nat) returns (saved: array<bv8>)
      requires i + BLOCK_LEN <= buf.Length
      ensures fresh(saved) && saved.Length == BLOCK_LEN && StateAt(saved, 0) == StateAt(buf, i)
    {
      saved := new bv8[BLOCK_LEN](p requires 0 <= p < BLOCK_LEN reads buf => buf[i + p]);
    }

    // One turn of the decryption loop; the chaining block is replaced by the ciphertext just consumed.
    method DecryptBlock(buf: array<bv8>, i: nat)
      requires Valid() && buf != roundKey && buf != iv && i + BLOCK_LEN <= buf.Length
      modifies buf, iv
      ensures StateAt(buf, i) == Add(InvCipher(old(StateAt(buf, i)), roundKey[..]), old(Iv()))
      ensures Iv() == old(StateAt(buf, i))
      ensures OnlyChanged(buf, i, BLOCK_LEN)
    {
      hide InvCipher, Add, StateAt;
      var storeNextIv := SavedBlock(buf, i);
      InvCipherInPlace(buf, i, roundKey);
      XorWithIv(buf, i, iv, 0);
      StoreIv(storeNextIv, 0);
    }

    method DecryptBlockAt(buf: array<bv8>, n: nat)
      requires Valid() && buf != roundKey && buf != iv && BLOCK_LEN * n + 16 <= buf.Length
      modifies buf, iv
      ensures BlockAt(buf, n) == Add(InvCipher(old(BlockAt(buf, n)), roundKey[..]), old(Iv()))
      ensures Iv() == old(BlockAt(buf, n))
      ensures OnlyChanged(buf, BLOCK_LEN * n, BLOCK_LEN)
      ensures forall k :: 0 <= k && BLOCK_LEN * k + 16 <= buf.Length && k != n ==> BlockAt(buf, k) == old(BlockAt(buf, k))
    {
      hide InvCipher, Add;
      DecryptBlock(buf, BLOCK_LEN * n);
    }

    method CbcDecryptBuffer(buf: array<bv8>, length: nat)
      requires Valid() && length % BLOCK_LEN == 0 && length <= buf.Length && buf != roundKey && buf != iv
      modifies buf, iv
      ensures Blocks(buf[..length]) == CbcDecrypt(roundKey[..], old(Iv()), old(Blocks(buf[..length])))
      ensures Iv() == Chain(old(Iv()), old(Blocks(buf[..length])))
      ensures buf[length..] == old(buf[length..])
    {
      hide StateAt, InvCipher, Add, Load;
      ghost var key, iv0, cs := roundKey[..], Iv(), BlocksAt(buf, length);
      var i := 0;
      ghost var n := 0;
      while i < length
        invariant i == BLOCK_LEN * n && n <= |cs|
        invariant roundKey[..] == key && Iv() == Chain(iv0, cs[..n])
        invariant forall k :: 0 <= k < n ==> BlockAt(buf, k) == CbcDecrypt(key, iv0, cs)[k]
        invariant forall k :: n <= k < |cs| ==> BlockAt(buf, k) == cs[k]
        invariant buf[length..] == old(buf[length..])
      {
        assert BlockAt(buf, n) == cs[n];
        DecryptBlockAt(buf, i / BLOCK_LEN);
        i := i + BLOCK_LEN;
        n := n + 1;
      }
      assert n == |cs| && cs[..n] == cs;
      assert BlocksAt(buf, length) == CbcDecrypt(key, iv0, cs);
    }
  }
}
