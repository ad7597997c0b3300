/** Bytes as integers, for the kernels that compute with their values. */
module Octets {

  type byte = b: int | 0 <= b < 256

  function Word16(high: byte, low: byte): nat {
    high * 256 + low
  }

  // memcpy of the bytes of src to dst + at.
  method Copy(dst: array<byte>, at: nat, src: seq<byte>)
    requires at + |src| <= dst.Length
    modifies dst
    ensures dst[..] == old(dst[..at]) + src + old(dst[at + |src|..])
  {
    forall i | 0 <= i < |src| {
      dst[at + i] := src[i];
    }
  }
}
