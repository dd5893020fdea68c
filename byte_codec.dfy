/** Little-endian fixed-width integers, the in-memory layout of the integer
    fields that the transports copy into messages byte for byte. */
module ByteCodec {
  import opened Common

  /** 256^k, the number of values a k-byte field holds. */
  function Pow256(k: nat): (r: nat)
    ensures r >= 1
  {
    if k == 0 then 1 else 256 * Pow256(k - 1)
  }

  /** The k bytes of x, least significant first. */
  function EncodeLE(x: nat, k: nat): (s: seq<byte>)
    requires x < Pow256(k)
    ensures |s| == k
  {
    if k == 0 then [] else [(x % 256) as byte] + EncodeLE(x / 256, k - 1)
  }

  /** The value of a little-endian byte string. */
  function DecodeLE(s: seq<byte>): (x: nat)
    ensures x < Pow256(|s|)
  {
    if s == [] then 0 else s[0] as nat + 256 * DecodeLE(s[1..])
  }

  /** Decoding undoes encoding. */
  lemma {:induction false} DecodeEncodeLE(x: nat, k: nat)
    requires x < Pow256(k)
    ensures DecodeLE(EncodeLE(x, k)) == x
  {
    if k > 0 {
      var s := EncodeLE(x, k);
      var y := x / 256;
      QuotientBound(x, Pow256(k - 1));
      assert s[1..] == EncodeLE(y, k - 1);
      DecodeEncodeLE(y, k - 1);
      assert DecodeLE(s) == x % 256 + 256 * y;
      DivMod256(x);
    }
  }

  lemma QuotientBound(x: nat, p: nat)
    requires x < 256 * p
    ensures x / 256 < p
  {
  }

  lemma DivMod256(x: nat)
    ensures x == x % 256 + 256 * (x / 256)
  {
  }

  /** Encoding undoes decoding: every byte string is the encoding of its
      value. */
  lemma {:induction false} EncodeDecodeLE(s: seq<byte>)
    ensures EncodeLE(DecodeLE(s), |s|) == s
  {
    if s != [] {
      EncodeDecodeLE(s[1..]);
      var x := DecodeLE(s);
      assert x % 256 == s[0] as nat;
      assert x / 256 == DecodeLE(s[1..]);
    }
  }
}
