/** The descriptor a peer needs for one-sided access to a registered region
    (struct RemoteMemoryRegion): its address, remote key and length, and the
    24-byte layout in which the libfabric and verbs channels exchange an
    array of them (three 8-byte little-endian fields, in that order). */
module RemoteRegions {
  import opened Common
  import opened ByteCodec

  datatype RemoteMemoryRegion = RemoteMemoryRegion(addr: nat, rkey: nat, length: nat)

  /** sizeof(RemoteMemoryRegion) on a 64-bit target. */
  const RMR_SIZE: nat := 24

  /** A descriptor fits its layout when every field fits 64 bits. */
  predicate Fits(r: RemoteMemoryRegion)
  {
    r.addr < Pow256(8) && r.rkey < Pow256(8) && r.length < Pow256(8)
  }

  /** The bytes of a descriptor array, one 24-byte record per descriptor. */
  function EncodeRmrs(rs: seq<RemoteMemoryRegion>): (s: seq<byte>)
    requires forall i :: 0 <= i < |rs| ==> Fits(rs[i])
    ensures |s| == RMR_SIZE * |rs|
  {
    if rs == [] then []
    else assert Fits(rs[0]); EncodeLE(rs[0].addr, 8) + EncodeLE(rs[0].rkey, 8) + EncodeLE(rs[0].length, 8) + EncodeRmrs(rs[1..])
  }

  /** Reads |s| / 24 descriptors out of s. */
  function DecodeRmrs(s: seq<byte>): (rs: seq<RemoteMemoryRegion>)
    ensures |rs| == |s| / RMR_SIZE
    ensures forall i :: 0 <= i < |rs| ==> Fits(rs[i])
  {
    if |s| < RMR_SIZE then []
    else [RemoteMemoryRegion(DecodeLE(s[..8]), DecodeLE(s[8..16]), DecodeLE(s[16..24]))] + DecodeRmrs(s[24..])
  }

  /** Decoding reads a leading 24-byte record as one descriptor. */
  lemma DecodeRecord(a: seq<byte>, k: seq<byte>, l: seq<byte>, rest: seq<byte>)
    requires |a| == 8 && |k| == 8 && |l| == 8
    ensures DecodeRmrs(a + k + l + rest) == [RemoteMemoryRegion(DecodeLE(a), DecodeLE(k), DecodeLE(l))] + DecodeRmrs(rest)
  {
    var s := a + k + l + rest;
    assert s[..8] == a && s[8..16] == k && s[16..24] == l;
    assert s[24..] == rest;
  }

  /** The receiver of the descriptor bytes recovers the sender's array. */
  lemma {:induction false} DecodeEncodeRmrs(rs: seq<RemoteMemoryRegion>)
    requires forall i :: 0 <= i < |rs| ==> Fits(rs[i])
    ensures DecodeRmrs(EncodeRmrs(rs)) == rs
  {
    if rs != [] {
      var r := rs[0];
      assert Fits(r);
      DecodeRecord(EncodeLE(r.addr, 8), EncodeLE(r.rkey, 8), EncodeLE(r.length, 8), EncodeRmrs(rs[1..]));
      DecodeEncodeLE(r.addr, 8);
      DecodeEncodeLE(r.rkey, 8);
      DecodeEncodeLE(r.length, 8);
      DecodeEncodeRmrs(rs[1..]);
    }
  }
}
