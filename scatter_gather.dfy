/** Scatter-gather entries as the verbs and libfabric transports hand them to
    the NIC: a start address, a length and the key (lkey, or libfabric
    descriptor) of the registration covering them. An entry list stands for
    the byte stream it describes, address by address. */
module ScatterGather {

  /** struct ibv_sge, or an iovec with its descriptor. */
  datatype Sge = Sge(addr: nat, length: nat, lkey: nat)

  /** The addresses one entry covers, in order. */
  function Span(e: Sge): (s: seq<nat>)
    ensures |s| == e.length
  {
    seq(e.length, i => e.addr + i)
  }

  /** The byte stream an entry list describes, as the address of each byte. */
  function Addrs(s: seq<Sge>): seq<nat>
  {
    if s == [] then [] else Span(s[0]) + Addrs(s[1..])
  }

  /** Total length of an entry list. */
  function SgeLen(s: seq<Sge>): nat
  {
    if s == [] then 0 else s[0].length + SgeLen(s[1..])
  }

  /** The entries of consecutive work requests, one list after the other. */
  function Flatten(wrs: seq<seq<Sge>>): seq<Sge>
  {
    if wrs == [] then [] else Flatten(wrs[..|wrs| - 1]) + wrs[|wrs| - 1]
  }

  lemma {:induction false} AddrsAppend(s: seq<Sge>, t: seq<Sge>)
    ensures Addrs(s + t) == Addrs(s) + Addrs(t)
    decreases |s|
  {
    if s == [] {
      assert s + t == t;
    } else {
      assert (s + t)[1..] == s[1..] + t;
      AddrsAppend(s[1..], t);
    }
  }

  lemma {:induction false} SgeLenAppend(s: seq<Sge>, t: seq<Sge>)
    ensures SgeLen(s + t) == SgeLen(s) + SgeLen(t)
    decreases |s|
  {
    if s == [] {
      assert s + t == t;
    } else {
      assert (s + t)[1..] == s[1..] + t;
      SgeLenAppend(s[1..], t);
    }
  }

  /** The stream is as long as the entries' total length. */
  lemma {:induction false} AddrsLength(s: seq<Sge>)
    ensures |Addrs(s)| == SgeLen(s)
    decreases |s|
  {
    if s != [] {
      AddrsLength(s[1..]);
    }
  }

  lemma SingletonAddrs(e: Sge)
    ensures Addrs([e]) == Span(e)
  {
    assert [e][1..] == [];
  }

  /** Cutting an entry after k bytes and resuming at addr + k describes the
      same bytes. */
  lemma SpanCut(e: Sge, k: nat)
    requires k <= e.length
    ensures Span(e) == Span(Sge(e.addr, k, e.lkey)) + Span(Sge(e.addr + k, e.length - k, e.lkey))
  {
    var a, b := Span(Sge(e.addr, k, e.lkey)), Span(Sge(e.addr + k, e.length - k, e.lkey));
    forall i | 0 <= i < e.length
      ensures Span(e)[i] == (a + b)[i]
    {
      if i >= k {
        assert b[i - k] == e.addr + k + (i - k);
      }
    }
  }

  lemma FlattenSnoc(wrs: seq<seq<Sge>>, w: seq<Sge>)
    ensures Flatten(wrs + [w]) == Flatten(wrs) + w
  {
    assert (wrs + [w])[..|wrs|] == wrs;
  }

  /** No entry is longer than the list. */
  lemma {:induction false} EntryWithinSgeLen(s: seq<Sge>, i: nat)
    requires i < |s|
    ensures s[i].length <= SgeLen(s)
    decreases |s|
  {
    if i > 0 {
      EntryWithinSgeLen(s[1..], i - 1);
    }
  }
}
