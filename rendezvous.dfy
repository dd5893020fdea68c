/** The header/body split of the verbs and libfabric vector transfers: the
    first bytes of a message travel through the peer's pre-posted eager
    buffer, the rest goes zero-copy into the receiver's own regions. Sender
    and receiver each compute the split from their region lists; both are
    proved to compute `Split`. */
module Rendezvous {
  import opened Common
  import opened ScatterGather
  import opened EagerBuffers

  /** The eager header (absent when every region is empty) and the body. */
  datatype Partition = Partition(head: Option<Sge>, body: seq<Sge>)

  function HeadSges(p: Partition): seq<Sge>
  {
    if p.head.Some? then [p.head.value] else []
  }

  /** The regions that are not empty, in order. */
  function NonEmpty(rs: seq<Sge>): (r: seq<Sge>)
    decreases |rs|
  {
    if rs == [] then []
    else (if rs[0].length > 0 then [rs[0]] else []) + NonEmpty(rs[1..])
  }

  /** Every region kept is non-empty, and every non-empty region is kept. */
  lemma {:induction false} NonEmptyPositive(rs: seq<Sge>)
    ensures forall i :: 0 <= i < |NonEmpty(rs)| ==> NonEmpty(rs)[i].length > 0
    ensures forall e :: e in rs && e.length > 0 ==> e in NonEmpty(rs)
    decreases |rs|
  {
    if rs != [] {
      NonEmptyPositive(rs[1..]);
      var h: seq<Sge> := if rs[0].length > 0 then [rs[0]] else [];
      assert NonEmpty(rs) == h + NonEmpty(rs[1..]);
      forall e | e in rs && e.length > 0 ensures e in NonEmpty(rs) {
        if e != rs[0] {
          assert e in rs[1..];
        }
      }
    }
  }

  /** Dropping empty regions leaves the byte stream unchanged. */
  lemma {:induction false} NonEmptyAddrs(rs: seq<Sge>)
    ensures Addrs(NonEmpty(rs)) == Addrs(rs)
    decreases |rs|
  {
    if rs != [] {
      NonEmptyAddrs(rs[1..]);
      AddrsAppend(if rs[0].length > 0 then [rs[0]] else [], NonEmpty(rs[1..]));
      if rs[0].length > 0 {
        SingletonAddrs(rs[0]);
      } else {
        assert Addrs(rs) == Addrs(rs[1..]);
      }
    }
  }

  lemma {:induction false} NonEmptyAppend(a: seq<Sge>, b: seq<Sge>)
    ensures NonEmpty(a + b) == NonEmpty(a) + NonEmpty(b)
    decreases |a|
  {
    if a == [] {
      assert a + b == b;
    } else {
      assert (a + b)[1..] == a[1..] + b;
      NonEmptyAppend(a[1..], b);
    }
  }

  /** The split: zero-length regions are skipped; the header is the first
      min(len, EAGER_THRESHOLD) bytes of the first non-empty region; the body
      is the rest of that region followed by every later non-empty region. */
  function Split(rs: seq<Sge>): (p: Partition)
    ensures p.head.None? ==> p.body == []
    ensures p.head.Some? ==> 0 < p.head.value.length <= EAGER_THRESHOLD
    decreases |rs|
  {
    if rs == [] then Partition(None, [])
    else if rs[0].length == 0 then Split(rs[1..])
    else
      var e := rs[0];
      var h := if e.length > EAGER_THRESHOLD then EAGER_THRESHOLD else e.length;
      var rest := if e.length > EAGER_THRESHOLD then [Sge(e.addr + EAGER_THRESHOLD, e.length - EAGER_THRESHOLD, e.lkey)] else [];
      Partition(Some(Sge(e.addr, h, e.lkey)), rest + NonEmpty(rs[1..]))
  }

  /** The body never holds an empty region. */
  lemma {:induction false} SplitBodyPositive(rs: seq<Sge>)
    ensures forall i :: 0 <= i < |Split(rs).body| ==> Split(rs).body[i].length > 0
    decreases |rs|
  {
    if rs != [] {
      if rs[0].length == 0 {
        SplitBodyPositive(rs[1..]);
      } else {
        NonEmptyPositive(rs[1..]);
      }
    }
  }

  /** Header and body together describe exactly the regions' bytes, in
      order; there is no header only when there are no bytes. */
  lemma {:induction false} SplitCovers(rs: seq<Sge>)
    ensures Addrs(HeadSges(Split(rs)) + Split(rs).body) == Addrs(rs)
    ensures Split(rs).head.None? <==> Addrs(rs) == []
    decreases |rs|
  {
    if rs == [] {
    } else if rs[0].length == 0 {
      SplitCovers(rs[1..]);
      assert Addrs(rs) == Addrs(rs[1..]);
    } else {
      var e := rs[0];
      var h := if e.length > EAGER_THRESHOLD then EAGER_THRESHOLD else e.length;
      var rest := if e.length > EAGER_THRESHOLD then [Sge(e.addr + EAGER_THRESHOLD, e.length - EAGER_THRESHOLD, e.lkey)] else [];
      HeadCovers(e, NonEmpty(rs[1..]));
      NonEmptyAddrs(rs[1..]);
      assert Addrs(rs) == Span(e) + Addrs(rs[1..]);
      assert |Addrs(rs)| > 0;
    }
  }

  /** A non-empty first region, cut into the header and the remainder,
      still describes its own bytes. */
  lemma HeadCovers(e: Sge, tail: seq<Sge>)
    requires e.length > 0
    ensures var h := if e.length > EAGER_THRESHOLD then EAGER_THRESHOLD else e.length;
      var rest := if e.length > EAGER_THRESHOLD then [Sge(e.addr + EAGER_THRESHOLD, e.length - EAGER_THRESHOLD, e.lkey)] else [];
      Addrs([Sge(e.addr, h, e.lkey)] + (rest + tail)) == Span(e) + Addrs(tail)
  {
    var h := if e.length > EAGER_THRESHOLD then EAGER_THRESHOLD else e.length;
    var rest := if e.length > EAGER_THRESHOLD then [Sge(e.addr + EAGER_THRESHOLD, e.length - EAGER_THRESHOLD, e.lkey)] else [];
    SpanCut(e, h);
    SingletonAddrs(Sge(e.addr, h, e.lkey));
    AddrsAppend([Sge(e.addr, h, e.lkey)], rest + tail);
    AddrsAppend(rest, tail);
    if e.length > EAGER_THRESHOLD {
      SingletonAddrs(rest[0]);
    } else {
      assert rest == [];
    }
  }

  /** Header and body carry as many bytes as the regions. */
  lemma SplitLength(rs: seq<Sge>)
    ensures SgeLen(HeadSges(Split(rs)) + Split(rs).body) == SgeLen(rs)
  {
    SplitCovers(rs);
    AddrsLength(HeadSges(Split(rs)) + Split(rs).body);
    AddrsLength(rs);
  }

  /** Appending a region extends the split the way a left-to-right scan
      does: it becomes the header if there is none yet, and joins the body
      otherwise. Both channel loops rely on this. */
  lemma {:induction false} SplitSnoc(rs: seq<Sge>, e: Sge)
    ensures Split(rs + [e]) ==
              if Split(rs).head.None? then Split([e])
              else Partition(Split(rs).head, Split(rs).body + NonEmpty([e]))
    decreases |rs|
  {
    if rs == [] {
      assert rs + [e] == [e];
    } else {
      var f, t := rs[0], rs[1..];
      assert rs == [f] + t;
      assert rs + [e] == [f] + (t + [e]);
      SplitCons(f, t);
      SplitCons(f, t + [e]);
      if f.length == 0 {
        SplitSnoc(t, e);
      } else {
        NonEmptyAppend(t, [e]);
      }
    }
  }

  /** The split of a list by its first region. */
  lemma SplitCons(f: Sge, t: seq<Sge>)
    ensures Split([f] + t) ==
              if f.length == 0 then Split(t)
              else Partition(Some(Sge(f.addr, CopyLen(f.length), f.lkey)),
                             (if f.length > EAGER_THRESHOLD then [Sge(f.addr + EAGER_THRESHOLD, f.length - EAGER_THRESHOLD, f.lkey)] else []) + NonEmpty(t))
  {
    assert ([f] + t)[0] == f && ([f] + t)[1..] == t;
  }

  /** There is a header exactly when the regions hold a byte. */
  lemma HeadIffBytes(rs: seq<Sge>)
    ensures Split(rs).head.None? <==> SgeLen(rs) == 0
  {
    SplitCovers(rs);
    AddrsLength(rs);
  }

  /** Appending a region to the regions moves their split by one scan step. */
  lemma SplitStep(rs: seq<Sge>, e: Sge)
    ensures Scan(SgeLen(rs + [e]), Split(rs + [e]).head, Split(rs + [e]).body)
         == ScanStep(Scan(SgeLen(rs), Split(rs).head, Split(rs).body), e)
  {
    var p, q := Split(rs), Split(rs + [e]);
    SgeLenAppend(rs, [e]);
    HeadIffBytes(rs);
    SplitSnoc(rs, e);
    SplitOne(e);
    var s := Scan(SgeLen(rs), p.head, p.body);
    if p.head.None? {
      assert q == Split([e]) && SgeLen(rs) == 0 && p.body == [];
    } else if e.length == 0 {
      assert q == Partition(p.head, p.body + []);
      assert ScanStep(s, e) == s;
    } else {
      assert q == Partition(p.head, p.body + [e]);
      assert ScanStep(s, e) == Scan(SgeLen(rs) + e.length, p.head, p.body + [e]);
    }
  }

  /** A single region: its length, what it keeps when empty entries are
      dropped, and its split. */
  lemma SplitOne(e: Sge)
    ensures SgeLen([e]) == e.length
    ensures NonEmpty([e]) == if e.length > 0 then [e] else []
    ensures Split([e]) ==
              if e.length == 0 then Partition(None, [])
              else Partition(Some(Sge(e.addr, CopyLen(e.length), e.lkey)),
                             if e.length > EAGER_THRESHOLD then [Sge(e.addr + EAGER_THRESHOLD, e.length - EAGER_THRESHOLD, e.lkey)] else [])
  {
    assert [e][1..] == [];
  }

  /** The state of the channels' left-to-right scan over the regions: the
      running total, the header found so far and the body gathered so far. */
  datatype Scan = Scan(total: nat, head: Option<Sge>, body: seq<Sge>)

  /** One round of the scan loop: an empty region is skipped; while the
      total is zero the region supplies the header (and, beyond
      EAGER_THRESHOLD bytes, the first body entry); after that it joins the
      body. */
  function ScanStep(s: Scan, e: Sge): Scan
  {
    if e.length == 0 then s
    else if s.total == 0 then
      Scan(e.length, Some(Sge(e.addr, CopyLen(e.length), e.lkey)),
           if e.length > EAGER_THRESHOLD then [Sge(e.addr + EAGER_THRESHOLD, e.length - EAGER_THRESHOLD, e.lkey)] else [])
    else Scan(s.total + e.length, s.head, s.body + [e])
  }

  /** The scan after the first i regions. */
  function ScanUpTo(rs: seq<Sge>, i: nat): Scan
    requires i <= |rs|
  {
    if i == 0 then Scan(0, None, []) else ScanStep(ScanUpTo(rs, i - 1), rs[i - 1])
  }

  /** The scan computes the split: after i regions its total is their
      length, its header and body are those of their split, and it has a
      header exactly when the total is non-zero. */
  lemma {:induction false} ScanIsSplit(rs: seq<Sge>, i: nat)
    requires i <= |rs|
    ensures ScanUpTo(rs, i) == Scan(SgeLen(rs[..i]), Split(rs[..i]).head, Split(rs[..i]).body)
    ensures ScanUpTo(rs, i).head.None? <==> ScanUpTo(rs, i).total == 0
  {
    if i == 0 {
      assert rs[..0] == [];
    } else {
      ScanIsSplit(rs, i - 1);
      assert rs[..i] == rs[..i - 1] + [rs[i - 1]];
      SplitStep(rs[..i - 1], rs[i - 1]);
      HeadIffBytes(rs[..i]);
    }
  }

  /** A scan over every region has computed the split of them all. */
  lemma ScanAll(rs: seq<Sge>)
    ensures ScanUpTo(rs, |rs|) == Scan(SgeLen(rs), Split(rs).head, Split(rs).body)
    ensures Split(rs).head.None? <==> SgeLen(rs) == 0
  {
    ScanIsSplit(rs, |rs|);
    assert rs[..|rs|] == rs;
    HeadIffBytes(rs);
  }
}
