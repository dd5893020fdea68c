/** OFIChannel: a connection to one peer over a shared libfabric endpoint.
    Two contexts count its transmit and receive requests; a pre-posted eager
    receive buffer takes the header of every vector receive. Success of a
    transfer is judged only by the context counters after polling. */
module OfiChannels {
  import opened Common
  import opened ScatterGather
  import opened EagerBuffers
  import opened Rendezvous
  import opened RemoteRegions
  import opened OfiEndpoints

  /** The entry of a region as SendV and RecvV gather it (GetAddr,
      GetLength, GetLKey). */
  function Entry(l: OfiLocalMemoryRegion): Sge
  {
    Sge(l.GetAddr(), l.GetLength(), l.GetLKey())
  }

  function Entries(ls: seq<OfiLocalMemoryRegion>): seq<Sge>
  {
    seq(|ls|, i requires 0 <= i < |ls| => Entry(ls[i]))
  }

  /** RemoteMemoryRegion(lmr): the descriptor of a region for its peer. */
  function Describe(l: OfiLocalMemoryRegion): RemoteMemoryRegion
  {
    RemoteMemoryRegion(l.GetAddr(), l.GetRKey(), l.GetLength())
  }

  function Descriptors(ls: seq<OfiLocalMemoryRegion>): seq<RemoteMemoryRegion>
  {
    seq(|ls|, i requires 0 <= i < |ls| => Describe(ls[i]))
  }

  /** Once a prefix of the regions has a header, the whole list has the
      same one. */
  lemma {:induction false} HeadStable(rs: seq<Sge>, i: nat)
    requires i <= |rs| && Split(rs[..i]).head.Some?
    ensures Split(rs).head == Split(rs[..i]).head
    decreases |rs| - i
  {
    if i == |rs| {
      assert rs[..i] == rs;
    } else {
      assert rs[..i + 1] == rs[..i] + [rs[i]];
      SplitSnoc(rs[..i], rs[i]);
      HeadStable(rs, i + 1);
    }
  }

  /** The bytes a vector transfer hands over, the header and then a prefix
      of the body, are a prefix of the regions' bytes; all of them when the
      whole body was handed over. */
  lemma PostedStream(rs: seq<Sge>, body: seq<Sge>)
    requires body <= Split(rs).body
    ensures Addrs(HeadSges(Split(rs)) + body) <= Addrs(rs)
    ensures body == Split(rs).body ==> Addrs(HeadSges(Split(rs)) + body) == Addrs(rs)
  {
    var p := Split(rs);
    SplitCovers(rs);
    var rest := p.body[|body|..];
    assert p.body == body + rest;
    AddrsAppend(HeadSges(p), body);
    AddrsAppend(HeadSges(p), p.body);
    AddrsAppend(body, rest);
  }

  /** RecvV's scan over the regions: the received total is the regions'
      total, the header is the split's (address null and length 0 when
      every region is empty) and lies inside the memory the regions lie in,
      and the gathered iovecs are the split's body. */
  method GatherRecv(lmrs: seq<OfiLocalMemoryRegion>, ghost memLen: nat)
    returns (recvdLen: nat, headAddr: nat, headLen: nat, iov: seq<Sge>, ghost headKey: nat)
    requires forall i :: 0 <= i < |lmrs| ==> lmrs[i].GetAddr() + lmrs[i].GetLength() <= memLen
    ensures recvdLen == SgeLen(Entries(lmrs))
    ensures iov == Split(Entries(lmrs)).body
    ensures recvdLen == 0 <==> Split(Entries(lmrs)).head.None?
    ensures recvdLen != 0 ==> Split(Entries(lmrs)).head == Some(Sge(headAddr, headLen, headKey))
    ensures recvdLen == 0 ==> headAddr == NULL && headLen == 0
    ensures headAddr + headLen <= memLen
  {
    recvdLen, iov, headAddr, headLen, headKey := 0, [], NULL, 0, 0;
    ghost var rs := Entries(lmrs);
    var i := 0;
    while i < |lmrs|
      invariant i <= |lmrs|
      invariant ScanUpTo(rs, i) == Scan(recvdLen, if recvdLen == 0 then None else Some(Sge(headAddr, headLen, headKey)), iov)
      invariant recvdLen == 0 ==> iov == []
      invariant recvdLen == 0 ==> headAddr == NULL && headLen == 0
      invariant headAddr + headLen <= memLen
    {
      assert ScanUpTo(rs, i + 1) == ScanStep(ScanUpTo(rs, i), rs[i]);
      recvdLen, headAddr, headLen, iov, headKey := GatherStep(lmrs[i], recvdLen, headAddr, headLen, iov, headKey, memLen);
      i := i + 1;
    }
    ScanAll(rs);
  }

  /** One region of GatherRecv's scan: an empty region changes nothing, the
      first non-empty one gives the header (its part past EAGER_THRESHOLD
      starting the iovecs), and any later one joins the iovecs. */
  method GatherStep(lmr: OfiLocalMemoryRegion, recvdLen: nat, headAddr: nat, headLen: nat, iov: seq<Sge>,
                    ghost headKey: nat, ghost memLen: nat)
    returns (recvdLen': nat, headAddr': nat, headLen': nat, iov': seq<Sge>, ghost headKey': nat)
    requires recvdLen == 0 ==> iov == [] && headAddr == NULL && headLen == 0
    requires headAddr + headLen <= memLen && lmr.GetAddr() + lmr.GetLength() <= memLen
    ensures Scan(recvdLen', if recvdLen' == 0 then None else Some(Sge(headAddr', headLen', headKey')), iov')
            == ScanStep(Scan(recvdLen, if recvdLen == 0 then None else Some(Sge(headAddr, headLen, headKey)), iov), Entry(lmr))
    ensures recvdLen' == 0 ==> iov' == [] && headAddr' == NULL && headLen' == 0
    ensures headAddr' + headLen' <= memLen
  {
    recvdLen', headAddr', headLen', iov', headKey' := recvdLen, headAddr, headLen, iov, headKey;
    var len := lmr.GetLength();
    if len > 0 {
      var addr := lmr.GetAddr();
      var lkey := lmr.GetLKey();
      if recvdLen == 0 {
        headAddr' := addr;
        headKey' := lkey;
        if len > EAGER_THRESHOLD {
          headLen' := EAGER_THRESHOLD;
          recvdLen' := recvdLen' + EAGER_THRESHOLD;
          iov' := iov' + [Sge(addr + EAGER_THRESHOLD, len - EAGER_THRESHOLD, lkey)];
          recvdLen' := recvdLen' + (len - EAGER_THRESHOLD);
        } else {
          headLen' := len;
          recvdLen' := recvdLen' + len;
        }
      } else {
        iov' := iov' + [Sge(addr, len, lkey)];
        recvdLen' := recvdLen' + len;
      }
    }
  }

  /** The local iovecs WriteV and ReadV gather: one per non-empty region,
      in order. msg.desc is never set, so no descriptor travels with them
      (recorded as NULL). */
  function RmaLocal(ls: seq<OfiLocalMemoryRegion>): seq<Sge>
  {
    if ls == [] then []
    else
      var l := ls[|ls| - 1];
      RmaLocal(ls[..|ls| - 1]) + (if l.GetLength() > 0 then [Sge(l.GetAddr(), l.GetLength(), NULL)] else [])
  }

  /** The remote iovecs paired with them: offset 0, the peer region's
      length and its key. */
  function RmaRemote(ls: seq<OfiLocalMemoryRegion>, rmrs: seq<RemoteMemoryRegion>): (r: seq<RmaIov>)
    requires |rmrs| == |ls|
    ensures |r| == |RmaLocal(ls)|
  {
    if ls == [] then []
    else
      var r := rmrs[|rmrs| - 1];
      RmaRemote(ls[..|ls| - 1], rmrs[..|rmrs| - 1]) + (if ls[|ls| - 1].GetLength() > 0 then [RmaIov(0, r.length, r.rkey)] else [])
  }

  /** Local and remote iovecs pair up one to one, each remote iovec at
      offset 0 and as long as its local one. */
  lemma {:induction false} RmaPaired(ls: seq<OfiLocalMemoryRegion>, rmrs: seq<RemoteMemoryRegion>)
    requires |rmrs| == |ls|
    requires forall i :: 0 <= i < |ls| && ls[i].GetLength() > 0 ==> ls[i].GetLength() == rmrs[i].length
    ensures |RmaLocal(ls)| == |RmaRemote(ls, rmrs)|
    ensures forall j :: 0 <= j < |RmaLocal(ls)| ==>
              RmaRemote(ls, rmrs)[j].addr == 0 && RmaRemote(ls, rmrs)[j].len == RmaLocal(ls)[j].length
    decreases |ls|
  {
    if ls != [] {
      RmaPaired(ls[..|ls| - 1], rmrs[..|rmrs| - 1]);
    }
  }

  /** The local iovecs describe exactly the regions' bytes, so they carry
      the regions' total length. */
  lemma {:induction false} RmaLocalAddrs(ls: seq<OfiLocalMemoryRegion>)
    ensures Addrs(RmaLocal(ls)) == Addrs(Entries(ls))
    ensures SgeLen(RmaLocal(ls)) == SgeLen(Entries(ls))
    decreases |ls|
  {
    if ls != [] {
      var init, l := ls[..|ls| - 1], ls[|ls| - 1];
      RmaLocalAddrs(init);
      assert Entries(ls) == Entries(init) + [Entry(l)];
      AddrsAppend(Entries(init), [Entry(l)]);
      SingletonAddrs(Entry(l));
      var tail := if l.GetLength() > 0 then [Sge(l.GetAddr(), l.GetLength(), NULL)] else [];
      AddrsAppend(RmaLocal(init), tail);
      if l.GetLength() > 0 {
        SingletonAddrs(tail[0]);
      }
      assert Addrs(tail) == Span(Entry(l));
    }
    AddrsLength(RmaLocal(ls));
    AddrsLength(Entries(ls));
  }

  /** One more region extends the local and the remote iovecs by its own,
      if it is not empty. */
  lemma RmaPrefixStep(lmrs: seq<OfiLocalMemoryRegion>, rmrs: seq<RemoteMemoryRegion>, i: nat)
    requires |rmrs| == |lmrs| && i < |lmrs|
    ensures RmaLocal(lmrs[..i + 1]) == RmaLocal(lmrs[..i])
              + (if lmrs[i].GetLength() > 0 then [Sge(lmrs[i].GetAddr(), lmrs[i].GetLength(), NULL)] else [])
    ensures RmaRemote(lmrs[..i + 1], rmrs[..i + 1]) == RmaRemote(lmrs[..i], rmrs[..i])
              + (if lmrs[i].GetLength() > 0 then [RmaIov(0, rmrs[i].length, rmrs[i].rkey)] else [])
  {
    assert lmrs[..i + 1][..i] == lmrs[..i] && rmrs[..i + 1][..i] == rmrs[..i];
  }

  /** WriteV's and ReadV's scan: the local and remote iovecs of the
      non-empty regions and the total of all lengths. */
  method GatherRma(lmrs: seq<OfiLocalMemoryRegion>, rmrs: seq<RemoteMemoryRegion>)
    returns (iov: seq<Sge>, rma: seq<RmaIov>, total: nat)
    requires |rmrs| == |lmrs|
    ensures iov == RmaLocal(lmrs) && rma == RmaRemote(lmrs, rmrs)
    ensures total == SgeLen(Entries(lmrs))
  {
    iov, rma, total := [], [], 0;
    var i := 0;
    while i < |lmrs|
      invariant i <= |lmrs|
      invariant iov == RmaLocal(lmrs[..i]) && rma == RmaRemote(lmrs[..i], rmrs[..i])
      invariant total == SgeLen(iov)
    {
      RmaPrefixStep(lmrs, rmrs, i);
      var len := lmrs[i].GetLength();
      if len > 0 {
        SgeLenAppend(iov, [Sge(lmrs[i].GetAddr(), len, NULL)]);
        iov := iov + [Sge(lmrs[i].GetAddr(), len, NULL)];
        rma := rma + [RmaIov(0, rmrs[i].length, rmrs[i].rkey)];
        total := total + len;
      }
      i := i + 1;
    }
    assert lmrs[..|lmrs|] == lmrs && rmrs[..|rmrs|] == rmrs;
    RmaLocalAddrs(lmrs);
  }

  /** The header poll of SendV, seen from before the header was posted:
      the contexts then (with the header counted as outstanding iff it was
      accepted) and the transmit queue then determine how many answers the
      poll read, and the count it returned is the context's earlier
      completions plus those answers' completions for it. */
  ghost predicate HeaderPolled(ctxs: map<nat, OfiContext>, q: seq<CqRead>, id: nat, accepted: bool, read: nat, count: nat)
  {
    && id in ctxs
    && var c0 := if accepted then Bumped(ctxs, id, 1) else ctxs;
    && read <= |q|
    && PollRan(c0, q, id, c0[id].wr, read)
    && count == ctxs[id].comp + Completions(q[..read], id)
  }

  class OfiChannel {
    /** The endpoint shared by every channel of the process. */
    const ep: OfiEndpoint
    /** The peer's fi_addr_t and the descriptor it announced. */
    const peerAddr: nat
    const peerDesc: nat
    /** Ids of the transmit and receive contexts. */
    const txId: nat
    const rxId: nat
    /** The eager receive buffer. */
    const recvBuf: EagerBuffer

    ghost predicate Valid()
      reads this, ep
    {
      && ep.Valid()
      && txId in ep.ctx && rxId in ep.ctx && txId != rxId
      && recvBuf.Valid()
    }

    /** Registers the eager buffer at bufAddr (whose registration the
        buffer's local key depends on), registers the transmit and then the
        receive context, and pre-posts an untagged eager receive of
        EAGER_THRESHOLD bytes on the receive context. */
    constructor (ep: OfiEndpoint, peerAddr: nat, peerDesc: nat, bufAddr: nat)
      requires ep.Valid()
      requires ep.mrReg(MrRequest(bufAddr, EAGER_THRESHOLD, OfiAccess(MR_LOCAL_WRITE | MR_LOCAL_READ), ep.requestedKey)).MrRegistered?
      modifies ep
      ensures Valid() && fresh(recvBuf.buf)
      ensures this.ep == ep && this.peerAddr == peerAddr && this.peerDesc == peerDesc
      ensures recvBuf.addr == bufAddr
      ensures recvBuf.lkey == ep.mrReg(MrRequest(bufAddr, EAGER_THRESHOLD, OfiAccess(MR_LOCAL_WRITE | MR_LOCAL_READ), old(ep.requestedKey))).desc
      ensures txId == old(ep.nextCtxId) && rxId == txId + 1
      ensures ep.requestedKey == old(ep.requestedKey) + 1 && ep.postCalls == old(ep.postCalls) + 1
      ensures ep.posted == old(ep.posted) + (if ep.posts(old(ep.postCalls)).ok then [OfiOp(OpRecv, rxId, peerAddr, TAG_MSG, [Sge(bufAddr, EAGER_THRESHOLD, recvBuf.lkey)], [])] else [])
      ensures ep.autoProgress || ep.posts(old(ep.postCalls)).eagains == 0 ==>
                ep.ctx == old(ep.ctx)[txId := OfiContext(0, 0)][rxId := OfiContext(if ep.posts(old(ep.postCalls)).ok then 1 else 0, 0)]
    {
      this.ep := ep;
      this.peerAddr := peerAddr;
      this.peerDesc := peerDesc;
      var lmr := ep.RegisterMemoryRegion(bufAddr, EAGER_THRESHOLD, MR_LOCAL_WRITE | MR_LOCAL_READ);
      var buffer := new EagerBuffer(bufAddr, lmr.value.GetLKey());
      recvBuf := buffer;
      var tx := ep.RegisterContext();
      var rx := ep.RegisterContext();
      txId, rxId := tx, rx;
      var r, ok := ep.PostRecv(buffer.addr, EAGER_THRESHOLD, buffer.lkey, peerAddr, TAG_MSG, rx);
    }

    /** The destructor: deregisters both contexts. */
    method Close()
      requires Valid()
      modifies ep
      ensures ep.Valid()
      ensures ep.ctx == old(ep.ctx) - {txId} - {rxId}
      ensures ep.posted == old(ep.posted) && ep.postCalls == old(ep.postCalls)
    {
      ep.DeregisterContext(txId);
      ep.DeregisterContext(rxId);
    }

    /** GetDesc: the descriptor the peer announced. */
    function GetDesc(): (d: nat)
      ensures d == peerDesc
    {
      peerDesc
    }

    /** RegisterMemoryRegion: the endpoint's. */
    method RegisterMemoryRegion(addr: nat, len: nat, t: bv32) returns (lmr: Option<OfiLocalMemoryRegion>)
      requires Valid()
      modifies ep
      ensures Valid()
      ensures ep.requestedKey == old(ep.requestedKey) + 1
      ensures var outcome := ep.mrReg(MrRequest(addr, len, OfiAccess(t), old(ep.requestedKey)));
        && (lmr.None? <==> outcome.MrFailed?)
        && (lmr.Some? ==> lmr.value == OfiLocalMemoryRegion(addr, len, outcome.desc, outcome.key))
      ensures ep.ctx == old(ep.ctx) && ep.postCalls == old(ep.postCalls) && ep.posted == old(ep.posted)
    {
      lmr := ep.RegisterMemoryRegion(addr, len, t);
    }

    /** SendV: the header (the first bytes of the first non-empty region, at
        most EAGER_THRESHOLD) is sent alone to the peer's eager buffer, and
        every outstanding transmit request is polled; unless that poll counts
        exactly one completion (`hdrCount`) the result is 0. The body
        follows in slices of max_msg_iov iovecs, and the result is the
        regions' total iff the transmit context has no outstanding request
        after the final poll. The endpoint reports no post failure, so a
        refused post shows only in the counters. `head` and `body` are the
        requests that were accepted. */
    method SendV(lmrs: seq<OfiLocalMemoryRegion>)
      returns (n: nat, ghost head: seq<OfiOp>, ghost body: seq<OfiOp>, ghost hdrCount: nat, ghost hdrRead: nat)
      requires Valid() && ep.ctx[txId].wr == 0
      modifies ep
      ensures Valid()
      ensures n == (if (Split(Entries(lmrs)).head.None? || hdrCount == 1) && ep.ctx[txId].wr == 0
                    then SgeLen(Entries(lmrs)) else 0)
      ensures ep.posted == old(ep.posted) + head + body
      ensures Split(Entries(lmrs)).head.None? ==> head == []
      ensures Split(Entries(lmrs)).head.Some? ==>
                head == (if ep.posts(old(ep.postCalls)).ok
                         then [OfiOp(OpSend, txId, peerAddr, TAG_MSG, HeadSges(Split(Entries(lmrs))), [])] else [])
      ensures Split(Entries(lmrs)).head.Some? && (ep.autoProgress || ep.posts(old(ep.postCalls)).eagains == 0) ==>
                HeaderPolled(old(ep.ctx), old(ep.txCq), txId, head != [], hdrRead, hdrCount)
      ensures Split(Entries(lmrs)).head.Some? && hdrCount != 1 ==> body == [] && ep.postCalls == old(ep.postCalls) + 1
      ensures Split(Entries(lmrs)).head.None? || hdrCount == 1 ==>
                && ep.postCalls == old(ep.postCalls) + (if Split(Entries(lmrs)).head.Some? then 1 else 0) + |body|
                                   + (if IovOf(body) == Split(Entries(lmrs)).body then 0 else 1)
                && (IovOf(body) != Split(Entries(lmrs)).body ==> !ep.posts(ep.postCalls - 1).ok)
      ensures Chunked(body, OpSend, txId, peerAddr, ep.maxMsgIov)
      ensures IovOf(body) <= Split(Entries(lmrs)).body
      ensures head != [] ==> Addrs(IovOf(head + body)) <= Addrs(Entries(lmrs))
      ensures head != [] && IovOf(body) == Split(Entries(lmrs)).body ==> Addrs(IovOf(head + body)) == Addrs(Entries(lmrs))
    {
      var acked, sentLen, iov;
      acked, sentLen, iov, head, hdrCount, hdrRead := SendHeader(lmrs);
      body := [];
      if !acked {
        if head != [] {
          SentStream(lmrs, head, body, txId, peerAddr);
        }
        return 0, head, body, hdrCount, hdrRead;
      }
      var drained;
      drained, body := PostBody(iov);
      n := if drained then sentLen else 0;
      if head != [] {
        SentStream(lmrs, head, body, txId, peerAddr);
      }
    }

    /** SendV's loop over the regions: the header goes out with the first
        non-empty region, and the loop stops early unless its poll counted
        exactly one completion. When it runs to the end (`acked`), the
        total and the iovecs gathered are those of the regions' split. */
    method SendHeader(lmrs: seq<OfiLocalMemoryRegion>)
      returns (acked: bool, sentLen: nat, iov: seq<Sge>, ghost head: seq<OfiOp>, ghost hdrCount: nat, ghost hdrRead: nat)
      requires Valid()
      modifies ep
      ensures Valid()
      ensures acked <==> Split(Entries(lmrs)).head.None? || hdrCount == 1
      ensures acked ==> sentLen == SgeLen(Entries(lmrs)) && iov == Split(Entries(lmrs)).body
      ensures ep.posted == old(ep.posted) + head
      ensures Split(Entries(lmrs)).head.None? ==>
                head == [] && ep.postCalls == old(ep.postCalls) && ep.ctx == old(ep.ctx) && ep.txCq == old(ep.txCq)
      ensures Split(Entries(lmrs)).head.Some? ==>
                && ep.postCalls == old(ep.postCalls) + 1
                && head == (if ep.posts(old(ep.postCalls)).ok
                            then [OfiOp(OpSend, txId, peerAddr, TAG_MSG, HeadSges(Split(Entries(lmrs))), [])] else [])
                && (ep.autoProgress || ep.posts(old(ep.postCalls)).eagains == 0 ==>
                      HeaderPolled(old(ep.ctx), old(ep.txCq), txId, head != [], hdrRead, hdrCount))
    {
      head, hdrCount, hdrRead := [], 1, 0;
      ghost var rs := Entries(lmrs);
      sentLen, iov := 0, [];
      ghost var hd: Option<Sge> := None;
      var i := 0;
      while i < |lmrs|
        invariant Valid() && i <= |lmrs|
        invariant ScanUpTo(rs, i) == Scan(sentLen, hd, iov)
        invariant hd.None? <==> sentLen == 0
        invariant ep.posted == old(ep.posted) + head
        invariant hd.None? ==> head == [] && ep.postCalls == old(ep.postCalls) && ep.ctx == old(ep.ctx) && ep.txCq == old(ep.txCq)
        invariant hd.Some? ==>
                    && hdrCount == 1 && ep.postCalls == old(ep.postCalls) + 1
                    && head == (if ep.posts(old(ep.postCalls)).ok then [OfiOp(OpSend, txId, peerAddr, TAG_MSG, [hd.value], [])] else [])
                    && (ep.autoProgress || ep.posts(old(ep.postCalls)).eagains == 0 ==>
                          HeaderPolled(old(ep.ctx), old(ep.txCq), txId, head != [], hdrRead, hdrCount))
      {
        assert ScanUpTo(rs, i + 1) == ScanStep(ScanUpTo(rs, i), rs[i]);
        var first := sentLen == 0;
        var count; ghost var h, r;
        sentLen, iov, hd, count, h, r := ScanRegion(lmrs[i], sentLen, iov, hd);
        if first && sentLen != 0 {
          head, hdrCount, hdrRead := h, count, r;
          if count != 1 {
            ScanIsSplit(rs, i + 1);
            HeadStable(rs, i + 1);
            return false, sentLen, iov, head, hdrCount, hdrRead;
          }
        }
        i := i + 1;
      }
      ScanAll(rs);
      acked := true;
    }

    /** One region of SendV's loop: an empty region changes nothing; the
        first non-empty one is sent as the header (see SendFirst), its part
        past EAGER_THRESHOLD starting the iovecs; a later one joins the
        iovecs. The endpoint is touched only for the header. */
    method ScanRegion(lmr: OfiLocalMemoryRegion, sentLen: nat, iov: seq<Sge>, ghost hd: Option<Sge>)
      returns (sentLen': nat, iov': seq<Sge>, ghost hd': Option<Sge>, count: nat, ghost head: seq<OfiOp>, ghost read: nat)
      requires Valid() && (hd.None? <==> sentLen == 0)
      modifies ep
      ensures Valid()
      ensures Scan(sentLen', hd', iov') == ScanStep(Scan(sentLen, hd, iov), Entry(lmr))
      ensures hd'.None? <==> sentLen' == 0
      ensures hd.Some? || hd'.None? ==>
                && ep.postCalls == old(ep.postCalls) && ep.ctx == old(ep.ctx) && ep.txCq == old(ep.txCq)
                && ep.posted == old(ep.posted)
      ensures hd.None? && hd'.Some? ==>
                && ep.posted == old(ep.posted) + head && ep.postCalls == old(ep.postCalls) + 1
                && head == (if ep.posts(old(ep.postCalls)).ok then [OfiOp(OpSend, txId, peerAddr, TAG_MSG, [hd'.value], [])] else [])
                && (ep.autoProgress || ep.posts(old(ep.postCalls)).eagains == 0 ==>
                      HeaderPolled(old(ep.ctx), old(ep.txCq), txId, head != [], read, count))
    {
      sentLen', iov', hd', count, head, read := sentLen, iov, hd, 1, [], 0;
      var len := lmr.GetLength();
      if len > 0 {
        var addr := lmr.GetAddr();
        var lkey := lmr.GetLKey();
        if sentLen == 0 {
          var sending;
          count, sending, head, read := SendFirst(addr, len, lkey);
          hd' := Some(Sge(addr, sending, lkey));
          sentLen' := len;
          iov' := if len > EAGER_THRESHOLD then [Sge(addr + EAGER_THRESHOLD, len - EAGER_THRESHOLD, lkey)] else [];
        } else {
          iov' := iov + [Sge(addr, len, lkey)];
          sentLen' := sentLen + len;
        }
      }
    }

    /** SendV's first non-empty region: its first min(len, EAGER_THRESHOLD)
        bytes are sent as the header, and `count` is what the poll after it
        counted. */
    method SendFirst(addr: nat, len: nat, lkey: nat) returns (count: nat, sending: nat, ghost head: seq<OfiOp>, ghost read: nat)
      requires Valid()
      modifies ep
      ensures Valid()
      ensures sending == CopyLen(len)
      ensures ep.posted == old(ep.posted) + head && ep.postCalls == old(ep.postCalls) + 1
      ensures head == (if ep.posts(old(ep.postCalls)).ok then [OfiOp(OpSend, txId, peerAddr, TAG_MSG, [Sge(addr, sending, lkey)], [])] else [])
      ensures ep.autoProgress || ep.posts(old(ep.postCalls)).eagains == 0 ==>
                HeaderPolled(old(ep.ctx), old(ep.txCq), txId, head != [], read, count)
    {
      sending := if len > EAGER_THRESHOLD then EAGER_THRESHOLD else len;
      count, head, read := PostHeader(Sge(addr, sending, lkey));
    }

    /** The first part of SendV: the header alone, tagged TAG_MSG, then a poll for
        every outstanding transmit request, whose count of completions is
        returned. The header is accepted iff the post's answer is a
        success; without a retry that polls, the count is the context's
        earlier completions plus those the poll read off the transmit queue
        for it. */
    method PostHeader(h: Sge) returns (count: nat, ghost head: seq<OfiOp>, ghost read: nat)
      requires Valid()
      modifies ep
      ensures Valid()
      ensures ep.posted == old(ep.posted) + head && ep.postCalls == old(ep.postCalls) + 1
      ensures head == (if ep.posts(old(ep.postCalls)).ok then [OfiOp(OpSend, txId, peerAddr, TAG_MSG, [h], [])] else [])
      ensures ep.autoProgress || ep.posts(old(ep.postCalls)).eagains == 0 ==>
                HeaderPolled(old(ep.ctx), old(ep.txCq), txId, head != [], read, count)
    {
      var r, ok := ep.PostSend(h.addr, h.length, h.lkey, peerAddr, TAG_MSG, txId);
      head := if ok then [OfiOp(OpSend, txId, peerAddr, TAG_MSG, [h], [])] else [];
      ghost var consumed;
      count, consumed := ep.PollCQ(true, ep.ctx[txId].wr, txId);
      read := |consumed|;
    }

    /** The rest of SendV: the body in slices of max_msg_iov iovecs, then a
        poll for every outstanding transmit request; true iff none is left.
        Either every iovec was posted or the last post was refused. */
    method PostBody(iov: seq<Sge>) returns (drained: bool, ghost body: seq<OfiOp>)
      requires Valid()
      modifies ep
      ensures Valid()
      ensures drained <==> ep.ctx[txId].wr == 0
      ensures ep.posted == old(ep.posted) + body
      ensures Chunked(body, OpSend, txId, peerAddr, ep.maxMsgIov) && IovOf(body) <= iov
      ensures ep.postCalls == old(ep.postCalls) + |body| + (if IovOf(body) == iov then 0 else 1)
      ensures IovOf(body) != iov ==> !ep.posts(ep.postCalls - 1).ok
    {
      var r; ghost var complete;
      r, body, complete := ep.PostSendV(iov, peerAddr, txId);
      var polled, consumed := ep.PollCQ(true, ep.ctx[txId].wr, txId);
      drained := ep.ctx[txId].wr == 0;
    }

    /** RecvV: the same partition as SendV. The body is posted in slices of
        max_msg_iov iovecs before the eager receive is refilled; then all but
        one of the receive context's outstanding requests are polled, and
        the result is the regions' total iff exactly one remains, in which
        case the header is copied out of the eager buffer to the start of
        the first non-empty region. `body` and `refill` are the requests
        that were accepted. */
    method RecvV(mem: array<byte>, lmrs: seq<OfiLocalMemoryRegion>) returns (n: nat, ghost body: seq<OfiOp>, ghost refill: seq<OfiOp>)
      requires Valid() && ep.ctx[rxId].wr == 1
      requires mem != recvBuf.buf
      requires forall i :: 0 <= i < |lmrs| ==> lmrs[i].GetAddr() + lmrs[i].GetLength() <= mem.Length
      modifies ep, mem
      ensures Valid()
      ensures n == (if ep.ctx[rxId].wr == 1 then SgeLen(Entries(lmrs)) else 0)
      ensures ep.posted == old(ep.posted) + body + refill
      ensures Chunked(body, OpRecv, rxId, peerAddr, ep.maxMsgIov)
      ensures IovOf(body) <= Split(Entries(lmrs)).body
      ensures ep.postCalls == old(ep.postCalls) + |body| + (if IovOf(body) == Split(Entries(lmrs)).body then 0 else 1) + 1
      ensures IovOf(body) != Split(Entries(lmrs)).body ==> !ep.posts(ep.postCalls - 2).ok
      ensures refill == (if ep.posts(ep.postCalls - 1).ok
                         then [OfiOp(OpRecv, rxId, peerAddr, TAG_MSG, [Sge(recvBuf.addr, EAGER_THRESHOLD, recvBuf.lkey)], [])] else [])
      ensures ep.ctx[rxId].wr != 1 || Split(Entries(lmrs)).head.None? ==> mem[..] == old(mem[..])
      ensures ep.ctx[rxId].wr == 1 && Split(Entries(lmrs)).head.Some? ==>
                var h := Split(Entries(lmrs)).head.value;
                && h.addr + h.length <= mem.Length
                && mem[h.addr..h.addr + h.length] == recvBuf.buf[..h.length]
                && mem[..h.addr] == old(mem[..h.addr])
                && mem[h.addr + h.length..] == old(mem[h.addr + h.length..])
    {
      var recvdLen, headAddr, headLen, iov, headKey := GatherRecv(lmrs, mem.Length);
      body, refill := PostRecvBody(iov);
      n := DeliverHeader(mem, recvdLen, headAddr, headLen);
    }

    /** The completing half of RecvV: all but one of the receive context's
        outstanding requests are polled; the result is recvdLen iff exactly
        one remains, and only then is the header copied out of the eager
        buffer to headAddr. */
    method DeliverHeader(mem: array<byte>, recvdLen: nat, headAddr: nat, headLen: nat) returns (n: nat)
      requires Valid() && mem != recvBuf.buf
      requires headLen <= EAGER_THRESHOLD && headAddr + headLen <= mem.Length
      modifies ep, mem
      ensures Valid() && ep.posted == old(ep.posted) && ep.postCalls == old(ep.postCalls)
      ensures n == (if ep.ctx[rxId].wr == 1 then recvdLen else 0)
      ensures ep.ctx[rxId].wr != 1 || headLen == 0 ==> mem[..] == old(mem[..])
      ensures ep.ctx[rxId].wr == 1 ==>
                && mem[headAddr..headAddr + headLen] == recvBuf.buf[..headLen]
                && mem[..headAddr] == old(mem[..headAddr])
                && mem[headAddr + headLen..] == old(mem[headAddr + headLen..])
    {
      var one := PollAllButOne();
      if !one {
        return 0;
      }
      var copied := recvBuf.Read(mem, headAddr, headLen);
      n := recvdLen;
      if headLen == 0 {
        assert mem[..] == mem[..headAddr] + mem[headAddr..];
      }
    }

    /** The posting half of RecvV: the body's slices, then the refill of
        the eager receive. Either every iovec was posted or the last body
        post was refused; the refill is accepted iff its post's answer is a
        success. */
    method PostRecvBody(iov: seq<Sge>) returns (ghost body: seq<OfiOp>, ghost refill: seq<OfiOp>)
      requires Valid()
      modifies ep
      ensures Valid()
      ensures ep.posted == old(ep.posted) + body + refill
      ensures Chunked(body, OpRecv, rxId, peerAddr, ep.maxMsgIov)
      ensures IovOf(body) <= iov
      ensures ep.postCalls == old(ep.postCalls) + |body| + (if IovOf(body) == iov then 0 else 1) + 1
      ensures IovOf(body) != iov ==> !ep.posts(ep.postCalls - 2).ok
      ensures refill == (if ep.posts(ep.postCalls - 1).ok
                         then [OfiOp(OpRecv, rxId, peerAddr, TAG_MSG, [Sge(recvBuf.addr, EAGER_THRESHOLD, recvBuf.lkey)], [])] else [])
    {
      var r, ops, complete := ep.PostRecvV(iov, peerAddr, rxId);
      body := ops;
      ghost var mid := ep.posted;
      var r1, ok := ep.PostRecv(recvBuf.addr, EAGER_THRESHOLD, recvBuf.lkey, peerAddr, TAG_MSG, rxId);
      refill := ep.posted[|mid|..];
    }

    /** Polls all but one of the receive context's outstanding requests and
        says whether exactly one remains. */
    method PollAllButOne() returns (one: bool)
      requires Valid()
      modifies ep
      ensures Valid() && ep.posted == old(ep.posted) && ep.postCalls == old(ep.postCalls)
      ensures one <==> ep.ctx[rxId].wr == 1
    {
      var polled, consumed := ep.PollCQ(false, Wrap64(ep.ctx[rxId].wr - 1), rxId);
      one := ep.ctx[rxId].wr == 1;
    }

    /** Send(buf, len): registers the buffer for local reading and sends it
        as a one-region SendV; a registration failure would leave a null
        region behind, so the registration must succeed. */
    method Send(addr: nat, len: nat)
      returns (n: nat, ghost head: seq<OfiOp>, ghost body: seq<OfiOp>, ghost hdrCount: nat, ghost hdrRead: nat)
      requires Valid() && ep.ctx[txId].wr == 0
      requires ep.mrReg(MrRequest(addr, len, OfiAccess(MR_LOCAL_READ), ep.requestedKey)).MrRegistered?
      modifies ep
      ensures Valid()
      ensures n == (if (len == 0 || hdrCount == 1) && ep.ctx[txId].wr == 0 then len else 0)
      ensures ep.posted == old(ep.posted) + head + body
      ensures len == 0 ==> head == [] && body == []
      ensures len > 0 && (ep.autoProgress || ep.posts(old(ep.postCalls)).eagains == 0) ==>
                HeaderPolled(old(ep.ctx), old(ep.txCq), txId, head != [], hdrRead, hdrCount)
      ensures len > 0 ==> (head != [] <==> ep.posts(old(ep.postCalls)).ok)
      ensures head != [] ==> Addrs(IovOf(head + body)) <= Span(Sge(addr, len, NULL))
      ensures len > 0 && hdrCount == 1 && ep.posts(old(ep.postCalls)).ok && ep.postCalls == old(ep.postCalls) + 1 + |body| ==>
                Addrs(IovOf(head + body)) == Span(Sge(addr, len, NULL))
    {
      var lmr := ep.RegisterMemoryRegion(addr, len, MR_LOCAL_READ);
      n, head, body, hdrCount, hdrRead := SendRegion(lmr.value);
      assert Entries([lmr.value]) == [Entry(lmr.value)];
      SingletonAddrs(Entry(lmr.value));
    }

    /** Send(lmr): SendV of that one region. The result is its length iff
        the header poll counted one completion (when there is a header) and
        nothing is outstanding afterwards; the requests accepted carry a
        prefix of the region's bytes, all of them when every post was
        accepted. */
    method SendRegion(lmr: OfiLocalMemoryRegion)
      returns (n: nat, ghost head: seq<OfiOp>, ghost body: seq<OfiOp>, ghost hdrCount: nat, ghost hdrRead: nat)
      requires Valid() && ep.ctx[txId].wr == 0
      modifies ep
      ensures Valid()
      ensures n == (if (lmr.GetLength() == 0 || hdrCount == 1) && ep.ctx[txId].wr == 0 then lmr.GetLength() else 0)
      ensures ep.posted == old(ep.posted) + head + body
      ensures lmr.GetLength() == 0 ==> head == [] && body == []
      ensures lmr.GetLength() > 0 && (ep.autoProgress || ep.posts(old(ep.postCalls)).eagains == 0) ==>
                HeaderPolled(old(ep.ctx), old(ep.txCq), txId, head != [], hdrRead, hdrCount)
      ensures lmr.GetLength() > 0 ==> (head != [] <==> ep.posts(old(ep.postCalls)).ok)
      ensures head != [] ==> Addrs(IovOf(head + body)) <= Addrs(Entries([lmr]))
      ensures lmr.GetLength() > 0 && hdrCount == 1 && ep.posts(old(ep.postCalls)).ok && ep.postCalls == old(ep.postCalls) + 1 + |body| ==>
                Addrs(IovOf(head + body)) == Addrs(Entries([lmr]))
    {
      OneEntry(lmr);
      n, head, body, hdrCount, hdrRead := SendV([lmr]);
    }

    /** Recv(buf, len): registers the buffer for local writing and receives
        into it as a one-region RecvV; the registration must succeed. */
    method Recv(mem: array<byte>, addr: nat, len: nat) returns (n: nat, ghost body: seq<OfiOp>, ghost refill: seq<OfiOp>)
      requires Valid() && ep.ctx[rxId].wr == 1
      requires mem != recvBuf.buf && addr + len <= mem.Length
      requires ep.mrReg(MrRequest(addr, len, OfiAccess(MR_LOCAL_WRITE), ep.requestedKey)).MrRegistered?
      modifies ep, mem
      ensures Valid()
      ensures n == (if ep.ctx[rxId].wr == 1 then len else 0)
      ensures ep.posted == old(ep.posted) + body + refill
      ensures ep.postCalls == old(ep.postCalls) + |body| + (if IovOf(body) == BodyOf(addr, len, ep.mrReg(MrRequest(addr, len, OfiAccess(MR_LOCAL_WRITE), old(ep.requestedKey))).desc) then 0 else 1) + 1
      ensures IovOf(body) <= BodyOf(addr, len, ep.mrReg(MrRequest(addr, len, OfiAccess(MR_LOCAL_WRITE), old(ep.requestedKey))).desc)
      ensures refill == (if ep.posts(ep.postCalls - 1).ok
                         then [OfiOp(OpRecv, rxId, peerAddr, TAG_MSG, [Sge(recvBuf.addr, EAGER_THRESHOLD, recvBuf.lkey)], [])] else [])
      ensures ep.ctx[rxId].wr != 1 || len == 0 ==> mem[..] == old(mem[..])
      ensures ep.ctx[rxId].wr == 1 ==>
                && mem[addr..addr + CopyLen(len)] == recvBuf.buf[..CopyLen(len)]
                && mem[..addr] == old(mem[..addr])
                && mem[addr + CopyLen(len)..] == old(mem[addr + CopyLen(len)..])
    {
      var lmr := ep.RegisterMemoryRegion(addr, len, MR_LOCAL_WRITE);
      n, body, refill := RecvRegion(mem, lmr.value);
    }

    /** Recv(lmr): RecvV of that one region; its length iff exactly one
        receive remains, and then its first min(length, EAGER_THRESHOLD)
        bytes come from the eager buffer and the rest of memory is as it
        was. */
    method RecvRegion(mem: array<byte>, lmr: OfiLocalMemoryRegion) returns (n: nat, ghost body: seq<OfiOp>, ghost refill: seq<OfiOp>)
      requires Valid() && ep.ctx[rxId].wr == 1
      requires mem != recvBuf.buf && lmr.GetAddr() + lmr.GetLength() <= mem.Length
      modifies ep, mem
      ensures Valid()
      ensures n == (if ep.ctx[rxId].wr == 1 then lmr.GetLength() else 0)
      ensures ep.posted == old(ep.posted) + body + refill
      ensures ep.postCalls == old(ep.postCalls) + |body| + (if IovOf(body) == BodyOf(lmr.GetAddr(), lmr.GetLength(), lmr.GetLKey()) then 0 else 1) + 1
      ensures IovOf(body) <= BodyOf(lmr.GetAddr(), lmr.GetLength(), lmr.GetLKey())
      ensures refill == (if ep.posts(ep.postCalls - 1).ok
                         then [OfiOp(OpRecv, rxId, peerAddr, TAG_MSG, [Sge(recvBuf.addr, EAGER_THRESHOLD, recvBuf.lkey)], [])] else [])
      ensures ep.ctx[rxId].wr != 1 || lmr.GetLength() == 0 ==> mem[..] == old(mem[..])
      ensures ep.ctx[rxId].wr == 1 ==>
                var a, c := lmr.GetAddr(), CopyLen(lmr.GetLength());
                && mem[a..a + c] == recvBuf.buf[..c]
                && mem[..a] == old(mem[..a])
                && mem[a + c..] == old(mem[a + c..])
    {
      OneEntry(lmr);
      n, body, refill := RecvV(mem, [lmr]);
    }

    /** WriteV: one local and one remote iovec per non-empty region (the
        remote one at offset 0 with the peer region's length and key),
        posted with fi_writemsg in slices of max_rma_iov; the result is the
        total length iff the transmit context has no outstanding request
        after polling. Either every iovec was posted or the last post was
        refused. */
    method WriteV(lmrs: seq<OfiLocalMemoryRegion>, rmrs: seq<RemoteMemoryRegion>) returns (n: nat, ghost ops: seq<OfiOp>)
      requires Valid() && ep.ctx[txId].wr == 0
      requires |rmrs| == |lmrs|
      requires forall i :: 0 <= i < |lmrs| && lmrs[i].GetLength() > 0 ==> lmrs[i].GetLength() == rmrs[i].length
      modifies ep
      ensures Valid()
      ensures n == (if ep.ctx[txId].wr == 0 then SgeLen(Entries(lmrs)) else 0)
      ensures ep.posted == old(ep.posted) + ops
      ensures Chunked(ops, OpWrite, txId, peerAddr, ep.maxRmaIov)
      ensures IovOf(ops) <= RmaLocal(lmrs) && RmaOf(ops) == RmaRemote(lmrs, rmrs)[..|IovOf(ops)|]
      ensures ep.postCalls == old(ep.postCalls) + |ops| + (if IovOf(ops) == RmaLocal(lmrs) then 0 else 1)
      ensures IovOf(ops) != RmaLocal(lmrs) ==> !ep.posts(ep.postCalls - 1).ok
      ensures IovOf(ops) == RmaLocal(lmrs) ==> Addrs(IovOf(ops)) == Addrs(Entries(lmrs))
    {
      var iov, rma, total := GatherRma(lmrs, rmrs);
      RmaPaired(lmrs, rmrs);
      var r; ghost var complete;
      r, ops, complete := ep.PostWrite(iov, rma, peerAddr, txId);
      var polled, consumed := ep.PollCQ(true, ep.ctx[txId].wr, txId);
      n := if ep.ctx[txId].wr == 0 then total else 0;
      RmaLocalAddrs(lmrs);
    }

    /** ReadV: as WriteV, with fi_readmsg. */
    method ReadV(lmrs: seq<OfiLocalMemoryRegion>, rmrs: seq<RemoteMemoryRegion>) returns (n: nat, ghost ops: seq<OfiOp>)
      requires Valid() && ep.ctx[txId].wr == 0
      requires |rmrs| == |lmrs|
      requires forall i :: 0 <= i < |lmrs| && lmrs[i].GetLength() > 0 ==> lmrs[i].GetLength() == rmrs[i].length
      modifies ep
      ensures Valid()
      ensures n == (if ep.ctx[txId].wr == 0 then SgeLen(Entries(lmrs)) else 0)
      ensures ep.posted == old(ep.posted) + ops
      ensures Chunked(ops, OpRead, txId, peerAddr, ep.maxRmaIov)
      ensures IovOf(ops) <= RmaLocal(lmrs) && RmaOf(ops) == RmaRemote(lmrs, rmrs)[..|IovOf(ops)|]
      ensures ep.postCalls == old(ep.postCalls) + |ops| + (if IovOf(ops) == RmaLocal(lmrs) then 0 else 1)
      ensures IovOf(ops) != RmaLocal(lmrs) ==> !ep.posts(ep.postCalls - 1).ok
      ensures IovOf(ops) == RmaLocal(lmrs) ==> Addrs(IovOf(ops)) == Addrs(Entries(lmrs))
    {
      var iov, rma, total := GatherRma(lmrs, rmrs);
      RmaPaired(lmrs, rmrs);
      var r; ghost var complete;
      r, ops, complete := ep.PostRead(iov, rma, peerAddr, txId);
      var polled, consumed := ep.PollCQ(true, ep.ctx[txId].wr, txId);
      n := if ep.ctx[txId].wr == 0 then total else 0;
      RmaLocalAddrs(lmrs);
    }

    /** Write(buf, len, rmr): registers the buffer for remote reading and
        writes it as a one-region WriteV. */
    method Write(addr: nat, len: nat, rmr: RemoteMemoryRegion) returns (n: nat, ghost ops: seq<OfiOp>)
      requires Valid() && ep.ctx[txId].wr == 0
      requires len > 0 ==> len == rmr.length
      requires ep.mrReg(MrRequest(addr, len, OfiAccess(MR_REMOTE_READ), ep.requestedKey)).MrRegistered?
      modifies ep
      ensures Valid()
      ensures n == (if ep.ctx[txId].wr == 0 then len else 0)
      ensures ep.posted == old(ep.posted) + ops
      ensures IovOf(ops) <= (if len > 0 then [Sge(addr, len, NULL)] else [])
      ensures RmaOf(ops) == (if len > 0 then [RmaIov(0, rmr.length, rmr.rkey)] else [])[..|IovOf(ops)|]
      ensures ep.postCalls == old(ep.postCalls) + |ops| + (if IovOf(ops) == (if len > 0 then [Sge(addr, len, NULL)] else []) then 0 else 1)
      ensures IovOf(ops) != (if len > 0 then [Sge(addr, len, NULL)] else []) ==> !ep.posts(ep.postCalls - 1).ok
    {
      var lmr := ep.RegisterMemoryRegion(addr, len, MR_REMOTE_READ);
      OneRegion(lmr.value, rmr);
      n, ops := WriteV([lmr.value], [rmr]);
    }

    /** Read(buf, len, rmr): registers the buffer for local writing and
        reads into it as a one-region ReadV. */
    method Read(addr: nat, len: nat, rmr: RemoteMemoryRegion) returns (n: nat, ghost ops: seq<OfiOp>)
      requires Valid() && ep.ctx[txId].wr == 0
      requires len > 0 ==> len == rmr.length
      requires ep.mrReg(MrRequest(addr, len, OfiAccess(MR_LOCAL_WRITE), ep.requestedKey)).MrRegistered?
      modifies ep
      ensures Valid()
      ensures n == (if ep.ctx[txId].wr == 0 then len else 0)
      ensures ep.posted == old(ep.posted) + ops
      ensures IovOf(ops) <= (if len > 0 then [Sge(addr, len, NULL)] else [])
      ensures RmaOf(ops) == (if len > 0 then [RmaIov(0, rmr.length, rmr.rkey)] else [])[..|IovOf(ops)|]
      ensures ep.postCalls == old(ep.postCalls) + |ops| + (if IovOf(ops) == (if len > 0 then [Sge(addr, len, NULL)] else []) then 0 else 1)
      ensures IovOf(ops) != (if len > 0 then [Sge(addr, len, NULL)] else []) ==> !ep.posts(ep.postCalls - 1).ok
    {
      var lmr := ep.RegisterMemoryRegion(addr, len, MR_LOCAL_WRITE);
      OneRegion(lmr.value, rmr);
      n, ops := ReadV([lmr.value], [rmr]);
    }

    /** SynRemoteMemoryRegionV: the descriptors of the regions, in order, are
        laid out at bufAddr and sent with Send as one message of 24 bytes per
        region; the requests accepted carry a prefix of those bytes, all of
        them when every post was accepted and the header poll counted one
        completion. */
    method SynRemoteMemoryRegionV(mem: array<byte>, bufAddr: nat, lmrs: seq<OfiLocalMemoryRegion>)
      returns (ghost head: seq<OfiOp>, ghost body: seq<OfiOp>, ghost hdrCount: nat)
      requires Valid() && ep.ctx[txId].wr == 0
      requires forall i :: 0 <= i < |lmrs| ==> Fits(Describe(lmrs[i]))
      requires bufAddr + RMR_SIZE * |lmrs| <= mem.Length
      requires ep.mrReg(MrRequest(bufAddr, RMR_SIZE * |lmrs|, OfiAccess(MR_LOCAL_READ), ep.requestedKey)).MrRegistered?
      modifies ep, mem
      ensures Valid()
      ensures mem[bufAddr..bufAddr + RMR_SIZE * |lmrs|] == EncodeRmrs(Descriptors(lmrs))
      ensures mem[..bufAddr] == old(mem[..bufAddr])
      ensures mem[bufAddr + RMR_SIZE * |lmrs|..] == old(mem[bufAddr + RMR_SIZE * |lmrs|..])
      ensures ep.posted == old(ep.posted) + head + body
      ensures head != [] ==> Addrs(IovOf(head + body)) <= Span(Sge(bufAddr, RMR_SIZE * |lmrs|, NULL))
      ensures |lmrs| > 0 && hdrCount == 1 && ep.posts(old(ep.postCalls)).ok && ep.postCalls == old(ep.postCalls) + 1 + |body| ==>
                Addrs(IovOf(head + body)) == Span(Sge(bufAddr, RMR_SIZE * |lmrs|, NULL))
    {
      var data := EncodeRmrs(Descriptors(lmrs));
      forall j | 0 <= j < |data| {
        mem[bufAddr + j] := data[j];
      }
      assert mem[bufAddr..bufAddr + |data|] == data;
      assert mem[..bufAddr] == old(mem[..bufAddr]);
      assert mem[bufAddr + |data|..] == old(mem[bufAddr + |data|..]);
      ghost var n, hdrRead;
      n, head, body, hdrCount, hdrRead := Send(bufAddr, |data|);
    }

    /** AckRemoteMemoryRegionV: receives 24 bytes per expected descriptor
        into the array at addr with Recv and reads them back as descriptors.
        The receive counts as successful iff exactly one receive remains;
        up to EAGER_THRESHOLD bytes, a successful receive yields the
        descriptors encoded at the start of the eager buffer. The receive's
        own result is not looked at. */
    method AckRemoteMemoryRegionV(mem: array<byte>, addr: nat, count: nat) returns (rmrs: seq<RemoteMemoryRegion>, ghost n: nat)
      requires Valid() && ep.ctx[rxId].wr == 1
      requires mem != recvBuf.buf && addr + RMR_SIZE * count <= mem.Length
      requires ep.mrReg(MrRequest(addr, RMR_SIZE * count, OfiAccess(MR_LOCAL_WRITE), ep.requestedKey)).MrRegistered?
      modifies ep, mem
      ensures Valid()
      ensures |rmrs| == count
      ensures n == (if ep.ctx[rxId].wr == 1 then RMR_SIZE * count else 0)
      ensures ep.ctx[rxId].wr == 1 && RMR_SIZE * count <= EAGER_THRESHOLD ==> rmrs == DecodeRmrs(recvBuf.buf[..RMR_SIZE * count])
    {
      ghost var body, refill;
      n, body, refill := Recv(mem, addr, RMR_SIZE * count);
      rmrs := DecodeRmrs(mem[addr..addr + RMR_SIZE * count]);
    }
  }

  /** What SendV hands over once its header was accepted, the header and
      then a prefix of the body, is a prefix of the regions' bytes; all of
      them when the whole body was accepted. */
  lemma SentStream(lmrs: seq<OfiLocalMemoryRegion>, head: seq<OfiOp>, body: seq<OfiOp>, id: nat, peer: nat)
    requires head == [OfiOp(OpSend, id, peer, TAG_MSG, HeadSges(Split(Entries(lmrs))), [])]
    requires IovOf(body) <= Split(Entries(lmrs)).body
    ensures Addrs(IovOf(head + body)) <= Addrs(Entries(lmrs))
    ensures IovOf(body) == Split(Entries(lmrs)).body ==> Addrs(IovOf(head + body)) == Addrs(Entries(lmrs))
  {
    IovOfAppend(head, body);
    assert head[..0] == [];
    PostedStream(Entries(lmrs), IovOf(body));
  }

  /** The body of a one-region split: what lies past EAGER_THRESHOLD. */
  function BodyOf(addr: nat, len: nat, key: nat): seq<Sge>
  {
    if len > EAGER_THRESHOLD then [Sge(addr + EAGER_THRESHOLD, len - EAGER_THRESHOLD, key)] else []
  }

  /** The split of a single region: a header iff it is not empty, and the
      part past EAGER_THRESHOLD as body. */
  lemma OneEntry(lmr: OfiLocalMemoryRegion)
    ensures Entries([lmr]) == [Entry(lmr)]
    ensures Split(Entries([lmr])).head.None? <==> lmr.GetLength() == 0
    ensures Split(Entries([lmr])).body == BodyOf(lmr.GetAddr(), lmr.GetLength(), lmr.GetLKey())
    ensures lmr.GetLength() > 0 ==> Split(Entries([lmr])).head == Some(Sge(lmr.GetAddr(), CopyLen(lmr.GetLength()), lmr.GetLKey()))
    ensures SgeLen(Entries([lmr])) == lmr.GetLength()
  {
    var rs := Entries([lmr]);
    assert rs == [Entry(lmr)];
    assert rs[1..] == [];
    assert Split(rs[1..]) == Partition(None, []);
    assert SgeLen(rs) == lmr.GetLength() + SgeLen(rs[1..]);
  }

  /** A one-region WriteV or ReadV gathers that region alone, if it is not
      empty. */
  lemma OneRegion(lmr: OfiLocalMemoryRegion, rmr: RemoteMemoryRegion)
    ensures RmaLocal([lmr]) == if lmr.GetLength() > 0 then [Sge(lmr.GetAddr(), lmr.GetLength(), NULL)] else []
    ensures RmaRemote([lmr], [rmr]) == if lmr.GetLength() > 0 then [RmaIov(0, rmr.length, rmr.rkey)] else []
    ensures SgeLen(Entries([lmr])) == lmr.GetLength()
  {
    assert [lmr][..0] == [] && [rmr][..0] == [];
    assert Entries([lmr])[1..] == [];
  }

  lemma {:induction false} IovOfAppend(a: seq<OfiOp>, b: seq<OfiOp>)
    ensures IovOf(a + b) == IovOf(a) + IovOf(b)
    decreases |b|
  {
    if b == [] {
      assert a + b == a;
    } else {
      assert (a + b)[..|a + b| - 1] == a + b[..|b| - 1];
      IovOfAppend(a, b[..|b| - 1]);
    }
  }
}
