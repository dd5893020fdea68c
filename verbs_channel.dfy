/** The verbs transport's channel: a reliable-connection queue pair with two
    eager buffers, counters of outstanding send and receive requests, and
    the posting engine that turns a scatter-gather list into work requests
    within the queue pair's limits. Messages up to EAGER_THRESHOLD bytes are
    copied through the eager buffers; longer ones are split into an eager
    header and a zero-copy body.

    The NIC is an oracle: `nic` says, call by call, whether ibv_post_send /
    ibv_post_recv succeed and whether each completion polled from the send
    or the receive completion queue reports success. The counters
    `sendPosts`, `recvPosts`, `sendPolls` and `recvPolls` number those calls.
    Posted work requests are recorded in the ghost logs `sendLog`/`recvLog`. */
module VerbsChannels {
  import opened Common
  import opened ScatterGather
  import opened EagerBuffers
  import opened Rendezvous
  import opened VerbsWorkRequests
  import opened Ibv
  import opened VerbsMemoryRegions
  import opened RemoteRegions

  /** The capabilities ibv_query_qp reports (struct ibv_qp_cap). */
  datatype QpCap = QpCap(maxSendWr: nat, maxRecvWr: nat, maxSendSge: nat, maxRecvSge: nat, maxInlineData: nat)

  const U32: nat := 0x1_0000_0000

  /** The entry of a region as the vector operations build it (GetAddr,
      GetLength, GetLKey). */
  function Entry(l: VerbsLocalMemoryRegion): Sge
  {
    Sge(l.GetAddr(), l.GetLength(), l.GetLKey())
  }

  function Entries(ls: seq<VerbsLocalMemoryRegion>): seq<Sge>
  {
    seq(|ls|, i requires 0 <= i < |ls| => Entry(ls[i]))
  }

  /** RemoteMemoryRegion(lmr): the descriptor of a region for its peer. */
  function Describe(l: VerbsLocalMemoryRegion): RemoteMemoryRegion
  {
    RemoteMemoryRegion(l.GetAddr(), l.GetRKey(), l.GetLength())
  }

  function Descriptors(ls: seq<VerbsLocalMemoryRegion>): seq<RemoteMemoryRegion>
  {
    seq(|ls|, i requires 0 <= i < |ls| => Describe(ls[i]))
  }

  /** An entry as ibv_sge holds it: the length is cast to 32 bits. */
  function Narrow(e: Sge): Sge
  {
    Sge(e.addr, Wrap32(e.length), e.lkey)
  }

  function NarrowAll(s: seq<Sge>): seq<Sge>
  {
    seq(|s|, i requires 0 <= i < |s| => Narrow(s[i]))
  }

  /** The partition SendV and RecvV hand to the NIC: the split of the
      regions, with the body lengths cast to 32 bits. */
  function Handed(rs: seq<Sge>): Partition
  {
    Partition(Split(rs).head, NarrowAll(Split(rs).body))
  }

  /** A scan over every region that kept the body's lengths cast to 32
      bits has computed the handed partition and the regions' length. */
  lemma ScanHanded(rs: seq<Sge>, total: nat, head: Option<Sge>, body: seq<Sge>, sges: seq<Sge>)
    requires ScanUpTo(rs, |rs|) == Scan(total, head, body) && sges == NarrowAll(body)
    ensures total == SgeLen(rs) && Partition(head, sges) == Handed(rs)
  {
    ScanAll(rs);
  }

  /** Below 4 GiB in total the cast loses nothing: the handed partition is
      the split itself, and so describes exactly the regions' bytes. */
  lemma HandedIsSplit(rs: seq<Sge>)
    requires SgeLen(rs) < U32
    ensures Handed(rs) == Split(rs)
    ensures Addrs(HeadSges(Handed(rs)) + Handed(rs).body) == Addrs(rs)
  {
    var body := Split(rs).body;
    SplitLength(rs);
    SgeLenAppend(HeadSges(Split(rs)), body);
    forall i | 0 <= i < |body|
      ensures NarrowAll(body)[i] == body[i]
    {
      EntryWithinSgeLen(body, i);
    }
    assert NarrowAll(body) == body;
    SplitCovers(rs);
  }

  /** Casting one more entry extends the cast list by its cast. */
  lemma NarrowSnoc(body: seq<Sge>, e: Sge)
    ensures NarrowAll(body + [e]) == NarrowAll(body) + [Narrow(e)]
  {
  }

  /** RecvV's scan over the regions: the received total, the address and
      length of the header (null and 0 when every region is empty) and the
      32-bit body entries, which are those of the split; the header lies
      inside the memory the regions lie in. */
  method ScanRecvRegions(lmrs: seq<VerbsLocalMemoryRegion>, ghost memLen: nat)
    returns (recvdLen: nat, headAddr: nat, headLen: nat, sges: seq<Sge>, ghost headKey: nat)
    requires forall i :: 0 <= i < |lmrs| ==> lmrs[i].GetAddr() + lmrs[i].GetLength() <= memLen
    ensures recvdLen == SgeLen(Entries(lmrs))
    ensures recvdLen == 0 <==> Split(Entries(lmrs)).head.None?
    ensures Partition(if recvdLen == 0 then None else Some(Sge(headAddr, headLen, headKey)), sges) == Handed(Entries(lmrs))
    ensures recvdLen == 0 ==> headAddr == NULL && headLen == 0
    ensures headAddr + headLen <= memLen
  {
    recvdLen, sges, headAddr, headLen, headKey := 0, [], NULL, 0, 0;
    ghost var rs := Entries(lmrs);
    ghost var body: seq<Sge> := [];
    var i := 0;
    while i < |lmrs|
      invariant i <= |lmrs|
      invariant ScanUpTo(rs, i) == Scan(recvdLen, if recvdLen == 0 then None else Some(Sge(headAddr, headLen, headKey)), body)
      invariant sges == NarrowAll(body)
      invariant recvdLen == 0 ==> body == []
      invariant recvdLen == 0 ==> headAddr == NULL && headLen == 0
      invariant headAddr + headLen <= memLen
    {
      assert ScanUpTo(rs, i + 1) == ScanStep(ScanUpTo(rs, i), rs[i]);
      recvdLen, headAddr, headLen, sges, headKey, body := ScanRegion(lmrs[i], recvdLen, headAddr, headLen, sges, headKey, body, memLen);
      i := i + 1;
    }
    ScanAll(rs);
  }

  /** One region of ScanRecvRegions: an empty region changes nothing, the
      first non-empty one gives the header (its part past EAGER_THRESHOLD
      starting the body), and any later one joins the body. */
  method ScanRegion(lmr: VerbsLocalMemoryRegion, recvdLen: nat, headAddr: nat, headLen: nat, sges: seq<Sge>,
                    ghost headKey: nat, ghost body: seq<Sge>, ghost memLen: nat)
    returns (recvdLen': nat, headAddr': nat, headLen': nat, sges': seq<Sge>, ghost headKey': nat, ghost body': seq<Sge>)
    requires recvdLen == 0 ==> body == [] && headAddr == NULL && headLen == 0
    requires sges == NarrowAll(body)
    requires headAddr + headLen <= memLen && lmr.GetAddr() + lmr.GetLength() <= memLen
    ensures Scan(recvdLen', if recvdLen' == 0 then None else Some(Sge(headAddr', headLen', headKey')), body')
            == ScanStep(Scan(recvdLen, if recvdLen == 0 then None else Some(Sge(headAddr, headLen, headKey)), body), Entry(lmr))
    ensures sges' == NarrowAll(body')
    ensures recvdLen' == 0 ==> body' == [] && headAddr' == NULL && headLen' == 0
    ensures headAddr' + headLen' <= memLen
  {
    recvdLen', headAddr', headLen', sges', headKey', body' := recvdLen, headAddr, headLen, sges, headKey, body;
    var len := lmr.GetLength();
    if len > 0 {
      var addr := lmr.GetAddr();
      var lkey := lmr.GetLKey();
      if recvdLen == 0 {
        headAddr' := addr;
        headKey' := lkey;
        if len > EAGER_THRESHOLD {
          headLen' := EAGER_THRESHOLD;
          recvdLen' := recvdLen' + EAGER_THRESHOLD;
          body' := [Sge(addr + EAGER_THRESHOLD, len - EAGER_THRESHOLD, lkey)];
          NarrowSnoc([], body'[0]);
          sges' := sges' + [Narrow(Sge(addr + EAGER_THRESHOLD, len - EAGER_THRESHOLD, lkey))];
          recvdLen' := recvdLen' + (len - EAGER_THRESHOLD);
        } else {
          headLen' := len;
          recvdLen' := recvdLen' + len;
        }
      } else {
        NarrowSnoc(body, Entry(lmr));
        body' := body + [Entry(lmr)];
        sges' := sges' + [Narrow(Sge(addr, len, lkey))];
        recvdLen' := recvdLen' + len;
      }
    }
  }

  /** The cast entries of one more region describe the bytes of the cast
      entries before it, then its own. */
  lemma NarrowAddrsSnoc(rs: seq<Sge>, i: nat)
    requires i < |rs|
    ensures Addrs(NarrowAll(rs[..i + 1])) == Addrs(NarrowAll(rs[..i])) + Addrs([Narrow(rs[i])])
  {
    assert rs[..i + 1] == rs[..i] + [rs[i]];
    NarrowSnoc(rs[..i], rs[i]);
    AddrsAppend(NarrowAll(rs[..i]), [Narrow(rs[i])]);
  }

  /** The entries of a single region, cast to 32 bits. */
  lemma OneRegion(l: VerbsLocalMemoryRegion)
    ensures Entries([l]) == [Entry(l)] && Entries([l])[..1] == [Entry(l)]
    ensures NarrowAll(Entries([l])) == [Narrow(Entry(l))]
    ensures SgeLen(Entries([l])[..1]) == l.GetLength() && SgeLen(Entries([l])[..0]) == 0
  {
    assert [Entry(l)][1..] == [];
  }

  /** Polling all but one of the outstanding requests leaves exactly one, in
      32-bit arithmetic, even when none was outstanding. */
  lemma LeavesOne(x: nat)
    requires x < U32
    ensures Wrap32(x - Wrap32(x - 1)) == 1
  {
    if x == 0 {
      assert Wrap32(x - 1) == U32 - 1;
    }
  }

  class VerbsChannel {
    const peerDesc: nat
    const maxInlineData: nat
    const maxRecvWr: nat
    const maxSendWr: nat
    const maxRecvSge: nat
    const maxSendSge: nat
    const maxMsgSz: nat
    const recvBuf: EagerBuffer
    const sendBuf: EagerBuffer
    const nic: Nic
    /** Outstanding receive and send requests (uint32_t). */
    var numRecvWr: nat
    var numSendWr: nat
    var sendPosts: nat
    var recvPosts: nat
    var sendPolls: nat
    var recvPolls: nat
    ghost var sendLog: seq<SendWr>
    ghost var recvLog: seq<RecvWr>

    /** Queue-pair limits as the hardware reports them (at least one entry
        per request and a positive message size) and two distinct eager
        buffers; the counters are 32-bit. */
    ghost predicate Valid()
      reads this
    {
      && 1 <= maxSendSge && 1 <= maxRecvSge && 1 <= maxMsgSz
      && recvBuf.Valid() && sendBuf.Valid() && recvBuf.buf != sendBuf.buf
      && numSendWr < U32 && numRecvWr < U32
      && maxSendWr < U32 && maxRecvWr < U32
    }

    /** Reads the queue pair's limits (the send-request limit is one below
        the smaller of the two request capacities, in 32-bit arithmetic, and
        both entry limits are the smaller entry capacity), creates the two
        eager buffers and posts the first eager receive. */
    constructor (cap: QpCap, maxMsgSz: nat, peerDesc: nat, nic: Nic,
                 recvAddr: nat, recvLKey: nat, sendAddr: nat, sendLKey: nat)
      requires 1 <= cap.maxSendSge && 1 <= cap.maxRecvSge && 1 <= maxMsgSz
      requires cap.maxSendWr < U32 && cap.maxRecvWr < U32
      ensures Valid()
      ensures maxRecvWr == Min(cap.maxSendWr, cap.maxRecvWr)
      ensures maxSendWr == Wrap32(maxRecvWr - 1)
      ensures maxSendSge == maxRecvSge == Min(cap.maxSendSge, cap.maxRecvSge)
      ensures maxInlineData == cap.maxInlineData && this.maxMsgSz == maxMsgSz
      ensures numSendWr == 0 && sendLog == []
      ensures recvBuf.addr == recvAddr && recvBuf.lkey == recvLKey
      ensures sendBuf.addr == sendAddr && sendBuf.lkey == sendLKey
      ensures RecvWrsOk(recvLog, maxRecvSge, maxMsgSz)
      ensures Addrs(RecvStream(recvLog)) <= Addrs([Sge(recvAddr, EAGER_THRESHOLD, recvLKey)])
      ensures 1 <= maxRecvWr ==> numRecvWr <= maxRecvWr && numRecvWr + CountOk(nic.recvCqOk, 0, recvPolls) == |recvLog|
    {
      this.peerDesc := peerDesc;
      this.nic := nic;
      maxInlineData := cap.maxInlineData;
      maxRecvWr := Min(cap.maxSendWr, cap.maxRecvWr);
      maxSendWr := Wrap32(Min(cap.maxSendWr, cap.maxRecvWr) - 1);
      maxRecvSge := Min(cap.maxSendSge, cap.maxRecvSge);
      maxSendSge := Min(cap.maxSendSge, cap.maxRecvSge);
      this.maxMsgSz := maxMsgSz;
      recvBuf := new EagerBuffer(recvAddr, recvLKey);
      sendBuf := new EagerBuffer(sendAddr, sendLKey);
      numRecvWr, numSendWr := 0, 0;
      sendPosts, recvPosts, sendPolls, recvPolls := 0, 0, 0, 0;
      sendLog, recvLog := [], [];
      new;
      var sgl := new Sge[1][Sge(recvAddr, EAGER_THRESHOLD, recvLKey)];
      var r := PostRecv(sgl);
    }

    /** Every ibv_post_send call from number `posts0` on was accepted and
        every send completion polled from number `polls0` on reported
        success. */
    ghost predicate SendsOk(posts0: nat, polls0: nat)
      reads this
    {
      && posts0 <= sendPosts && polls0 <= sendPolls
      && AllOk(nic.sendPostOk, posts0, sendPosts) && AllOk(nic.sendCqOk, polls0, sendPolls)
    }

    /** SendsOk for ibv_post_recv and the receive completion queue. */
    ghost predicate RecvsOk(posts0: nat, polls0: nat)
      reads this
    {
      && posts0 <= recvPosts && polls0 <= recvPolls
      && AllOk(nic.recvPostOk, posts0, recvPosts) && AllOk(nic.recvCqOk, polls0, recvPolls)
    }

    /** Polls the send completion queue for numCqes completions; the counter
        drops by the successful ones (in 32-bit arithmetic) and the result
        says whether all of them succeeded. Polling every outstanding
        request succeeds exactly when none is left outstanding. */
    method PollSendCQ(numCqes: nat) returns (ok: bool)
      requires Valid()
      modifies this
      ensures Valid()
      ensures sendPolls == old(sendPolls) + numCqes
      ensures numSendWr == Wrap32(old(numSendWr) - CountOk(nic.sendCqOk, old(sendPolls), numCqes))
      ensures ok <==> CountOk(nic.sendCqOk, old(sendPolls), numCqes) == numCqes
      ensures ok <==> AllOk(nic.sendCqOk, old(sendPolls), sendPolls)
      ensures numCqes == old(numSendWr) ==> (ok <==> numSendWr == 0)
      ensures numRecvWr == old(numRecvWr) && recvPolls == old(recvPolls)
      ensures sendPosts == old(sendPosts) && recvPosts == old(recvPosts)
      ensures sendLog == old(sendLog) && recvLog == old(recvLog)
    {
      var polled := PollCQ(nic.sendCqOk, sendPolls, numCqes);
      CountOkAll(nic.sendCqOk, sendPolls, numCqes);
      sendPolls := sendPolls + numCqes;
      numSendWr := Wrap32(numSendWr - polled);
      ok := polled == numCqes;
    }

    /** PollRecvCQ: as PollSendCQ, on the receive completion queue. */
    method PollRecvCQ(numCqes: nat) returns (ok: bool)
      requires Valid()
      modifies this
      ensures Valid()
      ensures recvPolls == old(recvPolls) + numCqes
      ensures numRecvWr == Wrap32(old(numRecvWr) - CountOk(nic.recvCqOk, old(recvPolls), numCqes))
      ensures ok <==> CountOk(nic.recvCqOk, old(recvPolls), numCqes) == numCqes
      ensures ok <==> AllOk(nic.recvCqOk, old(recvPolls), recvPolls)
      ensures numSendWr == old(numSendWr) && sendPolls == old(sendPolls)
      ensures sendPosts == old(sendPosts) && recvPosts == old(recvPosts)
      ensures sendLog == old(sendLog) && recvLog == old(recvLog)
    {
      var polled := PollCQ(nic.recvCqOk, recvPolls, numCqes);
      CountOkAll(nic.recvCqOk, recvPolls, numCqes);
      recvPolls := recvPolls + numCqes;
      numRecvWr := Wrap32(numRecvWr - polled);
      ok := polled == numCqes;
    }

    /** PostSend: posts sgl as a sequence of work requests, each within the
        entry and byte limits; the entry crossing the byte limit is cut in
        place and its remainder (address advanced by the cut) starts the next
        request, and for RDMA opcodes the remote address advances by the cut.
        At capacity one completion is polled first, and nothing more is
        posted if that fails. Returns the offset in sgl up to which every
        request was posted: the whole length exactly when every post and
        poll succeeded, and then the requests carry every byte of sgl. The
        source returns the offset past the failed request instead; see
        PostSendAsWritten. */
    method PostSend(opcode: Opcode, sgl: array<Sge>, raddr0: nat, rkey: nat) returns (r: nat)
      requires Valid()
      modifies this, sgl
      ensures Valid()
      ensures r <= sgl.Length
      ensures r == sgl.Length <==> SendsOk(old(sendPosts), old(sendPolls))
      ensures numRecvWr == old(numRecvWr) && recvPolls == old(recvPolls) && recvPosts == old(recvPosts)
      ensures recvLog == old(recvLog)
      ensures old(sendLog) <= sendLog
      ensures SendWrsOk(sendLog[|old(sendLog)|..], opcode, raddr0, rkey, maxSendSge, maxMsgSz, maxInlineData)
      ensures Addrs(SendStream(sendLog[|old(sendLog)|..])) <= Addrs(old(sgl[..]))
      ensures SendsOk(old(sendPosts), old(sendPolls)) ==> Addrs(SendStream(sendLog[|old(sendLog)|..])) == Addrs(old(sgl[..]))
      ensures sgl.Length == 1 ==>
                SingleCuts(SendCuts(sendLog[|old(sendLog)|..]), SendSizes(sendLog[|old(sendLog)|..]))
      ensures sendPolls >= old(sendPolls) && sendPosts >= old(sendPosts)
      ensures Accounts(nic.sendCqOk, old(sendPolls), sendPolls, old(numSendWr), numSendWr, maxSendWr, |sendLog| - |old(sendLog)|)
    {
      ghost var log0 := sendLog;
      var attempted;
      ghost var done, rest, atStart, raddr;
      r, attempted, done, rest, atStart, raddr := SendRounds(opcode, sgl, raddr0, rkey);
      assert sendLog[|log0|..] == done;
      SendProgressDone(done, old(sgl[..]), rest, raddr, opcode, raddr0, rkey,
                       maxSendSge, maxMsgSz, maxInlineData, sgl.Length == 1, atStart);
    }

    /** PostSend as the source writes it: the offset moves past a request's
        entries before the request is posted, so a request the NIC rejects,
        or whose capacity poll fails, is counted as posted. For a one-entry
        list within the message size limit the result is 1 whether or not
        the NIC accepted the request, although nothing is posted when it
        did not. */
    method PostSendAsWritten(opcode: Opcode, sgl: array<Sge>, raddr0: nat, rkey: nat) returns (r: nat)
      requires Valid()
      modifies this, sgl
      ensures Valid()
      ensures r <= sgl.Length
      ensures SendsOk(old(sendPosts), old(sendPolls)) ==> r == sgl.Length
      ensures sgl.Length == 1 && old(sgl[0]).length <= maxMsgSz ==>
                r == 1 && (sendLog == old(sendLog) <==> !SendsOk(old(sendPosts), old(sendPolls)))
    {
      var reached;
      ghost var done, rest, atStart, raddr;
      reached, r, done, rest, atStart, raddr := SendRounds(opcode, sgl, raddr0, rkey);
    }

    /** Where PostSend's loop stands at `offset` of sgl, with the remote
        address at `raddr`: the requests posted since the log held `log0`
        are `done`; they carry the bytes of the original list `orig` up to
        sgl[offset..]; every post since post number `posts0` and every poll
        since poll number `polls0` succeeded, and the completions accounting
        started there with `num0` outstanding requests. */
    ghost predicate Posting(sgl: array<Sge>, offset: nat, raddr: nat, done: seq<SendWr>, orig: seq<Sge>,
                            log0: seq<SendWr>, opcode: Opcode, raddr0: nat, rkey: nat, posts0: nat, polls0: nat, num0: nat)
      reads this, sgl
    {
      && Valid() && offset <= sgl.Length
      && sendLog == log0 + done && SendsOk(posts0, polls0)
      && SendProgress(done, orig, sgl[offset..], raddr, opcode, raddr0, rkey,
                      maxSendSge, maxMsgSz, maxInlineData, sgl.Length == 1, offset == 0)
      && Accounts(nic.sendCqOk, polls0, sendPolls, num0, numSendWr, maxSendWr, |done|)
    }

    /** PostSend's loop: the requests posted so far, `done`, keep carrying
        the bytes of the list up to `rest`. `reached` is the offset up to
        which every request was posted and `attempted` the offset past the
        request that failed, if one did. */
    method SendRounds(opcode: Opcode, sgl: array<Sge>, raddr0: nat, rkey: nat)
      returns (reached: nat, attempted: nat, ghost done: seq<SendWr>, ghost rest: seq<Sge>, ghost atStart: bool, ghost raddr: nat)
      requires Valid()
      modifies this, sgl
      ensures Valid()
      ensures reached <= attempted <= sgl.Length
      ensures reached == sgl.Length <==> SendsOk(old(sendPosts), old(sendPolls))
      ensures reached == sgl.Length ==> attempted == reached && rest == []
      ensures sgl.Length == 1 && old(sgl[0]).length <= maxMsgSz ==> attempted == 1 && |done| == reached
      ensures numRecvWr == old(numRecvWr) && recvPolls == old(recvPolls) && recvPosts == old(recvPosts)
      ensures recvLog == old(recvLog)
      ensures sendLog == old(sendLog) + done && sendPolls >= old(sendPolls) && sendPosts >= old(sendPosts)
      ensures SendProgress(done, old(sgl[..]), rest, raddr, opcode, raddr0, rkey,
                           maxSendSge, maxMsgSz, maxInlineData, sgl.Length == 1, atStart)
      ensures Accounts(nic.sendCqOk, old(sendPolls), sendPolls, old(numSendWr), numSendWr, maxSendWr, |done|)
    {
      ghost var orig := sgl[..];
      ghost var log0 := sendLog;
      ghost var small := sgl.Length == 1 && sgl[0].length <= maxMsgSz;
      done := [];
      var offset := 0;
      var raddrNow := raddr0;
      SendProgressStart(orig, opcode, raddr0, rkey, maxSendSge, maxMsgSz, maxInlineData, sgl.Length == 1);
      assert sgl[0..] == orig;
      while offset < sgl.Length
        invariant numRecvWr == old(numRecvWr) && recvPolls == old(recvPolls) && recvPosts == old(recvPosts)
        invariant recvLog == old(recvLog)
        invariant Posting(sgl, offset, raddrNow, done, orig, log0, opcode, raddr0, rkey, old(sendPosts), old(sendPolls), old(numSendWr))
        invariant small ==> |done| == offset && (offset < sgl.Length ==> offset == 0 && sgl[0] == orig[0])
        decreases sgl.Length - offset, if offset < sgl.Length then sgl[offset].length else 0
      {
        ghost var before := sgl[offset..];
        ghost var start := offset == 0;
        var k, posted, next, wr := SendRound(opcode, sgl, offset, raddrNow, rkey, raddr0, done, orig, log0,
                                             old(sendPosts), old(sendPolls), old(numSendWr));
        if !posted {
          reached, attempted := offset, offset + k;
          rest, atStart, raddr := before, start, raddrNow;
          return;
        }
        offset := offset + k;
        done := done + [wr];
        raddrNow := next;
      }
      reached, attempted := offset, offset;
      rest, atStart, raddr := sgl[offset..], offset == 0, raddrNow;
    }

    /** A round of PostSend's loop with its bookkeeping: a posted request
        joins those posted before it, which keep carrying a prefix of the
        list's bytes, and the completion accounting moves on by it; a round
        that posts nothing is one whose poll or post failed. */
    method SendRound(opcode: Opcode, sgl: array<Sge>, offset: nat, raddr: nat, rkey: nat, ghost raddr0: nat,
                     ghost done: seq<SendWr>, ghost orig: seq<Sge>, ghost log0: seq<SendWr>,
                     ghost posts0: nat, ghost polls0: nat, ghost num0: nat)
      returns (k: nat, posted: bool, next: nat, ghost wr: SendWr)
      requires offset < sgl.Length
      requires Posting(sgl, offset, raddr, done, orig, log0, opcode, raddr0, rkey, posts0, polls0, num0)
      modifies this, sgl
      ensures offset + k <= sgl.Length
      ensures sgl.Length == offset + 1 && old(sgl[offset]).length <= maxMsgSz ==> k == 1
      ensures numRecvWr == old(numRecvWr) && recvPolls == old(recvPolls) && recvPosts == old(recvPosts)
      ensures recvLog == old(recvLog)
      ensures posted ==>
                && Posting(sgl, offset + k, next, done + [wr], orig, log0, opcode, raddr0, rkey, posts0, polls0, num0)
                && (k > 0 || sgl[offset].length < old(sgl[offset].length))
      ensures !posted ==>
                && Valid() && sendLog == log0 + done && !SendsOk(posts0, polls0)
                && sendPolls >= old(sendPolls) && sendPosts >= old(sendPosts)
                && Accounts(nic.sendCqOk, polls0, sendPolls, num0, numSendWr, maxSendWr, |done|)
    {
      ghost var polls1 := sendPolls;
      ghost var num1 := numSendWr;
      ghost var rest := sgl[offset..];
      k, posted, next, wr := SendRequest(opcode, sgl, offset, raddr, rkey);
      AccountsStep(nic.sendCqOk, polls0, polls1, sendPolls, num0, num1, numSendWr, maxSendWr, |done|, if posted then 1 else 0);
      if posted {
        SendProgressSnoc(done, wr, orig, rest, sgl[offset + k..], raddr, next, opcode, raddr0, rkey,
                         maxSendSge, maxMsgSz, maxInlineData, sgl.Length == 1, offset == 0, offset + k == 0);
      }
    }

    /** One round of PostSend's loop on sgl[offset..]: fills a request with
        PackWr, polls one completion first when the send queue is at
        capacity, posts the request and, after a cut, turns the cut entry
        into its remainder and moves the remote address past the cut part.
        `k` is how far the offset advances; `posted` is false when the poll
        or the post failed, and then nothing was posted. */
    method SendRequest(opcode: Opcode, sgl: array<Sge>, offset: nat, raddr: nat, rkey: nat)
      returns (k: nat, posted: bool, next: nat, ghost wr: SendWr)
      requires Valid()
      requires offset < sgl.Length
      modifies this, sgl
      ensures Valid()
      ensures offset + k <= sgl.Length
      ensures sgl.Length == offset + 1 && old(sgl[offset]).length <= maxMsgSz ==> k == 1
      ensures numRecvWr == old(numRecvWr) && recvPolls == old(recvPolls) && recvPosts == old(recvPosts)
      ensures recvLog == old(recvLog)
      ensures sendPolls >= old(sendPolls) && sendPosts >= old(sendPosts)
      ensures posted <==> SendsOk(old(sendPosts), old(sendPolls))
      ensures sendLog == old(sendLog) + (if posted then [wr] else [])
      ensures posted ==>
                && WithinLimits(wr.sges, wr.cut, maxSendSge, maxMsgSz)
                && wr.opcode == opcode
                && wr.inline == (opcode != WrRdmaRead && SgeLen(wr.sges) <= maxInlineData)
                && wr.raddr == (if opcode == WrSend then 0 else raddr)
                && wr.rkey == (if opcode == WrSend then 0 else rkey)
                && next == raddr + (if wr.cut && wr.sges != [] then wr.sges[|wr.sges| - 1].length else 0)
                && Addrs(wr.sges) + Addrs(sgl[offset + k..]) == Addrs(old(sgl[offset..]))
                && (k > 0 || sgl[offset].length < old(sgl[offset].length))
                && (sgl.Length == 1 ==> |wr.sges| == 1 && (k == 0 <==> wr.cut))
      ensures Accounts(nic.sendCqOk, old(sendPolls), sendPolls, old(numSendWr), numSendWr, maxSendWr, if posted then 1 else 0)
    {
      var rem;
      ghost var tail;
      k, rem, wr, tail := FillWr(opcode, sgl, offset, raddr, rkey);
      next := raddr;
      ghost var mid := sgl[..];
      posted := PostSendWr(wr);
      if posted && rem != 0 {
        next := raddr + sgl[offset + k].length;
        CarryRemainder(sgl, offset + k, rem);
        assert sgl[offset + k + 1..] == mid[offset + k + 1..];
      }
    }

    /** The filling half of a PostSend round: the request PackWr fills from
        sgl[offset..], with the inline flag and the remote side the opcode
        calls for. `tail` is what is left of the list once a cut entry has
        been turned into its remainder `rem`. */
    method FillWr(opcode: Opcode, sgl: array<Sge>, offset: nat, raddr: nat, rkey: nat)
      returns (k: nat, rem: nat, ghost wr: SendWr, ghost tail: seq<Sge>)
      requires Valid()
      requires offset < sgl.Length
      modifies sgl
      ensures offset + k <= sgl.Length
      ensures WithinLimits(wr.sges, wr.cut, maxSendSge, maxMsgSz)
      ensures wr.opcode == opcode
      ensures wr.inline == (opcode != WrRdmaRead && SgeLen(wr.sges) <= maxInlineData)
      ensures wr.raddr == (if opcode == WrSend then 0 else raddr)
      ensures wr.rkey == (if opcode == WrSend then 0 else rkey)
      ensures wr.cut <==> rem != 0
      ensures k > 0 || wr.cut
      ensures wr.cut && k == 0 ==> rem < old(sgl[offset].length)
      ensures sgl.Length == 1 ==> |wr.sges| == 1 && (k == 0 <==> wr.cut)
      ensures sgl.Length == offset + 1 && old(sgl[offset]).length <= maxMsgSz ==> k == 1
      ensures Addrs(wr.sges) + Addrs(tail) == Addrs(old(sgl[offset..]))
      ensures !wr.cut ==> tail == sgl[offset + k..]
      ensures wr.cut ==>
                && offset + k < sgl.Length && wr.sges != []
                && wr.sges[|wr.sges| - 1] == sgl[offset + k]
                && tail == [Sge(sgl[offset + k].addr + sgl[offset + k].length, rem, sgl[offset + k].lkey)]
                           + sgl[offset + k + 1..]
    {
      var cut, sending;
      ghost var sges;
      k, cut, rem, sending, sges := FillRequest(sgl, offset, maxSendSge, maxMsgSz);
      var inline := (opcode == WrSend || opcode == WrRdmaWrite) && sending <= maxInlineData;
      wr := SendWr(opcode, sges, inline, if opcode == WrSend then 0 else raddr,
                   if opcode == WrSend then 0 else rkey, cut);
      if cut {
        tail := [Sge(sgl[offset + k].addr + sgl[offset + k].length, rem, sgl[offset + k].lkey)] + sgl[offset + k + 1..];
        assert sgl[offset + k + 1..] == old(sgl[offset + k + 1..]);
      } else {
        tail := sgl[offset + k..];
      }
    }

    /** The posting half of a PostSend round: at capacity one completion is
        polled first and nothing is posted if that fails; then
        ibv_post_send is called once and, if it succeeds, the request is
        outstanding. It is posted exactly when that poll and that call
        succeed. */
    method PostSendWr(ghost wr: SendWr) returns (posted: bool)
      requires Valid()
      modifies this
      ensures Valid()
      ensures numRecvWr == old(numRecvWr) && recvPolls == old(recvPolls) && recvPosts == old(recvPosts)
      ensures recvLog == old(recvLog)
      ensures sendPolls >= old(sendPolls) && sendPosts >= old(sendPosts)
      ensures posted <==> SendsOk(old(sendPosts), old(sendPolls))
      ensures sendLog == old(sendLog) + (if posted then [wr] else [])
      ensures Accounts(nic.sendCqOk, old(sendPolls), sendPolls, old(numSendWr), numSendWr, maxSendWr, if posted then 1 else 0)
    {
      posted := false;
      if numSendWr == maxSendWr {
        var polled := PollSendCQ(1);
        if !polled {
          return;
        }
      }
      if !nic.sendPostOk(sendPosts) {
        sendPosts := sendPosts + 1;
        return;
      }
      sendPosts := sendPosts + 1;
      sendLog := sendLog + [wr];
      numSendWr := Wrap32(numSendWr + 1);
      posted := true;
    }

    /** PostRecv: as PostSend, for receive requests on the receive queue;
        there is no remote address. */
    method PostRecv(sgl: array<Sge>) returns (r: nat)
      requires Valid()
      modifies this, sgl
      ensures Valid()
      ensures r <= sgl.Length
      ensures r == sgl.Length <==> RecvsOk(old(recvPosts), old(recvPolls))
      ensures numSendWr == old(numSendWr) && sendPolls == old(sendPolls) && sendPosts == old(sendPosts)
      ensures sendLog == old(sendLog)
      ensures old(recvLog) <= recvLog
      ensures RecvWrsOk(recvLog[|old(recvLog)|..], maxRecvSge, maxMsgSz)
      ensures Addrs(RecvStream(recvLog[|old(recvLog)|..])) <= Addrs(old(sgl[..]))
      ensures RecvsOk(old(recvPosts), old(recvPolls)) ==> Addrs(RecvStream(recvLog[|old(recvLog)|..])) == Addrs(old(sgl[..]))
      ensures recvPolls >= old(recvPolls) && recvPosts >= old(recvPosts)
      ensures Accounts(nic.recvCqOk, old(recvPolls), recvPolls, old(numRecvWr), numRecvWr, maxRecvWr, |recvLog| - |old(recvLog)|)
    {
      ghost var log0 := recvLog;
      var attempted;
      ghost var done, rest;
      r, attempted, done, rest := RecvRounds(sgl);
      assert recvLog[|log0|..] == done;
      RecvProgressDone(done, old(sgl[..]), rest, maxRecvSge, maxMsgSz);
    }

    /** PostRecv as the source writes it, as PostSendAsWritten: for a
        one-entry list within the message size limit the result is 1
        whether or not the receive request was posted. */
    method PostRecvAsWritten(sgl: array<Sge>) returns (r: nat)
      requires Valid()
      modifies this, sgl
      ensures Valid()
      ensures r <= sgl.Length
      ensures RecvsOk(old(recvPosts), old(recvPolls)) ==> r == sgl.Length
      ensures sgl.Length == 1 && old(sgl[0]).length <= maxMsgSz ==>
                r == 1 && (recvLog == old(recvLog) <==> !RecvsOk(old(recvPosts), old(recvPolls)))
    {
      var reached;
      ghost var done, rest;
      reached, r, done, rest := RecvRounds(sgl);
    }

    /** PostRecv's loop, as SendRounds. */
    method RecvRounds(sgl: array<Sge>) returns (reached: nat, attempted: nat, ghost done: seq<RecvWr>, ghost rest: seq<Sge>)
      requires Valid()
      modifies this, sgl
      ensures Valid()
      ensures reached <= attempted <= sgl.Length
      ensures reached == sgl.Length <==> RecvsOk(old(recvPosts), old(recvPolls))
      ensures reached == sgl.Length ==> attempted == reached && rest == []
      ensures sgl.Length == 1 && old(sgl[0]).length <= maxMsgSz ==> attempted == 1 && |done| == reached
      ensures numSendWr == old(numSendWr) && sendPolls == old(sendPolls) && sendPosts == old(sendPosts)
      ensures sendLog == old(sendLog)
      ensures recvLog == old(recvLog) + done && recvPolls >= old(recvPolls) && recvPosts >= old(recvPosts)
      ensures RecvProgress(done, old(sgl[..]), rest, maxRecvSge, maxMsgSz)
      ensures Accounts(nic.recvCqOk, old(recvPolls), recvPolls, old(numRecvWr), numRecvWr, maxRecvWr, |done|)
    {
      ghost var orig := sgl[..];
      ghost var log0 := recvLog;
      ghost var small := sgl.Length == 1 && sgl[0].length <= maxMsgSz;
      done := [];
      var offset := 0;
      assert sgl[0..] == orig;
      while offset < sgl.Length
        invariant Valid()
        invariant offset <= sgl.Length
        invariant numSendWr == old(numSendWr) && sendPolls == old(sendPolls) && sendPosts == old(sendPosts)
        invariant sendLog == old(sendLog)
        invariant recvLog == log0 + done && RecvsOk(old(recvPosts), old(recvPolls))
        invariant RecvProgress(done, orig, sgl[offset..], maxRecvSge, maxMsgSz)
        invariant Accounts(nic.recvCqOk, old(recvPolls), recvPolls, old(numRecvWr), numRecvWr, maxRecvWr, |done|)
        invariant small ==> |done| == offset && (offset < sgl.Length ==> offset == 0 && sgl[0] == orig[0])
        decreases sgl.Length - offset, if offset < sgl.Length then sgl[offset].length else 0
      {
        ghost var before := sgl[offset..];
        var k, posted, wr := RecvRound(sgl, offset, done, orig, old(recvPosts), old(recvPolls), old(numRecvWr));
        if !posted {
          reached, attempted, rest := offset, offset + k, before;
          return;
        }
        offset := offset + k;
        done := done + [wr];
      }
      reached, attempted, rest := offset, offset, sgl[offset..];
    }

    /** A round of PostRecv's loop with its bookkeeping, as SendRound. */
    method RecvRound(sgl: array<Sge>, offset: nat, ghost done: seq<RecvWr>, ghost orig: seq<Sge>,
                     ghost posts0: nat, ghost polls0: nat, ghost num0: nat)
      returns (k: nat, posted: bool, ghost wr: RecvWr)
      requires Valid()
      requires offset < sgl.Length
      requires RecvProgress(done, orig, sgl[offset..], maxRecvSge, maxMsgSz)
      requires RecvsOk(posts0, polls0)
      requires Accounts(nic.recvCqOk, polls0, recvPolls, num0, numRecvWr, maxRecvWr, |done|)
      modifies this, sgl
      ensures Valid()
      ensures offset + k <= sgl.Length
      ensures sgl.Length == offset + 1 && old(sgl[offset]).length <= maxMsgSz ==> k == 1
      ensures numSendWr == old(numSendWr) && sendPolls == old(sendPolls) && sendPosts == old(sendPosts)
      ensures sendLog == old(sendLog)
      ensures recvPolls >= old(recvPolls) && recvPosts >= old(recvPosts)
      ensures posted <==> RecvsOk(posts0, polls0)
      ensures recvLog == old(recvLog) + (if posted then [wr] else [])
      ensures Accounts(nic.recvCqOk, polls0, recvPolls, num0, numRecvWr, maxRecvWr, |done| + if posted then 1 else 0)
      ensures posted ==>
                && RecvProgress(done + [wr], orig, sgl[offset + k..], maxRecvSge, maxMsgSz)
                && (k > 0 || sgl[offset].length < old(sgl[offset].length))
    {
      ghost var polls1 := recvPolls;
      ghost var num1 := numRecvWr;
      ghost var rest := sgl[offset..];
      k, posted, wr := RecvRequest(sgl, offset);
      AccountsStep(nic.recvCqOk, polls0, polls1, recvPolls, num0, num1, numRecvWr, maxRecvWr, |done|, if posted then 1 else 0);
      if posted {
        RecvProgressSnoc(done, wr, orig, rest, sgl[offset + k..], maxRecvSge, maxMsgSz);
      }
    }

    /** One round of PostRecv's loop on sgl[offset..], as SendRequest. */
    method RecvRequest(sgl: array<Sge>, offset: nat) returns (k: nat, posted: bool, ghost wr: RecvWr)
      requires Valid()
      requires offset < sgl.Length
      modifies this, sgl
      ensures Valid()
      ensures offset + k <= sgl.Length
      ensures sgl.Length == offset + 1 && old(sgl[offset]).length <= maxMsgSz ==> k == 1
      ensures numSendWr == old(numSendWr) && sendPolls == old(sendPolls) && sendPosts == old(sendPosts)
      ensures sendLog == old(sendLog)
      ensures recvPolls >= old(recvPolls) && recvPosts >= old(recvPosts)
      ensures posted <==> RecvsOk(old(recvPosts), old(recvPolls))
      ensures recvLog == old(recvLog) + (if posted then [wr] else [])
      ensures posted ==>
                && WithinLimits(wr.sges, wr.cut, maxRecvSge, maxMsgSz)
                && Addrs(wr.sges) + Addrs(sgl[offset + k..]) == Addrs(old(sgl[offset..]))
                && (k > 0 || sgl[offset].length < old(sgl[offset].length))
                && (sgl.Length == offset + 1 ==> |wr.sges| == 1 && (k == 0 <==> wr.cut))
      ensures Accounts(nic.recvCqOk, old(recvPolls), recvPolls, old(numRecvWr), numRecvWr, maxRecvWr, if posted then 1 else 0)
    {
      var cut, rem, recving;
      ghost var sges;
      k, cut, rem, recving, sges := FillRequest(sgl, offset, maxRecvSge, maxMsgSz);
      wr := RecvWr(sges, cut);
      posted := PostRecvWr(wr);
      if posted && rem != 0 {
        CarryRemainder(sgl, offset + k, rem);
      }
    }

    /** The posting half of a PostRecv round, as PostSendWr. */
    method PostRecvWr(ghost wr: RecvWr) returns (posted: bool)
      requires Valid()
      modifies this
      ensures Valid()
      ensures numSendWr == old(numSendWr) && sendPolls == old(sendPolls) && sendPosts == old(sendPosts)
      ensures sendLog == old(sendLog)
      ensures recvPolls >= old(recvPolls) && recvPosts >= old(recvPosts)
      ensures posted <==> RecvsOk(old(recvPosts), old(recvPolls))
      ensures recvLog == old(recvLog) + (if posted then [wr] else [])
      ensures Accounts(nic.recvCqOk, old(recvPolls), recvPolls, old(numRecvWr), numRecvWr, maxRecvWr, if posted then 1 else 0)
    {
      posted := false;
      if numRecvWr == maxRecvWr {
        var polled := PollRecvCQ(1);
        if !polled {
          return;
        }
      }
      if !nic.recvPostOk(recvPosts) {
        recvPosts := recvPosts + 1;
        return;
      }
      recvPosts := recvPosts + 1;
      recvLog := recvLog + [wr];
      numRecvWr := Wrap32(numRecvWr + 1);
      posted := true;
    }

  
    /** Send(buf, len): up to EAGER_THRESHOLD bytes are copied into the send
        buffer and posted as one send, and len is returned iff every post
        was accepted and every send completion polled succeeded, which
        leaves no send outstanding. A longer message is registered for local
        reading (the driver's answer is `reg`) and sent by SendV as one
        region. */
    method Send(mem: array<byte>, addr: nat, len: nat, reg: RegOutcome) returns (n: nat, ghost p: Partition)
      requires Valid()
      requires mem != sendBuf.buf
      requires addr + len <= mem.Length
      requires len > EAGER_THRESHOLD ==> reg.Registered? && numSendWr == 0
      modifies this, sendBuf.buf
      ensures Valid()
      ensures old(sendLog) <= sendLog
      ensures n == (if SendsOk(old(sendPosts), old(sendPolls)) then len else 0)
      ensures SendsOk(old(sendPosts), old(sendPolls)) ==> numSendWr == 0
      ensures numRecvWr == old(numRecvWr) && recvLog == old(recvLog)
      ensures len <= EAGER_THRESHOLD ==>
                && sendBuf.buf[..len] == old(mem[addr..addr + len])
                && SendWrsOk(sendLog[|old(sendLog)|..], WrSend, 0, 0, maxSendSge, maxMsgSz, maxInlineData)
                && Addrs(SendStream(sendLog[|old(sendLog)|..])) <= Addrs([Sge(sendBuf.addr, len, sendBuf.lkey)])
                && (SendsOk(old(sendPosts), old(sendPolls)) ==>
                      Addrs(SendStream(sendLog[|old(sendLog)|..])) == Addrs([Sge(sendBuf.addr, len, sendBuf.lkey)]))
      ensures len > EAGER_THRESHOLD && SendsOk(old(sendPosts), old(sendPolls)) ==>
                && p == Handed([Sge(addr, len, reg.lkey)])
                && Addrs(SendStream(sendLog[|old(sendLog)|..])) == Addrs(HeadSges(p) + p.body)
    {
      p := Partition(None, []);
      if len <= EAGER_THRESHOLD {
        var w := sendBuf.Write(mem, addr, len);
        var posted := PostOne(WrSend, Sge(sendBuf.addr, len, sendBuf.lkey), 0, 0);
        if !posted {
          return 0, p;
        }
        var polled := PollSendCQ(numSendWr);
        n := if polled then len else 0;
      } else {
        var lmr := Register(addr, len, MR_LOCAL_READ, reg).value;
        assert Entries([lmr]) == [Sge(addr, len, reg.lkey)];
        assert SgeLen([Sge(addr, len, reg.lkey)]) == len + SgeLen([]);
        n, p := SendV([lmr]);
      }
    }

    /** Recv(buf, len): up to EAGER_THRESHOLD bytes arrive through the eager
        buffer. The eager receive is refilled first, then all but one of the
        outstanding receives are polled, and min(len, EAGER_THRESHOLD) bytes
        are copied out. A longer message is registered for local writing
        and received by RecvV as one region. len is returned, and the bytes
        copied, iff every post was accepted and every receive completion
        polled succeeded. */
    method Recv(mem: array<byte>, addr: nat, len: nat, reg: RegOutcome) returns (n: nat, ghost p: Partition)
      requires Valid()
      requires mem != recvBuf.buf
      requires addr + len <= mem.Length
      requires len > EAGER_THRESHOLD ==> reg.Registered? && numRecvWr == 1
      modifies this, mem
      ensures Valid()
      ensures old(recvLog) <= recvLog
      ensures n == (if RecvsOk(old(recvPosts), old(recvPolls)) then len else 0)
      ensures RecvsOk(old(recvPosts), old(recvPolls)) ==> numRecvWr == 1
      ensures numSendWr == old(numSendWr) && sendLog == old(sendLog)
      ensures !RecvsOk(old(recvPosts), old(recvPolls)) ==> mem[..] == old(mem[..])
      ensures RecvsOk(old(recvPosts), old(recvPolls)) ==>
                && mem[addr..addr + CopyLen(len)] == recvBuf.buf[..CopyLen(len)]
                && mem[..addr] == old(mem[..addr])
                && mem[addr + CopyLen(len)..] == old(mem[addr + CopyLen(len)..])
      ensures len <= EAGER_THRESHOLD ==>
                && RecvWrsOk(recvLog[|old(recvLog)|..], maxRecvSge, maxMsgSz)
                && Addrs(RecvStream(recvLog[|old(recvLog)|..])) <= Addrs([Sge(recvBuf.addr, EAGER_THRESHOLD, recvBuf.lkey)])
                && (RecvsOk(old(recvPosts), old(recvPolls)) ==>
                      Addrs(RecvStream(recvLog[|old(recvLog)|..])) == Addrs([Sge(recvBuf.addr, EAGER_THRESHOLD, recvBuf.lkey)]))
      ensures len > EAGER_THRESHOLD ==>
                && p == Handed([Sge(addr, len, reg.lkey)])
                && (RecvsOk(old(recvPosts), old(recvPolls)) ==>
                      Addrs(RecvStream(recvLog[|old(recvLog)|..]))
                      == Addrs(p.body) + Addrs([Sge(recvBuf.addr, EAGER_THRESHOLD, recvBuf.lkey)]))
    {
      p := Partition(None, []);
      if len <= EAGER_THRESHOLD {
        n := RecvEager(mem, addr, len);
      } else {
        var lmr := Register(addr, len, MR_LOCAL_WRITE, reg).value;
        assert Entries([lmr]) == [Sge(addr, len, reg.lkey)];
        assert [Sge(addr, len, reg.lkey)][1..] == [];
        assert SgeLen([Sge(addr, len, reg.lkey)]) == len + SgeLen([]);
        n, p := RecvV(mem, [lmr]);
      }
    }

    /** Recv's eager path: the eager receive is refilled, all but one of the
        outstanding receives are polled, and when the post and every poll
        succeeded len bytes are copied out of the receive buffer to
        mem[addr..] and len is returned. */
    method RecvEager(mem: array<byte>, addr: nat, len: nat) returns (n: nat)
      requires Valid()
      requires mem != recvBuf.buf
      requires addr + len <= mem.Length && len <= EAGER_THRESHOLD
      modifies this, mem
      ensures Valid()
      ensures old(recvLog) <= recvLog
      ensures n == (if RecvsOk(old(recvPosts), old(recvPolls)) then len else 0)
      ensures RecvsOk(old(recvPosts), old(recvPolls)) ==> numRecvWr == 1
      ensures numSendWr == old(numSendWr) && sendLog == old(sendLog)
      ensures !RecvsOk(old(recvPosts), old(recvPolls)) ==> mem[..] == old(mem[..])
      ensures RecvsOk(old(recvPosts), old(recvPolls)) ==>
                && mem[addr..addr + len] == recvBuf.buf[..len]
                && mem[..addr] == old(mem[..addr])
                && mem[addr + len..] == old(mem[addr + len..])
      ensures RecvWrsOk(recvLog[|old(recvLog)|..], maxRecvSge, maxMsgSz)
      ensures Addrs(RecvStream(recvLog[|old(recvLog)|..])) <= Addrs([Sge(recvBuf.addr, EAGER_THRESHOLD, recvBuf.lkey)])
      ensures RecvsOk(old(recvPosts), old(recvPolls)) ==>
                Addrs(RecvStream(recvLog[|old(recvLog)|..])) == Addrs([Sge(recvBuf.addr, EAGER_THRESHOLD, recvBuf.lkey)])
    {
      var sgl := new Sge[1][Sge(recvBuf.addr, EAGER_THRESHOLD, recvBuf.lkey)];
      var r := PostRecv(sgl);
      if r != 1 {
        return 0;
      }
      var polled := PollAllButOneRecv();
      if !polled {
        return 0;
      }
      n := recvBuf.Read(mem, addr, len);
    }

    /** SendV: the header goes alone and is waited for, so that it lands in
        the peer's eager buffer; the body follows as one list, and the total
        length is returned iff every post was accepted and every send
        completion polled succeeded. Then the requests carried the header's
        bytes and then the body's. */
    method SendV(lmrs: seq<VerbsLocalMemoryRegion>) returns (n: nat, ghost p: Partition)
      requires Valid()
      requires numSendWr == 0
      modifies this
      ensures Valid()
      ensures old(sendLog) <= sendLog
      ensures n == (if SendsOk(old(sendPosts), old(sendPolls)) then SgeLen(Entries(lmrs)) else 0)
      ensures SendsOk(old(sendPosts), old(sendPolls)) ==>
                && p == Handed(Entries(lmrs)) && numSendWr == 0
                && Addrs(SendStream(sendLog[|old(sendLog)|..])) == Addrs(HeadSges(p) + p.body)
      ensures numRecvWr == old(numRecvWr) && recvLog == old(recvLog)
    {
      ghost var log0 := sendLog;
      var sent, sentLen, head, sges := SendHeader(lmrs);
      p := Partition(head, sges);
      if !sent {
        return 0, p;
      }
      ghost var log1 := sendLog;
      var arr := new Sge[|sges|](j requires 0 <= j < |sges| => sges[j]);
      assert arr[..] == sges;
      var r := PostSend(WrSend, arr, 0, 0);
      if r != |sges| {
        return 0, p;
      }
      var polled := PollSendCQ(numSendWr);
      n := if polled then sentLen else 0;
      SendLogStream(log0, log1, sendLog);
      AddrsAppend(HeadSges(p), p.body);
    }

    /** SendV's scan of the regions: the first non-empty one gives the
        header, which is sent and waited for on the spot; the rest is
        gathered into the body list. False iff a post or a poll of the
        header failed; otherwise the requests carried the header. */
    method SendHeader(lmrs: seq<VerbsLocalMemoryRegion>)
      returns (sent: bool, sentLen: nat, ghost head: Option<Sge>, sges: seq<Sge>)
      requires Valid()
      modifies this
      ensures Valid()
      ensures old(sendLog) <= sendLog
      ensures sent <==> SendsOk(old(sendPosts), old(sendPolls))
      ensures sent ==> sentLen == SgeLen(Entries(lmrs)) && Partition(head, sges) == Handed(Entries(lmrs))
      ensures sent ==> Addrs(SendStream(sendLog[|old(sendLog)|..])) == Addrs(HeadSges(Partition(head, sges)))
      ensures numRecvWr == old(numRecvWr) && recvLog == old(recvLog)
      ensures sendPosts >= old(sendPosts) && sendPolls >= old(sendPolls)
    {
      ghost var rs := Entries(lmrs);
      sentLen, sges, head := 0, [], None;
      var i := 0;
      ghost var body: seq<Sge> := [];
      while i < |lmrs|
        invariant Valid() && i <= |lmrs|
        invariant numRecvWr == old(numRecvWr) && recvLog == old(recvLog)
        invariant old(sendLog) <= sendLog
        invariant SendsOk(old(sendPosts), old(sendPolls))
        invariant head.None? ==> sendLog == old(sendLog)
        invariant head.Some? ==> Addrs(SendStream(sendLog[|old(sendLog)|..])) == Addrs([head.value])
        invariant ScanUpTo(rs, i) == Scan(sentLen, head, body)
        invariant head.None? <==> sentLen == 0
        invariant sges == NarrowAll(body)
        invariant sentLen == 0 ==> body == []
      {
        assert ScanUpTo(rs, i + 1) == ScanStep(ScanUpTo(rs, i), rs[i]);
        var ok;
        ok, sentLen, head, body, sges := SendStep(lmrs[i], sentLen, head, body, sges);
        if !ok {
          return false, sentLen, head, sges;
        }
        i := i + 1;
      }
      ScanHanded(rs, sentLen, head, body, sges);
      sent := true;
    }

    /** One region of SendHeader's scan: an empty region changes nothing,
        the first non-empty one is sent as the header (its part past
        EAGER_THRESHOLD starting the body), and any later one joins the
        body. False iff a post or poll of the header failed. */
    method SendStep(lmr: VerbsLocalMemoryRegion, sentLen: nat, ghost head: Option<Sge>, ghost body: seq<Sge>, sges: seq<Sge>)
      returns (ok: bool, sentLen': nat, ghost head': Option<Sge>, ghost body': seq<Sge>, sges': seq<Sge>)
      requires Valid()
      requires head.None? <==> sentLen == 0
      requires sentLen == 0 ==> body == []
      requires sges == NarrowAll(body)
      modifies this
      ensures Valid()
      ensures old(sendLog) <= sendLog
      ensures numRecvWr == old(numRecvWr) && recvLog == old(recvLog)
      ensures sendPosts >= old(sendPosts) && sendPolls >= old(sendPolls)
      ensures ok <==> SendsOk(old(sendPosts), old(sendPolls))
      ensures ok && (head.Some? || head'.None?) ==> sendLog == old(sendLog) && head' == head
      ensures ok && head.None? && head'.Some? ==> Addrs(SendStream(sendLog[|old(sendLog)|..])) == Addrs([head'.value])
      ensures ok ==>
                && Scan(sentLen', head', body') == ScanStep(Scan(sentLen, head, body), Entry(lmr))
                && (head'.None? <==> sentLen' == 0)
                && (sentLen' == 0 ==> body' == [])
                && sges' == NarrowAll(body')
    {
      ok, sentLen', head', body', sges' := true, sentLen, head, body, sges;
      var len := lmr.GetLength();
      if len > 0 {
        var addr := lmr.GetAddr();
        var lkey := lmr.GetLKey();
        if sentLen == 0 {
          var sending;
          ok, sending := SendFirst(addr, len, lkey);
          if !ok {
            return;
          }
          head' := Some(Sge(addr, sending, lkey));
          sentLen' := len;
          body' := if len > EAGER_THRESHOLD then [Sge(addr + EAGER_THRESHOLD, len - EAGER_THRESHOLD, lkey)] else [];
          if len > EAGER_THRESHOLD {
            NarrowSnoc([], body'[0]);
          }
          sges' := if len > EAGER_THRESHOLD then [Narrow(Sge(addr + EAGER_THRESHOLD, len - EAGER_THRESHOLD, lkey))] else [];
        } else {
          NarrowSnoc(body, Entry(lmr));
          body' := body + [Entry(lmr)];
          sges' := sges + [Narrow(Sge(addr, len, lkey))];
          sentLen' := sentLen + len;
        }
      }
    }

    /** SendV's first non-empty region: its first min(len, EAGER_THRESHOLD)
        bytes go to the peer's eager buffer, and are waited for. */
    method SendFirst(addr: nat, len: nat, lkey: nat) returns (ok: bool, sending: nat)
      requires Valid()
      modifies this
      ensures Valid()
      ensures old(sendLog) <= sendLog
      ensures sending == CopyLen(len)
      ensures numRecvWr == old(numRecvWr) && recvLog == old(recvLog)
      ensures sendPosts >= old(sendPosts) && sendPolls >= old(sendPolls)
      ensures ok <==> SendsOk(old(sendPosts), old(sendPolls))
      ensures ok ==> Addrs(SendStream(sendLog[|old(sendLog)|..])) == Addrs([Sge(addr, sending, lkey)])
    {
      sending := if len > EAGER_THRESHOLD then EAGER_THRESHOLD else len;
      ok := PostHeader(Sge(addr, sending, lkey));
    }

    /** The first part of SendV's transfer: the header alone, as one send
        that is waited for; true iff the post and the poll succeeded, and
        then the request carried the header's bytes. */
    method PostHeader(h: Sge) returns (ok: bool)
      requires Valid()
      modifies this
      ensures Valid()
      ensures old(sendLog) <= sendLog
      ensures numRecvWr == old(numRecvWr) && recvLog == old(recvLog)
      ensures sendPosts >= old(sendPosts) && sendPolls >= old(sendPolls)
      ensures ok <==> SendsOk(old(sendPosts), old(sendPolls))
      ensures SendWrsOk(sendLog[|old(sendLog)|..], WrSend, 0, 0, maxSendSge, maxMsgSz, maxInlineData)
      ensures Addrs(SendStream(sendLog[|old(sendLog)|..])) <= Addrs([h])
      ensures ok ==> Addrs(SendStream(sendLog[|old(sendLog)|..])) == Addrs([h])
    {
      var one := new Sge[1][h];
      var r := PostSend(WrSend, one, 0, 0);
      if r != 1 {
        return false;
      }
      ok := PollSendCQ(1);
    }

    /** RecvV: computes the same partition as SendV, posts the body, refills
        the eager receive, polls all but one of the outstanding receives and
        copies the header out of the eager buffer to the start of the first
        non-empty region. The total is returned iff every post was accepted
        and every receive completion polled succeeded; then the body and
        the eager buffer were posted, in that order. */
    method RecvV(mem: array<byte>, lmrs: seq<VerbsLocalMemoryRegion>) returns (n: nat, ghost p: Partition)
      requires Valid()
      requires numRecvWr == 1
      requires mem != recvBuf.buf
      requires forall i :: 0 <= i < |lmrs| ==> lmrs[i].GetAddr() + lmrs[i].GetLength() <= mem.Length
      modifies this, mem
      ensures Valid()
      ensures old(recvLog) <= recvLog
      ensures p == Handed(Entries(lmrs))
      ensures n == (if RecvsOk(old(recvPosts), old(recvPolls)) then SgeLen(Entries(lmrs)) else 0)
      ensures RecvsOk(old(recvPosts), old(recvPolls)) ==>
                && numRecvWr == 1
                && Addrs(RecvStream(recvLog[|old(recvLog)|..]))
                   == Addrs(p.body) + Addrs([Sge(recvBuf.addr, EAGER_THRESHOLD, recvBuf.lkey)])
      ensures !RecvsOk(old(recvPosts), old(recvPolls)) || p.head.None? ==> mem[..] == old(mem[..])
      ensures RecvsOk(old(recvPosts), old(recvPolls)) && p.head.Some? ==>
                var h := p.head.value;
                && h.addr + h.length <= mem.Length
                && mem[h.addr..h.addr + h.length] == recvBuf.buf[..h.length]
                && mem[..h.addr] == old(mem[..h.addr])
                && mem[h.addr + h.length..] == old(mem[h.addr + h.length..])
      ensures numSendWr == old(numSendWr) && sendLog == old(sendLog)
    {
      ghost var rs := Entries(lmrs);
      var recvdLen, headAddr, headLen, sges, headKey := ScanRecvRegions(lmrs, mem.Length);
      p := Partition(if recvdLen == 0 then None else Some(Sge(headAddr, headLen, headKey)), sges);
      var ok := RecvBody(sges);
      if !ok {
        return 0, p;
      }
      var copied := recvBuf.Read(mem, headAddr, headLen);
      n := recvdLen;
      if recvdLen == 0 {
        assert mem[..] == mem[..headAddr] + mem[headAddr..];
      }
    }

    /** The receive side of RecvV: posts the body list, refills the eager
        receive and polls all but one of the outstanding receives; true iff
        every post was accepted and every poll succeeded, and then exactly
        one receive is outstanding and the body and the eager buffer were
        posted, in that order. */
    method RecvBody(sges: seq<Sge>) returns (ok: bool)
      requires Valid()
      modifies this
      ensures Valid()
      ensures old(recvLog) <= recvLog
      ensures ok <==> RecvsOk(old(recvPosts), old(recvPolls))
      ensures ok ==>
                && numRecvWr == 1
                && Addrs(RecvStream(recvLog[|old(recvLog)|..]))
                   == Addrs(sges) + Addrs([Sge(recvBuf.addr, EAGER_THRESHOLD, recvBuf.lkey)])
      ensures numSendWr == old(numSendWr) && sendLog == old(sendLog)
    {
      ghost var log0 := recvLog;
      var posted := PostRecvList(sges);
      if !posted {
        return false;
      }
      ghost var log1 := recvLog;
      posted := PostRecvList([Sge(recvBuf.addr, EAGER_THRESHOLD, recvBuf.lkey)]);
      if !posted {
        return false;
      }
      ok := PollAllButOneRecv();
      RecvLogStream(log0, log1, recvLog);
    }

    /** Posts a list of receive entries; true iff every one was posted, and
        then the requests carry the list's bytes. */
    method PostRecvList(sges: seq<Sge>) returns (all: bool)
      requires Valid()
      modifies this
      ensures Valid()
      ensures old(recvLog) <= recvLog
      ensures all <==> RecvsOk(old(recvPosts), old(recvPolls))
      ensures all ==> Addrs(RecvStream(recvLog[|old(recvLog)|..])) == Addrs(sges)
      ensures numSendWr == old(numSendWr) && sendLog == old(sendLog)
      ensures recvPosts >= old(recvPosts) && recvPolls >= old(recvPolls)
    {
      var arr := new Sge[|sges|](j requires 0 <= j < |sges| => sges[j]);
      assert arr[..] == sges;
      var r := PostRecv(arr);
      all := r == |sges|;
    }

    /** Polls all but one of the outstanding receives, num_recv_wr_ - 1 in
        32-bit arithmetic; true iff every one of them completed
        successfully, and then exactly one receive is left outstanding. */
    method PollAllButOneRecv() returns (ok: bool)
      requires Valid()
      modifies this
      ensures Valid()
      ensures ok <==> CountOk(nic.recvCqOk, old(recvPolls), Wrap32(old(numRecvWr) - 1)) == Wrap32(old(numRecvWr) - 1)
      ensures ok <==> AllOk(nic.recvCqOk, old(recvPolls), recvPolls)
      ensures ok ==> numRecvWr == 1
      ensures recvPosts == old(recvPosts) && recvPolls >= old(recvPolls)
      ensures numSendWr == old(numSendWr) && sendLog == old(sendLog) && recvLog == old(recvLog)
    {
      ghost var outstanding := numRecvWr;
      ok := PollRecvCQ(Wrap32(numRecvWr - 1));
      if ok {
        LeavesOne(outstanding);
      }
    }

    /** Write(buf, len, rmr): up to EAGER_THRESHOLD bytes are copied into the
        send buffer and written to the remote region by one RDMA write, and
        len is returned iff every post was accepted and every send
        completion polled succeeded. A longer message is registered for
        local reading and written by WriteV as one region. */
    method Write(mem: array<byte>, addr: nat, len: nat, rmr: RemoteMemoryRegion, reg: RegOutcome) returns (n: nat)
      requires Valid()
      requires mem != sendBuf.buf
      requires addr + len <= mem.Length
      requires len == rmr.length
      requires len > EAGER_THRESHOLD ==> reg.Registered?
      modifies this, sendBuf.buf
      ensures Valid()
      ensures old(sendLog) <= sendLog
      ensures n == (if SendsOk(old(sendPosts), old(sendPolls)) then len else 0)
      ensures SendsOk(old(sendPosts), old(sendPolls)) ==> numSendWr == 0
      ensures numRecvWr == old(numRecvWr) && recvLog == old(recvLog)
      ensures SendWrsOk(sendLog[|old(sendLog)|..], WrRdmaWrite, rmr.addr, rmr.rkey, maxSendSge, maxMsgSz, maxInlineData)
      ensures len <= EAGER_THRESHOLD ==>
                && sendBuf.buf[..len] == old(mem[addr..addr + len])
                && Addrs(SendStream(sendLog[|old(sendLog)|..])) <= Addrs([Sge(sendBuf.addr, len, sendBuf.lkey)])
                && (SendsOk(old(sendPosts), old(sendPolls)) ==>
                      Addrs(SendStream(sendLog[|old(sendLog)|..])) == Addrs([Sge(sendBuf.addr, len, sendBuf.lkey)]))
      ensures len > EAGER_THRESHOLD ==>
                && Addrs(SendStream(sendLog[|old(sendLog)|..])) <= Addrs([Narrow(Sge(addr, len, reg.lkey))])
                && (SendsOk(old(sendPosts), old(sendPolls)) ==>
                      Addrs(SendStream(sendLog[|old(sendLog)|..])) == Addrs([Narrow(Sge(addr, len, reg.lkey))]))
    {
      if len <= EAGER_THRESHOLD {
        n := WriteEager(mem, addr, len, rmr);
      } else {
        var lmr := Register(addr, len, MR_LOCAL_READ, reg).value;
        ghost var reached;
        n, reached := OneSidedV(WrRdmaWrite, [lmr], [rmr]);
        OneRegion(lmr);
      }
    }

    /** Write's eager path: the bytes are copied into the send buffer, one
        RDMA write of them is posted, and every outstanding send completion
        is polled; the length iff the post and all completions succeeded. */
    method WriteEager(mem: array<byte>, addr: nat, len: nat, rmr: RemoteMemoryRegion) returns (n: nat)
      requires Valid()
      requires mem != sendBuf.buf
      requires addr + len <= mem.Length
      requires len == rmr.length <= EAGER_THRESHOLD
      modifies this, sendBuf.buf
      ensures Valid()
      ensures old(sendLog) <= sendLog
      ensures n == (if SendsOk(old(sendPosts), old(sendPolls)) then len else 0)
      ensures SendsOk(old(sendPosts), old(sendPolls)) ==> numSendWr == 0
      ensures numRecvWr == old(numRecvWr) && recvLog == old(recvLog)
      ensures SendWrsOk(sendLog[|old(sendLog)|..], WrRdmaWrite, rmr.addr, rmr.rkey, maxSendSge, maxMsgSz, maxInlineData)
      ensures sendBuf.buf[..len] == old(mem[addr..addr + len])
      ensures Addrs(SendStream(sendLog[|old(sendLog)|..])) <= Addrs([Sge(sendBuf.addr, len, sendBuf.lkey)])
      ensures SendsOk(old(sendPosts), old(sendPolls)) ==>
                Addrs(SendStream(sendLog[|old(sendLog)|..])) == Addrs([Sge(sendBuf.addr, len, sendBuf.lkey)])
    {
      var w := sendBuf.Write(mem, addr, len);
      var posted := PostOne(WrRdmaWrite, Sge(sendBuf.addr, len, sendBuf.lkey), rmr.addr, rmr.rkey);
      if !posted {
        return 0;
      }
      var polled := PollSendCQ(numSendWr);
      n := if polled then len else 0;
    }

    /** Read(buf, len, rmr): up to EAGER_THRESHOLD bytes are read from the
        remote region into the send buffer by one RDMA read; after that as
        many send completions as there are outstanding receives are polled,
        and iff the post and those polls succeeded min(len, EAGER_THRESHOLD)
        bytes are copied out of the send buffer and len is returned. A
        longer message is registered for local writing and read by ReadV as
        one region. */
    method Read(mem: array<byte>, addr: nat, len: nat, rmr: RemoteMemoryRegion, reg: RegOutcome) returns (n: nat)
      requires Valid()
      requires mem != sendBuf.buf
      requires addr + len <= mem.Length
      requires len == rmr.length
      requires len > EAGER_THRESHOLD ==> reg.Registered?
      modifies this, mem
      ensures Valid()
      ensures old(sendLog) <= sendLog
      ensures n == (if SendsOk(old(sendPosts), old(sendPolls)) then len else 0)
      ensures numRecvWr == old(numRecvWr) && recvLog == old(recvLog)
      ensures SendWrsOk(sendLog[|old(sendLog)|..], WrRdmaRead, rmr.addr, rmr.rkey, maxSendSge, maxMsgSz, maxInlineData)
      ensures len <= EAGER_THRESHOLD ==>
                && Addrs(SendStream(sendLog[|old(sendLog)|..])) <= Addrs([Sge(sendBuf.addr, len, sendBuf.lkey)])
                && (SendsOk(old(sendPosts), old(sendPolls)) ==>
                      Addrs(SendStream(sendLog[|old(sendLog)|..])) == Addrs([Sge(sendBuf.addr, len, sendBuf.lkey)]))
      ensures len <= EAGER_THRESHOLD && SendsOk(old(sendPosts), old(sendPolls)) ==>
                && mem[addr..addr + len] == sendBuf.buf[..len]
                && mem[..addr] == old(mem[..addr])
                && mem[addr + len..] == old(mem[addr + len..])
      ensures len <= EAGER_THRESHOLD && !SendsOk(old(sendPosts), old(sendPolls)) ==> mem[..] == old(mem[..])
      ensures len > EAGER_THRESHOLD ==>
                && mem[..] == old(mem[..])
                && (SendsOk(old(sendPosts), old(sendPolls)) ==> numSendWr == 0)
                && Addrs(SendStream(sendLog[|old(sendLog)|..])) <= Addrs([Narrow(Sge(addr, len, reg.lkey))])
                && (SendsOk(old(sendPosts), old(sendPolls)) ==>
                      Addrs(SendStream(sendLog[|old(sendLog)|..])) == Addrs([Narrow(Sge(addr, len, reg.lkey))]))
    {
      if len <= EAGER_THRESHOLD {
        n := ReadEager(mem, addr, len, rmr);
      } else {
        var lmr := Register(addr, len, MR_LOCAL_WRITE, reg).value;
        ghost var reached;
        n, reached := OneSidedV(WrRdmaRead, [lmr], [rmr]);
        OneRegion(lmr);
      }
    }

    /** Read's eager path: one RDMA read of len bytes into the send buffer,
        as many send completions polled as there are outstanding receives,
        and iff the post and the polls succeeded the bytes copied out to
        mem[addr..] and len returned. */
    method ReadEager(mem: array<byte>, addr: nat, len: nat, rmr: RemoteMemoryRegion) returns (n: nat)
      requires Valid()
      requires mem != sendBuf.buf
      requires addr + len <= mem.Length && len <= EAGER_THRESHOLD
      modifies this, mem
      ensures Valid()
      ensures old(sendLog) <= sendLog
      ensures n == (if SendsOk(old(sendPosts), old(sendPolls)) then len else 0)
      ensures numRecvWr == old(numRecvWr) && recvLog == old(recvLog)
      ensures SendWrsOk(sendLog[|old(sendLog)|..], WrRdmaRead, rmr.addr, rmr.rkey, maxSendSge, maxMsgSz, maxInlineData)
      ensures Addrs(SendStream(sendLog[|old(sendLog)|..])) <= Addrs([Sge(sendBuf.addr, len, sendBuf.lkey)])
      ensures SendsOk(old(sendPosts), old(sendPolls)) ==>
                && Addrs(SendStream(sendLog[|old(sendLog)|..])) == Addrs([Sge(sendBuf.addr, len, sendBuf.lkey)])
                && mem[addr..addr + len] == sendBuf.buf[..len]
                && mem[..addr] == old(mem[..addr])
                && mem[addr + len..] == old(mem[addr + len..])
      ensures !SendsOk(old(sendPosts), old(sendPolls)) ==> mem[..] == old(mem[..])
    {
      var fetched := FetchEager(len, rmr);
      if !fetched {
        return 0;
      }
      n := sendBuf.Read(mem, addr, len);
    }

    /** The RDMA read of ReadEager: the first `len` bytes of the remote
        region land in the send buffer; true iff the post was accepted and
        the completions polled afterwards (as many as there are outstanding
        receives) all succeeded. */
    method FetchEager(len: nat, rmr: RemoteMemoryRegion) returns (ok: bool)
      requires Valid() && len <= EAGER_THRESHOLD
      modifies this
      ensures Valid()
      ensures old(sendLog) <= sendLog
      ensures ok <==> SendsOk(old(sendPosts), old(sendPolls))
      ensures numRecvWr == old(numRecvWr) && recvLog == old(recvLog)
      ensures SendWrsOk(sendLog[|old(sendLog)|..], WrRdmaRead, rmr.addr, rmr.rkey, maxSendSge, maxMsgSz, maxInlineData)
      ensures Addrs(SendStream(sendLog[|old(sendLog)|..])) <= Addrs([Sge(sendBuf.addr, len, sendBuf.lkey)])
      ensures ok ==> Addrs(SendStream(sendLog[|old(sendLog)|..])) == Addrs([Sge(sendBuf.addr, len, sendBuf.lkey)])
    {
      var posted := PostOne(WrRdmaRead, Sge(sendBuf.addr, len, sendBuf.lkey), rmr.addr, rmr.rkey);
      if !posted {
        return false;
      }
      ok := PollSendCQ(numRecvWr);
    }

    /** PostSend of a one-entry list holding e, its length cut to 32 bits;
        `posted` says the whole entry went out, which is exactly when every
        post and poll succeeded. */
    method PostOne(opcode: Opcode, e: Sge, raddr: nat, rkey: nat) returns (posted: bool)
      requires Valid()
      modifies this
      ensures Valid()
      ensures old(sendLog) <= sendLog
      ensures posted <==> SendsOk(old(sendPosts), old(sendPolls))
      ensures numRecvWr == old(numRecvWr) && recvPolls == old(recvPolls) && recvPosts == old(recvPosts)
      ensures recvLog == old(recvLog)
      ensures sendPosts >= old(sendPosts) && sendPolls >= old(sendPolls)
      ensures SendWrsOk(sendLog[|old(sendLog)|..], opcode, raddr, rkey, maxSendSge, maxMsgSz, maxInlineData)
      ensures Addrs(SendStream(sendLog[|old(sendLog)|..])) <= Addrs([Narrow(e)])
      ensures posted ==> Addrs(SendStream(sendLog[|old(sendLog)|..])) == Addrs([Narrow(e)])
    {
      var sgl := new Sge[1][Narrow(e)];
      var r := PostSend(opcode, sgl, raddr, rkey);
      posted := r == 1;
    }

    /** WriteV and ReadV: one PostSend per non-empty region, of that region
        to its remote counterpart, stopping at the first post that falls
        short; `reached` is the number of regions handled before the stop.
        Then every outstanding send completion is polled, and the summed
        length of the regions handled is returned iff none is left
        outstanding. Every post and poll succeeded iff all regions were
        handled and none is left outstanding, and then the requests carried
        every region's bytes, in order. */
    method OneSidedV(opcode: Opcode, lmrs: seq<VerbsLocalMemoryRegion>, rmrs: seq<RemoteMemoryRegion>)
      returns (n: nat, ghost reached: nat)
      requires Valid()
      requires opcode != WrSend
      requires |lmrs| == |rmrs|
      requires forall i :: 0 <= i < |lmrs| && lmrs[i].GetLength() > 0 ==> lmrs[i].GetLength() == rmrs[i].length
      modifies this
      ensures Valid()
      ensures old(sendLog) <= sendLog
      ensures reached <= |lmrs|
      ensures n == (if numSendWr == 0 then SgeLen(Entries(lmrs)[..reached]) else 0)
      ensures SendsOk(old(sendPosts), old(sendPolls)) <==> reached == |lmrs| && numSendWr == 0
      ensures reached < |lmrs| ==> lmrs[reached].GetLength() > 0
      ensures SendsOk(old(sendPosts), old(sendPolls)) ==>
                Addrs(SendStream(sendLog[|old(sendLog)|..])) == Addrs(NarrowAll(Entries(lmrs)))
      ensures numRecvWr == old(numRecvWr) && recvLog == old(recvLog)
      ensures |lmrs| == 1 ==>
                && SendWrsOk(sendLog[|old(sendLog)|..], opcode, rmrs[0].addr, rmrs[0].rkey, maxSendSge, maxMsgSz, maxInlineData)
                && Addrs(SendStream(sendLog[|old(sendLog)|..])) <= Addrs([Narrow(Entry(lmrs[0]))])
    {
      var total;
      total, reached := PostRegions(opcode, lmrs, rmrs);
      ghost var polls := sendPolls;
      ghost var before := SendsOk(old(sendPosts), old(sendPolls));
      var polled := PollSendCQ(numSendWr);
      assert SendsOk(old(sendPosts), old(sendPolls)) <==> before && AllOk(nic.sendCqOk, polls, sendPolls);
      n := if polled then total else 0;
    }

    /** OneSidedV's posting loop: one PostSend per non-empty region, stopping
        at the first that falls short. All regions are reached iff every
        post and poll succeeded, and then the requests carried every
        region's bytes, in order. */
    method PostRegions(opcode: Opcode, lmrs: seq<VerbsLocalMemoryRegion>, rmrs: seq<RemoteMemoryRegion>)
      returns (total: nat, ghost reached: nat)
      requires Valid()
      requires opcode != WrSend
      requires |lmrs| == |rmrs|
      modifies this
      ensures Valid()
      ensures old(sendLog) <= sendLog
      ensures sendPosts >= old(sendPosts) && sendPolls >= old(sendPolls)
      ensures reached <= |lmrs| && total == SgeLen(Entries(lmrs)[..reached])
      ensures SendsOk(old(sendPosts), old(sendPolls)) <==> reached == |lmrs|
      ensures reached < |lmrs| ==> lmrs[reached].GetLength() > 0
      ensures SendsOk(old(sendPosts), old(sendPolls)) ==>
                Addrs(SendStream(sendLog[|old(sendLog)|..])) == Addrs(NarrowAll(Entries(lmrs)))
      ensures numRecvWr == old(numRecvWr) && recvLog == old(recvLog)
      ensures |lmrs| == 1 ==>
                && SendWrsOk(sendLog[|old(sendLog)|..], opcode, rmrs[0].addr, rmrs[0].rkey, maxSendSge, maxMsgSz, maxInlineData)
                && Addrs(SendStream(sendLog[|old(sendLog)|..])) <= Addrs([Narrow(Entry(lmrs[0]))])
    {
      total := 0;
      var i := 0;
      while i < |lmrs|
        invariant Valid() && i <= |lmrs|
        invariant numRecvWr == old(numRecvWr) && recvLog == old(recvLog)
        invariant RegionsPosted(opcode, lmrs, rmrs, i, total, old(sendLog), old(sendPosts), old(sendPolls))
      {
        var posted;
        posted, total := PostNext(opcode, lmrs, rmrs, i, total, old(sendLog), old(sendPosts), old(sendPolls));
        if !posted {
          return total, i;
        }
        i := i + 1;
      }
      assert Entries(lmrs)[..|lmrs|] == Entries(lmrs);
      reached := |lmrs|;
    }

    /** PostRegions' loop invariant after i regions: every post and poll so
        far succeeded, `total` is the regions' summed length and the
        requests carried their bytes, in order. */
    ghost predicate RegionsPosted(opcode: Opcode, lmrs: seq<VerbsLocalMemoryRegion>, rmrs: seq<RemoteMemoryRegion>,
                                  i: nat, total: nat, log0: seq<SendWr>, posts0: nat, polls0: nat)
      reads this
      requires |lmrs| == |rmrs|
    {
      && i <= |lmrs| && log0 <= sendLog
      && SendsOk(posts0, polls0)
      && total == SgeLen(Entries(lmrs)[..i])
      && Addrs(SendStream(sendLog[|log0|..])) == Addrs(NarrowAll(Entries(lmrs)[..i]))
      && (i == 0 ==> sendLog == log0)
      && (|lmrs| == 1 ==>
            && SendWrsOk(sendLog[|log0|..], opcode, rmrs[0].addr, rmrs[0].rkey, maxSendSge, maxMsgSz, maxInlineData)
            && Addrs(SendStream(sendLog[|log0|..])) <= Addrs([Narrow(Entry(lmrs[0]))]))
    }

    /** One iteration of PostRegions: region i is posted; true iff its posts
        and polls succeeded, and then the invariant holds for i + 1 regions.
        Otherwise the run so far is no longer all successes. */
    method PostNext(opcode: Opcode, lmrs: seq<VerbsLocalMemoryRegion>, rmrs: seq<RemoteMemoryRegion>, i: nat, total: nat,
                    ghost log0: seq<SendWr>, ghost posts0: nat, ghost polls0: nat)
      returns (posted: bool, total': nat)
      requires Valid() && opcode != WrSend && |lmrs| == |rmrs| && i < |lmrs|
      requires RegionsPosted(opcode, lmrs, rmrs, i, total, log0, posts0, polls0)
      modifies this
      ensures Valid()
      ensures numRecvWr == old(numRecvWr) && recvLog == old(recvLog)
      ensures posted ==> RegionsPosted(opcode, lmrs, rmrs, i + 1, total', log0, posts0, polls0)
      ensures !posted ==>
                && total' == total && log0 <= sendLog && posts0 <= sendPosts && polls0 <= sendPolls
                && !SendsOk(posts0, polls0) && lmrs[i].GetLength() > 0
                && (|lmrs| == 1 ==>
                      && SendWrsOk(sendLog[|log0|..], opcode, rmrs[0].addr, rmrs[0].rkey, maxSendSge, maxMsgSz, maxInlineData)
                      && Addrs(SendStream(sendLog[|log0|..])) <= Addrs([Narrow(Entry(lmrs[0]))]))
    {
      ghost var rs := Entries(lmrs);
      SgeLenSnoc(rs, i);
      NarrowAddrsSnoc(rs, i);
      ghost var mid, midPosts, midPolls := sendLog, sendPosts, sendPolls;
      posted := PostRegion(opcode, lmrs[i], rmrs[i]);
      AllOkJoin(nic.sendPostOk, posts0, midPosts, sendPosts);
      AllOkJoin(nic.sendCqOk, polls0, midPolls, sendPolls);
      SendLogStream(log0, mid, sendLog);
      if |lmrs| == 1 {
        assert mid == log0;
        assert sendLog[|log0|..] == sendLog[|mid|..];
      }
      total' := total + lmrs[i].GetLength();
      if !posted {
        total' := total;
      }
    }

    /** One region of OneSidedV: an empty region is skipped, a non-empty one
        is posted to its remote counterpart; true iff every post and poll
        succeeded, and then the requests carried the region's bytes. */
    method PostRegion(opcode: Opcode, lmr: VerbsLocalMemoryRegion, rmr: RemoteMemoryRegion) returns (posted: bool)
      requires Valid()
      requires opcode != WrSend
      modifies this
      ensures Valid()
      ensures old(sendLog) <= sendLog
      ensures posted <==> SendsOk(old(sendPosts), old(sendPolls))
      ensures lmr.GetLength() == 0 ==> posted && sendLog == old(sendLog)
      ensures posted ==> Addrs(SendStream(sendLog[|old(sendLog)|..])) == Addrs([Narrow(Entry(lmr))])
      ensures numRecvWr == old(numRecvWr) && recvLog == old(recvLog)
      ensures sendPosts >= old(sendPosts) && sendPolls >= old(sendPolls)
      ensures SendWrsOk(sendLog[|old(sendLog)|..], opcode, rmr.addr, rmr.rkey, maxSendSge, maxMsgSz, maxInlineData)
      ensures Addrs(SendStream(sendLog[|old(sendLog)|..])) <= Addrs([Narrow(Entry(lmr))])
    {
      var len := lmr.GetLength();
      if len == 0 {
        SingletonAddrs(Narrow(Entry(lmr)));
        return true;
      }
      posted := PostOne(opcode, Sge(lmr.GetAddr(), len, lmr.GetLKey()), rmr.addr, rmr.rkey);
    }

    /** WriteV: OneSidedV with RDMA writes. */
    method WriteV(lmrs: seq<VerbsLocalMemoryRegion>, rmrs: seq<RemoteMemoryRegion>) returns (n: nat, ghost reached: nat)
      requires Valid()
      requires |lmrs| == |rmrs|
      requires forall i :: 0 <= i < |lmrs| && lmrs[i].GetLength() > 0 ==> lmrs[i].GetLength() == rmrs[i].length
      modifies this
      ensures Valid()
      ensures old(sendLog) <= sendLog
      ensures reached <= |lmrs|
      ensures n == (if numSendWr == 0 then SgeLen(Entries(lmrs)[..reached]) else 0)
      ensures SendsOk(old(sendPosts), old(sendPolls)) <==> reached == |lmrs| && numSendWr == 0
      ensures reached < |lmrs| ==> lmrs[reached].GetLength() > 0
      ensures SendsOk(old(sendPosts), old(sendPolls)) ==>
                Addrs(SendStream(sendLog[|old(sendLog)|..])) == Addrs(NarrowAll(Entries(lmrs)))
    {
      n, reached := OneSidedV(WrRdmaWrite, lmrs, rmrs);
    }

    /** ReadV: OneSidedV with RDMA reads. */
    method ReadV(lmrs: seq<VerbsLocalMemoryRegion>, rmrs: seq<RemoteMemoryRegion>) returns (n: nat, ghost reached: nat)
      requires Valid()
      requires |lmrs| == |rmrs|
      requires forall i :: 0 <= i < |lmrs| && lmrs[i].GetLength() > 0 ==> lmrs[i].GetLength() == rmrs[i].length
      modifies this
      ensures Valid()
      ensures old(sendLog) <= sendLog
      ensures reached <= |lmrs|
      ensures n == (if numSendWr == 0 then SgeLen(Entries(lmrs)[..reached]) else 0)
      ensures SendsOk(old(sendPosts), old(sendPolls)) <==> reached == |lmrs| && numSendWr == 0
      ensures reached < |lmrs| ==> lmrs[reached].GetLength() > 0
      ensures SendsOk(old(sendPosts), old(sendPolls)) ==>
                Addrs(SendStream(sendLog[|old(sendLog)|..])) == Addrs(NarrowAll(Entries(lmrs)))
    {
      n, reached := OneSidedV(WrRdmaRead, lmrs, rmrs);
    }

    /** SynRemoteMemoryRegionV: the descriptors of the regions, in order, are
        laid out in a fresh array and sent with Send as one message of
        24 bytes per region; up to EAGER_THRESHOLD bytes that is an eager
        send whose staged bytes are exactly the encoded descriptors. The
        whole message counts as sent iff every post and poll succeeded. */
    method SynRemoteMemoryRegionV(lmrs: seq<VerbsLocalMemoryRegion>, reg: RegOutcome)
      returns (n: nat, ghost bytes: seq<byte>)
      requires Valid()
      requires forall i :: 0 <= i < |lmrs| ==> Fits(Describe(lmrs[i]))
      requires RMR_SIZE * |lmrs| > EAGER_THRESHOLD ==> reg.Registered? && numSendWr == 0
      modifies this, sendBuf.buf
      ensures Valid()
      ensures bytes == EncodeRmrs(Descriptors(lmrs))
      ensures n == (if SendsOk(old(sendPosts), old(sendPolls)) then |bytes| else 0)
      ensures SendsOk(old(sendPosts), old(sendPolls)) ==> numSendWr == 0
      ensures |bytes| <= EAGER_THRESHOLD ==> sendBuf.buf[..|bytes|] == bytes
      ensures numRecvWr == old(numRecvWr) && recvLog == old(recvLog)
    {
      var data := EncodeRmrs(Descriptors(lmrs));
      bytes := data;
      var buf := Staged(data);
      ghost var p;
      n, p := Send(buf, 0, |data|, reg);
    }

    /** AckRemoteMemoryRegionV: receives 24 bytes per expected region with
        Recv into fresh memory and reads the descriptors out of them. Up to
        EAGER_THRESHOLD bytes, a successful receive yields the descriptors
        encoded at the start of the eager receive buffer. The receive's own
        result is not looked at. */
    method AckRemoteMemoryRegionV(count: nat, reg: RegOutcome) returns (rmrs: seq<RemoteMemoryRegion>, n: nat)
      requires Valid()
      requires RMR_SIZE * count > EAGER_THRESHOLD ==> reg.Registered? && numRecvWr == 1
      modifies this
      ensures Valid()
      ensures |rmrs| == count
      ensures n == (if RecvsOk(old(recvPosts), old(recvPolls)) then RMR_SIZE * count else 0)
      ensures RecvsOk(old(recvPosts), old(recvPolls)) && RMR_SIZE * count <= EAGER_THRESHOLD ==>
                rmrs == DecodeRmrs(recvBuf.buf[..RMR_SIZE * count])
      ensures RecvsOk(old(recvPosts), old(recvPolls)) ==> numRecvWr == 1
      ensures numSendWr == old(numSendWr) && sendLog == old(sendLog)
    {
      var buf := new byte[RMR_SIZE * count];
      ghost var p;
      n, p := Recv(buf, 0, RMR_SIZE * count, reg);
      assert buf[..] == buf[0..RMR_SIZE * count];
      rmrs := DecodeRmrs(buf[..]);
    }
  }
}
