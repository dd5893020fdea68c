/** The pieces of the verbs posting engine that do not depend on a channel:
    the work requests handed to the NIC, the completion counting of
    `PollCQ`, and `PackWr`, which fills one work request from the front of a
    scatter-gather list under an entry-count and a byte limit, cutting the
    entry that crosses the byte limit in place. */
module VerbsWorkRequests {
  import opened Common
  import opened ScatterGather

  /** The ibv_wr_opcode values the channel uses. */
  datatype Opcode = WrSend | WrRdmaWrite | WrRdmaRead

  /** A posted ibv_send_wr: opcode, entries, IBV_SEND_INLINE, the remote
      address and key (zero for a plain send). `cut` records that the last
      entry was cut at the byte limit; it is not a field of ibv_send_wr. */
  datatype SendWr = SendWr(opcode: Opcode, sges: seq<Sge>, inline: bool, raddr: nat, rkey: nat, cut: bool)

  /** A posted ibv_recv_wr; `cut` as for SendWr. */
  datatype RecvWr = RecvWr(sges: seq<Sge>, cut: bool)

  /** The entries of consecutive send work requests, one list after the other. */
  function SendStream(wrs: seq<SendWr>): seq<Sge>
  {
    if wrs == [] then [] else SendStream(wrs[..|wrs| - 1]) + wrs[|wrs| - 1].sges
  }

  /** The entries of consecutive receive work requests. */
  function RecvStream(wrs: seq<RecvWr>): seq<Sge>
  {
    if wrs == [] then [] else RecvStream(wrs[..|wrs| - 1]) + wrs[|wrs| - 1].sges
  }

  /** How far the remote address has moved after these work requests: by the
      length of the cut part of the last entry of every request that ended
      in a cut, and not at all for a request closed by the entry count. */
  function RemoteAdvance(wrs: seq<SendWr>): nat
  {
    if wrs == [] then 0
    else
      var w := wrs[|wrs| - 1];
      RemoteAdvance(wrs[..|wrs| - 1]) + (if w.cut && w.sges != [] then w.sges[|w.sges| - 1].length else 0)
  }

  /** Total bytes of the entries of these work requests. */
  function SendBytes(wrs: seq<SendWr>): nat
  {
    if wrs == [] then 0 else SendBytes(wrs[..|wrs| - 1]) + SgeLen(wrs[|wrs| - 1].sges)
  }

  lemma SendStreamSnoc(wrs: seq<SendWr>, w: SendWr)
    ensures SendStream(wrs + [w]) == SendStream(wrs) + w.sges
    ensures RemoteAdvance(wrs + [w]) == RemoteAdvance(wrs) + (if w.cut && w.sges != [] then w.sges[|w.sges| - 1].length else 0)
    ensures SendBytes(wrs + [w]) == SendBytes(wrs) + SgeLen(w.sges)
  {
    assert (wrs + [w])[..|wrs|] == wrs;
  }

  lemma RecvStreamSnoc(wrs: seq<RecvWr>, w: RecvWr)
    ensures RecvStream(wrs + [w]) == RecvStream(wrs) + w.sges
  {
    assert (wrs + [w])[..|wrs|] == wrs;
  }

  /** The stream of two runs of send requests is the one stream after the other. */
  lemma {:induction false} SendStreamAppend(a: seq<SendWr>, b: seq<SendWr>)
    ensures SendStream(a + b) == SendStream(a) + SendStream(b)
    decreases |b|
  {
    if b == [] {
      assert a + b == a;
    } else {
      var front, w := b[..|b| - 1], b[|b| - 1];
      assert a + b == (a + front) + [w];
      assert b == front + [w];
      SendStreamAppend(a, front);
      SendStreamSnoc(a + front, w);
      SendStreamSnoc(front, w);
    }
  }

  /** The stream of two runs of receive requests is the one stream after the other. */
  lemma {:induction false} RecvStreamAppend(a: seq<RecvWr>, b: seq<RecvWr>)
    ensures RecvStream(a + b) == RecvStream(a) + RecvStream(b)
    decreases |b|
  {
    if b == [] {
      assert a + b == a;
    } else {
      var front, w := b[..|b| - 1], b[|b| - 1];
      assert a + b == (a + front) + [w];
      assert b == front + [w];
      RecvStreamAppend(a, front);
      RecvStreamSnoc(a + front, w);
      RecvStreamSnoc(front, w);
    }
  }

  /** The bytes posted since `log0` are those posted up to `mid`, then those
      posted after it. */
  lemma SendLogStream(log0: seq<SendWr>, mid: seq<SendWr>, log: seq<SendWr>)
    requires log0 <= mid <= log
    ensures Addrs(SendStream(log[|log0|..])) == Addrs(SendStream(mid[|log0|..])) + Addrs(SendStream(log[|mid|..]))
  {
    assert log[|log0|..] == mid[|log0|..] + log[|mid|..];
    SendStreamAppend(mid[|log0|..], log[|mid|..]);
    AddrsAppend(SendStream(mid[|log0|..]), SendStream(log[|mid|..]));
  }

  /** SendLogStream for receive requests. */
  lemma RecvLogStream(log0: seq<RecvWr>, mid: seq<RecvWr>, log: seq<RecvWr>)
    requires log0 <= mid <= log
    ensures Addrs(RecvStream(log[|log0|..])) == Addrs(RecvStream(mid[|log0|..])) + Addrs(RecvStream(log[|mid|..]))
  {
    assert log[|log0|..] == mid[|log0|..] + log[|mid|..];
    RecvStreamAppend(mid[|log0|..], log[|mid|..]);
    AddrsAppend(RecvStream(mid[|log0|..]), RecvStream(log[|mid|..]));
  }

  /** The limits one work request obeys: 1..maxSge entries, at most maxMsg
      bytes, exactly maxMsg bytes when its last entry was cut. */
  predicate WithinLimits(sges: seq<Sge>, cut: bool, maxSge: nat, maxMsg: nat)
  {
    && 1 <= |sges| <= maxSge
    && SgeLen(sges) <= maxMsg
    && (cut ==> SgeLen(sges) == maxMsg)
  }

  /** Every send work request of one PostSend call obeys the limits, carries
      the call's opcode, is inline exactly when it is a send or a write of
      at most maxInline bytes, and for RDMA opcodes targets the remote address
      advanced by the cuts before it. */
  ghost predicate SendWrsOk(wrs: seq<SendWr>, opcode: Opcode, raddr0: nat, rkey: nat, maxSge: nat, maxMsg: nat, maxInline: nat)
  {
    forall j :: 0 <= j < |wrs| ==>
      && WithinLimits(wrs[j].sges, wrs[j].cut, maxSge, maxMsg)
      && wrs[j].opcode == opcode
      && wrs[j].inline == (opcode != WrRdmaRead && SgeLen(wrs[j].sges) <= maxInline)
      && wrs[j].raddr == (if opcode == WrSend then 0 else raddr0 + RemoteAdvance(wrs[..j]))
      && wrs[j].rkey == (if opcode == WrSend then 0 else rkey)
  }

  /** Every receive work request of one PostRecv call obeys the limits. */
  ghost predicate RecvWrsOk(wrs: seq<RecvWr>, maxSge: nat, maxMsg: nat)
  {
    forall j :: 0 <= j < |wrs| ==> WithinLimits(wrs[j].sges, wrs[j].cut, maxSge, maxMsg)
  }

  /** With a single-entry list every request but the last ends in a cut and
      has one entry. */
  ghost predicate SingleCuts(cuts: seq<bool>, sizes: seq<nat>)
    requires |cuts| == |sizes|
  {
    forall j :: 0 <= j < |cuts| ==> sizes[j] == 1 && (j < |cuts| - 1 ==> cuts[j])
  }

  function SendCuts(wrs: seq<SendWr>): seq<bool> { seq(|wrs|, j requires 0 <= j < |wrs| => wrs[j].cut) }

  function SendSizes(wrs: seq<SendWr>): seq<nat> { seq(|wrs|, j requires 0 <= j < |wrs| => |wrs[j].sges|) }

  /** For a single-entry write or read the requests' remote ranges tile the
      target: each starts where the bytes before it end. */
  lemma {:induction false} SingleEntryTiles(wrs: seq<SendWr>)
    requires SingleCuts(SendCuts(wrs), SendSizes(wrs))
    ensures forall j :: 0 <= j < |wrs| ==> RemoteAdvance(wrs[..j]) == SendBytes(wrs[..j])
  {
    forall j | 0 <= j < |wrs|
      ensures RemoteAdvance(wrs[..j]) == SendBytes(wrs[..j])
    {
      PrefixTiles(wrs, j);
    }
  }

  lemma {:induction false} PrefixTiles(wrs: seq<SendWr>, j: nat)
    requires SingleCuts(SendCuts(wrs), SendSizes(wrs))
    requires j < |wrs|
    ensures RemoteAdvance(wrs[..j]) == SendBytes(wrs[..j])
  {
    if j > 0 {
      PrefixTiles(wrs, j - 1);
      var w := wrs[j - 1];
      assert wrs[..j] == wrs[..j - 1] + [w];
      SendStreamSnoc(wrs[..j - 1], w);
      assert SendCuts(wrs)[j - 1] && SendSizes(wrs)[j - 1] == 1;
      assert w.sges == [w.sges[0]];
      assert SgeLen(w.sges) == w.sges[0].length + SgeLen([]) by {
        assert w.sges[1..] == [];
      }
    }
  }

  // ---------------------------------------------------------------------
  // Completion counting.

  /** Successful completions among `n` polls of a completion queue whose
      i-th poll succeeds iff cq(i), starting at poll number `start`. */
  function CountOk(cq: nat -> bool, start: nat, n: nat): (r: nat)
    ensures r <= n
  {
    if n == 0 then 0 else CountOk(cq, start, n - 1) + (if cq(start + n - 1) then 1 else 0)
  }

  /** All requested completions arrived iff every one of the polls succeeded. */
  lemma {:induction false} CountOkAll(cq: nat -> bool, start: nat, n: nat)
    ensures CountOk(cq, start, n) == n <==> forall i :: start <= i < start + n ==> cq(i)
  {
    if n > 0 {
      CountOkAll(cq, start, n - 1);
      if !cq(start + n - 1) {
        assert CountOk(cq, start, n - 1) <= n - 1;
      }
    }
  }

  /** Polling a + b times counts what the first a polls and the next b count. */
  lemma {:induction false} CountOkSplit(cq: nat -> bool, start: nat, a: nat, b: nat)
    ensures CountOk(cq, start, a + b) == CountOk(cq, start, a) + CountOk(cq, start + a, b)
  {
    if b > 0 {
      CountOkSplit(cq, start, a, b - 1);
    }
  }

  /** Every answer numbered from `start` up to, not including, `end` was a
      success. */
  predicate AllOk(answers: nat -> bool, start: nat, end: nat)
  {
    forall i :: start <= i < end ==> answers(i)
  }

  /** A run of answers is all successes iff both of its parts are. */
  lemma AllOkJoin(answers: nat -> bool, a: nat, b: nat, c: nat)
    requires a <= b <= c
    ensures AllOk(answers, a, c) <==> AllOk(answers, a, b) && AllOk(answers, b, c)
  {
  }

  /** Backpressure accounting of a queue with capacity `max` since poll
      number polls0: if the outstanding count n0 was within capacity (and
      the capacity is at least 1), the count n still is, and it equals n0
      plus the requests posted since, less the successful completions
      polled since. */
  predicate Accounts(cq: nat -> bool, polls0: nat, polls: nat, n0: nat, n: nat, max: nat, posted: nat)
    requires polls0 <= polls
  {
    n0 <= max && 1 <= max ==> n <= max && n + CountOk(cq, polls0, polls - polls0) == n0 + posted
  }

  lemma AccountsStep(cq: nat -> bool, polls0: nat, polls1: nat, polls2: nat, n0: nat, n1: nat, n2: nat, max: nat, p: nat, d: nat)
    requires polls0 <= polls1 <= polls2
    requires Accounts(cq, polls0, polls1, n0, n1, max, p)
    requires Accounts(cq, polls1, polls2, n1, n2, max, d)
    ensures Accounts(cq, polls0, polls2, n0, n2, max, p + d)
  {
    CountOkSplit(cq, polls0, polls1 - polls0, polls2 - polls1);
  }

  /** PollCQ: polls `numCqes` completions (the wait for each is not modelled)
      and counts those that report success; a failed poll or an error
      completion is skipped and polling goes on. */
  method PollCQ(cq: nat -> bool, start: nat, numCqes: nat) returns (polled: nat)
    ensures polled == CountOk(cq, start, numCqes)
  {
    polled := 0;
    var i: nat := 0;
    while i < numCqes
      invariant i <= numCqes
      invariant polled == CountOk(cq, start, i)
    {
      if cq(start + i) {
        polled := polled + 1;
      }
      i := i + 1;
    }
  }

  // ---------------------------------------------------------------------
  // Filling one work request.

  lemma SgeLenSnoc(s: seq<Sge>, i: nat)
    requires i < |s|
    ensures SgeLen(s[..i + 1]) == SgeLen(s[..i]) + s[i].length
  {
    assert s[..i + 1] == s[..i] + [s[i]];
    SgeLenAppend(s[..i], [s[i]]);
    assert [s[i]][1..] == [];
  }

  lemma AddrsSnoc(pre: seq<Sge>, x: Sge)
    ensures Addrs(pre + [x]) == Addrs(pre) + Span(x)
  {
    AddrsAppend(pre, [x]);
    SingletonAddrs(x);
  }

  lemma AddrsCons(x: Sge, post: seq<Sge>)
    ensures Addrs([x] + post) == Span(x) + Addrs(post)
  {
    assert ([x] + post)[1..] == post;
  }

  /** Cutting entry e after c bytes and resuming the list with the rest of
      it describes the same byte stream. */
  lemma CutCovers(pre: seq<Sge>, e: Sge, c: nat, post: seq<Sge>)
    requires c <= e.length
    ensures Addrs(pre + [Sge(e.addr, c, e.lkey)]) + Addrs([Sge(e.addr + c, e.length - c, e.lkey)] + post)
         == Addrs(pre + [e] + post)
  {
    var a, b := Sge(e.addr, c, e.lkey), Sge(e.addr + c, e.length - c, e.lkey);
    AddrsSnoc(pre, a);
    AddrsCons(b, post);
    AddrsAppend(pre + [e], post);
    AddrsSnoc(pre, e);
    SpanCut(e, c);
  }

  /** The inner loop of PostSend/PostRecv over the window
      sgl[offset..offset + count]: entries are added while their running
      total stays within maxMsg. The first entry that would exceed it is cut
      in place to the bytes that still fit, and `k` is its index in the
      window; `rem` is the part of it left over. Without a cut `k` is
      `count`. `sending` is the request's byte total. */
  method PackWr(sgl: array<Sge>, offset: nat, count: nat, maxMsg: nat) returns (k: nat, cut: bool, rem: nat, sending: nat)
    requires offset + count <= sgl.Length
    modifies sgl
    ensures k <= count
    ensures !cut ==>
              && k == count && rem == 0
              && sending == SgeLen(old(sgl[offset..offset + count])) <= maxMsg
              && sgl[..] == old(sgl[..])
    ensures cut ==>
              && k < count && sending == maxMsg
              && SgeLen(old(sgl[offset..offset + k])) <= maxMsg
              && SgeLen(old(sgl[offset..offset + k])) + old(sgl[offset + k]).length > maxMsg
              && rem == old(sgl[offset + k]).length - (maxMsg - SgeLen(old(sgl[offset..offset + k])))
              && rem > 0
              && sgl[..] == old(sgl[..])[offset + k := old(sgl[offset + k]).(length := maxMsg - SgeLen(old(sgl[offset..offset + k])))]
  {
    ghost var w := sgl[offset..offset + count];
    sending := 0;
    var i: nat := 0;
    while i < count
      invariant i <= count
      invariant sgl[..] == old(sgl[..])
      invariant sending == SgeLen(w[..i]) <= maxMsg
    {
      assert w[..i] == sgl[offset..offset + i];
      if sending + sgl[offset + i].length > maxMsg {
        rem := sgl[offset + i].length - (maxMsg - sending);
        sgl[offset + i] := sgl[offset + i].(length := maxMsg - sending);
        sending := maxMsg;
        k, cut := i, true;
        return;
      }
      SgeLenSnoc(w, i);
      sending := sending + sgl[offset + i].length;
      i := i + 1;
    }
    assert w[..i] == w;
    k, cut, rem := count, false, 0;
  }

  /** One request filled by PackWr, followed by the list from the new offset
      (the cut entry's remainder, then the untouched entries), describes
      what the list from the old offset described. */
  lemma StepCovers(before: seq<Sge>, after: seq<Sge>, offset: nat, k: nat, cut: bool, rem: nat, wrSges: seq<Sge>)
    requires offset + k <= |before|
    requires !cut ==> wrSges == before[offset..offset + k] && after == before
    requires cut ==>
               && offset + k < |before| && rem <= before[offset + k].length
               && wrSges == before[offset..offset + k] + [before[offset + k].(length := before[offset + k].length - rem)]
               && offset + k <= |after|
               && after[offset + k..] == [Sge(before[offset + k].addr + (before[offset + k].length - rem), rem, before[offset + k].lkey)]
                                         + before[offset + k + 1..]
    ensures offset + k <= |after|
    ensures Addrs(wrSges) + Addrs(after[offset + k..]) == Addrs(before[offset..])
    ensures cut ==> SgeLen(wrSges) == SgeLen(before[offset..offset + k]) + (before[offset + k].length - rem)
  {
    if cut {
      var pre, e, post := before[offset..offset + k], before[offset + k], before[offset + k + 1..];
      assert before[offset..] == pre + [e] + post;
      CutCovers(pre, e, e.length - rem, post);
      SgeLenAppend(pre, [e.(length := e.length - rem)]);
      assert [e.(length := e.length - rem)][1..] == [];
    } else {
      assert before[offset..] == before[offset..offset + k] + before[offset + k..];
      AddrsAppend(before[offset..offset + k], before[offset + k..]);
    }
  }

  lemma SendWrsOkSnoc(wrs: seq<SendWr>, w: SendWr, opcode: Opcode, raddr0: nat, rkey: nat, maxSge: nat, maxMsg: nat, maxInline: nat)
    requires SendWrsOk(wrs, opcode, raddr0, rkey, maxSge, maxMsg, maxInline)
    requires WithinLimits(w.sges, w.cut, maxSge, maxMsg)
    requires w.opcode == opcode
    requires w.inline == (opcode != WrRdmaRead && SgeLen(w.sges) <= maxInline)
    requires w.raddr == (if opcode == WrSend then 0 else raddr0 + RemoteAdvance(wrs))
    requires w.rkey == (if opcode == WrSend then 0 else rkey)
    ensures SendWrsOk(wrs + [w], opcode, raddr0, rkey, maxSge, maxMsg, maxInline)
  {
    forall j | 0 <= j < |wrs| + 1
      ensures (wrs + [w])[..j] == (if j < |wrs| then wrs[..j] else wrs)
    {
    }
  }

  lemma RecvWrsOkSnoc(wrs: seq<RecvWr>, w: RecvWr, maxSge: nat, maxMsg: nat)
    requires RecvWrsOk(wrs, maxSge, maxMsg)
    requires WithinLimits(w.sges, w.cut, maxSge, maxMsg)
    ensures RecvWrsOk(wrs + [w], maxSge, maxMsg)
  {
  }

  /** PackWr on the window of min(remaining, maxSge) entries at `offset`,
      with the request's entry list `sges`: the entries before the cut entry
      and, after a cut, the cut entry itself. Together with the remainder
      `rem` of the cut entry, carried forward by CarryRemainder, the request
      and the rest of the list describe the old stream. */
  method FillRequest(sgl: array<Sge>, offset: nat, maxSge: nat, maxMsg: nat)
    returns (k: nat, cut: bool, rem: nat, sending: nat, ghost sges: seq<Sge>)
    requires offset < sgl.Length && 1 <= maxSge && 1 <= maxMsg
    modifies sgl
    ensures offset + k <= sgl.Length
    ensures k > 0 || cut
    ensures WithinLimits(sges, cut, maxSge, maxMsg)
    ensures SgeLen(sges) == sending
    ensures cut <==> rem != 0
    ensures sgl.Length == offset + 1 ==> |sges| == 1 && (k == 0 <==> cut)
    ensures !cut ==>
              && sgl[..] == old(sgl[..])
              && Addrs(sges) + Addrs(sgl[offset + k..]) == Addrs(old(sgl[offset..]))
    ensures cut ==>
              && offset + k < sgl.Length
              && sgl[..] == old(sgl[..])[offset + k := sgl[offset + k]]
              && rem <= old(sgl[offset + k]).length
              && sgl[offset + k] == old(sgl[offset + k]).(length := old(sgl[offset + k]).length - rem)
              && sgl[offset + k].length + rem == old(sgl[offset + k]).length
              && sges[|sges| - 1] == sgl[offset + k]
              && Addrs(sges) + Addrs([Sge(sgl[offset + k].addr + sgl[offset + k].length, rem, sgl[offset + k].lkey)]
                                     + old(sgl[offset + k + 1..]))
                 == Addrs(old(sgl[offset..]))
    ensures cut && k == 0 ==> rem < old(sgl[offset].length)
    ensures sgl.Length == offset + 1 && old(sgl[offset]).length <= maxMsg ==> !cut && k == 1
  {
    ghost var before := sgl[..];
    var count := Min(sgl.Length - offset, maxSge);
    k, cut, rem, sending := PackWr(sgl, offset, count, maxMsg);
    if cut {
      sges := sgl[offset..offset + k + 1];
      assert before[offset..offset + k] == old(sgl[offset..offset + k]);
      assert before[offset + k + 1..] == old(sgl[offset + k + 1..]);
      assert before[offset..] == old(sgl[offset..]);
      FilledCut(before, sgl[..], offset, count, k, rem, maxSge, maxMsg, sges);
    } else {
      sges := sgl[offset..offset + k];
      assert before[offset..offset + count] == old(sgl[offset..offset + count]);
      assert before[offset..] == old(sgl[offset..]) && sgl[offset + k..] == before[offset + k..];
      FilledWhole(before, offset, count, sending, maxSge, maxMsg, sges);
    }
  }

  /** What FillRequest's call of PackWr leaves when it took all `count`
      entries whole: the request obeys the limits, carries `sending` bytes
      and, with the rest of the list, describes the old stream. */
  lemma FilledWhole(before: seq<Sge>, offset: nat, count: nat, sending: nat, maxSge: nat, maxMsg: nat, sges: seq<Sge>)
    requires offset < |before| && 1 <= maxSge
    requires count == Min(|before| - offset, maxSge)
    requires sending == SgeLen(before[offset..offset + count]) <= maxMsg
    requires sges == before[offset..offset + count]
    ensures count > 0
    ensures WithinLimits(sges, false, maxSge, maxMsg)
    ensures SgeLen(sges) == sending
    ensures |before| == offset + 1 ==> |sges| == 1
    ensures Addrs(sges) + Addrs(before[offset + count..]) == Addrs(before[offset..])
  {
    StepCovers(before, before, offset, count, false, 0, sges);
  }

  /** What FillRequest's call of PackWr leaves when it cut the entry after
      the first `k`: the request holds exactly maxMsg bytes, and with the
      remainder of the cut entry and the rest of the list describes the old
      stream. */
  lemma FilledCut(before: seq<Sge>, after: seq<Sge>, offset: nat, count: nat, k: nat, rem: nat, maxSge: nat, maxMsg: nat,
                  sges: seq<Sge>)
    requires offset < |before| == |after| && 1 <= maxMsg
    requires count == Min(|before| - offset, maxSge) && k < count
    requires SgeLen(before[offset..offset + k]) <= maxMsg
    requires rem == before[offset + k].length - (maxMsg - SgeLen(before[offset..offset + k])) && rem > 0
    requires after == before[offset + k := before[offset + k].(length := maxMsg - SgeLen(before[offset..offset + k]))]
    requires sges == after[offset..offset + k + 1]
    ensures WithinLimits(sges, true, maxSge, maxMsg)
    ensures |after| == offset + 1 ==> |sges| == 1 && k == 0
    ensures rem <= before[offset + k].length
    ensures k == 0 ==> rem < before[offset].length
    ensures after[offset + k] == before[offset + k].(length := before[offset + k].length - rem)
    ensures sges[|sges| - 1] == after[offset + k]
    ensures SgeLen(sges) == maxMsg
    ensures Addrs(sges) + Addrs([Sge(after[offset + k].addr + after[offset + k].length, rem, after[offset + k].lkey)]
                                + before[offset + k + 1..])
            == Addrs(before[offset..])
  {
    CutCovered(before, after, offset, k, rem, maxMsg, sges);
  }

  /** The bytes of a cut request and of the remainder of its cut entry. */
  lemma CutCovered(before: seq<Sge>, after: seq<Sge>, offset: nat, k: nat, rem: nat, maxMsg: nat, sges: seq<Sge>)
    requires offset + k < |before| == |after|
    requires SgeLen(before[offset..offset + k]) <= maxMsg
    requires rem == before[offset + k].length - (maxMsg - SgeLen(before[offset..offset + k])) && rem > 0
    requires after == before[offset + k := before[offset + k].(length := maxMsg - SgeLen(before[offset..offset + k]))]
    requires sges == after[offset..offset + k + 1]
    ensures after[offset + k] == before[offset + k].(length := before[offset + k].length - rem)
    ensures sges[|sges| - 1] == after[offset + k]
    ensures SgeLen(sges) == maxMsg
    ensures Addrs(sges) + Addrs([Sge(after[offset + k].addr + after[offset + k].length, rem, after[offset + k].lkey)]
                                + before[offset + k + 1..])
            == Addrs(before[offset..])
  {
    var e := before[offset + k];
    var r := Sge(e.addr + (e.length - rem), rem, e.lkey);
    assert after[offset..offset + k] == before[offset..offset + k];
    assert sges == before[offset..offset + k] + [e.(length := e.length - rem)];
    assert Sge(after[offset + k].addr + after[offset + k].length, rem, after[offset + k].lkey) == r;
    ghost var moved := before[offset + k := r];
    assert moved[offset + k..] == [r] + before[offset + k + 1..];
    StepCovers(before, moved, offset, k, true, rem, sges);
  }

  /** The tail of PostSend/PostRecv's loop after a cut: the cut entry
      becomes its remainder, starting where the cut part ended. */
  method CarryRemainder(sgl: array<Sge>, i: nat, rem: nat)
    requires i < sgl.Length
    modifies sgl
    ensures sgl[..] == old(sgl[..])[i := Sge(old(sgl[i]).addr + old(sgl[i]).length, rem, old(sgl[i]).lkey)]
    ensures sgl[i..] == [sgl[i]] + old(sgl[i + 1..])
  {
    sgl[i] := Sge(sgl[i].addr + sgl[i].length, rem, sgl[i].lkey);
  }

  /** The loop invariant of PostSend after the requests `wrs`: they obey the
      limits, the remote address is raddr0 moved by their cuts, and they
      followed by the unsent entries `rest` describe the original list
      `orig`. For a single-entry list (`single`) all requests but the last
      were cut, and the last too while the offset is still 0 (`atStart`). */
  ghost predicate SendProgress(wrs: seq<SendWr>, orig: seq<Sge>, rest: seq<Sge>, raddr: nat,
                               opcode: Opcode, raddr0: nat, rkey: nat, maxSge: nat, maxMsg: nat, maxInline: nat,
                               single: bool, atStart: bool)
  {
    && SendWrsOk(wrs, opcode, raddr0, rkey, maxSge, maxMsg, maxInline)
    && raddr == raddr0 + RemoteAdvance(wrs)
    && Addrs(SendStream(wrs)) + Addrs(rest) == Addrs(orig)
    && Addrs(SendStream(wrs)) <= Addrs(orig)
    && (single ==> SingleCuts(SendCuts(wrs), SendSizes(wrs)) && (atStart && wrs != [] ==> wrs[|wrs| - 1].cut))
  }

  lemma SendProgressStart(orig: seq<Sge>, opcode: Opcode, raddr0: nat, rkey: nat, maxSge: nat, maxMsg: nat, maxInline: nat, single: bool)
    ensures SendProgress([], orig, orig, raddr0, opcode, raddr0, rkey, maxSge, maxMsg, maxInline, single, true)
  {
  }

  /** One more posted request keeps the invariant. */
  lemma SendProgressSnoc(wrs: seq<SendWr>, wr: SendWr, orig: seq<Sge>, rest: seq<Sge>, rest': seq<Sge>,
                         raddr: nat, next: nat, opcode: Opcode, raddr0: nat, rkey: nat,
                         maxSge: nat, maxMsg: nat, maxInline: nat, single: bool, atStart: bool, atStart': bool)
    requires SendProgress(wrs, orig, rest, raddr, opcode, raddr0, rkey, maxSge, maxMsg, maxInline, single, atStart)
    requires WithinLimits(wr.sges, wr.cut, maxSge, maxMsg)
    requires wr.opcode == opcode
    requires wr.inline == (opcode != WrRdmaRead && SgeLen(wr.sges) <= maxInline)
    requires wr.raddr == (if opcode == WrSend then 0 else raddr)
    requires wr.rkey == (if opcode == WrSend then 0 else rkey)
    requires next == raddr + (if wr.cut && wr.sges != [] then wr.sges[|wr.sges| - 1].length else 0)
    requires Addrs(wr.sges) + Addrs(rest') == Addrs(rest)
    requires single ==> atStart && |wr.sges| == 1 && (atStart' <==> wr.cut)
    ensures SendProgress(wrs + [wr], orig, rest', next, opcode, raddr0, rkey, maxSge, maxMsg, maxInline, single, atStart')
  {
    SendStreamSnoc(wrs, wr);
    AddrsAppend(SendStream(wrs), wr.sges);
    StreamStep(Addrs(SendStream(wrs)), Addrs(wr.sges), Addrs(orig), Addrs(rest), Addrs(rest'));
    SendWrsOkSnoc(wrs, wr, opcode, raddr0, rkey, maxSge, maxMsg, maxInline);
    if single {
      SingleCutsSnoc(wrs, wr);
    }
  }

  /** A single-entry request after requests that each carried one entry and
      ended in a cut keeps every request at one entry, cut but the last. */
  lemma SingleCutsSnoc(wrs: seq<SendWr>, wr: SendWr)
    requires SingleCuts(SendCuts(wrs), SendSizes(wrs))
    requires wrs != [] ==> wrs[|wrs| - 1].cut
    requires |wr.sges| == 1
    ensures SingleCuts(SendCuts(wrs + [wr]), SendSizes(wrs + [wr]))
  {
    var wrs' := wrs + [wr];
    forall j | 0 <= j < |wrs'|
      ensures SendSizes(wrs')[j] == 1 && (j < |wrs'| - 1 ==> SendCuts(wrs')[j])
    {
      if j < |wrs| {
        assert wrs'[j] == wrs[j];
        assert SendSizes(wrs)[j] == 1;
        if j < |wrs| - 1 {
          assert SendCuts(wrs)[j];
        }
      }
    }
  }

  /** The loop invariant of PostRecv after the requests `wrs`. */
  ghost predicate RecvProgress(wrs: seq<RecvWr>, orig: seq<Sge>, rest: seq<Sge>, maxSge: nat, maxMsg: nat)
  {
    && RecvWrsOk(wrs, maxSge, maxMsg)
    && Addrs(RecvStream(wrs)) + Addrs(rest) == Addrs(orig)
    && Addrs(RecvStream(wrs)) <= Addrs(orig)
  }

  lemma RecvProgressSnoc(wrs: seq<RecvWr>, wr: RecvWr, orig: seq<Sge>, rest: seq<Sge>, rest': seq<Sge>, maxSge: nat, maxMsg: nat)
    requires RecvProgress(wrs, orig, rest, maxSge, maxMsg)
    requires WithinLimits(wr.sges, wr.cut, maxSge, maxMsg)
    requires Addrs(wr.sges) + Addrs(rest') == Addrs(rest)
    ensures RecvProgress(wrs + [wr], orig, rest', maxSge, maxMsg)
  {
    RecvStreamSnoc(wrs, wr);
    AddrsAppend(RecvStream(wrs), wr.sges);
    StreamStep(Addrs(RecvStream(wrs)), Addrs(wr.sges), Addrs(orig), Addrs(rest), Addrs(rest'));
    RecvWrsOkSnoc(wrs, wr, maxSge, maxMsg);
  }

  /** What PostSend's loop leaves: the posted requests are well formed and
      carry a prefix of the list's bytes, all of them once nothing is left. */
  lemma SendProgressDone(wrs: seq<SendWr>, orig: seq<Sge>, rest: seq<Sge>, raddr: nat,
                         opcode: Opcode, raddr0: nat, rkey: nat, maxSge: nat, maxMsg: nat, maxInline: nat,
                         single: bool, atStart: bool)
    requires SendProgress(wrs, orig, rest, raddr, opcode, raddr0, rkey, maxSge, maxMsg, maxInline, single, atStart)
    ensures SendWrsOk(wrs, opcode, raddr0, rkey, maxSge, maxMsg, maxInline)
    ensures Addrs(SendStream(wrs)) <= Addrs(orig)
    ensures rest == [] ==> Addrs(SendStream(wrs)) == Addrs(orig)
    ensures single ==> SingleCuts(SendCuts(wrs), SendSizes(wrs))
  {
    if rest == [] {
      assert Addrs(SendStream(wrs)) + [] == Addrs(SendStream(wrs));
    }
  }

  /** What PostRecv's loop leaves: the posted requests carry a prefix of
      the list's bytes, all of them once nothing is left. */
  lemma RecvProgressDone(wrs: seq<RecvWr>, orig: seq<Sge>, rest: seq<Sge>, maxSge: nat, maxMsg: nat)
    requires RecvProgress(wrs, orig, rest, maxSge, maxMsg)
    ensures RecvWrsOk(wrs, maxSge, maxMsg)
    ensures Addrs(RecvStream(wrs)) <= Addrs(orig)
    ensures rest == [] ==> Addrs(RecvStream(wrs)) == Addrs(orig)
  {
    if rest == [] {
      assert Addrs(RecvStream(wrs)) + [] == Addrs(RecvStream(wrs));
    }
  }

  /** Moving one request's bytes from the rest of the list to the posted
      stream keeps the two, together, the original list's bytes. */
  lemma StreamStep(done: seq<nat>, w: seq<nat>, orig: seq<nat>, rest: seq<nat>, rest': seq<nat>)
    requires done + rest == orig
    requires w + rest' == rest
    ensures (done + w) + rest' == orig
    ensures done + w <= orig
  {
    assert (done + w) + rest' == done + (w + rest');
  }
}
