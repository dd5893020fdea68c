/** The libfabric endpoint shared by every libfabric channel: a table of
    completion contexts, each counting its outstanding requests (`wr`) and
    the completions credited to it so far (`comp`); the posting calls, which
    split long vectors into several posts; and the completion-queue polling
    that credits each completion to the context it names.

    libfabric itself is an oracle. `posts` answers the k-th OFI_POST: how
    many times the fi_* call returns -FI_EAGAIN before its final answer, and
    whether that answer is success. `mrReg` answers fi_mr_reg. The two
    completion queues are the sequences of answers fi_cq_read (and, after
    -FI_EAVAIL, fi_cq_readerr) will give, consumed front first. Requests
    posted successfully are recorded in the ghost log `posted`. */
module OfiEndpoints {
  import opened Common
  import opened ScatterGather

  // Access bits of fi_mr_reg (libfabric's fabric.h).
  const FI_READ: bv64 := 0x100
  const FI_WRITE: bv64 := 0x200
  const FI_RECV: bv64 := 0x400
  const FI_SEND: bv64 := 0x800
  const FI_REMOTE_READ: bv64 := 0x1000
  const FI_REMOTE_WRITE: bv64 := 0x2000

  /** The tag of eager messages (TagType::TAG_MSG); tag 0 means untagged. */
  const TAG_MSG: nat := 0

  /** Access requested for the library's flags `t`: local send, receive,
      read and write always, remote read and write only when asked for. */
  function OfiAccess(t: bv32): (a: bv64)
    ensures a & (FI_SEND | FI_RECV | FI_WRITE | FI_READ) == FI_SEND | FI_RECV | FI_WRITE | FI_READ
    ensures (a & FI_REMOTE_READ != 0) <==> (t & MR_REMOTE_READ != 0)
    ensures (a & FI_REMOTE_WRITE != 0) <==> (t & MR_REMOTE_WRITE != 0)
    ensures a & !(FI_SEND | FI_RECV | FI_WRITE | FI_READ | FI_REMOTE_READ | FI_REMOTE_WRITE) == 0
  {
    var a0 := FI_SEND | FI_RECV | FI_WRITE | FI_READ;
    var a1 := if t & MR_REMOTE_READ != 0 then a0 | FI_REMOTE_READ else a0;
    if t & MR_REMOTE_WRITE != 0 then a1 | FI_REMOTE_WRITE else a1
  }

  /** A registered region (OFILocalMemoryRegion): the range, the local
      descriptor (fi_mr_desc) and the remote key (fi_mr_key). */
  datatype OfiLocalMemoryRegion = OfiLocalMemoryRegion(addr: nat, length: nat, desc: nat, key: nat)
  {
    function GetAddr(): nat { addr }

    function GetLength(): nat { length }

    function GetLKey(): nat { desc }

    function GetRKey(): nat { key }
  }

  /** A call of fi_mr_reg, with the key the endpoint asks for. */
  datatype MrRequest = MrRequest(addr: nat, length: nat, access: bv64, requestedKey: nat)

  /** What fi_mr_reg did: failed, or registered with this descriptor and key. */
  datatype MrOutcome = MrFailed | MrRegistered(desc: nat, key: nat)

  /** The counters of one context (struct ofi_context). */
  datatype OfiContext = OfiContext(wr: nat, comp: nat)

  /** One answer of the completion queue:
      `CqEntry`: fi_cq_read returned a completion of context `ctx`;
      `CqErrEntry`: it returned -FI_EAVAIL and fi_cq_readerr returned the
      failed completion of `ctx`; `CqErrLost`: -FI_EAVAIL, and fi_cq_readerr
      failed; `CqEmpty`: nothing to read (-FI_EAGAIN); `CqFailed`: any other
      error. */
  datatype CqRead = CqEntry(ctx: nat) | CqErrEntry(ctx: nat) | CqErrLost | CqEmpty | CqFailed

  /** The answers that end a poll early. */
  predicate Stops(r: CqRead)
  {
    r.CqErrLost? || r.CqFailed?
  }

  /** Whether the answer is a completion (successful or not) of context id. */
  predicate Names(r: CqRead, id: nat)
  {
    (r.CqEntry? || r.CqErrEntry?) && r.ctx == id
  }

  /** The contexts after one answer: a completion adds one to the comp of
      the context it names, whichever context is polling. */
  function Credit(ctxs: map<nat, OfiContext>, r: CqRead): map<nat, OfiContext>
  {
    if (r.CqEntry? || r.CqErrEntry?) && r.ctx in ctxs then ctxs[r.ctx := ctxs[r.ctx].(comp := ctxs[r.ctx].comp + 1)]
    else ctxs
  }

  /** The contexts after a series of answers. */
  function Credited(ctxs: map<nat, OfiContext>, answers: seq<CqRead>): map<nat, OfiContext>
  {
    if answers == [] then ctxs else Credit(Credited(ctxs, answers[..|answers| - 1]), answers[|answers| - 1])
  }

  /** The number of completions of context id among the answers. */
  function Completions(answers: seq<CqRead>, id: nat): nat
  {
    if answers == [] then 0
    else Completions(answers[..|answers| - 1], id) + (if Names(answers[|answers| - 1], id) then 1 else 0)
  }

  /** The comp of context id, 0 if it is not registered. */
  function CompOf(ctxs: map<nat, OfiContext>, id: nat): nat
  {
    if id in ctxs then ctxs[id].comp else 0
  }

  /** Crediting changes no context's wr and no context's presence, and adds
      to every context exactly its own completions: none is lost to the
      context that happened to be polling. */
  lemma {:induction false} CreditedCounts(ctxs: map<nat, OfiContext>, answers: seq<CqRead>)
    ensures Credited(ctxs, answers).Keys == ctxs.Keys
    ensures forall id :: id in ctxs ==>
              Credited(ctxs, answers)[id] == ctxs[id].(comp := ctxs[id].comp + Completions(answers, id))
    decreases |answers|
  {
    if answers != [] {
      CreditedCounts(ctxs, answers[..|answers| - 1]);
    }
  }

  lemma CreditedSnoc(ctxs: map<nat, OfiContext>, q: seq<CqRead>, k: nat)
    requires k < |q|
    ensures Credited(ctxs, q[..k + 1]) == Credit(Credited(ctxs, q[..k]), q[k])
  {
    assert q[..k + 1][..k] == q[..k];
  }

  /** The poll loop went through the answers q[..k]: before each one the
      polling context had fewer than `count` completions, and none of them
      ended the poll. */
  ghost predicate Polled(ctxs: map<nat, OfiContext>, q: seq<CqRead>, id: nat, count: nat, k: nat)
  {
    && k <= |q|
    && forall j :: 0 <= j < k ==> CompOf(Credited(ctxs, q[..j]), id) < count && !Stops(q[j])
  }

  /** PollCQ consumed exactly q[..k]: it read while the polling context had
      fewer than `count` completions, and stopped at the first of: reaching
      the count, an answer that ends the poll (which is consumed), or the end
      of the answers. */
  ghost predicate PollRan(ctxs: map<nat, OfiContext>, q: seq<CqRead>, id: nat, count: nat, k: nat)
  {
    || (Polled(ctxs, q, id, count, k) && (CompOf(Credited(ctxs, q[..k]), id) >= count || k == |q|))
    || (0 < k <= |q| && Polled(ctxs, q, id, count, k - 1) && CompOf(Credited(ctxs, q[..k - 1]), id) < count && Stops(q[k - 1]))
  }

  /** The answers a poll consumes are determined by the queue, the contexts
      and the count. */
  lemma {:induction false} PollRanUnique(ctxs: map<nat, OfiContext>, q: seq<CqRead>, id: nat, count: nat, k1: nat, k2: nat)
    requires PollRan(ctxs, q, id, count, k1)
    requires PollRan(ctxs, q, id, count, k2)
    ensures k1 == k2
  {
    if k1 < k2 {
      PolledBefore(ctxs, q, id, count, k1, k2);
    } else if k2 < k1 {
      PolledBefore(ctxs, q, id, count, k2, k1);
    }
  }

  /** A poll that went on past k answers did not stop at k. */
  lemma PolledBefore(ctxs: map<nat, OfiContext>, q: seq<CqRead>, id: nat, count: nat, k1: nat, k2: nat)
    requires k1 < k2
    requires PollRan(ctxs, q, id, count, k2)
    ensures !PollRan(ctxs, q, id, count, k1)
  {
    if Polled(ctxs, q, id, count, k2) {
      assert CompOf(Credited(ctxs, q[..k1]), id) < count;
      if 0 < k1 {
        assert !Stops(q[k1 - 1]);
      }
    } else {
      assert Polled(ctxs, q, id, count, k2 - 1);
      assert CompOf(Credited(ctxs, q[..k1]), id) < count;
      if 0 < k1 {
        assert !Stops(q[k1 - 1]);
      }
    }
  }

  /** How many posts a vector of n entries takes, at most `max` per post
      (the ceiling of n / max), as bounds: (c - 1) * max < n <= c * max. */
  ghost predicate ChunkCount(c: nat, n: nat, max: nat)
  {
    if n == 0 then c == 0 else (c - 1) * max < n <= c * max
  }

  /** The kinds of request: fi_send/fi_sendv, fi_tsend, fi_recv/fi_recvv,
      fi_trecv, fi_writemsg and fi_readmsg. */
  datatype OpKind = OpSend | OpTSend | OpRecv | OpTRecv | OpWrite | OpRead

  /** A remote iovec (struct fi_rma_iov): offset, length and key. */
  datatype RmaIov = RmaIov(addr: nat, len: nat, key: nat)

  /** A request posted on behalf of context `ctx` to (or from) `peer`. */
  datatype OfiOp = OfiOp(kind: OpKind, ctx: nat, peer: nat, tag: nat, iov: seq<Sge>, rma: seq<RmaIov>)

  predicate IsRma(kind: OpKind)
  {
    kind.OpWrite? || kind.OpRead?
  }

  /** The local entries of the requests, one request after the other. */
  function IovOf(ops: seq<OfiOp>): seq<Sge>
  {
    if ops == [] then [] else IovOf(ops[..|ops| - 1]) + ops[|ops| - 1].iov
  }

  /** The remote entries of the requests, one request after the other. */
  function RmaOf(ops: seq<OfiOp>): seq<RmaIov>
  {
    if ops == [] then [] else RmaOf(ops[..|ops| - 1]) + ops[|ops| - 1].rma
  }

  /** Requests of a vector post: all of kind `kind` on context `id` to
      `peer`, untagged, each with 1 to `max` entries (as many remote as local
      ones for RMA), every one but the last with exactly `max`. */
  ghost predicate Chunked(ops: seq<OfiOp>, kind: OpKind, id: nat, peer: nat, max: nat)
  {
    forall j :: 0 <= j < |ops| ==>
      && ops[j].kind == kind && ops[j].ctx == id && ops[j].peer == peer && ops[j].tag == 0
      && 1 <= |ops[j].iov| <= max
      && |ops[j].rma| == (if IsRma(kind) then |ops[j].iov| else 0)
      && (j < |ops| - 1 ==> |ops[j].iov| == max)
  }

  /** The first c - 1 requests of a vector post are full, the last holds the
      rest: the posts number the ceiling of the entries over `max`. */
  lemma {:induction false} ChunkedCount(ops: seq<OfiOp>, kind: OpKind, id: nat, peer: nat, max: nat)
    requires Chunked(ops, kind, id, peer, max)
    ensures ChunkCount(|ops|, |IovOf(ops)|, max)
    decreases |ops|
  {
    if ops != [] {
      var init := ops[..|ops| - 1];
      var last := ops[|ops| - 1];
      assert Chunked(init, kind, id, peer, max) by {
        forall j | 0 <= j < |init|
          ensures |init[j].iov| == max
        {
          assert init[j] == ops[j];
        }
      }
      FullChunks(init, kind, id, peer, max);
      assert |IovOf(ops)| == |init| * max + |last.iov|;
      assert (|ops| - 1) * max == |init| * max;
      assert |ops| * max == |init| * max + max;
    }
  }

  /** Requests that are all full hold `max` entries each. */
  lemma {:induction false} FullChunks(ops: seq<OfiOp>, kind: OpKind, id: nat, peer: nat, max: nat)
    requires forall j :: 0 <= j < |ops| ==> |ops[j].iov| == max
    ensures |IovOf(ops)| == |ops| * max
    decreases |ops|
  {
    if ops != [] {
      var init := ops[..|ops| - 1];
      assert forall j :: 0 <= j < |init| ==> init[j] == ops[j];
      FullChunks(init, kind, id, peer, max);
      assert |ops| * max == |init| * max + max;
    }
  }

  /** A slice of a vector send or receive as the two-array interface of
      fi_sendv/fi_recvv receives it when the entries are advanced to
      `offset` but the descriptor array is passed from its head: entry j
      carries the region of iov[offset + j] with the descriptor of iov[j]. */
  function SliceAsWritten(iov: seq<Sge>, offset: nat, num: nat): seq<Sge>
    requires offset + num <= |iov|
  {
    seq(num, j requires 0 <= j < num => Sge(iov[offset + j].addr, iov[offset + j].length, iov[j].lkey))
  }

  /** Such a slice is the intended one, every entry with its own
      descriptor, exactly when the first `num` descriptors repeat the ones
      at `offset` (always for the first slice, offset 0). */
  lemma SliceAsWrittenExact(iov: seq<Sge>, offset: nat, num: nat)
    requires offset + num <= |iov|
    ensures SliceAsWritten(iov, offset, num) == iov[offset..offset + num]
            <==> forall j :: 0 <= j < num ==> iov[j].lkey == iov[offset + j].lkey
  {
    var s := SliceAsWritten(iov, offset, num);
    var t := iov[offset..offset + num];
    if forall j :: 0 <= j < num ==> iov[j].lkey == iov[offset + j].lkey {
      forall j | 0 <= j < num
        ensures s[j] == t[j]
      {
        assert iov[j].lkey == iov[offset + j].lkey;
      }
      assert s == t;
    } else {
      var j :| 0 <= j < num && iov[j].lkey != iov[offset + j].lkey;
      assert s[j].lkey == iov[j].lkey;
      assert t[j] == iov[offset + j];
    }
  }

  /** Two entries in two registered regions, one entry per post: the second
      post sends the second region under the first region's descriptor. */
  lemma SliceAsWrittenWrongDescriptor()
    ensures var iov := [Sge(0, 1, 7), Sge(8, 1, 9)];
            && SliceAsWritten(iov, 1, 1) == [Sge(8, 1, 7)]
            && SliceAsWritten(iov, 1, 1) != iov[1..2]
  {
    var iov := [Sge(0, 1, 7), Sge(8, 1, 9)];
    assert SliceAsWritten(iov, 1, 1)[0].lkey == 7 != iov[1..2][0].lkey;
  }

  lemma OfSnoc(ops: seq<OfiOp>, op: OfiOp)
    ensures IovOf(ops + [op]) == IovOf(ops) + op.iov
    ensures RmaOf(ops + [op]) == RmaOf(ops) + op.rma
  {
    assert (ops + [op])[..|ops|] == ops;
  }

  /** What OFI_POST answered on the calls numbered from..to-1 had no
      -FI_EAGAIN, so no post polled. */
  ghost predicate NoRetry(posts: nat -> PostOutcome, from: nat, to: nat)
  {
    forall c :: from <= c < to ==> posts(c).eagains == 0
  }

  lemma NoRetrySnoc(posts: nat -> PostOutcome, from: nat, to: nat)
    requires from <= to
    ensures NoRetry(posts, from, to + 1) <==> NoRetry(posts, from, to) && posts(to).eagains == 0
  {
  }

  /** The answers of one OFI_POST: `eagains` times -FI_EAGAIN, then success
      or another error. */
  datatype PostOutcome = PostOutcome(eagains: nat, ok: bool)

  /** The contexts after k more requests of context id were posted. */
  function Bumped(ctxs: map<nat, OfiContext>, id: nat, k: nat): map<nat, OfiContext>
    requires id in ctxs
  {
    ctxs[id := ctxs[id].(wr := Wrap64(ctxs[id].wr + k))]
  }

  lemma BumpedNone(ctxs: map<nat, OfiContext>, id: nat, next: nat)
    requires CtxOk(ctxs, next) && id in ctxs
    ensures Bumped(ctxs, id, 0) == ctxs
  {
  }

  /** One post after k posts is k + 1 posts, in 64-bit arithmetic. */
  lemma BumpedTwice(ctxs: map<nat, OfiContext>, id: nat, k: nat)
    requires id in ctxs
    ensures Bumped(Bumped(ctxs, id, k), id, 1) == Bumped(ctxs, id, k + 1)
  {
    Wrap64Succ(ctxs[id].wr + k);
  }

  lemma Wrap64Succ(x: nat)
    ensures Wrap64(Wrap64(x) + 1) == Wrap64(x + 1)
  {
    var M := 0x1_0000_0000_0000_0000;
    var r := x % M;
    assert x == (x / M) * M + r;
    assert x + 1 == (x / M) * M + (r + 1);
    if r + 1 == M {
      assert x + 1 == (x / M + 1) * M;
    }
  }

  /** Every registered id was handed out by the counter (below `next`),
      and every wr fits 64 bits. */
  ghost predicate CtxOk(ctxs: map<nat, OfiContext>, next: nat)
  {
    forall id :: id in ctxs ==> id < next && ctxs[id].wr < 0x1_0000_0000_0000_0000
  }

  /** The end of PollCQ for context id after n completions: its wr drops
      by n, in 64-bit arithmetic, and its comp is zeroed. */
  function Settle(ctxs: map<nat, OfiContext>, id: nat, n: nat): map<nat, OfiContext>
    requires id in ctxs
  {
    ctxs[id := OfiContext(Wrap64(ctxs[id].wr - n), 0)]
  }

  /** Settling a context after crediting keeps the table well formed. */
  lemma SettledOk(ctxs: map<nat, OfiContext>, answers: seq<CqRead>, cs: map<nat, OfiContext>, id: nat, next: nat)
    requires CtxOk(ctxs, next) && id in ctxs && cs == Credited(ctxs, answers)
    ensures id in cs && cs[id].comp == ctxs[id].comp + Completions(answers, id)
    ensures Settle(cs, id, cs[id].comp).Keys == ctxs.Keys
    ensures CtxOk(Settle(cs, id, cs[id].comp), next)
  {
    CreditedCounts(ctxs, answers);
  }

  /** PollCQ's read loop: reads answers from q while context id has fewer
      than `count` completions, crediting each completion to the context it
      names, and returns how many answers it consumed and the contexts
      after them. */
  method ReadCq(ctxs: map<nat, OfiContext>, q: seq<CqRead>, id: nat, count: nat) returns (k: nat, cs: map<nat, OfiContext>)
    ensures k <= |q| && PollRan(ctxs, q, id, count, k)
    ensures cs == Credited(ctxs, q[..k])
  {
    cs, k := ctxs, 0;
    assert q[..0] == [];
    while CompOf(cs, id) < count
      invariant Polled(ctxs, q, id, count, k)
      invariant cs == Credited(ctxs, q[..k])
      decreases |q| - k
    {
      if k == |q| {
        break;
      }
      var r := q[k];
      CreditedSnoc(ctxs, q, k);
      k := k + 1;
      if Stops(r) {
        break;
      }
      cs := Credit(cs, r);
    }
  }

  class OfiEndpoint {
    /** max_msg_iov and max_rma_iov. */
    const maxMsgIov: nat
    const maxRmaIov: nat
    /** Whether the provider's data progress is FI_PROGRESS_AUTO. */
    const autoProgress: bool
    const posts: nat -> PostOutcome
    const mrReg: MrRequest -> MrOutcome
    /** Number of OFI_POST invocations so far. */
    var postCalls: nat
    /** The static requested_key counter of RegisterMemoryRegion. */
    var requestedKey: nat
    /** The static ctx_id counter of RegisterContext. */
    var nextCtxId: nat
    /** The registered contexts (ctx_), by id. */
    var ctx: map<nat, OfiContext>
    var txCq: seq<CqRead>
    var rxCq: seq<CqRead>
    ghost var posted: seq<OfiOp>

    /** At least one entry per post, and every registered id was handed out
        by the counter. */
    ghost predicate Valid()
      reads this
    {
      && maxMsgIov >= 1 && maxRmaIov >= 1
      && CtxOk(ctx, nextCtxId)
    }

    /** The endpoint as its constructor leaves it: the message-vector limit
        is the smaller of the transmit and receive iov limits, the RMA limit
        the transmit rma_iov limit; no context, key or post yet. */
    constructor (txIovLimit: nat, rxIovLimit: nat, rmaIovLimit: nat, autoProgress: bool,
                 posts: nat -> PostOutcome, mrReg: MrRequest -> MrOutcome, txCq: seq<CqRead>, rxCq: seq<CqRead>)
      requires txIovLimit >= 1 && rxIovLimit >= 1 && rmaIovLimit >= 1
      ensures Valid()
      ensures maxMsgIov == Min(txIovLimit, rxIovLimit) && maxRmaIov == rmaIovLimit
      ensures this.autoProgress == autoProgress && this.posts == posts && this.mrReg == mrReg
      ensures this.txCq == txCq && this.rxCq == rxCq
      ensures ctx == map[] && postCalls == 0 && requestedKey == 0 && nextCtxId == 0 && posted == []
    {
      maxMsgIov := Min(txIovLimit, rxIovLimit);
      maxRmaIov := rmaIovLimit;
      this.autoProgress := autoProgress;
      this.posts := posts;
      this.mrReg := mrReg;
      this.txCq := txCq;
      this.rxCq := rxCq;
      ctx := map[];
      postCalls, requestedKey, nextCtxId := 0, 0, 0;
      posted := [];
    }

    /** RegisterContext: the context gets the next id, with no outstanding
        request and no completion; the id is new to the table. */
    method RegisterContext() returns (id: nat)
      requires Valid()
      modifies this
      ensures Valid()
      ensures id == old(nextCtxId) && nextCtxId == id + 1
      ensures id !in old(ctx)
      ensures ctx == old(ctx)[id := OfiContext(0, 0)]
      ensures postCalls == old(postCalls) && requestedKey == old(requestedKey) && posted == old(posted)
      ensures txCq == old(txCq) && rxCq == old(rxCq)
    {
      id := nextCtxId;
      nextCtxId := nextCtxId + 1;
      ctx := ctx[id := OfiContext(0, 0)];
    }

    /** DeregisterContext: removes that id and no other. */
    method DeregisterContext(id: nat)
      requires Valid()
      modifies this
      ensures Valid()
      ensures ctx == old(ctx) - {id}
      ensures nextCtxId == old(nextCtxId) && postCalls == old(postCalls) && requestedKey == old(requestedKey)
      ensures posted == old(posted) && txCq == old(txCq) && rxCq == old(rxCq)
    {
      ctx := ctx - {id};
    }

    /** RegisterMemoryRegion: asks fi_mr_reg for the access OfiAccess(t)
        under the next requested key, which advances whether or not the
        registration succeeds; a failure gives null. */
    method RegisterMemoryRegion(addr: nat, len: nat, t: bv32) returns (lmr: Option<OfiLocalMemoryRegion>)
      requires Valid()
      modifies this
      ensures Valid()
      ensures requestedKey == old(requestedKey) + 1
      ensures var outcome := mrReg(MrRequest(addr, len, OfiAccess(t), old(requestedKey)));
        && (lmr.None? <==> outcome.MrFailed?)
        && (lmr.Some? ==> lmr.value == OfiLocalMemoryRegion(addr, len, outcome.desc, outcome.key))
      ensures ctx == old(ctx) && nextCtxId == old(nextCtxId) && postCalls == old(postCalls)
      ensures posted == old(posted) && txCq == old(txCq) && rxCq == old(rxCq)
    {
      var outcome := mrReg(MrRequest(addr, len, OfiAccess(t), requestedKey));
      requestedKey := requestedKey + 1;
      if outcome.MrFailed? {
        lmr := None;
      } else {
        lmr := Some(OfiLocalMemoryRegion(addr, len, outcome.desc, outcome.key));
      }
    }

    /** PollCQ (PollTxCQ when `tx`, PollRxCQ otherwise): reads answers while
        context id has fewer than `count` completions, crediting each
        completion to the context it names; then returns the context's
        completions, subtracts them from its wr (in 64-bit arithmetic) and
        zeroes its comp. Every other context keeps what it was credited. */
    method PollCQ(tx: bool, count: nat, id: nat) returns (n: nat, ghost consumed: seq<CqRead>)
      requires Valid() && id in ctx
      modifies this
      ensures Valid()
      ensures var q := if tx then old(txCq) else old(rxCq);
        && |consumed| <= |q| && consumed == q[..|consumed|]
        && PollRan(old(ctx), q, id, count, |consumed|)
        && (if tx then txCq == q[|consumed|..] && rxCq == old(rxCq)
            else rxCq == q[|consumed|..] && txCq == old(txCq))
      ensures n == old(ctx)[id].comp + Completions(consumed, id)
      ensures id in Credited(old(ctx), consumed)
      ensures ctx == Settle(Credited(old(ctx), consumed), id, n)
      ensures ctx.Keys == old(ctx).Keys
      ensures nextCtxId == old(nextCtxId) && postCalls == old(postCalls)
      ensures requestedKey == old(requestedKey) && posted == old(posted)
    {
      var q := if tx then txCq else rxCq;
      var k, cs := ReadCq(ctx, q, id, count);
      consumed := q[..k];
      SettledOk(ctx, consumed, cs, id, nextCtxId);
      n := cs[id].comp;
      ctx := Settle(cs, id, n);
      if tx {
        txCq := q[k..];
      } else {
        rxCq := q[k..];
      }
    }

    /** OFI_POST: on -FI_EAGAIN, polls one completion of the context (unless
        progress is automatic) and retries; success adds one to the
        context's wr (in 64-bit arithmetic) and logs the request; any other
        error gives up. Without a retry that polls, nothing else changes. */
    method Post(tx: bool, id: nat, ghost op: OfiOp) returns (ok: bool)
      requires Valid() && id in ctx
      modifies this
      ensures Valid()
      ensures ok == posts(old(postCalls)).ok
      ensures postCalls == old(postCalls) + 1
      ensures posted == old(posted) + (if ok then [op] else [])
      ensures ctx.Keys == old(ctx).Keys && nextCtxId == old(nextCtxId) && requestedKey == old(requestedKey)
      ensures autoProgress || posts(old(postCalls)).eagains == 0 ==>
                && txCq == old(txCq) && rxCq == old(rxCq)
                && ctx == if ok then Bumped(old(ctx), id, 1) else old(ctx)
    {
      var outcome := posts(postCalls);
      var again := 0;
      while again < outcome.eagains
        invariant Valid() && id in ctx && again <= outcome.eagains
        invariant ctx.Keys == old(ctx).Keys && nextCtxId == old(nextCtxId) && requestedKey == old(requestedKey)
        invariant postCalls == old(postCalls) && posted == old(posted)
        invariant autoProgress || again == 0 ==> ctx == old(ctx) && txCq == old(txCq) && rxCq == old(rxCq)
      {
        if !autoProgress {
          var polled, consumed := PollCQ(tx, 1, id);
        }
        again := again + 1;
      }
      postCalls := postCalls + 1;
      ok := outcome.ok;
      if ok {
        ctx := Bumped(ctx, id, 1);
        posted := posted + [op];
      }
    }

    /** The single-buffer PostSend: fi_tsend when a tag is given, fi_send
        otherwise, on the transmit side. Its result is 0 whatever happened. */
    method PostSend(addr: nat, len: nat, desc: nat, peer: nat, tag: nat, id: nat) returns (r: int, ghost ok: bool)
      requires Valid() && id in ctx
      modifies this
      ensures Valid()
      ensures r == 0
      ensures ok == posts(old(postCalls)).ok && postCalls == old(postCalls) + 1
      ensures posted == old(posted) + (if ok then [OfiOp(if tag != 0 then OpTSend else OpSend, id, peer, tag, [Sge(addr, len, desc)], [])] else [])
      ensures ctx.Keys == old(ctx).Keys && nextCtxId == old(nextCtxId) && requestedKey == old(requestedKey)
      ensures autoProgress || posts(old(postCalls)).eagains == 0 ==>
                && txCq == old(txCq) && rxCq == old(rxCq)
                && ctx == if ok then Bumped(old(ctx), id, 1) else old(ctx)
    {
      ok := Post(true, id, OfiOp(if tag != 0 then OpTSend else OpSend, id, peer, tag, [Sge(addr, len, desc)], []));
      r := 0;
    }

    /** The single-buffer PostRecv: fi_trecv when a tag is given, fi_recv
        otherwise, on the receive side. Its result is 0 whatever happened. */
    method PostRecv(addr: nat, len: nat, desc: nat, peer: nat, tag: nat, id: nat) returns (r: int, ghost ok: bool)
      requires Valid() && id in ctx
      modifies this
      ensures Valid()
      ensures r == 0
      ensures ok == posts(old(postCalls)).ok && postCalls == old(postCalls) + 1
      ensures posted == old(posted) + (if ok then [OfiOp(if tag != 0 then OpTRecv else OpRecv, id, peer, tag, [Sge(addr, len, desc)], [])] else [])
      ensures ctx.Keys == old(ctx).Keys && nextCtxId == old(nextCtxId) && requestedKey == old(requestedKey)
      ensures autoProgress || posts(old(postCalls)).eagains == 0 ==>
                && txCq == old(txCq) && rxCq == old(rxCq)
                && ctx == if ok then Bumped(old(ctx), id, 1) else old(ctx)
    {
      ok := Post(false, id, OfiOp(if tag != 0 then OpTRecv else OpRecv, id, peer, tag, [Sge(addr, len, desc)], []));
      r := 0;
    }

    /** The vector posts: iov is posted in consecutive slices of `max`
        entries (the last one shorter), each slice with the remote entries at
        the same offset for RMA, until all are posted or a post fails.
        `complete` says every post succeeded. The result is 0 in both
        cases. */
    method PostChunks(kind: OpKind, max: nat, iov: seq<Sge>, rma: seq<RmaIov>, peer: nat, id: nat)
      returns (r: int, ghost ops: seq<OfiOp>, ghost complete: bool)
      requires Valid() && id in ctx && max >= 1
      requires IsRma(kind) ==> |rma| == |iov|
      modifies this
      ensures Valid()
      ensures r == 0
      ensures posted == old(posted) + ops
      ensures Chunked(ops, kind, id, peer, max)
      ensures IovOf(ops) <= iov
      ensures IsRma(kind) ==> RmaOf(ops) == rma[..|IovOf(ops)|]
      ensures complete <==> IovOf(ops) == iov
      ensures complete ==> postCalls == old(postCalls) + |ops|
      ensures !complete ==> postCalls == old(postCalls) + |ops| + 1 && !posts(postCalls - 1).ok
      ensures ctx.Keys == old(ctx).Keys && nextCtxId == old(nextCtxId) && requestedKey == old(requestedKey)
      ensures autoProgress || NoRetry(posts, old(postCalls), postCalls) ==>
                && txCq == old(txCq) && rxCq == old(rxCq)
                && ctx == Bumped(old(ctx), id, |ops|)
    {
      var offset;
      offset, ops, complete := PostSlices(kind, max, iov, rma, peer, id);
      r := 0;
      PrefixCovered(kind, iov, rma, ops, offset, complete);
    }

    /** PostChunks' loop: the slices accepted so far, up to `offset`, and
        either all of iov (`complete`) or a refused slice at `offset`. */
    method PostSlices(kind: OpKind, max: nat, iov: seq<Sge>, rma: seq<RmaIov>, peer: nat, id: nat)
      returns (offset: nat, ghost ops: seq<OfiOp>, ghost complete: bool)
      requires Valid() && id in ctx && max >= 1
      requires IsRma(kind) ==> |rma| == |iov|
      modifies this
      ensures Valid()
      ensures complete <==> offset == |iov|
      ensures complete ==> Chunking(kind, max, iov, rma, peer, id, offset, ops, autoProgress, posts, old(State()), State())
      ensures !complete ==> Stalled(kind, max, iov, rma, peer, id, offset, ops, autoProgress, posts, old(State()), State())
    {
      offset := 0;
      ops, complete := [], true;
      ghost var s0 := State();
      assert iov[..0] == [] && rma[..0] == [];
      BumpedNone(ctx, id, nextCtxId);
      while offset < |iov|
        invariant Valid()
        invariant Chunking(kind, max, iov, rma, peer, id, offset, ops, autoProgress, posts, s0, State())
        decreases |iov| - offset
      {
        var ok, next, more := PostSlice(kind, max, iov, rma, peer, id, offset, ops, s0);
        if !ok {
          complete := false;
          return;
        }
        ops, offset := more, next;
      }
    }

    /** One OFI_POST of the vector post: the next min(max, rest) entries.
        `next` is the offset past them and `more` the accepted requests with
        this one added. */
    method PostSlice(kind: OpKind, max: nat, iov: seq<Sge>, rma: seq<RmaIov>, peer: nat, id: nat,
                     offset: nat, ghost ops: seq<OfiOp>, ghost s0: EpState)
      returns (ok: bool, next: nat, ghost more: seq<OfiOp>)
      requires Valid() && max >= 1 && offset < |iov| && (IsRma(kind) ==> |rma| == |iov|)
      requires Chunking(kind, max, iov, rma, peer, id, offset, ops, autoProgress, posts, s0, State())
      modifies this
      ensures Valid() && offset < next
      ensures ok ==> Chunking(kind, max, iov, rma, peer, id, next, more, autoProgress, posts, s0, State())
      ensures !ok ==> Stalled(kind, max, iov, rma, peer, id, offset, ops, autoProgress, posts, s0, State())
    {
      var num := if |iov| - offset > max then max else |iov| - offset;
      ghost var op := OfiOp(kind, id, peer, 0, iov[offset..offset + num], if IsRma(kind) then rma[offset..offset + num] else []);
      ghost var before := State();
      ok := Post(!(kind.OpRecv? || kind.OpTRecv?), id, op);
      next, more := offset + num, ops + [op];
      if ok {
        SlicePosted(kind, max, iov, rma, peer, id, offset, ops, autoProgress, posts, s0, before, State(), op, num);
      } else {
        SliceFailed(kind, max, iov, rma, peer, id, offset, ops, autoProgress, posts, s0, before, State(), op);
      }
    }

    /** The state the vector posts and PollCQ change, as a value. */
    ghost function State(): EpState
      reads this
    {
      EpState(postCalls, requestedKey, nextCtxId, ctx, txCq, rxCq, posted)
    }

    /** PostSend(iov): fi_sendv in slices of max_msg_iov entries. */
    method PostSendV(iov: seq<Sge>, peer: nat, id: nat) returns (r: int, ghost ops: seq<OfiOp>, ghost complete: bool)
      requires Valid() && id in ctx
      modifies this
      ensures Valid()
      ensures r == 0
      ensures posted == old(posted) + ops
      ensures Chunked(ops, OpSend, id, peer, maxMsgIov)
      ensures IovOf(ops) <= iov
      ensures complete <==> IovOf(ops) == iov
      ensures postCalls == old(postCalls) + |ops| + (if complete then 0 else 1)
      ensures !complete ==> !posts(postCalls - 1).ok
      ensures complete ==> ChunkCount(|ops|, |iov|, maxMsgIov)
      ensures ctx.Keys == old(ctx).Keys && nextCtxId == old(nextCtxId) && requestedKey == old(requestedKey)
      ensures autoProgress || NoRetry(posts, old(postCalls), postCalls) ==>
                && txCq == old(txCq) && rxCq == old(rxCq)
                && ctx == Bumped(old(ctx), id, |ops|)
    {
      r, ops, complete := PostChunks(OpSend, maxMsgIov, iov, [], peer, id);
      ChunkedCount(ops, OpSend, id, peer, maxMsgIov);
    }

    /** PostRecv(iov): fi_recvv in slices of max_msg_iov entries. */
    method PostRecvV(iov: seq<Sge>, peer: nat, id: nat) returns (r: int, ghost ops: seq<OfiOp>, ghost complete: bool)
      requires Valid() && id in ctx
      modifies this
      ensures Valid()
      ensures r == 0
      ensures posted == old(posted) + ops
      ensures Chunked(ops, OpRecv, id, peer, maxMsgIov)
      ensures IovOf(ops) <= iov
      ensures complete <==> IovOf(ops) == iov
      ensures postCalls == old(postCalls) + |ops| + (if complete then 0 else 1)
      ensures !complete ==> !posts(postCalls - 1).ok
      ensures complete ==> ChunkCount(|ops|, |iov|, maxMsgIov)
      ensures ctx.Keys == old(ctx).Keys && nextCtxId == old(nextCtxId) && requestedKey == old(requestedKey)
      ensures autoProgress || NoRetry(posts, old(postCalls), postCalls) ==>
                && txCq == old(txCq) && rxCq == old(rxCq)
                && ctx == Bumped(old(ctx), id, |ops|)
    {
      r, ops, complete := PostChunks(OpRecv, maxMsgIov, iov, [], peer, id);
      ChunkedCount(ops, OpRecv, id, peer, maxMsgIov);
    }

    /** PostWrite: fi_writemsg in slices of max_rma_iov local and remote
        entries, both advanced by the same offset. */
    method PostWrite(iov: seq<Sge>, rma: seq<RmaIov>, peer: nat, id: nat) returns (r: int, ghost ops: seq<OfiOp>, ghost complete: bool)
      requires Valid() && id in ctx
      requires |rma| == |iov|
      modifies this
      ensures Valid()
      ensures r == 0
      ensures posted == old(posted) + ops
      ensures Chunked(ops, OpWrite, id, peer, maxRmaIov)
      ensures IovOf(ops) <= iov && RmaOf(ops) == rma[..|IovOf(ops)|]
      ensures complete <==> IovOf(ops) == iov
      ensures postCalls == old(postCalls) + |ops| + (if complete then 0 else 1)
      ensures !complete ==> !posts(postCalls - 1).ok
      ensures complete ==> ChunkCount(|ops|, |iov|, maxRmaIov)
      ensures ctx.Keys == old(ctx).Keys && nextCtxId == old(nextCtxId) && requestedKey == old(requestedKey)
      ensures autoProgress || NoRetry(posts, old(postCalls), postCalls) ==>
                && txCq == old(txCq) && rxCq == old(rxCq)
                && ctx == Bumped(old(ctx), id, |ops|)
    {
      r, ops, complete := PostChunks(OpWrite, maxRmaIov, iov, rma, peer, id);
      ChunkedCount(ops, OpWrite, id, peer, maxRmaIov);
    }

    /** PostRead: fi_readmsg in slices of max_rma_iov local and remote
        entries, both advanced by the same offset. */
    method PostRead(iov: seq<Sge>, rma: seq<RmaIov>, peer: nat, id: nat) returns (r: int, ghost ops: seq<OfiOp>, ghost complete: bool)
      requires Valid() && id in ctx
      requires |rma| == |iov|
      modifies this
      ensures Valid()
      ensures r == 0
      ensures posted == old(posted) + ops
      ensures Chunked(ops, OpRead, id, peer, maxRmaIov)
      ensures IovOf(ops) <= iov && RmaOf(ops) == rma[..|IovOf(ops)|]
      ensures complete <==> IovOf(ops) == iov
      ensures postCalls == old(postCalls) + |ops| + (if complete then 0 else 1)
      ensures !complete ==> !posts(postCalls - 1).ok
      ensures complete ==> ChunkCount(|ops|, |iov|, maxRmaIov)
      ensures ctx.Keys == old(ctx).Keys && nextCtxId == old(nextCtxId) && requestedKey == old(requestedKey)
      ensures autoProgress || NoRetry(posts, old(postCalls), postCalls) ==>
                && txCq == old(txCq) && rxCq == old(rxCq)
                && ctx == Bumped(old(ctx), id, |ops|)
    {
      r, ops, complete := PostChunks(OpRead, maxRmaIov, iov, rma, peer, id);
      ChunkedCount(ops, OpRead, id, peer, maxRmaIov);
    }
  }

  /** The parts of an endpoint's state a post can change. */
  datatype EpState = EpState(postCalls: nat, requestedKey: nat, nextCtxId: nat, ctx: map<nat, OfiContext>,
                             txCq: seq<CqRead>, rxCq: seq<CqRead>, posted: seq<OfiOp>)

  /** The state of a vector post that started in s0 after `ops` covered
      iov[..offset]: the slices so far are well formed and posted, in order,
      and without a polling retry only the context's wr has changed, by
      their number. */
  ghost predicate Chunking(kind: OpKind, max: nat, iov: seq<Sge>, rma: seq<RmaIov>, peer: nat, id: nat,
                           offset: nat, ops: seq<OfiOp>, auto: bool, posts: nat -> PostOutcome, s0: EpState, s: EpState)
  {
    && id in s.ctx && id in s0.ctx && offset <= |iov|
    && s.posted == s0.posted + ops
    && Chunked(ops, kind, id, peer, max)
    && (offset < |iov| ==> forall j :: 0 <= j < |ops| ==> |ops[j].iov| == max)
    && IovOf(ops) == iov[..offset]
    && (IsRma(kind) ==> offset <= |rma| && RmaOf(ops) == rma[..offset])
    && s.postCalls == s0.postCalls + |ops|
    && s.ctx.Keys == s0.ctx.Keys && s.nextCtxId == s0.nextCtxId && s.requestedKey == s0.requestedKey
    && (auto || NoRetry(posts, s0.postCalls, s.postCalls) ==>
          && s.txCq == s0.txCq && s.rxCq == s0.rxCq
          && s.ctx == Bumped(s0.ctx, id, |ops|))
  }

  /** The slices posted cover a prefix of the vector, all of it exactly when
      no request was refused. */
  lemma PrefixCovered(kind: OpKind, iov: seq<Sge>, rma: seq<RmaIov>, ops: seq<OfiOp>, offset: nat, complete: bool)
    requires offset <= |iov| && IovOf(ops) == iov[..offset]
    requires IsRma(kind) ==> offset <= |rma| && RmaOf(ops) == rma[..offset]
    requires complete <==> offset == |iov|
    ensures IovOf(ops) <= iov
    ensures IsRma(kind) ==> RmaOf(ops) == rma[..|IovOf(ops)|]
    ensures complete <==> IovOf(ops) == iov
  {
    if complete {
      assert iov[..offset] == iov;
    } else {
      assert |IovOf(ops)| == offset < |iov|;
    }
  }

  /** What a single OFI_POST of `op` on context id guarantees, from state b
      to state a. */
  ghost predicate PostedOne(auto: bool, posts: nat -> PostOutcome, id: nat, op: OfiOp, ok: bool, b: EpState, a: EpState)
    requires id in b.ctx
  {
    && ok == posts(b.postCalls).ok && a.postCalls == b.postCalls + 1
    && a.posted == b.posted + (if ok then [op] else [])
    && a.ctx.Keys == b.ctx.Keys && a.nextCtxId == b.nextCtxId && a.requestedKey == b.requestedKey
    && (auto || posts(b.postCalls).eagains == 0 ==>
          && a.txCq == b.txCq && a.rxCq == b.rxCq
          && a.ctx == if ok then Bumped(b.ctx, id, 1) else b.ctx)
  }

  /** An accepted slice extends the vector post by one request. */
  lemma SlicePosted(kind: OpKind, max: nat, iov: seq<Sge>, rma: seq<RmaIov>, peer: nat, id: nat,
                    offset: nat, ops: seq<OfiOp>, auto: bool, posts: nat -> PostOutcome,
                    s0: EpState, b: EpState, a: EpState, op: OfiOp, num: nat)
    requires max >= 1 && offset < |iov| && (IsRma(kind) ==> |rma| == |iov|)
    requires Chunking(kind, max, iov, rma, peer, id, offset, ops, auto, posts, s0, b)
    requires num == (if |iov| - offset > max then max else |iov| - offset)
    requires op == OfiOp(kind, id, peer, 0, iov[offset..offset + num], if IsRma(kind) then rma[offset..offset + num] else [])
    requires PostedOne(auto, posts, id, op, true, b, a)
    ensures Chunking(kind, max, iov, rma, peer, id, offset + num, ops + [op], auto, posts, s0, a)
  {
    NoRetrySnoc(posts, s0.postCalls, b.postCalls);
    PostStep(ops, op, kind, id, peer, max, iov, rma, offset, num);
    BumpedTwice(s0.ctx, id, |ops|);
  }

  /** A vector post that started in s0 and stopped at a refused request
      after the slices `ops` covering iov[..offset]. */
  ghost predicate Stalled(kind: OpKind, max: nat, iov: seq<Sge>, rma: seq<RmaIov>, peer: nat, id: nat,
                          offset: nat, ops: seq<OfiOp>, auto: bool, posts: nat -> PostOutcome, s0: EpState, s: EpState)
  {
    && id in s0.ctx && offset <= |iov| && s.posted == s0.posted + ops && IovOf(ops) == iov[..offset]
    && Chunked(ops, kind, id, peer, max) && (IsRma(kind) ==> offset <= |rma| && RmaOf(ops) == rma[..offset])
    && s.postCalls == s0.postCalls + |ops| + 1 && !posts(s.postCalls - 1).ok
    && s.ctx.Keys == s0.ctx.Keys && s.nextCtxId == s0.nextCtxId && s.requestedKey == s0.requestedKey
    && (auto || NoRetry(posts, s0.postCalls, s.postCalls) ==>
          && s.txCq == s0.txCq && s.rxCq == s0.rxCq
          && s.ctx == Bumped(s0.ctx, id, |ops|))
  }

  /** A refused slice ends the vector post with the requests before it. */
  lemma SliceFailed(kind: OpKind, max: nat, iov: seq<Sge>, rma: seq<RmaIov>, peer: nat, id: nat,
                    offset: nat, ops: seq<OfiOp>, auto: bool, posts: nat -> PostOutcome,
                    s0: EpState, b: EpState, a: EpState, op: OfiOp)
    requires offset < |iov|
    requires Chunking(kind, max, iov, rma, peer, id, offset, ops, auto, posts, s0, b)
    requires PostedOne(auto, posts, id, op, false, b, a)
    ensures Stalled(kind, max, iov, rma, peer, id, offset, ops, auto, posts, s0, a)
  {
    NoRetrySnoc(posts, s0.postCalls, b.postCalls);
  }

  lemma PostStep(ops: seq<OfiOp>, op: OfiOp, kind: OpKind, id: nat, peer: nat, max: nat,
                 iov: seq<Sge>, rma: seq<RmaIov>, offset: nat, num: nat)
    requires Chunked(ops, kind, id, peer, max)
    requires forall j :: 0 <= j < |ops| ==> |ops[j].iov| == max
    requires 1 <= num <= max && offset + num <= |iov|
    requires offset + num < |iov| ==> num == max
    requires IsRma(kind) ==> |rma| == |iov|
    requires op == OfiOp(kind, id, peer, 0, iov[offset..offset + num], if IsRma(kind) then rma[offset..offset + num] else [])
    requires IovOf(ops) == iov[..offset]
    requires IsRma(kind) ==> RmaOf(ops) == rma[..offset]
    ensures Chunked(ops + [op], kind, id, peer, max)
    ensures offset + num < |iov| ==> forall j :: 0 <= j < |ops + [op]| ==> |(ops + [op])[j].iov| == max
    ensures IovOf(ops + [op]) == iov[..offset + num]
    ensures IsRma(kind) ==> RmaOf(ops + [op]) == rma[..offset + num]
  {
    OfSnoc(ops, op);
    assert iov[..offset + num] == iov[..offset] + iov[offset..offset + num];
    if IsRma(kind) {
      assert rma[..offset + num] == rma[..offset] + rma[offset..offset + num];
    }
    ChunkedSnoc(ops, op, kind, id, peer, max);
  }

  lemma ChunkedSnoc(ops: seq<OfiOp>, op: OfiOp, kind: OpKind, id: nat, peer: nat, max: nat)
    requires Chunked(ops, kind, id, peer, max)
    requires forall j :: 0 <= j < |ops| ==> |ops[j].iov| == max
    requires op.kind == kind && op.ctx == id && op.peer == peer && op.tag == 0
    requires 1 <= |op.iov| <= max && |op.rma| == (if IsRma(kind) then |op.iov| else 0)
    ensures Chunked(ops + [op], kind, id, peer, max)
    ensures |op.iov| == max ==> forall j :: 0 <= j < |ops + [op]| ==> |(ops + [op])[j].iov| == max
  {
    var ops' := ops + [op];
    forall j | 0 <= j < |ops'|
      ensures ops'[j].kind == kind && ops'[j].ctx == id && ops'[j].peer == peer && ops'[j].tag == 0
      ensures 1 <= |ops'[j].iov| <= max
      ensures |ops'[j].rma| == (if IsRma(kind) then |ops'[j].iov| else 0)
      ensures j < |ops'| - 1 ==> |ops'[j].iov| == max
    {
      if j < |ops| {
        assert ops'[j] == ops[j];
      }
    }
  }
}
