/** The older RDMA transport's channel (RDMAChannel): one reliable-connection
    queue pair with two registered 1 KiB staging buffers. A two-sided send
    is cut into chunks: what is left goes out inline when it fits the queue
    pair's inline limit, otherwise the next KiB (or less) is copied into the
    send buffer and the whole buffer is sent. A receive posts the receive
    buffer, waits for a completion and copies up to one KiB out of it, until
    the requested length has arrived. One-sided writes and reads post a
    single work request for a whole region.

    The NIC is an oracle: `nic` answers, call by call, whether
    ibv_post_send / ibv_post_recv succeed and whether each polled completion
    reports success, and `landed` gives the contents of the receive buffer
    after each receive completion. The counters `sendPosts`, `recvPosts`,
    `sendPolls` and `recvPolls` number those calls. Memory is an array of
    bytes indexed by address. */
module RdmaChannels {
  import opened Common
  import opened ByteCodec
  import opened ScatterGather
  import opened EagerBuffers
  import opened Ibv
  import opened VerbsWorkRequests
  import opened RdmaMemoryRegions
  import opened RemoteRegions

  /** Size of each staging buffer (1 << 10). */
  const RDMA_BUF_LEN: nat := 1024

  /** Size of the record SynRemoteMemoryRegion sends: an 8-byte address, a
      4-byte remote key and an 8-byte length. */
  const RMR_RECORD_LEN: nat := 20

  const U32: nat := 0x1_0000_0000

  /** The contents of a staging buffer. */
  type Block = s: seq<byte> | |s| == RDMA_BUF_LEN witness seq(RDMA_BUF_LEN, _ => 0 as byte)

  /** A send work request as it was handed to ibv_post_send: opcode, its one
      entry, the inline flag and the remote target, with `data` the bytes
      the entry covered at that moment for a SEND (the whole send buffer, or
      the caller's bytes sent inline) and empty for one-sided requests. */
  datatype PostedSend = PostedSend(opcode: Opcode, sge: Sge, inline: bool, raddr: nat, rkey: nat, data: seq<byte>)

  // ---------------------------------------------------------------------
  // The chunk plans of Send and Recv.

  /** The size of the next chunk Send moves when `rem` bytes are left: all of
      them inline if they fit `maxInline`, else one buffer's worth at most. */
  function Chunk(rem: nat, maxInline: nat): (c: nat)
    ensures c <= rem
    ensures rem > 0 ==> c > 0
    ensures rem <= maxInline ==> c == rem
    ensures rem > maxInline ==> c == Min(rem, RDMA_BUF_LEN)
  {
    if rem <= maxInline then rem else Min(rem, RDMA_BUF_LEN)
  }

  /** The chunk sizes in which Send moves `rem` bytes when nothing fails. */
  function SendChunks(rem: nat, maxInline: nat): (cs: seq<nat>)
    ensures rem == 0 <==> cs == []
    decreases rem
  {
    if rem == 0 then [] else [Chunk(rem, maxInline)] + SendChunks(rem - Chunk(rem, maxInline), maxInline)
  }

  /** The chunk sizes in which Recv copies `rem` bytes out of the receive
      buffer when nothing fails. */
  function RecvChunks(rem: nat): (cs: seq<nat>)
    ensures rem == 0 <==> cs == []
    decreases rem
  {
    if rem == 0 then [] else [Min(rem, RDMA_BUF_LEN)] + RecvChunks(rem - Min(rem, RDMA_BUF_LEN))
  }

  lemma SumCons(c: nat, cs: seq<nat>)
    ensures Sum([c] + cs) == c + Sum(cs)
  {
    SumAppend([c], cs);
    assert [c][..0] == [];
  }

  /** Send's chunks add up to the length sent. */
  lemma {:induction false} SendChunksSum(rem: nat, maxInline: nat)
    ensures Sum(SendChunks(rem, maxInline)) == rem
    decreases rem
  {
    if rem > 0 {
      var c := Chunk(rem, maxInline);
      SendChunksSum(rem - c, maxInline);
      SumCons(c, SendChunks(rem - c, maxInline));
    }
  }

  /** Recv's chunks add up to the length received, and none is larger than
      the receive buffer. */
  lemma {:induction false} RecvChunksSum(rem: nat)
    ensures Sum(RecvChunks(rem)) == rem
    ensures forall i :: 0 <= i < |RecvChunks(rem)| ==> 0 < RecvChunks(rem)[i] <= RDMA_BUF_LEN
    decreases rem
  {
    if rem > 0 {
      var c := Min(rem, RDMA_BUF_LEN);
      RecvChunksSum(rem - c);
      SumCons(c, RecvChunks(rem - c));
    }
  }

  /** While the inline limit is at most one buffer, the sender's chunks are
      exactly the receiver's: every message the sender posts fits the
      receive buffer and is copied out whole. */
  lemma {:induction false} ChunksAgree(rem: nat, maxInline: nat)
    requires maxInline <= RDMA_BUF_LEN
    ensures SendChunks(rem, maxInline) == RecvChunks(rem)
    decreases rem
  {
    if rem > 0 {
      assert Chunk(rem, maxInline) == Min(rem, RDMA_BUF_LEN);
      ChunksAgree(rem - Min(rem, RDMA_BUF_LEN), maxInline);
    }
  }

  /** With an inline limit above one buffer the plans part: a message of
      exactly `maxInline` bytes goes out as one inline send, longer than the
      receive buffer the receiver posts. */
  lemma InlineBeyondBuffer(maxInline: nat)
    requires maxInline > RDMA_BUF_LEN
    ensures SendChunks(maxInline, maxInline) == [maxInline]
    ensures RecvChunks(maxInline)[0] == RDMA_BUF_LEN < maxInline
    ensures SendChunks(maxInline, maxInline) != RecvChunks(maxInline)
  {
    assert SendChunks(0, maxInline) == [];
    assert Chunk(maxInline, maxInline) == maxInline;
  }

  // ---------------------------------------------------------------------
  // What a run of Send hands to the NIC.

  /** `w` is the request for the chunk of `c` bytes at `off` of the message
      `src`, which lies at address `addr`: sent inline from the message when
      what is left fits `maxInline` (the entry then covers exactly the
      chunk, with key 0), otherwise as the whole send buffer, whose first `c`
      bytes are the chunk. */
  ghost predicate Carries(w: PostedSend, off: nat, c: nat, src: seq<byte>, addr: nat, maxInline: nat, bufSge: Sge)
  {
    && off + c <= |src|
    && w.opcode == WrSend && w.raddr == 0 && w.rkey == 0
    && w.inline == (|src| - off <= maxInline)
    && (w.inline ==> w.sge == Sge(addr + off, c, 0))
    && (!w.inline ==> w.sge == bufSge)
    && c <= |w.data| && w.data[..c] == src[off..off + c]
  }

  /** The requests `ws` carry the first |ws| chunks of the plan `cs` of `src`,
      in order. */
  ghost predicate Conveys(ws: seq<PostedSend>, cs: seq<nat>, src: seq<byte>, addr: nat, maxInline: nat, bufSge: Sge)
  {
    && |ws| <= |cs|
    && forall i :: 0 <= i < |ws| ==> Carries(ws[i], Sum(cs[..i]), cs[i], src, addr, maxInline, bufSge)
  }

  /** What a receiver copies out of the receive buffer for the chunk plan
      `cs`: a prefix of the buffer after each completion, starting with the
      completion numbered `start`. */
  function Gathered(landed: nat -> Block, start: nat, cs: seq<nat>): seq<byte>
  {
    if cs == [] then []
    else Gathered(landed, start, cs[..|cs| - 1]) + landed(start + |cs| - 1)[..Min(cs[|cs| - 1], RDMA_BUF_LEN)]
  }

  lemma SumSnoc(cs: seq<nat>, k: nat)
    requires k < |cs|
    ensures Sum(cs[..k + 1]) == Sum(cs[..k]) + cs[k]
  {
    assert cs[..k + 1][..k] == cs[..k];
  }

  /** The end-to-end property of the two loops: when a sender's run conveyed
      every chunk of `src` and each receive completion left in the receive
      buffer what the matching request carried, the receiver's copies put
      together are `src` itself, provided the inline limit is at most one
      buffer. */
  lemma Delivered(src: seq<byte>, ws: seq<PostedSend>, addr: nat, maxInline: nat, bufSge: Sge,
                   landed: nat -> Block, start: nat)
    requires maxInline <= RDMA_BUF_LEN
    requires Conveys(ws, SendChunks(|src|, maxInline), src, addr, maxInline, bufSge)
    requires |ws| == |SendChunks(|src|, maxInline)|
    requires forall i :: 0 <= i < |ws| ==> SamePrefix(landed(start + i), ws[i].data, SendChunks(|src|, maxInline)[i])
    ensures Gathered(landed, start, RecvChunks(|src|)) == src
  {
    var cs := SendChunks(|src|, maxInline);
    ChunksAgree(|src|, maxInline);
    SendChunksSum(|src|, maxInline);
    DeliveredPrefix(src, ws, cs, |cs|, addr, maxInline, bufSge, landed, start);
    assert cs[..|cs|] == cs;
  }

  /** Delivered for the first `k` chunks of the plan `cs`. */
  lemma {:induction false} DeliveredPrefix(src: seq<byte>, ws: seq<PostedSend>, cs: seq<nat>, k: nat, addr: nat, maxInline: nat,
                                           bufSge: Sge, landed: nat -> Block, start: nat)
    requires k <= |ws| <= |cs|
    requires forall i :: 0 <= i < |ws| ==> Carries(ws[i], Sum(cs[..i]), cs[i], src, addr, maxInline, bufSge)
    requires forall i :: 0 <= i < |ws| ==> SamePrefix(landed(start + i), ws[i].data, cs[i])
    ensures Sum(cs[..k]) <= |src|
    ensures Gathered(landed, start, cs[..k]) == src[..Sum(cs[..k])]
  {
    if k > 0 {
      DeliveredPrefix(src, ws, cs, k - 1, addr, maxInline, bufSge, landed, start);
      DeliveredStep(src, cs, ws[k - 1], k - 1, addr, maxInline, bufSge, landed(start + k - 1));
      assert cs[..k][..k - 1] == cs[..k - 1];
    } else {
      assert cs[..0] == [];
    }
  }

  /** The first `c` bytes of `block` and `data` agree. */
  ghost predicate SamePrefix(block: seq<byte>, data: seq<byte>, c: nat)
  {
    c <= |block| && c <= |data| && block[..c] == data[..c]
  }

  /** One chunk of Delivered: the bytes the receiver copies for chunk `k`
      are the next `cs[k]` bytes of `src`. */
  lemma DeliveredStep(src: seq<byte>, cs: seq<nat>, w: PostedSend, k: nat, addr: nat, maxInline: nat, bufSge: Sge, block: Block)
    requires k < |cs|
    requires Carries(w, Sum(cs[..k]), cs[k], src, addr, maxInline, bufSge)
    requires SamePrefix(block, w.data, cs[k])
    ensures Sum(cs[..k + 1]) <= |src| && Min(cs[k], RDMA_BUF_LEN) == cs[k]
    ensures src[..Sum(cs[..k + 1])] == src[..Sum(cs[..k])] + block[..cs[k]]
  {
    SumSnoc(cs, k);
    var o := Sum(cs[..k]);
    assert src[..o + cs[k]] == src[..o] + src[o..o + cs[k]];
  }

  // ---------------------------------------------------------------------
  // The 20-byte region record of SynRemoteMemoryRegion.

  /** The record for a region: its address and length as 64-bit integers
      and its remote key cast to 32 bits, in native (little-endian) order. */
  function EncodeSyn(l: RdmaLocalMemoryRegion): (s: seq<byte>)
    ensures |s| == RMR_RECORD_LEN
  {
    EncodeLE(Wrap64(l.GetAddr()), 8) + EncodeLE(Wrap32(l.GetRKey()), 4) + EncodeLE(Wrap64(l.GetLength()), 8)
  }

  /** The descriptor AckRemoteMemoryRegion builds from a received record. */
  function DecodeSyn(s: seq<byte>): (r: RemoteMemoryRegion)
    requires |s| == RMR_RECORD_LEN
    ensures r.addr < Pow256(8) && r.rkey < Pow256(4) && r.length < Pow256(8)
  {
    RemoteMemoryRegion(DecodeLE(s[..8]), DecodeLE(s[8..12]), DecodeLE(s[12..20]))
  }

  /** A record read back describes the region it was written for, as long as
      the address and length fit 64 bits and the key 32 bits. */
  lemma DecodeEncodeSyn(l: RdmaLocalMemoryRegion)
    requires l.GetAddr() < Pow256(8) && l.GetRKey() < Pow256(4) && l.GetLength() < Pow256(8)
    ensures DecodeSyn(EncodeSyn(l)) == RemoteMemoryRegion(l.GetAddr(), l.GetRKey(), l.GetLength())
  {
    var a, k, n := EncodeLE(l.GetAddr(), 8), EncodeLE(l.GetRKey(), 4), EncodeLE(l.GetLength(), 8);
    assert Pow256(4) == U32 by { assert Pow256(4) == 256 * 256 * 256 * 256; }
    assert Pow256(8) == 0x1_0000_0000_0000_0000 by { assert Pow256(8) == 256 * 256 * 256 * 256 * 256 * 256 * 256 * 256; }
    var s := EncodeSyn(l);
    assert s == a + k + n;
    assert s[..8] == a && s[8..12] == k && s[12..20] == n;
    DecodeEncodeLE(l.GetAddr(), 8);
    DecodeEncodeLE(l.GetRKey(), 4);
    DecodeEncodeLE(l.GetLength(), 8);
  }

  // ---------------------------------------------------------------------
  // The staging buffers.

  /** A registered staging buffer (BaseBuffer): its bytes, its registration
      and the one-entry list that covers all of it. */
  class BaseBuffer {
    const buf: array<byte>
    const region: RdmaLocalMemoryRegion

    ghost predicate Valid()
    {
      buf.Length == RDMA_BUF_LEN && region.GetLength() == RDMA_BUF_LEN
    }

    /** The buffer's entry: its address, its length cast to 32 bits and its
        local key. */
    function Entry(): (e: Sge)
      requires Valid()
      ensures e == Sge(region.GetAddr(), RDMA_BUF_LEN, region.GetLKey())
    {
      Sge(region.GetAddr(), Wrap32(region.GetLength()), region.GetLKey())
    }

    /** Allocates the bytes and registers them with access `t`; the driver
        must accept the registration (the source dereferences its result). */
    constructor (addr: nat, t: bv32, lkey: nat, rkey: nat)
      ensures Valid() && fresh(buf)
      ensures Register(addr, RDMA_BUF_LEN, t, Registered(lkey, rkey)) == Some(region)
    {
      buf := new byte[RDMA_BUF_LEN];
      region := Register(addr, RDMA_BUF_LEN, t, Registered(lkey, rkey)).value;
    }

    /** Copies min(len, 1024) bytes from src[addr..] to the start of the
        buffer; the rest of the buffer keeps its bytes. */
    method Write(src: array<byte>, addr: nat, len: nat) returns (n: nat)
      requires Valid()
      requires src != buf
      requires addr + Min(len, RDMA_BUF_LEN) <= src.Length
      modifies buf
      ensures n == Min(len, RDMA_BUF_LEN)
      ensures buf[..] == Overwrite(old(buf[..]), src[addr..addr + n])
    {
      n := if len > RDMA_BUF_LEN then RDMA_BUF_LEN else len;
      forall i | 0 <= i < n {
        buf[i] := src[addr + i];
      }
      assert buf[..n] == src[addr..addr + n];
      assert buf[n..] == old(buf[..])[n..];
    }

    /** Copies min(len, 1024) bytes from the start of the buffer to
        dst[addr..]; nothing else of dst changes. */
    method Read(dst: array<byte>, addr: nat, len: nat) returns (n: nat)
      requires Valid()
      requires dst != buf
      requires addr + Min(len, RDMA_BUF_LEN) <= dst.Length
      modifies dst
      ensures n == Min(len, RDMA_BUF_LEN)
      ensures dst[addr..addr + n] == buf[..n]
      ensures dst[..addr] == old(dst[..addr])
      ensures dst[addr + n..] == old(dst[addr + n..])
    {
      n := if len > RDMA_BUF_LEN then RDMA_BUF_LEN else len;
      forall i | 0 <= i < n {
        dst[addr + i] := buf[i];
      }
    }
  }

  // ---------------------------------------------------------------------
  // The channel.

  class RdmaChannel {
    /** The queue pair's inline limit and send queue depth (ibv_query_qp). */
    const maxInlineData: nat
    const maxSendWr: nat
    /** SendBuffer (local read) and RecvBuffer (local write). */
    const sendBuf: BaseBuffer
    const recvBuf: BaseBuffer
    const nic: Nic
    const landed: nat -> Block

    var sendPosts: nat
    var recvPosts: nat
    var sendPolls: nat
    var recvPolls: nat
    /** The send requests the NIC accepted, in order. */
    ghost var sendLog: seq<PostedSend>
    /** How many receives of the receive buffer the NIC accepted. */
    ghost var recvsPosted: nat

    ghost predicate Valid()
    {
      && sendBuf.Valid() && recvBuf.Valid()
      && sendBuf.buf != recvBuf.buf
      && maxInlineData < U32
    }

    /** Takes the queue pair's limits, creates and registers both buffers
        and posts one receive of the receive buffer, whatever its outcome. */
    constructor (maxInlineData: nat, maxSendWr: nat, nic: Nic, landed: nat -> Block,
                 sendAddr: nat, sendKeys: (nat, nat), recvAddr: nat, recvKeys: (nat, nat))
      requires maxInlineData < U32
      ensures Valid()
      ensures this.maxInlineData == maxInlineData && this.maxSendWr == maxSendWr
      ensures this.nic == nic && this.landed == landed
      ensures Register(sendAddr, RDMA_BUF_LEN, MR_LOCAL_READ, Registered(sendKeys.0, sendKeys.1)) == Some(sendBuf.region)
      ensures Register(recvAddr, RDMA_BUF_LEN, MR_LOCAL_WRITE, Registered(recvKeys.0, recvKeys.1)) == Some(recvBuf.region)
      ensures fresh(sendBuf) && fresh(sendBuf.buf) && fresh(recvBuf) && fresh(recvBuf.buf)
      ensures sendPosts == 0 && sendPolls == 0 && recvPolls == 0 && sendLog == []
      ensures recvPosts == 1 && recvsPosted == (if nic.recvPostOk(0) then 1 else 0)
    {
      this.maxInlineData := maxInlineData;
      this.maxSendWr := maxSendWr;
      this.nic := nic;
      this.landed := landed;
      sendBuf := new BaseBuffer(sendAddr, MR_LOCAL_READ, sendKeys.0, sendKeys.1);
      recvBuf := new BaseBuffer(recvAddr, MR_LOCAL_WRITE, recvKeys.0, recvKeys.1);
      sendPosts, sendPolls, recvPolls := 0, 0, 0;
      sendLog := [];
      recvPosts := 1;
      recvsPosted := if nic.recvPostOk(0) then 1 else 0;
    }

    /** PostSend: hands `w` to the NIC and, when it is accepted, waits for
        its completion; true only when both succeed. */
    method PostSend(ghost w: PostedSend) returns (ok: bool)
      modifies this
      ensures ok <==> nic.sendPostOk(old(sendPosts)) && nic.sendCqOk(old(sendPolls))
      ensures sendPosts == old(sendPosts) + 1
      ensures nic.sendPostOk(old(sendPosts)) ==> sendLog == old(sendLog) + [w] && sendPolls == old(sendPolls) + 1
      ensures !nic.sendPostOk(old(sendPosts)) ==> sendLog == old(sendLog) && sendPolls == old(sendPolls)
      ensures recvPosts == old(recvPosts) && recvPolls == old(recvPolls) && recvsPosted == old(recvsPosted)
    {
      var accepted := nic.sendPostOk(sendPosts);
      sendPosts := sendPosts + 1;
      if !accepted {
        return false;
      }
      sendLog := sendLog + [w];
      ok := nic.sendCqOk(sendPolls);
      sendPolls := sendPolls + 1;
    }

    /** One pass of Send's loop at `offset` of the message at mem[addr..addr
        + len]: when it succeeds it moved the next chunk of the plan, and
        the NIC accepted a request carrying it. */
    method SendRound(mem: array<byte>, addr: nat, len: nat, offset: nat) returns (ok: bool, sent: nat, ghost w: PostedSend)
      requires Valid()
      requires mem != sendBuf.buf && mem != recvBuf.buf
      requires offset < len && addr + len <= mem.Length
      modifies this, sendBuf.buf
      ensures sent == Chunk(len - offset, maxInlineData)
      ensures Carries(w, offset, sent, mem[addr..addr + len], addr, maxInlineData, sendBuf.Entry())
      ensures ok <==> nic.sendPostOk(old(sendPosts)) && nic.sendCqOk(old(sendPolls))
      ensures sendPosts == old(sendPosts) + 1
      ensures nic.sendPostOk(old(sendPosts)) ==> sendLog == old(sendLog) + [w] && sendPolls == old(sendPolls) + 1
      ensures !nic.sendPostOk(old(sendPosts)) ==> sendLog == old(sendLog) && sendPolls == old(sendPolls)
      ensures recvPosts == old(recvPosts) && recvPolls == old(recvPolls) && recvsPosted == old(recvsPosted)
    {
      ghost var src := mem[addr..addr + len];
      ghost var c := Chunk(len - offset, maxInlineData);
      ghost var piece := mem[addr + offset..addr + offset + c];
      assert piece == src[offset..offset + c] by {
        forall i | 0 <= i < c
          ensures piece[i] == src[offset..offset + c][i]
        {
          assert piece[i] == mem[addr + offset + i] == src[offset + i];
        }
      }
      if len - offset <= maxInlineData {
        sent := len - offset;
        w := PostedSend(WrSend, Sge(addr + offset, Wrap32(len - offset), 0), true, 0, 0, mem[addr + offset..addr + len]);
      } else {
        sent := sendBuf.Write(mem, addr + offset, len - offset);
        w := PostedSend(WrSend, sendBuf.Entry(), false, 0, 0, sendBuf.buf[..]);
        assert w.data[..sent] == piece;
      }
      ok := PostSend(w);
    }

    /** Send(buf, len): moves the message at mem[addr..addr + len] chunk by
        chunk and stops at the first request that fails. It returns the bytes
        of the `k` chunks that went through, the first `k` of the plan
        SendChunks; the requests the NIC accepted, `posted`, carry those
        chunks and, when the last one's completion failed, the next. */
    method Send(mem: array<byte>, addr: nat, len: nat) returns (offset: nat, ghost posted: seq<PostedSend>, ghost k: nat)
      requires Valid()
      requires mem != sendBuf.buf && mem != recvBuf.buf
      requires addr + len <= mem.Length
      modifies this, sendBuf.buf
      ensures offset <= len
      ensures k <= |SendChunks(len, maxInlineData)| && offset == Sum(SendChunks(len, maxInlineData)[..k])
      ensures offset == len <==> k == |SendChunks(len, maxInlineData)|
      ensures sendLog == old(sendLog) + posted
      ensures |posted| == k + (if offset < len && nic.sendPostOk(old(sendPosts) + k) then 1 else 0)
      ensures Conveys(posted, SendChunks(len, maxInlineData), mem[addr..addr + len], addr, maxInlineData, sendBuf.Entry())
      ensures forall j :: old(sendPosts) <= j < old(sendPosts) + k ==> nic.sendPostOk(j)
      ensures forall j :: old(sendPolls) <= j < old(sendPolls) + k ==> nic.sendCqOk(j)
      ensures offset < len ==> !nic.sendPostOk(old(sendPosts) + k) || !nic.sendCqOk(old(sendPolls) + k)
      ensures sendPosts == old(sendPosts) + k + (if offset < len then 1 else 0)
      ensures recvPosts == old(recvPosts) && recvPolls == old(recvPolls) && recvsPosted == old(recvsPosted)
    {
      ghost var p0 := sendPosts;
      offset, posted, k := SendRounds(mem, addr, len);
      SendDone(SendChunks(len, maxInlineData), mem[addr..addr + len], addr, maxInlineData, sendBuf.Entry(),
               offset, k, posted, nic.sendPostOk, nic.sendCqOk, p0, old(sendPolls), sendPosts, sendPolls);
    }

    /** The loop of Send, stated on the progress predicate SendAt. */
    method SendRounds(mem: array<byte>, addr: nat, len: nat) returns (offset: nat, ghost posted: seq<PostedSend>, ghost k: nat)
      requires Valid()
      requires mem != sendBuf.buf && mem != recvBuf.buf
      requires addr + len <= mem.Length
      modifies this, sendBuf.buf
      ensures SendAt(SendChunks(len, maxInlineData), mem[addr..addr + len], addr, maxInlineData, sendBuf.Entry(), offset, k, posted)
      ensures sendLog == old(sendLog) + posted
      ensures Run(nic.sendPostOk, nic.sendCqOk, old(sendPosts), old(sendPolls), sendPosts, sendPolls, |posted|, k, offset, len, offset == len)
      ensures recvPosts == old(recvPosts) && recvPolls == old(recvPolls) && recvsPosted == old(recvsPosted)
    {
      ghost var cs := SendChunks(len, maxInlineData);
      ghost var src := mem[addr..addr + len];
      ghost var log0, p0, q0 := sendLog, sendPosts, sendPolls;
      offset, posted, k := 0, [], 0;
      var ok := true;
      while ok && offset < len
        invariant Valid()
        invariant mem[addr..addr + len] == src
        invariant SendAt(cs, src, addr, maxInlineData, sendBuf.Entry(), offset, k, posted)
        invariant sendLog == log0 + posted
        invariant Run(nic.sendPostOk, nic.sendCqOk, p0, q0, sendPosts, sendPolls, |posted|, k, offset, len, ok)
        invariant recvPosts == old(recvPosts) && recvPolls == old(recvPolls) && recvsPosted == old(recvsPosted)
        decreases len - offset, ok
      {
        ok, offset, k, posted := SendNext(mem, addr, len, offset, k, posted, cs, src, log0, p0, q0);
      }
    }

    /** One pass of Send's loop, with the bookkeeping of the run. */
    method SendNext(mem: array<byte>, addr: nat, len: nat, offset: nat, ghost k: nat, ghost posted: seq<PostedSend>,
                    ghost cs: seq<nat>, ghost src: seq<byte>, ghost log0: seq<PostedSend>, ghost p0: nat, ghost q0: nat)
      returns (ok: bool, offset': nat, ghost k': nat, ghost posted': seq<PostedSend>)
      requires Valid()
      requires mem != sendBuf.buf && mem != recvBuf.buf
      requires offset < len && addr + len <= mem.Length && mem[addr..addr + len] == src
      requires SendAt(cs, src, addr, maxInlineData, sendBuf.Entry(), offset, k, posted)
      requires sendLog == log0 + posted
      requires Run(nic.sendPostOk, nic.sendCqOk, p0, q0, sendPosts, sendPolls, |posted|, k, offset, len, true)
      modifies this, sendBuf.buf
      ensures SendAt(cs, src, addr, maxInlineData, sendBuf.Entry(), offset', k', posted')
      ensures sendLog == log0 + posted'
      ensures Run(nic.sendPostOk, nic.sendCqOk, p0, q0, sendPosts, sendPolls, |posted'|, k', offset', len, ok)
      ensures ok ==> offset < offset' <= len
      ensures !ok ==> offset' == offset
      ensures recvPosts == old(recvPosts) && recvPolls == old(recvPolls) && recvsPosted == old(recvsPosted)
    {
      var n;
      ghost var w;
      ghost var accepted := nic.sendPostOk(sendPosts);
      ok, n, w := SendRound(mem, addr, len, offset);
      SendStep(cs, src, addr, maxInlineData, sendBuf.Entry(), offset, k, posted, n, w);
      posted' := if accepted then posted + [w] else posted;
      offset', k' := offset, k;
      if ok {
        offset', k' := offset + n, k + 1;
      }
      RunStep(nic.sendPostOk, nic.sendCqOk, p0, q0, k, offset, len, n, ok, sendPosts, sendPolls, |posted'|, k', offset');
    }

    /** Recv's post of the receive buffer. */
    method PostRecv() returns (ok: bool)
      modifies this
      ensures ok == nic.recvPostOk(old(recvPosts))
      ensures recvPosts == old(recvPosts) + 1
      ensures recvsPosted == old(recvsPosted) + (if ok then 1 else 0)
      ensures sendPosts == old(sendPosts) && sendPolls == old(sendPolls) && sendLog == old(sendLog)
      ensures recvPolls == old(recvPolls)
    {
      ok := nic.recvPostOk(recvPosts);
      recvPosts := recvPosts + 1;
      if ok {
        recvsPosted := recvsPosted + 1;
      }
    }

    /** PollCQ on the receive queue: waits for the next completion; when it
        reports success the message has landed in the receive buffer. */
    method PollRecv() returns (ok: bool)
      requires Valid()
      modifies this, recvBuf.buf
      ensures ok == nic.recvCqOk(old(recvPolls))
      ensures recvPolls == old(recvPolls) + 1
      ensures ok ==> recvBuf.buf[..] == landed(old(recvPolls))
      ensures sendPosts == old(sendPosts) && sendPolls == old(sendPolls) && sendLog == old(sendLog)
      ensures recvPosts == old(recvPosts) && recvsPosted == old(recvsPosted)
    {
      ok := nic.recvCqOk(recvPolls);
      if ok {
        var block := landed(recvPolls);
        forall i | 0 <= i < RDMA_BUF_LEN {
          recvBuf.buf[i] := block[i];
        }
        assert recvBuf.buf[..] == block;
      }
      recvPolls := recvPolls + 1;
    }

    /** One pass of Recv's loop at `offset`: post, wait, and copy the next
        chunk of the plan out of the landed buffer. */
    method RecvRound(mem: array<byte>, addr: nat, len: nat, offset: nat) returns (ok: bool, n: nat)
      requires Valid()
      requires mem != sendBuf.buf && mem != recvBuf.buf
      requires offset < len && addr + len <= mem.Length
      modifies this, recvBuf.buf, mem
      ensures ok <==> nic.recvPostOk(old(recvPosts)) && nic.recvCqOk(old(recvPolls))
      ensures recvPosts == old(recvPosts) + 1
      ensures recvPolls == old(recvPolls) + (if nic.recvPostOk(old(recvPosts)) then 1 else 0)
      ensures recvsPosted == old(recvsPosted) + (if nic.recvPostOk(old(recvPosts)) then 1 else 0)
      ensures n == (if ok then Min(len - offset, RDMA_BUF_LEN) else 0)
      ensures mem[..] == old(mem[..addr + offset]) + landed(old(recvPolls))[..n] + old(mem[addr + offset + n..])
      ensures sendPosts == old(sendPosts) && sendPolls == old(sendPolls) && sendLog == old(sendLog)
    {
      n := 0;
      ok := PostRecv();
      if !ok {
        return;
      }
      ok := PollRecv();
      if !ok {
        return;
      }
      n := recvBuf.Read(mem, addr + offset, len - offset);
    }

    /** Recv(buf, len): fills mem[addr..addr + len] one receive at a time and
        stops at the first failed post or completion. It returns the bytes
        copied, which are the first `k` chunks of the plan RecvChunks, and
        those bytes are the prefixes of the receive buffer after the
        completions it took, in order; the rest of memory is untouched. */
    method Recv(mem: array<byte>, addr: nat, len: nat) returns (offset: nat, ghost k: nat)
      requires Valid()
      requires mem != sendBuf.buf && mem != recvBuf.buf
      requires addr + len <= mem.Length
      modifies this, recvBuf.buf, mem
      ensures offset <= len
      ensures k <= |RecvChunks(len)| && offset == Sum(RecvChunks(len)[..k])
      ensures offset == len <==> k == |RecvChunks(len)|
      ensures mem[..] == old(mem[..addr]) + Gathered(landed, old(recvPolls), RecvChunks(len)[..k]) + old(mem[addr + offset..])
      ensures forall j :: old(recvPosts) <= j < old(recvPosts) + k ==> nic.recvPostOk(j)
      ensures forall j :: old(recvPolls) <= j < old(recvPolls) + k ==> nic.recvCqOk(j)
      ensures offset < len ==> !nic.recvPostOk(old(recvPosts) + k) || !nic.recvCqOk(old(recvPolls) + k)
      ensures recvPosts == old(recvPosts) + k + (if offset < len then 1 else 0)
      ensures recvsPosted == old(recvsPosted) + k + (if offset < len && nic.recvPostOk(old(recvPosts) + k) then 1 else 0)
      ensures sendPosts == old(sendPosts) && sendPolls == old(sendPolls) && sendLog == old(sendLog)
    {
      offset, k := RecvRounds(mem, addr, len);
      assert RecvChunks(len)[k..] == RecvChunks(len - offset);
    }

    /** The loop of Recv, stated on the progress predicate RecvAt. */
    method RecvRounds(mem: array<byte>, addr: nat, len: nat) returns (offset: nat, ghost k: nat)
      requires Valid()
      requires mem != sendBuf.buf && mem != recvBuf.buf
      requires addr + len <= mem.Length
      modifies this, recvBuf.buf, mem
      ensures RecvAt(RecvChunks(len), len, offset, k)
      ensures mem[..] == old(mem[..addr]) + Gathered(landed, old(recvPolls), RecvChunks(len)[..k]) + old(mem[addr + offset..])
      ensures recvsPosted >= old(recvsPosted)
      ensures Run(nic.recvPostOk, nic.recvCqOk, old(recvPosts), old(recvPolls), recvPosts, recvPolls, recvsPosted - old(recvsPosted), k, offset, len, offset == len)
      ensures sendPosts == old(sendPosts) && sendPolls == old(sendPolls) && sendLog == old(sendLog)
    {
      ghost var cs := RecvChunks(len);
      ghost var m0 := mem[..];
      ghost var p0, q0, r0 := recvPosts, recvPolls, recvsPosted;
      offset, k := 0, 0;
      var ok := true;
      while ok && offset < len
        invariant Valid()
        invariant RecvAt(cs, len, offset, k)
        invariant mem[..] == m0[..addr] + Gathered(landed, q0, cs[..k]) + m0[addr + offset..]
        invariant recvsPosted >= r0
        invariant Run(nic.recvPostOk, nic.recvCqOk, p0, q0, recvPosts, recvPolls, recvsPosted - r0, k, offset, len, ok)
        invariant sendPosts == old(sendPosts) && sendPolls == old(sendPolls) && sendLog == old(sendLog)
        decreases len - offset, ok
      {
        ok, offset, k := RecvNext(mem, addr, len, offset, k, cs, m0, p0, q0, r0);
      }
    }

    /** One pass of Recv's loop, with the bookkeeping of the run. */
    method RecvNext(mem: array<byte>, addr: nat, len: nat, offset: nat, ghost k: nat,
                    ghost cs: seq<nat>, ghost m0: seq<byte>, ghost p0: nat, ghost q0: nat, ghost r0: nat)
      returns (ok: bool, offset': nat, ghost k': nat)
      requires Valid()
      requires mem != sendBuf.buf && mem != recvBuf.buf
      requires offset < len && addr + len <= mem.Length && |m0| == mem.Length
      requires RecvAt(cs, len, offset, k)
      requires mem[..] == m0[..addr] + Gathered(landed, q0, cs[..k]) + m0[addr + offset..]
      requires recvsPosted >= r0
      requires Run(nic.recvPostOk, nic.recvCqOk, p0, q0, recvPosts, recvPolls, recvsPosted - r0, k, offset, len, true)
      modifies this, recvBuf.buf, mem
      ensures RecvAt(cs, len, offset', k')
      ensures mem[..] == m0[..addr] + Gathered(landed, q0, cs[..k']) + m0[addr + offset'..]
      ensures recvsPosted >= r0
      ensures Run(nic.recvPostOk, nic.recvCqOk, p0, q0, recvPosts, recvPolls, recvsPosted - r0, k', offset', len, ok)
      ensures ok ==> offset < offset' <= len
      ensures !ok ==> offset' == offset
      ensures sendPosts == old(sendPosts) && sendPolls == old(sendPolls) && sendLog == old(sendLog)
    {
      var n;
      ghost var pre := mem[..];
      ok, n := RecvRound(mem, addr, len, offset);
      offset', k' := offset, k;
      if ok {
        RecvAdvance(cs, len, offset, k, landed, q0, m0, pre, mem[..], addr, n);
        offset', k' := offset + n, k + 1;
      } else {
        assert mem[..] == pre;
      }
      RunStep(nic.recvPostOk, nic.recvCqOk, p0, q0, k, offset, len, n, ok, recvPosts, recvPolls, recvsPosted - r0, k', offset');
    }

    /** Send(LocalMemoryRegion&): sends the bytes of a region. */
    method SendRegion(mem: array<byte>, l: RdmaLocalMemoryRegion) returns (n: nat, ghost posted: seq<PostedSend>, ghost k: nat)
      requires Valid()
      requires mem != sendBuf.buf && mem != recvBuf.buf
      requires l.GetAddr() + l.GetLength() <= mem.Length
      modifies this, sendBuf.buf
      ensures k <= |SendChunks(l.GetLength(), maxInlineData)| && n == Sum(SendChunks(l.GetLength(), maxInlineData)[..k])
      ensures n == l.GetLength() <==> k == |SendChunks(l.GetLength(), maxInlineData)|
      ensures sendLog == old(sendLog) + posted
      ensures Conveys(posted, SendChunks(l.GetLength(), maxInlineData), mem[l.GetAddr()..l.GetAddr() + l.GetLength()],
                      l.GetAddr(), maxInlineData, sendBuf.Entry())
    {
      n, posted, k := Send(mem, l.GetAddr(), l.GetLength());
    }

    /** Recv(LocalMemoryRegion&): receives into the bytes of a region. */
    method RecvRegion(mem: array<byte>, l: RdmaLocalMemoryRegion) returns (n: nat, ghost k: nat)
      requires Valid()
      requires mem != sendBuf.buf && mem != recvBuf.buf
      requires l.GetAddr() + l.GetLength() <= mem.Length
      modifies this, recvBuf.buf, mem
      ensures n <= l.GetLength() && k <= |RecvChunks(l.GetLength())| && n == Sum(RecvChunks(l.GetLength())[..k])
      ensures n == l.GetLength() <==> k == |RecvChunks(l.GetLength())|
      ensures mem[..] == old(mem[..l.GetAddr()]) + Gathered(landed, old(recvPolls), RecvChunks(l.GetLength())[..k]) + old(mem[l.GetAddr() + n..])
    {
      n, k := Recv(mem, l.GetAddr(), l.GetLength());
    }

    /** Write: one RDMA WRITE of the whole region to the remote one, inline
        exactly when the region fits the inline limit; the result is the
        region's length when the request and its completion succeed and 0
        otherwise. */
    method Write(l: RdmaLocalMemoryRegion, r: RemoteMemoryRegion) returns (n: nat, ghost w: PostedSend)
      modifies this
      ensures w.opcode == WrRdmaWrite && w.inline == (l.GetLength() <= maxInlineData)
      ensures w.sge == Sge(l.GetAddr(), Wrap32(l.GetLength()), l.GetLKey()) && w.raddr == r.addr && w.rkey == r.rkey
      ensures n == l.GetLength() || n == 0
      ensures n == l.GetLength() <== nic.sendPostOk(old(sendPosts)) && nic.sendCqOk(old(sendPolls))
      ensures l.GetLength() > 0 ==> (n == l.GetLength() <==> nic.sendPostOk(old(sendPosts)) && nic.sendCqOk(old(sendPolls)))
      ensures sendLog == old(sendLog) + (if nic.sendPostOk(old(sendPosts)) then [w] else [])
    {
      w := PostedSend(WrRdmaWrite, Sge(l.GetAddr(), Wrap32(l.GetLength()), l.GetLKey()), l.GetLength() <= maxInlineData, r.addr, r.rkey, []);
      var ok := PostSend(w);
      n := if ok then l.GetLength() else 0;
    }

    /** Read: one RDMA READ of the remote region into the whole local one,
        never inline, with the same result rule as Write. */
    method Read(l: RdmaLocalMemoryRegion, r: RemoteMemoryRegion) returns (n: nat, ghost w: PostedSend)
      modifies this
      ensures w.opcode == WrRdmaRead && !w.inline
      ensures w.sge == Sge(l.GetAddr(), Wrap32(l.GetLength()), l.GetLKey()) && w.raddr == r.addr && w.rkey == r.rkey
      ensures n == l.GetLength() || n == 0
      ensures n == l.GetLength() <== nic.sendPostOk(old(sendPosts)) && nic.sendCqOk(old(sendPolls))
      ensures l.GetLength() > 0 ==> (n == l.GetLength() <==> nic.sendPostOk(old(sendPosts)) && nic.sendCqOk(old(sendPolls)))
      ensures sendLog == old(sendLog) + (if nic.sendPostOk(old(sendPosts)) then [w] else [])
    {
      w := PostedSend(WrRdmaRead, Sge(l.GetAddr(), Wrap32(l.GetLength()), l.GetLKey()), false, r.addr, r.rkey, []);
      var ok := PostSend(w);
      n := if ok then l.GetLength() else 0;
    }

    /** SynRemoteMemoryRegion: sends the 20-byte record of a region, ignoring
        how much of it went out. The record is one chunk: when the NIC
        accepts the request, that request carries the record, inline exactly
        when 20 bytes fit the inline limit. */
    method SynRemoteMemoryRegion(l: RdmaLocalMemoryRegion) returns (ghost posted: seq<PostedSend>)
      requires Valid()
      modifies this, sendBuf.buf
      ensures sendLog == old(sendLog) + posted
      ensures |posted| == (if nic.sendPostOk(old(sendPosts)) then 1 else 0)
      ensures |posted| == 1 ==>
                && posted[0].opcode == WrSend && posted[0].inline == (RMR_RECORD_LEN <= maxInlineData)
                && RMR_RECORD_LEN <= |posted[0].data| && posted[0].data[..RMR_RECORD_LEN] == EncodeSyn(l)
    {
      var record := Staged(EncodeSyn(l));
      var n;
      ghost var k;
      n, posted, k := Send(record, 0, RMR_RECORD_LEN);
      SingleChunk(RMR_RECORD_LEN, maxInlineData);
      if |posted| == 1 {
        assert Carries(posted[0], Sum(SendChunks(RMR_RECORD_LEN, maxInlineData)[..0]), RMR_RECORD_LEN, EncodeSyn(l), 0, maxInlineData, sendBuf.Entry());
      }
    }

    /** AckRemoteMemoryRegion: receives a 20-byte record and decodes it; no
        descriptor unless all 20 bytes arrived, which takes one successful
        receive, whose landed buffer then holds the record. */
    method AckRemoteMemoryRegion() returns (r: Option<RemoteMemoryRegion>)
      requires Valid()
      modifies this, recvBuf.buf
      ensures r.Some? <==> nic.recvPostOk(old(recvPosts)) && nic.recvCqOk(old(recvPolls))
      ensures r.Some? ==> r.value == DecodeSyn(landed(old(recvPolls))[..RMR_RECORD_LEN])
    {
      var record := new byte[RMR_RECORD_LEN];
      var n;
      ghost var k;
      n, k := Recv(record, 0, RMR_RECORD_LEN);
      SingleChunk(RMR_RECORD_LEN, maxInlineData);
      if n != RMR_RECORD_LEN {
        return None;
      }
      assert RecvChunks(RMR_RECORD_LEN)[..1] == [RMR_RECORD_LEN];
      assert record[..] == record[0..RMR_RECORD_LEN];
      r := Some(DecodeSyn(record[..]));
    }
  }

  /** A message of at most one buffer is a single chunk on both sides. */
  lemma SingleChunk(len: nat, maxInline: nat)
    requires 0 < len <= RDMA_BUF_LEN
    ensures SendChunks(len, maxInline) == [len] && RecvChunks(len) == [len]
  {
    assert SendChunks(0, maxInline) == [] && RecvChunks(0) == [];
  }

  /** The `k` calls of `f` from `from` on all answered true. */
  ghost predicate Succeeded(f: nat -> bool, from: nat, k: nat)
  {
    forall j :: from <= j < from + k ==> f(j)
  }

  /** The calls of a loop that posts and then polls once per pass, started
      at post number `p0` and poll number `q0`, and has finished `k` passes
      at `offset` of `len`: every post and completion of those passes
      succeeded, `accepted` posts went through, and unless the loop is still
      `ok`, the next post or its completion failed and stopped it. */
  ghost predicate Run(postOk: nat -> bool, cqOk: nat -> bool, p0: nat, q0: nat, posts: nat, polls: nat, accepted: nat,
                      k: nat, offset: nat, len: nat, ok: bool)
  {
    && Succeeded(postOk, p0, k) && Succeeded(cqOk, q0, k)
    && (ok ==> accepted == k && posts == p0 + k && polls == q0 + k)
    && (!ok ==> offset < len && posts == p0 + k + 1)
    && (!ok ==> accepted == k + (if postOk(p0 + k) then 1 else 0))
    && (!ok ==> !postOk(p0 + k) || !cqOk(q0 + k))
  }

  /** One more pass of such a loop: it succeeds when its post and its
      completion do, and then moves `n` bytes. */
  lemma RunStep(postOk: nat -> bool, cqOk: nat -> bool, p0: nat, q0: nat, k: nat, offset: nat, len: nat, n: nat,
                ok: bool, posts: nat, polls: nat, accepted: nat, k': nat, offset': nat)
    requires Succeeded(postOk, p0, k) && Succeeded(cqOk, q0, k) && offset < len
    requires ok == (postOk(p0 + k) && cqOk(q0 + k))
    requires posts == p0 + k + 1
    requires polls == q0 + k + (if postOk(p0 + k) then 1 else 0)
    requires accepted == k + (if postOk(p0 + k) then 1 else 0)
    requires k' == (if ok then k + 1 else k) && offset' == (if ok then offset + n else offset)
    ensures Run(postOk, cqOk, p0, q0, posts, polls, accepted, k', offset', len, ok)
  {
  }

  /** Send has moved the first `k` chunks of the plan `cs` of `src`, which
      add up to `offset`, and the rest of the plan is the plan of what is
      left; the requests `posted` carry chunks of the plan in order. */
  ghost predicate SendAt(cs: seq<nat>, src: seq<byte>, addr: nat, maxInline: nat, bufSge: Sge, offset: nat, k: nat, posted: seq<PostedSend>)
  {
    && k <= |cs| && offset <= |src|
    && offset == Sum(cs[..k])
    && cs[k..] == SendChunks(|src| - offset, maxInline)
    && Conveys(posted, cs, src, addr, maxInline, bufSge)
  }

  /** Where Send's loop stops: `k` whole chunks of the plan went through,
      all of it exactly when the offset reached the end, and otherwise the
      next post or its completion failed. */
  lemma SendDone(cs: seq<nat>, src: seq<byte>, addr: nat, maxInline: nat, bufSge: Sge, offset: nat, k: nat,
                 posted: seq<PostedSend>, postOk: nat -> bool, cqOk: nat -> bool, p0: nat, q0: nat, posts: nat, polls: nat)
    requires cs == SendChunks(|src|, maxInline)
    requires SendAt(cs, src, addr, maxInline, bufSge, offset, k, posted)
    requires Run(postOk, cqOk, p0, q0, posts, polls, |posted|, k, offset, |src|, offset == |src|)
    ensures offset <= |src|
    ensures k <= |cs| && offset == Sum(cs[..k])
    ensures offset == |src| <==> k == |cs|
    ensures |posted| == k + (if offset < |src| && postOk(p0 + k) then 1 else 0)
    ensures Conveys(posted, cs, src, addr, maxInline, bufSge)
    ensures forall j :: p0 <= j < p0 + k ==> postOk(j)
    ensures forall j :: q0 <= j < q0 + k ==> cqOk(j)
    ensures offset < |src| ==> !postOk(p0 + k) || !cqOk(q0 + k)
    ensures posts == p0 + k + (if offset < |src| then 1 else 0)
  {
    assert cs[k..] == SendChunks(|src| - offset, maxInline);
  }

  /** Recv has copied the first `k` chunks of the plan `cs` for `len` bytes,
      which add up to `offset`, and the rest of the plan is the plan of what
      is left. */
  ghost predicate RecvAt(cs: seq<nat>, len: nat, offset: nat, k: nat)
  {
    && k <= |cs| && offset <= len
    && offset == Sum(cs[..k])
    && cs[k..] == RecvChunks(len - offset)
  }

  /** One pass of Send's loop keeps its progress: the chunk it handles is the
      plan's next one, its request extends the conveyed prefix whether or
      not its completion succeeds, and on success the chunk is moved. */
  lemma SendStep(cs: seq<nat>, src: seq<byte>, addr: nat, maxInline: nat, bufSge: Sge,
                 offset: nat, k: nat, posted: seq<PostedSend>, n: nat, w: PostedSend)
    requires SendAt(cs, src, addr, maxInline, bufSge, offset, k, posted)
    requires |posted| == k && offset < |src|
    requires n == Chunk(|src| - offset, maxInline)
    requires Carries(w, offset, n, src, addr, maxInline, bufSge)
    ensures SendAt(cs, src, addr, maxInline, bufSge, offset, k, posted + [w])
    ensures SendAt(cs, src, addr, maxInline, bufSge, offset + n, k + 1, posted + [w])
  {
    assert cs[k..][0] == n;
    assert cs[k + 1..] == cs[k..][1..];
    SumSnoc(cs, k);
    var ws := posted + [w];
    forall i | 0 <= i < |ws|
      ensures Carries(ws[i], Sum(cs[..i]), cs[i], src, addr, maxInline, bufSge)
    {
      if i < k {
        assert ws[i] == posted[i];
      }
    }
  }

  /** One successful pass of Recv's loop keeps its progress, and what it
      copies extends what has been gathered. */
  lemma RecvStep(cs: seq<nat>, len: nat, offset: nat, k: nat, landed: nat -> Block, start: nat)
    requires RecvAt(cs, len, offset, k) && offset < len
    ensures k < |cs| && cs[k] == Min(len - offset, RDMA_BUF_LEN)
    ensures RecvAt(cs, len, offset + cs[k], k + 1)
    ensures Gathered(landed, start, cs[..k + 1]) == Gathered(landed, start, cs[..k]) + landed(start + k)[..cs[k]]
  {
    assert cs[k..][0] == cs[k];
    assert cs[k + 1..] == cs[k..][1..];
    SumSnoc(cs, k);
    assert cs[..k + 1][..k] == cs[..k];
  }

  /** A successful pass of Recv's loop, on the plan and on memory. */
  lemma RecvAdvance(cs: seq<nat>, len: nat, offset: nat, k: nat, landed: nat -> Block, q0: nat,
                    m0: seq<byte>, pre: seq<byte>, post: seq<byte>, addr: nat, n: nat)
    requires RecvAt(cs, len, offset, k) && offset < len && addr + len <= |m0| == |pre|
    requires n == Min(len - offset, RDMA_BUF_LEN)
    requires pre == m0[..addr] + Gathered(landed, q0, cs[..k]) + m0[addr + offset..]
    requires post == pre[..addr + offset] + landed(q0 + k)[..n] + pre[addr + offset + n..]
    ensures RecvAt(cs, len, offset + n, k + 1)
    ensures post == m0[..addr] + Gathered(landed, q0, cs[..k + 1]) + m0[addr + offset + n..]
  {
    RecvStep(cs, len, offset, k, landed, q0);
    Splice(m0, pre, post, addr, offset, n, Gathered(landed, q0, cs[..k]), landed(q0 + k)[..n]);
  }

  /** Memory after one more copy: the gathered prefix grows by the copied
      bytes and the untouched tail shrinks by as many. */
  lemma Splice(m0: seq<byte>, pre: seq<byte>, post: seq<byte>, addr: nat, offset: nat, n: nat, g: seq<byte>, piece: seq<byte>)
    requires addr + offset + n <= |m0| && |g| == offset && |piece| == n
    requires pre == m0[..addr] + g + m0[addr + offset..]
    requires post == pre[..addr + offset] + piece + pre[addr + offset + n..]
    ensures post == m0[..addr] + (g + piece) + m0[addr + offset + n..]
  {
    assert pre[..addr + offset] == m0[..addr] + g;
    assert pre[addr + offset + n..] == m0[addr + offset + n..];
  }
}
