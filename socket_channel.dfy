/** The TCP channel of the socket transport: a scatter-gather engine that
    pushes an iovec array through writev/readv, advancing the array in place
    after every partial transfer, plus queues of pending iovecs that the
    event loop drains when the socket becomes ready. */
module SocketChannels {
  import opened Common
  import opened SocketEventLoops

  /** Most entries a single writev/readv is given. */
  const IOV_MAX: nat := 1024

  /** A struct iovec: `len` bytes starting at address `base`. The same pair
      describes a socket memory region (GetAddr, GetLength). */
  datatype IoVec = IoVec(base: nat, len: nat)
  {
    /** One past the last byte the entry covers. */
    function End(): nat { base + len }
  }

  /** Number of bytes the entries describe together. */
  function TotalLen(s: seq<IoVec>): nat
  {
    if s == [] then 0 else s[0].len + TotalLen(s[1..])
  }

  lemma {:induction false} TotalLenSnoc(s: seq<IoVec>, x: IoVec)
    ensures TotalLen(s + [x]) == TotalLen(s) + x.len
    decreases |s|
  {
    if s == [] {
      assert s + [x] == [x];
      assert [x][1..] == [];
    } else {
      assert (s + [x])[1..] == s[1..] + [x];
      TotalLenSnoc(s[1..], x);
    }
  }

  lemma {:induction false} TotalLenSplit(s: seq<IoVec>, k: nat)
    requires k <= |s|
    ensures TotalLen(s) == TotalLen(s[..k]) + TotalLen(s[k..])
    decreases k
  {
    if k == 0 {
      assert s[..k] == [] && s[k..] == s;
    } else {
      assert s[..k][1..] == s[1..][..k - 1];
      assert s[k..] == s[1..][k - 1..];
      TotalLenSplit(s[1..], k - 1);
    }
  }

  /** The result of one writev/readv: a positive byte count, or -1 with errno
      EAGAIN/EWOULDBLOCK, or any other failure (including a result of 0). */
  datatype SysResult = Moved(n: nat) | WouldBlock | Failed

  /** The kernel's answer to the k-th writev (or readv) on `window`. */
  type IoOracle = (nat, seq<IoVec>) -> SysResult

  /** The kernel never reports more bytes than the window offers, and a
      positive count is the only way to report progress. */
  ghost predicate Honest(io: IoOracle)
  {
    forall k: nat, w: seq<IoVec> :: Answer(io, k, w).Moved? ==> 0 < Answer(io, k, w).n <= TotalLen(w)
  }

  /** The kernel's answer to the k-th call on window w. */
  function Answer(io: IoOracle, k: nat, w: seq<IoVec>): SysResult
  {
    io(k, w)
  }

  /** Where a transfer of `rest` bytes from s[offset..] leaves the scan:
      the index of the first entry it does not cover completely, and the
      bytes it takes from that entry. */
  function Skip(s: seq<IoVec>, offset: nat, rest: nat): (r: (nat, nat))
    requires offset <= |s|
    ensures offset <= r.0 <= |s|
    ensures r.0 < |s| ==> r.1 < s[r.0].len
    decreases |s| - offset
  {
    if offset < |s| && s[offset].len <= rest then Skip(s, offset + 1, rest - s[offset].len)
    else (offset, rest)
  }

  /** Skip splits the transferred bytes into the entries it passes and the
      bytes it takes from the entry it stops at. */
  lemma {:induction false} SkipSplits(s: seq<IoVec>, offset0: nat, sent0: nat)
    requires offset0 <= |s|
    requires sent0 <= TotalLen(s[offset0..])
    ensures Skip(s, offset0, sent0).1 + TotalLen(s[offset0..Skip(s, offset0, sent0).0]) == sent0
    ensures Skip(s, offset0, sent0).1 <= TotalLen(s[Skip(s, offset0, sent0).0..])
    decreases |s| - offset0
  {
    if offset0 < |s| && s[offset0].len <= sent0 {
      assert s[offset0..][1..] == s[offset0 + 1..];
      SkipSplits(s, offset0 + 1, sent0 - s[offset0].len);
      var o := Skip(s, offset0 + 1, sent0 - s[offset0].len).0;
      assert s[offset0..o][1..] == s[offset0 + 1..o];
    } else {
      assert s[offset0..offset0] == [];
    }
  }

  /** The array a transfer of `sent` bytes from s[offset0..] leaves, and the
      offset it reaches: the entry Skip stops at advanced in place. */
  function Advance(s: seq<IoVec>, offset0: nat, sent: nat): (seq<IoVec>, nat)
    requires offset0 <= |s|
  {
    var (offset, rest) := Skip(s, offset0, sent);
    if offset < |s| then (s[offset := IoVec(s[offset].base + rest, s[offset].len - rest)], offset)
    else (s, offset)
  }

  /** The scan of Consume: skips the entries of s[offset0..] that `sent0`
      bytes cover completely; `rest` is what is left of `sent0`, less than
      the entry reached. */
  method SkipCovered(s: seq<IoVec>, offset0: nat, sent0: nat) returns (offset: nat, rest: nat)
    requires offset0 <= |s|
    requires sent0 <= TotalLen(s[offset0..])
    ensures (offset, rest) == Skip(s, offset0, sent0)
    ensures offset0 <= offset <= |s|
    ensures rest + TotalLen(s[offset0..offset]) == sent0
    ensures rest <= TotalLen(s[offset..])
    ensures offset < |s| ==> rest < s[offset].len
  {
    offset := offset0;
    rest := sent0;
    while offset < |s| && s[offset].len <= rest
      invariant offset0 <= offset <= |s|
      invariant Skip(s, offset, rest) == Skip(s, offset0, sent0)
      invariant rest + TotalLen(s[offset0..offset]) == sent0
      invariant rest <= TotalLen(s[offset..])
      decreases |s| - offset
    {
      assert s[offset..][1..] == s[offset + 1..];
      assert s[offset0..offset + 1] == s[offset0..offset] + [s[offset]];
      TotalLenSnoc(s[offset0..offset], s[offset]);
      rest := rest - s[offset].len;
      offset := offset + 1;
    }
  }

  /** The bytes left after advancing entry `offset` by `rest` in place. */
  lemma AdvanceLeft(s: seq<IoVec>, t: seq<IoVec>, offset0: nat, offset: nat, rest: nat)
    requires offset0 <= offset < |s| == |t|
    requires rest < s[offset].len
    requires t[offset] == IoVec(s[offset].base + rest, s[offset].len - rest)
    requires t[offset + 1..] == s[offset + 1..]
    ensures TotalLen(t[offset..]) + rest + TotalLen(s[offset0..offset]) == TotalLen(s[offset0..])
  {
    assert t[offset..][1..] == t[offset + 1..];
    assert s[offset..][1..] == s[offset + 1..];
    TotalLenSplit(s[offset0..], offset - offset0);
    assert s[offset0..][..offset - offset0] == s[offset0..offset];
    assert s[offset0..][offset - offset0..] == s[offset..];
  }

  /** `after` is `before` once `sent` bytes of before[offset0..] are
      accounted for: the entries they cover completely are skipped up to
      index `offset`, the entry there is advanced in place by the bytes left
      over (which are fewer than it holds), every other entry is kept, and
      after[offset..] describes exactly the bytes not yet accounted for. */
  ghost predicate Advanced(before: seq<IoVec>, after: seq<IoVec>, offset0: nat, offset: nat, sent: nat)
  {
    && |after| == |before| && offset0 <= offset <= |before|
    && TotalLen(before[offset0..offset]) <= sent
    && (offset < |before| ==>
          var rest := sent - TotalLen(before[offset0..offset]);
          && rest < before[offset].len
          && after[offset] == IoVec(before[offset].base + rest, before[offset].len - rest))
    && (forall i :: 0 <= i < |after| && i != offset ==> after[i] == before[i])
    && TotalLen(after[offset..]) + sent == TotalLen(before[offset0..])
  }

  /** Accounts for `sent` transferred bytes from iov[offset0..]: every entry
      that `sent` covers completely is skipped, and the first one it covers
      only in part is advanced in place by the bytes left over. */
  method Consume(iov: array<IoVec>, offset0: nat, sent0: nat) returns (offset: nat)
    requires offset0 <= iov.Length
    requires sent0 <= TotalLen(iov[offset0..])
    modifies iov
    ensures (iov[..], offset) == Advance(old(iov[..]), offset0, sent0)
    ensures Advanced(old(iov[..]), iov[..], offset0, offset, sent0)
  {
    ghost var s := iov[..];
    var rest;
    offset, rest := SkipCovered(iov[..], offset0, sent0);
    if offset < iov.Length {
      iov[offset] := IoVec(iov[offset].base + rest, iov[offset].len - rest);
    }
    AdvanceKeepsBytes(s, offset0, sent0);
  }

  /** Advance moves the offset past the covered entries, shortens only the
      entry it stops at, and leaves exactly the bytes not yet transferred. */
  lemma AdvanceKeepsBytes(s: seq<IoVec>, offset0: nat, sent0: nat)
    requires offset0 <= |s|
    requires sent0 <= TotalLen(s[offset0..])
    ensures Advanced(s, Advance(s, offset0, sent0).0, offset0, Advance(s, offset0, sent0).1, sent0)
  {
    SkipSplits(s, offset0, sent0);
    var (offset, rest) := Skip(s, offset0, sent0);
    var t := Advance(s, offset0, sent0).0;
    if offset < |s| {
      assert t[offset + 1..] == s[offset + 1..];
      AdvanceLeft(s, t, offset0, offset, rest);
    } else {
      assert t[offset..] == [];
      TotalLenSplit(s[offset0..], offset - offset0);
      assert s[offset0..][..offset - offset0] == s[offset0..offset];
    }
  }

  /** The bookkeeping TransferIOV keeps about the array `cur`, which started
      as `orig`, after the kernel reported `moved` bytes and the loop reached
      index `offset`: every byte is either reported or still described by
      cur[offset..], entries only ever lose bytes at their front, and the
      entries past `offset` are untouched. */
  ghost predicate Accounted(cur: seq<IoVec>, orig: seq<IoVec>, offset: nat, moved: nat)
  {
    && |cur| == |orig| && offset <= |cur|
    && moved + TotalLen(cur[offset..]) == TotalLen(orig)
    && (forall i :: 0 <= i < |cur| ==> cur[i].End() == orig[i].End() && cur[i].len <= orig[i].len)
    && (forall i :: offset < i < |cur| ==> cur[i] == orig[i])
    && (moved > 0 && offset < |cur| ==> cur[offset].len > 0)
  }

  /** A Consume of `n` bytes reported by the kernel keeps the bookkeeping. */
  lemma ConsumeKeepsAccounted(before: seq<IoVec>, after: seq<IoVec>, orig: seq<IoVec>,
                              offset0: nat, offset: nat, moved: nat, n: nat)
    requires Accounted(before, orig, offset0, moved)
    requires Advanced(before, after, offset0, offset, n)
    ensures Accounted(after, orig, offset, moved + n)
  {
  }

  /** The loop reached the end exactly when every byte was reported. */
  lemma AccountedComplete(cur: seq<IoVec>, orig: seq<IoVec>, offset: nat, moved: nat)
    requires Accounted(cur, orig, offset, moved)
    ensures offset == |cur| ==> moved == TotalLen(orig)
    ensures moved == TotalLen(orig) && moved > 0 ==> offset == |cur|
  {
    assert cur[|cur|..] == [];
    if offset < |cur| {
      assert cur[offset..][0] == cur[offset];
    }
  }

  /** One pass of the TransferIOV loop: hands the kernel the next window of
      at most IOV_MAX entries starting at `offset` and, on a positive count,
      consumes that many bytes. */
  method TransferStep(iov: array<IoVec>, io: IoOracle, calls: nat, offset: nat,
                      ghost orig: seq<IoVec>, ghost moved: nat)
      returns (res: SysResult, next: nat, window: seq<IoVec>)
    requires Honest(io)
    requires offset < iov.Length
    requires Accounted(iov[..], orig, offset, moved)
    modifies iov
    ensures 0 < |window| <= IOV_MAX && offset + |window| <= iov.Length
    ensures window == old(iov[offset..offset + |window|])
    ensures window == Window(old(iov[..]), offset)
    ensures res == io(calls, window)
    ensures res.Moved? ==>
              && Accounted(iov[..], orig, next, moved + res.n)
              && TotalLen(iov[next..]) < old(TotalLen(iov[offset..]))
              && (iov[..], next) == Advance(old(iov[..]), offset, res.n)
    ensures !res.Moved? ==> iov[..] == old(iov[..]) && next == offset
  {
    ghost var before := iov[..];
    window := Window(iov[..], offset);
    res := io(calls, window);
    next := offset;
    if res.Moved? {
      assert Answer(io, calls, window) == res;
      WindowWithin(before, offset);
      assert before[offset..] == iov[offset..];
      next := Consume(iov, offset, res.n);
      ConsumeKeepsAccounted(before, iov[..], orig, offset, next, moved, res.n);
      assert iov[..][next..] == iov[next..];
    }
  }

  /** The window one call is handed: the entries from `offset`, at most
      IOV_MAX of them. */
  function Window(s: seq<IoVec>, offset: nat): (w: seq<IoVec>)
    requires offset < |s|
    ensures 0 < |w| <= IOV_MAX && offset + |w| <= |s|
    ensures w == s[offset..offset + |w|]
  {
    s[offset..offset + (if |s| - offset > IOV_MAX then IOV_MAX else |s| - offset)]
  }

  /** A window offers no more bytes than the entries from its offset. */
  lemma WindowWithin(s: seq<IoVec>, offset: nat)
    requires offset < |s|
    ensures TotalLen(Window(s, offset)) <= TotalLen(s[offset..])
  {
    var w := Window(s, offset);
    TotalLenSplit(s[offset..], |w|);
    assert s[offset..][..|w|] == w;
  }

  /** Reference definition of the windows the transfer loop hands the
      kernel, from array `s` at `offset` with `calls` calls made: the window
      at the offset and, when its answer is progress, the windows of the
      array that answer leaves. (A progress answer outside the window is
      taken as the end; an honest kernel gives none.) */
  ghost function Transcript(io: IoOracle, s: seq<IoVec>, offset: nat, calls: nat): seq<seq<IoVec>>
    requires offset <= |s|
    decreases TotalLen(s[offset..])
  {
    if offset == |s| then []
    else
      var w := Window(s, offset);
      var a := Answer(io, calls, w);
      if a.Moved? && 0 < a.n <= TotalLen(w) then
        WindowWithin(s, offset);
        AdvanceKeepsBytes(s, offset, a.n);
        [w] + Transcript(io, Advance(s, offset, a.n).0, Advance(s, offset, a.n).1, calls + 1)
      else [w]
  }

  /** The bytes the kernel reported over a transcript of calls. */
  ghost function Reported(io: IoOracle, windows: seq<seq<IoVec>>): nat
    decreases |windows|
  {
    if windows == [] then 0
    else
      var k := |windows| - 1;
      Reported(io, windows[..k]) + (if Answer(io, k, windows[k]).Moved? then Answer(io, k, windows[k]).n else 0)
  }

  /** The last call of a transcript failed. */
  ghost predicate EndsFailed(io: IoOracle, windows: seq<seq<IoVec>>)
  {
    windows != [] && io(|windows| - 1, windows[|windows| - 1]).Failed?
  }

  /** The calls made so far: call k was handed windows[k], of 1 to IOV_MAX
      entries, and every call but the last reported progress. */
  ghost predicate Handed(io: IoOracle, windows: seq<seq<IoVec>>)
  {
    && (forall k :: 0 <= k < |windows| ==> 0 < |windows[k]| <= IOV_MAX)
    && (forall k :: 0 <= k < |windows| - 1 ==> io(k, windows[k]).Moved?)
  }

  /** The last call of a transcript, if any, reported progress. */
  ghost predicate LastMoved(io: IoOracle, windows: seq<seq<IoVec>>)
  {
    windows != [] ==> io(|windows| - 1, windows[|windows| - 1]).Moved?
  }

  lemma HandedSnoc(io: IoOracle, windows: seq<seq<IoVec>>, w: seq<IoVec>)
    requires Handed(io, windows) && LastMoved(io, windows)
    requires 0 < |w| <= IOV_MAX
    ensures Handed(io, windows + [w])
    ensures io(|windows|, w).Moved? ==> LastMoved(io, windows + [w])
  {
    var ws := windows + [w];
    forall k | 0 <= k < |ws| - 1
      ensures io(k, ws[k]).Moved?
    {
      assert ws[k] == windows[k];
    }
  }

  /** SendIOV and RecvIOV (the two are the same loop over writev and readv
      respectively): transfers iov[0..iov.Length) in windows of at most
      IOV_MAX entries, advancing the array after each positive count. A
      would-block answer ends the loop with the progress so far; any other
      failure gives 0. `done` is the index reached, `moved` the bytes the
      kernel reported, and `windows` the arrays handed to the kernel. */
  method TransferIOV(iov: array<IoVec>, io: IoOracle)
      returns (r: nat, ghost done: nat, ghost moved: nat, ghost failed: bool, ghost windows: seq<seq<IoVec>>)
    requires Honest(io)
    modifies iov
    ensures windows == Transcript(io, old(iov[..]), 0, 0)
    ensures moved == Reported(io, windows)
    ensures failed == EndsFailed(io, windows)
    ensures r == if failed then 0 else done
    ensures Accounted(iov[..], old(iov[..]), done, moved)
    ensures TotalLen(old(iov[..])) > 0 ==> (r == iov.Length <==> moved == TotalLen(old(iov[..])))
    ensures Handed(io, windows)
    ensures !failed && done < iov.Length ==> |windows| > 0 && io(|windows| - 1, windows[|windows| - 1]).WouldBlock?
    ensures done == iov.Length ==> LastMoved(io, windows)
  {
    var offset, res;
    offset, moved, res, windows := TransferLoop(iov, io);
    TransferEnds(iov[..], old(iov[..]), offset, moved, io, windows, res);
    failed := res.Failed?;
    done := offset;
    r := if res.Failed? then 0 else offset;
  }

  /** TransferIOV's loop: calls the kernel on the windows from the current
      offset until the array is done or an answer is not progress, keeping
      the bookkeeping of the bytes reported. */
  method TransferLoop(iov: array<IoVec>, io: IoOracle)
      returns (offset: nat, ghost moved: nat, res: SysResult, ghost windows: seq<seq<IoVec>>)
    requires Honest(io)
    modifies iov
    ensures Accounted(iov[..], old(iov[..]), offset, moved)
    ensures windows == Transcript(io, old(iov[..]), 0, 0)
    ensures moved == Reported(io, windows)
    ensures Handed(io, windows)
    ensures res.Moved? ==> offset >= iov.Length && LastMoved(io, windows)
    ensures !res.Moved? ==> offset < iov.Length && |windows| > 0 && res == io(|windows| - 1, windows[|windows| - 1])
  {
    ghost var orig := iov[..];
    offset := 0;
    var calls: nat := 0;
    moved, windows := 0, [];
    res := Moved(1);
    while offset < iov.Length
      invariant Progress(io, orig, iov[..], offset, moved, windows)
      invariant calls == |windows|
      invariant res.Moved?
      decreases TotalLen(iov[offset..])
    {
      ghost var before := iov[..];
      var next, window;
      res, next, window := TransferStep(iov, io, calls, offset, orig, moved);
      StepKeepsProgress(io, orig, before, iov[..], offset, next, moved, windows, window, res);
      windows := windows + [window];
      calls := calls + 1;
      if !res.Moved? {
        break;
      }
      offset := next;
      moved := moved + res.n;
    }
    assert offset < iov.Length ==> !res.Moved?;
  }

  /** What TransferIOV's loop knows after the calls `windows`: the
      bookkeeping of the `moved` bytes they reported, and that they are the
      start of the reference transcript of `orig`, continued by the
      transcript of the array `cur` at `offset`. */
  ghost predicate Progress(io: IoOracle, orig: seq<IoVec>, cur: seq<IoVec>, offset: nat, moved: nat,
                           windows: seq<seq<IoVec>>)
  {
    && Accounted(cur, orig, offset, moved)
    && windows + Transcript(io, cur, offset, |windows|) == Transcript(io, orig, 0, 0)
    && moved == Reported(io, windows)
    && Handed(io, windows) && LastMoved(io, windows)
  }

  /** One pass of the loop keeps its knowledge, or, on an answer that is not
      progress, completes the transcript. */
  lemma StepKeepsProgress(io: IoOracle, orig: seq<IoVec>, before: seq<IoVec>, after: seq<IoVec>,
                          offset: nat, next: nat, moved: nat, windows: seq<seq<IoVec>>,
                          window: seq<IoVec>, res: SysResult)
    requires Honest(io)
    requires Progress(io, orig, before, offset, moved, windows) && offset < |before|
    requires window == Window(before, offset) && res == io(|windows|, window)
    requires res.Moved? ==> Accounted(after, orig, next, moved + res.n) && (after, next) == Advance(before, offset, res.n)
    ensures res.Moved? ==> Progress(io, orig, after, next, moved + res.n, windows + [window])
    ensures !res.Moved? ==>
              && windows + [window] == Transcript(io, orig, 0, 0)
              && moved == Reported(io, windows + [window])
              && Handed(io, windows + [window])
  {
    TranscriptStep(io, before, offset, |windows|);
    var rest := if res.Moved? then Transcript(io, after, next, |windows| + 1) else [];
    ShiftWindow(windows, window, rest);
    ReportedSnoc(io, windows, window);
    HandedSnoc(io, windows, window);
  }

  /** One unfolding of the reference transcript under an honest kernel. */
  lemma TranscriptStep(io: IoOracle, s: seq<IoVec>, offset: nat, calls: nat)
    requires Honest(io)
    requires offset < |s|
    ensures var a := io(calls, Window(s, offset));
            Transcript(io, s, offset, calls)
            == [Window(s, offset)] + (if a.Moved? then Transcript(io, Advance(s, offset, a.n).0, Advance(s, offset, a.n).1, calls + 1) else [])
  {
    assert Answer(io, calls, Window(s, offset)) == io(calls, Window(s, offset));
  }

  /** Moving the next window from the transcript ahead to the calls made. */
  lemma ShiftWindow(windows: seq<seq<IoVec>>, w: seq<IoVec>, rest: seq<seq<IoVec>>)
    ensures windows + ([w] + rest) == (windows + [w]) + rest
  {
  }

  /** Appending a call adds what its answer reported. */
  lemma ReportedSnoc(io: IoOracle, windows: seq<seq<IoVec>>, w: seq<IoVec>)
    ensures Reported(io, windows + [w])
            == Reported(io, windows) + (if io(|windows|, w).Moved? then io(|windows|, w).n else 0)
  {
    assert (windows + [w])[..|windows|] == windows;
  }

  /** Where TransferIOV's loop stops: at the end of the array, exactly when
      every byte was reported, or at the answer that was not progress. */
  lemma TransferEnds(cur: seq<IoVec>, orig: seq<IoVec>, offset: nat, moved: nat, io: IoOracle,
                     windows: seq<seq<IoVec>>, res: SysResult)
    requires Accounted(cur, orig, offset, moved)
    requires res.Moved? ==> offset >= |cur|
    requires !res.Moved? ==> offset < |cur| && |windows| > 0 && res == io(|windows| - 1, windows[|windows| - 1])
    ensures TotalLen(orig) > 0 ==> ((if res.Failed? then 0 else offset) == |cur| <==> moved == TotalLen(orig))
    ensures res.Failed? ==> |windows| > 0 && io(|windows| - 1, windows[|windows| - 1]).Failed?
    ensures !res.Failed? && offset < |cur| ==> |windows| > 0 && io(|windows| - 1, windows[|windows| - 1]).WouldBlock?
  {
    AccountedComplete(cur, orig, offset, moved);
  }

  /** The bytes the kernel reports while TransferIOV runs on the array s. */
  ghost function BytesMoved(io: IoOracle, s: seq<IoVec>): nat
  {
    Reported(io, Transcript(io, s, 0, 0))
  }

  /** TransferIOV on the array s ends with a call that failed outright. */
  ghost predicate TransferFails(io: IoOracle, s: seq<IoVec>)
  {
    EndsFailed(io, Transcript(io, s, 0, 0))
  }

  /** The first call of a transfer is handed the first min(|s|, IOV_MAX)
      entries of the array, unchanged. */
  lemma FirstWindow(io: IoOracle, s: seq<IoVec>)
    requires s != []
    ensures Transcript(io, s, 0, 0) != []
    ensures Transcript(io, s, 0, 0)[0] == s[..if |s| > IOV_MAX then IOV_MAX else |s|]
  {
  }

  /** Send(buf, len) and Recv(buf, len), and through them Send/Recv of a
      region and Write/Read: one entry through TransferIOV; `len` is
      returned iff the kernel's answers moved all of its bytes, else 0. */
  method Transfer(buf: nat, len: nat, io: IoOracle) returns (n: nat)
    requires Honest(io)
    ensures BytesMoved(io, [IoVec(buf, len)]) <= len
    ensures n == if len > 0 && BytesMoved(io, [IoVec(buf, len)]) == len then len else 0
  {
    var iov := new IoVec[1](_ => IoVec(buf, len));
    assert iov[..] == [IoVec(buf, len)];
    assert [IoVec(buf, len)][1..] == [];
    var r, done, m, failed, windows := TransferIOV(iov, io);
    n := if r == 1 then len else 0;
  }

  /** SendV/RecvV: all regions through TransferIOV; the sum of their lengths
      is returned iff the kernel's answers moved every byte, else 0. */
  method TransferV(mrs: seq<IoVec>, io: IoOracle) returns (n: nat)
    requires Honest(io)
    ensures BytesMoved(io, mrs) <= TotalLen(mrs)
    ensures n == if TotalLen(mrs) > 0 && BytesMoved(io, mrs) == TotalLen(mrs) then TotalLen(mrs) else 0
  {
    var iov := new IoVec[|mrs|];
    var totalLen := 0;
    var i := 0;
    while i < |mrs|
      invariant 0 <= i <= |mrs|
      invariant totalLen == TotalLen(mrs[..i])
      invariant iov[..i] == mrs[..i]
    {
      assert mrs[..i + 1] == mrs[..i] + [mrs[i]];
      TotalLenSnoc(mrs[..i], mrs[i]);
      totalLen := totalLen + mrs[i].len;
      iov[i] := mrs[i];
      i := i + 1;
    }
    assert mrs[..i] == mrs && iov[..] == mrs;
    var r, done, m, failed, windows := TransferIOV(iov, io);
    if totalLen == 0 && iov.Length > 0 {
      NothingToMove(io, mrs);
    }
    n := if r == iov.Length then totalLen else 0;
  }

  /** With no bytes to move, the first call on a non-empty array is not
      progress, so the transfer never reaches the end of the array. */
  lemma NothingToMove(io: IoOracle, s: seq<IoVec>)
    requires Honest(io)
    requires TotalLen(s) == 0 && |s| > 0
    ensures !LastMoved(io, Transcript(io, s, 0, 0))
  {
    WindowWithin(s, 0);
    assert s[0..] == s;
    var w := Window(s, 0);
    assert Answer(io, 0, w) == io(0, w);
    assert Transcript(io, s, 0, 0) == [w];
  }

  /** `after` is what is left of the queue `before` once a prefix of its byte
      stream was transferred: whole entries dropped from the front, and the
      new front entry possibly advanced towards its unchanged end. */
  ghost predicate Remainder(before: seq<IoVec>, after: seq<IoVec>)
  {
    && |after| <= |before|
    && (forall i :: 0 < i < |after| ==> after[i] == before[|before| - |after| + i])
    && (after != [] ==>
          after[0].End() == before[|before| - |after|].End() && after[0].len <= before[|before| - |after|].len)
  }

  /** One OnEvent service of a pending queue: the queue's entries are handed
      to TransferIOV in place, and the completed prefix is then erased (when
      TransferIOV reports failure, nothing is erased, though entries may have
      been advanced). */
  method Drain(q: seq<IoVec>, io: IoOracle) returns (rest: seq<IoVec>)
    requires Honest(io)
    ensures !TransferFails(io, q) ==> Remainder(q, rest) && BytesMoved(io, q) + TotalLen(rest) == TotalLen(q)
    ensures TransferFails(io, q) ==> |rest| == |q| && forall i :: 0 <= i < |q| ==> rest[i].End() == q[i].End()
    ensures TotalLen(q) > 0 ==> (rest == [] <==> !TransferFails(io, q) && BytesMoved(io, q) == TotalLen(q))
  {
    var a := new IoVec[|q|](i requires 0 <= i < |q| => q[i]);
    assert a[..] == q;
    var r, done, m, f, windows := TransferIOV(a, io);
    rest := a[r..];
  }

  class SocketChannel {
    /** sock_fd_, also the handler's id in the event loop. */
    const fd: int
    /** send_iov_ and recv_iov_: iovecs queued by the non-blocking calls. */
    var sendIov: seq<IoVec>
    var recvIov: seq<IoVec>

    constructor (fd: int)
      ensures this.fd == fd && sendIov == [] && recvIov == []
    {
      this.fd := fd;
      sendIov := [];
      recvIov := [];
    }

    /** Events this channel waits for: POLLOUT while sends are pending and
        POLLIN while receives are pending, nothing else. */
    function GetEventType(): (t: bv16)
      reads this
      ensures (t & POLLOUT != 0) <==> sendIov != []
      ensures (t & POLLIN != 0) <==> recvIov != []
      ensures t & !(POLLIN | POLLOUT) == 0
    {
      var t0: bv16 := 0;
      var t1 := if |sendIov| > 0 then t0 | POLLOUT else t0;
      if |recvIov| > 0 then t1 | POLLIN else t1
    }

    /** Any error on the socket unregisters the channel. */
    function OnError(errorType: int): (r: int)
      ensures r == MAY_BE_REMOVED
    {
      MAY_BE_REMOVED
    }

    /** Queues one send and registers the channel with the loop. */
    method ISend(buf: nat, len: nat, loop: SocketEventLoop) returns (n: nat)
      modifies this, loop
      ensures sendIov == old(sendIov) + [IoVec(buf, len)] && recvIov == old(recvIov)
      ensures fd in old(loop.handlers) ==> loop.handlers == old(loop.handlers)
      ensures fd !in old(loop.handlers) ==> loop.handlers == old(loop.handlers)[fd := this]
      ensures n == len
    {
      sendIov := sendIov + [IoVec(buf, len)];
      loop.AddHandler(fd, this);
      n := len;
    }

    /** Queues one receive and registers the channel with the loop. */
    method IRecv(buf: nat, len: nat, loop: SocketEventLoop) returns (n: nat)
      modifies this, loop
      ensures recvIov == old(recvIov) + [IoVec(buf, len)] && sendIov == old(sendIov)
      ensures fd in old(loop.handlers) ==> loop.handlers == old(loop.handlers)
      ensures fd !in old(loop.handlers) ==> loop.handlers == old(loop.handlers)[fd := this]
      ensures n == len
    {
      recvIov := recvIov + [IoVec(buf, len)];
      loop.AddHandler(fd, this);
      n := len;
    }

    /** Queues every region for sending; registers only if there was one. */
    method ISendV(vec: seq<IoVec>, loop: SocketEventLoop) returns (n: nat)
      modifies this, loop
      ensures sendIov == old(sendIov) + vec && recvIov == old(recvIov)
      ensures vec == [] || fd in old(loop.handlers) ==> loop.handlers == old(loop.handlers)
      ensures vec != [] && fd !in old(loop.handlers) ==> loop.handlers == old(loop.handlers)[fd := this]
      ensures n == |vec|
    {
      if vec != [] {
        var i := 0;
        while i < |vec|
          invariant 0 <= i <= |vec|
          invariant sendIov == old(sendIov) + vec[..i] && recvIov == old(recvIov)
          invariant loop.handlers == old(loop.handlers)
        {
          sendIov := sendIov + [vec[i]];
          assert vec[..i + 1] == vec[..i] + [vec[i]];
          i := i + 1;
        }
        assert vec[..i] == vec;
        loop.AddHandler(fd, this);
      }
      n := |vec|;
    }

    /** Queues every region for receiving; registers only if there was one. */
    method IRecvV(vec: seq<IoVec>, loop: SocketEventLoop) returns (n: nat)
      modifies this, loop
      ensures recvIov == old(recvIov) + vec && sendIov == old(sendIov)
      ensures vec == [] || fd in old(loop.handlers) ==> loop.handlers == old(loop.handlers)
      ensures vec != [] && fd !in old(loop.handlers) ==> loop.handlers == old(loop.handlers)[fd := this]
      ensures n == |vec|
    {
      if vec != [] {
        var i := 0;
        while i < |vec|
          invariant 0 <= i <= |vec|
          invariant recvIov == old(recvIov) + vec[..i] && sendIov == old(sendIov)
          invariant loop.handlers == old(loop.handlers)
        {
          recvIov := recvIov + [vec[i]];
          assert vec[..i + 1] == vec[..i] + [vec[i]];
          i := i + 1;
        }
        assert vec[..i] == vec;
        loop.AddHandler(fd, this);
      }
      n := |vec|;
    }

    /** Services the socket: POLLOUT drains the send queue through writev,
        POLLIN the receive queue through readv; the channel may be removed
        exactly when both queues are empty afterwards. */
    method OnEvent(eventType: bv16, writev: IoOracle, readv: IoOracle) returns (ret: int)
      requires Honest(writev) && Honest(readv)
      modifies this
      ensures ret == (if sendIov == [] && recvIov == [] then MAY_BE_REMOVED else 0)
      ensures eventType & POLLOUT == 0 ==> sendIov == old(sendIov)
      ensures eventType & POLLIN == 0 ==> recvIov == old(recvIov)
      ensures eventType & POLLOUT != 0 && !TransferFails(writev, old(sendIov)) ==>
                Remainder(old(sendIov), sendIov)
                && BytesMoved(writev, old(sendIov)) + TotalLen(sendIov) == TotalLen(old(sendIov))
      ensures eventType & POLLIN != 0 && !TransferFails(readv, old(recvIov)) ==>
                Remainder(old(recvIov), recvIov)
                && BytesMoved(readv, old(recvIov)) + TotalLen(recvIov) == TotalLen(old(recvIov))
      ensures eventType & POLLOUT != 0 && TransferFails(writev, old(sendIov)) ==> |sendIov| == |old(sendIov)|
      ensures eventType & POLLIN != 0 && TransferFails(readv, old(recvIov)) ==> |recvIov| == |old(recvIov)|
    {
      if eventType & POLLOUT != 0 {
        sendIov := Drain(sendIov, writev);
      }
      if eventType & POLLIN != 0 {
        recvIov := Drain(recvIov, readv);
      }
      ret := if sendIov == [] && recvIov == [] then MAY_BE_REMOVED else 0;
    }
  }
}
