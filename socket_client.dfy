/** The client side of the socket transport: a blocking connect, and a
    non-blocking connect that registers the client with a socket event loop
    and finishes the handshake from its callbacks, retrying while the peer
    refuses the connection. The outcome is handed over through a promise
    that is set exactly once; a channel is identified by the descriptor it
    wraps. */
module SocketClients {
  import opened Common
  import SocketEventLoops

  // errno values on Linux.
  const ECONNREFUSED: int := 111
  const EINPROGRESS: int := 115

  // Results of NonBlockingConnect.
  const kConnFailed: int := -1
  const kConnSuccess: int := 0
  const kConnEstablished: int := 1

  /** What the operating system answers, indexed by call number: the
      descriptor Open sets up (None when address resolution, socket creation
      or an option setting fails), the errno of the n-th connect (0 when it
      succeeds) and the SO_ERROR value read by the n-th connection check. */
  datatype SocketOs = SocketOs(open: nat -> Option<int>, connect: nat -> int, soError: nat -> int)

  /** What NonBlockingConnect returns for an Open result and the errno of
      the connect that follows it. */
  function ConnOutcome(fd: Option<int>, err: int): (r: int)
    ensures r == kConnFailed || r == kConnSuccess || r == kConnEstablished
    ensures r == kConnEstablished <==> fd.Some? && err == 0
    ensures r == kConnSuccess <==> fd.Some? && err == EINPROGRESS
  {
    if fd.None? then kConnFailed
    else if err == 0 then kConnEstablished
    else if err == EINPROGRESS then kConnSuccess
    else kConnFailed
  }

  class SocketClient {
    const peerAddr: string
    const peerPort: nat
    const os: SocketOs
    /** sock_fd_: the descriptor of the current connection attempt. */
    var sockFd: int
    var nonBlocking: bool
    // How many Open, connect and SO_ERROR calls were made so far.
    var opens: nat
    var connects: nat
    var checks: nat
    /** The descriptors closed so far, in order. */
    ghost var closed: seq<int>
    /** promise_ and whether on_established_ holds a callable. */
    var promise: Promise<int>
    var hasCallback: bool
    /** Callback invocations and promise settings, in order. */
    ghost var steps: seq<Step<int>>

    /** The promise is set at most once. */
    ghost predicate Valid()
      reads this
    {
      SetOnce(promise, steps)
    }

    constructor (peerAddr: string, peerPort: nat, os: SocketOs)
      requires peerPort < 0x1_0000
      ensures Valid()
      ensures this.peerAddr == peerAddr && this.peerPort == peerPort && this.os == os
      ensures promise == Unset && steps == [] && !hasCallback && !nonBlocking
      ensures opens == 0 && connects == 0 && checks == 0 && closed == []
    {
      this.peerAddr := peerAddr;
      this.peerPort := peerPort;
      this.os := os;
      sockFd := -1;
      nonBlocking := false;
      opens, connects, checks := 0, 0, 0;
      closed := [];
      promise := Unset;
      hasCallback := false;
      steps := [];
    }

    /** SocketCommon::Open: resolves the peer and sets up a new socket. */
    method Open() returns (ok: bool)
      modifies this
      ensures ok <==> os.open(old(opens)).Some?
      ensures sockFd == if ok then os.open(old(opens)).value else old(sockFd)
      ensures opens == old(opens) + 1
      ensures connects == old(connects) && checks == old(checks) && nonBlocking == old(nonBlocking)
      ensures closed == old(closed) && promise == old(promise) && steps == old(steps)
      ensures hasCallback == old(hasCallback)
    {
      var fd := os.open(opens);
      opens := opens + 1;
      ok := fd.Some?;
      if ok {
        sockFd := fd.value;
      }
    }

    /** SocketCommon::Close: shuts the current descriptor down and closes it. */
    method Close()
      modifies this
      ensures closed == old(closed) + [sockFd]
      ensures sockFd == old(sockFd) && nonBlocking == old(nonBlocking)
      ensures opens == old(opens) && connects == old(connects) && checks == old(checks)
      ensures promise == old(promise) && steps == old(steps) && hasCallback == old(hasCallback)
    {
      closed := closed + [sockFd];
    }

    /** Blocking connect: None when Open fails, or when connect fails, after
        closing the socket, whether the peer refused or anything else went
        wrong; otherwise a channel over the connected descriptor. */
    method Connect() returns (ch: Option<int>)
      modifies this
      ensures opens == old(opens) + 1 && checks == old(checks) && nonBlocking == old(nonBlocking)
      ensures os.open(old(opens)).None? ==>
                ch == None && connects == old(connects) && closed == old(closed) && sockFd == old(sockFd)
      ensures os.open(old(opens)).Some? ==>
                sockFd == os.open(old(opens)).value && connects == old(connects) + 1
      ensures os.open(old(opens)).Some? && os.connect(old(connects)) != 0 ==>
                ch == None && closed == old(closed) + [sockFd]
      ensures os.open(old(opens)).Some? && os.connect(old(connects)) == 0 ==>
                ch == Some(sockFd) && closed == old(closed)
      ensures promise == old(promise) && steps == old(steps) && hasCallback == old(hasCallback)
    {
      var ok := Open();
      if !ok {
        return None;
      }
      var err := os.connect(connects);
      connects := connects + 1;
      if err != 0 {
        Close();
        return None;
      }
      ch := Some(sockFd);
    }

    /** Opens a socket, switches it to non-blocking mode and starts
        connecting: kConnEstablished when the connect completes at once,
        kConnSuccess while it is in progress, kConnFailed (after closing
        the socket when it was opened) otherwise. */
    method NonBlockingConnect() returns (r: int)
      modifies this
      ensures r == ConnOutcome(os.open(old(opens)), os.connect(old(connects)))
      ensures opens == old(opens) + 1 && checks == old(checks)
      ensures os.open(old(opens)).None? ==>
                sockFd == old(sockFd) && nonBlocking == old(nonBlocking)
                && connects == old(connects) && closed == old(closed)
      ensures os.open(old(opens)).Some? ==>
                sockFd == os.open(old(opens)).value && nonBlocking && connects == old(connects) + 1
      ensures os.open(old(opens)).Some? ==>
                closed == old(closed) + (if r == kConnFailed then [sockFd] else [])
      ensures promise == old(promise) && steps == old(steps) && hasCallback == old(hasCallback)
    {
      var ok := Open();
      if !ok {
        return kConnFailed;
      }
      nonBlocking := true;
      var err := os.connect(connects);
      connects := connects + 1;
      if err == 0 {
        r := kConnEstablished;
      } else if err == EINPROGRESS {
        r := kConnSuccess;
      } else {
        Close();
        r := kConnFailed;
      }
    }

    /** Wraps the connected descriptor in a channel, hands it to the
        callback when there is one, and only then sets the promise. */
    method OnEstablished()
      requires Valid() && promise.Unset?
      modifies this
      ensures Valid()
      ensures promise == Set(Some(sockFd))
      ensures steps == old(steps) + (if hasCallback then [CallbackInvoked(sockFd)] else [])
                                  + [PromiseSet(Some(sockFd))]
      ensures sockFd == old(sockFd) && nonBlocking == old(nonBlocking) && hasCallback == old(hasCallback)
      ensures opens == old(opens) && connects == old(connects) && checks == old(checks)
      ensures closed == old(closed)
    {
      ghost var callbacks: seq<Step<int>> := if hasCallback then [CallbackInvoked(sockFd)] else [];
      SettlePromise(steps, callbacks, Some(sockFd));
      steps := steps + callbacks + [PromiseSet(Some(sockFd))];
      promise := Set(Some(sockFd));
    }

    /** Sets the promise to a null channel. */
    method Fail()
      requires Valid() && promise.Unset?
      modifies this
      ensures Valid()
      ensures promise == Set(None) && steps == old(steps) + [PromiseSet(None)]
      ensures sockFd == old(sockFd) && nonBlocking == old(nonBlocking) && hasCallback == old(hasCallback)
      ensures opens == old(opens) && connects == old(connects) && checks == old(checks)
      ensures closed == old(closed)
    {
      SettlePromise(steps, [], None);
      steps := steps + [PromiseSet(None)];
      promise := Set(None);
    }

    /** The retry after a refused connect: closes the socket and starts a
        new non-blocking connect. 0 while that one is in progress, with the
        promise still unset; otherwise MAY_BE_REMOVED, with the promise set
        to the new channel when it connected at once and to null when it
        failed. */
    method Reconnect() returns (rc: int)
      requires Valid() && promise.Unset?
      modifies this
      ensures Valid()
      ensures rc == 0 || rc == MAY_BE_REMOVED
      ensures rc == 0 <==> promise.Unset?
      ensures rc == MAY_BE_REMOVED ==> SetCount(steps) == 1
      ensures var r := ConnOutcome(os.open(old(opens)), os.connect(old(connects)));
              && (r == kConnSuccess <==> rc == 0)
              && (r == kConnEstablished ==> promise == Set(Some(sockFd)))
              && (r == kConnFailed ==> promise == Set(None))
              && closed == old(closed) + [old(sockFd)]
                           + (if os.open(old(opens)).Some? && r == kConnFailed then [sockFd] else [])
      ensures opens == old(opens) + 1 && checks == old(checks) && hasCallback == old(hasCallback)
    {
      Close();
      var r := NonBlockingConnect();
      if r == kConnSuccess {
        rc := 0;
      } else {
        if r == kConnEstablished {
          OnEstablished();
        } else {
          Fail();
        }
        rc := MAY_BE_REMOVED;
      }
    }

    /** Reads SO_ERROR of the pending connect. 0: established. ECONNREFUSED:
        the peer is not listening yet, so the socket is closed and a new
        non-blocking connect is started; 0 is returned while that one is in
        progress. Anything else: close and set the promise to null. Every
        result other than 0 is MAY_BE_REMOVED, and comes with the promise
        set exactly once. */
    method OnConnect() returns (rc: int)
      requires Valid() && promise.Unset?
      modifies this
      ensures Valid()
      ensures rc == 0 || rc == MAY_BE_REMOVED
      ensures rc == 0 <==> promise.Unset?
      ensures rc == MAY_BE_REMOVED ==> SetCount(steps) == 1
      ensures checks == old(checks) + 1 && hasCallback == old(hasCallback)
      ensures os.soError(old(checks)) == 0 ==>
                promise == Set(Some(old(sockFd))) && sockFd == old(sockFd)
                && opens == old(opens) && connects == old(connects) && closed == old(closed)
      ensures os.soError(old(checks)) == ECONNREFUSED ==>
                opens == old(opens) + 1
                && var r := ConnOutcome(os.open(old(opens)), os.connect(old(connects)));
                   && (r == kConnSuccess <==> rc == 0)
                   && (r == kConnEstablished ==> promise == Set(Some(sockFd)))
                   && (r == kConnFailed ==> promise == Set(None))
                   && closed == old(closed) + [old(sockFd)]
                                + (if os.open(old(opens)).Some? && r == kConnFailed then [sockFd] else [])
      ensures os.soError(old(checks)) != 0 && os.soError(old(checks)) != ECONNREFUSED ==>
                promise == Set(None) && closed == old(closed) + [old(sockFd)]
                && opens == old(opens) && connects == old(connects) && sockFd == old(sockFd)
    {
      var val := os.soError(checks);
      checks := checks + 1;
      if val == ECONNREFUSED {
        rc := Reconnect();
        return;
      }
      if val == 0 {
        OnEstablished();
      } else {
        Close();
        Fail();
      }
      rc := MAY_BE_REMOVED;
    }

    /** The handler's event callback: POLLOUT means the connect finished
        one way or the other; any other readiness drops the handler. */
    method OnEvent(eventType: bv16, arg: int) returns (rc: int)
      requires Valid()
      requires eventType & POLLOUT != 0 ==> promise.Unset?
      modifies this
      ensures Valid()
      ensures rc == 0 || rc == MAY_BE_REMOVED
      ensures eventType & POLLOUT == 0 ==>
                rc == MAY_BE_REMOVED && promise == old(promise) && steps == old(steps) && checks == old(checks)
      ensures eventType & POLLOUT != 0 ==> checks == old(checks) + 1 && (rc == 0 <==> promise.Unset?)
      ensures eventType & POLLOUT != 0 && rc == MAY_BE_REMOVED ==> SetCount(steps) == 1
    {
      if eventType & POLLOUT != 0 {
        rc := OnConnect();
      } else {
        rc := MAY_BE_REMOVED;
      }
    }

    /** The handler's error callback: a hang-up or an error means the
        connect finished; anything else drops the handler. */
    method OnError(errorType: bv16) returns (rc: int)
      requires Valid()
      requires errorType & (POLLHUP | POLLERR) != 0 ==> promise.Unset?
      modifies this
      ensures Valid()
      ensures rc == 0 || rc == MAY_BE_REMOVED
      ensures errorType & (POLLHUP | POLLERR) == 0 ==>
                rc == MAY_BE_REMOVED && promise == old(promise) && steps == old(steps) && checks == old(checks)
      ensures errorType & (POLLHUP | POLLERR) != 0 ==> checks == old(checks) + 1 && (rc == 0 <==> promise.Unset?)
      ensures errorType & (POLLHUP | POLLERR) != 0 && rc == MAY_BE_REMOVED ==> SetCount(steps) == 1
    {
      if errorType & (POLLHUP | POLLERR) != 0 {
        rc := OnConnect();
      } else {
        rc := MAY_BE_REMOVED;
      }
    }

    /** The readiness the client waits for. */
    function GetEventType(): bv16
    {
      POLLOUT
    }

    /** Non-blocking connect: stores the callback, then registers the
        client with `loop` while the connect is in progress, finishes the
        handshake at once when it completed immediately, and sets the
        promise to null when it failed. */
    method ConnectAsync(loop: SocketEventLoops.SocketEventLoop, callback: bool)
      requires Valid() && promise.Unset?
      modifies this, loop
      ensures Valid()
      ensures hasCallback == callback && opens == old(opens) + 1 && checks == old(checks)
      ensures var r := ConnOutcome(os.open(old(opens)), os.connect(old(connects)));
              && (r == kConnSuccess ==>
                    && promise.Unset? && steps == old(steps)
                    && (sockFd in old(loop.handlers) ==> loop.handlers == old(loop.handlers))
                    && (sockFd !in old(loop.handlers) ==> loop.handlers == old(loop.handlers)[sockFd := this]))
              && (r == kConnEstablished ==>
                    && promise == Set(Some(sockFd)) && loop.handlers == old(loop.handlers)
                    && steps == old(steps) + (if callback then [CallbackInvoked(sockFd)] else [])
                                           + [PromiseSet(Some(sockFd))])
              && (r == kConnFailed ==>
                    promise == Set(None) && loop.handlers == old(loop.handlers)
                    && steps == old(steps) + [PromiseSet(None)])
    {
      hasCallback := callback;
      var r := NonBlockingConnect();
      if r == kConnSuccess {
        loop.AddHandler(sockFd, this);
      } else if r == kConnEstablished {
        OnEstablished();
      } else {
        Fail();
      }
    }
  }
}
