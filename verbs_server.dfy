/** The passive side of the verbs transport. It follows the RDMA server, but
    keeps the channel under construction (the accepted identifier and the
    peer's descriptor) instead of a bare identifier: the blocking accept
    reads the peer's descriptor from the first eight bytes of the connect
    request's private data, while the event-driven accept builds the channel
    with no descriptor. */
module VerbsServers {
  import opened Common
  import ByteCodec
  import RdmaEventLoops

  /** The backlog passed to rdma_listen. */
  const LISTEN_BACKLOG: nat := 1024

  /** A channel not yet handed out: its identifier and the descriptor of
      the peer's memory region. */
  datatype PendingChannel = PendingChannel(id: nat, peerDesc: nat)

  /** The peer's descriptor carried by a connect request: the first eight
      private-data bytes read as a 64-bit little-endian integer. */
  function PeerDesc(data: RdmaEventLoops.PrivateData): (d: nat)
    ensures d < 0x1_0000_0000_0000_0000
    ensures ByteCodec.EncodeLE(d, 8) == data[..8]
  {
    ByteCodec.EncodeDecodeLE(data[..8]);
    ByteCodec.DecodeLE(data[..8])
  }

  class VerbsServer {
    const bindAddr: string
    const bindPort: nat
    const cm: RdmaEventLoops.CmCalls
    /** listen_id_ (NULL when not held) and channel_. */
    var listenId: nat
    var channel: Option<PendingChannel>
    // How many identifier creations, requests, QP creations and accepts
    // were made so far.
    var creates: nat
    var requests: nat
    var qps: nat
    var accepts: nat
    /** The identifiers destroyed so far, in order. */
    ghost var destroyed: seq<nat>
    /** promise_ and whether on_established_ holds a callable. */
    var promise: Promise<PendingChannel>
    var hasCallback: bool
    /** Callback invocations and promise settings, in order. */
    ghost var steps: seq<Step<PendingChannel>>

    /** The promise is set at most once. */
    ghost predicate Valid()
      reads this
    {
      SetOnce(promise, steps)
    }

    constructor (bindAddr: string, bindPort: nat, cm: RdmaEventLoops.CmCalls)
      requires bindPort < 0x1_0000
      ensures Valid()
      ensures this.bindAddr == bindAddr && this.bindPort == bindPort && this.cm == cm
      ensures listenId == NULL && channel == None
      ensures creates == 0 && requests == 0 && qps == 0 && accepts == 0 && destroyed == []
      ensures promise == Unset && !hasCallback && steps == []
    {
      this.bindAddr := bindAddr;
      this.bindPort := bindPort;
      this.cm := cm;
      listenId, channel := NULL, None;
      creates, requests, qps, accepts := 0, 0, 0, 0;
      destroyed := [];
      promise := Unset;
      hasCallback := false;
      steps := [];
    }

    /** The identifier the event loop matches events against: the pending
        channel's while there is one, the listening one otherwise. */
    function GetHandlerID(): nat
      reads this
    {
      if channel.Some? then channel.value.id else listenId
    }

    /** The readiness the server waits for (none: events come from the
        connection manager). */
    function GetEventType(): bv16
    {
      0
    }

    /** Replaces the pending channel, destroying the identifier of any
        earlier one. */
    method ResetChannel(next: Option<PendingChannel>)
      modifies this
      ensures channel == next
      ensures destroyed == old(destroyed) + (if old(channel).Some? then [old(channel).value.id] else [])
      ensures listenId == old(listenId) && hasCallback == old(hasCallback)
      ensures promise == old(promise) && steps == old(steps)
      ensures creates == old(creates) && requests == old(requests) && qps == old(qps) && accepts == old(accepts)
    {
      if channel.Some? {
        destroyed := destroyed + [channel.value.id];
      }
      channel := next;
    }

    /** Creates a passive identifier, replacing (and destroying) any held
        one, and listens on it with a backlog of LISTEN_BACKLOG; true iff
        both succeed. */
    method Listen() returns (ok: bool)
      modifies this
      ensures creates == old(creates) + 1 && listenId == cm.createId(old(creates))
      ensures ok <==> listenId != NULL && cm.listen(listenId, LISTEN_BACKLOG)
      ensures destroyed == old(destroyed) + (if old(listenId) != NULL then [old(listenId)] else [])
      ensures channel == old(channel)
      ensures requests == old(requests) && qps == old(qps) && accepts == old(accepts)
      ensures promise == old(promise) && steps == old(steps) && hasCallback == old(hasCallback)
    {
      if listenId != NULL {
        destroyed := destroyed + [listenId];
      }
      listenId := cm.createId(creates);
      creates := creates + 1;
      if listenId == NULL {
        return false;
      }
      ok := cm.listen(listenId, LISTEN_BACKLOG);
    }

    /** Blocking accept: takes the next connect request, makes it the
        pending channel with the descriptor from its private data, and
        accepts it. On success the channel is moved out; a failed accept
        returns None and leaves the channel pending. */
    method Accept() returns (ch: Option<PendingChannel>)
      modifies this
      ensures requests == old(requests) + 1
      ensures cm.getRequest(old(requests)).None? ==>
                ch == None && channel == old(channel) && accepts == old(accepts) && destroyed == old(destroyed)
      ensures cm.getRequest(old(requests)).Some? ==>
                var made := PendingChannel(cm.getRequest(old(requests)).value,
                                           PeerDesc(cm.privateData(old(requests))));
                && accepts == old(accepts) + 1
                && destroyed == old(destroyed) + (if old(channel).Some? then [old(channel).value.id] else [])
                && (cm.accept(old(accepts)) ==> ch == Some(made) && channel == None)
                && (!cm.accept(old(accepts)) ==> ch == None && channel == Some(made))
      ensures listenId == old(listenId) && creates == old(creates) && qps == old(qps)
      ensures promise == old(promise) && steps == old(steps) && hasCallback == old(hasCallback)
    {
      var newId := cm.getRequest(requests);
      var data := cm.privateData(requests);
      requests := requests + 1;
      if newId.None? {
        return None;
      }
      ResetChannel(Some(PendingChannel(newId.value, PeerDesc(data))));
      var ok := cm.accept(accepts);
      accepts := accepts + 1;
      if !ok {
        return None;
      }
      ch := channel;
      channel := None;
    }

    /** Asynchronous accept: stores the callback and registers the server
        with the event loop, which takes over its current identifier. */
    method AcceptAsync(loop: RdmaEventLoops.RdmaEventLoop, callback: bool)
      modifies this, loop
      ensures hasCallback == callback
      ensures loop.handlers == old(loop.handlers) + [this]
      ensures loop.migrated == old(loop.migrated) + [old(GetHandlerID())]
      ensures loop.acks == old(loop.acks)
      ensures listenId == old(listenId) && channel == old(channel)
      ensures promise == old(promise) && steps == old(steps) && destroyed == old(destroyed)
      ensures creates == old(creates) && requests == old(requests) && qps == old(qps) && accepts == old(accepts)
    {
      hasCallback := callback;
      loop.AddHandler(this, GetHandlerID());
    }

    /** Sets the promise to a null channel. */
    method Fail()
      requires Valid() && promise.Unset?
      modifies this
      ensures Valid() && SetCount(steps) == 1
      ensures promise == Set(None) && steps == old(steps) + [PromiseSet(None)]
      ensures listenId == old(listenId) && channel == old(channel) && hasCallback == old(hasCallback)
      ensures creates == old(creates) && requests == old(requests) && qps == old(qps) && accepts == old(accepts)
      ensures destroyed == old(destroyed)
    {
      SettlePromise(steps, [], None);
      steps := steps + [PromiseSet(None)];
      promise := Set(None);
    }

    /** A connect request: a channel over the new identifier `arg`, with no
        peer descriptor, becomes the pending one (destroying any earlier),
        a queue pair is created for it and it is accepted. 0 keeps the
        server registered until the connection is established; either
        failure sets the promise to null. */
    method OnConnectRequest(arg: nat) returns (rc: int)
      requires Valid() && promise.Unset?
      modifies this
      ensures Valid()
      ensures rc == 0 || rc == MAY_BE_REMOVED
      ensures rc == 0 <==> cm.createQp(old(qps)) && cm.accept(old(accepts))
      ensures rc == 0 ==> promise.Unset? && steps == old(steps)
      ensures rc != 0 ==> promise == Set(None) && steps == old(steps) + [PromiseSet(None)] && SetCount(steps) == 1
      ensures channel == Some(PendingChannel(arg, 0)) && qps == old(qps) + 1
      ensures accepts == old(accepts) + (if cm.createQp(old(qps)) then 1 else 0)
      ensures destroyed == old(destroyed) + (if old(channel).Some? then [old(channel).value.id] else [])
      ensures listenId == old(listenId) && hasCallback == old(hasCallback)
      ensures creates == old(creates) && requests == old(requests)
    {
      ResetChannel(Some(PendingChannel(arg, 0)));
      var qpOk := cm.createQp(qps);
      qps := qps + 1;
      if !qpOk {
        Fail();
        return MAY_BE_REMOVED;
      }
      var ok := cm.accept(accepts);
      accepts := accepts + 1;
      if !ok {
        Fail();
        return MAY_BE_REMOVED;
      }
      rc := 0;
    }

    /** The connection is established: the pending channel is handed to the
        callback and then released into the promise. */
    method Establish()
      requires Valid() && promise.Unset? && channel.Some?
      modifies this
      ensures Valid() && SetCount(steps) == 1
      ensures channel == None && promise == Set(old(channel))
      ensures steps == old(steps) + (if hasCallback then [CallbackInvoked(old(channel).value)] else [])
                                  + [PromiseSet(old(channel))]
      ensures listenId == old(listenId) && hasCallback == old(hasCallback)
      ensures creates == old(creates) && requests == old(requests) && qps == old(qps) && accepts == old(accepts)
      ensures destroyed == old(destroyed)
    {
      var established := channel.value;
      channel := None;
      ghost var callbacks: seq<Step<PendingChannel>> :=
        if hasCallback then [CallbackInvoked(established)] else [];
      SettlePromise(steps, callbacks, Some(established));
      steps := steps + callbacks + [PromiseSet(Some(established))];
      promise := Set(Some(established));
    }

    /** The event callback: a connect request or an established connection
        as above; any other event drops the handler and leaves the promise
        alone. */
    method OnEvent(eventType: RdmaEventLoops.CmEventType, arg: nat) returns (rc: int)
      requires Valid()
      requires eventType.ConnectRequest? || eventType.Established? ==> promise.Unset?
      requires eventType.Established? ==> channel.Some?
      modifies this
      ensures Valid()
      ensures rc == 0 || rc == MAY_BE_REMOVED
      ensures rc == 0 <==> eventType.ConnectRequest? && cm.createQp(old(qps)) && cm.accept(old(accepts))
      ensures rc == 0 ==> promise.Unset? && steps == old(steps)
      ensures rc == MAY_BE_REMOVED && (eventType.ConnectRequest? || eventType.Established?) ==>
                SetCount(steps) == 1
      ensures eventType.ConnectRequest? ==>
                && channel == Some(PendingChannel(arg, 0)) && GetHandlerID() == arg
                && qps == old(qps) + 1
                && accepts == old(accepts) + (if cm.createQp(old(qps)) then 1 else 0)
                && destroyed == old(destroyed) + (if old(channel).Some? then [old(channel).value.id] else [])
                && (rc != 0 ==> promise == Set(None) && steps == old(steps) + [PromiseSet(None)])
      ensures eventType.Established? ==>
                && channel == None && GetHandlerID() == listenId
                && promise == Set(old(channel))
                && steps == old(steps) + (if hasCallback then [CallbackInvoked(old(channel).value)] else [])
                                       + [PromiseSet(old(channel))]
                && qps == old(qps) && accepts == old(accepts) && destroyed == old(destroyed)
      ensures !eventType.ConnectRequest? && !eventType.Established? ==>
                && promise == old(promise) && steps == old(steps) && channel == old(channel)
                && qps == old(qps) && accepts == old(accepts) && destroyed == old(destroyed)
      ensures listenId == old(listenId) && hasCallback == old(hasCallback)
      ensures creates == old(creates) && requests == old(requests)
    {
      if eventType.ConnectRequest? {
        rc := OnConnectRequest(arg);
        return;
      }
      if eventType.Established? {
        Establish();
      }
      rc := MAY_BE_REMOVED;
    }

    /** The error callback: the connection could not be set up. */
    method OnError(errorType: RdmaEventLoops.CmEventType) returns (rc: int)
      requires Valid() && promise.Unset?
      modifies this
      ensures Valid() && SetCount(steps) == 1
      ensures rc == MAY_BE_REMOVED
      ensures promise == Set(None) && steps == old(steps) + [PromiseSet(None)]
      ensures listenId == old(listenId) && channel == old(channel) && hasCallback == old(hasCallback)
      ensures creates == old(creates) && requests == old(requests) && qps == old(qps) && accepts == old(accepts)
      ensures destroyed == old(destroyed)
    {
      Fail();
      rc := MAY_BE_REMOVED;
    }
  }
}
