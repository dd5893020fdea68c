/** The passive side of the RDMA transport: listens on a connection-manager
    identifier, accepts either at once (blocking) or in two steps driven by
    the RDMA event loop, where a connect request is accepted first and the
    channel is handed over once the connection is established. Identifiers
    are naturals, NULL standing for none; a channel is identified by the
    identifier it takes over. */
module RdmaServers {
  import opened Common
  import RdmaEventLoops

  /** The backlog passed to rdma_listen. */
  const LISTEN_BACKLOG: nat := 1024

  class RdmaServer {
    const bindAddr: string
    const bindPort: nat
    const cm: RdmaEventLoops.CmCalls
    /** listen_id_ and accepting_id_ (NULL when not held). */
    var listenId: nat
    var acceptingId: nat
    // How many identifier creations, requests, QP creations and accepts
    // were made so far.
    var creates: nat
    var requests: nat
    var qps: nat
    var accepts: nat
    /** The identifiers destroyed so far, in order. */
    ghost var destroyed: seq<nat>
    /** promise_ and whether on_established_ holds a callable. */
    var promise: Promise<nat>
    var hasCallback: bool
    /** Callback invocations and promise settings, in order. */
    ghost var steps: seq<Step<nat>>

    /** The promise is set at most once. */
    ghost predicate Valid()
      reads this
    {
      SetOnce(promise, steps)
    }

    constructor (bindAddr: string, bindPort: nat, cm: RdmaEventLoops.CmCalls)
      requires bindPort < 0x1_0000
      ensures Valid()
      ensures this.bindAddr == bindAddr && this.bindPort == bindPort && this.cm == cm
      ensures listenId == NULL && acceptingId == NULL
      ensures creates == 0 && requests == 0 && qps == 0 && accepts == 0 && destroyed == []
      ensures promise == Unset && !hasCallback && steps == []
    {
      this.bindAddr := bindAddr;
      this.bindPort := bindPort;
      this.cm := cm;
      listenId, acceptingId := NULL, NULL;
      creates, requests, qps, accepts := 0, 0, 0, 0;
      destroyed := [];
      promise := Unset;
      hasCallback := false;
      steps := [];
    }

    /** The identifier the event loop matches events against: the accepting
        identifier while one is held, the listening one otherwise. */
    function GetHandlerID(): nat
      reads this
    {
      if acceptingId != NULL then acceptingId else listenId
    }

    /** The readiness the server waits for (none: events come from the
        connection manager). */
    function GetEventType(): bv16
    {
      0
    }

    /** Creates a passive identifier, replacing (and destroying) any held
        one, and listens on it with a backlog of LISTEN_BACKLOG; true iff
        both succeed. */
    method Listen() returns (ok: bool)
      modifies this
      ensures creates == old(creates) + 1 && listenId == cm.createId(old(creates))
      ensures ok <==> listenId != NULL && cm.listen(listenId, LISTEN_BACKLOG)
      ensures destroyed == old(destroyed) + (if old(listenId) != NULL then [old(listenId)] else [])
      ensures acceptingId == old(acceptingId)
      ensures requests == old(requests) && qps == old(qps) && accepts == old(accepts)
      ensures promise == old(promise) && steps == old(steps) && hasCallback == old(hasCallback)
    {
      if listenId != NULL {
        destroyed := destroyed + [listenId];
      }
      listenId := cm.createId(creates);
      creates := creates + 1;
      if listenId == NULL {
        return false;
      }
      ok := cm.listen(listenId, LISTEN_BACKLOG);
    }

    /** Blocking accept: takes the next connect request and accepts it; a
        failed accept destroys the new identifier. None on either failure,
        else a channel over the new identifier. */
    method Accept() returns (ch: Option<nat>)
      modifies this
      ensures requests == old(requests) + 1
      ensures cm.getRequest(old(requests)).None? ==>
                ch == None && accepts == old(accepts) && destroyed == old(destroyed)
      ensures cm.getRequest(old(requests)).Some? ==>
                && accepts == old(accepts) + 1
                && (cm.accept(old(accepts)) ==>
                      ch == Some(cm.getRequest(old(requests)).value) && destroyed == old(destroyed))
                && (!cm.accept(old(accepts)) ==>
                      ch == None && destroyed == old(destroyed) + [cm.getRequest(old(requests)).value])
      ensures listenId == old(listenId) && acceptingId == old(acceptingId)
      ensures creates == old(creates) && qps == old(qps)
      ensures promise == old(promise) && steps == old(steps) && hasCallback == old(hasCallback)
    {
      var newId := cm.getRequest(requests);
      requests := requests + 1;
      if newId.None? {
        return None;
      }
      var ok := cm.accept(accepts);
      accepts := accepts + 1;
      if !ok {
        destroyed := destroyed + [newId.value];
        return None;
      }
      ch := newId;
    }

    /** Asynchronous accept: stores the callback and registers the server
        with the event loop, which takes over its current identifier. */
    method AcceptAsync(loop: RdmaEventLoops.RdmaEventLoop, callback: bool)
      modifies this, loop
      ensures hasCallback == callback
      ensures loop.handlers == old(loop.handlers) + [this]
      ensures loop.migrated == old(loop.migrated) + [old(GetHandlerID())]
      ensures loop.acks == old(loop.acks)
      ensures listenId == old(listenId) && acceptingId == old(acceptingId)
      ensures promise == old(promise) && steps == old(steps) && destroyed == old(destroyed)
      ensures creates == old(creates) && requests == old(requests) && qps == old(qps) && accepts == old(accepts)
    {
      hasCallback := callback;
      loop.AddHandler(this, GetHandlerID());
    }

    /** Sets the promise to a null channel. */
    method Fail()
      requires Valid() && promise.Unset?
      modifies this
      ensures Valid() && SetCount(steps) == 1
      ensures promise == Set(None) && steps == old(steps) + [PromiseSet(None)]
      ensures listenId == old(listenId) && acceptingId == old(acceptingId) && hasCallback == old(hasCallback)
      ensures creates == old(creates) && requests == old(requests) && qps == old(qps) && accepts == old(accepts)
      ensures destroyed == old(destroyed)
    {
      SettlePromise(steps, [], None);
      steps := steps + [PromiseSet(None)];
      promise := Set(None);
    }

    /** A connect request: the new identifier `arg` becomes the accepting
        one (destroying any earlier), a queue pair is created for it and it
        is accepted. 0 keeps the server registered until the connection is
        established; either failure sets the promise to null. */
    method OnConnectRequest(arg: nat) returns (rc: int)
      requires Valid() && promise.Unset?
      modifies this
      ensures Valid()
      ensures rc == 0 || rc == MAY_BE_REMOVED
      ensures rc == 0 <==> cm.createQp(old(qps)) && cm.accept(old(accepts))
      ensures rc == 0 ==> promise.Unset? && steps == old(steps)
      ensures rc != 0 ==> promise == Set(None) && steps == old(steps) + [PromiseSet(None)] && SetCount(steps) == 1
      ensures acceptingId == arg && qps == old(qps) + 1
      ensures accepts == old(accepts) + (if cm.createQp(old(qps)) then 1 else 0)
      ensures destroyed == old(destroyed) + (if old(acceptingId) != NULL then [old(acceptingId)] else [])
      ensures listenId == old(listenId) && hasCallback == old(hasCallback)
      ensures creates == old(creates) && requests == old(requests)
    {
      if acceptingId != NULL {
        destroyed := destroyed + [acceptingId];
      }
      acceptingId := arg;
      var qpOk := cm.createQp(qps);
      qps := qps + 1;
      if !qpOk {
        Fail();
        return MAY_BE_REMOVED;
      }
      var ok := cm.accept(accepts);
      accepts := accepts + 1;
      if !ok {
        Fail();
        return MAY_BE_REMOVED;
      }
      rc := 0;
    }

    /** The connection is established: the accepting identifier moves into
        a channel, which is handed to the callback and then to the
        promise. */
    method Establish()
      requires Valid() && promise.Unset? && acceptingId != NULL
      modifies this
      ensures Valid() && SetCount(steps) == 1
      ensures acceptingId == NULL && promise == Set(Some(old(acceptingId)))
      ensures steps == old(steps) + (if hasCallback then [CallbackInvoked(old(acceptingId))] else [])
                                  + [PromiseSet(Some(old(acceptingId)))]
      ensures listenId == old(listenId) && hasCallback == old(hasCallback)
      ensures creates == old(creates) && requests == old(requests) && qps == old(qps) && accepts == old(accepts)
      ensures destroyed == old(destroyed)
    {
      var channel := acceptingId;
      acceptingId := NULL;
      ghost var callbacks: seq<Step<nat>> := if hasCallback then [CallbackInvoked(channel)] else [];
      SettlePromise(steps, callbacks, Some(channel));
      steps := steps + callbacks + [PromiseSet(Some(channel))];
      promise := Set(Some(channel));
    }

    /** The event callback: a connect request or an established connection
        as above; any other event drops the handler and leaves the promise
        alone. */
    method OnEvent(eventType: RdmaEventLoops.CmEventType, arg: nat) returns (rc: int)
      requires Valid()
      requires eventType.ConnectRequest? || eventType.Established? ==> promise.Unset?
      requires eventType.Established? ==> acceptingId != NULL
      modifies this
      ensures Valid()
      ensures rc == 0 || rc == MAY_BE_REMOVED
      ensures rc == 0 <==> eventType.ConnectRequest? && cm.createQp(old(qps)) && cm.accept(old(accepts))
      ensures rc == 0 ==> promise.Unset? && steps == old(steps)
      ensures rc == MAY_BE_REMOVED && (eventType.ConnectRequest? || eventType.Established?) ==>
                SetCount(steps) == 1
      ensures eventType.ConnectRequest? ==>
                && acceptingId == arg && qps == old(qps) + 1
                && accepts == old(accepts) + (if cm.createQp(old(qps)) then 1 else 0)
                && destroyed == old(destroyed) + (if old(acceptingId) != NULL then [old(acceptingId)] else [])
                && (arg != NULL ==> GetHandlerID() == arg)
                && (rc != 0 ==> promise == Set(None) && steps == old(steps) + [PromiseSet(None)])
      ensures eventType.Established? ==>
                && acceptingId == NULL && GetHandlerID() == listenId
                && promise == Set(Some(old(acceptingId)))
                && steps == old(steps) + (if hasCallback then [CallbackInvoked(old(acceptingId))] else [])
                                       + [PromiseSet(Some(old(acceptingId)))]
                && qps == old(qps) && accepts == old(accepts) && destroyed == old(destroyed)
      ensures !eventType.ConnectRequest? && !eventType.Established? ==>
                && promise == old(promise) && steps == old(steps) && acceptingId == old(acceptingId)
                && qps == old(qps) && accepts == old(accepts) && destroyed == old(destroyed)
      ensures listenId == old(listenId) && hasCallback == old(hasCallback)
      ensures creates == old(creates) && requests == old(requests)
    {
      if eventType.ConnectRequest? {
        rc := OnConnectRequest(arg);
        return;
      }
      if eventType.Established? {
        Establish();
      }
      rc := MAY_BE_REMOVED;
    }

    /** The error callback: the connection could not be set up. */
    method OnError(errorType: RdmaEventLoops.CmEventType) returns (rc: int)
      requires Valid() && promise.Unset?
      modifies this
      ensures Valid() && SetCount(steps) == 1
      ensures rc == MAY_BE_REMOVED
      ensures promise == Set(None) && steps == old(steps) + [PromiseSet(None)]
      ensures listenId == old(listenId) && acceptingId == old(acceptingId) && hasCallback == old(hasCallback)
      ensures creates == old(creates) && requests == old(requests) && qps == old(qps) && accepts == old(accepts)
      ensures destroyed == old(destroyed)
    {
      Fail();
      rc := MAY_BE_REMOVED;
    }
  }
}
