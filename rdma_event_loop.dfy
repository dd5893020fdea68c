/** The event loop of the RDMA transport: a list of handlers whose
    connection identifiers were moved onto one RDMA CM event channel, and a
    loop that takes one connection-manager event at a time off the channel,
    hands it to the first handler whose identifier matches and drops that
    handler from the list when it answers MAY_BE_REMOVED. */
module RdmaEventLoops {
  import opened Common

  /** The rdma_cm_event_type values the loop tells apart; every other
      event type is `OtherEvent`. */
  datatype CmEventType =
    | ConnectRequest
    | Established
    | ConnectError
    | Unreachable
    | Rejected
    | OtherEvent(code: int)

  /** One rdma_cm_event: its type, the identifier it concerns and the
      listening identifier it arrived on (NULL on the active side). */
  datatype CmEvent = CmEvent(event: CmEventType, id: nat, listenId: nat)

  /** Everything WaitAll learns from outside, indexed by round number: the
      event rdma_get_cm_event delivers (None when the call fails), and what
      the registered handlers answer to GetHandlerID, OnEvent and OnError. */
  datatype CmEnv = CmEnv(
    fetch: nat -> Option<CmEvent>,
    handlerId: (nat, object) -> nat,
    onEvent: (nat, object, CmEventType, nat) -> int,
    onError: (nat, object, CmEventType) -> int)

  /** The private data carried by a connect request; the verbs transport
      puts the client's 8-byte peer descriptor first. */
  type PrivateData = s: seq<byte> | |s| >= 8 witness seq(8, _ => 0 as byte)

  /** What the RDMA connection manager answers to a passive side, indexed
      by call number: the identifier NewRDMACommID creates (NULL when it
      fails), whether rdma_listen succeeds on an identifier with a backlog,
      the identifier of the n-th rdma_get_request (None when it fails) with
      the private data of that request, and whether the n-th rdma_create_qp
      and the n-th rdma_accept succeed. */
  datatype CmCalls = CmCalls(
    createId: nat -> nat,
    listen: (nat, nat) -> bool,
    getRequest: nat -> Option<nat>,
    privateData: nat -> PrivateData,
    createQp: nat -> bool,
    accept: nat -> bool)

  /** The event types reporting that a connection could not be set up. */
  predicate IsConnectionError(t: CmEventType)
  {
    t.ConnectError? || t.Unreachable? || t.Rejected?
  }

  /** True iff handler `h` owns event `ev`: its identifier is the event's
      identifier or the listening identifier the event arrived on. */
  predicate Matches(env: CmEnv, round: nat, h: object, ev: CmEvent)
  {
    env.handlerId(round, h) == ev.id || env.handlerId(round, h) == ev.listenId
  }

  /** Index of the first handler of `hs` that owns `ev`; |hs| when none does. */
  function FirstMatch(hs: seq<object>, env: CmEnv, round: nat, ev: CmEvent): (i: nat)
    ensures i <= |hs|
    decreases |hs|
  {
    if |hs| == 0 then 0
    else if Matches(env, round, hs[0], ev) then 0
    else 1 + FirstMatch(hs[1..], env, round, ev)
  }

  /** The answer of handler `h` to event `ev`: None for an event type the
      loop does not dispatch, else what OnEvent or OnError returned. A
      connect request passes the new identifier, an established event NULL. */
  function Answer(env: CmEnv, round: nat, h: object, ev: CmEvent): Option<int>
  {
    match ev.event
    case ConnectRequest => Some(env.onEvent(round, h, ev.event, ev.id))
    case Established => Some(env.onEvent(round, h, ev.event, NULL))
    case OtherEvent(_) => None
    case _ => Some(env.onError(round, h, ev.event))
  }

  /** True iff round `round` ends WaitAll with kErrFailed: no event could be
      fetched, or no registered handler owns it. */
  predicate Fails(hs: seq<object>, env: CmEnv, round: nat)
  {
    env.fetch(round).None? || FirstMatch(hs, env, round, env.fetch(round).value) == |hs|
  }

  /** True iff round `round` erases the owner of its event from `hs`. */
  predicate RemovesOwner(hs: seq<object>, env: CmEnv, round: nat)
  {
    && !Fails(hs, env, round)
    && Answer(env, round, hs[FirstMatch(hs, env, round, env.fetch(round).value)], env.fetch(round).value)
       == Some(MAY_BE_REMOVED)
  }

  /** The handler list after dispatching the event of round `round`. */
  function AfterEvent(hs: seq<object>, env: CmEnv, round: nat): seq<object>
  {
    if RemovesOwner(hs, env, round) then
      var i := FirstMatch(hs, env, round, env.fetch(round).value);
      hs[..i] + hs[i + 1..]
    else hs
  }

  /** The handler list after `k` dispatch rounds. */
  function Rounds(hs: seq<object>, env: CmEnv, k: nat): seq<object>
  {
    if k == 0 then hs else AfterEvent(Rounds(hs, env, k - 1), env, k - 1)
  }

  /** Erasing entry `i` of a sequence drops that one element and shifts
      everything after it down by one place. */
  lemma EraseAt<T>(s: seq<T>, i: nat)
    requires i < |s|
    ensures |s[..i] + s[i + 1..]| == |s| - 1
    ensures multiset(s[..i] + s[i + 1..]) == multiset(s) - multiset{s[i]}
    ensures multiset(s[..i] + s[i + 1..]) <= multiset(s)
    ensures forall j :: 0 <= j < i ==> (s[..i] + s[i + 1..])[j] == s[j]
    ensures forall j :: i < j < |s| ==> (s[..i] + s[i + 1..])[j - 1] == s[j]
  {
    EraseAtCount(s, i);
    EraseAtOrder(s, i);
  }

  /** Erasing entry `i` removes one occurrence of that entry. */
  lemma EraseAtCount<T>(s: seq<T>, i: nat)
    requires i < |s|
    ensures multiset(s[..i] + s[i + 1..]) == multiset(s) - multiset{s[i]}
  {
    var pre, post := s[..i], s[i + 1..];
    assert s == pre + ([s[i]] + post);
    assert multiset(s) == multiset(pre) + (multiset{s[i]} + multiset(post));
  }

  /** Erasing entry `i` keeps the entries before it and shifts the ones
      after it down by one place. */
  lemma EraseAtOrder<T>(s: seq<T>, i: nat)
    requires i < |s|
    ensures forall j :: 0 <= j < i ==> (s[..i] + s[i + 1..])[j] == s[j]
    ensures forall j :: i < j < |s| ==> (s[..i] + s[i + 1..])[j - 1] == s[j]
  {
  }

  /** One round erases exactly one entry, the owner of the event, when that
      owner answers MAY_BE_REMOVED; every other entry keeps its place in
      the order. Otherwise the list is unchanged. */
  lemma AfterEventErasesOwner(hs: seq<object>, env: CmEnv, round: nat)
    ensures RemovesOwner(hs, env, round) ==>
              var i := FirstMatch(hs, env, round, env.fetch(round).value);
              && |AfterEvent(hs, env, round)| == |hs| - 1
              && multiset(AfterEvent(hs, env, round)) == multiset(hs) - multiset{hs[i]}
              && (forall j :: 0 <= j < i ==> AfterEvent(hs, env, round)[j] == hs[j])
              && (forall j :: i < j < |hs| ==> AfterEvent(hs, env, round)[j - 1] == hs[j])
    ensures !RemovesOwner(hs, env, round) ==> AfterEvent(hs, env, round) == hs
  {
    if RemovesOwner(hs, env, round) {
      var i := FirstMatch(hs, env, round, env.fetch(round).value);
      EraseAt(hs, i);
    }
  }

  /** One dispatch adds no registration. */
  lemma AfterEventShrinks(hs: seq<object>, env: CmEnv, round: nat)
    ensures multiset(AfterEvent(hs, env, round)) <= multiset(hs)
  {
    if RemovesOwner(hs, env, round) {
      EraseAtCount(hs, FirstMatch(hs, env, round, env.fetch(round).value));
    }
  }

  /** One dispatch removes at most one registration. */
  lemma AfterEventLength(hs: seq<object>, env: CmEnv, round: nat)
    ensures |hs| - 1 <= |AfterEvent(hs, env, round)| <= |hs|
  {
  }

  /** Round `k` adds no registration. */
  lemma RoundShrinks(hs: seq<object>, env: CmEnv, k: nat)
    ensures multiset(Rounds(hs, env, k + 1)) <= multiset(Rounds(hs, env, k))
  {
    AfterEventShrinks(Rounds(hs, env, k), env, k);
  }

  /** Transitivity of "every element occurs at most as often". */
  lemma SubMultisetTrans<T>(a: seq<T>, b: seq<T>, c: seq<T>)
    requires multiset(a) <= multiset(b) && multiset(b) <= multiset(c)
    ensures multiset(a) <= multiset(c)
  {
  }

  /** Dispatch never adds a handler nor registers one more often. */
  lemma {:induction false} RoundsOnlyRemove(hs: seq<object>, env: CmEnv, k: nat)
    ensures multiset(Rounds(hs, env, k)) <= multiset(hs)
  {
    if k > 0 {
      var j := k - 1;
      RoundsOnlyRemove(hs, env, j);
      RoundShrinks(hs, env, j);
      assert j + 1 == k;
      SubMultisetTrans(Rounds(hs, env, j + 1), Rounds(hs, env, j), hs);
    }
  }

  /** After `k` rounds at most `k` registrations are gone. */
  lemma {:induction false} RoundsLength(hs: seq<object>, env: CmEnv, k: nat)
    ensures |hs| - k <= |Rounds(hs, env, k)| <= |hs|
  {
    if k > 0 {
      RoundsLength(hs, env, k - 1);
      AfterEventLength(Rounds(hs, env, k - 1), env, k - 1);
    }
  }

  /** One round keeps every registration of a handler that does not answer
      MAY_BE_REMOVED to that round's event. */
  lemma AfterEventKeeps(hs: seq<object>, env: CmEnv, round: nat, h: object)
    requires env.fetch(round).Some? ==>
               Answer(env, round, h, env.fetch(round).value) != Some(MAY_BE_REMOVED)
    ensures multiset(AfterEvent(hs, env, round))[h] == multiset(hs)[h]
  {
    if RemovesOwner(hs, env, round) {
      var i := FirstMatch(hs, env, round, env.fetch(round).value);
      assert hs[i] != h;
      assert hs == hs[..i] + [hs[i]] + hs[i + 1..];
      assert AfterEvent(hs, env, round) == hs[..i] + hs[i + 1..];
    }
  }

  /** True iff handler `h` does not answer MAY_BE_REMOVED to the event of
      round `round` (or that round fetches no event). */
  predicate NotRemovable(env: CmEnv, round: nat, h: object)
  {
    env.fetch(round).Some? ==> Answer(env, round, h, env.fetch(round).value) != Some(MAY_BE_REMOVED)
  }

  /** Round `k - 1` keeps the registrations of a handler that does not
      answer MAY_BE_REMOVED to its event. */
  lemma RoundKeeps(hs: seq<object>, env: CmEnv, k: nat, h: object)
    requires k > 0 && NotRemovable(env, k - 1, h)
    ensures multiset(Rounds(hs, env, k))[h] == multiset(Rounds(hs, env, k - 1))[h]
  {
    AfterEventKeeps(Rounds(hs, env, k - 1), env, k - 1, h);
  }

  /** A handler that never answers MAY_BE_REMOVED to an event of the first
      `k` rounds keeps every one of its registrations through those rounds. */
  lemma {:induction false} KeptUnlessRemovable(hs: seq<object>, env: CmEnv, k: nat, h: object)
    requires forall r :: 0 <= r < k ==> NotRemovable(env, r, h)
    ensures multiset(Rounds(hs, env, k))[h] == multiset(hs)[h]
  {
    if k > 0 {
      KeptUnlessRemovable(hs, env, k - 1, h);
      RoundKeeps(hs, env, k, h);
    }
  }

  /** The first index in [0, |hs|] with the properties FirstMatch promises
      is FirstMatch. */
  lemma {:induction false} FirstMatchIsFirst(hs: seq<object>, env: CmEnv, round: nat, ev: CmEvent, i: nat)
    requires i <= |hs|
    requires i < |hs| ==> Matches(env, round, hs[i], ev)
    requires forall j :: 0 <= j < i ==> !Matches(env, round, hs[j], ev)
    ensures i == FirstMatch(hs, env, round, ev)
    decreases |hs|
  {
    if i > 0 {
      assert !Matches(env, round, hs[0], ev);
      FirstMatchIsFirst(hs[1..], env, round, ev, i - 1);
    }
  }

  /** FirstMatch finds an owner when it stops short of the end, and no
      handler before it owns the event. */
  lemma {:induction false} FirstMatchSpec(hs: seq<object>, env: CmEnv, round: nat, ev: CmEvent)
    ensures FirstMatch(hs, env, round, ev) < |hs| ==> Matches(env, round, hs[FirstMatch(hs, env, round, ev)], ev)
    ensures forall j :: 0 <= j < FirstMatch(hs, env, round, ev) ==> !Matches(env, round, hs[j], ev)
    decreases |hs|
  {
    if |hs| > 0 && !Matches(env, round, hs[0], ev) {
      FirstMatchSpec(hs[1..], env, round, ev);
      var i := FirstMatch(hs, env, round, ev);
      forall j | 0 <= j < i ensures !Matches(env, round, hs[j], ev) {
        if j > 0 {
          assert hs[j] == hs[1..][j - 1];
        }
      }
    }
  }

  /** True iff every one of the first `n` rounds fetched an event and
      found its owner. */
  predicate AllFound(hs: seq<object>, env: CmEnv, n: nat)
  {
    n == 0 || (AllFound(hs, env, n - 1) && !Fails(Rounds(hs, env, n - 1), env, n - 1))
  }

  lemma {:induction false} AllFoundMeans(hs: seq<object>, env: CmEnv, n: nat)
    requires AllFound(hs, env, n)
    ensures forall r :: 0 <= r < n ==> !Fails(Rounds(hs, env, r), env, r)
  {
    if n > 0 {
      AllFoundMeans(hs, env, n - 1);
    }
  }

  /** How a WaitAll that started from `h0` and ran `rounds` rounds ended
      with result `rc` and handler list `hs`. */
  predicate Finished(h0: seq<object>, env: CmEnv, fuel: nat, rc: int, rounds: nat, hs: seq<object>)
  {
    && (rc == 0 || rc == kErrFailed || rc == UNFINISHED)
    && (rc == 0 <==> hs == [])
    && (h0 == [] ==> rc == 0 && rounds == 0)
    && hs == Rounds(h0, env, rounds)
    && AllFound(h0, env, rounds)
    && (rc == kErrFailed ==> Fails(hs, env, rounds))
    && (rc == UNFINISHED ==> rounds == fuel)
  }

  /** WaitAll is still running after `rounds` rounds from `h0`: within
      the fuel, every round found its event's owner, and `hs` is what the
      rounds left. */
  ghost predicate Ongoing(h0: seq<object>, env: CmEnv, fuel: nat, rounds: nat, hs: seq<object>)
  {
    && rounds <= fuel
    && hs == Rounds(h0, env, rounds)
    && AllFound(h0, env, rounds)
    && (h0 == [] ==> rounds == 0)
  }

  /** WaitAll stops with 0 once the rounds have emptied the list. */
  lemma OngoingEnds(h0: seq<object>, env: CmEnv, fuel: nat, rounds: nat)
    requires Ongoing(h0, env, fuel, rounds, [])
    ensures Finished(h0, env, fuel, 0, rounds, [])
  {
  }

  /** The std::find_if of a round: scans `hs` in order for the first
      handler that owns `ev`. */
  method FindHandler(hs: seq<object>, round: nat, env: CmEnv, ev: CmEvent) returns (i: nat)
    ensures i == FirstMatch(hs, env, round, ev)
  {
    i := 0;
    while i < |hs| && !Matches(env, round, hs[i], ev)
      invariant i <= |hs|
      invariant forall j :: 0 <= j < i ==> !Matches(env, round, hs[j], ev)
    {
      i := i + 1;
    }
    FirstMatchIsFirst(hs, env, round, ev, i);
  }

  /** Hands event `ev` of round `round` to handler `i` of `hs`, the first
      that owns it, and erases that handler when it answers
      MAY_BE_REMOVED. */
  method Dispatch(hs: seq<object>, round: nat, env: CmEnv, ev: CmEvent, i: nat) returns (after: seq<object>)
    requires env.fetch(round) == Some(ev)
    requires i == FirstMatch(hs, env, round, ev) < |hs|
    ensures after == AfterEvent(hs, env, round)
  {
    var handler := hs[i];
    var answer: Option<int> := None;
    match ev.event {
      case ConnectRequest =>
        answer := Some(env.onEvent(round, handler, ev.event, ev.id));
      case Established =>
        answer := Some(env.onEvent(round, handler, ev.event, NULL));
      case ConnectError =>
        answer := Some(env.onError(round, handler, ev.event));
      case Unreachable =>
        answer := Some(env.onError(round, handler, ev.event));
      case Rejected =>
        answer := Some(env.onError(round, handler, ev.event));
      case OtherEvent(_) =>
    }
    assert answer == Answer(env, round, handler, ev);
    after := hs;
    if answer == Some(MAY_BE_REMOVED) {
      after := hs[..i] + hs[i + 1..];
    }
  }

  /** Round `round` of WaitAll on handler list `hs`: fetches the round's
      event, finds its owner and dispatches it. `done` tells WaitAll to
      return `rc`; `acked` tells whether the event was acknowledged. */
  method Round(ghost h0: seq<object>, env: CmEnv, fuel: nat, round: nat, hs: seq<object>)
    returns (rc: int, done: bool, after: seq<object>, ghost acked: bool)
    requires Ongoing(h0, env, fuel, round, hs) && hs != []
    ensures done ==> after == hs && Finished(h0, env, fuel, rc, round, after)
    ensures done ==> (acked <==> rc == kErrFailed && env.fetch(round).Some?)
    ensures !done ==> rc == 0 && round < fuel && acked
    ensures !done ==> Ongoing(h0, env, fuel, round + 1, after)
  {
    after := hs;
    if round == fuel {
      return UNFINISHED, true, hs, false;
    }
    var fetched := env.fetch(round);
    if fetched.None? {
      return kErrFailed, true, hs, false;
    }
    var ev := fetched.value;
    var i := FindHandler(hs, round, env, ev);
    if i == |hs| {
      return kErrFailed, true, hs, true;
    }
    after := Dispatch(hs, round, env, ev, i);
    return 0, false, after, true;
  }

  class RdmaEventLoop {
    /** handlers_: the registered handlers, in registration order. */
    var handlers: seq<object>
    /** The identifiers moved onto the event channel, in order. */
    ghost var migrated: seq<nat>
    /** How many events were acknowledged with rdma_ack_cm_event. */
    ghost var acks: nat

    constructor ()
      ensures handlers == [] && migrated == [] && acks == 0
    {
      handlers := [];
      migrated := [];
      acks := 0;
    }

    /** Moves the handler's identifier `id` onto the loop's event channel
        and appends the handler; a handler added twice is listed twice. */
    method AddHandler(h: object, id: nat)
      modifies this
      ensures handlers == old(handlers) + [h]
      ensures migrated == old(migrated) + [id]
      ensures acks == old(acks)
    {
      migrated := migrated + [id];
      handlers := handlers + [h];
    }

    /** Takes events off the channel and dispatches them until no handler
        is left. An empty list gives 0 at once; a failed fetch or an event
        no handler owns gives kErrFailed (the latter after acknowledging
        it). Every dispatched event is acknowledged. The timeout is not
        used and kErrTimedOut is never returned. At most `fuel` rounds are
        run. */
    method WaitAll(timeoutMillis: int, env: CmEnv, fuel: nat) returns (rc: int, rounds: nat)
      modifies this
      ensures rc == 0 || rc == kErrFailed || rc == UNFINISHED
      ensures rc == 0 <==> handlers == []
      ensures old(handlers) == [] ==> rc == 0 && rounds == 0
      ensures handlers == Rounds(old(handlers), env, rounds)
      ensures forall r :: 0 <= r < rounds ==> !Fails(Rounds(old(handlers), env, r), env, r)
      ensures rc == kErrFailed ==> Fails(handlers, env, rounds)
      ensures rc == UNFINISHED ==> rounds == fuel
      ensures acks == old(acks) + rounds + (if rc == kErrFailed && env.fetch(rounds).Some? then 1 else 0)
      ensures migrated == old(migrated)
    {
      ghost var h0 := handlers;
      var hs;
      ghost var acked;
      rc, rounds, hs, acked := DispatchRounds(handlers, env, fuel);
      handlers := hs;
      acks := acks + acked;
      AllFoundMeans(h0, env, rounds);
    }
  }

  /** The loop of WaitAll, on the handler list `h0`; `acked` counts the
      acknowledged events. */
  method DispatchRounds(h0: seq<object>, env: CmEnv, fuel: nat)
    returns (rc: int, rounds: nat, hs: seq<object>, ghost acked: nat)
    ensures Finished(h0, env, fuel, rc, rounds, hs)
    ensures acked == rounds + (if rc == kErrFailed && env.fetch(rounds).Some? then 1 else 0)
  {
    hs := h0;
    acked := 0;
    rc := 0;
    rounds := 0;
    while |hs| > 0
      invariant rc == 0 && acked == rounds && Ongoing(h0, env, fuel, rounds, hs)
      decreases fuel - rounds
    {
      var done, after;
      ghost var ack;
      rc, done, after, ack := Round(h0, env, fuel, rounds, hs);
      hs := after;
      if done {
        acked := acked + (if ack then 1 else 0);
        break;
      }
      acked := acked + 1;
      rounds := rounds + 1;
    }
    if hs == [] {
      OngoingEnds(h0, env, fuel, rounds);
    }
  }
}
