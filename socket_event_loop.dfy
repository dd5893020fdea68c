/** The poll(2)-based event loop of the socket transport: a map from socket
    descriptor to the handler registered for it, and a dispatch loop that
    polls every registered descriptor for the events its handler currently
    wants and hands the results to the handlers until none is left. */
module SocketEventLoops {
  import opened Common

  /** One entry of the pollfd array: descriptor and requested events. */
  datatype PollFd = PollFd(fd: int, events: bv16)

  /** Everything WaitAll learns from outside, indexed by round number: the
      return value of poll (given the descriptors with the events asked for
      each, and the timeout), the revents it reports per descriptor, and what
      the registered handlers (EventHandler implementations the loop cannot
      see into) answer to GetEventType, OnEvent and OnError. */
  datatype PollEnv = PollEnv(
    poll: (nat, map<int, bv16>, int) -> int,
    revents: (nat, int) -> bv16,
    eventType: (nat, object) -> bv16,
    onEvent: (nat, object, bv16) -> int,
    onError: (nat, object, bv16) -> int)

  /** True iff revents report a hang-up, an error or an invalid descriptor. */
  predicate IsErrorEvent(revents: bv16)
  {
    revents & (POLLHUP | POLLERR | POLLNVAL) != 0
  }

  /** The answer of handler `h` of descriptor `fd` in `round`: None when the
      descriptor was not ready, else what OnError or OnEvent returned. */
  function Answer(env: PollEnv, round: nat, fd: int, h: object): (a: Option<int>)
    ensures a.None? <==> env.revents(round, fd) == 0
    ensures a.Some? && IsErrorEvent(env.revents(round, fd)) ==> a.value == env.onError(round, h, env.revents(round, fd))
    ensures a.Some? && !IsErrorEvent(env.revents(round, fd)) ==> a.value == env.onEvent(round, h, env.revents(round, fd))
  {
    var rev := env.revents(round, fd);
    if rev == 0 then None
    else if IsErrorEvent(rev) then Some(env.onError(round, h, rev))
    else Some(env.onEvent(round, h, rev))
  }

  /** The interest set of a round: each registered descriptor with its
      handler's current GetEventType(). */
  function Interest(h: map<int, object>, env: PollEnv, round: nat): map<int, bv16>
  {
    map fd | fd in h :: env.eventType(round, h[fd])
  }

  /** What poll answers in round `round` when asked about the handlers `h`. */
  function PollAnswer(h: map<int, object>, env: PollEnv, round: nat, timeoutMillis: int): int
  {
    env.poll(round, Interest(h, env, round), timeoutMillis)
  }

  /** True iff the poll of round `round` reported a ready descriptor. */
  predicate Ready(h: map<int, object>, env: PollEnv, round: nat, timeoutMillis: int)
  {
    PollAnswer(h, env, round, timeoutMillis) > 0
  }

  /** The handler map after one dispatch round. */
  function AfterRound(h: map<int, object>, env: PollEnv, round: nat): map<int, object>
  {
    map fd | fd in h && Answer(env, round, fd, h[fd]) != Some(MAY_BE_REMOVED) :: h[fd]
  }

  /** The handler map after `k` dispatch rounds. */
  function Rounds(h: map<int, object>, env: PollEnv, k: nat): map<int, object>
  {
    if k == 0 then h else AfterRound(Rounds(h, env, k - 1), env, k - 1)
  }

  /** Dispatch only ever removes handlers; survivors keep their descriptor. */
  lemma {:induction false} RoundsOnlyRemove(h: map<int, object>, env: PollEnv, k: nat)
    ensures Rounds(h, env, k).Keys <= h.Keys
    ensures forall fd :: fd in Rounds(h, env, k) ==> Rounds(h, env, k)[fd] == h[fd]
  {
    if k > 0 {
      RoundsOnlyRemove(h, env, k - 1);
    }
  }

  /** A handler that is never ready, or never answers MAY_BE_REMOVED, stays
      registered through every round. */
  lemma {:induction false} KeptUnlessRemovable(h: map<int, object>, env: PollEnv, k: nat, fd: int)
    requires fd in h
    requires forall r :: 0 <= r < k ==> Answer(env, r, fd, h[fd]) != Some(MAY_BE_REMOVED)
    ensures fd in Rounds(h, env, k) && Rounds(h, env, k)[fd] == h[fd]
  {
    if k > 0 {
      KeptUnlessRemovable(h, env, k - 1, fd);
    }
  }

  /** Some element of a non-empty set. */
  ghost function PickAny<T>(s: set<T>): (x: T)
    requires s != {}
    ensures x in s
  {
    var x :| x in s; x
  }

  class SocketEventLoop {
    /** handler_refs_: the handler registered for each descriptor. */
    var handlers: map<int, object>

    constructor ()
      ensures handlers == map[]
    {
      handlers := map[];
    }

    /** Registers `h` for `fd` unless some handler already holds `fd`. */
    method AddHandler(fd: int, h: object)
      modifies this
      ensures fd in old(handlers) ==> handlers == old(handlers)
      ensures fd !in old(handlers) ==> handlers == old(handlers)[fd := h]
    {
      if fd !in handlers {
        handlers := handlers[fd := h];
      }
    }

    /** Polls and dispatches until no handler is left. An empty map gives 0
        at once; a failing poll gives kErrFailed and a timed-out one
        kErrTimedOut, each without touching the map. At most `fuel` rounds
        are run (the timeout is passed on to poll, which is not modelled). */
    method WaitAll(timeoutMillis: int, env: PollEnv, fuel: nat) returns (rc: int, rounds: nat)
      modifies this
      ensures rc == 0 || rc == kErrTimedOut || rc == kErrFailed || rc == UNFINISHED
      ensures rc == 0 <==> handlers == map[]
      ensures old(handlers) == map[] ==> rc == 0 && rounds == 0
      ensures handlers == Rounds(old(handlers), env, rounds)
      ensures forall r :: 0 <= r < rounds ==> Ready(Rounds(old(handlers), env, r), env, r, timeoutMillis)
      ensures rc == kErrFailed ==> PollAnswer(handlers, env, rounds, timeoutMillis) < 0
      ensures rc == kErrTimedOut ==> PollAnswer(handlers, env, rounds, timeoutMillis) == 0
      ensures rc == UNFINISHED ==> rounds == fuel
    {
      rc, rounds, handlers := PollRounds(handlers, env, timeoutMillis, fuel);
      AllReadyMeans(old(handlers), env, rounds, timeoutMillis);
    }
  }

  /** The pollfd array of a round: each descriptor of `h` exactly once,
      asking for its handler's current GetEventType(). */
  method BuildFds(h: map<int, object>, round: nat, env: PollEnv) returns (fds: seq<PollFd>)
    ensures forall i :: 0 <= i < |fds| ==>
              fds[i].fd in h && fds[i].events == env.eventType(round, h[fds[i].fd])
    ensures forall fd :: fd in h ==> exists i :: 0 <= i < |fds| && fds[i].fd == fd
    ensures forall i, j :: 0 <= i < j < |fds| ==> fds[i].fd != fds[j].fd
    ensures PollSet(fds) == Interest(h, env, round)
  {
    var rest := h.Keys;
    fds := [];
    while rest != {}
      invariant rest <= h.Keys
      invariant forall i :: 0 <= i < |fds| ==>
                  fds[i].fd in h && fds[i].fd !in rest
                  && fds[i].events == env.eventType(round, h[fds[i].fd])
      invariant forall fd :: fd in h && fd !in rest ==> exists i :: 0 <= i < |fds| && fds[i].fd == fd
      invariant forall i, j :: 0 <= i < j < |fds| ==> fds[i].fd != fds[j].fd
      decreases |rest|
    {
      assert exists x :: x in rest by {
        var x := PickAny(rest);
      }
      var fd :| fd in rest;
      ghost var before := fds;
      fds := fds + [PollFd(fd, env.eventType(round, h[fd]))];
      rest := rest - {fd};
      assert fds[|before|].fd == fd;
      forall x | x in h && x !in rest
        ensures exists i :: 0 <= i < |fds| && fds[i].fd == x
      {
        if x != fd {
          var i :| 0 <= i < |before| && before[i].fd == x;
          assert fds[i].fd == x;
        }
      }
    }
    FdsInterest(fds, h, round, env);
  }

  /** An array that lists each descriptor of `h` once, with its handler's
      current events, is the round's interest set. */
  lemma FdsInterest(fds: seq<PollFd>, h: map<int, object>, round: nat, env: PollEnv)
    requires forall i :: 0 <= i < |fds| ==>
               fds[i].fd in h && fds[i].events == env.eventType(round, h[fds[i].fd])
    requires forall fd :: fd in h ==> exists i :: 0 <= i < |fds| && fds[i].fd == fd
    requires forall i, j :: 0 <= i < j < |fds| ==> fds[i].fd != fds[j].fd
    ensures PollSet(fds) == Interest(h, env, round)
  {
    PollSetOf(fds);
    var m, want := PollSet(fds), Interest(h, env, round);
    forall fd | fd in h
      ensures fd in m && m[fd] == want[fd]
    {
      var i :| 0 <= i < |fds| && fds[i].fd == fd;
    }
    forall fd | fd in m
      ensures fd in h
    {
      var i :| 0 <= i < |fds| && fds[i].fd == fd;
    }
    assert m.Keys == want.Keys;
  }

  /** A pollfd array without repeated descriptors, seen as a map: each entry
      is there with its events, and nothing else is. */
  lemma {:induction false} PollSetOf(fds: seq<PollFd>)
    requires forall i, j :: 0 <= i < j < |fds| ==> fds[i].fd != fds[j].fd
    ensures forall i :: 0 <= i < |fds| ==> fds[i].fd in PollSet(fds) && PollSet(fds)[fds[i].fd] == fds[i].events
    ensures forall fd :: fd in PollSet(fds) ==> exists i :: 0 <= i < |fds| && fds[i].fd == fd
  {
    if fds != [] {
      var k := |fds| - 1;
      PollSetOf(fds[..k]);
      forall fd | fd in PollSet(fds)
        ensures exists i :: 0 <= i < |fds| && fds[i].fd == fd
      {
        if fd != fds[k].fd {
          var i :| 0 <= i < k && fds[..k][i].fd == fd;
          assert fds[i].fd == fd;
        }
      }
    }
  }

  /** The pollfd array seen as the map from descriptor to events asked for. */
  function PollSet(fds: seq<PollFd>): map<int, bv16>
  {
    if fds == [] then map[] else PollSet(fds[..|fds| - 1])[fds[|fds| - 1].fd := fds[|fds| - 1].events]
  }

  /** Hands every ready descriptor of `fds` to its handler in `h0` and
      erases the handlers that answer MAY_BE_REMOVED. */
  method Dispatch(h0: map<int, object>, round: nat, env: PollEnv, fds: seq<PollFd>) returns (h: map<int, object>)
    requires forall i :: 0 <= i < |fds| ==> fds[i].fd in h0
    requires forall fd :: fd in h0 ==> exists i :: 0 <= i < |fds| && fds[i].fd == fd
    requires forall i, j :: 0 <= i < j < |fds| ==> fds[i].fd != fds[j].fd
    ensures h == AfterRound(h0, env, round)
  {
    h := h0;
    var i := 0;
    while i < |fds|
      invariant 0 <= i <= |fds|
      invariant forall fd :: fd in h ==> fd in h0 && h[fd] == h0[fd]
      invariant forall j :: i <= j < |fds| ==> fds[j].fd in h
      invariant forall j :: 0 <= j < i ==>
                  (fds[j].fd in h <==> Answer(env, round, fds[j].fd, h0[fds[j].fd]) != Some(MAY_BE_REMOVED))
    {
      var fd := fds[i].fd;
      var handler := h[fd];
      var revents := env.revents(round, fd);
      if revents == 0 {
      } else if IsErrorEvent(revents) {
        if env.onError(round, handler, revents) == MAY_BE_REMOVED {
          h := h - {fd};
        }
      } else {
        if env.onEvent(round, handler, revents) == MAY_BE_REMOVED {
          h := h - {fd};
        }
      }
      i := i + 1;
    }
    forall fd | fd in h0
      ensures fd in h <==> fd in AfterRound(h0, env, round)
    {
      var j :| 0 <= j < |fds| && fds[j].fd == fd;
    }
    ghost var after := AfterRound(h0, env, round);
    assert forall fd :: fd in after ==> fd in h0 && after[fd] == h0[fd];
    assert forall fd :: fd in h ==> fd in h0;
    assert forall fd :: fd in h <==> fd in after;
    assert h.Keys == after.Keys;
    assert forall fd :: fd in h ==> h[fd] == after[fd];
  }

  /** One pass of WaitAll's loop over the handler map `h`: builds the
      pollfd array, polls it and, when poll reports ready descriptors,
      dispatches them. */
  method PollRound(h: map<int, object>, round: nat, env: PollEnv, timeoutMillis: int)
      returns (pollRc: int, next: map<int, object>)
    ensures pollRc == PollAnswer(h, env, round, timeoutMillis)
    ensures pollRc > 0 ==> next == AfterRound(h, env, round)
  {
    var fds := BuildFds(h, round, env);
    pollRc := env.poll(round, PollSet(fds), timeoutMillis);
    next := h;
    if pollRc > 0 {
      next := Dispatch(h, round, env, fds);
    }
  }

  /** Every one of the first k rounds from `h0` polled a ready descriptor. */
  ghost predicate AllReady(h0: map<int, object>, env: PollEnv, k: nat, timeoutMillis: int)
  {
    k == 0 || (AllReady(h0, env, k - 1, timeoutMillis) && Ready(Rounds(h0, env, k - 1), env, k - 1, timeoutMillis))
  }

  lemma {:induction false} AllReadyMeans(h0: map<int, object>, env: PollEnv, k: nat, timeoutMillis: int)
    requires AllReady(h0, env, k, timeoutMillis)
    ensures forall r :: 0 <= r < k ==> Ready(Rounds(h0, env, r), env, r, timeoutMillis)
  {
    if k > 0 {
      AllReadyMeans(h0, env, k - 1, timeoutMillis);
    }
  }

  /** Round `round` of WaitAll's loop from `h0`, on the map `h` the earlier
      rounds left: polls and, when poll reports ready descriptors,
      dispatches them; otherwise `rc` is the code the loop stops with. */
  method PollStep(h0: map<int, object>, env: PollEnv, timeoutMillis: int, round: nat, h: map<int, object>)
      returns (stop: bool, rc: int, next: map<int, object>)
    requires AllReady(h0, env, round, timeoutMillis) && h == Rounds(h0, env, round)
    ensures !stop ==> next == Rounds(h0, env, round + 1) && AllReady(h0, env, round + 1, timeoutMillis)
    ensures stop ==> (rc == kErrFailed && PollAnswer(h, env, round, timeoutMillis) < 0)
                     || (rc == kErrTimedOut && PollAnswer(h, env, round, timeoutMillis) == 0)
  {
    var pollRc;
    pollRc, next := PollRound(h, round, env, timeoutMillis);
    stop := pollRc <= 0;
    rc := if pollRc < 0 then kErrFailed else kErrTimedOut;
  }

  /** The loop of WaitAll on the handler map `h0`: the map `h` the rounds
      left, how many rounds completed and how the loop ended. */
  method PollRounds(h0: map<int, object>, env: PollEnv, timeoutMillis: int, fuel: nat)
      returns (rc: int, rounds: nat, h: map<int, object>)
    ensures rc == 0 || rc == kErrTimedOut || rc == kErrFailed || rc == UNFINISHED
    ensures rc == 0 <==> h == map[]
    ensures h0 == map[] ==> rc == 0 && rounds == 0
    ensures h == Rounds(h0, env, rounds)
    ensures AllReady(h0, env, rounds, timeoutMillis)
    ensures rc == kErrFailed ==> PollAnswer(h, env, rounds, timeoutMillis) < 0
    ensures rc == kErrTimedOut ==> PollAnswer(h, env, rounds, timeoutMillis) == 0
    ensures rc == UNFINISHED ==> rounds == fuel
  {
    h := h0;
    rc := 0;
    rounds := 0;
    while h != map[]
      invariant rounds <= fuel
      invariant h == Rounds(h0, env, rounds)
      invariant AllReady(h0, env, rounds, timeoutMillis)
      invariant h0 == map[] ==> rounds == 0
      decreases fuel - rounds
    {
      if rounds == fuel {
        rc := UNFINISHED;
        break;
      }
      var stop, code, next := PollStep(h0, env, timeoutMillis, rounds, h);
      if stop {
        rc := code;
        break;
      }
      h := next;
      rounds := rounds + 1;
    }
  }
}
