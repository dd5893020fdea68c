/** Types and constants shared by every transport: the option and promise
    slots, the memory-region access flags, the event-handler sentinel and the
    event-loop result codes, and small arithmetic helpers over lengths. */
module Common {

  /** A value or nothing; `None` stands for a null pointer. */
  datatype Option<T> = None | Some(value: T)

  /** One byte of a buffer. */
  newtype byte = x: int | 0 <= x < 256

  /** The null address. Addresses are naturals indexing into memory. */
  const NULL: nat := 0

  // Memory-region access flags (MRType).
  const MR_LOCAL_READ: bv32 := 0
  const MR_LOCAL_WRITE: bv32 := 1
  const MR_REMOTE_READ: bv32 := 2
  const MR_REMOTE_WRITE: bv32 := 4

  /** Returned by an event handler that no longer needs to be registered. */
  const MAY_BE_REMOVED: int := 1

  // Results of EventLoop::WaitAll besides 0 (success).
  const kErrTimedOut: int := 1
  const kErrFailed: int := 2

  /** Result of a WaitAll that used up its round budget (see README). */
  const UNFINISHED: int := -1

  // Readiness bits of poll(2) on Linux.
  const POLLIN: bv16 := 0x001
  const POLLOUT: bv16 := 0x004
  const POLLERR: bv16 := 0x008
  const POLLHUP: bv16 := 0x010
  const POLLNVAL: bv16 := 0x020

  /** The future half of a std::promise: unset until `set_value` is called
      once; a null channel is `Set(None)`. */
  datatype Promise<T> = Unset | Set(value: Option<T>)

  /** An event recorded by a handshake object, in the order it happened. */
  datatype Step<T> = CallbackInvoked(channel: T) | PromiseSet(value: Option<T>)

  /** How many times `steps` sets the promise. */
  function SetCount<T>(steps: seq<Step<T>>): nat
  {
    if steps == [] then 0
    else SetCount(steps[..|steps| - 1]) + (if steps[|steps| - 1].PromiseSet? then 1 else 0)
  }

  lemma {:induction false} SetCountAppend<T>(a: seq<Step<T>>, b: seq<Step<T>>)
    ensures SetCount(a + b) == SetCount(a) + SetCount(b)
    decreases |b|
  {
    if b == [] {
      assert a + b == a;
    } else {
      SetCountAppend(a, b[..|b| - 1]);
      assert (a + b)[..|a + b| - 1] == a + b[..|b| - 1];
    }
  }

  /** A step log that invokes callbacks only. */
  lemma {:induction false} NoSets<T>(callbacks: seq<Step<T>>)
    requires forall i :: 0 <= i < |callbacks| ==> callbacks[i].CallbackInvoked?
    ensures SetCount(callbacks) == 0
  {
    if callbacks != [] {
      NoSets(callbacks[..|callbacks| - 1]);
    }
  }

  /** The promise is set at most once, and once it is set the last step
      recorded is the one that set it. */
  predicate SetOnce<T(==)>(promise: Promise<T>, steps: seq<Step<T>>)
  {
    && SetCount(steps) <= 1
    && (promise.Unset? <==> SetCount(steps) == 0)
    && (promise.Set? ==> steps != [] && steps[|steps| - 1] == PromiseSet(promise.value))
  }

  /** Invoking callbacks and then setting an unset promise keeps it set
      exactly once. */
  lemma SettlePromise<T>(steps: seq<Step<T>>, callbacks: seq<Step<T>>, v: Option<T>)
    requires SetOnce(Unset, steps)
    requires forall i :: 0 <= i < |callbacks| ==> callbacks[i].CallbackInvoked?
    ensures SetOnce(Set(v), steps + callbacks + [PromiseSet(v)])
    ensures SetCount(steps + callbacks + [PromiseSet(v)]) == 1
  {
    NoSets(callbacks);
    SetCountAppend(steps, callbacks);
    var last: seq<Step<T>> := [PromiseSet(v)];
    assert last[..0] == [];
    SetCountAppend(steps + callbacks, last);
  }

  function Min(a: nat, b: nat): nat { if a <= b then a else b }

  /** Unsigned 32-bit wrap-around of an integer result. */
  function Wrap32(x: int): (r: nat)
    ensures r < 0x1_0000_0000
    ensures 0 <= x < 0x1_0000_0000 ==> r == x
  {
    x % 0x1_0000_0000
  }

  /** Unsigned 64-bit wrap-around of an integer result. */
  function Wrap64(x: int): (r: nat)
    ensures r < 0x1_0000_0000_0000_0000
    ensures 0 <= x < 0x1_0000_0000_0000_0000 ==> r == x
  {
    x % 0x1_0000_0000_0000_0000
  }

  /** Sum of a sequence of lengths. */
  function Sum(s: seq<nat>): nat
  {
    if s == [] then 0 else Sum(s[..|s| - 1]) + s[|s| - 1]
  }

  lemma {:induction false} SumAppend(s: seq<nat>, t: seq<nat>)
    ensures Sum(s + t) == Sum(s) + Sum(t)
    decreases |t|
  {
    if t == [] {
      assert s + t == s;
    } else {
      assert (s + t)[..|s + t| - 1] == s + t[..|t| - 1];
      SumAppend(s, t[..|t| - 1]);
    }
  }

  /** A fresh array holding data. */
  method Staged(data: seq<byte>) returns (buf: array<byte>)
    ensures fresh(buf)
    ensures buf[..] == data && buf[0..|data|] == data
  {
    buf := new byte[|data|](j requires 0 <= j < |data| => data[j]);
    assert buf[..] == data;
  }
}
