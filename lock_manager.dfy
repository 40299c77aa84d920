/*
 * AbstractLockManager: the timeout test of a lock and the listener list that lock events are
 * delivered to.
 */
module LockManagers {
  import opened Wrappers
  import opened JavaText
  import opened ListenerLists

  /** The two fields of a lock the timeout test reads, both Java `long` milliseconds. */
  datatype Lock = Lock(creationTime: int, timeout: int)

  /**
   * `checkLockTimeout(currentTime, lock)`: the lock has a positive timeout and the current time
   * lies after creation time plus timeout, the sum taken in 64-bit arithmetic.
   */
  function CheckLockTimeout(currentTime: int, lock: Lock): (r: bool)
    requires IsJavaLong(currentTime) && IsJavaLong(lock.creationTime) && IsJavaLong(lock.timeout)
    ensures lock.timeout <= 0 ==> !r
  {
    lock.timeout > 0 && currentTime > Wrap64(lock.creationTime + lock.timeout)
  }

  /** Without overflow, a lock times out exactly once its deadline has passed. */
  lemma TimeoutWithoutOverflow(currentTime: int, lock: Lock)
    requires IsJavaLong(currentTime) && IsJavaLong(lock.creationTime) && IsJavaLong(lock.timeout)
    requires IsJavaLong(lock.creationTime + lock.timeout)
    ensures CheckLockTimeout(currentTime, lock) <==>
      lock.timeout > 0 && currentTime > lock.creationTime + lock.timeout
  {
  }

  /** A lock that has timed out stays timed out at every later time. */
  lemma TimeoutIsMonotone(t1: int, t2: int, lock: Lock)
    requires IsJavaLong(t1) && IsJavaLong(t2) && IsJavaLong(lock.creationTime) && IsJavaLong(lock.timeout)
    requires t1 <= t2 && CheckLockTimeout(t1, lock)
    ensures CheckLockTimeout(t2, lock)
  {
  }

  /**
   * When creation time plus timeout exceeds the `long` range, the sum wraps to a negative
   * deadline, and the lock counts as timed out at every non-negative time.
   */
  lemma OverflowingDeadlineHasPassed(currentTime: int, lock: Lock)
    requires IsJavaLong(currentTime) && IsJavaLong(lock.creationTime) && IsJavaLong(lock.timeout)
    requires lock.timeout > 0 && lock.creationTime + lock.timeout > MaxLong && currentTime >= 0
    ensures CheckLockTimeout(currentTime, lock)
  {
    var n := lock.creationTime + lock.timeout;
    assert Wrap64(n) == n - 0x1_0000_0000_0000_0000;
  }

  /** A registered lock listener; only its identity matters here. */
  class LockListener {
    constructor ()
    {
    }
  }

  /** The three events a lock manager sends to its listeners. */
  datatype LockEventKind = LockAdded | LockRemoved | LockTimeout

  /** The listener method an event calls. */
  function ListenerMethod(kind: LockEventKind): string
  {
    match kind
    case LockAdded => "lockAdded"
    case LockRemoved => "lockRemoved"
    case LockTimeout => "lockTimeout"
  }

  /** The warning logged when a listener throws an exception with message `msg`. */
  function ListenerWarning(kind: LockEventKind, msg: string): string
  {
    "LockListener exception in " + ListenerMethod(kind) + " method: " + msg
  }

  /**
   * The warnings of one delivery, in listener order: `fails(l)` is the message of the exception
   * listener `l` throws, or None when it returns normally.
   */
  function FailureWarnings(ls: seq<LockListener>, kind: LockEventKind, fails: LockListener -> Option<string>): seq<string>
    decreases |ls|
  {
    if ls == [] then []
    else
      var w := FailureWarnings(ls[..|ls| - 1], kind, fails);
      var last := ls[|ls| - 1];
      if fails(last).Some? then w + [ListenerWarning(kind, fails(last).value)] else w
  }

  /** The listeners of `ls` that throw. */
  function Failing(ls: seq<LockListener>, fails: LockListener -> Option<string>): nat
    decreases |ls|
  {
    if ls == [] then 0 else Failing(ls[..|ls| - 1], fails) + (if fails(ls[|ls| - 1]).Some? then 1 else 0)
  }

  /** One warning per throwing listener, each naming the event's listener method; none without one. */
  lemma {:induction false} WarningsMatchFailures(ls: seq<LockListener>, kind: LockEventKind, fails: LockListener -> Option<string>)
    ensures |FailureWarnings(ls, kind, fails)| == Failing(ls, fails)
    ensures (forall l :: l in ls ==> fails(l).None?) ==> FailureWarnings(ls, kind, fails) == []
    ensures forall w :: w in FailureWarnings(ls, kind, fails) ==>
      exists l :: l in ls && fails(l).Some? && w == ListenerWarning(kind, fails(l).value)
    decreases |ls|
  {
    if ls != [] {
      var init := ls[..|ls| - 1];
      WarningsMatchFailures(init, kind, fails);
      assert forall l :: l in init ==> l in ls;
    }
  }

  class LockManager {
    var listeners: seq<LockListener>

    /** No listener is registered twice. */
    ghost predicate Valid()
      reads this
    {
      NoDuplicates(listeners)
    }

    constructor ()
      ensures Valid() && listeners == []
    {
      listeners := [];
    }

    /** `addListener`: the listener ends up registered exactly once, as the last entry. */
    method AddListener(listener: LockListener)
      requires Valid()
      modifies this
      ensures Valid() && listeners == AddLast(old(listeners), listener)
    {
      var _ := RemoveListener(listener);
      listeners := listeners + [listener];
      AddLastOnce(old(listeners), listener);
    }

    /** `removeListener`: removes the first identical entry; true iff there was one. */
    method RemoveListener(listener: LockListener) returns (found: bool)
      requires Valid()
      modifies this
      ensures Valid() && listeners == RemoveFirst(old(listeners), listener)
      ensures found <==> listener in old(listeners)
    {
      var i := 0;
      while i < |listeners|
        invariant 0 <= i <= |listeners| && listeners == old(listeners)
        invariant forall j :: 0 <= j < i ==> listeners[j] != listener
      {
        if listeners[i] == listener {
          assert FirstIndex(listeners, listener) == i;
          RemoveFirstOfUnique(listeners, listener);
          listeners := listeners[..i] + listeners[i + 1..];
          return true;
        }
        i := i + 1;
      }
      assert FirstIndex(listeners, listener) == |listeners|;
      return false;
    }

    /**
     * `lockAddedEvent`, `lockRemovedEvent` and `lockTimeoutEvent`: every listener is called, in
     * list order, whether or not an earlier one threw; each exception becomes one warning.
     */
    method FireLockEvent(kind: LockEventKind, fails: LockListener -> Option<string>)
      returns (called: seq<LockListener>, warnings: seq<string>)
      ensures called == listeners
      ensures warnings == FailureWarnings(listeners, kind, fails)
    {
      called := [];
      warnings := [];
      var i := 0;
      while i < |listeners|
        invariant 0 <= i <= |listeners|
        invariant called == listeners[..i]
        invariant warnings == FailureWarnings(listeners[..i], kind, fails)
      {
        var l := listeners[i];
        assert listeners[..i + 1][..i] == listeners[..i];
        called := called + [l];
        var outcome := fails(l);
        if outcome.Some? {
          warnings := warnings + [ListenerWarning(kind, outcome.value)];
        }
        i := i + 1;
      }
      assert listeners[..|listeners|] == listeners;
    }
  }
}
