/**
 * The retry driver (retry.go).
 *
 * Retry0 .. Retry3 differ only in how many values f returns besides its
 * error, so one driver generic in the result R stands for all four (R is
 * the unit type for Retry0, a tuple for Retry2 and Retry3). The user
 * function f is a function of the iteration index and the pause its handle
 * shows; it returns its result, its error, and what it wrote into the
 * handle, if anything.
 */
module Retry {
  import opened Sequence
  import opened Backoff

  /**
   * Go's `error` as far as the driver can tell errors apart: nil, the
   * ErrUnrecoverable sentinel, any other error value, and an error that
   * wraps another (as fmt.Errorf with %w does).
   */
  datatype Error = Nil | Unrecoverable | Failure(text: string) | Wrapped(text: string, cause: Error)

  /** errors.Is(e, ErrUnrecoverable). */
  predicate IsUnrecoverable(e: Error)
  {
    match e
    case Unrecoverable => true
    case Wrapped(_, cause) => IsUnrecoverable(cause)
    case _ => false
  }

  /** e, then the error it wraps, and so on: what errors.Unwrap visits. */
  function Chain(e: Error): (r: seq<Error>)
    ensures |r| >= 1 && r[0] == e
  {
    if e.Wrapped? then [e] + Chain(e.cause) else [e]
  }

  /** The sentinel is recognised exactly when it is somewhere on the wrap chain. */
  lemma {:induction false} UnrecoverableIffOnChain(e: Error)
    ensures IsUnrecoverable(e) <==> Unrecoverable in Chain(e)
  {
    if e.Wrapped? {
      UnrecoverableIffOnChain(e.cause);
    }
  }

  /** A non-nil error that does not wrap the sentinel: the driver goes on. */
  predicate Transient(e: Error)
  {
    e != Nil && !IsUnrecoverable(e)
  }

  /** What one call of f does. */
  datatype Attempt<R> = Attempt(result: R, err: Error, wrote: Option<Duration>)

  /** The handle's value after a call that was handed `shown`. */
  function HandleAfter<R>(a: Attempt<R>, shown: Duration): Duration
  {
    if a.wrote.Some? then a.wrote.value else shown
  }

  /**
   * The body of Retry's range loop, as a backoff consumer: yield returns
   * true exactly when f's error is transient, and f's write to the handle
   * is passed on.
   */
  function AsConsumer<R>(f: (nat, Duration) -> Attempt<R>): (nat, Duration) -> Reply
  {
    (i: nat, d: Duration) => Reply(Transient(f(i, d).err), f(i, d).wrote)
  }

  /** Call m of f is followed by a wait and another call. */
  predicate Retries<R>(ps: seq<Duration>, f: (nat, Duration) -> Attempt<R>, cancel: nat -> bool, m: nat)
    requires m < |ps|
  {
    Transient(f(m, ps[m]).err) && HandleAfter(f(m, ps[m]), ps[m]) >= 0 && !cancel(m)
  }

  lemma RetriesIsContinues<R>(ps: seq<Duration>, f: (nat, Duration) -> Attempt<R>, cancel: nat -> bool, m: nat)
    requires m < |ps|
    ensures Retries(ps, f, cancel, m) == Continues(ps, AsConsumer(f), cancel, m)
    ensures HandleAt(ps, AsConsumer(f), m) == HandleAfter(f(m, ps[m]), ps[m])
  {
  }

  /** The call whose values the driver returns: the last call of the backoff run. */
  function LastCall<R>(pauses: seq<Duration>, f: (nat, Duration) -> Attempt<R>, cancel: nat -> bool): Attempt<R>
  {
    var ps := pauses + [SentinelDuration];
    var r := Steps(ps, 0, AsConsumer(f), cancel);
    var last := r.trace[|r.trace| - 1];
    f(last.i, last.shown)
  }

  /**
   * The calls of f from call i on, each with the wait that followed it, read
   * off the driver's own rule: call m is retried exactly when Retries holds.
   */
  function Calls<R>(ps: seq<Duration>, f: (nat, Duration) -> Attempt<R>, cancel: nat -> bool, i: nat): seq<Iteration>
    decreases |ps| - i
  {
    if i >= |ps| then []
    else if !Retries(ps, f, cancel, i) then [Iteration(i, ps[i], None)]
    else [Iteration(i, ps[i], Some(HandleAfter(f(i, ps[i]), ps[i])))] + Calls(ps, f, cancel, i + 1)
  }

  /** The driver's calls are exactly the backoff run with f's outcomes as the replies. */
  lemma {:induction false} CallsAreBackoffRun<R>(ps: seq<Duration>, f: (nat, Duration) -> Attempt<R>, cancel: nat -> bool, i: nat)
    ensures Calls(ps, f, cancel, i) == Steps(ps, i, AsConsumer(f), cancel).trace
    decreases |ps| - i
  {
    if i < |ps| {
      RetriesIsContinues(ps, f, cancel, i);
      if Retries(ps, f, cancel, i) {
        CallsAreBackoffRun(ps, f, cancel, i + 1);
      }
    }
  }

  /**
   * Retry: calls f once per backoff iteration, returning at once when f's
   * error is nil or wraps ErrUnrecoverable, and otherwise letting the
   * backoff go on; when the backoff ends, it returns the values of the last
   * call. `trace` is the backoff run: one entry per call of f, with the
   * wait that followed it. `zero` is R's zero value, which Go's `var t T`
   * starts from.
   */
  method Retry<R>(pauses: seq<Duration>, f: (nat, Duration) -> Attempt<R>, cancel: nat -> bool, zero: R)
    returns (t: R, err: Error, trace: seq<Iteration>)
    ensures trace == Calls(pauses + [SentinelDuration], f, cancel, 0)
    ensures |trace| >= 1
    ensures t == f(trace[|trace| - 1].i, trace[|trace| - 1].shown).result
    ensures err == f(trace[|trace| - 1].i, trace[|trace| - 1].shown).err
  {
    var ps := pauses + [SentinelDuration];
    ghost var whole := Calls(ps, f, cancel, 0);
    t, err := zero, Nil;
    trace := [];
    var i := 0;
    while i < |ps|
      invariant 0 <= i <= |ps| && |trace| == i
      invariant whole == trace + Calls(ps, f, cancel, i)
      invariant i > 0 ==> trace[i - 1].i == i - 1 && trace[i - 1].shown == ps[i - 1]
      invariant i > 0 ==> t == f(i - 1, ps[i - 1]).result && err == f(i - 1, ps[i - 1]).err
    {
      // Backoff hands over (i, &nw).
      var shown := ps[i];
      var nw := shown;
      // Retry's loop body: the call of f, which may write through the handle.
      var a := f(i, nw);
      t, err := a.result, a.err;
      if a.wrote.Some? {
        nw := a.wrote.value;
      }
      // Returning from inside the range loop stops the backoff too; back in
      // Backoff, a negative handle or a cancelled wait ends the loop.
      if IsUnrecoverable(err) || err == Nil || nw < 0 || cancel(i) {
        trace := trace + [Iteration(i, shown, None)];
        return;
      }
      assert Calls(ps, f, cancel, i) == [Iteration(i, shown, Some(nw))] + Calls(ps, f, cancel, i + 1);
      assert whole == (trace + [Iteration(i, shown, Some(nw))]) + Calls(ps, f, cancel, i + 1);
      trace := trace + [Iteration(i, shown, Some(nw))];
      i := i + 1;
    }
  }

  /**
   * The values Retry returns, those of the last entry of its trace, are
   * LastCall: the lemmas below speak of the driver through LastCall.
   */
  lemma LastCallIsLastEntry<R>(pauses: seq<Duration>, f: (nat, Duration) -> Attempt<R>, cancel: nat -> bool)
    ensures var c := Calls(pauses + [SentinelDuration], f, cancel, 0);
      |c| >= 1 && LastCall(pauses, f, cancel) == f(c[|c| - 1].i, c[|c| - 1].shown)
  {
    CallsAreBackoffRun(pauses + [SentinelDuration], f, cancel, 0);
  }

  // ---------------------------------------------------------------------
  // Properties of the driver
  // ---------------------------------------------------------------------

  /**
   * From call i on: at most one call per remaining pause; every call but the
   * last returned a transient error, left a non-negative handle, was not
   * cancelled and was followed by a wait of its handle's value; and the last
   * call is followed by no wait exactly when it did not qualify for a retry
   * (otherwise the pauses ran out).
   */
  lemma {:induction false} EarlierCallsTransient<R>(ps: seq<Duration>, f: (nat, Duration) -> Attempt<R>, cancel: nat -> bool, i: nat)
    requires i <= |ps|
    ensures |Calls(ps, f, cancel, i)| <= |ps| - i
    ensures forall m :: i <= m < i + |Calls(ps, f, cancel, i)| - 1 ==>
      Retries(ps, f, cancel, m)
      && Calls(ps, f, cancel, i)[m - i] == Iteration(m, ps[m], Some(HandleAfter(f(m, ps[m]), ps[m])))
    ensures i < |ps| ==>
      var c := Calls(ps, f, cancel, i);
      var last := i + |c| - 1;
      |c| >= 1 && c[|c| - 1].i == last && c[|c| - 1].shown == ps[last]
      && (c[|c| - 1].waited.None? <==> !Retries(ps, f, cancel, last))
    decreases |ps| - i
  {
    if i < |ps| && Retries(ps, f, cancel, i) {
      EarlierCallsTransient(ps, f, cancel, i + 1);
    } else {
      assert |Calls(ps, f, cancel, i)| <= 1;
    }
  }

  /**
   * The first call after which the driver does not go on is the last: f is
   * called k + 1 times, the first k calls each followed by one wait, and the
   * driver returns the values of call k, whether it stopped for a nil error,
   * an unrecoverable error, a negative handle or a cancelled wait.
   */
  lemma EndsAtFirstStop<R>(pauses: seq<Duration>, f: (nat, Duration) -> Attempt<R>, cancel: nat -> bool, k: nat)
    requires k <= |pauses|
    requires forall m :: 0 <= m < k ==> Retries(pauses + [SentinelDuration], f, cancel, m)
    requires !Retries(pauses + [SentinelDuration], f, cancel, k)
    ensures var ps := pauses + [SentinelDuration];
      var r := Steps(ps, 0, AsConsumer(f), cancel);
      |r.trace| == k + 1
      && (forall m :: 0 <= m < k ==> r.trace[m] == Iteration(m, ps[m], Some(HandleAfter(f(m, ps[m]), ps[m]))))
      && r.trace[k] == Iteration(k, ps[k], None)
      && r.end == (if !Transient(f(k, ps[k]).err) then Declined
                   else if HandleAfter(f(k, ps[k]), ps[k]) < 0 then Negative
                   else Cancelled)
      && LastCall(pauses, f, cancel) == f(k, ps[k])
  {
    var ps := pauses + [SentinelDuration];
    forall m | 0 <= m <= k
      ensures Retries(ps, f, cancel, m) == Continues(ps, AsConsumer(f), cancel, m)
      ensures HandleAt(ps, AsConsumer(f), m) == HandleAfter(f(m, ps[m]), ps[m])
    {
      RetriesIsContinues(ps, f, cancel, m);
    }
    Backoff.EndsAtFirstStop(ps, k, AsConsumer(f), cancel);
  }

  /**
   * Success or an unrecoverable error on call k (0-based) after k transient
   * failures, with plain pauses (non-negative, not overridden, never
   * cancelled): f is called k + 1 times, the waits are the first k pauses
   * in order, and the driver returns call k's result and error: nil on
   * success, that exact error otherwise.
   */
  lemma StopsOnFirstNonTransient<R>(pauses: seq<Duration>, f: (nat, Duration) -> Attempt<R>, cancel: nat -> bool, k: nat)
    requires k <= |pauses|
    requires forall m :: 0 <= m < k ==> pauses[m] >= 0 && !cancel(m)
    requires forall m :: 0 <= m < k ==> Transient(f(m, pauses[m]).err) && f(m, pauses[m]).wrote == None
    requires !Transient(f(k, (pauses + [SentinelDuration])[k]).err)
    ensures var ps := pauses + [SentinelDuration];
      var r := Steps(ps, 0, AsConsumer(f), cancel);
      |r.trace| == k + 1
      && (forall m :: 0 <= m < k ==> r.trace[m].waited == Some(pauses[m]))
      && r.trace[k].waited == None
      && LastCall(pauses, f, cancel) == f(k, ps[k])
      && (f(k, ps[k]).err == Nil || IsUnrecoverable(LastCall(pauses, f, cancel).err))
  {
    var ps := pauses + [SentinelDuration];
    forall m | 0 <= m < k
      ensures ps[m] == pauses[m] && Retries(ps, f, cancel, m)
    {
    }
    EndsAtFirstStop(pauses, f, cancel, k);
  }

  /**
   * f always fails transiently, never touches the handle and is never
   * cancelled, over n non-negative pauses: f is called n + 1 times (the last
   * call sees the sentinel), the waits are the n pauses in order, and the
   * driver returns the error of the last call.
   */
  lemma AlwaysTransient<R>(pauses: seq<Duration>, f: (nat, Duration) -> Attempt<R>, cancel: nat -> bool)
    requires forall m :: 0 <= m < |pauses| ==> pauses[m] >= 0 && !cancel(m)
    requires forall m :: 0 <= m <= |pauses| ==>
      Transient(f(m, (pauses + [SentinelDuration])[m]).err) && f(m, (pauses + [SentinelDuration])[m]).wrote == None
    ensures var r := Steps(pauses + [SentinelDuration], 0, AsConsumer(f), cancel);
      |r.trace| == |pauses| + 1
      && (forall m :: 0 <= m < |pauses| ==> r.trace[m].waited == Some(pauses[m]))
      && r.trace[|pauses|].waited == None
      && LastCall(pauses, f, cancel) == f(|pauses|, SentinelDuration)
  {
    var ps := pauses + [SentinelDuration];
    forall m | 0 <= m < |pauses|
      ensures Retries(ps, f, cancel, m)
    {
      assert ps[m] == pauses[m];
    }
    assert ps[|pauses|] == SentinelDuration;
    assert !Retries(ps, f, cancel, |pauses|);
    EndsAtFirstStop(pauses, f, cancel, |pauses|);
  }

  /**
   * f writes a negative pause into the handle on call k and fails
   * transiently, after k calls that retried: no further call, and the driver
   * returns call k's error.
   */
  lemma NegativeHandleEndsRetry<R>(pauses: seq<Duration>, f: (nat, Duration) -> Attempt<R>, cancel: nat -> bool, k: nat)
    requires k <= |pauses|
    requires forall m :: 0 <= m < k ==> Retries(pauses + [SentinelDuration], f, cancel, m)
    requires Transient(f(k, (pauses + [SentinelDuration])[k]).err)
    requires f(k, (pauses + [SentinelDuration])[k]).wrote.Some?
    requires f(k, (pauses + [SentinelDuration])[k]).wrote.value < 0
    ensures var r := Steps(pauses + [SentinelDuration], 0, AsConsumer(f), cancel);
      |r.trace| == k + 1 && r.end == Negative
      && LastCall(pauses, f, cancel).err == f(k, (pauses + [SentinelDuration])[k]).err
  {
    EndsAtFirstStop(pauses, f, cancel, k);
  }

  /**
   * A wait cut short by cancellation ends the driver with the error of the
   * last call of f, not with an error of the context.
   */
  lemma CancelledReturnsLastError<R>(pauses: seq<Duration>, f: (nat, Duration) -> Attempt<R>, cancel: nat -> bool, k: nat)
    requires k <= |pauses|
    requires forall m :: 0 <= m < k ==> Retries(pauses + [SentinelDuration], f, cancel, m)
    requires Transient(f(k, (pauses + [SentinelDuration])[k]).err)
    requires HandleAfter(f(k, (pauses + [SentinelDuration])[k]), (pauses + [SentinelDuration])[k]) >= 0
    requires cancel(k)
    ensures var r := Steps(pauses + [SentinelDuration], 0, AsConsumer(f), cancel);
      |r.trace| == k + 1 && r.end == Cancelled
      && LastCall(pauses, f, cancel).err == f(k, (pauses + [SentinelDuration])[k]).err
  {
    EndsAtFirstStop(pauses, f, cancel, k);
  }

  /**
   * With a context that is already cancelled, f is still called once, and
   * only once, and the driver returns that call's error.
   */
  lemma PreCancelledCallsOnce<R>(pauses: seq<Duration>, f: (nat, Duration) -> Attempt<R>, cancel: nat -> bool)
    requires cancel(0)
    ensures var r := Steps(pauses + [SentinelDuration], 0, AsConsumer(f), cancel);
      |r.trace| == 1 && r.trace[0].i == 0
      && LastCall(pauses, f, cancel) == f(0, (pauses + [SentinelDuration])[0])
  {
    FirstIterationPrecedesCancellation(pauses, AsConsumer(f), cancel);
  }

  // ---------------------------------------------------------------------
  // The documented examples, over five non-negative pauses
  // ---------------------------------------------------------------------

  /** Fails spuriously on calls 0..2, then returns ErrUnrecoverable wrapped, then succeeds. */
  function Catastrophic(i: nat, d: Duration): Attempt<int>
  {
    if i < 3 then Attempt(-1, Failure("spurious error"), None)
    else if i == 3 then Attempt(-2, Wrapped("catastrophic error", Unrecoverable), None)
    else Attempt(42, Nil, None)
  }

  /**
   * The wrapped sentinel on call 3 ends the driver there: four calls, three
   * waits, and the driver returns -2 with that exact error.
   */
  lemma UnrecoverableExample(pauses: seq<Duration>, cancel: nat -> bool)
    requires |pauses| == 5 && forall m :: 0 <= m < 5 ==> pauses[m] >= 0 && !cancel(m)
    ensures var r := Steps(pauses + [SentinelDuration], 0, AsConsumer(Catastrophic), cancel);
      |r.trace| == 4 && r.end == Declined
      && LastCall(pauses, Catastrophic, cancel) == Attempt(-2, Wrapped("catastrophic error", Unrecoverable), None)
  {
    var ps := pauses + [SentinelDuration];
    forall m | 0 <= m < 3
      ensures Retries(ps, Catastrophic, cancel, m)
    {
      assert ps[m] == pauses[m];
    }
    assert !Retries(ps, Catastrophic, cancel, 3);
    EndsAtFirstStop(pauses, Catastrophic, cancel, 3);
  }

  /** Fails on every call, and on call 3 also writes the sentinel into the handle. */
  function GiveUpAtThree(i: nat, d: Duration): Attempt<()>
  {
    if i == 3 then Attempt((), Failure("some other error"), Some(SentinelDuration))
    else Attempt((), Failure("spurious error"), None)
  }

  /**
   * Writing the sentinel on call 3 ends the driver after that call, which
   * is the fourth, with that call's error.
   */
  lemma SentinelNextWaitExample(pauses: seq<Duration>, cancel: nat -> bool)
    requires |pauses| == 5 && forall m :: 0 <= m < 5 ==> pauses[m] >= 0 && !cancel(m)
    ensures var r := Steps(pauses + [SentinelDuration], 0, AsConsumer(GiveUpAtThree), cancel);
      |r.trace| == 4 && r.end == Negative
      && LastCall(pauses, GiveUpAtThree, cancel).err == Failure("some other error")
  {
    var ps := pauses + [SentinelDuration];
    forall m | 0 <= m < 3
      ensures Retries(ps, GiveUpAtThree, cancel, m)
    {
      assert ps[m] == pauses[m];
    }
    NegativeHandleEndsRetry(pauses, GiveUpAtThree, cancel, 3);
  }
}
