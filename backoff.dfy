/**
 * The backoff iterator (backoff.go).
 *
 * Backoff walks the pause sequence with a sentinel appended, hands the
 * consumer the iteration index and a handle holding the upcoming pause,
 * then reads the handle back: a negative value ends the loop, anything else
 * is waited out unless the context is cancelled first.
 *
 * The consumer is a function of the iteration index and the value the
 * handle showed, returning whether its `yield` returned true and what, if
 * anything, it wrote into the handle. Cancellation is an oracle: `cancel(i)`
 * says whether the context fires before the wait after iteration i ends.
 */
module Backoff {
  import opened Sequence

  /** The pause appended after the last one; any negative pause acts the same. */
  const SentinelDuration: Duration := -1

  datatype Option<T> = None | Some(value: T)

  /** The consumer's answer for one iteration: its `yield` result and its write to the handle, if any. */
  datatype Reply = Reply(proceed: bool, wrote: Option<Duration>)

  /** One iteration: the index handed over, the pause the handle showed, and the wait that then completed. */
  datatype Iteration = Iteration(i: nat, shown: Duration, waited: Option<Duration>)

  /** Why the loop ended. */
  datatype End =
    | Declined   // the consumer's yield returned false
    | Negative   // the handle held a negative pause after the consumer returned
    | Cancelled  // the context fired during a wait
    | Exhausted  // the sentinel itself was waited out (the consumer overwrote it)

  datatype Run = Run(trace: seq<Iteration>, end: End)

  /**
   * appendSentiel: yields every pause of p, then the sentinel once, stopping
   * as soon as the consumer declines.
   */
  function WithSentinel(p: Pauses): Pauses
  {
    if p.Finite? then Finite(p.items + [SentinelDuration]) else p
  }

  method AppendSentinel(p: Pauses, c: Consumer) returns (out: seq<Duration>)
    requires Ends(c, p)
    ensures out == Seen(c, WithSentinel(p))
    ensures p.Finite? && c.Drain? ==> |out| == |p.items| + 1 && out[|p.items|] == SentinelDuration
  {
    out := [];
    var j := 0;
    while Has(p, j)
      invariant HasAtLeast(p, j) && out == Prefix(p, j)
      invariant c.DeclineAt? ==> j <= c.k
      decreases if p.Finite? || c.Drain? then |p.items| - j else c.k - j
    {
      var accepted := Accepts(c, j);
      out := out + [Get(p, j)];
      if !accepted {
        assert out == Prefix(WithSentinel(p), j + 1);
        return;
      }
      j := j + 1;
    }
    out := out + [SentinelDuration];
  }

  /** The handle's value after the consumer of iteration m returned. */
  function HandleAt(ps: seq<Duration>, consumer: (nat, Duration) -> Reply, m: nat): Duration
    requires m < |ps|
  {
    var r := consumer(m, ps[m]);
    if r.wrote.Some? then r.wrote.value else ps[m]
  }

  /** Iteration m is followed by a completed wait and a next iteration. */
  predicate Continues(ps: seq<Duration>, consumer: (nat, Duration) -> Reply, cancel: nat -> bool, m: nat)
    requires m < |ps|
  {
    consumer(m, ps[m]).proceed && HandleAt(ps, consumer, m) >= 0 && !cancel(m)
  }

  /** Why an iteration that does not continue ends the loop. */
  function StopReason(ps: seq<Duration>, consumer: (nat, Duration) -> Reply, m: nat): End
    requires m < |ps|
  {
    if !consumer(m, ps[m]).proceed then Declined
    else if HandleAt(ps, consumer, m) < 0 then Negative
    else Cancelled
  }

  /** The loop from iteration i on, over ps (the pauses with the sentinel appended). */
  function Steps(ps: seq<Duration>, i: nat, consumer: (nat, Duration) -> Reply, cancel: nat -> bool): Run
    decreases |ps| - i
  {
    if i >= |ps| then Run([], Exhausted)
    else if !Continues(ps, consumer, cancel, i) then
      Run([Iteration(i, ps[i], None)], StopReason(ps, consumer, i))
    else
      var rest := Steps(ps, i + 1, consumer, cancel);
      Run([Iteration(i, ps[i], Some(HandleAt(ps, consumer, i)))] + rest.trace, rest.end)
  }

  /**
   * Backoff: runs the loop over `pauses` with the sentinel appended and
   * returns every iteration it went through and why it ended.
   */
  method Backoff(pauses: seq<Duration>, consumer: (nat, Duration) -> Reply, cancel: nat -> bool)
    returns (trace: seq<Iteration>, end: End)
    ensures Run(trace, end) == Steps(pauses + [SentinelDuration], 0, consumer, cancel)
  {
    var ps := pauses + [SentinelDuration];
    ghost var whole := Steps(ps, 0, consumer, cancel);
    trace := [];
    var i := 0;
    while i < |ps|
      invariant 0 <= i <= |ps|
      invariant whole == Run(trace + Steps(ps, i, consumer, cancel).trace, Steps(ps, i, consumer, cancel).end)
    {
      var shown := ps[i];
      var reply := consumer(i, shown);
      var nw := shown;
      if reply.wrote.Some? {
        nw := reply.wrote.value;
      }
      if !reply.proceed {
        trace, end := trace + [Iteration(i, shown, None)], Declined;
        return;
      }
      if nw < 0 {
        trace, end := trace + [Iteration(i, shown, None)], Negative;
        return;
      }
      if cancel(i) {
        trace, end := trace + [Iteration(i, shown, None)], Cancelled;
        return;
      }
      trace := trace + [Iteration(i, shown, Some(nw))];
      i := i + 1;
    }
    end := Exhausted;
  }

  // ---------------------------------------------------------------------
  // Properties of the loop
  // ---------------------------------------------------------------------

  /**
   * The shape of every run from iteration i: iterations are numbered
   * i, i+1, ... without gaps; each handle shows the pause of the sequence at
   * its own index (never an earlier override); every iteration but the last
   * continued and waited exactly its handle's value; and the last one either
   * stopped the loop for StopReason, without a wait, or was the final
   * element and waited too (Exhausted).
   */
  lemma Shape(ps: seq<Duration>, i: nat, consumer: (nat, Duration) -> Reply, cancel: nat -> bool)
    requires i <= |ps|
    ensures |Steps(ps, i, consumer, cancel).trace| <= |ps| - i
    ensures i < |ps| ==> |Steps(ps, i, consumer, cancel).trace| >= 1
    ensures var r := Steps(ps, i, consumer, cancel);
      forall q :: 0 <= q < |r.trace| ==> r.trace[q].i == i + q && r.trace[q].shown == ps[i + q]
    ensures var r := Steps(ps, i, consumer, cancel);
      forall m :: i <= m < i + |r.trace| - 1 ==>
        Continues(ps, consumer, cancel, m) && r.trace[m - i].waited == Some(HandleAt(ps, consumer, m))
    ensures var r := Steps(ps, i, consumer, cancel);
      r.end == Exhausted ==>
        |r.trace| == |ps| - i
        && (|r.trace| > 0 ==>
              Continues(ps, consumer, cancel, |ps| - 1)
              && r.trace[|r.trace| - 1].waited == Some(HandleAt(ps, consumer, |ps| - 1)))
    ensures var r := Steps(ps, i, consumer, cancel);
      r.end != Exhausted ==>
        |r.trace| >= 1
        && !Continues(ps, consumer, cancel, i + |r.trace| - 1)
        && r.end == StopReason(ps, consumer, i + |r.trace| - 1)
        && r.trace[|r.trace| - 1].waited == None
  {
    var r := Steps(ps, i, consumer, cancel);
    RunLength(ps, i, consumer, cancel);
    forall q | 0 <= q < |r.trace|
      ensures r.trace[q].i == i + q && r.trace[q].shown == ps[i + q]
    {
      RunAt(ps, i, consumer, cancel, i + q);
    }
    forall m | i <= m < i + |r.trace| - 1
      ensures Continues(ps, consumer, cancel, m) && r.trace[m - i].waited == Some(HandleAt(ps, consumer, m))
    {
      RunAt(ps, i, consumer, cancel, m);
    }
    RunEnd(ps, i, consumer, cancel);
  }

  /** Shape, first part: at most one iteration per remaining element, and at least one. */
  lemma {:induction false} RunLength(ps: seq<Duration>, i: nat, consumer: (nat, Duration) -> Reply, cancel: nat -> bool)
    requires i <= |ps|
    ensures |Steps(ps, i, consumer, cancel).trace| <= |ps| - i
    ensures i < |ps| ==> |Steps(ps, i, consumer, cancel).trace| >= 1
    decreases |ps| - i
  {
    if i < |ps| && Continues(ps, consumer, cancel, i) {
      RunLength(ps, i + 1, consumer, cancel);
    }
  }

  /**
   * Shape, second part: entry m - i of a run from i is iteration m, showing
   * ps[m]; unless it is the last, it continued and waited its handle's value.
   */
  lemma {:induction false} RunAt(ps: seq<Duration>, i: nat, consumer: (nat, Duration) -> Reply, cancel: nat -> bool, m: nat)
    requires i <= m < i + |Steps(ps, i, consumer, cancel).trace|
    ensures var r := Steps(ps, i, consumer, cancel);
      m < |ps| && r.trace[m - i].i == m && r.trace[m - i].shown == ps[m]
      && (m < i + |r.trace| - 1 ==>
            Continues(ps, consumer, cancel, m) && r.trace[m - i].waited == Some(HandleAt(ps, consumer, m)))
    decreases m - i
  {
    if m > i {
      RunAt(ps, i + 1, consumer, cancel, m);
    }
  }

  /** Shape, third part: how the last iteration ended the run. */
  lemma {:induction false} RunEnd(ps: seq<Duration>, i: nat, consumer: (nat, Duration) -> Reply, cancel: nat -> bool)
    requires i <= |ps|
    ensures var r := Steps(ps, i, consumer, cancel);
      |r.trace| <= |ps| - i
      && (r.end == Exhausted ==>
         |r.trace| == |ps| - i
         && (|r.trace| > 0 ==>
               Continues(ps, consumer, cancel, |ps| - 1)
               && r.trace[|r.trace| - 1].waited == Some(HandleAt(ps, consumer, |ps| - 1))))
      && (r.end != Exhausted ==>
            |r.trace| >= 1
            && !Continues(ps, consumer, cancel, i + |r.trace| - 1)
            && r.end == StopReason(ps, consumer, i + |r.trace| - 1)
            && r.trace[|r.trace| - 1].waited == None)
    decreases |ps| - i
  {
    if i < |ps| && Continues(ps, consumer, cancel, i) {
      RunEnd(ps, i + 1, consumer, cancel);
      var rest := Steps(ps, i + 1, consumer, cancel);
      var r := Steps(ps, i, consumer, cancel);
      if |rest.trace| > 0 {
        assert r.trace[|r.trace| - 1] == rest.trace[|rest.trace| - 1];
      }
    }
  }

  /**
   * A run in which iterations i .. k-1 all continue: those iterations wait
   * their handles' values, and the run then goes on exactly as a run from k.
   */
  lemma {:induction false} ContinuedPrefix(ps: seq<Duration>, i: nat, k: nat, consumer: (nat, Duration) -> Reply, cancel: nat -> bool)
    requires i <= k <= |ps|
    requires forall m :: i <= m < k ==> Continues(ps, consumer, cancel, m)
    ensures var r := Steps(ps, i, consumer, cancel);
      var tail := Steps(ps, k, consumer, cancel);
      |r.trace| == k - i + |tail.trace|
      && r.end == tail.end
      && r.trace[k - i..] == tail.trace
      && (forall m :: i <= m < k ==> r.trace[m - i] == Iteration(m, ps[m], Some(HandleAt(ps, consumer, m))))
    decreases k - i
  {
    if i < k {
      ContinuedPrefix(ps, i + 1, k, consumer, cancel);
      var r := Steps(ps, i, consumer, cancel);
      var rest := Steps(ps, i + 1, consumer, cancel);
      assert r.trace == [Iteration(i, ps[i], Some(HandleAt(ps, consumer, i)))] + rest.trace;
      assert r.trace[k - i..] == rest.trace[k - i - 1..];
    }
  }

  /**
   * The first iteration that does not continue ends the loop, with no wait
   * after it: a consumer whose yield returns false, a negative handle
   * (sentinel, negative pause or override alike) and a cancelled wait all
   * stop the loop at that iteration.
   */
  lemma EndsAtFirstStop(ps: seq<Duration>, k: nat, consumer: (nat, Duration) -> Reply, cancel: nat -> bool)
    requires k < |ps|
    requires forall m :: 0 <= m < k ==> Continues(ps, consumer, cancel, m)
    requires !Continues(ps, consumer, cancel, k)
    ensures var r := Steps(ps, 0, consumer, cancel);
      |r.trace| == k + 1
      && (forall m :: 0 <= m < k ==> r.trace[m] == Iteration(m, ps[m], Some(HandleAt(ps, consumer, m))))
      && r.trace[k] == Iteration(k, ps[k], None)
      && r.end == (if !consumer(k, ps[k]).proceed then Declined
                   else if HandleAt(ps, consumer, k) < 0 then Negative
                   else Cancelled)
  {
    ContinuedPrefix(ps, 0, k, consumer, cancel);
  }

  /**
   * With no cancellation, a consumer that never stops and never writes a
   * negative handle over the n pauses of s, and that leaves the final
   * sentinel alone: n + 1 iterations, handles showing s[0], ..., s[n-1] and
   * then the sentinel, and exactly n waits, each the handle's value. With no
   * overrides at all those waits are s itself.
   */
  lemma FullRun(s: seq<Duration>, consumer: (nat, Duration) -> Reply, cancel: nat -> bool)
    requires forall m :: 0 <= m < |s| ==> Continues(s + [SentinelDuration], consumer, cancel, m)
    requires consumer(|s|, SentinelDuration) == Reply(true, None)
    ensures var ps := s + [SentinelDuration];
      var r := Steps(ps, 0, consumer, cancel);
      |r.trace| == |s| + 1
      && r.end == Negative
      && (forall m :: 0 <= m < |s| ==> r.trace[m] == Iteration(m, s[m], Some(HandleAt(ps, consumer, m))))
      && r.trace[|s|] == Iteration(|s|, SentinelDuration, None)
      && ((forall m :: 0 <= m < |s| ==> consumer(m, s[m]).wrote == None) ==>
            forall m :: 0 <= m < |s| ==> r.trace[m].waited == Some(s[m]))
  {
    var ps := s + [SentinelDuration];
    forall m | 0 <= m < |s|
      ensures Continues(ps, consumer, cancel, m)
    {
    }
    EndsAtFirstStop(ps, |s|, consumer, cancel);
  }

  /**
   * The plain run: non-negative pauses, a consumer that never stops and
   * never overrides, no cancellation. Iterations 0..n, the last showing the
   * sentinel; the waits are s, in order.
   */
  lemma PlainRun(s: seq<Duration>, consumer: (nat, Duration) -> Reply, cancel: nat -> bool)
    requires forall j :: 0 <= j < |s| ==> s[j] >= 0
    requires forall m :: 0 <= m <= |s| ==> consumer(m, (s + [SentinelDuration])[m]) == Reply(true, None)
    requires forall m :: 0 <= m < |s| ==> !cancel(m)
    ensures var r := Steps(s + [SentinelDuration], 0, consumer, cancel);
      |r.trace| == |s| + 1
      && r.end == Negative
      && (forall m :: 0 <= m < |s| ==> r.trace[m] == Iteration(m, s[m], Some(s[m])))
      && r.trace[|s|] == Iteration(|s|, SentinelDuration, None)
  {
    var ps := s + [SentinelDuration];
    forall m | 0 <= m < |s|
      ensures Continues(ps, consumer, cancel, m) && HandleAt(ps, consumer, m) == s[m]
    {
      assert ps[m] == s[m];
    }
    assert ps[|s|] == SentinelDuration;
    FullRun(s, consumer, cancel);
  }

  /**
   * Overwriting the final sentinel with a non-negative pause d: one more
   * wait, of d, and then the loop ends because the sequence is exhausted;
   * there is no further iteration.
   */
  lemma SentinelOverridden(s: seq<Duration>, d: Duration, consumer: (nat, Duration) -> Reply, cancel: nat -> bool)
    requires d >= 0
    requires forall m :: 0 <= m < |s| ==> Continues(s + [SentinelDuration], consumer, cancel, m)
    requires consumer(|s|, SentinelDuration) == Reply(true, Some(d))
    requires !cancel(|s|)
    ensures var r := Steps(s + [SentinelDuration], 0, consumer, cancel);
      |r.trace| == |s| + 1
      && r.end == Exhausted
      && r.trace[|s|] == Iteration(|s|, SentinelDuration, Some(d))
  {
    var ps := s + [SentinelDuration];
    assert ps[|s|] == SentinelDuration;
    ContinuedPrefix(ps, 0, |ps|, consumer, cancel);
  }

  /**
   * The first iteration is always handed to the consumer, whatever the
   * context; with a context that is already cancelled it is the only one.
   */
  lemma FirstIterationPrecedesCancellation(s: seq<Duration>, consumer: (nat, Duration) -> Reply, cancel: nat -> bool)
    ensures var ps := s + [SentinelDuration];
      var r := Steps(ps, 0, consumer, cancel);
      |r.trace| >= 1 && r.trace[0].i == 0 && r.trace[0].shown == ps[0]
      && (cancel(0) ==> |r.trace| == 1 && r.trace[0].waited == None && r.end != Exhausted)
  {
    var ps := s + [SentinelDuration];
    Shape(ps, 0, consumer, cancel);
  }

  /** Proceeds on every iteration and overrides the wait after iteration 3 to 100ms. */
  function OverrideAtThree(i: nat, d: Duration): Reply
  {
    if i == 3 then Reply(true, Some(100_000_000)) else Reply(true, None)
  }

  /**
   * The override example over five non-negative pauses: six iterations; the
   * wait after iteration 3 is the override, while iteration 4's handle shows
   * the fifth pause, not the override; the last iteration shows the sentinel.
   */
  lemma OverrideExample(s: seq<Duration>, cancel: nat -> bool)
    requires |s| == 5 && forall m :: 0 <= m < 5 ==> s[m] >= 0 && !cancel(m)
    ensures var r := Steps(s + [SentinelDuration], 0, OverrideAtThree, cancel);
      |r.trace| == 6 && r.end == Negative
      && r.trace[3] == Iteration(3, s[3], Some(100_000_000))
      && r.trace[4] == Iteration(4, s[4], Some(s[4]))
      && r.trace[5] == Iteration(5, SentinelDuration, None)
  {
    var ps := s + [SentinelDuration];
    forall m | 0 <= m < |s|
      ensures Continues(ps, OverrideAtThree, cancel, m)
    {
      assert ps[m] == s[m];
    }
    assert ps[|s|] == SentinelDuration;
    FullRun(s, OverrideAtThree, cancel);
  }
}
