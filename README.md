# roko: retry with backoff, modelled in Dafny

This project models the core of roko, a Go library that retries an
operation with pauses between attempts. The core has three layers.

- **Pause sequences** (`sequence.dfy`, module `Sequence`). These are the
  push-style generators `Const`, `Exp`, `Jitter`, `IntervalJitter`, `Limit`
  and `Concat`. A generator is a method that returns the pauses it hands to
  its `yield` callback, in order. Two values give its meaning:
  - `Pauses`: everything the generator would produce if nobody stopped it,
    finite (`seq`) or infinite (`nat -> Duration`);
  - `Consumer`: where the callback declines.
  `Seen(c, p)` is what the callback is handed. It is a prefix of `p` that
  includes the declined pause and nothing after it.
- **The backoff iterator** (`backoff.dfy`, module `Backoff`). It appends the
  `-1` sentinel to the pauses. On each step it hands the consumer the
  iteration index and a handle holding the upcoming pause. It then reads
  the handle back: a negative value stops the loop, and anything else is
  waited out unless the context is cancelled first. The method `Backoff`
  returns the run as a trace of iterations (index, shown pause, completed
  wait) and the reason it ended. It is proved equal to the recursive
  specification `Steps`. The consumer is a function from (index, shown
  pause) to (yield result, optional write to the handle). Cancellation is
  an oracle indexed by the wait.
- **The retry driver** (`retry.dfy`, module `Retry`). One generic method
  `Retry<R>` stands for `Retry0` to `Retry3`, with R the tuple of `f`'s
  other results. It calls `f` once per backoff iteration. It returns at
  once on a nil error or on an error whose wrap chain holds
  `ErrUnrecoverable`, and otherwise lets the backoff go on. When the
  backoff ends it returns the last call's values. `Error` is a datatype
  with a wrap chain, and `IsUnrecoverable` stands for
  `errors.Is(err, ErrUnrecoverable)`.

Where the comments and the code disagree, the model follows the code:

- `Jitter` draws from `[0, d)`, not `[0, d]`, because `rand.N` excludes its bound.
- `IntervalJitter` draws `d + lo + r` with `r` in `[0, hi - lo)`, and needs `lo < hi` (`rand.N(0)` panics).

When cancellation ends the backoff, the retry driver returns the error of
`f`'s last call; it never returns an error of the context itself.

## Model

| member | source | states |
|---|---|---|
| Sequence.Const | sequence.go:23-27 | Every pause yielded is `d`. It yields exactly `k + 1` pauses, up to and including the one the consumer declines, so only the consumer ends it. |
| Sequence.Exp | sequence.go:13-20 | The first pause is `initial` and each later pause is the step of the previous one. It yields exactly the pauses the consumer is handed of the sequence `initial, step(initial), ...`. |
| Sequence.RandN | sequence.go:36 | `rand.N(n)` lies in `[0, n)`. |
| Sequence.Jitter | sequence.go:33-41 | One output per pulled input, no more than the consumer takes. Output `j` is the `j`-th draw reduced into `[0, d_j)`. Every input pulled must be positive. |
| Sequence.IntervalJitter | sequence.go:47-56 | One output per pulled input. Output `j` is `max(d_j + lo + r_j, 0)` with `r_j` in `[0, hi - lo)`. Every output is non-negative, and a positive one lies in `[d_j + lo, d_j + hi)`. |
| Sequence.TakeOfTake | sequence.go:76-88 | Limiting to `m` and then to `n` is limiting to `min(n, m)`. |
| Sequence.Limit | sequence.go:76-88 | With a counter local to the run, it yields exactly the first `min(n, |p|)` pauses of `p` in order: none when `n <= 0`, cut short where the consumer declines. |
| Sequence.SharedLimit.Range | sequence.go:76-88 | As written, with the counter captured by the returned sequence: a range yields the first `min(n', |p|)` pauses, where `n'` is the count left by earlier ranges. The count drops by the number yielded. |
| Sequence.SharedLimitSecondRangeIsEmpty | sequence.go:76-88 | After a range that drains `n > 0` pauses, a second range over the same limited sequence yields nothing. |
| Sequence.SharedLimitTwice | sequence.go:76-88 | Ranging twice over one limited sequence of `n > 0` pauses, where the upstream has at least `n`: the first range yields its first `n` pauses and the second yields nothing. |
| Sequence.SharedLimitReused | sequence.go:76-88 | Ranging twice over `Limit(2, Const(1s))` gives `[1s, 1s]` and then `[]`. |
| Sequence.ConcatOfFinite | sequence.go:92-102 | Concat of finite inputs is their concatenation in order, and empty for no inputs. |
| Sequence.ConcatGet | sequence.go:92-102 | Pause `j` of input `idx` appears in Concat right after every pause of the earlier inputs. An infinite input makes Concat infinite. |
| Sequence.ConcatPrefix | sequence.go:92-102 | Up to pause `j` of input `idx`, Concat produces every pause of the earlier inputs in order and then the first `j` pauses of input `idx`. |
| Sequence.Concat | sequence.go:92-102 | It yields exactly what the consumer is handed of the concatenation of the inputs, and nothing after a declined pause. |
| Backoff.AppendSentinel | backoff.go:44-53 | It yields the pauses and then `SentinelDuration` once, cut short where the consumer declines. Drained over `n` finite pauses, that is `n + 1` values ending in `-1`. |
| Backoff.Backoff | backoff.go:20-39 | The trace and end reason are exactly `Steps` over the pauses with the sentinel appended. |
| Backoff.Shape | backoff.go:20-39 | Indices run `i, i+1, ...` with no gaps. Each handle shows the pause at its own index and never an earlier override. Every iteration but the last continued and waited its handle's value. The last either stopped without a wait for `StopReason`, or was the final element and waited too. |
| Backoff.RunLength | backoff.go:20-39 | A run from index `i` has at most one iteration per remaining element, and at least one when any element remains. |
| Backoff.RunAt | backoff.go:20-39 | Entry `m - i` of a run from `i` is iteration `m` and shows `ps[m]`. Unless it is the last entry, it continued and waited its handle's value. |
| Backoff.RunEnd | backoff.go:20-39 | A run ends `Exhausted` only after using every element, the last of which continued and waited. Any other end reason is `StopReason` of the last iteration, which did not continue and has no wait. |
| Backoff.ContinuedPrefix | backoff.go:22-37 | If iterations `i..k-1` continue, each waits its handle's value, and the run then proceeds exactly as a run from `k`. |
| Backoff.EndsAtFirstStop | backoff.go:24-33 | The first iteration that does not continue is the last and has no wait. The end reason is `Declined` (yield returned false), `Negative` (negative handle, whether sentinel, pause or override) or `Cancelled`. |
| Backoff.FullRun | backoff.go:20-53 | If all `n` pauses continue and the sentinel is left alone, the run has `n + 1` iterations, shows `s[0..n-1]` and then `-1`, and has exactly `n` waits of the handles' values. Without overrides, those waits are `s`. |
| Backoff.PlainRun | backoff.go:20-53 | Non-negative pauses, no overrides and no cancellation: `n + 1` iterations, waits `s` in order, the last showing the sentinel and ending the loop. |
| Backoff.SentinelOverridden | backoff.go:23-37 | Overwriting the sentinel with `d >= 0` adds one wait of `d` and no further iteration. The loop ends because the sequence is exhausted. |
| Backoff.FirstIterationPrecedesCancellation | backoff.go:23-33 | The first iteration is always handed over. With a context already cancelled it is the only one, and it has no wait. |
| Backoff.OverrideExample | example_backoff_test.go:34-53 | An override after iteration 3 changes only that wait. Iteration 4 still shows the fifth pause, and the last iteration shows `-1`. |
| Retry.UnrecoverableIffOnChain | retry.go:10-30 | `IsUnrecoverable(e)` holds exactly when `ErrUnrecoverable` is on `e`'s wrap chain. |
| Retry.RetriesIsContinues | retry.go:26-34 | A call is retried exactly when, as a backoff consumer, it continues: transient error, non-negative handle, not cancelled. |
| Retry.CallsAreBackoffRun | retry.go:24-37 | The driver's calls, read off its own retry rule, are exactly the backoff run with `f`'s outcomes as the replies. |
| Retry.Retry | retry.go:24-59 | The trace is exactly `Calls` (the backoff run), with at least one call. The returned result and error are those of the last call, so the error is nil or exactly one `f` returned. |
| Retry.LastCallIsLastEntry | retry.go:36 | The trace `Retry` ensures is never empty, and `LastCall` is the call of its last entry, whose result and error `Retry` returns. This links the method to the driver lemmas below, which speak through `LastCall`. |
| Retry.EarlierCallsTransient | retry.go:26-34 | At most one call per pause plus the sentinel. Every call but the last had a transient error, a non-negative handle and no cancellation, and was followed by a wait of its handle's value. The last has no wait exactly when it did not qualify for a retry. |
| Retry.EndsAtFirstStop | retry.go:24-37 | The first call that does not qualify for a retry is the last: `k + 1` calls, `k` waits, the values of call `k`, and the end reason. |
| Retry.StopsOnFirstNonTransient | retry.go:26-34 | On plain pauses, a nil or unrecoverable error on call `k` after `k` transient failures gives `k + 1` calls and waits `pauses[0..k-1]`. The driver returns exactly call `k`'s values. |
| Retry.AlwaysTransient | retry.go:24-37 | With `n` plain pauses and a transient error every time, `f` is called `n + 1` times, the last seeing the sentinel, and the last call's values are returned. |
| Retry.NegativeHandleEndsRetry | retry.go:24-37 | A negative write to the handle with a transient error on call `k` ends the driver there, with call `k`'s error. |
| Retry.CancelledReturnsLastError | retry.go:36 | Cancellation during wait `k` ends the driver with call `k`'s error, not a context error. |
| Retry.PreCancelledCallsOnce | retry.go:24-37 | With the context already cancelled, `f` is called exactly once and its values are returned. |
| Retry.UnrecoverableExample | example_retry_test.go:42-58 | Three spurious failures, then a wrapped `ErrUnrecoverable`: four calls, and the driver returns `-2` with that exact error. |
| Retry.SentinelNextWaitExample | example_retry_test.go:60-81 | Writing the sentinel on call 3 ends the driver after the fourth call, with that call's error. |

## Left out

- Real time: a wait is the `waited` entry of a trace; `time.After` and sleeping are not modelled.
- `context.Context`: cancellation is the oracle `cancel(i)`, one answer per wait. The `select` race between a zero timer and a done context is left to it.
- Randomness: each `rand.N` draw is `u % n` for an arbitrary draw `u` (`rng(j)`). The distribution is not modelled.
- Floating point: `Exp`'s step `time.Duration(float64(cur) * factor)` is the abstract function `step`. `FactorJitter` is not modelled, since it is entirely float arithmetic.
- Sequence.IntervalJitter: does not model int64 wrap-around of `d + lo + r`, nor of `hi - lo`, which wraps when `lo` is very negative, because `Duration` is an unbounded integer here. No other operation adds or subtracts durations.
- Sequence.Const: requires a consumer that declines, because a drained `Const` never returns.
- Sequence.Exp: requires a consumer that declines, for the same reason.
- Sequence.Limit: the extra upstream pull once the counter is spent (`sequence.go:78-81`) is not modelled; only the yielded pauses are. That pull is observable through a stateful upstream: drained, `Limit(1, Jitter(Exp(1ms, 0)))` makes `Jitter` draw `rand.N(0)` on the second pull and panic, although only one pause is ever yielded.
- Backoff.Backoff: takes a finite pause sequence. An infinite one is drawn lazily by the source and is not modelled. `AppendSentinel` covers infinite inputs.
- Retry.Retry: takes a finite pause sequence, like `Backoff.Backoff`, so retrying forever over an infinite strategy such as `Const` is not modelled.
- Retry.Retry: `zero` stands for Go's zero value of R. It is never returned, because at least one call always happens.
- `errors.Is` is modelled only through `%w` wrapping chains. `errors.Join` trees, custom `Is` methods and error message text are not modelled.
- The legacy `Retrier`, `Manual`, `String`, `WithJitter` and `jitterInterval`: their implementation is not part of this model.
- Concurrency: data races on the shared `Limit` counter when the same sequence is ranged from two goroutines are not modelled.

## Findings

| source | as written | input that shows it | evidently intended | confidence | as-written member | corrected member |
|---|---|---|---|---|---|---|
| sequence.go:76-88 | `Limit` decrements its parameter `n`, which the returned sequence captures, so every range over the same sequence shares one counter | ranging twice over `Limit(2, Const(1s))` (for instance two `Retry0` calls with one sequence) yields `1s, 1s` and then nothing | each range yields the first `n` items, as the doc comment says; `Exp` copies `initial` into a local `cur` for this reason | medium; not executed | Sequence.SharedLimitReused | Sequence.Limit |
