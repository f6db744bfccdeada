/**
 * Pause sequences (sequence.go).
 *
 * A pause sequence in the library is a push-style generator: it calls a
 * `yield` callback once per pause and stops as soon as `yield` returns false
 * or it runs out of pauses. Here a generator is a method that returns the
 * pauses it passed to `yield`, in order, and its meaning is given by two
 * values: `Pauses`, everything the generator would produce if nobody stopped
 * it, and `Consumer`, the point at which the callback declines.
 */
module Sequence {

  /** A pause in nanoseconds (Go's time.Duration). */
  type Duration = int

  /** The complete output of a generator: finitely many pauses, or one for every index. */
  datatype Pauses = Finite(items: seq<Duration>) | Infinite(at: nat -> Duration)

  /** Whether p produces a pause at index j. */
  predicate Has(p: Pauses, j: nat)
  {
    p.Infinite? || j < |p.items|
  }

  /** Whether p produces at least m pauses. */
  predicate HasAtLeast(p: Pauses, m: nat)
  {
    p.Infinite? || m <= |p.items|
  }

  function Get(p: Pauses, j: nat): Duration
    requires Has(p, j)
  {
    if p.Finite? then p.items[j] else p.at(j)
  }

  /** The first m pauses of p. */
  function Prefix(p: Pauses, m: nat): (r: seq<Duration>)
    requires HasAtLeast(p, m)
    ensures |r| == m
    ensures forall j :: 0 <= j < m ==> r[j] == Get(p, j)
  {
    if p.Finite? then p.items[..m] else seq(m, j requires 0 <= j => p.at(j))
  }

  /** One more pause extends the prefix by that pause. */
  lemma PrefixSnoc(p: Pauses, m: nat)
    requires HasAtLeast(p, m + 1)
    ensures Prefix(p, m + 1) == Prefix(p, m) + [Get(p, m)]
  {
    assert Prefix(p, m + 1)[..m] == Prefix(p, m);
  }

  /**
   * The `yield` callback, as far as a generator can observe it: it either
   * accepts every pause (Drain), or accepts the first k pauses and returns
   * false when handed the pause at index k (DeclineAt(k)).
   */
  datatype Consumer = Drain | DeclineAt(k: nat)

  /** What the callback returns for the j-th pause it is handed. */
  predicate Accepts(c: Consumer, j: nat)
  {
    c.Drain? || j < c.k
  }

  /** A generator of p under consumer c stops: p ends or c declines. */
  predicate Ends(c: Consumer, p: Pauses)
  {
    p.Finite? || c.DeclineAt?
  }

  /** How many pauses c is handed by a generator whose complete output is p. */
  function Budget(c: Consumer, p: Pauses): nat
    requires Ends(c, p)
  {
    match c
    case Drain => |p.items|
    case DeclineAt(k) => if p.Finite? && |p.items| <= k then |p.items| else k + 1
  }

  /** The pauses c is handed, in order: the declined one is handed too, nothing after it. */
  function Seen(c: Consumer, p: Pauses): seq<Duration>
    requires Ends(c, p)
  {
    Prefix(p, Budget(c, p))
  }

  // ---------------------------------------------------------------------
  // Generators
  // ---------------------------------------------------------------------

  /** Const(d): d for ever. */
  function ConstSeq(d: Duration): Pauses
  {
    Infinite(j => d)
  }

  /** step applied j times to x. */
  function Iterate(step: Duration -> Duration, x: Duration, j: nat): Duration
  {
    if j == 0 then x else step(Iterate(step, x, j - 1))
  }

  /** Exp(initial, factor): initial, then each pause the step of the previous one. */
  function ExpSeq(initial: Duration, step: Duration -> Duration): Pauses
  {
    Infinite((j: nat) => Iterate(step, initial, j))
  }

  /**
   * Const: yields `d` on every pull. It never ends by itself, so only a
   * consumer that declines stops it.
   */
  method Const(d: Duration, c: Consumer) returns (out: seq<Duration>)
    requires c.DeclineAt?
    ensures |out| == c.k + 1
    ensures forall j :: 0 <= j < |out| ==> out[j] == d
    ensures out == Seen(c, ConstSeq(d))
  {
    out := [];
    while true
      invariant |out| <= c.k
      invariant forall j :: 0 <= j < |out| ==> out[j] == d
      decreases c.k - |out|
    {
      var accepted := Accepts(c, |out|);
      out := out + [d];
      if !accepted {
        return;
      }
    }
  }

  /**
   * Exp: yields `initial` first and derives each later pause from the
   * previous one alone. The source's step is `time.Duration(float64(cur) *
   * factor)`; here it is the parameter `step`.
   */
  method Exp(initial: Duration, step: Duration -> Duration, c: Consumer) returns (out: seq<Duration>)
    requires c.DeclineAt?
    ensures |out| == c.k + 1
    ensures out[0] == initial
    ensures forall j :: 0 < j < |out| ==> out[j] == step(out[j - 1])
    ensures out == Seen(c, ExpSeq(initial, step))
  {
    var cur := initial;
    out := [];
    while true
      invariant |out| <= c.k
      invariant cur == Iterate(step, initial, |out|)
      invariant forall j :: 0 <= j < |out| ==> out[j] == Iterate(step, initial, j)
      decreases c.k - |out|
    {
      var accepted := Accepts(c, |out|);
      out := out + [cur];
      if !accepted {
        return;
      }
      cur := step(cur);
    }
  }

  // ---------------------------------------------------------------------
  // Jitter
  // ---------------------------------------------------------------------

  /**
   * rand.N(n): a value in [0, n); `u` is the raw random draw. rand.N panics
   * when n <= 0, hence the precondition.
   */
  function RandN(u: nat, n: Duration): (r: Duration)
    requires n > 0
    ensures 0 <= r < n
  {
    u % n
  }

  function Max(a: Duration, b: Duration): Duration
  {
    if a < b then b else a
  }

  /**
   * Jitter: replaces each pause d by a random value in [0, d), one output
   * per input, stopping when the input ends or the consumer declines.
   * `rng(j)` is the j-th random draw. Every pause it pulls must be positive,
   * or rand.N panics.
   */
  method Jitter(p: Pauses, rng: nat -> nat, c: Consumer) returns (out: seq<Duration>)
    requires Ends(c, p)
    requires forall j :: 0 <= j < Budget(c, p) ==> Get(p, j) > 0
    ensures |out| == Budget(c, p)
    ensures forall j :: 0 <= j < |out| ==> out[j] == RandN(rng(j), Get(p, j))
    ensures forall j :: 0 <= j < |out| ==> 0 <= out[j] < Get(p, j)
  {
    out := [];
    var j := 0;
    while Has(p, j)
      invariant j == |out| <= Budget(c, p)
      invariant c.DeclineAt? ==> j <= c.k
      invariant forall m :: 0 <= m < j ==> out[m] == RandN(rng(m), Get(p, m))
      decreases Budget(c, p) - j
    {
      var accepted := Accepts(c, j);
      out := out + [RandN(rng(j), Get(p, j))];
      if !accepted {
        return;
      }
      j := j + 1;
    }
  }

  /**
   * IntervalJitter: replaces each pause d by d + lo + r with r drawn from
   * [0, hi - lo), clamped up to 0. rand.N(hi - lo) panics unless lo < hi,
   * which matters only once a pause is pulled.
   */
  method IntervalJitter(lo: Duration, hi: Duration, p: Pauses, rng: nat -> nat, c: Consumer)
    returns (out: seq<Duration>)
    requires Ends(c, p)
    requires Budget(c, p) > 0 ==> lo < hi
    ensures |out| == Budget(c, p)
    ensures forall j :: 0 <= j < |out| ==> out[j] == Max(Get(p, j) + lo + RandN(rng(j), hi - lo), 0)
    ensures forall j :: 0 <= j < |out| ==> 0 <= out[j]
    ensures forall j :: 0 <= j < |out| && out[j] > 0 ==> Get(p, j) + lo <= out[j] < Get(p, j) + hi
  {
    out := [];
    var j := 0;
    while Has(p, j)
      invariant j == |out| <= Budget(c, p)
      invariant c.DeclineAt? ==> j <= c.k
      invariant forall m :: 0 <= m < j ==> out[m] == Max(Get(p, m) + lo + RandN(rng(m), hi - lo), 0)
      decreases Budget(c, p) - j
    {
      var nw := Get(p, j);
      nw := nw + lo + RandN(rng(j), hi - lo);
      var accepted := Accepts(c, j);
      out := out + [Max(nw, 0)];
      if !accepted {
        return;
      }
      j := j + 1;
    }
  }

  // ---------------------------------------------------------------------
  // Limit
  // ---------------------------------------------------------------------

  /** How many pauses Limit(n, p) lets through: min(n, |p|), and none when n <= 0. */
  function LimitCount(n: int, p: Pauses): nat
  {
    if n <= 0 then 0 else if p.Finite? && |p.items| < n then |p.items| else n
  }

  /** Limit(n, p): the first LimitCount(n, p) pauses of p. */
  function Take(n: int, p: Pauses): Pauses
  {
    Finite(Prefix(p, LimitCount(n, p)))
  }

  lemma {:induction false} TakeOfTake(n: int, m: int, p: Pauses)
    ensures Take(n, Take(m, p)) == Take(if n < m then n else m, p)
  {
    var inner := Take(m, p);
    var l := if n < m then n else m;
    assert LimitCount(n, inner) == LimitCount(l, p);
    var a, b := Take(n, inner).items, Take(l, p).items;
    assert |a| == |b|;
    forall j | 0 <= j < |a|
      ensures a[j] == b[j]
    {
      assert a[j] == Get(inner, j) == Get(p, j);
    }
  }

  /**
   * Limit, with its counter local to each run: the pauses it yields are
   * the first min(n, |p|) of p, cut short where the consumer declines. Once
   * the counter is spent it still pulls one more pause from p before it
   * stops.
   */
  method Limit(n: int, p: Pauses, c: Consumer) returns (out: seq<Duration>)
    ensures out == Seen(c, Take(n, p))
  {
    var left := n;
    out := [];
    var j := 0;
    while Has(p, j)
      invariant HasAtLeast(p, j) && out == Prefix(p, j)
      invariant n <= 0 ==> j == 0 && left == n
      invariant n > 0 ==> j <= n && left == n - j
      invariant c.DeclineAt? ==> j <= c.k
      decreases if p.Finite? then |p.items| - j else left
    {
      var nw := Get(p, j);
      if left <= 0 {
        assert LimitCount(n, p) == j;
        return;
      }
      left := left - 1;
      var accepted := Accepts(c, j);
      out := out + [nw];
      if !accepted {
        assert Prefix(Take(n, p), j + 1) == out;
        return;
      }
      j := j + 1;
    }
  }

  /**
   * Limit as the source writes it: the returned sequence decrements the
   * count it was created with, so the count is shared by every range over
   * that sequence.
   */
  class SharedLimit {
    var n: int
    const upstream: Pauses

    constructor (n: int, upstream: Pauses)
      ensures this.n == n && this.upstream == upstream
    {
      this.n := n;
      this.upstream := upstream;
    }

    /** One range over the sequence: as Limit with the count left by earlier ranges. */
    method Range(c: Consumer) returns (out: seq<Duration>)
      modifies this
      ensures out == Seen(c, Take(old(n), upstream))
      ensures n == old(n) - |out|
    {
      out := [];
      var j := 0;
      while Has(upstream, j)
        invariant HasAtLeast(upstream, j) && out == Prefix(upstream, j)
        invariant old(n) <= 0 ==> j == 0 && n == old(n)
        invariant old(n) > 0 ==> j <= old(n) && n == old(n) - j
        invariant c.DeclineAt? ==> j <= c.k
        decreases if upstream.Finite? then |upstream.items| - j else n
      {
        var nw := Get(upstream, j);
        if n <= 0 {
          assert LimitCount(old(n), upstream) == j;
          return;
        }
        n := n - 1;
        var accepted := Accepts(c, j);
        out := out + [nw];
        if !accepted {
          assert Prefix(Take(old(n), upstream), j + 1) == out;
          return;
        }
        j := j + 1;
      }
    }
  }

  /**
   * Ranging twice over one SharedLimit: when p has at least n pauses, the
   * first range drains all n and the second yields nothing, although both
   * range over "the first n items" of p.
   */
  lemma SharedLimitSecondRangeIsEmpty(n: int, p: Pauses)
    requires n > 0 && HasAtLeast(p, n)
    ensures |Seen(Drain, Take(n, p))| == n
    ensures Seen(Drain, Take(n - |Seen(Drain, Take(n, p))|, p)) == []
    ensures Seen(Drain, Take(n, p)) != Seen(Drain, Take(n - |Seen(Drain, Take(n, p))|, p))
  {
  }

  /**
   * Ranging twice over one SharedLimit built on p with n > 0, when p has at
   * least n pauses: the first range yields n pauses, the second none.
   */
  method SharedLimitTwice(n: int, p: Pauses) returns (first: seq<Duration>, again: seq<Duration>)
    requires n > 0 && HasAtLeast(p, n)
    ensures first == Prefix(p, n)
    ensures again == []
  {
    var lim := new SharedLimit(n, p);
    first := lim.Range(Drain);
    again := lim.Range(Drain);
  }

  /**
   * A client of SharedLimit: ranging twice over Limit(2, Const(1s)), the
   * first range yields two pauses of one second and the second yields none.
   */
  method SharedLimitReused() returns (first: seq<Duration>, again: seq<Duration>)
    ensures first == [1_000_000_000, 1_000_000_000]
    ensures again == []
  {
    var second := 1_000_000_000;
    var lim := new SharedLimit(2, ConstSeq(second));
    first := lim.Range(Drain);
    again := lim.Range(Drain);
  }

  // ---------------------------------------------------------------------
  // Concat
  // ---------------------------------------------------------------------

  predicate AllFinite(ps: seq<Pauses>)
  {
    forall m :: 0 <= m < |ps| ==> ps[m].Finite?
  }

  /** The pauses of finitely many finite sequences, one after the other. */
  function Flatten(ps: seq<Pauses>): seq<Duration>
    requires AllFinite(ps)
  {
    if ps == [] then [] else ps[0].items + Flatten(ps[1..])
  }

  /** s followed by p. */
  function Prepend(s: seq<Duration>, p: Pauses): Pauses
  {
    match p
    case Finite(t) => Finite(s + t)
    case Infinite(f) => Infinite((j: nat) => if j < |s| then s[j] else f(j - |s|))
  }

  /** Concat(ps...): every pause of ps[0], then of ps[1], ...; an infinite input hides the rest. */
  function ConcatSeq(ps: seq<Pauses>): Pauses
  {
    if ps == [] then Finite([])
    else if ps[0].Infinite? then ps[0]
    else Prepend(ps[0].items, ConcatSeq(ps[1..]))
  }

  lemma PrependGet(s: seq<Duration>, p: Pauses, j: nat)
    requires j < |s| || Has(p, j - |s|)
    ensures Has(Prepend(s, p), j)
    ensures Get(Prepend(s, p), j) == if j < |s| then s[j] else Get(p, j - |s|)
  {
  }

  /** The first m pauses of s followed by p. */
  lemma PrefixPrepend(s: seq<Duration>, p: Pauses, m: nat)
    requires m <= |s| || HasAtLeast(p, m - |s|)
    ensures HasAtLeast(Prepend(s, p), m)
    ensures m <= |s| ==> Prefix(Prepend(s, p), m) == s[..m]
    ensures m >= |s| ==> Prefix(Prepend(s, p), m) == s + Prefix(p, m - |s|)
  {
    var r := Prefix(Prepend(s, p), m);
    forall j | 0 <= j < m
      ensures r[j] == if j < |s| then s[j] else Get(p, j - |s|)
    {
      PrependGet(s, p, j);
    }
  }

  /** Concat of finite inputs is their concatenation; of no inputs, empty. */
  lemma {:induction false} ConcatOfFinite(ps: seq<Pauses>)
    requires AllFinite(ps)
    ensures ConcatSeq(ps) == Finite(Flatten(ps))
    decreases |ps|
  {
    if ps != [] {
      ConcatOfFinite(ps[1..]);
    }
  }

  /**
   * The j-th pause of input idx appears in Concat right after every pause of
   * the (finite) inputs before it; an infinite input makes Concat infinite.
   */
  lemma {:induction false} ConcatGet(ps: seq<Pauses>, idx: nat, j: nat)
    requires idx < |ps| && AllFinite(ps[..idx]) && Has(ps[idx], j)
    ensures Has(ConcatSeq(ps), |Flatten(ps[..idx])| + j)
    ensures Get(ConcatSeq(ps), |Flatten(ps[..idx])| + j) == Get(ps[idx], j)
    ensures ps[idx].Infinite? ==> ConcatSeq(ps).Infinite?
    decreases idx
  {
    if idx == 0 {
      assert Flatten(ps[..idx]) == [];
      if ps[0].Finite? {
        PrependGet(ps[0].items, ConcatSeq(ps[1..]), j);
      }
    } else {
      var rest := ps[1..];
      assert rest[..idx - 1] == ps[1..idx] == ps[..idx][1..];
      assert rest[idx - 1] == ps[idx];
      ConcatGet(rest, idx - 1, j);
      var before := Flatten(rest[..idx - 1]);
      assert Flatten(ps[..idx]) == ps[0].items + before;
      PrependGet(ps[0].items, ConcatSeq(rest), |ps[0].items| + |before| + j);
    }
  }

  /**
   * The pauses of Concat up to pause j of input idx: every pause of the
   * inputs before idx, then the first j of input idx.
   */
  lemma {:induction false} ConcatPrefix(ps: seq<Pauses>, idx: nat, j: nat)
    requires idx < |ps| && AllFinite(ps[..idx]) && HasAtLeast(ps[idx], j)
    ensures HasAtLeast(ConcatSeq(ps), |Flatten(ps[..idx])| + j)
    ensures Prefix(ConcatSeq(ps), |Flatten(ps[..idx])| + j) == Flatten(ps[..idx]) + Prefix(ps[idx], j)
    decreases idx
  {
    if idx == 0 {
      assert Flatten(ps[..idx]) == [];
      if ps[0].Finite? {
        PrefixPrepend(ps[0].items, ConcatSeq(ps[1..]), j);
      }
    } else {
      var rest := ps[1..];
      assert rest[..idx - 1] == ps[1..idx] == ps[..idx][1..];
      assert rest[idx - 1] == ps[idx];
      ConcatPrefix(rest, idx - 1, j);
      ConcatPrefixStep(ps, idx, j);
    }
  }

  /** ConcatPrefix for inputs idx > 0, from the same fact about the inputs after the first. */
  lemma ConcatPrefixStep(ps: seq<Pauses>, idx: nat, j: nat)
    requires 0 < idx < |ps| && AllFinite(ps[..idx]) && HasAtLeast(ps[idx], j)
    requires HasAtLeast(ConcatSeq(ps[1..]), |Flatten(ps[1..idx])| + j)
    requires Prefix(ConcatSeq(ps[1..]), |Flatten(ps[1..idx])| + j) == Flatten(ps[1..idx]) + Prefix(ps[idx], j)
    ensures HasAtLeast(ConcatSeq(ps), |Flatten(ps[..idx])| + j)
    ensures Prefix(ConcatSeq(ps), |Flatten(ps[..idx])| + j) == Flatten(ps[..idx]) + Prefix(ps[idx], j)
  {
    var head, before := ps[0].items, Flatten(ps[1..idx]);
    assert Flatten(ps[..idx]) == head + before by {
      assert ps[..idx][1..] == ps[1..idx];
    }
    assert ConcatSeq(ps) == Prepend(head, ConcatSeq(ps[1..]));
    PrefixPrependThen(head, ConcatSeq(ps[1..]), before, Prefix(ps[idx], j));
  }

  /** If p starts with before + tail, then s followed by p starts with (s + before) + tail. */
  lemma PrefixPrependThen(s: seq<Duration>, p: Pauses, before: seq<Duration>, tail: seq<Duration>)
    requires HasAtLeast(p, |before| + |tail|) && Prefix(p, |before| + |tail|) == before + tail
    ensures HasAtLeast(Prepend(s, p), |s + before| + |tail|)
    ensures Prefix(Prepend(s, p), |s + before| + |tail|) == (s + before) + tail
  {
    PrefixPrepend(s, p, |s| + |before| + |tail|);
    assert s + (before + tail) == (s + before) + tail;
  }

  /**
   * Concat: yields every pause of each input in turn, and stops for good
   * the moment the consumer declines.
   */
  method Concat(ps: seq<Pauses>, c: Consumer) returns (out: seq<Duration>)
    requires Ends(c, ConcatSeq(ps))
    ensures out == Seen(c, ConcatSeq(ps))
  {
    out := [];
    var idx := 0;
    while idx < |ps|
      invariant 0 <= idx <= |ps|
      invariant AllFinite(ps[..idx])
      invariant out == Flatten(ps[..idx])
      invariant c.DeclineAt? ==> |out| <= c.k
    {
      var s := ps[idx];
      if s.Infinite? {
        ConcatGet(ps, idx, 0);
      }
      ghost var before := out;
      var j := 0;
      while Has(s, j)
        invariant s.Finite? ==> j <= |s.items|
        invariant s.Infinite? ==> c.DeclineAt?
        invariant out == before + Prefix(s, j)
        invariant c.DeclineAt? ==> |out| <= c.k
        decreases if s.Finite? || c.Drain? then |s.items| - j else c.k - |out|
      {
        PrefixSnoc(s, j);
        assert before + Prefix(s, j + 1) == out + [Get(s, j)];
        var accepted := Accepts(c, |out|);
        out := out + [Get(s, j)];
        if !accepted {
          ConcatPrefix(ps, idx, j + 1);
          SeenAtDecline(c, ConcatSeq(ps), out);
          return;
        }
        j := j + 1;
      }
      assert ps[..idx + 1] == ps[..idx] + [s];
      assert AllFinite(ps[..idx + 1]);
      FlattenSnoc(ps[..idx], s);
      assert s.items == Prefix(s, j);
      idx := idx + 1;
    }
    assert ps[..idx] == ps;
    ConcatOfFinite(ps);
    SeenAll(c, out);
  }

  /** A consumer that declines pause k is handed the first k + 1 pauses. */
  lemma SeenAtDecline(c: Consumer, p: Pauses, out: seq<Duration>)
    requires c.DeclineAt? && |out| == c.k + 1
    requires HasAtLeast(p, |out|) && out == Prefix(p, |out|)
    ensures Ends(c, p) && out == Seen(c, p)
  {
  }

  /** A consumer that does not decline within s is handed all of s. */
  lemma SeenAll(c: Consumer, s: seq<Duration>)
    requires c.DeclineAt? ==> |s| <= c.k
    ensures Seen(c, Finite(s)) == s
  {
  }

  lemma {:induction false} FlattenSnoc(ps: seq<Pauses>, s: Pauses)
    requires AllFinite(ps) && s.Finite?
    ensures AllFinite(ps + [s]) && Flatten(ps + [s]) == Flatten(ps) + s.items
    decreases |ps|
  {
    assert AllFinite(ps + [s]);
    if ps == [] {
      assert [s][1..] == [];
    } else {
      assert (ps + [s])[1..] == ps[1..] + [s];
      FlattenSnoc(ps[1..], s);
    }
  }
}
