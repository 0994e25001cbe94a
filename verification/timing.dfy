/** The stateful closures of `Fn` (Sources/Fx/Functions/FnFunctions.swift,
    lines 69-158): `throttle`, `debounce` and `lazy`.

    Time is an integer number of milliseconds. `throttle` reads the media clock
    in seconds and rounds the elapsed time to milliseconds before comparing it
    with the interval; with timestamps that are already whole milliseconds that
    rounding is the identity. A call of a throttled or debounced closure is a
    `Timed(at, value)` event.
 */
module Timing {
  import opened Optionals
  import opened Traces

  datatype Timed<A> = Timed(at: int, value: A)

  // ---- throttle ----

  /** The captured `ThrottledState`: `notFired`, or `firedAt(time)`. */
  type Throttled = Option<int>

  /** One call of the throttled closure: fires on the first call, and afterwards iff at
      least `interval` has passed since the last call that fired. A dropped call leaves
      the state alone. */
  function ThrottleStep<A>(interval: int, s: Throttled, x: Timed<A>): (Throttled, seq<Timed<A>>)
  {
    match s
    case None => (Some(x.at), [x])
    case Some(lastFire) => if x.at - lastFire >= interval then (Some(x.at), [x]) else (s, [])
  }

  /** The calls of `f` made by the throttled closure for the calls `xs`. */
  function Throttle<A>(interval: int, xs: seq<Timed<A>>): (Throttled, seq<Timed<A>>)
  {
    if xs == [] then (None, [])
    else
      var (s, out) := Throttle(interval, DropLast(xs));
      var (s1, more) := ThrottleStep(interval, s, Last(xs));
      (s1, out + more)
  }

  /** The state remembers when the last forwarded call happened. */
  lemma {:induction false} ThrottleRemembersLastFired<A>(interval: int, xs: seq<Timed<A>>)
    ensures var (s, out) := Throttle(interval, xs);
            s == (if out == [] then None else Some(Last(out).at))
  {
    if xs != [] {
      ThrottleRemembersLastFired(interval, DropLast(xs));
    }
  }

  /** The first call always fires; a later call fires iff at least `interval` has passed
      since the last call that fired. */
  lemma ThrottleFiresIff<A>(interval: int, xs: seq<Timed<A>>, x: Timed<A>)
    ensures var out := Throttle(interval, xs).1;
            Throttle(interval, xs + [x]).1 ==
              out + (if out == [] || x.at - Last(out).at >= interval then [x] else [])
  {
    assert DropLast(xs + [x]) == xs;
    ThrottleRemembersLastFired(interval, xs);
  }

  /** Forwarded calls are calls that were made, in order, and any two consecutive ones
      are at least `interval` apart. */
  lemma {:induction false} ThrottleSpacesCalls<A>(interval: int, xs: seq<Timed<A>>)
    ensures var out := Throttle(interval, xs).1;
            && IsSubsequence(out, xs)
            && (forall i :: 0 < i < |out| ==> out[i].at - out[i - 1].at >= interval)
            && (xs != [] ==> out != [] && out[0] == xs[0])
  {
    if xs != [] {
      var init, x := DropLast(xs), Last(xs);
      ThrottleSpacesCalls(interval, init);
      ThrottleRemembersLastFired(interval, init);
      var (s, out0) := Throttle(interval, init);
      assert xs == init + [x];
      if s.None? || x.at - s.value >= interval {
        SubsequenceSnoc(out0, init, x);
      } else {
        SubsequenceExtend(out0, init, x);
        assert Throttle(interval, xs).1 == out0;
      }
      if |xs| > 1 {
        assert init[0] == xs[0];
      }
    }
  }

  /** One more call, from a known state and output. */
  lemma ThrottleExtend<A>(interval: int, xs: seq<Timed<A>>, x: Timed<A>, s: Throttled, out: seq<Timed<A>>)
    requires Throttle(interval, xs) == (s, out)
    ensures Throttle(interval, xs + [x]) == (ThrottleStep(interval, s, x).0, out + ThrottleStep(interval, s, x).1)
  {
    assert DropLast(xs + [x]) == xs;
  }

  /** The throttling test: calls at 0, 0.5, 0.9, 1.1, 2.2, 3, 3.4, 3.7 and 4.5 seconds with
      a one-second interval forward exactly those at 0, 1.1, 2.2, 3.4 and 4.5. */
  lemma ThrottleSample(xs: seq<Timed<int>>)
    requires xs == [Timed(0, 0), Timed(500, 500), Timed(900, 900), Timed(1100, 1100), Timed(2200, 2200),
                    Timed(3000, 3000), Timed(3400, 3400), Timed(3700, 3700), Timed(4500, 4500)]
    ensures Throttle(1000, xs).1 == [Timed(0, 0), Timed(1100, 1100), Timed(2200, 2200), Timed(3400, 3400), Timed(4500, 4500)]
  {
    var p: seq<Timed<int>> := [];
    ThrottleExtend(1000, p, Timed(0, 0), None, []);
    p := p + [Timed(0, 0)];
    assert ThrottleStep(1000, None, Timed(0, 0)) == (Some(0), [Timed(0, 0)]);
    assert [] + [Timed(0, 0)] == [Timed(0, 0)];
    assert Throttle(1000, p) == (Some(0), [Timed(0, 0)]);
    ThrottleExtend(1000, p, Timed(500, 500), Some(0), [Timed(0, 0)]);
    p := p + [Timed(500, 500)];
    assert ThrottleStep(1000, Some(0), Timed(500, 500)) == (Some(0), []);
    assert [Timed(0, 0)] + [] == [Timed(0, 0)];
    assert Throttle(1000, p) == (Some(0), [Timed(0, 0)]);
    ThrottleExtend(1000, p, Timed(900, 900), Some(0), [Timed(0, 0)]);
    p := p + [Timed(900, 900)];
    assert ThrottleStep(1000, Some(0), Timed(900, 900)) == (Some(0), []);
    assert [Timed(0, 0)] + [] == [Timed(0, 0)];
    assert Throttle(1000, p) == (Some(0), [Timed(0, 0)]);
    ThrottleExtend(1000, p, Timed(1100, 1100), Some(0), [Timed(0, 0)]);
    p := p + [Timed(1100, 1100)];
    assert ThrottleStep(1000, Some(0), Timed(1100, 1100)) == (Some(1100), [Timed(1100, 1100)]);
    assert [Timed(0, 0)] + [Timed(1100, 1100)] == [Timed(0, 0), Timed(1100, 1100)];
    assert Throttle(1000, p) == (Some(1100), [Timed(0, 0), Timed(1100, 1100)]);
    ThrottleExtend(1000, p, Timed(2200, 2200), Some(1100), [Timed(0, 0), Timed(1100, 1100)]);
    p := p + [Timed(2200, 2200)];
    assert ThrottleStep(1000, Some(1100), Timed(2200, 2200)) == (Some(2200), [Timed(2200, 2200)]);
    assert [Timed(0, 0), Timed(1100, 1100)] + [Timed(2200, 2200)] == [Timed(0, 0), Timed(1100, 1100), Timed(2200, 2200)];
    assert Throttle(1000, p) == (Some(2200), [Timed(0, 0), Timed(1100, 1100), Timed(2200, 2200)]);
    ThrottleExtend(1000, p, Timed(3000, 3000), Some(2200), [Timed(0, 0), Timed(1100, 1100), Timed(2200, 2200)]);
    p := p + [Timed(3000, 3000)];
    assert ThrottleStep(1000, Some(2200), Timed(3000, 3000)) == (Some(2200), []);
    assert [Timed(0, 0), Timed(1100, 1100), Timed(2200, 2200)] + [] == [Timed(0, 0), Timed(1100, 1100), Timed(2200, 2200)];
    assert Throttle(1000, p) == (Some(2200), [Timed(0, 0), Timed(1100, 1100), Timed(2200, 2200)]);
    ThrottleExtend(1000, p, Timed(3400, 3400), Some(2200), [Timed(0, 0), Timed(1100, 1100), Timed(2200, 2200)]);
    p := p + [Timed(3400, 3400)];
    assert ThrottleStep(1000, Some(2200), Timed(3400, 3400)) == (Some(3400), [Timed(3400, 3400)]);
    assert [Timed(0, 0), Timed(1100, 1100), Timed(2200, 2200)] + [Timed(3400, 3400)] == [Timed(0, 0), Timed(1100, 1100), Timed(2200, 2200), Timed(3400, 3400)];
    assert Throttle(1000, p) == (Some(3400), [Timed(0, 0), Timed(1100, 1100), Timed(2200, 2200), Timed(3400, 3400)]);
    ThrottleExtend(1000, p, Timed(3700, 3700), Some(3400), [Timed(0, 0), Timed(1100, 1100), Timed(2200, 2200), Timed(3400, 3400)]);
    p := p + [Timed(3700, 3700)];
    assert ThrottleStep(1000, Some(3400), Timed(3700, 3700)) == (Some(3400), []);
    assert [Timed(0, 0), Timed(1100, 1100), Timed(2200, 2200), Timed(3400, 3400)] + [] == [Timed(0, 0), Timed(1100, 1100), Timed(2200, 2200), Timed(3400, 3400)];
    assert Throttle(1000, p) == (Some(3400), [Timed(0, 0), Timed(1100, 1100), Timed(2200, 2200), Timed(3400, 3400)]);
    ThrottleExtend(1000, p, Timed(4500, 4500), Some(3400), [Timed(0, 0), Timed(1100, 1100), Timed(2200, 2200), Timed(3400, 3400)]);
    p := p + [Timed(4500, 4500)];
    assert ThrottleStep(1000, Some(3400), Timed(4500, 4500)) == (Some(4500), [Timed(4500, 4500)]);
    assert [Timed(0, 0), Timed(1100, 1100), Timed(2200, 2200), Timed(3400, 3400)] + [Timed(4500, 4500)] == [Timed(0, 0), Timed(1100, 1100), Timed(2200, 2200), Timed(3400, 3400), Timed(4500, 4500)];
    assert Throttle(1000, p) == (Some(4500), [Timed(0, 0), Timed(1100, 1100), Timed(2200, 2200), Timed(3400, 3400), Timed(4500, 4500)]);
    assert p == xs;
  }

  // ---- debounce ----

  /** The accumulator and the pending flush: `deadline` is when the timer held by the
      serial disposable fires (`None` when there is none). `fired` lists the calls of
      `f`: when each happened and the batch it received. */
  datatype Debouncer<A> = Debouncer(accumulator: seq<A>, deadline: Option<int>, fired: seq<Timed<seq<A>>>)

  function NewDebouncer<A>(): Debouncer<A>
  {
    Debouncer([], None, [])
  }

  /** Time passes until `now`: a pending timer whose deadline has come disposes the
      serial, calls `f` with the accumulator, and resets it. A timer due at the same
      instant as a call fires before that call. */
  function Advance<A>(d: Debouncer<A>, now: int): Debouncer<A>
  {
    if d.deadline.Some? && d.deadline.value <= now then
      Debouncer([], None, d.fired + [Timed(d.deadline.value, d.accumulator)])
    else d
  }

  /** A call at `x.at`: appends `x.value` and replaces the pending timer (cancelling the
      old one) by one due `interval` later. */
  function DebounceStep<A>(interval: int, d: Debouncer<A>, x: Timed<A>): Debouncer<A>
  {
    var d1 := Advance(d, x.at);
    Debouncer(d1.accumulator + [x.value], Some(x.at + interval), d1.fired)
  }

  function DebounceAll<A>(interval: int, xs: seq<Timed<A>>): Debouncer<A>
  {
    if xs == [] then NewDebouncer() else DebounceStep(interval, DebounceAll(interval, DropLast(xs)), Last(xs))
  }

  /** The calls of `f` once the last timer has fired. */
  function Debounce<A>(interval: int, xs: seq<Timed<A>>): seq<Timed<seq<A>>>
  {
    var d := DebounceAll(interval, xs);
    if d.deadline.Some? then Advance(d, d.deadline.value).fired else d.fired
  }

  /** The batches, concatenated. */
  function Joined<A>(bs: seq<Timed<seq<A>>>): seq<A>
  {
    if bs == [] then [] else Joined(DropLast(bs)) + Last(bs).value
  }

  function Values<A>(xs: seq<Timed<A>>): (vs: seq<A>)
    ensures |vs| == |xs| && forall i :: 0 <= i < |xs| ==> vs[i] == xs[i].value
  {
    if xs == [] then [] else Values(DropLast(xs)) + [Last(xs).value]
  }

  /** A timer is pending iff the accumulator holds values; what `f` has received, followed
      by the accumulator, is every value so far in order; no batch is empty. */
  lemma {:induction false} DebounceKeepsEveryValue<A>(interval: int, xs: seq<Timed<A>>)
    ensures var d := DebounceAll(interval, xs);
            && (d.deadline.Some? <==> d.accumulator != [])
            && Joined(d.fired) + d.accumulator == Values(xs)
            && forall i :: 0 <= i < |d.fired| ==> d.fired[i].value != []
  {
    if xs != [] {
      DebounceKeepsEveryValue(interval, DropLast(xs));
      var d := DebounceAll(interval, DropLast(xs));
      var d1 := Advance(d, Last(xs).at);
      if d1 != d {
        assert Joined(d1.fired) == Joined(d.fired) + d.accumulator by {
          assert DropLast(d1.fired) == d.fired;
        }
      }
    }
  }

  /** Once the last timer has fired, `f` has received every value exactly once, in call
      order, in non-empty batches. */
  lemma DebounceDeliversAll<A>(interval: int, xs: seq<Timed<A>>)
    ensures Joined(Debounce(interval, xs)) == Values(xs)
    ensures forall i :: 0 <= i < |Debounce(interval, xs)| ==> Debounce(interval, xs)[i].value != []
  {
    DebounceKeepsEveryValue(interval, xs);
    var d := DebounceAll(interval, xs);
    if d.deadline.Some? {
      var e := Advance(d, d.deadline.value);
      assert DropLast(e.fired) == d.fired;
    }
  }

  /** The single-value `debounce`: `f` receives the last value of each batch. */
  function DebounceLast<A>(batches: seq<Timed<seq<A>>>): (out: seq<Timed<A>>)
    requires forall i :: 0 <= i < |batches| ==> batches[i].value != []
    ensures |out| == |batches|
    ensures forall i :: 0 <= i < |out| ==> out[i] == Timed(batches[i].at, Last(batches[i].value))
  {
    if batches == [] then []
    else
      var b := batches[|batches| - 1];
      DebounceLast(DropLast(batches)) + [Timed(b.at, Last(b.value))]
  }

  /** Each call comes before the timer the previous call set would fire. */
  predicate Burst<A>(interval: int, xs: seq<Timed<A>>)
  {
    forall i :: 0 < i < |xs| ==> xs[i].at < xs[i - 1].at + interval
  }

  /** A burst of calls makes one batch: everything is accumulated and the flush is due
      `interval` after the last call. */
  lemma {:induction false} DebounceBurst<A>(interval: int, xs: seq<Timed<A>>)
    requires xs != [] && Burst(interval, xs)
    ensures DebounceAll(interval, xs) == Debouncer(Values(xs), Some(Last(xs).at + interval), [])
  {
    if |xs| > 1 {
      var init := DropLast(xs);
      assert Burst(interval, init) by {
        forall i | 0 < i < |init|
          ensures init[i].at < init[i - 1].at + interval
        {
          assert init[i] == xs[i] && init[i - 1] == xs[i - 1];
        }
      }
      DebounceBurst(interval, init);
      assert xs[|xs| - 1].at < xs[|xs| - 2].at + interval;
    }
  }

  /** A burst that starts once the pending timer has fired: the earlier calls' batches are
      all delivered, and the burst makes one new batch. */
  lemma {:induction false} DebounceAfterQuiet<A>(interval: int, xs: seq<Timed<A>>, ys: seq<Timed<A>>)
    requires xs != [] && ys != [] && Burst(interval, ys)
    requires ys[0].at >= Last(xs).at + interval
    ensures DebounceAll(interval, xs + ys) == Debouncer(Values(ys), Some(Last(ys).at + interval), Debounce(interval, xs))
  {
    var d := DebounceAll(interval, xs);
    assert d.deadline == Some(Last(xs).at + interval);
    if |ys| == 1 {
      assert xs + ys == xs + [ys[0]];
      assert DropLast(xs + ys) == xs;
    } else {
      var init := DropLast(ys);
      assert Burst(interval, init) by {
        forall i | 0 < i < |init|
          ensures init[i].at < init[i - 1].at + interval
        {
          assert init[i] == ys[i] && init[i - 1] == ys[i - 1];
        }
      }
      DebounceAfterQuiet(interval, xs, init);
      assert DropLast(xs + ys) == xs + init;
      assert Last(xs + ys) == Last(ys);
      assert ys[|ys| - 1].at < ys[|ys| - 2].at + interval;
    }
  }

  /** The debouncing test: calls at 0, 0.5, 1, 1.5, 2, 3.5 and 4 seconds with a one-second
      interval deliver 2 at 3 seconds and 4 at 5 seconds. */
  lemma DebounceSample(first: seq<Timed<int>>, second: seq<Timed<int>>)
    requires first == [Timed(0, 0), Timed(500, 500), Timed(1000, 1000), Timed(1500, 1500), Timed(2000, 2000)]
    requires second == [Timed(3500, 3500), Timed(4000, 4000)]
    ensures Debounce(1000, first + second) == [Timed(3000, [0, 500, 1000, 1500, 2000]), Timed(5000, [3500, 4000])]
    ensures DebounceLast(Debounce(1000, first + second)) == [Timed(3000, 2000), Timed(5000, 4000)]
  {
    DebounceBurst(1000, first);
    DebounceAfterQuiet(1000, first, second);
    assert Values(first) == [0, 500, 1000, 1500, 2000];
    assert Values(second) == [3500, 4000];
  }

  // ---- lazy ----

  /** The captured `LazyState`: the generator not yet run, or its cached value. */
  datatype LazyState<A> = Generator | Cached(value: A)

  /** One call: runs the generator (whose result is `generated`) only in the
      `.generator` state. Returns the state, the value, and the number of generator runs. */
  function LazyCall<A>(s: LazyState<A>, generated: A): (r: (LazyState<A>, A, nat))
  {
    match s
    case Generator => (Cached(generated), generated, 1)
    case Cached(x) => (s, x, 0)
  }

  /** `n` calls of the lazy closure: the returned values and the total generator runs. */
  function LazyCalls<A>(generated: A, n: nat): (r: (LazyState<A>, seq<A>, nat))
  {
    if n == 0 then (Generator, [], 0)
    else
      var (s, xs, runs) := LazyCalls(generated, n - 1);
      var (s1, x, more) := LazyCall(s, generated);
      (s1, xs + [x], runs + more)
  }

  /** The generator runs at most once (exactly once if the closure is called), and every
      call returns the value of that run. */
  lemma {:induction false} LazyRunsOnce<A>(generated: A, n: nat)
    ensures var (s, xs, runs) := LazyCalls(generated, n);
            && runs == (if n == 0 then 0 else 1)
            && xs == Repeat(generated, n)
            && (n > 0 ==> s == Cached(generated))
  {
    if n > 0 {
      LazyRunsOnce(generated, n - 1);
      assert Repeat(generated, n) == Repeat(generated, n - 1) + [generated];
    }
  }
}
