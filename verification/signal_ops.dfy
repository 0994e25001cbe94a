/** The `Signal` combinators of Sources/Fx/Reactive/Signal.swift, as functions from
    the finite trace of upstream events to the trace of values sent downstream.

    Each combinator's generator observes its upstream(s) with a closure; the
    closure's captured variables are the combinator's state. A `...Step` function
    is that closure (state and event in, new state and sent values out), `...Run`
    folds it over a trace, and a lemma equates the run with a definition stated
    on the whole trace. Binary combinators receive `Either` events: `Left` from
    `self`, `Right` from the other signal.
 */
module SignalOps {
  import opened Optionals
  import opened Traces

  /** A stateless observer: every upstream value sends the values `step` gives it. */
  function Forward<A, B>(step: A -> seq<B>, xs: seq<A>): seq<B>
  {
    if xs == [] then [] else Forward(step, DropLast(xs)) + step(Last(xs))
  }

  lemma {:induction false} ForwardAppend<A, B>(step: A -> seq<B>, xs: seq<A>, ys: seq<A>)
    ensures Forward(step, xs + ys) == Forward(step, xs) + Forward(step, ys)
    decreases |ys|
  {
    if ys == [] {
      assert xs + ys == xs;
    } else {
      assert DropLast(xs + ys) == xs + DropLast(ys);
      assert Last(xs + ys) == Last(ys);
      ForwardAppend(step, xs, DropLast(ys));
    }
  }

  /** An observer that sends exactly one value per upstream value. */
  lemma {:induction false} ForwardOneEach<A, B>(step: A -> seq<B>, xs: seq<A>)
    requires forall x :: |step(x)| == 1
    ensures |Forward(step, xs)| == |xs|
    ensures forall i :: 0 <= i < |xs| ==> Forward(step, xs)[i] == step(xs[i])[0]
  {
    if xs != [] {
      ForwardOneEach(step, DropLast(xs));
    }
  }

  // ---- map ----

  /** `map(f)`: observes upstream with `sink • f`. */
  function Map<A, B>(f: A -> B, xs: seq<A>): (r: seq<B>)
    ensures |r| == |xs|
    ensures forall i :: 0 <= i < |xs| ==> r[i] == f(xs[i])
  {
    ForwardOneEach(x => [f(x)], xs);
    Forward(x => [f(x)], xs)
  }

  /** `map(f).map(g)` sends what `map(g • f)` sends, and `map` with the identity changes nothing. */
  lemma MapFusion<A, B, C>(f: A -> B, g: B -> C, xs: seq<A>)
    ensures Map(g, Map(f, xs)) == Map(x => g(f(x)), xs)
    ensures Map(x => x, xs) == xs
  {
  }

  /** The mapping test: `[0, 1, 2, 3, 4]` doubled is `[0, 2, 4, 6, 8]`. */
  lemma MapDoubles()
    ensures Map(x => x * 2, [0, 1, 2, 3, 4]) == [0, 2, 4, 6, 8]
  {
  }

  // ---- filter ----

  /** `filter(p)`: sends an upstream value only when `p` holds of it. */
  function Filter<A>(p: A -> bool, xs: seq<A>): seq<A>
  {
    Forward(x => if p(x) then [x] else [], xs)
  }

  /** `filter(p)` sends exactly the subsequence of inputs satisfying `p`: it is a
      subsequence, all its values satisfy `p`, and each value satisfying `p`
      occurs as often as in the input. */
  lemma {:induction false} FilterExact<A>(p: A -> bool, xs: seq<A>)
    ensures IsSubsequence(Filter(p, xs), xs)
    ensures forall i :: 0 <= i < |Filter(p, xs)| ==> p(Filter(p, xs)[i])
    ensures forall x :: multiset(Filter(p, xs))[x] == if p(x) then multiset(xs)[x] else 0
  {
    if xs != [] {
      var init, x := DropLast(xs), Last(xs);
      FilterExact(p, init);
      DropLastThenLast(xs);
      var r0 := Filter(p, init);
      if p(x) {
        assert Filter(p, xs) == r0 + [x];
        SubsequenceSnoc(r0, init, x);
      } else {
        assert Filter(p, xs) == r0;
        SubsequenceExtend(r0, init, x);
      }
    }
  }

  /** Filtering a concatenation filters each part. */
  lemma FilterAppend<A>(p: A -> bool, xs: seq<A>, ys: seq<A>)
    ensures Filter(p, xs + ys) == Filter(p, xs) + Filter(p, ys)
  {
    ForwardAppend(x => if p(x) then [x] else [], xs, ys);
  }

  predicate IsEven(x: int)
  {
    x % 2 == 0
  }

  /** Filtering one more value appends it exactly when it satisfies `p`. */
  lemma FilterSnoc<A>(p: A -> bool, xs: seq<A>, x: A, out: seq<A>)
    requires Filter(p, xs) == out
    ensures Filter(p, xs + [x]) == out + (if p(x) then [x] else [])
  {
    assert DropLast(xs + [x]) == xs && Last(xs + [x]) == x;
  }

  /** The filtering test: the even values of `[0, 1, 2, 3, 4, 5]` are `[0, 2, 4]`. */
  lemma FilterEvens(xs: seq<int>)
    requires xs == [0, 1, 2, 3, 4, 5]
    ensures Filter(IsEven, xs) == [0, 2, 4]
  {
    var p := IsEven;
    var s0: seq<int> := [];
    var s1 := s0 + [0];
    var s2 := s1 + [1];
    var s3 := s2 + [2];
    var s4 := s3 + [3];
    var s5 := s4 + [4];
    var s6 := s5 + [5];
    FilterSnoc(p, s0, 0, []);
    FilterSnoc(p, s1, 1, [0]);
    FilterSnoc(p, s2, 2, [0]);
    FilterSnoc(p, s3, 3, [0, 2]);
    FilterSnoc(p, s4, 4, [0, 2]);
    FilterSnoc(p, s5, 5, [0, 2, 4]);
    assert s6 == xs;
  }

  // ---- ignoringNils ----

  /** `ignoringNils()`: sends the payload of every non-nil value. */
  function IgnoringNils<A>(xs: seq<Option<A>>): seq<A>
  {
    Forward((o: Option<A>) => if o.Some? then [o.value] else [], xs)
  }

  /** `ignoringNils` sends exactly the unwrapped non-nil values, in order: wrapping
      its output again gives the input's non-nil values. */
  lemma {:induction false} IgnoringNilsUnwraps<A>(xs: seq<Option<A>>)
    ensures Map((x: A) => Some(x), IgnoringNils(xs)) == Filter((o: Option<A>) => o.Some?, xs)
  {
    if xs != [] {
      IgnoringNilsUnwraps(DropLast(xs));
      var ns := IgnoringNils(DropLast(xs));
      if Last(xs).Some? {
        assert Map((x: A) => Some(x), ns + [Last(xs).value])
            == Map((x: A) => Some(x), ns) + [Last(xs)];
      }
    }
  }

  // ---- merge ----

  function Payload<A>(e: Either<A, A>): A
  {
    match e
    case Left(x) => x
    case Right(x) => x
  }

  /** `merge(other)`: both observations send into the same sink. */
  function Merge<A>(es: seq<Either<A, A>>): (r: seq<A>)
    ensures |r| == |es|
    ensures forall i :: 0 <= i < |es| ==> r[i] == Payload(es[i])
  {
    ForwardOneEach((e: Either<A, A>) => [Payload(e)], es);
    Forward((e: Either<A, A>) => [Payload(e)], es)
  }

  /** `merge` forwards every value of either source: as a multiset, its output is
      the union of both sources' values. */
  lemma {:induction false} MergeKeepsEveryValue<A>(es: seq<Either<A, A>>)
    ensures multiset(Merge(es)) == multiset(Lefts(es)) + multiset(Rights(es))
  {
    if es != [] {
      MergeKeepsEveryValue(DropLast(es));
      assert Merge(es) == Merge(DropLast(es)) + [Payload(Last(es))];
    }
  }

  /** Merging with a source that never sends (such as `Signal.empty`) changes nothing. */
  lemma {:induction false} MergeWithSilent<A>(es: seq<Either<A, A>>)
    requires Rights(es) == []
    ensures Merge(es) == Lefts(es)
  {
    if es != [] {
      MergeWithSilent(DropLast(es));
      assert Merge(es) == Merge(DropLast(es)) + [Payload(Last(es))];
    }
  }

  // ---- combineLatest ----

  /** The latest value seen from each side. */
  datatype Latest<A, B> = Latest(lastSelf: Option<A>, lastOther: Option<B>)

  /** The two observers of `combineLatest`: store the value, then send the pair
      if the other side has a latest value. */
  function CombineStep<A, B>(st: Latest<A, B>, e: Either<A, B>): (Latest<A, B>, seq<(A, B)>)
  {
    match e
    case Left(a) =>
      (Latest(Some(a), st.lastOther), if st.lastOther.Some? then [(a, st.lastOther.value)] else [])
    case Right(b) =>
      (Latest(st.lastSelf, Some(b)), if st.lastSelf.Some? then [(st.lastSelf.value, b)] else [])
  }

  function CombineRun<A, B>(es: seq<Either<A, B>>): (Latest<A, B>, seq<(A, B)>)
  {
    if es == [] then (Latest(None, None), [])
    else
      var (st, out) := CombineRun(DropLast(es));
      var (st1, more) := CombineStep(st, Last(es));
      (st1, out + more)
  }

  /** The last value of a trace, if any. */
  function LastOf<T>(xs: seq<T>): Option<T>
  {
    if xs == [] then None else Some(Last(xs))
  }

  /** What `combineLatest` sends, stated on the trace: after every event at which
      both sides have emitted, the pair of both sides' last values. */
  function CombineLatestSpec<A, B>(es: seq<Either<A, B>>): seq<(A, B)>
  {
    if es == [] then []
    else
      CombineLatestSpec(DropLast(es))
      + (if Lefts(es) != [] && Rights(es) != [] then [(Last(Lefts(es)), Last(Rights(es)))] else [])
  }

  /** The captured variables hold each side's last value, and the sent pairs are `CombineLatestSpec`. */
  lemma {:induction false} CombineLatestCorrect<A, B>(es: seq<Either<A, B>>)
    ensures CombineRun(es).0 == Latest(LastOf(Lefts(es)), LastOf(Rights(es)))
    ensures CombineRun(es).1 == CombineLatestSpec(es)
  {
    if es != [] {
      CombineLatestCorrect(DropLast(es));
    }
  }

  /** Nothing is sent until both sides have emitted. */
  lemma {:induction false} CombineLatestWaitsForBoth<A, B>(es: seq<Either<A, B>>)
    requires Lefts(es) == [] || Rights(es) == []
    ensures CombineRun(es).1 == []
  {
    if es != [] {
      CombineLatestWaitsForBoth(DropLast(es));
      CombineLatestCorrect(DropLast(es));
    }
  }

  /** Once both sides have emitted, each event sends exactly one pair: the new
      value with the other side's latest. */
  lemma CombineLatestPairsEachEvent<A, B>(es: seq<Either<A, B>>, e: Either<A, B>)
    requires Lefts(es) != [] && Rights(es) != []
    ensures var out := CombineRun(es + [e]).1;
            out == CombineRun(es).1 + [if e.Left? then (e.left, Last(Rights(es))) else (Last(Lefts(es)), e.right)]
  {
    assert DropLast(es + [e]) == es;
    CombineLatestCorrect(es);
  }

  // ---- zip ----

  /** The captured buffers of `zip`. */
  datatype Buffers<A, B> = Buffers(selfValues: seq<A>, otherValues: seq<B>)

  /** The two observers of `zip`: append the value, then `sendIfNeeded` pairs the
      two oldest buffered values if both buffers are non-empty. */
  function ZipStep<A, B>(st: Buffers<A, B>, e: Either<A, B>): (Buffers<A, B>, seq<(A, B)>)
  {
    var st1 := match e
      case Left(a) => st.(selfValues := st.selfValues + [a])
      case Right(b) => st.(otherValues := st.otherValues + [b]);
    if |st1.selfValues| > 0 && |st1.otherValues| > 0 then
      (Buffers(st1.selfValues[1..], st1.otherValues[1..]), [(st1.selfValues[0], st1.otherValues[0])])
    else (st1, [])
  }

  function ZipRun<A, B>(es: seq<Either<A, B>>): (Buffers<A, B>, seq<(A, B)>)
  {
    if es == [] then (Buffers([], []), [])
    else
      var (st, out) := ZipRun(DropLast(es));
      var (st1, more) := ZipStep(st, Last(es));
      (st1, out + more)
  }

  function Min(a: nat, b: nat): nat
  {
    if a < b then a else b
  }

  /** FIFO pairing stated on the trace: the `i`-th value of each side, for every `i`
      both sides have reached. */
  function ZipSpec<A, B>(xs: seq<A>, ys: seq<B>): (r: seq<(A, B)>)
    ensures |r| == Min(|xs|, |ys|)
  {
    seq(Min(|xs|, |ys|), i requires 0 <= i < Min(|xs|, |ys|) => (xs[i], ys[i]))
  }

  /** `zip` pairs values strictly first-in first-out: it sends `min(#left, #right)`
      pairs, the `i`-th pairing the `i`-th value of each side, and the unmatched
      values stay buffered in arrival order (at most one buffer is non-empty). */
  lemma {:induction false} ZipFifo<A, B>(es: seq<Either<A, B>>)
    ensures var k := Min(|Lefts(es)|, |Rights(es)|);
            && ZipRun(es).1 == ZipSpec(Lefts(es), Rights(es))
            && ZipRun(es).0 == Buffers(Lefts(es)[k..], Rights(es)[k..])
  {
    if es != [] {
      var init, e := DropLast(es), Last(es);
      ZipFifo(init);
      var ls, rs := Lefts(init), Rights(init);
      if e.Left? {
        assert Lefts(es) == ls + [e.left] && Rights(es) == rs;
        ZipStepLeft(ls, rs, e.left);
      } else {
        assert Rights(es) == rs + [e.right] && Lefts(es) == ls;
        ZipStepRight(ls, rs, e.right);
      }
    }
  }

  /** One value from the left side, on buffers that hold the unmatched values. */
  lemma ZipStepLeft<A, B>(ls: seq<A>, rs: seq<B>, a: A)
    ensures var k, k1 := Min(|ls|, |rs|), Min(|ls| + 1, |rs|);
            var (st1, more) := ZipStep(Buffers(ls[k..], rs[k..]), Left(a));
            && st1 == Buffers((ls + [a])[k1..], rs[k1..])
            && ZipSpec(ls, rs) + more == ZipSpec(ls + [a], rs)
  {
    var k := Min(|ls|, |rs|);
    if |ls| < |rs| {
      assert ls[k..] == [];
      assert (ls + [a])[k + 1..] == [];
    } else {
      assert (ls + [a])[k..] == ls[k..] + [a];
    }
  }

  /** One value from the right side, on buffers that hold the unmatched values. */
  lemma ZipStepRight<A, B>(ls: seq<A>, rs: seq<B>, b: B)
    ensures var k, k1 := Min(|ls|, |rs|), Min(|ls|, |rs| + 1);
            var (st1, more) := ZipStep(Buffers(ls[k..], rs[k..]), Right(b));
            && st1 == Buffers(ls[k1..], (rs + [b])[k1..])
            && ZipSpec(ls, rs) + more == ZipSpec(ls, rs + [b])
  {
    var k := Min(|ls|, |rs|);
    if |rs| < |ls| {
      assert rs[k..] == [];
      assert (rs + [b])[k + 1..] == [];
    } else {
      assert (rs + [b])[k..] == rs[k..] + [b];
    }
  }

  // ---- flatten and flatMap ----

  /** An event of `flatten`: the outer signal sends an inner signal (named by `S`),
      or an inner signal `source` sends `value`. For `flatMap(f)` the outer signal
      sends values of `O` and `f` names the inner signal. */
  datatype Nested<O, S, V> = OuterSends(inner: O) | InnerSends(source: S, value: V)

  /** The inner signals the outer signal sent, in order. */
  function Outers<O, S, V>(es: seq<Nested<O, S, V>>): (r: seq<O>)
    ensures |r| <= |es|
  {
    if es == [] then []
    else if Last(es).OuterSends? then Outers(DropLast(es)) + [Last(es).inner]
    else Outers(DropLast(es))
  }

  /** The observer of `flatten`: each inner signal received is observed with the
      sink and the observation added to the composite; it is never removed. An
      inner signal's `put` reaches that sink once per observation it holds. The
      state is the composite's children, named by the signal each one observes. */
  function FlattenStep<S(==), V>(subs: seq<S>, e: Nested<S, S, V>): (seq<S>, seq<V>)
  {
    match e
    case OuterSends(s) => (subs + [s], [])
    case InnerSends(s, v) => (subs, Map(_ => v, Filter(x => x == s, subs)))
  }

  function FlattenRun<S(==), V>(es: seq<Nested<S, S, V>>): (seq<S>, seq<V>)
  {
    if es == [] then ([], [])
    else
      var (subs, out) := FlattenRun(DropLast(es));
      var (subs1, more) := FlattenStep(subs, Last(es));
      (subs1, out + more)
  }

  /** What `flatten` sends, stated on the trace: each inner emission is forwarded
      once for every earlier time the outer signal sent that inner signal. */
  function FlattenSpec<S(==), V>(es: seq<Nested<S, S, V>>): seq<V>
  {
    if es == [] then []
    else
      FlattenSpec(DropLast(es))
      + (if Last(es).InnerSends? then Repeat(Last(es).value, Count(Last(es).source, Outers(DropLast(es)))) else [])
  }

  lemma {:induction false} FilterEqualCount<S>(s: S, xs: seq<S>)
    ensures |Filter(x => x == s, xs)| == Count(s, xs)
  {
    if xs != [] {
      FilterEqualCount(s, DropLast(xs));
      assert xs == DropLast(xs) + [Last(xs)];
    }
  }

  /** `flatten` forwards every emission of every inner signal received so far; the
      composite holds every inner signal ever received. */
  lemma {:induction false} FlattenForwardsInner<S, V>(es: seq<Nested<S, S, V>>)
    ensures FlattenRun(es).0 == Outers(es)
    ensures FlattenRun(es).1 == FlattenSpec(es)
  {
    if es != [] {
      FlattenForwardsInner(DropLast(es));
      var e := Last(es);
      if e.InnerSends? {
        var subs := Outers(DropLast(es));
        FilterEqualCount(e.source, subs);
        assert Map(_ => e.value, Filter(x => x == e.source, subs)) == Repeat(e.value, Count(e.source, subs));
      }
    }
  }

  /** `map(f)` applied to the outer signal's emissions. */
  function MapOuter<O, S, V>(f: O -> S, es: seq<Nested<O, S, V>>): (r: seq<Nested<S, S, V>>)
    ensures |r| == |es|
    ensures forall i :: 0 <= i < |es| ==>
      r[i] == (match es[i] case OuterSends(o) => OuterSends(f(o)) case InnerSends(s, v) => InnerSends(s, v))
  {
    Map((e: Nested<O, S, V>) => match e case OuterSends(o) => OuterSends(f(o)) case InnerSends(s, v) => InnerSends(s, v), es)
  }

  /** `flatMap(f)`: `map(f).flatten()`. */
  function FlatMap<O, S(==), V>(f: O -> S, es: seq<Nested<O, S, V>>): seq<V>
  {
    FlattenRun(MapOuter(f, es)).1
  }

  lemma {:induction false} OutersMapOuter<O, S, V>(f: O -> S, es: seq<Nested<O, S, V>>)
    ensures Outers(MapOuter(f, es)) == Map(f, Outers(es))
  {
    if es != [] {
      OutersMapOuter(f, DropLast(es));
      assert DropLast(MapOuter(f, es)) == MapOuter(f, DropLast(es));
    }
  }

  /** `flatMap(f)`: an inner emission of `s` is forwarded once for every earlier
      outer value that `f` sent to `s`. */
  lemma FlatMapForwardsInner<O, S, V>(f: O -> S, es: seq<Nested<O, S, V>>, s: S, v: V)
    ensures FlatMap(f, es + [InnerSends(s, v)]) == FlatMap(f, es) + Repeat(v, Count(s, Map(f, Outers(es))))
  {
    var ms := MapOuter(f, es + [InnerSends(s, v)]);
    assert DropLast(ms) == MapOuter(f, es);
    assert Last(ms) == InnerSends(s, v);
    FlattenForwardsInner(ms);
    FlattenForwardsInner(MapOuter(f, es));
    OutersMapOuter(f, es);
  }

  /** The inner signal an outer value names in the passing-values test: its own number. */
  function SignalNamed(n: int): int
  {
    n
  }

  /** The outer signal of the passing-values test sends 0 to 4 ... */
  function PassingOuter(): seq<Nested<int, int, int>>
  {
    [OuterSends(0), OuterSends(1), OuterSends(2), OuterSends(3), OuterSends(4)]
  }

  /** ... and then inner signal `n` sends `n` and `2 * n`, for `n` from 0 to 4. */
  function PassingInner(): seq<Nested<int, int, int>>
  {
    [InnerSends(0, 0), InnerSends(0, 0), InnerSends(1, 1), InnerSends(1, 2), InnerSends(2, 2),
     InnerSends(2, 4), InnerSends(3, 3), InnerSends(3, 6), InnerSends(4, 4), InnerSends(4, 8)]
  }

  /** Before any inner signal sends, `flatten` sends nothing and only collects subscriptions. */
  lemma {:induction false} FlattenOnlyOuters<S, V>(es: seq<Nested<S, S, V>>)
    requires forall i :: 0 <= i < |es| ==> es[i].OuterSends?
    ensures FlattenRun(es).1 == []
    ensures |Outers(es)| == |es| && forall i :: 0 <= i < |es| ==> Outers(es)[i] == es[i].inner
  {
    if es != [] {
      FlattenOnlyOuters(DropLast(es));
    }
  }

  lemma PassingOuterSendsNothing(outer: seq<Nested<int, int, int>>)
    requires outer == PassingOuter()
    ensures FlatMap(SignalNamed, outer) == []
    ensures Map(SignalNamed, Outers(outer)) == [0, 1, 2, 3, 4]
  {
    FlattenOnlyOuters(MapOuter(SignalNamed, outer));
    OutersMapOuter(SignalNamed, outer);
    FlattenOnlyOuters(outer);
  }

  /** Inner emissions of signals that were each sent once are forwarded one for one,
      and they add no subscriptions. */
  lemma {:induction false} FlatMapPassesEach<O, S, V>(f: O -> S, pre: seq<Nested<O, S, V>>, ins: seq<Nested<O, S, V>>)
    requires forall i :: 0 <= i < |ins| ==> ins[i].InnerSends? && Count(ins[i].source, Map(f, Outers(pre))) == 1
    ensures FlatMap(f, pre + ins) == FlatMap(f, pre) + InnerValues(ins)
    ensures Outers(pre + ins) == Outers(pre)
  {
    if ins == [] {
      assert pre + ins == pre;
    } else {
      var init, x := DropLast(ins), Last(ins);
      FlatMapPassesEach(f, pre, init);
      var es := pre + init;
      FlatMapForwardsInner(f, es, x.source, x.value);
      RepeatOne(x.value);
      AppendSnoc(pre, ins);
      assert x == InnerSends(x.source, x.value);
      DropLastSnoc(es, x);
      InnerValuesSnoc(ins);
    }
  }

  /** The values of inner emissions, in order. */
  function InnerValues<O, S, V>(ins: seq<Nested<O, S, V>>): (r: seq<V>)
    requires forall i :: 0 <= i < |ins| ==> ins[i].InnerSends?
  {
    seq(|ins|, i requires 0 <= i < |ins| && ins[i].InnerSends? => ins[i].value)
  }

  lemma AppendSnoc<T>(xs: seq<T>, ys: seq<T>)
    requires ys != []
    ensures xs + ys == (xs + DropLast(ys)) + [Last(ys)]
  {
    assert ys == DropLast(ys) + [Last(ys)];
  }

  lemma InnerValuesSnoc<O, S, V>(ins: seq<Nested<O, S, V>>)
    requires ins != [] && forall i :: 0 <= i < |ins| ==> ins[i].InnerSends?
    ensures InnerValues(ins) == InnerValues(DropLast(ins)) + [Last(ins).value]
  {
  }

  /** After the outer sends of the passing-values test, each of the signals 0 to 4
      has been sent exactly once. */
  lemma PassingSubscriptions(outer: seq<Nested<int, int, int>>)
    requires outer == PassingOuter()
    ensures forall n :: 0 <= n < 5 ==> Count(n, Map(SignalNamed, Outers(outer))) == 1
  {
    PassingOuterSendsNothing(outer);
    var subs := Map(SignalNamed, Outers(outer));
    assert multiset(subs) == multiset{0, 1, 2, 3, 4};
    forall n | 0 <= n < 5 ensures Count(n, subs) == 1 {
      if n == 0 {} else if n == 1 {} else if n == 2 {} else if n == 3 {} else {}
    }
  }

  /** The inner sends of the passing-values test come from signals 0 to 4 and carry
      0, 0, 1, 2, 2, 4, 3, 6, 4, 8. */
  lemma PassingInnerValues(inner: seq<Nested<int, int, int>>)
    requires inner == PassingInner()
    ensures forall i :: 0 <= i < |inner| ==> inner[i].InnerSends? && 0 <= inner[i].source < 5
    ensures InnerValues(inner) == [0, 0, 1, 2, 2, 4, 3, 6, 4, 8]
  {
  }

  /** The passing-values test: `flatMap` forwards 0, 0, 1, 2, 2, 4, 3, 6, 4, 8. */
  lemma FlatMapPassesValues(outer: seq<Nested<int, int, int>>, inner: seq<Nested<int, int, int>>)
    requires outer == PassingOuter() && inner == PassingInner()
    ensures FlatMap(SignalNamed, outer + inner) == [0, 0, 1, 2, 2, 4, 3, 6, 4, 8]
  {
    PassingOuterSendsNothing(outer);
    PassingSubscriptions(outer);
    PassingInnerValues(inner);
    FlatMapPassesEach(SignalNamed, outer, inner);
  }
}
