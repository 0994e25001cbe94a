/** `Property` and `MutableProperty` (Source/Reactive/Property.swift).

    A property pairs a value read through its getter with a signal of changes.
    `PropertyState` is what an observer can see of a property built with
    `Property(value:signal:)`: the value the getter reads and the trace its
    signal has sent. The operators are modelled on the trace of values that
    their upstream signals send after the property is created; a
    `MutableProperty` is modelled on top of the `Signals` machine.
 */
module Properties {
  import opened Optionals
  import opened Traces
  import opened Bags
  import opened Disposables
  import opened Signals
  import SignalOps
  import Distinct

  datatype PropertyState<A> = PropertyState(value: A, sent: seq<A>)

  /** The observer `Property(value:signal:)` puts on the wrapped signal: store, then send. */
  function StoreStep<A>(p: PropertyState<A>, x: A): PropertyState<A>
  {
    PropertyState(x, p.sent + [x])
  }

  /** `Property(value: initial, signal: s)` after `s` has sent `xs`. */
  function Wrap<A>(initial: A, xs: seq<A>): PropertyState<A>
  {
    if xs == [] then PropertyState(initial, []) else StoreStep(Wrap(initial, DropLast(xs)), Last(xs))
  }

  /** The getter reads the initial value until the wrapped signal sends, then the
      last value sent; the property's own signal forwards every value. */
  lemma {:induction false} WrapReadsLatest<A>(initial: A, xs: seq<A>)
    ensures Wrap(initial, xs).value == (if xs == [] then initial else Last(xs))
    ensures Wrap(initial, xs).sent == xs
  {
    if xs != [] {
      WrapReadsLatest(initial, DropLast(xs));
    }
  }

  // ---- MutableProperty ----

  /** The captured `value` variable and the pipe's signal. */
  datatype Mutable<O, D, A> = Mutable(value: A, signal: Signal<O, D>)

  /** `MutableProperty(initialValue)`. */
  function NewMutable<O, D, A>(initial: A): Mutable<O, D, A>
  {
    Mutable(initial, Pipe())
  }

  /** A new mutable property holds the initial value over a pipe with no observers. */
  lemma NewMutableIsEmpty<O, D, A>(initial: A)
    ensures NewMutable<O, D, A>(initial).value == initial
    ensures Values(NewMutable<O, D, A>(initial).signal.sinks) == []
    ensures ValidSignal(NewMutable<O, D, A>(initial).signal)
  {
    PipeIsEmpty<O, D>();
  }

  /** The setter: stores the new value, then puts it into the pipe, so every observer
      called during the push reads the new value. Returns the observer calls. */
  function Set<O, D, A>(m: Mutable<O, D, A>, v: A): (r: (Mutable<O, D, A>, seq<(O, A)>))
    ensures r.0.value == v && r.0.signal == m.signal
    ensures |r.1| == |m.signal.sinks.elements|
  {
    var m1 := m.(value := v);
    (m1, Put(m1.signal, v))
  }

  /** Setting a value reaches each observer once per registration, with the new value. */
  lemma SetReachesObservers<O, D, A>(m: Mutable<O, D, A>, v: A, o: O)
    ensures Received(Set(m, v).1, o) == Repeat(v, Count(o, Values(m.signal.sinks)))
  {
    ReceivedPut(m.signal, v, o);
  }

  /** Setting each of `vs` in turn: the final state and all observer calls. */
  function SetAll<O, D, A>(m: Mutable<O, D, A>, vs: seq<A>): (r: (Mutable<O, D, A>, seq<(O, A)>))
    ensures r.0.signal == m.signal
    ensures r.0.value == (if vs == [] then m.value else Last(vs))
  {
    if vs == [] then (m, [])
    else
      var prev := SetAll(m, DropLast(vs));
      var next := Set(prev.0, Last(vs));
      (next.0, prev.1 + next.1)
  }

  /** An observer registered once receives every value set afterwards, in order. */
  lemma {:induction false} SetAllReachesObserver<O, D, A>(m: Mutable<O, D, A>, vs: seq<A>, o: O)
    requires Count(o, Values(m.signal.sinks)) == 1
    ensures Received(SetAll(m, vs).1, o) == vs
  {
    if vs != [] {
      SetAllReachesObserver(m, DropLast(vs), o);
      SetAllStep(m, vs, o);
    }
  }

  /** The inductive step of `SetAllReachesObserver`: one more value set. */
  lemma SetAllStep<O, D, A>(m: Mutable<O, D, A>, vs: seq<A>, o: O)
    requires vs != [] && Count(o, Values(m.signal.sinks)) == 1
    requires Received(SetAll(m, DropLast(vs)).1, o) == DropLast(vs)
    ensures Received(SetAll(m, vs).1, o) == vs
  {
    var prev := SetAll(m, DropLast(vs));
    var next := Set(prev.0, Last(vs));
    SetReachesObservers(prev.0, Last(vs), o);
    RepeatOne(Last(vs));
    ReceivedAppend(prev.1, next.1, o);
    DropLastThenLast(vs);
  }

  /** `modify(f)`: `modify(&value, f)` through the computed `value`, so it reads the
      current value and sets `f` of it through the setter. */
  function Modify<O, D, A>(m: Mutable<O, D, A>, f: A -> A): (r: (Mutable<O, D, A>, seq<(O, A)>))
    ensures r.0.value == f(m.value) && r.0.signal == m.signal
  {
    Set(m, f(m.value))
  }

  /** `modify(f)` pushes the modified value to each observer once per registration. */
  lemma ModifyReachesObservers<O, D, A>(m: Mutable<O, D, A>, f: A -> A, o: O)
    ensures Received(Modify(m, f).1, o) == Repeat(f(m.value), Count(o, Values(m.signal.sinks)))
  {
    SetReachesObservers(m, f(m.value), o);
  }

  /** `observe(sink)` on a property: calls `sink(value)` at once, then observes the signal. */
  function ObserveProperty<O, D, A>(m: Mutable<O, D, A>, o: O): (r: (Mutable<O, D, A>, ActionDisposable<TokenRef>, seq<(O, A)>))
    requires WellFormed(m.signal.sinks, m.signal.tokens) && |m.signal.sinks.elements| < INT_MAX
    ensures r.2 == [(o, m.value)] && r.0.value == m.value
    ensures Values(r.0.signal.sinks) == Values(m.signal.sinks) + [o]
    ensures ValidSignal(m.signal) ==> ValidSignal(r.0.signal)
  {
    var first := [(o, m.value)];
    var ob := Observe(m.signal, o);
    (m.(signal := ob.signal), ob.handle, first)
  }

  /** Observing a property delivers its current value once, then every later change,
      with nothing missed in between. */
  lemma ObserveSeesValueThenChanges<O, D, A>(m: Mutable<O, D, A>, o: O, vs: seq<A>)
    requires WellFormed(m.signal.sinks, m.signal.tokens) && |m.signal.sinks.elements| < INT_MAX
    requires o !in Values(m.signal.sinks)
    ensures var (m1, _, first) := ObserveProperty(m, o);
            var (m2, later) := SetAll(m1, vs);
            && Received(first + later, o) == [m.value] + vs
            && m2.value == (if vs == [] then m.value else Last(vs))
  {
    var (m1, _, first) := ObserveProperty(m, o);
    assert Count(o, Values(m1.signal.sinks)) == 1 by {
      assert multiset(Values(m.signal.sinks))[o] == 0;
    }
    SetAllReachesObserver(m1, vs, o);
    ReceivedAppend(first, SetAll(m1, vs).1, o);
    assert Received(first, o) == [m.value] by {
      assert DropLast(first) == [];
    }
  }

  // ---- bind ----

  /** An event of a binding: the bound signal sends a value, or the returned disposable is disposed. */
  datatype BindEvent<A> = Sends(v: A) | Unbind

  datatype Binding<A> = Binding(value: A, bound: bool, sent: seq<A>)

  /** `bind(s)` observes `s` with the setter; disposing the handle removes that observer. */
  function BindStep<A>(b: Binding<A>, e: BindEvent<A>): Binding<A>
  {
    match e
    case Sends(v) => if b.bound then Binding(v, true, b.sent + [v]) else b
    case Unbind => b.(bound := false)
  }

  function BindRun<A>(initial: A, es: seq<BindEvent<A>>): Binding<A>
  {
    if es == [] then Binding(initial, true, []) else BindStep(BindRun(initial, DropLast(es)), Last(es))
  }

  predicate HasUnbind<A>(es: seq<BindEvent<A>>)
  {
    exists i :: 0 <= i < |es| && es[i].Unbind?
  }

  /** The values the bound signal sent before the handle was first disposed. */
  function SentWhileBound<A>(es: seq<BindEvent<A>>): seq<A>
  {
    if es == [] || es[0].Unbind? then [] else [es[0].v] + SentWhileBound(es[1..])
  }

  /** An `Unbind` occurs in `es + [e]` iff it occurs in `es` or `e` is one. */
  lemma HasUnbindSnoc<A>(es: seq<BindEvent<A>>, e: BindEvent<A>)
    ensures HasUnbind(es + [e]) <==> HasUnbind(es) || e.Unbind?
  {
    var xs := es + [e];
    if HasUnbind(xs) && !e.Unbind? {
      var i :| 0 <= i < |xs| && xs[i].Unbind?;
      assert i != |es|;
      assert es[i].Unbind?;
    }
    if HasUnbind(es) {
      var i :| 0 <= i < |es| && es[i].Unbind?;
      assert xs[i].Unbind?;
    }
    if e.Unbind? {
      assert xs[|es|].Unbind?;
    }
  }

  /** An `Unbind` occurs in a non-empty `es` iff it is the head or occurs in the tail. */
  lemma HasUnbindCons<A>(es: seq<BindEvent<A>>)
    requires es != []
    ensures HasUnbind(es) <==> es[0].Unbind? || HasUnbind(es[1..])
  {
    if HasUnbind(es) && !es[0].Unbind? {
      var i :| 0 <= i < |es| && es[i].Unbind?;
      assert i != 0;
      assert es[1..][i - 1].Unbind?;
    }
    if HasUnbind(es[1..]) {
      var i :| 0 <= i < |es[1..]| && es[1..][i].Unbind?;
      assert es[i + 1].Unbind?;
    }
    if es[0].Unbind? {
      assert es[0].Unbind?;
    }
  }

  lemma {:induction false} SentWhileBoundSnoc<A>(es: seq<BindEvent<A>>, e: BindEvent<A>)
    ensures SentWhileBound(es + [e]) ==
      if HasUnbind(es) then SentWhileBound(es) else SentWhileBound(es) + (if e.Sends? then [e.v] else [])
  {
    if es != [] {
      assert (es + [e])[1..] == es[1..] + [e];
      SentWhileBoundSnoc(es[1..], e);
      HasUnbindCons(es);
    } else {
      assert [e][1..] == [];
    }
  }

  /** Each value the bound signal sends becomes the property's value and is re-sent,
      until the handle is disposed; from then on the value stays pinned. */
  lemma {:induction false} BindFollowsUntilDisposed<A>(initial: A, es: seq<BindEvent<A>>)
    ensures BindRun(initial, es).bound == !HasUnbind(es)
    ensures BindRun(initial, es).sent == SentWhileBound(es)
    ensures BindRun(initial, es).value == (if SentWhileBound(es) == [] then initial else Last(SentWhileBound(es)))
  {
    if es != [] {
      var init, e := DropLast(es), Last(es);
      BindFollowsUntilDisposed(initial, init);
      SentWhileBoundSnoc(init, e);
      HasUnbindSnoc(init, e);
      assert es == init + [e];
    }
  }

  // ---- map ----

  /** `map(f)`: `Property(value: f(value), signal: signal.map(f))`, for a source whose
      value is `initial` when the map is made and whose signal then sends `xs`. */
  function MapProperty<A, B>(f: A -> B, initial: A, xs: seq<A>): PropertyState<B>
  {
    Wrap(f(initial), SignalOps.Map(f, xs))
  }

  /** A mapped property always reads `f` of the source's value and sends `f(x)` per change. */
  lemma MapPropertyTracksSource<A, B>(f: A -> B, initial: A, xs: seq<A>)
    ensures MapProperty(f, initial, xs).value == f(Wrap(initial, xs).value)
    ensures MapProperty(f, initial, xs).sent == SignalOps.Map(f, xs)
  {
    WrapReadsLatest(initial, xs);
    WrapReadsLatest(f(initial), SignalOps.Map(f, xs));
  }

  function Double(x: int): int
  {
    x * 2
  }

  /** The mapping test: a property starting at 0 and set to 1, ..., 9, mapped by doubling
      and observed, delivers 0, 2, ..., 18. */
  lemma MapPropertyDoubles(xs: seq<int>)
    requires xs == [1, 2, 3, 4, 5, 6, 7, 8, 9]
    ensures [MapProperty(Double, 0, []).value] + MapProperty(Double, 0, xs).sent
         == [0, 2, 4, 6, 8, 10, 12, 14, 16, 18]
  {
    MapPropertyTracksSource(Double, 0, xs);
    MapPropertyTracksSource(Double, 0, []);
    var ys := SignalOps.Map(Double, xs);
    assert ys == [2, 4, 6, 8, 10, 12, 14, 16, 18] by {
      assert |ys| == 9;
      assert ys[0] == 2 && ys[1] == 4 && ys[2] == 6 && ys[3] == 8 && ys[4] == 10;
      assert ys[5] == 12 && ys[6] == 14 && ys[7] == 16 && ys[8] == 18;
    }
  }

  // ---- flatMap ----

  /** What `flatMap(f)` hears: the source sends `x` (`Outer`), or inner property number
      `k` sends `y` (`Inner`). Inner 0 is `f` of the source's value when `flatMap` is
      called; inner `k > 0` is `f` of the `k`-th value the source sent. */
  datatype Switch<A, B> = Outer(x: A) | Inner(k: nat, y: B)

  /** The number of values the source has sent. */
  function Outers<A, B>(es: seq<Switch<A, B>>): nat
  {
    if es == [] then 0 else Outers(DropLast(es)) + (if Last(es).Outer? then 1 else 0)
  }

  /** One event, with the number of the inner property currently observed. A source
      value observes the new inner property, whose `observe` sends its current value at
      once, and the serial disposable drops the previous subscription; an inner value
      is forwarded only from the current subscription. `f(x)` stands for the value the
      new inner property holds when it is observed. */
  function FlatMapStep<A, B>(f: A -> B, current: nat, e: Switch<A, B>): (nat, seq<B>)
  {
    match e
    case Outer(x) => (current + 1, [f(x)])
    case Inner(k, y) => (current, if k == current then [y] else [])
  }

  function FlatMapRun<A, B>(f: A -> B, es: seq<Switch<A, B>>): (nat, seq<B>)
  {
    if es == [] then (0, [])
    else
      var prev := FlatMapRun(f, DropLast(es));
      var next := FlatMapStep(f, prev.0, Last(es));
      (next.0, prev.1 + next.1)
  }

  /** `flatMap(f)` on a property whose value is `initial` when it is made: it starts at
      the value of `f(initial)` and stores whatever its signal sends. */
  function FlatMapProperty<A, B>(f: A -> B, initial: A, es: seq<Switch<A, B>>): PropertyState<B>
  {
    Wrap(f(initial), FlatMapRun(f, es).1)
  }

  /** The subscription kept is always to the inner property of the latest source value. */
  lemma {:induction false} FlatMapFollowsLatest<A, B>(f: A -> B, es: seq<Switch<A, B>>)
    ensures FlatMapRun(f, es).0 == Outers(es)
  {
    if es != [] {
      FlatMapFollowsLatest(f, DropLast(es));
    }
  }

  /** A source value sends the new inner property's value; an inner value is sent iff it
      comes from the inner property of the latest source value, so values from replaced
      inner properties never get through. */
  lemma FlatMapSwitches<A, B>(f: A -> B, es: seq<Switch<A, B>>, e: Switch<A, B>)
    ensures FlatMapRun(f, es + [e]).1 == FlatMapRun(f, es).1 +
              (match e
               case Outer(x) => [f(x)]
               case Inner(k, y) => if k == Outers(es) then [y] else [])
  {
    DropLastSnoc(es, e);
    FlatMapFollowsLatest(f, es);
  }

  /** The flat-mapped property reads the value of the current inner property: the last
      value sent, or `f(initial)`'s value before anything is sent. */
  lemma FlatMapPropertyReadsInner<A, B>(f: A -> B, initial: A, es: seq<Switch<A, B>>, x: A)
    ensures FlatMapProperty(f, initial, es).sent == FlatMapRun(f, es).1
    ensures FlatMapProperty(f, initial, es).value == LastOr(f(initial), FlatMapRun(f, es).1)
    ensures FlatMapProperty(f, initial, es + [Outer(x)]).value == f(x)
  {
    WrapReadsLatest(f(initial), FlatMapRun(f, es).1);
    FlatMapSwitches(f, es, Outer(x));
    WrapReadsLatest(f(initial), FlatMapRun(f, es + [Outer(x)]).1);
  }

  // ---- mapCombine ----

  /** The two observers of `mapCombine`: store the new value of one side, then send
      `f` of it and the other side's captured value. */
  function MapCombineStep<A, B, C>(f: (A, B) -> C, st: (A, B), e: Either<A, B>): ((A, B), C)
  {
    match e
    case Left(x) => ((x, st.1), f(x, st.1))
    case Right(y) => ((st.0, y), f(st.0, y))
  }

  function MapCombineRun<A, B, C>(f: (A, B) -> C, a: A, b: B, es: seq<Either<A, B>>): ((A, B), seq<C>)
  {
    if es == [] then ((a, b), [])
    else
      var (st, out) := MapCombineRun(f, a, b, DropLast(es));
      var (st1, c) := MapCombineStep(f, st, Last(es));
      (st1, out + [c])
  }

  /** The last value of a trace, or `d` if it is empty. */
  function LastOr<T>(d: T, xs: seq<T>): T
  {
    if xs == [] then d else Last(xs)
  }

  /** `mapCombine(other, f)`: starts at `f(a, b)` of both current values. */
  function MapCombine<A, B, C>(f: (A, B) -> C, a: A, b: B, es: seq<Either<A, B>>): PropertyState<C>
  {
    Wrap(f(a, b), MapCombineRun(f, a, b, es).1)
  }

  /** After the events `es`, the captured pair holds both sides' latest values. */
  lemma {:induction false} MapCombineKeepsLatest<A, B, C>(f: (A, B) -> C, a: A, b: B, es: seq<Either<A, B>>)
    ensures MapCombineRun(f, a, b, es).0 == (LastOr(a, Lefts(es)), LastOr(b, Rights(es)))
    ensures |MapCombineRun(f, a, b, es).1| == |es|
  {
    if es != [] {
      MapCombineKeepsLatest(f, a, b, DropLast(es));
    }
  }

  /** A change on either side sends `f` of the new value and the other side's latest:
      the `i`-th value sent is `f` of both sides' latest values after event `i`. */
  lemma {:induction false} MapCombineSendsLatest<A, B, C>(f: (A, B) -> C, a: A, b: B, es: seq<Either<A, B>>)
    ensures |MapCombineRun(f, a, b, es).1| == |es|
    ensures forall i :: 0 <= i < |es| ==>
      MapCombineRun(f, a, b, es).1[i] == f(LastOr(a, Lefts(es[..i + 1])), LastOr(b, Rights(es[..i + 1])))
  {
    MapCombineKeepsLatest(f, a, b, es);
    if es != [] {
      var init := DropLast(es);
      MapCombineSendsLatest(f, a, b, init);
      MapCombineKeepsLatest(f, a, b, init);
      var out := MapCombineRun(f, a, b, es).1;
      assert out[..|init|] == MapCombineRun(f, a, b, init).1;
      forall i | 0 <= i < |es|
        ensures out[i] == f(LastOr(a, Lefts(es[..i + 1])), LastOr(b, Rights(es[..i + 1])))
      {
        if i < |init| {
          assert es[..i + 1] == init[..i + 1];
          assert out[i] == MapCombineRun(f, a, b, init).1[i];
        } else {
          assert es[..i + 1] == es;
        }
      }
    }
  }

  /** The combined property always reads `f` of both sides' latest values. */
  lemma MapCombineReadsBoth<A, B, C>(f: (A, B) -> C, a: A, b: B, es: seq<Either<A, B>>)
    ensures MapCombine(f, a, b, es).value == f(LastOr(a, Lefts(es)), LastOr(b, Rights(es)))
  {
    MapCombineSendsLatest(f, a, b, es);
    WrapReadsLatest(f(a, b), MapCombineRun(f, a, b, es).1);
    if es != [] {
      assert es[..|es|] == es;
    }
  }

  /** `combine(other)`: `mapCombine` with the pairing closure. */
  function Pair<A, B>(x: A, y: B): (A, B)
  {
    (x, y)
  }

  /** `flatCombine(other)`: `mapCombine` with the closure that flattens a pair and a value. */
  function Flatten3<B, C, D>(xy: (B, C), z: D): (B, C, D)
  {
    (xy.0, xy.1, z)
  }

  /** `combine` reads the pair of both sides' latest values and sends one pair per change. */
  lemma CombinePairsLatest<A, B>(a: A, b: B, es: seq<Either<A, B>>)
    ensures MapCombine(Pair, a, b, es).value == (LastOr(a, Lefts(es)), LastOr(b, Rights(es)))
    ensures |MapCombine(Pair, a, b, es).sent| == |es|
  {
    MapCombineReadsBoth(Pair, a, b, es);
    MapCombineKeepsLatest(Pair, a, b, es);
    WrapReadsLatest(Pair(a, b), MapCombineRun(Pair, a, b, es).1);
  }

  /** `flatCombine` reads the triple made of the latest pair on the left and the latest
      value on the right. */
  lemma FlatCombineFlattens<B, C, D>(bc: (B, C), d: D, es: seq<Either<(B, C), D>>)
    ensures var l := LastOr(bc, Lefts(es));
            MapCombine(Flatten3, bc, d, es).value == (l.0, l.1, LastOr(d, Rights(es)))
  {
    MapCombineReadsBoth(Flatten3, bc, d, es);
  }

  // ---- distinctUntilChanged ----

  /** `distinctUntilChanged()` on a property whose value is `initial` when it is made:
      the captured `lastValue` is seeded with `initial`. */
  function DistinctProperty<A(==)>(initial: A, xs: seq<A>): PropertyState<A>
  {
    Wrap(initial, Distinct.DistinctFrom(Some(initial), xs).1)
  }

  /** The distinct property reads the same value as its source, and sends only values
      that differ from the last one sent (the first differs from `initial`). */
  lemma DistinctPropertyAgreesWithSource<A>(initial: A, xs: seq<A>)
    ensures DistinctProperty(initial, xs).value == Wrap(initial, xs).value
    ensures var out := DistinctProperty(initial, xs).sent;
            && (forall i :: 0 < i < |out| ==> out[i - 1] != out[i])
            && (out != [] ==> out[0] != initial)
  {
    var out := Distinct.DistinctFrom(Some(initial), xs).1;
    Distinct.DistinctRemembersLastInput(Some(initial), xs);
    Distinct.DistinctRemembersLastForwarded(Some(initial), xs);
    Distinct.DistinctNoAdjacentRepeats(Some(initial), xs);
    WrapReadsLatest(initial, xs);
    WrapReadsLatest(initial, out);
  }

  // ---- distinctOptional ----

  /** What `distinctOptional` has sent: on the outer signal, `Some(v)` for a new inner
      property starting at `v` and `None` for nil; and the values set on inner properties. */
  datatype OptionalSplit<A> = OptionalSplit(state: Option<A>, outer: seq<Option<A>>, inner: seq<A>)

  /** The observer of `distinctOptional`. `state` is the current inner property's value,
      `None` when there is none. */
  function SplitStep<A>(s: OptionalSplit<A>, x: Option<A>): OptionalSplit<A>
  {
    match x
    case Some(v) =>
      if s.state.Some? then OptionalSplit(Some(v), s.outer, s.inner + [v])
      else OptionalSplit(Some(v), s.outer + [Some(v)], s.inner)
    case None =>
      if s.state.Some? then OptionalSplit(None, s.outer + [None], s.inner) else s
  }

  function SplitRun<A>(initial: Option<A>, xs: seq<Option<A>>): OptionalSplit<A>
  {
    if xs == [] then OptionalSplit(initial, [], []) else SplitStep(SplitRun(initial, DropLast(xs)), Last(xs))
  }

  function IsSome<A>(o: Option<A>): bool
  {
    o.Some?
  }

  /** The outer property changes only on a `some`/`none` transition: the cases of its
      emissions are exactly the case changes of the input, and the inner property
      always holds the latest value. */
  lemma {:induction false} DistinctOptionalSwitchesOnCase<A>(initial: Option<A>, xs: seq<Option<A>>)
    ensures SplitRun(initial, xs).state == (if xs == [] then initial else Last(xs))
    ensures SignalOps.Map(IsSome, SplitRun(initial, xs).outer)
         == Distinct.DistinctFrom(Some(initial.Some?), SignalOps.Map(IsSome, xs)).1
    ensures |SplitRun(initial, xs).outer| + |SplitRun(initial, xs).inner| <= |xs|
  {
    if xs != [] {
      var init, x := DropLast(xs), Last(xs);
      var seed := Some(initial.Some?);
      DistinctOptionalSwitchesOnCase(initial, init);
      var s := SplitRun(initial, init);
      var cases0 := SignalOps.Map(IsSome, init);
      assert SignalOps.Map(IsSome, xs) == cases0 + [IsSome(x)] by {
        assert xs == init + [x];
      }
      Distinct.DistinctRemembersLastInput(seed, cases0);
      assert Distinct.DistinctFrom(seed, cases0).0 == Some(IsSome(s.state)) by {
        if init != [] {
          assert Last(cases0) == cases0[|init| - 1];
        }
      }
      DistinctFromSnoc(seed, cases0, IsSome(x));
      SplitStepCases(s, x);
      MapIsSomeSnoc(s.outer, x);
    }
  }

  /** The values a run of `some` inputs sets on its inner property, read left to right:
      each `some` input whose predecessor (`prev` for the first) is also `some`. */
  function Continuations<A>(prev: Option<A>, xs: seq<Option<A>>): seq<A>
    decreases |xs|
  {
    if xs == [] then []
    else (if prev.Some? && xs[0].Some? then [xs[0].value] else []) + Continuations(xs[0], xs[1..])
  }

  /** Successive `some` values become one stream: the inner values are exactly the
      `some` inputs that continue a `some` run rather than start one. */
  lemma {:induction false} DistinctOptionalInnerContinuesRuns<A>(initial: Option<A>, xs: seq<Option<A>>)
    ensures SplitRun(initial, xs).inner == Continuations(initial, xs)
  {
    if xs != [] {
      var init, x := DropLast(xs), Last(xs);
      DistinctOptionalInnerContinuesRuns(initial, init);
      DistinctOptionalSwitchesOnCase(initial, init);
      ContinuationsSnoc(initial, init, x);
      assert init + [x] == xs;
    }
  }

  lemma {:induction false} ContinuationsSnoc<A>(prev: Option<A>, xs: seq<Option<A>>, x: Option<A>)
    ensures Continuations(prev, xs + [x])
         == Continuations(prev, xs)
            + (if (if xs == [] then prev else Last(xs)).Some? && x.Some? then [x.value] else [])
    decreases |xs|
  {
    if xs == [] {
      assert [x][1..] == [];
    } else {
      assert (xs + [x])[0] == xs[0];
      assert (xs + [x])[1..] == xs[1..] + [x];
      ContinuationsSnoc(xs[0], xs[1..], x);
      if |xs| > 1 {
        assert Last(xs[1..]) == Last(xs);
      }
    }
  }

  /** One more input of `distinctOptional`: the state becomes the input, and the
      outer property emits exactly when the case changes. */
  lemma SplitStepCases<A>(s: OptionalSplit<A>, x: Option<A>)
    ensures SplitStep(s, x).state == x
    ensures SplitStep(s, x).outer == s.outer + (if IsSome(x) != IsSome(s.state) then [x] else [])
    ensures |SplitStep(s, x).outer| + |SplitStep(s, x).inner| <= |s.outer| + |s.inner| + 1
  {
  }

  lemma MapIsSomeSnoc<A>(os: seq<Option<A>>, x: Option<A>)
    ensures SignalOps.Map(IsSome, os + [x]) == SignalOps.Map(IsSome, os) + [IsSome(x)]
    ensures SignalOps.Map(IsSome, os + []) == SignalOps.Map(IsSome, os)
  {
    assert os + [] == os;
  }

  /** One more input of `distinctUntilChanged` from a known last value. */
  lemma DistinctFromSnoc<A>(seed: Option<A>, xs: seq<A>, x: A)
    ensures Distinct.DistinctFrom(seed, xs + [x]).1
         == Distinct.DistinctFrom(seed, xs).1
            + (if Distinct.DistinctFrom(seed, xs).0 == Some(x) then [] else [x])
  {
    assert DropLast(xs + [x]) == xs && Last(xs + [x]) == x;
  }

  // ---- const, fold, all ----

  /** `Property.const(v)`: the value `v` with `Signal.empty`, which never sends. */
  function Const<A>(v: A): (p: PropertyState<A>)
    ensures p.value == v && p.sent == []
    ensures p == Wrap(v, [])
  {
    PropertyState(v, [])
  }

  /** The current value of `fold(zero, f)`: `reduce` from `const(zero)` where each step is
      `result.flatMap { r in element.map { e in f(r, e) } }`, whose value is `f` of both values. */
  function FoldValue<R, A>(zero: R, f: (R, A) -> R, values: seq<A>): R
  {
    if values == [] then Const(zero).value else f(FoldValue(zero, f, DropLast(values)), Last(values))
  }

  /** The combining closure of `all()`: `$0 + [$1]`. */
  function AppendElement<A>(acc: seq<A>, x: A): seq<A>
  {
    acc + [x]
  }

  /** `all()`: `fold([], AppendElement)` reads the elements' current values, in sequence order. */
  lemma {:induction false} AllCollectsValues<A>(values: seq<A>)
    ensures FoldValue([], AppendElement, values) == values
  {
    if values != [] {
      AllCollectsValues(DropLast(values));
      DropLastThenLast(values);
    }
  }
}
