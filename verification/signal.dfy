/** `Signal` as an object: its observers and its generator's disposable
    (Sources/Fx/Reactive/Signal.swift, lines 3-53 and 180-182).

    An observer is named by a value of type `O` (a reference to the closure),
    and the disposable the generator returned by a value of type `D`. The
    generator itself runs exactly once, inside `init`; its only outcome that
    the signal keeps is that disposable, so `New` takes it as a parameter. The
    `sink` closure handed to the generator is `Put`. The send lock and the
    `Atomic` around the bag only serialise these transitions.
 */
module Signals {
  import opened Optionals
  import opened Traces
  import opened Bags
  import opened Disposables

  datatype Signal<O, D> = Signal(sinks: Bag<O>, tokens: Tokens, disposable: Serial<D>)

  /** The result of `observe`: the signal and the returned `ActionDisposable`,
      whose action removes the observer's token. */
  datatype Observed<O, D> = Observed(signal: Signal<O, D>, handle: ActionDisposable<TokenRef>)

  predicate ValidSignal<O, D>(s: Signal<O, D>)
  {
    Valid(s.sinks, s.tokens)
  }

  /** `init(generator:)`: the generator's disposable is installed. */
  function New<O, D>(generated: Option<D>): Signal<O, D>
  {
    Signal(Empty(), [], NewSerial(generated))
  }

  /** `pipe()`: the generator keeps the sink as `put` and returns nil. */
  function Pipe<O, D>(): Signal<O, D>
  {
    New(None)
  }

  /** `empty`: the generator drops the sink and returns nil, so nothing is ever sent. */
  function EmptySignal<O, D>(): Signal<O, D>
  {
    New(None)
  }

  /** A new signal has no observers and a valid bag, and holds the disposable its
      generator returned. */
  lemma NewSignalIsEmpty<O, D>(generated: Option<D>)
    ensures Values(New<O, D>(generated).sinks) == [] && ValidSignal(New<O, D>(generated))
    ensures New<O, D>(generated).disposable.inner == generated
  {
    EmptyValid<O>([]);
  }

  /** `pipe()` starts with no observers and nothing to dispose. */
  lemma PipeIsEmpty<O, D>()
    ensures Values(Pipe<O, D>().sinks) == [] && ValidSignal(Pipe<O, D>())
    ensures Pipe<O, D>().disposable.inner.None?
  {
    NewSignalIsEmpty<O, D>(None);
  }

  /** `empty` has no observers and nothing to dispose. */
  lemma EmptySignalIsEmpty<O, D>()
    ensures Values(EmptySignal<O, D>().sinks) == [] && ValidSignal(EmptySignal<O, D>())
    ensures EmptySignal<O, D>().disposable.inner.None?
  {
    NewSignalIsEmpty<O, D>(None);
  }

  /** The `sink` closure (what `put` calls): iterating the bag, it calls every
      registered observer with `v`. The result lists the calls in order. */
  function Put<O, D, A>(s: Signal<O, D>, v: A): (calls: seq<(O, A)>)
    ensures |calls| == |s.sinks.elements|
    ensures forall i :: 0 <= i < |calls| ==> calls[i] == (Values(s.sinks)[i], v)
  {
    IterationVisitsValues(s.sinks, StartIndex(s.sinks));
    Calls(Walk(s.sinks, StartIndex(s.sinks)), v)
  }

  /** A `put(v)` reaches observer `o` once for every registration of `o` in the bag. */
  lemma ReceivedPut<O, D, A>(s: Signal<O, D>, v: A, o: O)
    ensures Received(Put(s, v), o) == Repeat(v, Count(o, Values(s.sinks)))
  {
    assert Put(s, v) == Calls(Values(s.sinks), v);
    ReceivedCalls(Values(s.sinks), v, o);
  }

  /** `sink(_:)`: registers an observer for good. */
  function Sink<O, D>(s: Signal<O, D>, o: O): (r: Signal<O, D>)
    requires WellFormed(s.sinks, s.tokens) && |s.sinks.elements| < INT_MAX
    ensures Values(r.sinks) == Values(s.sinks) + [o]
    ensures ValidSignal(s) ==> ValidSignal(r)
    ensures r.disposable == s.disposable
    ensures s.sinks.currentIdentifier < UINT_MAX ==>
              var w := InsertAsWritten(s.sinks, s.tokens, o);
              r.sinks == w.bag && r.tokens == w.tokens
  {
    var ins := Insert(s.sinks, s.tokens, o);
    s.(sinks := ins.bag, tokens := ins.tokens)
  }

  /** `observe(_:)`: registers an observer and returns a disposable that unregisters it. */
  function Observe<O, D>(s: Signal<O, D>, o: O): (r: Observed<O, D>)
    requires WellFormed(s.sinks, s.tokens) && |s.sinks.elements| < INT_MAX
    ensures Values(r.signal.sinks) == Values(s.sinks) + [o]
    ensures ValidSignal(s) ==> ValidSignal(r.signal)
    ensures WellFormed(r.signal.sinks, r.signal.tokens) && |r.signal.tokens| == |s.tokens| + 1
    ensures r.handle.manual.action == Some(|s.tokens|)
    ensures r.signal.disposable == s.disposable
  {
    var ins := Insert(s.sinks, s.tokens, o);
    Observed(s.(sinks := ins.bag, tokens := ins.tokens), NewAction(ins.token))
  }

  /** While the bag's counter is below `UInt.max`, `observe` registers exactly as the
      as-written `Bag.insert` does: same bag, same tokens, and the handle names its token. */
  lemma ObserveAgreesWithSource<O, D>(s: Signal<O, D>, o: O)
    requires WellFormed(s.sinks, s.tokens) && |s.sinks.elements| < INT_MAX
    requires s.sinks.currentIdentifier < UINT_MAX
    ensures var w := InsertAsWritten(s.sinks, s.tokens, o);
            && Observe(s, o).signal.sinks == w.bag && Observe(s, o).signal.tokens == w.tokens
            && Observe(s, o).handle.manual.action == Some(w.token)
  {
  }

  /** Disposing an observation handle: the first time, its action removes the
      token from the bag; afterwards nothing happens. */
  function DisposeObservation<O, D>(s: Signal<O, D>, h: ActionDisposable<TokenRef>): (r: Observed<O, D>)
    requires h.manual.action.Some? ==> h.manual.action.value < |s.tokens|
    ensures r.handle.manual.action.None?
    ensures h.manual.action.None? ==> r.signal == s
    ensures h.manual.action.Some? ==>
      (r.signal.sinks, r.signal.tokens) == Remove(s.sinks, s.tokens, h.manual.action.value)
    ensures r.signal.disposable == s.disposable
  {
    var (h1, ran) := DisposeAction(h);
    if ran == [] then Observed(s, h1)
    else
      var (b, ts) := Remove(s.sinks, s.tokens, ran[0]);
      Observed(s.(sinks := b, tokens := ts), h1)
  }

  /** End of life: the signal's serial disposable disposes what the generator returned. */
  function DisposeSignal<O, D>(s: Signal<O, D>): (r: (Signal<O, D>, seq<D>))
    ensures r.0.disposable.inner.None?
    ensures r.1 == OptionToSeq(s.disposable.inner)
  {
    var (d, out) := DisposeSerial(s.disposable);
    (s.(disposable := d), out)
  }

  /** Observing each of `os` in turn: the signal and the handles, in order. */
  function ObserveAll<O, D>(s: Signal<O, D>, os: seq<O>): (r: (Signal<O, D>, seq<ActionDisposable<TokenRef>>))
    requires WellFormed(s.sinks, s.tokens) && |s.sinks.elements| + |os| < INT_MAX
    ensures Values(r.0.sinks) == Values(s.sinks) + os
    ensures ValidSignal(s) ==> ValidSignal(r.0)
    ensures WellFormed(r.0.sinks, r.0.tokens) && |r.0.tokens| == |s.tokens| + |os|
    ensures |r.1| == |os|
    ensures forall k :: 0 <= k < |os| ==> r.1[k].manual.action == Some(|s.tokens| + k)
  {
    if os == [] then (s, [])
    else
      var init := DropLast(os);
      var prev := ObserveAll(s, init);
      var ob := Observe(prev.0, Last(os));
      assert |init| == |os| - 1;
      ObserveAllStep(s, os, prev.0, prev.1, ob);
      (ob.signal, prev.1 + [ob.handle])
  }

  /** The inductive step of `ObserveAll`: one more observer and its handle. */
  lemma ObserveAllStep<O, D>(s: Signal<O, D>, os: seq<O>, prev: Signal<O, D>,
                             hs: seq<ActionDisposable<TokenRef>>, ob: Observed<O, D>)
    requires os != []
    requires Values(prev.sinks) == Values(s.sinks) + DropLast(os)
    requires |prev.tokens| == |s.tokens| + |os| - 1
    requires |hs| == |os| - 1
    requires forall k :: 0 <= k < |hs| ==> hs[k].manual.action == Some(|s.tokens| + k)
    requires Values(ob.signal.sinks) == Values(prev.sinks) + [Last(os)]
    requires ob.handle.manual.action == Some(|prev.tokens|)
    ensures Values(ob.signal.sinks) == Values(s.sinks) + os
    ensures forall k :: 0 <= k < |os| ==> (hs + [ob.handle])[k].manual.action == Some(|s.tokens| + k)
  {
    assert os == DropLast(os) + [Last(os)];
    forall k | 0 <= k < |os|
      ensures (hs + [ob.handle])[k].manual.action == Some(|s.tokens| + k)
    {
      if k < |os| - 1 {
        assert (hs + [ob.handle])[k] == hs[k];
      }
    }
  }

  /** Fan-out: after observers `os` subscribe to a pipe, `put(v)` calls each of them
      exactly once with `v`, in registration order. */
  lemma PipeDeliversInOrder<O, D, A>(os: seq<O>, v: A)
    requires |os| < INT_MAX
    ensures var s := ObserveAll(Pipe<O, D>(), os).0;
            && |Put(s, v)| == |os|
            && forall i :: 0 <= i < |os| ==> Put(s, v)[i] == (os[i], v)
  {
    var p := Pipe<O, D>();
    var s := ObserveAll(p, os).0;
    assert Values(s.sinks) == [] + os;
    assert Values(s.sinks) == os;
    var calls := Put(s, v);
    assert forall i :: 0 <= i < |os| ==> calls[i] == (os[i], v);
  }

  /** Disposing the handle `observe` returned removes exactly that observer: every
      other observer keeps receiving values, in the same order, and disposing the
      handle again changes nothing. */
  lemma DisposeObservationRemovesOnlyIt<O, D, A>(s: Signal<O, D>, o: O, v: A)
    requires ValidSignal(s) && |s.sinks.elements| < INT_MAX
    ensures var ob := Observe(s, o);
            var d := DisposeObservation(ob.signal, ob.handle);
            && Put(d.signal, v) == Put(s, v)
            && ValidSignal(d.signal)
            && DisposeObservation(d.signal, d.handle).signal == d.signal
  {
    InsertRemoveRoundTrip(s.sinks, s.tokens, o);
    var ob := Observe(s, o);
    var d := DisposeObservation(ob.signal, ob.handle);
    PutSeesOnlyValues(d.signal, s, v);
  }

  /** `put` depends on the registered observers alone, not on tokens or identifiers. */
  lemma PutSeesOnlyValues<O, D, A>(s1: Signal<O, D>, s2: Signal<O, D>, v: A)
    requires Values(s1.sinks) == Values(s2.sinks)
    ensures Put(s1, v) == Put(s2, v)
  {
  }

  /** Disposing the handle of the observer at position `i` of a valid signal
      removes position `i` and nothing else. */
  lemma DisposeObservationAt<O, D, A>(s: Signal<O, D>, i: nat, v: A)
    requires ValidSignal(s) && i < |s.sinks.elements|
    ensures var h := NewAction(s.sinks.elements[i].token);
            var d := DisposeObservation(s, h);
            && Values(d.signal.sinks) == Values(s.sinks)[..i] + Values(s.sinks)[i + 1..]
            && ValidSignal(d.signal)
            && |Put(d.signal, v)| == |Put(s, v)| - 1
  {
    RemoveLiveToken(s.sinks, s.tokens, i);
    RemoveKeepsValid(s.sinks, s.tokens, s.sinks.elements[i].token);
  }
}
