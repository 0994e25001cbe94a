/** The `Disposable` family (Source/Reactive/Disposable.swift).

    Each disposable is a small state machine. Disposing returns the next state
    together with its effects, in the order they happen:
    - `ManualDisposable` and `ActionDisposable` name their action by a value of
      `A`; the effect list holds the actions run;
    - `CompositeDisposable` and `SerialDisposable` hold children of type `D`
      (references to other disposables); the effect list holds the children on
      which `dispose()` is called.
    The `Atomic` wrappers only make these transitions atomic, and end of life
    (`deinit`) is modelled as one more explicit `dispose` call.
 */
module Disposables {
  import opened Optionals
  import opened Traces
  import opened Bags

  // ---- ManualDisposable ----

  /** The pending action, or `None` once it has been swapped out. */
  datatype Manual<A> = Manual(action: Option<A>)

  /** `ManualDisposable(action:)`. */
  function NewManual<A>(a: A): (d: Manual<A>)
    ensures d.action == Some(a)
  {
    Manual(Some(a))
  }

  /** `dispose()`: swaps the action with nil and runs the old one, if any. */
  function DisposeManual<A>(d: Manual<A>): (r: (Manual<A>, seq<A>))
    ensures r.0.action.None?
    ensures r.1 == [] <==> d.action.None?
    ensures d.action.Some? ==> r.1 == [d.action.value]
  {
    match d.action
    case None => (Manual(None), [])
    case Some(a) => (Manual(None), [a])
  }

  /** `n` consecutive `dispose()` calls: the final state and every action run. */
  function DisposeManualTimes<A>(d: Manual<A>, n: nat): (Manual<A>, seq<A>)
    decreases n
  {
    if n == 0 then (d, [])
    else
      var (d1, ran) := DisposeManual(d);
      var (d2, more) := DisposeManualTimes(d1, n - 1);
      (d2, ran + more)
  }

  /** The action runs at most once however often `dispose()` is called. */
  lemma {:induction false} ManualRunsAtMostOnce<A>(d: Manual<A>, n: nat)
    ensures DisposeManualTimes(d, n).1 == (if n > 0 && d.action.Some? then [d.action.value] else [])
    decreases n
  {
    if n > 1 {
      ManualRunsAtMostOnce(DisposeManual(d).0, n - 1);
    }
  }

  // ---- ActionDisposable ----

  /** An `ActionDisposable` owns a `ManualDisposable` and disposes it at end of life. */
  datatype ActionDisposable<A> = ActionDisposable(manual: Manual<A>)

  /** `ActionDisposable(action:)`. */
  function NewAction<A>(a: A): (d: ActionDisposable<A>)
    ensures d.manual.action == Some(a)
  {
    ActionDisposable(NewManual(a))
  }

  /** `dispose()` delegates to the inner manual disposable. */
  function DisposeAction<A>(d: ActionDisposable<A>): (r: (ActionDisposable<A>, seq<A>))
    ensures r.0.manual.action.None?
    ensures (r.0.manual, r.1) == DisposeManual(d.manual)
  {
    var (m, ran) := DisposeManual(d.manual);
    (ActionDisposable(m), ran)
  }

  /** A whole lifetime: `explicit` calls of `dispose()`, then `deinit`, which disposes once more. */
  function Lifetime<A>(d: ActionDisposable<A>, explicit: nat): seq<A>
  {
    var (m, ran) := DisposeManualTimes(d.manual, explicit);
    ran + DisposeAction(ActionDisposable(m)).1
  }

  /** The action of a new `ActionDisposable` runs exactly once over its lifetime,
      whether or not it was disposed explicitly before `deinit`. */
  lemma ActionRunsExactlyOnce<A>(a: A, explicit: nat)
    ensures Lifetime(NewAction(a), explicit) == [a]
  {
    ManualRunsAtMostOnce(NewManual(a), explicit);
    if explicit > 0 {
      ManualTimesClears(NewManual(a), explicit);
    }
  }

  lemma {:induction false} ManualTimesClears<A>(d: Manual<A>, n: nat)
    requires n > 0
    ensures DisposeManualTimes(d, n).0.action.None?
    decreases n
  {
    if n > 1 {
      ManualTimesClears(DisposeManual(d).0, n - 1);
    }
  }

  // ---- CompositeDisposable ----

  /** The children, held in a `Bag`. */
  datatype Composite<D> = Composite(disposables: Bag<D>)

  /** The result of `addDisposable`: the composite, the token heap and the detaching handle,
      a `ManualDisposable` whose action removes the child's token. */
  datatype Added<D> = Added(composite: Composite<D>, tokens: Tokens, handle: Manual<TokenRef>)

  predicate ValidComposite<D>(c: Composite<D>, ts: Tokens)
  {
    Valid(c.disposables, ts)
  }

  /** `init(_ disposables:)`: inserts the given children in sequence order. */
  function NewComposite<D>(ds: seq<D>, ts: Tokens): (r: (Composite<D>, Tokens))
    requires |ds| < INT_MAX
    ensures Values(r.0.disposables) == ds
    ensures ValidComposite(r.0, r.1)
    ensures |r.1| == |ts| + |ds|
  {
    if ds == [] then (Composite(Empty()), ts)
    else
      var prev := NewComposite(DropLast(ds), ts);
      var ins := Insert(prev.0.disposables, prev.1, Last(ds));
      DropLastThenLast(ds);
      (Composite(ins.bag), ins.tokens)
  }

  /** `dispose()`: swaps in an empty bag and disposes the old children back to front. */
  function DisposeComposite<D>(c: Composite<D>): (r: (Composite<D>, seq<D>))
    ensures r.0.disposables.elements == []
    ensures |r.1| == |c.disposables.elements|
    ensures forall i :: 0 <= i < |r.1| ==> r.1[i] == Values(c.disposables)[|r.1| - 1 - i]
    ensures multiset(r.1) == multiset(Values(c.disposables))
  {
    var ds := Values(c.disposables);
    ReverseMultiset(ds);
    (Composite(Empty()), Reverse(ds))
  }

  /** A second `dispose()` disposes nothing. */
  lemma DisposeCompositeTwice<D>(c: Composite<D>)
    ensures DisposeComposite(DisposeComposite(c).0).1 == []
  {
  }

  /** `addDisposable(_:)`: inserts the child and returns a handle that detaches it. */
  function AddDisposable<D>(c: Composite<D>, ts: Tokens, d: D): (r: Added<D>)
    requires WellFormed(c.disposables, ts) && |c.disposables.elements| < INT_MAX
    ensures Values(r.composite.disposables) == Values(c.disposables) + [d]
    ensures ValidComposite(c, ts) ==> ValidComposite(r.composite, r.tokens)
    ensures r.handle.action == Some(|ts|)
    ensures WellFormed(r.composite.disposables, r.tokens) && |r.tokens| == |ts| + 1
    ensures c.disposables.currentIdentifier < UINT_MAX ==>
              var w := InsertAsWritten(c.disposables, ts, d);
              r.composite.disposables == w.bag && r.tokens == w.tokens && r.handle.action == Some(w.token)
  {
    var ins := Insert(c.disposables, ts, d);
    Added(Composite(ins.bag), ins.tokens, NewManual(ins.token))
  }

  /** `+=` with a disposable on the right is `addDisposable`. */
  function PlusAssign<D>(c: Composite<D>, ts: Tokens, d: D): (r: Added<D>)
    requires WellFormed(c.disposables, ts) && |c.disposables.elements| < INT_MAX
    ensures r == AddDisposable(c, ts, d)
    ensures Values(r.composite.disposables) == Values(c.disposables) + [d]
    ensures ValidComposite(c, ts) ==> ValidComposite(r.composite, r.tokens)
    ensures r.handle.action == Some(|ts|) && r.tokens[|ts|].Some?
  {
    AddDisposable(c, ts, d)
  }

  /** `+=` with a closure on the right: a new `ActionDisposable` running `a`, allocated at
      reference `freshRef`, is added. Returns the addition and the new disposable. */
  function PlusAssignAction<A>(c: Composite<nat>, ts: Tokens, a: A, freshRef: nat): (r: (Added<nat>, ActionDisposable<A>))
    requires WellFormed(c.disposables, ts) && |c.disposables.elements| < INT_MAX
    ensures r.0 == PlusAssign(c, ts, freshRef)
    ensures r.1.manual.action == Some(a)
  {
    (PlusAssign(c, ts, freshRef), NewAction(a))
  }

  /** The action of an `addDisposable` handle: remove the token from the composite's bag. */
  function Detach<D>(c: Composite<D>, ts: Tokens, t: TokenRef): (r: (Composite<D>, Tokens))
    requires t < |ts|
    ensures (r.0.disposables, r.1) == Remove(c.disposables, ts, t)
  {
    var (b, ts1) := Remove(c.disposables, ts, t);
    (Composite(b), ts1)
  }

  /** Disposing an `addDisposable` handle: runs its action (at most once). No child is disposed. */
  function DisposeHandle<D>(c: Composite<D>, ts: Tokens, h: Manual<TokenRef>): (r: Added<D>)
    requires h.action.Some? ==> h.action.value < |ts|
    ensures r.handle.action.None?
    ensures h.action.None? ==> r.composite == c && r.tokens == ts
    ensures h.action.Some? ==> (r.composite, r.tokens) == Detach(c, ts, h.action.value)
  {
    var (h1, ran) := DisposeManual(h);
    if ran == [] then Added(c, ts, h1) else
      var (c1, ts1) := Detach(c, ts, ran[0]);
      Added(c1, ts1, h1)
  }

  /** Detaching through the handle removes exactly the added child, without disposing it;
      a later `dispose()` of the composite disposes only the earlier children, back to front,
      and disposing the handle again changes nothing. */
  lemma AddThenDetach<D>(c: Composite<D>, ts: Tokens, d: D)
    requires ValidComposite(c, ts) && |c.disposables.elements| < INT_MAX
    ensures var a := AddDisposable(c, ts, d);
            var h := DisposeHandle(a.composite, a.tokens, a.handle);
            && Values(h.composite.disposables) == Values(c.disposables)
            && ValidComposite(h.composite, h.tokens)
            && DisposeComposite(h.composite).1 == Reverse(Values(c.disposables))
            && DisposeHandle(h.composite, h.tokens, h.handle).composite == h.composite
  {
    var a := AddDisposable(c, ts, d);
    InsertRemoveRoundTrip(c.disposables, ts, d);
  }

  /** `dispose()` swaps in a fresh `Bag()`, so identifiers start again at 0: the handle of
      a child added before the dispose then detaches the first child added after it. */
  lemma StaleHandleDetachesLaterChild<D>(d1: D, d2: D)
    ensures var a1 := AddDisposable(Composite(Empty()), [], d1);
            var c2 := DisposeComposite(a1.composite).0;
            var a2 := AddDisposable(c2, a1.tokens, d2);
            && Values(a2.composite.disposables) == [d2]
            && Values(DisposeHandle(a2.composite, a2.tokens, a1.handle).composite.disposables) == []
  {
    var a1 := AddDisposable(Composite(Empty()), [], d1);
    var c2 := DisposeComposite(a1.composite).0;
    var a2 := AddDisposable(c2, a1.tokens, d2);
    assert a1.tokens[0] == Some(0);
    assert a2.composite.disposables.elements[0].identifier == 0;
  }

  // ---- SerialDisposable ----

  /** The current occupant. */
  datatype Serial<D> = Serial(inner: Option<D>)

  function OptionToSeq<D>(o: Option<D>): seq<D>
  {
    if o.Some? then [o.value] else []
  }

  /** The `innerDisposable` setter: swaps in the new value first, then disposes the previous
      occupant, even when it is the same reference. */
  function SetInner<D>(s: Serial<D>, d: Option<D>): (r: (Serial<D>, seq<D>))
    ensures r.0.inner == d
    ensures r.1 == OptionToSeq(s.inner)
  {
    (Serial(d), OptionToSeq(s.inner))
  }

  /** `init(_ disposable:)`: installs `d` and disposes nothing. */
  function NewSerial<D>(d: Option<D>): (r: Serial<D>)
    ensures r.inner == d
    ensures SetInner(Serial(None), d) == (r, [])
  {
    SetInner(Serial(None), d).0
  }

  /** `dispose()`: `innerDisposable = nil`. */
  function DisposeSerial<D>(s: Serial<D>): (r: (Serial<D>, seq<D>))
    ensures r.0.inner.None?
    ensures r.1 == OptionToSeq(s.inner)
  {
    SetInner(s, None)
  }

  /** Assigning each of `ds` in turn: the final state and every disposed occupant. */
  function SetInnerAll<D>(s: Serial<D>, ds: seq<D>): (Serial<D>, seq<D>)
  {
    if ds == [] then (s, [])
    else
      var (s1, out) := SetInnerAll(s, DropLast(ds));
      var (s2, out2) := SetInner(s1, Some(Last(ds)));
      (s2, out + out2)
  }

  /** Every occupant ever installed is disposed exactly once, in installation order,
      when the assignments are followed by `dispose()`. */
  lemma {:induction false} SerialDisposesEachOccupantOnce<D>(s: Serial<D>, ds: seq<D>)
    ensures var (s1, out) := SetInnerAll(s, ds);
            out + DisposeSerial(s1).1 == OptionToSeq(s.inner) + ds
  {
    if ds != [] {
      SerialDisposesEachOccupantOnce(s, DropLast(ds));
      SetInnerAllLast(s, ds);
      assert ds == DropLast(ds) + [Last(ds)];
    }
  }

  lemma SetInnerAllLast<D>(s: Serial<D>, ds: seq<D>)
    requires ds != []
    ensures SetInnerAll(s, ds).0.inner == Some(Last(ds))
  {
  }
}
