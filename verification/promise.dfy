/** `Promise` as a single-assignment cell with a callback queue
    (Sources/Fx/Promise/Promise.swift).

    A callback is named by a value of type `C`; running callbacks is recorded
    as the list of calls `(callback, result)` in the order they happen. The
    semaphore around each callback and the `Atomic` around the queue only
    serialise these transitions.
 */
module Promises {
  import opened Throwing
  import opened Optionals
  import opened Results
  import opened Traces

  datatype Promise<A, E, C> = Promise(result: Option<Result<A, E>>, callbacks: seq<C>)

  /** Callbacks wait in the queue only while the promise is pending. */
  predicate ValidPromise<A, E, C>(p: Promise<A, E, C>)
  {
    p.result.Some? ==> p.callbacks == []
  }

  /** `init(result:)`: already resolved, nothing queued. */
  function FromResult<A, E, C>(r: Result<A, E>): Promise<A, E, C>
  {
    Promise(Some(r), [])
  }

  /** `value(_:)` and `init(value:)`. */
  function FromValue<A, E, C>(x: A): Promise<A, E, C>
  {
    FromResult(Value(x))
  }

  /** `error(_:)` and `init(error:)`. */
  function FromError<A, E, C>(e: E): Promise<A, E, C>
  {
    FromResult(Error(e))
  }

  /** `init(_ f: () throws -> A)`: resolved with `Result(catching: f)`. */
  function FromThrowing<A, E, C>(f: Outcome<A, E>): Promise<A, E, C>
  {
    FromResult(Catching(f))
  }

  /** `pending()`: the generator keeps `resolve`, so the promise starts unresolved. */
  function Pending<A, E, C>(): Promise<A, E, C>
  {
    Promise(None, [])
  }

  /** A promise made from a result is resolved with it and queues nothing. */
  lemma FromResultIsResolved<A, E, C>(r: Result<A, E>)
    ensures FromResult<A, E, C>(r).result == Some(r) && ValidPromise(FromResult<A, E, C>(r))
  {
  }

  /** A promise made from a value succeeds with it; one made from an error fails
      with it. */
  lemma ValueErrorInits<A, E, C>(x: A, e: E)
    ensures FromValue<A, E, C>(x).result == Some(Value(x)) && ValidPromise(FromValue<A, E, C>(x))
    ensures FromError<A, E, C>(e).result == Some(Error(e)) && ValidPromise(FromError<A, E, C>(e))
  {
  }

  /** A promise made from a throwing closure is resolved, and succeeds exactly when
      the closure returns: with its value if it does, otherwise with the error it threw. */
  lemma ThrowingInit<A, E, C>(f: Outcome<A, E>)
    ensures FromThrowing<A, E, C>(f).result.Some? && ValidPromise(FromThrowing<A, E, C>(f))
    ensures FromThrowing<A, E, C>(f).result.value.Value? <==> f.Returned?
    ensures f.Returned? ==> FromThrowing<A, E, C>(f).result.value.value == f.value
    ensures f.Threw? ==> FromThrowing<A, E, C>(f).result.value.error == f.error
  {
  }

  /** `pending()` is unresolved with an empty queue. */
  lemma PendingIsEmpty<A, E, C>()
    ensures Pending<A, E, C>().result.None? && Pending<A, E, C>().callbacks == []
    ensures ValidPromise(Pending<A, E, C>())
  {
  }

  /** The outcome of `resolve`: the promise, the callbacks it ran, and whether the
      already-completed assertion fired. */
  datatype Resolved<A, E, C> = Resolved(promise: Promise<A, E, C>, calls: seq<(C, Result<A, E>)>, violation: bool)

  /** `resolve(_:)`: on a pending promise stores the result, runs the queue in order
      and empties it; on a completed one it fails its assertion and changes nothing. */
  function Resolve<A, E, C>(p: Promise<A, E, C>, r: Result<A, E>): (out: Resolved<A, E, C>)
    ensures out.violation <==> p.result.Some?
    ensures p.result.Some? ==> out.promise == p && out.calls == []
    ensures p.result.None? ==> out.promise.result == Some(r) && out.promise.callbacks == []
    ensures p.result.None? ==>
              && |out.calls| == |p.callbacks|
              && forall i :: 0 <= i < |p.callbacks| ==> out.calls[i] == (p.callbacks[i], r)
    ensures ValidPromise(out.promise) || out.promise == p
  {
    if p.result.Some? then Resolved(p, [], true)
    else Resolved(Promise(Some(r), []), Calls(p.callbacks, r), false)
  }

  /** `onComplete(_:)`: runs the callback at once with the stored result, or queues it. */
  function OnComplete<A, E, C>(p: Promise<A, E, C>, c: C): (out: (Promise<A, E, C>, seq<(C, Result<A, E>)>))
    ensures p.result.Some? ==> out.0 == p && out.1 == [(c, p.result.value)]
    ensures p.result.None? ==> out.0 == p.(callbacks := p.callbacks + [c]) && out.1 == []
    ensures out.0.result == p.result
  {
    if p.result.Some? then (p, [(c, p.result.value)]) else (p.(callbacks := p.callbacks + [c]), [])
  }

  /** `isCompleted`. */
  function IsCompleted<A, E, C>(p: Promise<A, E, C>): (b: bool)
    ensures b <==> p.result.Some?
  {
    p.result != None
  }

  /** `isSuccess`: `result?.fold(success: true, failure: false) ?? false`. */
  function IsSuccess<A, E, C>(p: Promise<A, E, C>): (b: bool)
    ensures b <==> p.result.Some? && p.result.value.Value?
  {
    match p.result
    case None => false
    case Some(r) => Analysis(r, _ => true, _ => false)
  }

  /** `isFailure`: `result?.fold(success: false, failure: true) ?? false`. */
  function IsFailure<A, E, C>(p: Promise<A, E, C>): (b: bool)
    ensures b <==> p.result.Some? && p.result.value.Error?
  {
    match p.result
    case None => false
    case Some(r) => Analysis(r, _ => false, _ => true)
  }

  /** `isSuccess` and `isFailure` exclude each other, both are false while pending,
      and one of them holds once the promise is completed. */
  lemma StatusExclusive<A, E, C>(p: Promise<A, E, C>)
    ensures !(IsSuccess(p) && IsFailure(p))
    ensures !IsCompleted(p) ==> !IsSuccess(p) && !IsFailure(p)
    ensures IsCompleted(p) <==> IsSuccess(p) || IsFailure(p)
  {
  }

  /** The `value` accessor: `result?.value`. */
  function PromiseValue<A, E, C>(p: Promise<A, E, C>): (v: Option<A>)
    ensures v.Some? <==> IsSuccess(p)
    ensures v.Some? ==> p.result == Some(Value(v.value))
  {
    match p.result
    case None => None
    case Some(r) => GetValue(r)
  }

  /** The `error` accessor: `result?.error`. */
  function PromiseError<A, E, C>(p: Promise<A, E, C>): (v: Option<E>)
    ensures v.Some? <==> IsFailure(p)
    ensures v.Some? ==> p.result == Some(Error(v.value))
  {
    match p.result
    case None => None
    case Some(r) => GetError(r)
  }

  // ---- histories ----

  /** What may happen to a promise: its resolver is called, or a callback is registered. */
  datatype PromiseEvent<A, E, C> = ResolveWith(r: Result<A, E>) | Register(c: C)

  /** The state of the promise and every callback call after the events `es`. */
  function RunPromise<A, E, C>(p: Promise<A, E, C>, es: seq<PromiseEvent<A, E, C>>): (Promise<A, E, C>, seq<(C, Result<A, E>)>)
  {
    if es == [] then (p, [])
    else
      var prev := RunPromise(p, DropLast(es));
      var next := Apply(prev.0, Last(es));
      (next.0, prev.1 + next.1)
  }

  /** One event: `resolve(r)` or `onComplete(c)`, with the callbacks it ran. */
  function Apply<A, E, C>(q: Promise<A, E, C>, e: PromiseEvent<A, E, C>): (Promise<A, E, C>, seq<(C, Result<A, E>)>)
  {
    match e
    case ResolveWith(r) => var out := Resolve(q, r); (out.promise, out.calls)
    case Register(c) => OnComplete(q, c)
  }

  /** The callbacks registered by the events, in order. */
  function Registered<A, E, C>(es: seq<PromiseEvent<A, E, C>>): seq<C>
  {
    if es == [] then []
    else Registered(DropLast(es)) + (if Last(es).Register? then [Last(es).c] else [])
  }

  /** The argument of the first call of the resolver, if any. */
  function FirstResolution<A, E, C>(es: seq<PromiseEvent<A, E, C>>): Option<Result<A, E>>
  {
    if es == [] then None
    else if FirstResolution(DropLast(es)).Some? then FirstResolution(DropLast(es))
    else if Last(es).ResolveWith? then Some(Last(es).r)
    else None
  }

  /** Starting from `pending()`: the first resolution is the one kept, later ones
      never overwrite it; until then every callback waits in the queue in
      registration order; and once resolved, every callback registered at any
      time has run exactly once with that result, in registration order. */
  lemma {:induction false} FirstResolutionWins<A, E, C>(es: seq<PromiseEvent<A, E, C>>)
    ensures var (p, calls) := RunPromise(Pending<A, E, C>(), es);
            && p.result == FirstResolution(es)
            && ValidPromise(p)
            && (p.result.None? ==> p.callbacks == Registered(es) && calls == [])
            && (p.result.Some? ==> calls == Calls(Registered(es), p.result.value))
  {
    if es != [] {
      FirstResolutionWins(DropLast(es));
      RunPromiseStep(es);
    }
  }

  /** What `FirstResolutionWins` states about the history `es`. */
  ghost predicate Settles<A, E, C>(es: seq<PromiseEvent<A, E, C>>)
  {
    var (p, calls) := RunPromise(Pending<A, E, C>(), es);
    && p.result == FirstResolution(es)
    && ValidPromise(p)
    && (p.result.None? ==> p.callbacks == Registered(es) && calls == [])
    && (p.result.Some? ==> calls == Calls(Registered(es), p.result.value))
  }

  /** The inductive step of `FirstResolutionWins`: one more event. */
  lemma RunPromiseStep<A, E, C>(es: seq<PromiseEvent<A, E, C>>)
    requires es != [] && Settles(DropLast(es))
    ensures Settles(es)
  {
    var init := DropLast(es);
    var prev := RunPromise(Pending<A, E, C>(), init);
    var next := Apply(prev.0, Last(es));
    assert RunPromise(Pending<A, E, C>(), es) == (next.0, prev.1 + next.1);
    match Last(es)
    case ResolveWith(r) =>
      assert Registered(es) == Registered(init);
      if prev.0.result.None? {
        EmptyAppend(next.1);
      }
    case Register(c) =>
      assert Registered(es) == Registered(init) + [c];
      if prev.0.result.Some? {
        CallsSnoc(Registered(init), c, prev.0.result.value);
      }
  }

  /** A callback is called with the stored result once per registration. */
  lemma CallbacksRunOncePerRegistration<A, E, C>(es: seq<PromiseEvent<A, E, C>>, c: C)
    ensures var (p, calls) := RunPromise(Pending<A, E, C>(), es);
            Received(calls, c) == (if p.result.None? then [] else Repeat(p.result.value, Count(c, Registered(es))))
  {
    FirstResolutionWins(es);
    var (p, calls) := RunPromise(Pending<A, E, C>(), es);
    if p.result.Some? {
      ReceivedCalls(Registered(es), p.result.value, c);
    }
  }
}
