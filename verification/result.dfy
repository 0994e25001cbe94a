/** The library's `Result` enum (Source/Structs/Result.swift).

    Swift's thrown `Error` is generic here: `Result<A, E>` is `.value(A)` or
    `.error(E)`, and a closure `(A) throws -> B` is `A -> Outcome<B, E>`.
    A `Sink<A>` side effect is modelled by the list of arguments it was
    called with.
 */
module Results {
  import opened Throwing
  import opened Optionals

  datatype Result<+A, +E> = Value(value: A) | Error(error: E)

  /** `init(_ f: () throws -> A)`: `.value` when `f` returns, `.error` carrying the thrown error otherwise. */
  function Catching<A, E>(f: Outcome<A, E>): (r: Result<A, E>)
    ensures r.Value? <==> f.Returned?
    ensures r.Value? ==> r.value == f.value
    ensures r.Error? ==> r.error == f.error
  {
    match f
    case Returned(x) => Value(x)
    case Threw(e) => Error(e)
  }

  /** `dematerialize()`: returns the payload of `.value`, throws the error of `.error`. */
  function Dematerialize<A, E>(r: Result<A, E>): (o: Outcome<A, E>)
    ensures o.Returned? <==> r.Value?
    ensures o.Returned? ==> o.value == r.value
    ensures o.Threw? ==> o.error == r.error
  {
    match r
    case Value(x) => Returned(x)
    case Error(e) => Threw(e)
  }

  /** `init(_:)` and `dematerialize()` are inverse to each other. */
  lemma CatchingDematerializeRoundTrip<A, E>(r: Result<A, E>, f: Outcome<A, E>)
    ensures Catching(Dematerialize(r)) == r
    ensures Dematerialize(Catching(f)) == f
  {
  }

  /** The `value` accessor. */
  function GetValue<A, E>(r: Result<A, E>): (v: Option<A>)
    ensures v.Some? <==> r.Value?
    ensures v.Some? ==> v.value == r.value
  {
    if r.Value? then Some(r.value) else None
  }

  /** The `error` accessor. */
  function GetError<A, E>(r: Result<A, E>): (v: Option<E>)
    ensures v.Some? <==> r.Error?
    ensures v.Some? ==> v.value == r.error
  {
    if r.Error? then Some(r.error) else None
  }

  /** Exactly one of `value` and `error` is non-nil. */
  lemma ExactlyOneAccessor<A, E>(r: Result<A, E>)
    ensures GetValue(r).Some? != GetError(r).Some?
  {
  }

  /** `mapResult(f)`: `Result { try f(self) }`. */
  function MapResult<A, B, E>(r: Result<A, E>, f: Result<A, E> -> Outcome<B, E>): (s: Result<B, E>)
    ensures s.Value? <==> f(r).Returned?
    ensures s.Value? ==> s.value == f(r).value
    ensures s.Error? ==> s.error == f(r).error
  {
    Catching(f(r))
  }

  /** `map(f)`: `Result { try f(dematerialize()) }`. */
  function Map<A, B, E>(r: Result<A, E>, f: A -> Outcome<B, E>): (s: Result<B, E>)
    ensures r.Error? ==> s == Error(r.error)
    ensures r.Value? ==> s == Catching(f(r.value))
  {
    Catching(Then(Dematerialize(r), f))
  }

  /** `flatMap(f)`: `Result { try f(dematerialize()).dematerialize() }`. */
  function FlatMap<A, B, E>(r: Result<A, E>, f: A -> Outcome<Result<B, E>, E>): (s: Result<B, E>)
    ensures r.Error? ==> s == Error(r.error)
    ensures r.Value? && f(r.value).Threw? ==> s == Error(f(r.value).error)
    ensures r.Value? && f(r.value).Returned? ==> s == f(r.value).value
  {
    Catching(Then(Then(Dematerialize(r), f), Dematerialize))
  }

  /** `analysis(ifSuccess:ifFailure:)`: the branch chosen by the case (it rethrows when `B` is an `Outcome`). */
  function Analysis<A, B, E>(r: Result<A, E>, ifSuccess: A -> B, ifFailure: E -> B): (b: B)
    ensures r.Value? ==> b == ifSuccess(r.value)
    ensures r.Error? ==> b == ifFailure(r.error)
  {
    match r
    case Value(x) => ifSuccess(x)
    case Error(e) => ifFailure(e)
  }

  /** `mapError(f)`: a success is unchanged, an error `e` becomes `Result { try f(e) }`. */
  function MapError<A, E>(r: Result<A, E>, f: E -> Outcome<A, E>): (s: Result<A, E>)
    ensures r.Value? ==> s == r
    ensures r.Error? ==> s == Catching(f(r.error))
  {
    MapResult(r, _ => Analysis(r, x => Returned(x), f))
  }

  /** `onSuccess(f)`: returns `self`; `f` is called (listed in the second component) only on `.value`. */
  function OnSuccess<A, E>(r: Result<A, E>): (s: (Result<A, E>, seq<A>))
    ensures s.0 == r
    ensures r.Value? ==> s.1 == [r.value]
    ensures r.Error? ==> s.1 == []
  {
    Analysis(r, x => (Value(x), [x]), e => (Error(e), []))
  }

  /** `onFailure(f)`: returns `self`; `f` is called only on `.error`. */
  function OnFailure<A, E>(r: Result<A, E>): (s: (Result<A, E>, seq<E>))
    ensures s.0 == r
    ensures r.Error? ==> s.1 == [r.error]
    ensures r.Value? ==> s.1 == []
  {
    Analysis(r, x => (Value(x), []), e => (Error(e), [e]))
  }

  /** Functor laws of `map` for closures that do not throw. */
  lemma MapLaws<A, B, C, E>(r: Result<A, E>, f: A -> B, g: B -> C)
    ensures Map(r, Total(x => x)) == r
    ensures Map(Map(r, Total(f)), Total(g)) == Map(r, Total(x => g(f(x))))
  {
  }

  /** `flatMap` with a non-throwing `f` applies it on success, and `map` is `flatMap` after `.value`. */
  lemma FlatMapLaws<A, B, E>(x: A, r: Result<A, E>, f: A -> Result<B, E>, g: A -> Outcome<B, E>)
    ensures FlatMap(Value(x), Total(f)) == f(x)
    ensures FlatMap(r, Total(y => Value(y))) == r
    ensures Map(r, g) == FlatMap(r, y => Returned(Catching(g(y))))
  {
  }
}
