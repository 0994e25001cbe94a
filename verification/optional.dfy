/** Swift's `Optional` and the library's free functions and extensions over it
    (Source/Optional.swift, Source/Extensions/Optional.swift).

    The free functions `map(f)` and `flatMap(f)` return closures `(A?) -> B?`;
    here `Map(f, a)` stands for `map(f)(a)` and `FlatMap(f, a)` for
    `flatMap(f)(a)`. The operators `<^>`, `<*>`, `>>-` and `-<<` are named
    `MapOp`, `Apply`, `BindLeft` and `BindRight`.
 */
module Optionals {
  import opened Throwing

  datatype Option<+T> = None | Some(value: T)

  /** `pure`: wraps a value. */
  function Pure<A>(x: A): (r: Option<A>)
    ensures r.Some? && r.value == x
  {
    Some(x)
  }

  /** `map(f)`: nil stays nil, `.some(a)` becomes `.some(f(a))`. */
  function Map<A, B>(f: A -> B, a: Option<A>): (r: Option<B>)
    ensures r.Some? <==> a.Some?
    ensures a.Some? ==> r.value == f(a.value)
  {
    match a
    case None => None
    case Some(x) => Some(f(x))
  }

  /** `flatMap(f)`: nil stays nil, `.some(a)` becomes `f(a)`. */
  function FlatMap<A, B>(f: A -> Option<B>, a: Option<A>): (r: Option<B>)
    ensures a.None? ==> r.None?
    ensures a.Some? ==> r == f(a.value)
  {
    match a
    case None => None
    case Some(x) => f(x)
  }

  /** `f <^> a` is `a.map(f)`. */
  function MapOp<A, B>(f: A -> B, a: Option<A>): (r: Option<B>)
    ensures r == Map(f, a)
  {
    match a
    case None => None
    case Some(x) => Some(f(x))
  }

  /** `f <*> a` is `f.flatMap { a.map($0) }`. */
  function Apply<A, B>(f: Option<A -> B>, a: Option<A>): (r: Option<B>)
    ensures r.Some? <==> f.Some? && a.Some?
    ensures r.Some? ==> r.value == f.value(a.value)
  {
    FlatMap(g => Map(g, a), f)
  }

  /** `a >>- f` is `a.flatMap(f)`. */
  function BindLeft<A, B>(a: Option<A>, f: A -> Option<B>): (r: Option<B>)
    ensures r == FlatMap(f, a)
  {
    match a
    case None => None
    case Some(x) => f(x)
  }

  /** `f -<< a` is `a.flatMap(f)`. */
  function BindRight<A, B>(f: A -> Option<B>, a: Option<A>): (r: Option<B>)
    ensures r == FlatMap(f, a)
  {
    match a
    case None => None
    case Some(x) => f(x)
  }

  /** The two `flatMap` operators agree with each other. */
  lemma BindOperatorsAgree<A, B>(a: Option<A>, f: A -> Option<B>)
    ensures BindLeft(a, f) == BindRight(f, a)
  {
  }

  /** Monad laws: `pure` is a left and right unit of `flatMap`, and `map` is `flatMap` after `pure`. */
  lemma MonadLaws<A, B>(x: A, a: Option<A>, f: A -> Option<B>, g: A -> B)
    ensures FlatMap(f, Pure(x)) == f(x)
    ensures FlatMap(Pure, a) == a
    ensures Map(g, a) == FlatMap(y => Pure(g(y)), a)
  {
  }

  /** Applying a wrapped function is mapping it. */
  lemma ApplyPure<A, B>(g: A -> B, a: Option<A>)
    ensures Apply(Pure(g), a) == Map(g, a)
  {
  }

  /** Functor laws for `map`. */
  lemma MapFusion<A, B, C>(f: A -> B, g: B -> C, a: Option<A>)
    ensures Map(g, Map(f, a)) == Map(x => g(f(x)), a)
    ensures Map(x => x, a) == a
  {
  }

  // ---- Source/Extensions/Optional.swift ----

  /** `OptionalType.optional(_:)`: the conformance builds an Optional from an Optional unchanged. */
  function FromOptional<A>(v: Option<A>): Option<A>
  {
    v
  }

  /** `OptionalType.optional`: the conformance reads an Optional back unchanged. */
  function AsOptional<A>(o: Option<A>): Option<A>
  {
    o
  }

  /** The conformance is the identity in both directions. */
  lemma OptionalConformanceRoundTrip<A>(v: Option<A>)
    ensures AsOptional(FromOptional(v)) == v
    ensures FromOptional(AsOptional(v)) == v
  {
  }

  /** `Optional.init(_ f: () throws -> Wrapped)`: `try? f()`. */
  function Try<A, E>(f: Outcome<A, E>): (r: Option<A>)
    ensures r.None? <==> f.Threw?
    ensures r.Some? ==> r.value == f.value
  {
    match f
    case Returned(x) => Some(x)
    case Threw(_) => None
  }

  /** `Optional.with(f)`: runs `f` on the payload if there is one and returns `self`.
      The second component lists the arguments `f` was called with. */
  function With<A>(o: Option<A>): (r: (Option<A>, seq<A>))
    ensures r.0 == o
    ensures |r.1| == (if o.Some? then 1 else 0)
    ensures o.Some? ==> r.1[0] == o.value
  {
    match o
    case None => (o, [])
    case Some(x) => (o, [x])
  }
}
