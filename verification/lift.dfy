/** The `Liftable` conformances and the free `const`/`lift` functions
    (Sources/Fx/Functional/Lift.swift): each wraps a plain value in the type's
    "pure" context.
 */
module Lifts {
  import opened Throwing
  import opened Optionals
  import opened Results
  import opened Promises
  import opened Properties

  /** `[Element].lift`: the one-element array. */
  function LiftArray<A>(x: A): (r: seq<A>)
    ensures |r| == 1 && r[0] == x
  {
    [x]
  }

  /** `Optional.lift`: `.some(x)`. */
  function LiftOptional<A>(x: A): (r: Option<A>)
    ensures r.Some? && r.value == x
  {
    Some(x)
  }

  /** `Result.lift`: `.success(x)`. */
  function LiftResult<A, E>(x: A): Result<A, E>
  {
    Value(x)
  }

  /** `Promise.lift`: `.value(x)`, already resolved. */
  function LiftPromise<A, E, C>(x: A): Promise<A, E, C>
  {
    FromValue(x)
  }

  /** `Result.lift(x)` is the success `x`; `Promise.lift(x)` has already succeeded
      with `x`. */
  lemma LiftSucceeds<A, E, C>(x: A)
    ensures LiftResult<A, E>(x).Value? && LiftResult<A, E>(x).value == x
    ensures IsSuccess(LiftPromise<A, E, C>(x)) && PromiseValue(LiftPromise<A, E, C>(x)) == Some(x)
  {
  }

  /** `Property.lift`: `.const(x)`, which never changes. */
  function LiftProperty<A>(x: A): (r: PropertyState<A>)
    ensures r.value == x && r.sent == []
  {
    Const(x)
  }

  /** Lifting commutes with mapping: mapping `f` over a lifted value is lifting `f(x)`,
      in every context; and `Optional.lift` is `pure`. */
  lemma LiftIsNatural<A, B, E, C>(f: A -> B, x: A)
    ensures LiftOptional(x) == Pure(x)
    ensures Optionals.Map(f, LiftOptional(x)) == LiftOptional(f(x))
    ensures Results.Map(LiftResult<A, E>(x), Total(f)) == LiftResult(f(x))
    ensures LiftArray(f(x)) == [f(LiftArray(x)[0])]
    ensures PromiseValue(LiftPromise<A, E, C>(x)) == PromiseValue(FromResult<A, E, C>(LiftResult(x)))
    ensures Wrap(x, []) == LiftProperty(x)
  {
  }
}
