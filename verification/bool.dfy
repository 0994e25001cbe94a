/** The `map` and `flatMap` overloads on `Bool` (Source/Extensions/Bool.swift).
    The closure and `@autoclosure` overloads behave alike; a branch is a thunk
    that is evaluated only when it is chosen.
 */
module Bools {
  import opened Optionals

  /** `map(ifTrue:ifFalse:)`: evaluates exactly the chosen branch. */
  function Choose<A>(b: bool, ifTrue: () -> A, ifFalse: () -> A): (r: A)
    ensures b ==> r == ifTrue()
    ensures !b ==> r == ifFalse()
  {
    if b then ifTrue() else ifFalse()
  }

  /** `map(ifTrue:)`: the branch's value when true, nil otherwise. */
  function MapIfTrue<A>(b: bool, ifTrue: () -> A): (r: Option<A>)
    ensures r.Some? <==> b
    ensures r.Some? ==> r.value == ifTrue()
  {
    if b then Some(ifTrue()) else None
  }

  /** `map(ifFalse:)`: the branch's value when false, nil otherwise. */
  function MapIfFalse<A>(b: bool, ifFalse: () -> A): (r: Option<A>)
    ensures r.Some? <==> !b
    ensures r.Some? ==> r.value == ifFalse()
  {
    if b then None else Some(ifFalse())
  }

  /** `flatMap(ifTrue:)`: the branch's optional when true, nil otherwise. */
  function FlatMapIfTrue<A>(b: bool, ifTrue: () -> Option<A>): (r: Option<A>)
    ensures !b ==> r.None?
    ensures b ==> r == ifTrue()
  {
    if b then ifTrue() else None
  }

  /** `flatMap(ifFalse:)`: the branch's optional when false, nil otherwise. */
  function FlatMapIfFalse<A>(b: bool, ifFalse: () -> Option<A>): (r: Option<A>)
    ensures b ==> r.None?
    ensures !b ==> r == ifFalse()
  {
    if b then None else ifFalse()
  }

  /** The overloads agree with one another: negating the condition swaps the
      branches; the one-armed `map` is the two-armed one with nil on the other side;
      `map` is `flatMap` of a branch that always yields a value. */
  lemma BoolOverloadsAgree<A>(b: bool, t: () -> A, f: () -> A, ot: () -> Option<A>, of: () -> Option<A>)
    ensures Choose(b, t, f) == Choose(!b, f, t)
    ensures MapIfFalse(b, f) == MapIfTrue(!b, f)
    ensures FlatMapIfFalse(b, of) == FlatMapIfTrue(!b, of)
    ensures Choose(b, t, f) == (match MapIfTrue(b, t) case Some(x) => x case None => f())
    ensures ot() == Some(t()) ==> FlatMapIfTrue(b, ot) == MapIfTrue(b, t)
    ensures of() == Some(f()) ==> FlatMapIfFalse(b, of) == MapIfFalse(b, f)
  {
  }
}
