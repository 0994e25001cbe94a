/** What calling a Swift `throws` function produces.

    The library's throwing closures (`(A) throws -> B`) are modelled as total
    functions `A -> Outcome<B, E>`: either the closure returns a value or it
    throws an error of type `E`. `Then` is the `try g(x)` / `try f(...)`
    sequencing Swift performs: once a call throws, nothing after it runs.
 */
module Throwing {

  datatype Outcome<+A, +E> = Returned(value: A) | Threw(error: E)

  /** Sequential composition of two throwing steps: `f` runs only when the first step returned. */
  function Then<A, B, E>(o: Outcome<A, E>, f: A -> Outcome<B, E>): Outcome<B, E>
  {
    match o
    case Returned(x) => f(x)
    case Threw(e) => Threw(e)
  }

  /** A non-throwing closure seen as a throwing one. */
  function Total<A, B, E>(f: A -> B): A -> Outcome<B, E>
  {
    x => Returned(f(x))
  }
}
