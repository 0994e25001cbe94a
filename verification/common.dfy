/** `clamped(to:)` and `clamp(to:)` on `Comparable` values
    (Source/Extensions/Common.swift), for integers. A `ClosedRange` always has
    `lowerBound <= upperBound`; the requirement below is that invariant.
 */
module Common {

  function Min(a: int, b: int): int { if a <= b then a else b }
  function Max(a: int, b: int): int { if a >= b then a else b }

  /** `clamped(to: lower...upper)`: `min(max(x, lower), upper)`. */
  function Clamped(x: int, lower: int, upper: int): (r: int)
    requires lower <= upper
    ensures lower <= r <= upper
    ensures lower <= x <= upper ==> r == x
    ensures x < lower ==> r == lower
    ensures x > upper ==> r == upper
  {
    Min(Max(x, lower), upper)
  }

  /** `clamp(to:)`: replaces the value with its clamped copy. */
  function Clamp(x: int, lower: int, upper: int): (r: int)
    requires lower <= upper
    ensures r == Clamped(x, lower, upper)
    ensures lower <= r <= upper
    ensures lower <= x <= upper ==> r == x
  {
    Clamped(x, lower, upper)
  }

  /** Clamping is idempotent, monotone, and the closest point of the range: no value
      in the range is nearer to `x`. */
  lemma ClampedProjects(x: int, y: int, z: int, lower: int, upper: int)
    requires lower <= upper
    ensures Clamped(Clamped(x, lower, upper), lower, upper) == Clamped(x, lower, upper)
    ensures x <= y ==> Clamped(x, lower, upper) <= Clamped(y, lower, upper)
    ensures lower <= z <= upper ==> Distance(x, Clamped(x, lower, upper)) <= Distance(x, z)
  {
  }

  function Distance(a: int, b: int): nat
  {
    if a >= b then a - b else b - a
  }
}
