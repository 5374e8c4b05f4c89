/** Facts about integer division and products that the rate and average computations use. */
module Arithmetic {
  /** The quotient of a non-negative number by a positive one is the largest multiple not above it. */
  lemma DivisionBounds(a: int, b: int)
    requires a >= 0 && b > 0
    ensures a / b >= 0 && (a / b) * b <= a < (a / b) * b + b
  {
    var q, r := a / b, a % b;
    assert a == q * b + r && 0 <= r < b;
  }

  /** One more multiple of `b`. */
  lemma MultiplySuccessor(q: int, b: int)
    ensures (q + 1) * b == q * b + b
  {
  }

  /** A product of positive numbers is positive. */
  lemma PositiveProduct(a: int, b: int)
    requires a > 0 && b > 0
    ensures a * b > 0
  {
  }
}
