/** Monotonicity of multiplication by a positive real, and the agreement of
    integer and real products: the small facts the rate arithmetic needs
    stated once, so that the solver does not search for them. */
module RealArith {
  lemma ScaleLe(a: real, c: real, e: real)
    requires a <= c && e > 0.0
    ensures a * e <= c * e
  {
  }

  lemma ScaleLt(a: real, c: real, e: real)
    requires a < c && e > 0.0
    ensures a * e < c * e
  {
  }

  lemma IntProduct(a: int, b: int)
    ensures (a * b) as real == a as real * b as real
  {
  }
}
