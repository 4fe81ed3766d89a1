/** Multiplication as a function, which keeps nonlinear terms out of statements. */
module Reals {

  function Times(x: real, y: real): real { x * y }

  /** Comparing a quotient is comparing the dividend with a multiple of the divisor. */
  lemma RatioReaches(r: real, c: real, b: real, m: real)
    requires c > 0.0 && r * c == b
    ensures r >= m <==> b >= m * c
    ensures r > m <==> b > m * c
  {
    assert (r - m) * c == b - m * c;
  }
}
