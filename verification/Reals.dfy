/** Two steps of real arithmetic that several modules take. */
module Reals {

  lemma OneMore(n: real, period: real)
    ensures (n + 1.0) * period == n * period + period
  {
  }

  lemma DivideBack(a: real, b: real, q: real)
    requires b != 0.0 && q == a / b
    ensures q * b == a
  {
  }
}
