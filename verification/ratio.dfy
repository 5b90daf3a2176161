/** Facts about the quotient `n / m` of two counts, as both similarities
    compute it. */
module Ratio {

  function Quotient(n: nat, m: nat): (q: real)
    requires 0 < m
    requires n <= m
    ensures 0.0 <= q <= 1.0
    ensures q == 0.0 <==> n == 0
    ensures q == 1.0 <==> n == m
  {
    n as real / m as real
  }
}
