/**
 Quotients and remainders by a divisor that is not a literal, from their defining equation.
*/
module Arithmetic {

  lemma DivisionIs(x: nat, d: nat, q: nat, r: nat)
    requires r < d && x == d * q + r
    ensures x / d == q && x % d == r
  {
    var m := x / d;
    if m < q {
      Larger(d, m + 1, q);
    } else if m > q {
      Larger(d, q + 1, m);
    }
  }

  lemma Larger(d: nat, a: nat, b: nat)
    requires a <= b
    ensures d * a <= d * b
  {
  }

  lemma OneMore(q: nat, d: nat)
    ensures (q + 1) * d == q * d + d
  {
  }

  /** Every number has a quotient. */
  lemma DivisionOf(x: nat, d: nat) returns (q: nat, r: nat)
    requires d > 0
    ensures r < d && x == d * q + r && q == x / d && r == x % d
  {
    q, r := x / d, x % d;
  }
}
