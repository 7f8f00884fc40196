/** The few nonlinear facts the models need. */
module Arith {
  lemma DivMod(x: nat, d: nat)
    requires d > 0
    ensures x == (x / d) * d + x % d && 0 <= x % d < d && x / d >= 0
  {
  }

  lemma MulMonotone(a: nat, b: nat, d: nat)
    requires a <= b
    ensures a * d <= b * d
  {
  }

  lemma DivAtMost(x: nat, d: nat)
    requires d > 0
    ensures x / d <= x
  {
    DivMod(x, d);
    MulMonotone(1, d, x / d);
  }

  /** The quotient is determined by where the product lies. */
  lemma DivUnique(x: nat, d: nat, q: nat)
    requires d > 0 && q * d <= x < (q + 1) * d
    ensures x / d == q
  {
    DivMod(x, d);
    var p := x / d;
    if p < q {
      MulMonotone(p + 1, q, d);
    } else if q < p {
      MulMonotone(q + 1, p, d);
    }
  }

  /** Multiples. */
  lemma ModOfMultiple(q: nat, r: nat, d: nat)
    requires r < d
    ensures (q * d + r) % d == r && (q * d + r) / d == q
  {
    assert (q + 1) * d == q * d + d;
    DivUnique(q * d + r, d, q);
    DivMod(q * d + r, d);
  }
}
