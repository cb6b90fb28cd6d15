/** Multiplication and division facts that the solver does not find by itself. */
module Arithmetic {
  lemma MulMonotone(a: nat, b: nat, s: nat)
    requires a <= b
    ensures a * s <= b * s
  {
    assert b * s == a * s + (b - a) * s;
  }

  lemma DivUnique(x: nat, s: nat, q: nat, r: nat)
    requires x == q * s + r && r < s
    ensures x / s == q && x % s == r
  {
    if q < x / s {
      MulMonotone(q + 1, x / s, s);
    } else if x / s < q {
      MulMonotone(x / s + 1, q, s);
    }
  }

  lemma ModPlusMultiple(x: nat, k: nat, s: nat)
    requires s > 0
    ensures (x + k * s) % s == x % s
  {
    assert x + k * s == (x / s + k) * s + x % s;
    DivUnique(x + k * s, s, x / s + k, x % s);
  }
}
