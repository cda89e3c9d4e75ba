/** Facts about integer division by a divisor that is not a constant, which
    the solver does not find on its own. */
module Arith {

  lemma CeilingStep(y: nat, d: nat)
    requires d > 0
    ensures (y + d) / d == y / d + 1
  {
    DivBounds(y, d);
    DivUnique(y + d, d, y / d + 1);
  }

  lemma CeilingOf(y: nat, d: nat)
    requires d > 0
    ensures (y + d - 1) / d == y / d + (if y % d == 0 then 0 else 1)
  {
    var q := y / d;
    var qd := q * d;
    assert y == qd + y % d;
    assert (q + 1) * d == qd + d;
    if y % d == 0 {
      DivUnique(y + d - 1, d, q);
    } else {
      DivUnique(y + d - 1, d, q + 1);
    }
  }

  lemma DivBounds(y: nat, d: nat)
    requires d > 0
    ensures (y / d) * d <= y < (y / d) * d + d
  {
  }

  lemma DivUnique(y: int, d: int, q: int)
    requires d > 0 && q * d <= y < q * d + d
    ensures y / d == q
  {
    var r := y / d;
    assert r * d <= y < r * d + d;
    if r < q {
      MulMonotone(r + 1, q, d);
    } else if r > q {
      MulMonotone(q + 1, r, d);
    }
  }

  lemma MulMonotone(a: int, b: int, d: int)
    requires a <= b && d > 0
    ensures a * d <= b * d
  {
    assert b * d - a * d == (b - a) * d;
  }

  lemma DivAtMost(y: nat, d: nat)
    requires d > 0
    ensures y / d <= y
  {
    DivBounds(y, d);
    if y / d > 0 {
      MulMonotone(1, d, y / d);
    }
  }

  lemma DivShrinks(y: nat, d: nat)
    requires d > 1 && y > 0
    ensures y / d < y
  {
    DivBounds(y, d);
    if y / d > 0 {
      MulMonotone(2, d, y / d);
    }
  }

  /** Quotient and remainder are determined by the division equation. */
  lemma DivMod(x: int, d: int, q: int, r: int)
    requires d > 0 && 0 <= r < d && x == q * d + r
    ensures x / d == q && x % d == r
  {
    DivUnique(x, d, q);
  }
}
