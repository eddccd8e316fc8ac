/** The few facts about products and quotients that the encoder's proofs use. */
module Arithmetic {

  lemma MulGap(a: int, b: int, d: nat)
    requires a < b
    ensures a * d + d <= b * d
  {
    var gap := b - a - 1;
    assert gap * d >= 0;
    assert b * d == gap * d + a * d + d;
  }

  lemma MulMonotone(q: nat, a: int, b: int)
    requires a <= b
    ensures q * a <= q * b
  {
    assert q * (b - a) >= 0;
  }

  lemma DivMod(x: nat, d: nat)
    requires d > 0
    ensures x == x / d * d + x % d
  {}

  /** Quotient and remainder are the only pair of their kind. */
  lemma DivModUnique(x: nat, d: nat, q: nat, r: nat)
    requires d > 0 && x == q * d + r && r < d
    ensures x / d == q && x % d == r
  {
    DivMod(x, d);
    if q < x / d {
      MulGap(q, x / d, d);
    } else if x / d < q {
      MulGap(x / d, q, d);
    }
  }

  function Power(b: nat, k: nat): nat {
    if k == 0 then 1 else b * Power(b, k - 1)
  }

  lemma {:induction false} PowerIsPositive(b: nat, k: nat)
    requires b > 0
    ensures Power(b, k) > 0
  {
    if k > 0 {
      PowerIsPositive(b, k - 1);
      MulAtLeast(b, Power(b, k - 1));
    }
  }

  /** Dividing twice is dividing by the product. */
  lemma DivTwice(x: nat, a: nat, b: nat)
    requires a > 0 && b > 0
    ensures 0 < a * b && x / (a * b) == x / a / b
  {
    var y := x / a;
    var q, r := y / b, y % b * a + x % a;
    DivMod(x, a);
    DivMod(y, b);
    MulAtLeast(a, b);
    MulGap(y % b, b, a);
    assert x == (q * b + y % b) * a + x % a == q * (a * b) + r by {
      assert (q * b + y % b) * a == q * b * a + y % b * a;
      assert q * b * a == q * (a * b);
    }
    DivModUnique(x, a * b, q, r);
  }

  lemma MulAtLeast(q: int, d: nat)
    requires d > 0 && q >= 0
    ensures q <= q * d
  {}

  lemma QuotientAtMost(x: nat, d: nat)
    requires d > 0
    ensures 0 <= x / d <= x
  {
    DivMod(x, d);
    MulAtLeast(x / d, d);
  }

  /** A product exceeds a bound exactly when the quotient of the bound is too small. */
  lemma ProductExceeds(a: nat, d: nat, bound: nat)
    requires d > 0
    ensures a > bound / d <==> a * d > bound
  {
    DivMod(bound, d);
    if a > bound / d {
      MulGap(bound / d, a, d);
    } else if a < bound / d {
      MulGap(a, bound / d, d);
    }
  }
}
