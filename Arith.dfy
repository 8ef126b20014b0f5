/** Integer arithmetic shared by the model: absolute value, powers, and the
    truncating (toward zero) division that bcmath performs. */
module Arith {

  function Abs(x: int): nat
  {
    if x < 0 then -x else x
  }

  function Pow(b: nat, e: nat): (p: nat)
    ensures b > 0 ==> p > 0
    decreases e
  {
    if e == 0 then 1 else b * Pow(b, e - 1)
  }

  /** Division of naturals, kept apart so that a quotient is known to be a
      natural without arithmetic reasoning at each use. */
  function Quotient(m: nat, p: nat): nat
    requires p > 0
  {
    m / p
  }

  /** Division truncating toward zero, as bcdiv computes at scale 0. */
  function TruncDiv(a: int, b: int): (q: int)
    requires b > 0
    ensures Abs(q) == Abs(a) / b
    ensures q == 0 || (q < 0 <==> a < 0)
  {
    if a >= 0 then a / b else -((-a) / b)
  }

  lemma MulNonNegative(x: nat, y: nat)
    ensures x * y >= 0
  {
  }

  lemma MulPositive(x: int, y: int)
    requires x > 0 && y > 0
    ensures x * y > 0
  {
  }

  lemma {:induction false} PowAdd(b: nat, e1: nat, e2: nat)
    ensures Pow(b, e1 + e2) == Pow(b, e1) * Pow(b, e2)
    decreases e1
  {
    if e1 > 0 {
      PowAdd(b, e1 - 1, e2);
      calc {
        Pow(b, e1 + e2);
        b * Pow(b, e1 - 1 + e2);
        b * (Pow(b, e1 - 1) * Pow(b, e2));
        (b * Pow(b, e1 - 1)) * Pow(b, e2);
      }
    }
  }

  lemma {:induction false} PowMul(a: nat, b: nat, e: nat)
    ensures Pow(a * b, e) == Pow(a, e) * Pow(b, e)
    decreases e
  {
    if e > 0 {
      PowMul(a, b, e - 1);
      calc {
        Pow(a * b, e);
        (a * b) * Pow(a * b, e - 1);
        (a * b) * (Pow(a, e - 1) * Pow(b, e - 1));
        (a * Pow(a, e - 1)) * (b * Pow(b, e - 1));
      }
    }
  }

  lemma {:induction false} PowMonotone(b: nat, e1: nat, e2: nat)
    requires b >= 1 && e1 <= e2
    ensures Pow(b, e1) <= Pow(b, e2)
    decreases e2
  {
    if e1 < e2 {
      PowMonotone(b, e1, e2 - 1);
      assert Pow(b, e2) == b * Pow(b, e2 - 1);
    }
  }

  lemma {:induction false} PowStrictlyMonotone(b: nat, e1: nat, e2: nat)
    requires b >= 2 && e1 < e2
    ensures Pow(b, e1) < Pow(b, e2)
    decreases e2
  {
    PowMonotone(b, e1, e2 - 1);
    assert Pow(b, e2) == b * Pow(b, e2 - 1);
  }

  /** b^e grows at least as fast as e: used to bound exponents. */
  lemma {:induction false} PowExceedsExponent(b: nat, e: nat)
    requires b >= 2
    ensures e < Pow(b, e)
    decreases e
  {
    if e > 0 {
      PowExceedsExponent(b, e - 1);
      assert Pow(b, e) == b * Pow(b, e - 1);
    }
  }

  /** A smaller power divides a larger one. */
  lemma PowDividesPow(b: nat, e1: nat, e2: nat)
    requires b >= 1 && e1 <= e2
    ensures Pow(b, e1) > 0
    ensures Pow(b, e2) % Pow(b, e1) == 0
    ensures Pow(b, e2) == Pow(b, e1) * Pow(b, e2 - e1)
  {
    PowAdd(b, e1, e2 - e1);
    MulMod(Pow(b, e1), Pow(b, e2 - e1));
  }

  /** Quotient and remainder are determined by the division equation. */
  lemma DivModUnique(a: int, k: int, q: int, r: int)
    requires k > 0 && a == k * q + r && 0 <= r < k
    ensures a / k == q && a % k == r
  {
    var q', r' := a / k, a % k;
    assert a == k * q' + r';
    var d := q - q';
    assert k * d == r' - r by {
      assert k * q - k * q' == r' - r;
    }
    if d >= 1 {
      MulAtLeast(k, d);
    } else if d <= -1 {
      MulAtLeast(k, -d);
    }
  }

  lemma MulAtLeast(k: int, x: int)
    requires k > 0 && x >= 1
    ensures k * x >= k
  {
    assert k * x == k * (x - 1) + k;
    assert k * (x - 1) >= 0;
  }

  lemma MulMod(k: nat, c: int)
    requires k > 0
    ensures (k * c) % k == 0 && (k * c) / k == c
  {
    DivModUnique(k * c, k, c, 0);
  }
}
