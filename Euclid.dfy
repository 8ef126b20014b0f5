/** Divisibility, Euclid's greatest common divisor, and denominators whose
    fractions have a finite decimal expansion (only the prime factors 2 and
    5). */
module Euclid {
  import opened Arith

  /** k divides x (zero divides only zero). */
  predicate Divides(k: nat, x: int)
  {
    if k == 0 then x == 0 else x % k == 0
  }

  /** Euclid's recursion: gcd(a, b) = gcd(b, a mod b), gcd(a, 0) = a. */
  function Gcd(a: nat, b: nat): nat
    decreases b
  {
    if b == 0 then a else Gcd(b, a % b)
  }

  // ---------------------------------------------------------------------
  // Divisibility
  // ---------------------------------------------------------------------

  lemma DividesMultiple(k: nat, c: int)
    ensures Divides(k, k * c)
  {
    if k > 0 {
      MulMod(k, c);
    }
  }

  /** A divisor of x divides every multiple of x. */
  lemma DividesScaled(k: nat, x: int, c: int)
    requires Divides(k, x)
    ensures Divides(k, x * c)
  {
    if k > 0 {
      var q := x / k;
      assert x == k * q;
      assert x * c == k * (q * c);
      MulMod(k, q * c);
    }
  }

  /** A common divisor of x and y divides x * c + y. */
  lemma DividesLinear(k: nat, x: int, y: int, c: int)
    requires Divides(k, x) && Divides(k, y)
    ensures Divides(k, x * c + y)
  {
    if k > 0 {
      var qx, qy := x / k, y / k;
      assert x * c + y == k * (qx * c + qy) by {
        assert x == k * qx && y == k * qy;
      }
      MulMod(k, qx * c + qy);
    }
  }

  /** A positive number is at least as large as each of its divisors. */
  lemma DivisorBound(k: nat, x: int)
    requires Divides(k, x) && x > 0
    ensures 0 < k <= x
  {
    var q := x / k;
    assert x == k * q;
    if q >= 1 {
      MulAtLeast(k, q);
    }
  }

  /** Divisibility is transitive. */
  lemma DividesTransitive(a: nat, b: nat, c: int)
    requires Divides(a, b) && Divides(b, c)
    ensures Divides(a, c)
  {
    if b == 0 {
      assert c == 0;
      DividesMultiple(a, 0);
    } else {
      assert a > 0;
      var q := c / b;
      assert c == b * q;
      DividesScaled(a, b, q);
    }
  }

  // ---------------------------------------------------------------------
  // Euclid's gcd
  // ---------------------------------------------------------------------

  /** The gcd divides both arguments. */
  lemma {:induction false} GcdDivides(a: nat, b: nat)
    ensures Divides(Gcd(a, b), a) && Divides(Gcd(a, b), b)
    decreases b
  {
    if b == 0 {
      DividesMultiple(a, 0);
      assert a * 0 == 0;
      DividesMultiple(a, 1);
    } else {
      var g := Gcd(b, a % b);
      GcdDivides(b, a % b);
      assert a == b * (a / b) + a % b;
      DividesLinear(g, b, a % b, a / b);
      assert b * (a / b) == a - a % b;
    }
  }

  /** Every common divisor divides the gcd. */
  lemma {:induction false} GcdGreatest(a: nat, b: nat, k: nat)
    requires Divides(k, a) && Divides(k, b)
    ensures Divides(k, Gcd(a, b))
    decreases b
  {
    if b > 0 {
      assert a % b == a + b * -(a / b);
      DividesLinear(k, b, a, -(a / b));
      GcdGreatest(b, a % b, k);
    }
  }

  /** The gcd is zero only for two zeros, and gcd(0, d) = d. */
  lemma GcdZero(a: nat, b: nat)
    ensures Gcd(a, b) == 0 <==> a == 0 && b == 0
    ensures a == 0 ==> Gcd(a, b) == b
    ensures b == 0 ==> Gcd(a, b) == a
  {
    GcdDivides(a, b);
    if a == 0 && b > 0 {
      assert Gcd(a, b) == Gcd(b, 0);
    }
  }

  /** Dividing both arguments by their gcd leaves coprime numbers. */
  lemma GcdOfQuotients(a: nat, b: nat)
    requires b > 0
    ensures var g := Gcd(a, b);
            && g > 0 && a % g == 0 && b % g == 0
            && Gcd(a / g, b / g) == 1
  {
    var g := Gcd(a, b);
    GcdZero(a, b);
    GcdDivides(a, b);
    var a', b' := a / g, b / g;
    ExactQuotient(a, g);
    ExactQuotient(b, g);
    GcdScale(a', b', g);
    CancelFactor(g, Gcd(a', b'));
  }

  /** A multiple of g is g times its quotient. */
  lemma ExactQuotient(x: nat, g: nat)
    requires g > 0 && x % g == 0
    ensures x == g * (x / g)
  {
  }

  /** g * h == g with g > 0 forces h == 1. */
  lemma CancelFactor(g: nat, h: nat)
    requires g > 0 && g * h == g
    ensures h == 1
  {
    if h >= 2 {
      MulAtLeast(g, h - 1);
    }
  }

  /** Scaling both arguments scales the gcd. */
  lemma {:induction false} GcdScale(a: nat, b: nat, c: nat)
    ensures Gcd(c * a, c * b) == c * Gcd(a, b)
    decreases b
  {
    if c == 0 {
      GcdZero(0, 0);
    } else if b == 0 {
      assert c * b == 0;
    } else {
      MulPositive(c, b);
      ModScale(a, b, c);
      GcdScale(b, a % b, c);
    }
  }

  /** (c * a) mod (c * b) = c * (a mod b). */
  lemma ModScale(a: nat, b: nat, c: nat)
    requires b > 0 && c > 0
    ensures c * b > 0 && (c * a) % (c * b) == c * (a % b)
  {
    MulPositive(c, b);
    var q, r := a / b, a % b;
    assert c * a == (c * b) * q + c * r by {
      assert a == b * q + r;
    }
    assert 0 <= c * r < c * b by {
      assert c * (b - r) > 0 by { MulPositive(c, b - r); }
    }
    DivModUnique(c * a, c * b, q, c * r);
  }

  /** Euclid's lemma: a divisor of b * c that is coprime to b divides c. */
  lemma EuclidLemma(a: nat, b: nat, c: nat)
    requires Gcd(a, b) == 1 && Divides(a, b * c)
    ensures Divides(a, c)
  {
    EuclidStep(a, b, c, a * c, b * c);
  }

  lemma EuclidStep(a: nat, b: nat, c: nat, ca: nat, cb: nat)
    requires Gcd(a, b) == 1 && Divides(a, cb)
    requires ca == a * c && cb == b * c
    ensures Divides(a, c)
  {
    GcdScale(a, b, c);
    assert ca == c * a && cb == c * b;
    assert Gcd(ca, cb) == c;
    DividesMultiple(a, c);
    assert Divides(a, ca);
    GcdGreatest(ca, cb, a);
  }

  /** gcd(a, b) = gcd(b, a). */
  lemma GcdCommutes(a: nat, b: nat)
    ensures Gcd(a, b) == Gcd(b, a)
  {
    GcdDivides(a, b);
    GcdDivides(b, a);
    GcdGreatest(a, b, Gcd(b, a));
    GcdGreatest(b, a, Gcd(a, b));
    DividesAntisymmetric(Gcd(a, b), Gcd(b, a));
  }

  lemma DividesAntisymmetric(x: nat, y: nat)
    requires Divides(x, y) && Divides(y, x)
    ensures x == y
  {
    if x > 0 && y > 0 {
      DivisorBound(x, y);
      DivisorBound(y, x);
    }
  }

  // ---------------------------------------------------------------------
  // Terminating denominators
  // ---------------------------------------------------------------------

  /** x with every factor p divided out. */
  function StripFactor(x: nat, p: nat): (r: nat)
    requires x > 0 && p >= 2
    ensures r > 0 && r % p != 0
    decreases x
  {
    if x % p == 0 then
      QuotientSmaller(x, p);
      StripFactor(x / p, p)
    else x
  }

  /** The number of factors p in x. */
  function Multiplicity(x: nat, p: nat): nat
    requires x > 0 && p >= 2
    decreases x
  {
    if x % p == 0 then
      QuotientSmaller(x, p);
      1 + Multiplicity(x / p, p)
    else 0
  }

  lemma QuotientSmaller(x: nat, p: nat)
    requires x > 0 && p >= 2 && x % p == 0
    ensures 0 < x / p < x
  {
    var q := x / p;
    assert x == p * q;
    if q >= 1 {
      MulAtLeast(q, p - 1);
      assert q * p == q * (p - 1) + q;
    }
  }

  /** A fraction in lowest terms with this denominator has a finite
      decimal expansion: nothing but 2s and 5s divides it. */
  predicate TerminatingDenominator(d: nat)
    requires d > 0
  {
    StripFactor(StripFactor(d, 2), 5) == 1
  }

  /** x = p^multiplicity * (the rest). */
  lemma {:induction false} StripFactorSplit(x: nat, p: nat)
    requires x > 0 && p >= 2
    ensures x == Pow(p, Multiplicity(x, p)) * StripFactor(x, p)
    decreases x
  {
    if x % p == 0 {
      var y := x / p;
      QuotientSmaller(x, p);
      assert x == p * y;
      StripFactorSplit(y, p);
      var k := Multiplicity(y, p);
      assert Multiplicity(x, p) == k + 1;
      assert StripFactor(x, p) == StripFactor(y, p);
      var s := StripFactor(y, p);
      calc {
        Pow(p, k + 1) * s;
        (p * Pow(p, k)) * s;
        p * (Pow(p, k) * s);
        p * y;
      }
    }
  }

  /** Stripping p from p^i * y strips the p^i first. */
  lemma {:induction false} StripFactorOfPower(i: nat, y: nat, p: nat)
    requires y > 0 && p >= 2
    ensures Pow(p, i) * y > 0
    ensures StripFactor(Pow(p, i) * y, p) == StripFactor(y, p)
    decreases i
  {
    MulPositive(Pow(p, i), y);
    if i > 0 {
      var x := Pow(p, i) * y;
      var z := Pow(p, i - 1) * y;
      assert x == p * z;
      MulMod(p, z);
      StripFactorOfPower(i - 1, y, p);
    }
  }

  /** The terminating denominators are exactly the products 2^i * 5^j. */
  lemma TerminatingShape(d: nat) returns (i: nat, j: nat)
    requires d > 0 && TerminatingDenominator(d)
    ensures d == Pow(2, i) * Pow(5, j)
    ensures i == Multiplicity(d, 2) && j == Multiplicity(StripFactor(d, 2), 5)
  {
    i := Multiplicity(d, 2);
    var s := StripFactor(d, 2);
    j := Multiplicity(s, 5);
    StripFactorSplit(d, 2);
    StripFactorSplit(s, 5);
    assert s == Pow(5, j);
  }

  /** Conversely, every product 2^i * 5^j is a terminating denominator. */
  lemma TerminatingPowers(i: nat, j: nat)
    ensures Pow(2, i) * Pow(5, j) > 0
    ensures TerminatingDenominator(Pow(2, i) * Pow(5, j))
  {
    StripFactorOfPower(i, Pow(5, j), 2);
    FivesAreOdd(j);
    assert StripFactor(Pow(5, j), 2) == Pow(5, j);
    StripFactorOfPower(j, 1, 5);
    assert Pow(5, j) * 1 == Pow(5, j);
  }

  lemma {:induction false} FivesAreOdd(j: nat)
    ensures Pow(5, j) % 2 == 1
    decreases j
  {
    if j > 0 {
      FivesAreOdd(j - 1);
      var y := Pow(5, j - 1);
      assert Pow(5, j) == 4 * y + y;
    }
  }

  /** 10^e is a multiple of every terminating denominator, from the larger
      of its two exponents on. */
  lemma TerminatingDividesPowerOfTen(d: nat, e: nat)
    requires d > 0 && TerminatingDenominator(d)
    requires e >= DecimalExponent(d)
    ensures Pow(10, e) % d == 0
  {
    var i, j := TerminatingShape(d);
    assert i <= e && j <= e;
    PowerProductDividesPowerOfTen(i, j, e);
  }

  /** 2^i * 5^j divides 10^e once e >= i and e >= j. */
  lemma PowerProductDividesPowerOfTen(i: nat, j: nat, e: nat)
    requires i <= e && j <= e
    ensures Pow(2, i) * Pow(5, j) > 0
    ensures Pow(10, e) % (Pow(2, i) * Pow(5, j)) == 0
  {
    MulPositive(Pow(2, i), Pow(5, j));
    PowMul(2, 5, e);
    PowDividesPow(2, i, e);
    PowDividesPow(5, j, e);
    var d := Pow(2, i) * Pow(5, j);
    var a, b := Pow(2, e - i), Pow(5, e - j);
    assert Pow(10, e) == Pow(2, e) * Pow(5, e);
    assert Pow(10, e) == d * (a * b) by {
      assert Pow(2, e) == Pow(2, i) * a;
      assert Pow(5, e) == Pow(5, j) * b;
      ProductRegroup(Pow(2, i), a, Pow(5, j), b);
    }
    MulMod(d, a * b);
  }

  lemma ProductRegroup(w: int, x: int, y: int, z: int)
    ensures (w * x) * (y * z) == (w * y) * (x * z)
  {
  }

  /** The number of decimal places a terminating denominator needs at most:
      the larger of its exponents of 2 and of 5. */
  function DecimalExponent(d: nat): nat
    requires d > 0
  {
    var i := Multiplicity(d, 2);
    var j := Multiplicity(StripFactor(d, 2), 5);
    if i >= j then i else j
  }

  /** Conversely, a divisor of a power of ten is terminating. */
  lemma DivisorOfPowerOfTenTerminates(d: nat, e: nat)
    requires d > 0 && Pow(10, e) % d == 0
    ensures TerminatingDenominator(d)
  {
    var s2 := StripFactor(d, 2);
    var s := StripFactor(s2, 5);
    StripFactorSplit(d, 2);
    StripFactorSplit(s2, 5);
    var a, b := Pow(2, Multiplicity(d, 2)), Pow(5, Multiplicity(s2, 5));
    InnerFactorDivides(d, a, s2, b, s);
    OddStaysOdd(s2, b, s);
    var t := Pow(10, e);
    assert Divides(d, t);
    DividesTransitive(s, d, t);
    CoprimeToTenDividesPower(s, e);
  }

  /** s divides d = a * (b * s). */
  lemma InnerFactorDivides(d: nat, a: nat, s2: nat, b: nat, s: nat)
    requires d == a * s2 && s2 == b * s
    ensures Divides(s, d)
  {
    assert d == s * (a * b);
    DividesMultiple(s, a * b);
  }

  /** A factor of an odd number is odd. */
  lemma OddStaysOdd(x: nat, b: nat, s: nat)
    requires x % 2 != 0 && x == b * s
    ensures s % 2 != 0
  {
    if s % 2 == 0 {
      var h := s / 2;
      assert x == 2 * (b * h) by {
        assert s == 2 * h;
      }
      MulMod(2, b * h);
    }
  }

  /** A number with neither factor 2 nor 5 divides a power of ten only if it
      is 1. */
  lemma {:induction false} CoprimeToTenDividesPower(s: nat, e: nat)
    requires s > 0 && s % 2 != 0 && s % 5 != 0
    requires Divides(s, Pow(10, e))
    ensures s == 1
    decreases e
  {
    if e == 0 {
      DivisorBound(s, 1);
    } else {
      assert Pow(10, e) == 10 * Pow(10, e - 1);
      CoprimeToTen(s);
      EuclidLemma(s, 10, Pow(10, e - 1));
      CoprimeToTenDividesPower(s, e - 1);
    }
  }

  lemma CoprimeToTen(s: nat)
    requires s > 0 && s % 2 != 0 && s % 5 != 0
    ensures Gcd(s, 10) == 1
  {
    var g := Gcd(s, 10);
    GcdDivides(s, 10);
    DivisorBound(g, 10);
    DivisorsOfTen(g);
    if g == 10 {
      DividesTransitive(2, 10, s);
    }
  }

  lemma DivisorsOfTen(g: nat)
    requires 0 < g <= 10 && 10 % g == 0
    ensures g == 1 || g == 2 || g == 5 || g == 10
  {
  }

  /** A denominator is terminating exactly when some power of ten is a
      multiple of it. */
  lemma TerminatingIff(d: nat)
    requires d > 0
    ensures TerminatingDenominator(d) <==> Pow(10, DecimalExponent(d)) % d == 0
  {
    if TerminatingDenominator(d) {
      TerminatingDividesPowerOfTen(d, DecimalExponent(d));
    }
    if Pow(10, DecimalExponent(d)) % d == 0 {
      DivisorOfPowerOfTenTerminates(d, DecimalExponent(d));
    }
  }
}
