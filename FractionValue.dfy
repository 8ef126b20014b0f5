/** The value semantics of the fraction class: a numerator and a positive
    denominator, the operations that build new fractions from old ones, and
    the conversions to and from decimal strings. */
module FractionValue {
  import opened Arith
  import opened Digits
  import opened BcMath
  import opened Euclid
  import opened Php

  datatype Fraction = Fraction(numerator: int, denominator: int) {

    /** Every fraction the class builds has a positive denominator. */
    predicate Valid()
    {
      denominator > 0
    }

    /** The rational number the pair stands for. */
    ghost function Value(): real
      requires Valid()
    {
      numerator as real / denominator as real
    }

    /** In lowest terms. */
    predicate Reduced()
    {
      Valid() && Euclid.Gcd(Abs(numerator), denominator) == 1
    }

    /** setDenominator($value): a zero denominator makes the fraction 0/1;
        a negative one moves its sign to the numerator. */
    function SetDenominator(v: int): (r: Fraction)
      ensures r.Valid()
      ensures v == 0 ==> r.numerator == 0 && r.denominator == 1
      ensures v != 0 ==> r.denominator == Abs(v) && r.Value() == numerator as real / v as real
    {
      var n := if v == 0 then 0 else numerator;
      var d := if v == 0 then 1 else v;
      if d < 0 then Fraction(-n, -d) else Fraction(n, d)
    }

    /** toString($separator): the numerator, the separator, the
        denominator. With '/' the two parts split apart again. */
    function ToString(separator: string): (s: string)
      ensures separator == "/" ==> Explode(s, '/') == [IntToString(numerator), IntToString(denominator)]
    {
      IntToStringHasNoSeparators(numerator);
      IntToStringHasNoSeparators(denominator);
      ExplodeAt(IntToString(numerator), IntToString(denominator), '/');
      IntToString(numerator) + separator + IntToString(denominator)
    }

    /** gcd(): Euclid's algorithm on the absolute values. */
    function Gcd(): (g: nat)
      ensures Valid() ==> g > 0
    {
      GcdZero(Abs(numerator), Abs(denominator));
      Euclid.Gcd(Abs(numerator), Abs(denominator))
    }

    /** reduce(): divide both parts by the gcd; a new fraction equal in
        value and in lowest terms. */
    function Reduce(): (r: Fraction)
      requires Valid()
      ensures r.Reduced() && r.Value() == Value()
      ensures numerator == 0 ==> r == Fraction(0, 1)
    {
      var g := Gcd();
      ReduceResult(this);
      New(TruncDiv(numerator, g), TruncDiv(denominator, g))
    }

    /** reciprocate(): the fraction d/n, which is 0/1 when n is zero. */
    function Reciprocate(): (r: Fraction)
      requires Valid()
      ensures r.Valid()
      ensures numerator == 0 ==> r == Fraction(0, 1)
      ensures numerator != 0 ==> r.Value() * Value() == 1.0 && r.denominator == Abs(numerator)
    {
      var r := New(denominator, numerator);
      assert numerator != 0 ==> r.Value() * Value() == 1.0 by {
        if numerator != 0 {
          ReciprocalProduct(numerator, denominator);
        }
      }
      r
    }

    /** The cross-multiplied sum, before reduction. */
    function CrossAdd(other: Fraction): (r: Fraction)
      requires Valid() && other.Valid()
      ensures r.Valid() && r.Value() == Value() + other.Value()
    {
      var r := New(numerator * other.denominator + other.numerator * denominator, denominator * other.denominator);
      SumValue(numerator, denominator, other.numerator, other.denominator);
      r
    }

    /** The cross-multiplied difference, before reduction. */
    function CrossSubtract(other: Fraction): (r: Fraction)
      requires Valid() && other.Valid()
      ensures r.Valid() && r.Value() == Value() - other.Value()
    {
      var r := New(numerator * other.denominator - other.numerator * denominator, denominator * other.denominator);
      DifferenceValue(numerator, denominator, other.numerator, other.denominator);
      r
    }

    /** The product of the parts, before reduction. */
    function CrossMultiply(other: Fraction): (r: Fraction)
      requires Valid() && other.Valid()
      ensures r.Valid() && r.Value() == Value() * other.Value()
    {
      var r := New(numerator * other.numerator, denominator * other.denominator);
      ProductValue(numerator, denominator, other.numerator, other.denominator);
      r
    }

    /** add($fraction): the reduced sum. */
    function Add(other: Fraction): (r: Fraction)
      requires Valid() && other.Valid()
      ensures r.Reduced() && r.Value() == Value() + other.Value()
    {
      CrossAdd(other).Reduce()
    }

    /** subtract($fraction): the reduced difference. */
    function Subtract(other: Fraction): (r: Fraction)
      requires Valid() && other.Valid()
      ensures r.Reduced() && r.Value() == Value() - other.Value()
    {
      CrossSubtract(other).Reduce()
    }

    /** multiply($fraction): the reduced product. */
    function Multiply(other: Fraction): (r: Fraction)
      requires Valid() && other.Valid()
      ensures r.Reduced() && r.Value() == Value() * other.Value()
    {
      CrossMultiply(other).Reduce()
    }

    /** divide($fraction): multiply by the reciprocal; dividing by zero
        gives 0/1. Its value is the quotient (DivideValue). */
    function Divide(other: Fraction): (r: Fraction)
      requires Valid() && other.Valid()
      ensures r.Reduced()
      ensures other.numerator == 0 ==> r == Fraction(0, 1)
    {
      var q := other.Reciprocate();
      if other.numerator == 0 then
        ZeroProduct(this, q);
        Multiply(q)
      else
        Multiply(q)
    }

    /** isTerminating(): the denominator divided by the gcd has no prime
        factor but 2 and 5. */
    predicate IsTerminating(): (b: bool)
      requires Valid()
      ensures Reduce().denominator > 0
      ensures b <==> Pow(10, DecimalExponent(Reduce().denominator)) % Reduce().denominator == 0
    {
      ReduceFacts(this);
      ReduceParts(this);
      TerminatingIff(denominator / Gcd());
      TerminatingDenominator(denominator / Gcd())
    }

    /** The precision toDecimal picks when asked to choose one. */
    function AutoPrecision(): nat
      requires Valid()
    {
      if denominator % 10 == 0 then
        IntToStringNotEmpty(denominator);
        |IntToString(denominator)| - 1
      else if denominator == 1 then 0
      else if IsTerminating() then
        ReduceFacts(this);
        TerminatingPrecision(Reduce().denominator, 1)
      else |IntToString(denominator)|
    }

    /** The precision toDecimal($precision, $auto_precision) works at. */
    function DecimalPrecision(precision: nat, auto: bool): (p: nat)
      requires Valid()
      ensures !auto ==> p == precision
      ensures auto ==> p >= precision && p >= AutoPrecision() && (p == precision || p == AutoPrecision())
    {
      if auto && AutoPrecision() > precision then AutoPrecision() else precision
    }

    /** toDecimal($precision, $auto_precision). */
    function ToDecimal(precision: nat, auto: bool): (s: string)
      requires Valid()
      ensures IsNumber(s)
      ensures Parse(s) == Decimal(RoundHalfAway(numerator, denominator, DecimalPrecision(precision, auto)),
                                  DecimalPrecision(precision, auto))
    {
      var p := DecimalPrecision(precision, auto);
      ParseToString(RoundedDecimal(numerator, denominator, p));
      RoundedDecimalRounds(numerator, denominator, p);
      RoundedDecimal(numerator, denominator, p).ToString()
    }
  }

  /** new Fraction($numerator, $denominator). */
  function New(n: int, d: int): (r: Fraction)
    ensures r.Valid()
    ensures d == 0 ==> r == Fraction(0, 1)
    ensures d != 0 ==> r.denominator == Abs(d) && r.Value() == n as real / d as real
  {
    Fraction(n, 1).SetDenominator(d)
  }

  /** createFromDecimal($value): the digits over 10^k, where k counts the
      characters after the last '.'. */
  function CreateFromDecimal(s: string): (r: Fraction)
    requires IsNumber(s)
    ensures r == Fraction(Parse(s).unscaled, Pow(10, Parse(s).scale))
  {
    var k := CharsAfterLastDot(s);
    var denominator := Pow(10, k);
    var numerator := BcMul(Parse(s), Decimal(denominator, 0), 0).unscaled;
    CharsAfterLastDotOfNumber(s);
    TruncDivCancel(Parse(s).unscaled, denominator);
    New(numerator, denominator)
  }

  /** terminatingPrecision($denominator, $exponent): the least e >= exponent
      with 10^e divisible by the denominator. */
  function TerminatingPrecision(d: nat, e: nat): (r: nat)
    requires d > 0 && TerminatingDenominator(d)
    ensures e <= r && Pow(10, r) % d == 0
    ensures forall k :: e <= k < r ==> Pow(10, k) % d != 0
    decreases DecimalExponent(d) - e
  {
    if Pow(10, e) % d == 0 then e
    else
      assert e < DecimalExponent(d) by {
        if e >= DecimalExponent(d) {
          TerminatingDividesPowerOfTen(d, e);
        }
      }
      TerminatingPrecision(d, e + 1)
  }

  /** '0.' . str_repeat('0', $precision) . '5'. */
  function HalfString(p: nat): string
  {
    "0." + Repeat('0', p) + "5"
  }

  /** bcRound($value, $precision): add or subtract half a unit in the last
      place, chosen by the sign character, then truncate to the precision. */
  function BcRound(value: Decimal, p: nat): (r: Decimal)
    ensures r.scale == p
    ensures value.scale == p + 1 ==>
              r == Decimal(if value.unscaled < 0 then -((Abs(value.unscaled) + 5) / 10)
                           else (Abs(value.unscaled) + 5) / 10, p)
  {
    HalfAdjusted(value, p);
    var half := Parse(HalfString(p));
    if value.ToString()[0] != '-' then BcAdd(value, half, p) else BcSub(value, half, p)
  }

  /** bcdiv($numerator, $denominator, $precision + 1), rounded to
      $precision. */
  function RoundedDecimal(n: int, d: int, p: nat): Decimal
    requires d > 0
  {
    BcRound(BcDiv(n, d, p + 1), p)
  }

  // ---------------------------------------------------------------------
  // Reference definition of rounding
  // ---------------------------------------------------------------------

  /** n/d * 10^p rounded to the nearest integer, halves away from zero:
      |u| = floor(|n/d| * 10^p + 1/2), with the sign of n. */
  function RoundHalfAway(n: int, d: int, p: nat): int
    requires d > 0
  {
    SignedNearest(n, d, Abs(n) * Pow(10, p))
  }

  /** The integer nearest to a/d (halves up), given the sign of n. */
  function SignedNearest(n: int, d: int, a: nat): int
    requires d > 0
  {
    var m := (2 * a + d) / (2 * d);
    if n < 0 then -m else m
  }

  /** u is n/d * 10^p rounded half away from zero: it has the sign of n
      and |u| is within half a unit of |n/d| * 10^p, a tie going up. */
  predicate IsRoundedHalfAway(n: int, d: int, p: nat, u: int)
    requires d > 0
  {
    IsSignedNearest(n, d, Abs(n) * Pow(10, p), u)
  }

  /** u has the sign of n and |u| is within half a unit of a/d, a tie
      going up. */
  predicate IsSignedNearest(n: int, d: int, a: nat, u: int)
    requires d > 0
  {
    && (u == 0 || (u < 0 <==> n < 0))
    && 2 * a - d < 2 * d * Abs(u) <= 2 * a + d
  }

  // ---------------------------------------------------------------------
  // Lemmas: construction and the field operations
  // ---------------------------------------------------------------------

  /** Two valid pairs have the same value exactly when they cross-multiply
      equal. */
  lemma SameValueIff(a: Fraction, b: Fraction)
    requires a.Valid() && b.Valid()
    ensures a.Value() == b.Value() <==> a.numerator * b.denominator == b.numerator * a.denominator
  {
    var n1, d1, n2, d2 := a.numerator as real, a.denominator as real, b.numerator as real, b.denominator as real;
    assert a.Value() * d1 == n1;
    assert b.Value() * d2 == n2;
    if a.Value() == b.Value() {
      assert n1 * d2 == a.Value() * d1 * d2 == n2 * d1;
    }
    if a.numerator * b.denominator == b.numerator * a.denominator {
      assert n1 * d2 == n2 * d1;
      assert a.Value() * (d1 * d2) == b.Value() * (d1 * d2);
    }
  }

  /** The gcd divides both parts, and the quotients are the reduced parts. */
  lemma ReduceFacts(f: Fraction)
    requires f.Valid()
    ensures f.Gcd() > 0
    ensures Abs(f.numerator) % f.Gcd() == 0 && f.denominator % f.Gcd() == 0
    ensures f.denominator / f.Gcd() > 0
    ensures Euclid.Gcd(Abs(f.numerator) / f.Gcd(), f.denominator / f.Gcd()) == 1
  {
    GcdOfQuotients(Abs(f.numerator), f.denominator);
    var g := f.Gcd();
    assert f.denominator == g * (f.denominator / g);
  }

  /** The parts divided by the gcd form a fraction in lowest terms with
      the same value; a zero numerator gives 0/1. */
  lemma ReduceResult(f: Fraction)
    requires f.Valid()
    ensures f.Gcd() > 0
    ensures var r := Fraction(TruncDiv(f.numerator, f.Gcd()), f.denominator / f.Gcd());
            && r.Reduced() && r.Value() == f.Value()
            && New(TruncDiv(f.numerator, f.Gcd()), TruncDiv(f.denominator, f.Gcd())) == r
            && (f.numerator == 0 ==> r == Fraction(0, 1))
  {
    ReduceFacts(f);
    var g := f.Gcd();
    var n', d' := TruncDiv(f.numerator, g), f.denominator / g;
    var r := Fraction(n', d');
    assert r.Reduced();
    ExactParts(f.numerator, g, n');
    ExactParts(f.denominator, g, d');
    CommonFactorValue(f.numerator, f.denominator, g, n', d');
    if f.numerator == 0 {
      GcdZero(0, f.denominator);
    }
  }

  lemma CommonFactorValue(n: int, d: int, g: int, n': int, d': int)
    requires g > 0 && d' > 0 && n == g * n' && d == g * d'
    ensures n' as real / d' as real == n as real / d as real
  {
    assert n as real == g as real * n' as real;
    assert d as real == g as real * d' as real;
    ScaledValue(n' as real, d' as real, g as real);
  }

  lemma ExactParts(x: int, g: int, c: int)
    requires g > 0 && Abs(x) % g == 0 && c == TruncDiv(x, g)
    ensures x == g * c
  {
    if x < 0 {
      assert -x == g * (-c);
    }
  }

  lemma ScaledValue(n: real, d: real, g: real)
    requires d > 0.0 && g > 0.0
    ensures (g * n) / (g * d) == n / d
  {
  }

  lemma ReciprocalProduct(n: int, d: int)
    requires n != 0 && d > 0
    ensures New(d, n).Value() * (n as real / d as real) == 1.0
  {
    var r := New(d, n);
    assert r.Value() == d as real / n as real;
  }

  lemma SumValue(n1: int, d1: int, n2: int, d2: int)
    requires d1 > 0 && d2 > 0
    ensures d1 * d2 > 0
    ensures New(n1 * d2 + n2 * d1, d1 * d2).Value() == n1 as real / d1 as real + n2 as real / d2 as real
  {
    MulPositive(d1, d2);
    var r := New(n1 * d2 + n2 * d1, d1 * d2);
    assert r.Value() == (n1 * d2 + n2 * d1) as real / (d1 * d2) as real;
    RealFractionSum(n1 as real, d1 as real, n2 as real, d2 as real);
  }

  lemma DifferenceValue(n1: int, d1: int, n2: int, d2: int)
    requires d1 > 0 && d2 > 0
    ensures d1 * d2 > 0
    ensures New(n1 * d2 - n2 * d1, d1 * d2).Value() == n1 as real / d1 as real - n2 as real / d2 as real
  {
    MulPositive(d1, d2);
    var r := New(n1 * d2 - n2 * d1, d1 * d2);
    assert r.Value() == (n1 * d2 + (-n2) * d1) as real / (d1 * d2) as real;
    RealFractionSum(n1 as real, d1 as real, (-n2) as real, d2 as real);
  }

  lemma ProductValue(n1: int, d1: int, n2: int, d2: int)
    requires d1 > 0 && d2 > 0
    ensures d1 * d2 > 0
    ensures New(n1 * n2, d1 * d2).Value() == (n1 as real / d1 as real) * (n2 as real / d2 as real)
  {
    MulPositive(d1, d2);
    var r := New(n1 * n2, d1 * d2);
    assert r.Value() == (n1 * n2) as real / (d1 * d2) as real;
    RealFractionProduct(n1 as real, d1 as real, n2 as real, d2 as real);
  }

  lemma RealFractionSum(a: real, b: real, c: real, d: real)
    requires b > 0.0 && d > 0.0
    ensures (a * d + c * b) / (b * d) == a / b + c / d
  {
  }

  lemma RealFractionProduct(a: real, b: real, c: real, d: real)
    requires b > 0.0 && d > 0.0
    ensures (a * c) / (b * d) == (a / b) * (c / d)
  {
  }

  lemma ZeroProduct(f: Fraction, q: Fraction)
    requires f.Valid() && q == Fraction(0, 1)
    ensures f.Multiply(q) == Fraction(0, 1)
  {
    assert f.CrossMultiply(q).numerator == 0;
  }

  /** Dividing by a non-zero fraction is the cross-multiplied quotient
      n1 * d2 / (d1 * n2), reduced. */
  lemma DivideCross(f: Fraction, other: Fraction)
    requires f.Valid() && other.Valid() && other.numerator != 0
    ensures f.Divide(other) == New(f.numerator * other.denominator, f.denominator * other.numerator).Reduce()
  {
    var q := other.Reciprocate();
    ReciprocalDenominator(other);
    assert f.Divide(other) == f.CrossMultiply(q).Reduce();
    CrossReciprocal(f.numerator, f.denominator, other.numerator, other.denominator);
  }

  lemma CrossReciprocal(n1: int, d1: int, n2: int, d2: int)
    requires d1 > 0 && d2 > 0 && n2 != 0
    ensures New(n1 * (if n2 < 0 then -d2 else d2), d1 * Abs(n2)) == New(n1 * d2, d1 * n2)
  {
    if n2 < 0 {
      NegateFactor(n1, d2);
      NegateFactor(d1, n2);
      MulPositive(d1, -n2);
    } else {
      MulPositive(d1, n2);
    }
  }

  lemma NegateFactor(a: int, b: int)
    ensures a * (-b) == -(a * b)
  {
  }

  /** Dividing by a non-zero fraction gives the quotient of the values. */
  lemma DivideValue(f: Fraction, other: Fraction)
    requires f.Valid() && other.Valid() && other.numerator != 0
    ensures f.Divide(other).Value() == f.Value() / other.Value()
  {
    var n1, d1, n2, d2 := f.numerator, f.denominator, other.numerator, other.denominator;
    DivideCross(f, other);
    var x := New(n1 * d2, d1 * n2);
    RealQuotient(n1, d1, n2, d2, x.Value(), f.Divide(other).Value(), f.Value(), other.Value());
  }

  lemma RealQuotient(n1: int, d1: int, n2: int, d2: int, xv: real, v: real, fv: real, ov: real)
    requires d1 > 0 && d2 > 0 && n2 != 0 && d1 * n2 != 0
    requires v == xv && xv == (n1 * d2) as real / (d1 * n2) as real
    requires fv == n1 as real / d1 as real && ov == n2 as real / d2 as real
    ensures v == fv / ov
  {
    assert (n1 * d2) as real == n1 as real * d2 as real;
    assert (d1 * n2) as real == d1 as real * n2 as real;
  }

  /** reduce() is TruncDiv of each part by the gcd. */
  lemma ReduceParts(f: Fraction)
    requires f.Valid()
    ensures f.Reduce() == Fraction(TruncDiv(f.numerator, f.Gcd()), f.denominator / f.Gcd())
  {
    ReduceFacts(f);
  }

  /** Two fractions in lowest terms with the same value are the same pair. */
  lemma ReducedUnique(a: Fraction, b: Fraction)
    requires a.Reduced() && b.Reduced() && a.Value() == b.Value()
    ensures a == b
  {
    SameValueIff(a, b);
    var n1, d1, n2, d2 := a.numerator, a.denominator, b.numerator, b.denominator;
    assert Abs(n1) * d2 == Abs(n2) * d1 by {
      AbsProduct(n1, d2);
      AbsProduct(n2, d1);
    }
    CoprimeDividesOther(Abs(n1), d1, Abs(n2), d2);
    CoprimeDividesOther(Abs(n2), d2, Abs(n1), d1);
    DividesAntisymmetric(d1, d2);
    assert n1 * d1 == n2 * d1;
    CancelRight(n1, n2, d1);
  }

  lemma AbsProduct(n: int, d: nat)
    ensures Abs(n * d) == Abs(n) * d
  {
    if n < 0 {
      assert n * d == -(Abs(n) * d);
    }
  }

  lemma CancelRight(x: int, y: int, k: int)
    requires k > 0 && x * k == y * k
    ensures x == y
  {
    if x < y {
      assert y * k - x * k == (y - x) * k;
      MulPositive(y - x, k);
    } else if y < x {
      assert x * k - y * k == (x - y) * k;
      MulPositive(x - y, k);
    }
  }

  /** With a1 * d2 == a2 * d1 and gcd(a1, d1) = 1, d1 divides d2. */
  lemma CoprimeDividesOther(a1: nat, d1: nat, a2: nat, d2: nat)
    requires Euclid.Gcd(a1, d1) == 1 && a1 * d2 == a2 * d1
    ensures Divides(d1, d2)
  {
    GcdCommutes(a1, d1);
    DividesMultiple(d1, a2);
    assert Divides(d1, a1 * d2) by {
      assert d1 * a2 == a1 * d2;
    }
    EuclidLemma(d1, a1, d2);
  }

  /** Reducing twice is reducing once. */
  lemma ReduceIdempotent(f: Fraction)
    requires f.Valid()
    ensures f.Reduce().Reduce() == f.Reduce()
  {
    ReducedUnique(f.Reduce().Reduce(), f.Reduce());
  }

  /** Reduction is canonical: two fractions reduce to the same pair exactly
      when they have the same value. */
  lemma ReduceCanonical(a: Fraction, b: Fraction)
    requires a.Valid() && b.Valid()
    ensures a.Reduce() == b.Reduce() <==> a.Value() == b.Value()
  {
    if a.Value() == b.Value() {
      ReducedUnique(a.Reduce(), b.Reduce());
    }
  }

  /** Reciprocating a non-zero fraction twice gives it back. */
  lemma ReciprocateInvolution(f: Fraction)
    requires f.Valid() && f.numerator != 0
    ensures f.Reciprocate().Reciprocate() == f
  {
    var r := f.Reciprocate();
    var rr := r.Reciprocate();
    assert r.numerator != 0 by {
      assert r.Value() * f.Value() == 1.0;
    }
    assert rr.denominator == Abs(r.numerator);
    SameValueIff(rr, f);
    assert rr.Value() == f.Value() by {
      assert rr.Value() * r.Value() == 1.0;
      assert f.Value() * r.Value() == 1.0;
      InverseUnique(rr.Value(), f.Value(), r.Value());
    }
    ReciprocalDenominator(f);
  }

  lemma InverseUnique(x: real, y: real, z: real)
    requires x * z == 1.0 && y * z == 1.0
    ensures x == y
  {
    assert z != 0.0;
  }

  /** The reciprocal's numerator carries the sign of f's numerator, so the
      round trip restores the denominator exactly. */
  lemma ReciprocalDenominator(f: Fraction)
    requires f.Valid() && f.numerator != 0
    ensures f.Reciprocate() == Fraction(if f.numerator < 0 then -f.denominator else f.denominator, Abs(f.numerator))
    ensures f.Reciprocate().Reciprocate() == f
  {
  }

  // ---------------------------------------------------------------------
  // Lemmas: rounding
  // ---------------------------------------------------------------------

  lemma HalfStringValue(p: nat)
    ensures IsNumber(HalfString(p))
    ensures Parse(HalfString(p)) == Decimal(5, p + 1)
  {
    var s := HalfString(p);
    var frac := Repeat('0', p) + "5";
    assert s == "0." + frac;
    assert Unsigned(s) == s;
    assert BeforeDot(s) == "0" by {
      assert s == "0" + ("." + frac);
      BeforeDotAppend("0", "." + frac);
    }
    assert s[2..] == frac;
    assert FractionDigits(s) == frac;
    assert AllDigits(frac);
    DigitsValueAppend("0", frac);
    ZerosThenFive(p);
  }

  /** A run of zeros followed by a 5 spells five. */
  lemma {:induction false} ZerosThenFive(p: nat)
    ensures AllDigits(Repeat('0', p) + "5")
    ensures DigitsValue(Repeat('0', p) + "5") == 5
    ensures AllDigits("0" + (Repeat('0', p) + "5"))
    ensures DigitsValue("0" + (Repeat('0', p) + "5")) == 5
    decreases p
  {
    var t := Repeat('0', p) + "5";
    assert AllDigits(t);
    if p == 0 {
      assert t == "5";
      assert t[..0] == [];
    } else {
      ZerosThenFive(p - 1);
      assert t == "0" + (Repeat('0', p - 1) + "5");
    }
    var u := "0" + t;
    assert AllDigits(u);
    DigitsValueAppend("0", t);
    assert DigitsValue("0") == 0 by {
      assert "0"[..0] == [];
    }
  }

  /** bcmul(x, 10^k, 0) on a number with k fractional digits is exact. */
  lemma TruncDivCancel(u: int, p: nat)
    requires p > 0
    ensures TruncDiv(u * p, p) == u
  {
    if u >= 0 {
      MulMod(p, u);
      assert u * p == p * u;
    } else {
      MulMod(p, -u);
      assert -(u * p) == p * (-u);
    }
  }

  /** The bcmath steps of toDecimal compute the rounding of the reference
      definition. */
  lemma RoundedDecimalRounds(n: int, d: int, p: nat)
    requires d > 0
    ensures RoundedDecimal(n, d, p) == Decimal(RoundHalfAway(n, d, p), p)
  {
    var a := Abs(n) * Pow(10, p);
    assert a >= 0 by {
      MulNonNegative(Abs(n), Pow(10, p));
    }
    var q := TruncDiv(n * Pow(10, p + 1), d);
    assert RoundedDecimal(n, d, p) == BcRound(Decimal(q, p + 1), p);
    TenfoldQuotient(n, d, p, q, a);
    LastDigitRounding(a, d);
    RoundCombine(n, d, q, a);
    assert RoundHalfAway(n, d, p) == SignedNearest(n, d, a);
  }

  lemma RoundCombine(n: int, d: int, q: int, a: nat)
    requires d > 0 && Abs(q) == (10 * a) / d && (q == 0 || (q < 0 <==> n < 0))
    requires (Abs(q) + 5) / 10 == (2 * a + d) / (2 * d)
    ensures (if q < 0 then -((Abs(q) + 5) / 10) else (Abs(q) + 5) / 10) == SignedNearest(n, d, a)
  {
    if q == 0 {
      assert (Abs(q) + 5) / 10 == 0;
    }
  }

  lemma TenfoldQuotient(n: int, d: int, p: nat, q: int, a: nat)
    requires d > 0 && q == TruncDiv(n * Pow(10, p + 1), d) && a == Abs(n) * Pow(10, p)
    ensures Abs(q) == (10 * a) / d
    ensures q == 0 || (q < 0 <==> n < 0)
  {
    TenfoldMagnitude(n, p);
  }

  /** n * 10^(p+1) has magnitude 10 * |n| * 10^p and the sign of n. */
  lemma TenfoldMagnitude(n: int, p: nat)
    ensures Abs(n * Pow(10, p + 1)) == 10 * (Abs(n) * Pow(10, p))
    ensures n * Pow(10, p + 1) < 0 <==> n < 0
  {
    var t := Pow(10, p);
    assert Pow(10, p + 1) == 10 * t;
    AbsProduct(n, 10 * t);
    assert Abs(n) * (10 * t) == 10 * (Abs(n) * t);
    if n < 0 {
      MulPositive(-n, 10 * t);
      assert n * (10 * t) == -((-n) * (10 * t));
    } else if n > 0 {
      MulPositive(n, 10 * t);
    }
  }

  /** The step of bcRound on a number with one digit more than the
      precision: the magnitude gains five in that digit and loses it, the
      sign stays. */
  lemma HalfAdjusted(value: Decimal, p: nat)
    ensures IsNumber(HalfString(p)) && |value.ToString()| > 0
    ensures value.scale == p + 1 ==>
              var q, half := value.unscaled, Parse(HalfString(p));
              (if value.ToString()[0] != '-' then BcAdd(value, half, p) else BcSub(value, half, p))
              == Decimal(if q < 0 then -((Abs(q) + 5) / 10) else (Abs(q) + 5) / 10, p)
  {
    HalfStringValue(p);
    ToStringSign(value);
    if value.scale == p + 1 {
      var q := value.unscaled;
      var half := Decimal(5, p + 1);
      assert Pow(10, 0) == 1;
      assert Pow(10, 1) == 10;
      assert value.At(p + 1) == q && half.At(p + 1) == 5;
      if q >= 0 {
        assert Sum(value, half) == Decimal(q + 5, p + 1);
      } else {
        assert Negate(half).At(p + 1) == -5;
        assert Sum(value, Negate(half)) == Decimal(q - 5, p + 1);
      }
    }
  }

  /** Adding five to the extra digit and dropping it rounds to nearest,
      halves up: ((10a div d) + 5) div 10 = (2a + d) div 2d. */
  lemma LastDigitRounding(a: nat, d: int)
    requires d > 0
    ensures ((10 * a) / d + 5) / 10 == (2 * a + d) / (2 * d)
  {
    var q := (10 * a) / d;
    var r0 := (10 * a) % d;
    var u := (q + 5) / 10;
    var r1 := (q + 5) % 10;
    LastDigitCore(a, d, q, u, r0, r1, d * q, d * u, d * r1);
  }

  lemma LastDigitCore(a: int, d: int, q: int, u: int, r0: int, r1: int, dq: int, du: int, dr1: int)
    requires d > 0 && 10 * a == dq + r0 && 0 <= r0 < d
    requires q + 5 == 10 * u + r1 && 0 <= r1 < 10
    requires dq == d * q && du == d * u && dr1 == d * r1
    ensures (2 * a + d) / (2 * d) == u
  {
    assert dq == 10 * du + dr1 - 5 * d by {
      assert q == 10 * u + r1 - 5;
      assert d * (10 * u + r1 - 5) == 10 * (d * u) + d * r1 - 5 * d;
    }
    assert 0 <= dr1 <= 9 * d by {
      MulLeftMono(d, 0, r1);
      MulLeftMono(d, r1, 9);
    }
    var k := 2 * a + d - 2 * du;
    assert 5 * k == dr1 + r0;
    assert (2 * d) * u == 2 * du;
    DivModUnique(2 * a + d, 2 * d, u, k);
  }

  lemma MulLeftMono(k: int, x: int, y: int)
    requires k > 0 && x <= y
    ensures k * x <= k * y
  {
    if x < y {
      assert k * y - k * x == k * (y - x);
      MulPositive(k, y - x);
    }
  }

  /** m is the magnitude rounded to nearest, halves up, exactly when it is
      the quotient the reference definition takes. */
  lemma NearestIff(a: int, d: int, m: int)
    requires d > 0
    ensures (2 * a - d < 2 * d * m <= 2 * a + d) <==> m == (2 * a + d) / (2 * d)
  {
    var dd := 2 * d;
    var q := (2 * a + d) / dd;
    var r := (2 * a + d) % dd;
    assert 2 * a + d == dd * q + r && 0 <= r < dd;
    assert 2 * d * m == dd * m;
    if 2 * a - d < dd * m <= 2 * a + d {
      DivModUnique(2 * a + d, dd, m, 2 * a + d - dd * m);
    }
  }

  /** The reference rounding is the unique integer rounded half away from
      zero. */
  lemma RoundHalfAwayUnique(n: int, d: int, p: nat, u: int)
    requires d > 0
    ensures IsRoundedHalfAway(n, d, p, u) <==> u == RoundHalfAway(n, d, p)
  {
    var a := Abs(n) * Pow(10, p);
    if n == 0 {
      assert a == 0;
    }
    SignedNearestUnique(n, d, a, u);
  }

  lemma SignedNearestUnique(n: int, d: int, a: nat, u: int)
    requires d > 0 && (n == 0 ==> a == 0)
    ensures IsSignedNearest(n, d, a, u) <==> u == SignedNearest(n, d, a)
  {
    var m := (2 * a + d) / (2 * d);
    NearestIff(a, d, Abs(u));
    NearestIff(a, d, m);
    if n == 0 {
      NearestIff(0, d, 0);
    }
  }

  /** If d divides n * 10^p, rounding is exact. */
  lemma RoundExact(n: int, d: int, p: nat)
    requires d > 0 && (n * Pow(10, p)) % d == 0
    ensures RoundHalfAway(n, d, p) * d == n * Pow(10, p)
  {
    var x := n * Pow(10, p);
    var a := Abs(n) * Pow(10, p);
    AbsProduct(n, Pow(10, p));
    SignOfProduct(n, Pow(10, p));
    SignedNearestExact(n, d, x, a);
  }

  lemma SignedNearestExact(n: int, d: int, x: int, a: nat)
    requires d > 0 && x % d == 0 && a == Abs(x) && (x < 0 <==> n < 0)
    ensures SignedNearest(n, d, a) * d == x
  {
    var c := x / d;
    ExactQuotient(x, d, c, a, d * Abs(c));
    NearestIff(a, d, Abs(c));
  }

  lemma ExactQuotient(x: int, d: int, c: int, a: int, dc: int)
    requires d > 0 && x % d == 0 && c == x / d && a == Abs(x) && dc == d * Abs(c)
    ensures a == dc && 2 * d * Abs(c) == 2 * a
    ensures c == 0 || (c < 0 <==> x < 0)
    ensures c * d == x
  {
    assert x == d * c;
    if c < 0 {
      assert d * Abs(c) == -(d * c);
    }
    if x > 0 && c <= 0 {
      MulLeftMono(d, c, 0);
    }
    if x < 0 && c >= 0 {
      MulLeftMono(d, 0, c);
    }
  }

  lemma SignOfProduct(n: int, t: int)
    requires t > 0
    ensures n * t < 0 <==> n < 0
    ensures n * t == 0 <==> n == 0
  {
    if n < 0 {
      MulPositive(-n, t);
      assert n * t == -((-n) * t);
    } else if n > 0 {
      MulPositive(n, t);
    }
  }

  // ---------------------------------------------------------------------
  // Lemmas: toDecimal
  // ---------------------------------------------------------------------

  /** toDecimal rounds n/d half away from zero at the precision it works
      at. */
  lemma ToDecimalRounds(f: Fraction, precision: nat, auto: bool)
    requires f.Valid()
    ensures var p := f.DecimalPrecision(precision, auto);
            && f.ToDecimal(precision, auto) == Decimal(RoundHalfAway(f.numerator, f.denominator, p), p).ToString()
            && IsRoundedHalfAway(f.numerator, f.denominator, p, RoundHalfAway(f.numerator, f.denominator, p))
            && p >= precision
  {
    var p := f.DecimalPrecision(precision, auto);
    RoundedDecimalRounds(f.numerator, f.denominator, p);
    RoundHalfAwayUnique(f.numerator, f.denominator, p, RoundHalfAway(f.numerator, f.denominator, p));
  }

  /** For a denominator 10^k the automatic precision is k. */
  lemma AutoPrecisionOfPowerOfTen(n: int, k: nat)
    ensures Pow(10, k) > 0
    ensures Fraction(n, Pow(10, k)).AutoPrecision() == k
  {
    var d := Pow(10, k);
    NatToStringOfPow10(k);
    assert IntToString(d) == NatToString(d);
    if k > 0 {
      assert d == 10 * Pow(10, k - 1);
      MulMod(10, Pow(10, k - 1));
    } else {
      assert d == 1;
    }
  }

  /** A numerator over 10^k printed with automatic precision is the
      decimal with k fractional digits. */
  lemma PowerOfTenToDecimal(n: int, k: nat)
    ensures Pow(10, k) > 0
    ensures Fraction(n, Pow(10, k)).ToDecimal(0, true) == Decimal(n, k).ToString()
  {
    var f := Fraction(n, Pow(10, k));
    AutoPrecisionOfPowerOfTen(n, k);
    assert f.DecimalPrecision(0, true) == k;
    RoundedDecimalRounds(n, Pow(10, k), k);
    assert (n * Pow(10, k)) % Pow(10, k) == 0 by {
      MulMod(Pow(10, k), n);
      assert n * Pow(10, k) == Pow(10, k) * n;
    }
    RoundExact(n, Pow(10, k), k);
    CancelRight(RoundHalfAway(n, Pow(10, k), k), n, Pow(10, k));
  }

  /** A decimal read by createFromDecimal and printed back with automatic
      precision comes out as bcmath prints that number. */
  lemma CreateFromDecimalRoundTrip(s: string)
    requires IsNumber(s)
    ensures CreateFromDecimal(s).ToDecimal(0, true) == Parse(s).ToString()
  {
    PowerOfTenToDecimal(Parse(s).unscaled, Parse(s).scale);
  }

  /** Every bcmath number survives createFromDecimal followed by toDecimal
      with automatic precision, character for character. */
  lemma DecimalRoundTrip(x: Decimal)
    ensures IsNumber(x.ToString())
    ensures CreateFromDecimal(x.ToString()).ToDecimal(0, true) == x.ToString()
  {
    ParseToString(x);
    CreateFromDecimalRoundTrip(x.ToString());
  }

  /** The decimal numerator over 10^k has the value the string denotes. */
  lemma CreateFromDecimalValue(s: string)
    requires IsNumber(s)
    ensures CreateFromDecimal(s).Valid()
    ensures CreateFromDecimal(s).Value() == Parse(s).unscaled as real / Pow(10, Parse(s).scale) as real
  {
  }

  /** For a terminating fraction whose denominator is not a multiple of ten,
      the automatic precision prints the value exactly. */
  lemma AutoPrecisionExact(f: Fraction, precision: nat)
    requires f.Valid() && f.denominator % 10 != 0 && f.IsTerminating()
    ensures var x := RoundedDecimal(f.numerator, f.denominator, f.DecimalPrecision(precision, true));
            && f.ToDecimal(precision, true) == x.ToString()
            && x.unscaled * f.denominator == f.numerator * Pow(10, x.scale)
  {
    var p := f.DecimalPrecision(precision, true);
    RoundedDecimalRounds(f.numerator, f.denominator, p);
    TerminatingExactAt(f, p);
  }

  /** Once 10^e is a multiple of the reduced denominator, every precision
      p >= e prints n/d exactly. */
  lemma TerminatingExactAt(f: Fraction, p: nat)
    requires f.Valid() && f.IsTerminating()
    requires p >= TerminatingPrecision(f.Reduce().denominator, 1) || f.denominator == 1
    ensures RoundHalfAway(f.numerator, f.denominator, p) * f.denominator == f.numerator * Pow(10, p)
  {
    ReduceFacts(f);
    var g := f.Gcd();
    var d' := f.denominator / g;
    ReduceParts(f);
    if f.denominator == 1 {
      assert (f.numerator * Pow(10, p)) % 1 == 0;
    } else {
      var e := TerminatingPrecision(d', 1);
      assert f.Reduce().denominator == d';
      PowDividesPow(10, e, p);
      ExactParts(f.denominator, g, d');
      ExactAtCore(f.numerator, f.denominator, g, d', Pow(10, e), Pow(10, p), Pow(10, p - e));
    }
    RoundExact(f.numerator, f.denominator, p);
  }

  /** n * t is a multiple of g * d' when g divides n and d' divides t. */
  lemma ExactAtCore(n: int, d: int, g: nat, d': nat, s: nat, t: nat, c: nat)
    requires g > 0 && d' > 0 && Abs(n) % g == 0 && d == g * d'
    requires s % d' == 0 && t == s * c
    ensures d > 0 && (n * t) % d == 0
  {
    assert Divides(d', t) by {
      DividesScaled(d', s, c);
    }
    var n' := TruncDiv(n, g);
    ExactParts(n, g, n');
    ScaledDivides(g, n', d', t);
  }

  /** If d' divides t, then g * d' divides (g * n') * t. */
  lemma ScaledDivides(g: nat, n': int, d': nat, t: nat)
    requires g > 0 && d' > 0 && Divides(d', t)
    ensures g * d' > 0 && ((g * n') * t) % (g * d') == 0
  {
    MulPositive(g, d');
    var c := t / d';
    assert t == d' * c;
    assert (g * n') * t == (g * d') * (n' * c);
    MulMod(g * d', n' * c);
  }

  // ---------------------------------------------------------------------
  // isTerminating
  // ---------------------------------------------------------------------

  /** isTerminating() holds exactly when the reduced denominator divides a
      power of ten, and then it divides every power from DecimalExponent on. */
  lemma IsTerminatingIff(f: Fraction, e: nat)
    requires f.Valid()
    ensures f.Reduce().denominator > 0
    ensures Pow(10, e) % f.Reduce().denominator == 0 ==> f.IsTerminating()
    ensures f.IsTerminating() && e >= DecimalExponent(f.Reduce().denominator)
            ==> Pow(10, e) % f.Reduce().denominator == 0
  {
    ReduceParts(f);
    ReduceFacts(f);
    var d' := f.denominator / f.Gcd();
    assert f.Reduce().denominator == d';
    if Pow(10, e) % d' == 0 {
      DivisorOfPowerOfTenTerminates(d', e);
    }
    if f.IsTerminating() && e >= DecimalExponent(d') {
      TerminatingDividesPowerOfTen(d', e);
    }
  }

  // ---------------------------------------------------------------------
  // The automatic precision for denominators that are multiples of ten
  // ---------------------------------------------------------------------

  /** d is 1, 10, 100, ... */
  predicate IsPowerOfTen(d: nat)
    decreases d
  {
    d == 1 || (d >= 10 && d % 10 == 0 && IsPowerOfTen(d / 10))
  }

  /** The automatic precision with the first branch restricted to the
      powers of ten its comment describes ("the number of zeroes"). */
  function IntendedAutoPrecision(f: Fraction): nat
    requires f.Valid()
  {
    if f.denominator % 10 == 0 && IsPowerOfTen(f.denominator) then
      IntToStringNotEmpty(f.denominator);
      |IntToString(f.denominator)| - 1
    else if f.denominator == 1 then 0
    else if f.IsTerminating() then
      ReduceFacts(f);
      TerminatingPrecision(f.Reduce().denominator, 1)
    else |IntToString(f.denominator)|
  }

  function IntendedDecimalPrecision(f: Fraction, precision: nat): nat
    requires f.Valid()
  {
    if IntendedAutoPrecision(f) > precision then IntendedAutoPrecision(f) else precision
  }

  /** With the corrected first branch, every terminating fraction prints
      exactly under automatic precision. */
  lemma IntendedAutoPrecisionExact(f: Fraction, precision: nat)
    requires f.Valid() && f.IsTerminating()
    ensures var x := RoundedDecimal(f.numerator, f.denominator, IntendedDecimalPrecision(f, precision));
            x.unscaled * f.denominator == f.numerator * Pow(10, x.scale)
  {
    var p := IntendedDecimalPrecision(f, precision);
    RoundedDecimalRounds(f.numerator, f.denominator, p);
    if f.denominator % 10 == 0 && IsPowerOfTen(f.denominator) {
      var k := PowerOfTenDigits(f.denominator);
      PowDividesPow(10, k, p);
      ExactAtCore(f.numerator, f.denominator, 1, f.denominator, Pow(10, k), Pow(10, p), Pow(10, p - k));
      RoundExact(f.numerator, f.denominator, p);
    } else {
      TerminatingExactAt(f, p);
    }
  }

  /** A power of ten is 10^k with k one less than its printed length. */
  lemma {:induction false} PowerOfTenDigits(d: nat) returns (k: nat)
    requires IsPowerOfTen(d)
    ensures |IntToString(d)| == k + 1 && d == Pow(10, k)
    decreases d
  {
    if d == 1 {
      k := 0;
    } else {
      var k' := PowerOfTenDigits(d / 10);
      k := k' + 1;
      assert d == 10 * (d / 10);
      assert NatToString(d) == NatToString(d / 10) + [DigitChar(d % 10)];
    }
  }

  /** Every power of ten passes the test. */
  lemma {:induction false} PowerOfTenIs(k: nat)
    ensures IsPowerOfTen(Pow(10, k))
    decreases k
  {
    if k > 0 {
      PowerOfTenIs(k - 1);
      var p := Pow(10, k);
      assert p == 10 * Pow(10, k - 1);
      MulMod(10, Pow(10, k - 1));
      PowMonotone(10, 1, k);
      assert Pow(10, 1) == 10;
    }
  }

  /** On powers of ten, the precision as written and the corrected one
      agree, so createFromDecimal round trips are unaffected. */
  lemma AutoPrecisionAgreesOnPowersOfTen(n: int, k: nat)
    ensures Pow(10, k) > 0
    ensures Fraction(n, Pow(10, k)).AutoPrecision() == IntendedAutoPrecision(Fraction(n, Pow(10, k)))
  {
    PowerOfTenIs(k);
  }

  /** 1/20 terminates as 0.05, yet the first branch takes it for a power of
      ten and prints it with one digit. */
  lemma AutoPrecisionCounterexample()
    ensures Fraction(1, 20).Valid() && Fraction(1, 20).IsTerminating()
    ensures Fraction(1, 20).ToDecimal(0, true) == "0.1"
    ensures RoundedDecimal(1, 20, IntendedDecimalPrecision(Fraction(1, 20), 0)).ToString() == "0.05"
  {
    OneTwentiethPrecisions();
    RoundedDecimalRounds(1, 20, 1);
    RoundedDecimalRounds(1, 20, 2);
    OneTwentiethRounded();
  }

  lemma OneTwentiethPrecisions()
    ensures Fraction(1, 20).Valid() && Fraction(1, 20).IsTerminating()
    ensures Fraction(1, 20).DecimalPrecision(0, true) == 1
    ensures IntendedDecimalPrecision(Fraction(1, 20), 0) == 2
  {
    var f := Fraction(1, 20);
    OneTwentiethTerminates();
    assert IntToString(20) == "20";
    assert !IsPowerOfTen(20);
    assert Pow(10, 1) == 10 && Pow(10, 2) == 100;
    assert TerminatingPrecision(20, 1) == 2;
  }

  lemma OneTwentiethTerminates()
    ensures Fraction(1, 20).Valid() && Fraction(1, 20).IsTerminating()
    ensures Fraction(1, 20).Reduce().denominator == 20
  {
    var f := Fraction(1, 20);
    assert Euclid.Gcd(1, 20) == 1;
    assert f.Gcd() == 1;
    assert StripFactor(20, 2) == 5;
    assert StripFactor(5, 5) == 1;
    assert TerminatingDenominator(20);
    assert f.denominator / f.Gcd() == 20;
    assert f.IsTerminating();
    ReduceParts(f);
  }

  lemma OneTwentiethRounded()
    ensures Decimal(RoundHalfAway(1, 20, 1), 1).ToString() == "0.1"
    ensures Decimal(RoundHalfAway(1, 20, 2), 2).ToString() == "0.05"
  {
    assert RoundHalfAway(1, 20, 1) == 1 && RoundHalfAway(1, 20, 2) == 5 by {
      assert Pow(10, 1) == 10 && Pow(10, 2) == 100;
    }
    assert Decimal(1, 1).ToString() == "0.1" by {
      assert Pow(10, 1) == 10;
      BelowOnePrinted(1, 1);
      assert PadDigits(1, 1) == "1";
    }
    assert Decimal(5, 2).ToString() == "0.05" by {
      assert Pow(10, 2) == 100;
      BelowOnePrinted(5, 2);
      assert PadDigits(5, 2) == "05";
    }
  }
}
