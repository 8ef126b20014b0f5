/** The earlier, mutating fraction class: every operation rewrites the
    receiver's two fields through the setters and returns the receiver.
    Unlike the current class, add, subtract and multiply do not reduce, and
    divide reciprocates its argument in place. bcmath calls made without a
    scale use the default scale 0. */
module LegacyFraction {
  import opened Arith
  import opened Digits
  import opened BcMath
  import opened Euclid
  import opened Php
  import FractionValue

  class Fraction {
    var numerator: int
    var denominator: int

    /** Every object's denominator is positive once it is constructed. */
    predicate Valid()
      reads this
    {
      denominator > 0
    }

    /** The pair the object holds. */
    function Pair(): FractionValue.Fraction
      reads this
    {
      FractionValue.Fraction(numerator, denominator)
    }

    /** new Fraction($numerator, $denominator). */
    constructor(n: int, d: int)
      ensures Valid() && Pair() == FractionValue.New(n, d)
    {
      numerator := 0;
      denominator := 1;
      new;
      var _ := SetNumerator(n);
      var _ := SetDenominator(d);
    }

    /** setNumerator($value): returns the receiver. */
    method SetNumerator(value: int) returns (r: Fraction)
      modifies this
      ensures r == this
      ensures numerator == value && denominator == old(denominator)
    {
      numerator := value;
      r := this;
    }

    /** setDenominator($value): zero becomes 1 with the numerator zeroed;
        a negative value flips the sign of both parts. */
    method SetDenominator(value: int) returns (r: Fraction)
      modifies this
      ensures r == this && Valid()
      ensures Pair() == old(Pair()).SetDenominator(value)
    {
      var v := value;
      if v == 0 {
        var _ := SetNumerator(0);
        v := 1;
      }
      if v < 0 {
        var n := numerator;
        n := n * -1;
        var _ := SetNumerator(n);
        v := v * -1;
      }
      denominator := v;
      r := this;
    }

    /** Both setters in turn, as every operation below ends. */
    method SetParts(n: int, d: int)
      modifies this
      ensures Valid() && Pair() == FractionValue.New(n, d)
    {
      var _ := SetNumerator(n);
      var _ := SetDenominator(d);
    }

    /** toString($separator): the two parts joined by the separator. */
    method ToString(separator: string) returns (s: string)
      ensures s == Pair().ToString(separator)
      ensures separator == "/" ==> Explode(s, '/') == [IntToString(numerator), IntToString(denominator)]
    {
      var n := numerator;
      var d := denominator;
      s := IntToString(n) + separator + IntToString(d);
    }

    /** toDecimal($precision): no automatic precision; bcdiv one digit past
        the precision, then bcRound. */
    method ToDecimal(precision: nat) returns (s: string)
      requires Valid()
      ensures s == Decimal(FractionValue.RoundHalfAway(numerator, denominator, precision), precision).ToString()
    {
      var value := BcDiv(numerator, denominator, precision + 1);
      var rounded := FractionValue.BcRound(value, precision);
      FractionValue.RoundedDecimalRounds(numerator, denominator, precision);
      s := rounded.ToString();
    }

    /** fromDecimal($value): overwrite the receiver with the digits over
        10^k and return it. */
    method FromDecimal(value: string) returns (r: Fraction)
      requires IsNumber(value)
      modifies this
      ensures r == this && Valid()
      ensures Pair() == FractionValue.CreateFromDecimal(value)
    {
      var precision := CharsAfterLastDot(value);
      var d := Pow(10, precision);
      var n := BcMul(Parse(value), Decimal(d, 0), 0).unscaled;
      SetParts(n, d);
      r := this;
    }

    /** gcd(): Euclid's loop with bcmod on the absolute values. */
    method Gcd() returns (g: nat)
      ensures g == Pair().Gcd()
    {
      var a: nat := Abs(numerator);
      var b: nat := Abs(denominator);
      while b != 0
        invariant Euclid.Gcd(a, b) == Euclid.Gcd(Abs(numerator), Abs(denominator))
        decreases b
      {
        var t := b;
        BcModNonNegative(a, b);
        b := BcMod(a, b);
        a := t;
      }
      g := a;
    }

    /** reduce(): divide both parts by the gcd, in place. */
    method Reduce() returns (r: Fraction)
      requires Valid()
      modifies this
      ensures r == this && Valid()
      ensures Pair() == old(Pair()).Reduce()
    {
      var g := Gcd();
      var n := BcDiv(numerator, g, 0).unscaled;
      var d := BcDiv(denominator, g, 0).unscaled;
      assert Pow(10, 0) == 1;
      SetParts(n, d);
      r := this;
    }

    /** reciprocate(): swap the parts in place. */
    method Reciprocate() returns (r: Fraction)
      requires Valid()
      modifies this
      ensures r == this && Valid()
      ensures Pair() == old(Pair()).Reciprocate()
    {
      SetParts(denominator, numerator);
      r := this;
    }

    /** add($fraction): the cross-multiplied sum, not reduced. */
    method Add(other: Fraction) returns (r: Fraction)
      requires Valid() && other.Valid()
      modifies this
      ensures r == this && Valid()
      ensures Pair() == old(Pair()).CrossAdd(old(other.Pair()))
    {
      var d := denominator * other.denominator;
      var n := numerator * other.denominator + other.numerator * denominator;
      SetParts(n, d);
      r := this;
    }

    /** subtract($fraction): the cross-multiplied difference, not reduced. */
    method Subtract(other: Fraction) returns (r: Fraction)
      requires Valid() && other.Valid()
      modifies this
      ensures r == this && Valid()
      ensures Pair() == old(Pair()).CrossSubtract(old(other.Pair()))
    {
      var d := denominator * other.denominator;
      var n := numerator * other.denominator - other.numerator * denominator;
      SetParts(n, d);
      r := this;
    }

    /** multiply($fraction): the product of the parts, not reduced. */
    method Multiply(other: Fraction) returns (r: Fraction)
      requires Valid() && other.Valid()
      modifies this
      ensures r == this && Valid()
      ensures Pair() == old(Pair()).CrossMultiply(old(other.Pair()))
    {
      var n := numerator * other.numerator;
      var d := denominator * other.denominator;
      SetParts(n, d);
      r := this;
    }

    /** divide($fraction): reciprocate the argument in place, then multiply
        by it. When the argument is the receiver itself, the receiver is
        reciprocated first and then squared. */
    method Divide(other: Fraction) returns (r: Fraction)
      requires Valid() && other.Valid()
      modifies this, other
      ensures r == this && Valid() && other.Valid()
      ensures other != this ==> other.Pair() == old(other.Pair()).Reciprocate()
      ensures other != this ==> Pair() == old(Pair()).CrossMultiply(old(other.Pair()).Reciprocate())
      ensures other == this ==> Pair() == old(Pair()).Reciprocate().CrossMultiply(old(Pair()).Reciprocate())
    {
      var _ := other.Reciprocate();
      var n := numerator * other.numerator;
      var d := denominator * other.denominator;
      SetParts(n, d);
      r := this;
    }

    /** divide($fraction) as its comment describes it: the argument is read,
        not reciprocated in place, so it is left as it was and dividing a
        fraction by itself gives 1. */
    method DivideBy(other: Fraction) returns (r: Fraction)
      requires Valid() && other.Valid()
      modifies this
      ensures r == this && Valid()
      ensures Pair() == old(Pair()).CrossMultiply(old(other.Pair()).Reciprocate())
    {
      var reciprocal := FractionValue.New(other.denominator, other.numerator);
      var n := numerator * reciprocal.numerator;
      var d := denominator * reciprocal.denominator;
      SetParts(n, d);
      r := this;
    }
  }

  // ---------------------------------------------------------------------
  // What the in-place operations compute
  // ---------------------------------------------------------------------

  /** Dividing by the reciprocal multiplies the values out to the quotient,
      for any divisor other than zero. */
  lemma QuotientValue(f: FractionValue.Fraction, g: FractionValue.Fraction)
    requires f.Valid() && g.Valid() && g.numerator != 0
    ensures f.CrossMultiply(g.Reciprocate()).Value() == f.Value() / g.Value()
  {
    var q := g.Reciprocate();
    assert q.Value() * g.Value() == 1.0;
    RealQuotientOf(f.Value(), q.Value(), g.Value());
  }

  lemma RealQuotientOf(x: real, q: real, y: real)
    requires q * y == 1.0
    ensures y != 0.0 && x * q == x / y
  {
  }

  /** Dividing a nonzero fraction by itself in place gives the square of
      its reciprocal, whose value is 1 / value^2. */
  lemma SelfDivisionValue(f: FractionValue.Fraction)
    requires f.Valid() && f.numerator != 0
    ensures var q := f.Reciprocate();
            q.CrossMultiply(q).Value() * (f.Value() * f.Value()) == 1.0
  {
    var q := f.Reciprocate();
    var x, y := q.Value(), f.Value();
    assert x * y == 1.0;
    SquareOfInverse(x, y);
  }

  lemma SquareOfInverse(x: real, y: real)
    requires x * y == 1.0
    ensures (x * x) * (y * y) == 1.0
  {
    assert (x * x) * (y * y) == (x * y) * (x * y);
  }

  /** 2/3 divided by itself in place becomes 9/4, not 1; the argument-
      preserving division gives 6/6, whose value is 1. */
  lemma SelfDivisionCounterexample()
    ensures var f := FractionValue.Fraction(2, 3);
            f.Reciprocate().CrossMultiply(f.Reciprocate()) == FractionValue.Fraction(9, 4)
            && f.CrossMultiply(f.Reciprocate()) == FractionValue.Fraction(6, 6)
  {
  }
}
