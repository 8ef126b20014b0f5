/** The fraction class as objects: the setters assign the two fields,
    gcd and the terminating test are loops, and every operation returns a
    new object whose pair is the one FractionValue computes, leaving the
    receiver and the argument as they were. */
module FractionObject {
  import opened Arith
  import opened Digits
  import opened BcMath
  import opened Euclid
  import opened Php
  import FractionValue

  class Fraction {
    var numerator: int
    var denominator: int

    /** Every object's denominator is positive once it is constructed. */
    predicate Valid()
      reads this
    {
      denominator > 0
    }

    /** The pair the object holds. */
    function Pair(): FractionValue.Fraction
      reads this
    {
      FractionValue.Fraction(numerator, denominator)
    }

    /** new Fraction($numerator, $denominator): setNumerator, then
        setDenominator. */
    constructor(n: int, d: int)
      ensures Valid() && Pair() == FractionValue.New(n, d)
    {
      numerator := 0;
      denominator := 1;
      new;
      SetNumerator(n);
      SetDenominator(d);
    }

    /** setNumerator($value). */
    method SetNumerator(value: int)
      modifies this
      ensures numerator == value && denominator == old(denominator)
    {
      numerator := value;
    }

    /** setDenominator($value): zero becomes 1 with the numerator zeroed;
        a negative value flips the sign of both parts. */
    method SetDenominator(value: int)
      modifies this
      ensures Valid()
      ensures Pair() == old(Pair()).SetDenominator(value)
    {
      var v := value;
      if v == 0 {
        SetNumerator(0);
        v := 1;
      }
      if v < 0 {
        var n := numerator;
        n := n * -1;
        SetNumerator(n);
        v := v * -1;
      }
      denominator := v;
    }

    /** gcd(): Euclid's loop with bcmod on the absolute values. */
    method Gcd() returns (g: nat)
      ensures g == Pair().Gcd()
    {
      var a: nat := Abs(numerator);
      var b: nat := Abs(denominator);
      while b != 0
        invariant Euclid.Gcd(a, b) == Euclid.Gcd(Abs(numerator), Abs(denominator))
        decreases b
      {
        var t := b;
        BcModNonNegative(a, b);
        b := BcMod(a, b);
        a := t;
      }
      g := a;
    }

    /** reduce(): a new fraction, both parts divided by the gcd. */
    method Reduce() returns (r: Fraction)
      requires Valid()
      ensures fresh(r) && r.Valid() && r.Pair() == Pair().Reduce()
    {
      var g := Gcd();
      var n := BcDiv(numerator, g, 0).unscaled;
      var d := BcDiv(denominator, g, 0).unscaled;
      assert Pow(10, 0) == 1;
      r := new Fraction(n, d);
    }

    /** reciprocate(): a new fraction with the parts swapped. */
    method Reciprocate() returns (r: Fraction)
      requires Valid()
      ensures fresh(r) && r.Valid() && r.Pair() == Pair().Reciprocate()
    {
      r := new Fraction(denominator, numerator);
    }

    /** add($fraction). */
    method Add(other: Fraction) returns (r: Fraction)
      requires Valid() && other.Valid()
      ensures fresh(r) && r.Valid() && r.Pair() == Pair().Add(other.Pair())
    {
      var d := denominator * other.denominator;
      var n := numerator * other.denominator + other.numerator * denominator;
      var f := new Fraction(n, d);
      r := f.Reduce();
    }

    /** subtract($fraction). */
    method Subtract(other: Fraction) returns (r: Fraction)
      requires Valid() && other.Valid()
      ensures fresh(r) && r.Valid() && r.Pair() == Pair().Subtract(other.Pair())
    {
      var d := denominator * other.denominator;
      var n := numerator * other.denominator - other.numerator * denominator;
      var f := new Fraction(n, d);
      r := f.Reduce();
    }

    /** multiply($fraction). */
    method Multiply(other: Fraction) returns (r: Fraction)
      requires Valid() && other.Valid()
      ensures fresh(r) && r.Valid() && r.Pair() == Pair().Multiply(other.Pair())
    {
      var n := numerator * other.numerator;
      var d := denominator * other.denominator;
      var f := new Fraction(n, d);
      r := f.Reduce();
    }

    /** divide($fraction): multiply by a new reciprocal of the argument. */
    method Divide(other: Fraction) returns (r: Fraction)
      requires Valid() && other.Valid()
      ensures fresh(r) && r.Valid() && r.Pair() == Pair().Divide(other.Pair())
    {
      var reciprocal := other.Reciprocate();
      var n := numerator * reciprocal.numerator;
      var d := denominator * reciprocal.denominator;
      var f := new Fraction(n, d);
      r := f.Reduce();
    }

    /** isTerminating(): divide the denominator by the gcd, strip the 2s,
        then the 5s, and see whether 1 is left. */
    method IsTerminating() returns (b: bool)
      requires Valid()
      ensures b == Pair().IsTerminating()
    {
      FractionValue.ReduceFacts(Pair());
      var g := Gcd();
      var d: nat := denominator / g;
      while d % 2 == 0
        invariant d > 0 && StripFactor(d, 2) == StripFactor(denominator / g, 2)
        decreases d
      {
        QuotientSmaller(d, 2);
        d := d / 2;
      }
      var odd := d;
      while d % 5 == 0
        invariant d > 0 && StripFactor(d, 5) == StripFactor(odd, 5)
        decreases d
      {
        QuotientSmaller(d, 5);
        d := d / 5;
      }
      b := d == 1;
    }

    /** The maximum precision toDecimal works out when asked to choose. */
    method MaxPrecision() returns (m: nat)
      requires Valid()
      ensures m == Pair().AutoPrecision()
    {
      if denominator % 10 == 0 {
        IntToStringNotEmpty(denominator);
        m := |IntToString(denominator)| - 1;
      } else if denominator == 1 {
        m := 0;
      } else {
        var terminating := IsTerminating();
        if terminating {
          var reduced := Reduce();
          FractionValue.ReduceFacts(Pair());
          m := FractionValue.TerminatingPrecision(reduced.denominator, 1);
        } else {
          m := |IntToString(denominator)|;
        }
      }
    }

    /** toString($separator): the two parts joined by the separator. */
    method ToString(separator: string) returns (s: string)
      ensures s == Pair().ToString(separator)
      ensures separator == "/" ==> Explode(s, '/') == [IntToString(numerator), IntToString(denominator)]
    {
      var n := numerator;
      var d := denominator;
      s := IntToString(n) + separator + IntToString(d);
    }

    /** toDecimal($precision, $auto_precision) on the bcmath path. */
    method ToDecimal(precision: nat, auto: bool) returns (s: string)
      requires Valid()
      ensures s == Pair().ToDecimal(precision, auto)
    {
      var p := precision;
      if auto {
        var maxPrecision := MaxPrecision();
        p := if maxPrecision > p then maxPrecision else p;
      }
      assert p == Pair().DecimalPrecision(precision, auto);
      var value := BcDiv(numerator, denominator, p + 1);
      var rounded := FractionValue.BcRound(value, p);
      assert rounded == FractionValue.RoundedDecimal(numerator, denominator, p);
      s := rounded.ToString();
    }

    /** createFromDecimal($value): a new fraction of the digits over 10^k. */
    static method CreateFromDecimal(value: string) returns (r: Fraction)
      requires IsNumber(value)
      ensures fresh(r) && r.Valid() && r.Pair() == FractionValue.CreateFromDecimal(value)
    {
      var precision := CharsAfterLastDot(value);
      var d := Pow(10, precision);
      var n := BcMul(Parse(value), Decimal(d, 0), 0).unscaled;
      r := new Fraction(n, d);
    }
  }
}
