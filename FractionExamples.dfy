/** The worked examples of the fraction class's unit tests, derived from
    the general lemmas of FractionValue. */
module FractionExamples {
  import opened Arith
  import opened Digits
  import opened BcMath
  import opened Euclid
  import opened FractionValue

  /** Zero denominators become 0/1; signs move to the numerator. */
  lemma NormalisationExamples()
    ensures New(1, 2).ToString("/") == "1/2" && New(1, 2).ToString(":") == "1:2"
    ensures New(1, 0).ToString("/") == "0/1"
    ensures New(-1, 2).ToString("/") == "-1/2"
    ensures New(1, -2).ToString("/") == "-1/2"
    ensures New(-1, -2).ToString("/") == "1/2"
  {
    assert IntToString(1) == "1" && IntToString(2) == "2" && IntToString(0) == "0";
    assert IntToString(-1) == "-1";
  }

  /** gcd(5/10) = 5 and 5/10 reduces to 1/2. */
  lemma ReduceExample()
    ensures Fraction(5, 10).Gcd() == 5
    ensures Fraction(5, 10).Reduce() == Fraction(1, 2)
  {
    assert Euclid.Gcd(5, 10) == 5;
    ReduceParts(Fraction(5, 10));
  }

  /** The reciprocal of 1/2 is 2/1, and of 0/1 is 0/1. */
  lemma ReciprocateExamples()
    ensures Fraction(1, 2).Reciprocate() == Fraction(2, 1)
    ensures Fraction(0, 1).Reciprocate() == Fraction(0, 1)
  {
    ReciprocalDenominator(Fraction(1, 2));
  }

  /** 1/2 + 1/3 = 5/6, 2/3 - 1/7 = 11/21, 2/5 * 1/4 = 1/10, 5/7 / 1/5 = 25/7:
      each result is in lowest terms and has the right value, so it is the
      one pair in lowest terms with that value. */
  lemma ArithmeticExamples()
    ensures Fraction(1, 2).Add(Fraction(1, 3)) == Fraction(5, 6)
    ensures Fraction(2, 3).Subtract(Fraction(1, 7)) == Fraction(11, 21)
    ensures Fraction(2, 5).Multiply(Fraction(1, 4)) == Fraction(1, 10)
    ensures Fraction(5, 7).Divide(Fraction(1, 5)) == Fraction(25, 7)
  {
    assert Euclid.Gcd(5, 6) == 1 && Euclid.Gcd(11, 21) == 1;
    assert Euclid.Gcd(1, 10) == 1 && Euclid.Gcd(25, 7) == 1;
    ReducedUnique(Fraction(1, 2).Add(Fraction(1, 3)), Fraction(5, 6));
    ReducedUnique(Fraction(2, 3).Subtract(Fraction(1, 7)), Fraction(11, 21));
    ReducedUnique(Fraction(2, 5).Multiply(Fraction(1, 4)), Fraction(1, 10));
    DivideValue(Fraction(5, 7), Fraction(1, 5));
    ReducedUnique(Fraction(5, 7).Divide(Fraction(1, 5)), Fraction(25, 7));
  }

  /** toDecimal prints the rounded value at the precision it settles on. */
  lemma ToDecimalIs(f: Fraction, precision: nat, auto: bool, p: nat, u: int, s: string)
    requires f.Valid() && f.DecimalPrecision(precision, auto) == p
    requires RoundHalfAway(f.numerator, f.denominator, p) == u
    requires Decimal(u, p).ToString() == s
    ensures f.ToDecimal(precision, auto) == s
  {
    ToDecimalRounds(f, precision, auto);
  }

  /** toDecimal with a fixed precision rounds half away from zero. */
  lemma HalfAtOneDigit()
    ensures Fraction(1, 2).ToDecimal(1, false) == "0.5"
  {
    assert Pow(10, 1) == 10;
    assert RoundHalfAway(1, 2, 1) == 5;
    assert Decimal(5, 1).ToString() == "0.5" by {
      assert PadDigits(5, 1) == "5";
    }
    ToDecimalIs(Fraction(1, 2), 1, false, 1, 5, "0.5");
  }

  lemma HalfAtNoDigits()
    ensures Fraction(1, 2).ToDecimal(0, false) == "1"
  {
    assert Pow(10, 0) == 1;
    assert RoundHalfAway(1, 2, 0) == 1;
    assert Decimal(1, 0).ToString() == "1";
    ToDecimalIs(Fraction(1, 2), 0, false, 0, 1, "1");
  }

  lemma TwoFifthsAtNoDigits()
    ensures Fraction(2, 5).ToDecimal(0, false) == "0"
  {
    assert Pow(10, 0) == 1;
    assert RoundHalfAway(2, 5, 0) == 0;
    assert Decimal(0, 0).ToString() == "0";
    ToDecimalIs(Fraction(2, 5), 0, false, 0, 0, "0");
  }

  /** Automatic precision: 1/1000 needs three digits. */
  lemma ThousandthAuto()
    ensures Fraction(1, 1000).ToDecimal(2, true) == "0.001"
  {
    assert Pow(10, 3) == 1000 by {
      assert Pow(10, 1) == 10 && Pow(10, 2) == 100;
    }
    assert Fraction(1, 1000).DecimalPrecision(2, true) == 3 by {
      AutoPrecisionOfPowerOfTen(1, 3);
    }
    assert RoundHalfAway(1, 1000, 3) == 1;
    assert Decimal(1, 3).ToString() == "0.001" by {
      BelowOnePrinted(1, 3);
      assert PadDigits(1, 3) == "001";
    }
    ToDecimalIs(Fraction(1, 1000), 2, true, 3, 1, "0.001");
  }

  /** Automatic precision: a whole number needs no digits. */
  lemma WholeAuto()
    ensures Fraction(3, 1).ToDecimal(0, true) == "3"
  {
    assert Pow(10, 0) == 1;
    AutoPrecisionOfPowerOfTen(3, 0);
    assert RoundHalfAway(3, 1, 0) == 3;
    assert Decimal(3, 0).ToString() == "3";
    ToDecimalIs(Fraction(3, 1), 0, true, 0, 3, "3");
  }

  /** 1/8 terminates after three digits. */
  lemma EighthPrecision()
    ensures Fraction(1, 8).DecimalPrecision(0, true) == 3
  {
    var f := Fraction(1, 8);
    assert f.Gcd() == 1 by {
      assert Euclid.Gcd(1, 8) == 1;
    }
    assert f.denominator / f.Gcd() == 8;
    assert StripFactor(8, 2) == 1 && StripFactor(1, 5) == 1;
    assert f.IsTerminating();
    ReduceParts(f);
    assert f.Reduce().denominator == 8;
    assert Pow(10, 1) == 10 && Pow(10, 2) == 100 && Pow(10, 3) == 1000;
    assert TerminatingPrecision(8, 1) == 3;
  }

  /** Automatic precision for 1/8 prints all three digits. */
  lemma EighthPrinted()
    ensures Decimal(125, 3).ToString() == "0.125"
  {
    assert Pow(10, 3) == 1000 by {
      assert Pow(10, 1) == 10 && Pow(10, 2) == 100;
    }
    assert PadDigits(125, 3) == "125";
  }

  lemma EighthAuto()
    ensures Fraction(1, 8).ToDecimal(0, true) == "0.125"
  {
    EighthPrecision();
    assert Pow(10, 3) == 1000 by {
      assert Pow(10, 1) == 10 && Pow(10, 2) == 100;
    }
    assert RoundHalfAway(1, 8, 3) == 125;
    EighthPrinted();
    ToDecimalIs(Fraction(1, 8), 0, true, 3, 125, "0.125");
  }

  /** 1/6 and 1/3 repeat, so automatic precision keeps the requested three
      digits. */
  lemma RepeatingPrecision(d: nat)
    requires d == 3 || d == 6
    ensures Fraction(1, d).Valid() && Fraction(1, d).DecimalPrecision(3, true) == 3
  {
    var f := Fraction(1, d);
    assert f.Gcd() == 1 by {
      assert Euclid.Gcd(1, 3) == 1 && Euclid.Gcd(1, 6) == 1;
    }
    assert f.denominator / f.Gcd() == d;
    assert StripFactor(6, 2) == 3 && StripFactor(3, 2) == 3 && StripFactor(3, 5) == 3;
    assert !f.IsTerminating();
    assert |IntToString(d)| == 1;
  }

  lemma SixthPrinted()
    ensures Decimal(167, 3).ToString() == "0.167"
  {
    assert Pow(10, 3) == 1000 by {
      assert Pow(10, 1) == 10 && Pow(10, 2) == 100;
    }
    assert PadDigits(167, 3) == "167";
  }

  lemma SixthAuto()
    ensures Fraction(1, 6).ToDecimal(3, true) == "0.167"
  {
    RepeatingPrecision(6);
    assert Pow(10, 3) == 1000 by {
      assert Pow(10, 1) == 10 && Pow(10, 2) == 100;
    }
    assert RoundHalfAway(1, 6, 3) == 167;
    SixthPrinted();
    ToDecimalIs(Fraction(1, 6), 3, true, 3, 167, "0.167");
  }

  lemma ThirdPrinted()
    ensures Decimal(333, 3).ToString() == "0.333"
  {
    assert Pow(10, 3) == 1000 by {
      assert Pow(10, 1) == 10 && Pow(10, 2) == 100;
    }
    assert PadDigits(333, 3) == "333";
  }

  lemma ThirdAuto()
    ensures Fraction(1, 3).ToDecimal(3, true) == "0.333"
  {
    RepeatingPrecision(3);
    assert Pow(10, 3) == 1000 by {
      assert Pow(10, 1) == 10 && Pow(10, 2) == 100;
    }
    assert RoundHalfAway(1, 3, 3) == 333;
    ThirdPrinted();
    ToDecimalIs(Fraction(1, 3), 3, true, 3, 333, "0.333");
  }

  /** createFromDecimal on the printed form of a decimal. */
  lemma FromDecimalIs(x: Decimal, s: string)
    requires x.ToString() == s
    ensures IsNumber(s) && CreateFromDecimal(s) == Fraction(x.unscaled, Pow(10, x.scale))
  {
    ParseToString(x);
  }

  lemma OneDigitPrinted(u: nat)
    requires u < 10
    ensures Decimal(u, 1).ToString() == "0." + [DigitChar(u)]
  {
    assert Pow(10, 1) == 10;
    assert u / 10 == 0 && u % 10 == u;
    assert NatToString(u) == [DigitChar(u)];
    assert PadDigits(u, 1) == [DigitChar(u)];
  }

  /** createFromDecimal('0.5') is 5/10. */
  lemma CreateFromDecimalExample()
    ensures IsNumber("0.5") && CreateFromDecimal("0.5") == Fraction(5, 10)
    ensures CreateFromDecimal("0.5").ToString("/") == "5/10"
  {
    OneDigitFromDecimal(5);
    assert "0." + [DigitChar(5)] == "0.5";
    FiveTenthsPrinted();
  }

  /** createFromDecimal('0.u') is u/10 for a digit u. */
  lemma OneDigitFromDecimal(u: nat)
    requires u < 10
    ensures IsNumber("0." + [DigitChar(u)]) && CreateFromDecimal("0." + [DigitChar(u)]) == Fraction(u, 10)
  {
    OneDigitPrinted(u);
    FromDecimalIs(Decimal(u, 1), "0." + [DigitChar(u)]);
    assert Pow(10, 1) == 10;
  }

  lemma FiveTenthsPrinted()
    ensures Fraction(5, 10).ToString("/") == "5/10"
  {
    assert NatToString(5) == "5";
    assert NatToString(10) == NatToString(1) + "0";
    assert "5" + "/" + "10" == "5/10";
  }

  /** 0.1 + 0.2 is 3/10, printed "0.3" at automatic precision. */
  lemma DecimalSumExample()
    ensures IsNumber("0.1") && IsNumber("0.2")
    ensures CreateFromDecimal("0.1").Add(CreateFromDecimal("0.2")) == Fraction(3, 10)
    ensures Fraction(3, 10).ToDecimal(0, true) == "0.3"
  {
    assert Pow(10, 1) == 10;
    OneDigitPrinted(1);
    OneDigitPrinted(2);
    assert DigitChar(1) == '1' && DigitChar(2) == '2';
    FromDecimalIs(Decimal(1, 1), "0.1");
    FromDecimalIs(Decimal(2, 1), "0.2");
    TenthsSum();
    ThreeTenthsAuto();
  }

  lemma TenthsSum()
    ensures Fraction(1, 10).Add(Fraction(2, 10)) == Fraction(3, 10)
  {
    var c := Fraction(1, 10).CrossAdd(Fraction(2, 10));
    assert c == Fraction(30, 100);
    assert c.Gcd() == 10 by {
      assert Euclid.Gcd(30, 100) == 10;
    }
    ReduceParts(c);
    assert TruncDiv(30, 10) == 3;
  }

  lemma ThreeTenthsAuto()
    ensures Fraction(3, 10).ToDecimal(0, true) == "0.3"
  {
    AutoPrecisionOfPowerOfTen(3, 1);
    assert Pow(10, 1) == 10;
    assert RoundHalfAway(3, 10, 1) == 3;
    OneDigitPrinted(3);
    ToDecimalIs(Fraction(3, 10), 0, true, 1, 3, "0.3");
  }

  /** 3 - 2.99 is 1/100, printed "0.01" at automatic precision. */
  lemma DecimalDifferenceExample()
    ensures IsNumber("3") && IsNumber("2.99")
    ensures CreateFromDecimal("3").Subtract(CreateFromDecimal("2.99")) == Fraction(1, 100)
    ensures Fraction(1, 100).ToDecimal(0, true) == "0.01"
  {
    assert Pow(10, 0) == 1;
    assert Pow(10, 2) == 100 by {
      assert Pow(10, 1) == 10;
    }
    assert Decimal(3, 0).ToString() == "3";
    assert Decimal(299, 2).ToString() == "2.99" by {
      assert IntToString(2) == "2" && PadDigits(99, 2) == "99";
    }
    FromDecimalIs(Decimal(3, 0), "3");
    FromDecimalIs(Decimal(299, 2), "2.99");
    assert Euclid.Gcd(1, 100) == 1;
    ReducedUnique(Fraction(3, 1).Subtract(Fraction(299, 100)), Fraction(1, 100));
    HundredthAuto();
  }

  lemma HundredthAuto()
    ensures Fraction(1, 100).ToDecimal(0, true) == "0.01"
  {
    assert Pow(10, 2) == 100 by {
      assert Pow(10, 1) == 10;
    }
    AutoPrecisionOfPowerOfTen(1, 2);
    assert RoundHalfAway(1, 100, 2) == 1;
    assert Decimal(1, 2).ToString() == "0.01" by {
      assert PadDigits(1, 2) == "01";
    }
    ToDecimalIs(Fraction(1, 100), 0, true, 2, 1, "0.01");
  }
}
