/** The migrate process plugin 'decimal_fraction': a source decimal becomes
    the numerator and denominator strings of a fraction field. */
module DecimalFraction {
  import opened Arith
  import opened Digits
  import opened BcMath
  import opened Php
  import FractionValue

  /** The two keys of the array transform() returns. */
  datatype Parts = Parts(numerator: string, denominator: string)

  /** The pair that stands for "no fraction". */
  const NoParts: Parts := Parts("", "")

  /** transform($value): a non-numeric value or '' gives the empty pair;
      a number gives createFromDecimal's numerator and denominator, that is
      its digits over 10^k for k decimals. */
  function Transform(value: Scalar): (r: Parts)
    ensures !IsNumeric(value) ==> r == NoParts
    ensures IsNumeric(value) ==>
              var x := Parse(AsString(value));
              r == Parts(IntToString(x.unscaled), IntToString(Pow(10, x.scale)))
  {
    if !IsNumeric(value) || value == Str("") then NoParts
    else
      var f := FractionValue.CreateFromDecimal(AsString(value));
      Parts(IntToString(f.numerator), IntToString(f.denominator))
  }

  // ---------------------------------------------------------------------
  // Lemmas
  // ---------------------------------------------------------------------

  /** A number never maps to the empty pair: the denominator is a power of
      ten and prints as at least one digit, so zero stays distinct from an
      absent value. */
  lemma NumbersAreNotAbsent(value: Scalar)
    requires IsNumeric(value)
    ensures Transform(value) != NoParts
    ensures Transform(value).denominator != ""
  {
    IntToStringNotEmpty(Pow(10, Parse(AsString(value)).scale));
  }

  /** The pair read back as a fraction and printed with automatic
      precision is the number bcmath prints for the value. */
  lemma TransformRoundTrip(value: Scalar)
    requires IsNumeric(value)
    ensures var x := Parse(AsString(value));
            Transform(value) == Parts(IntToString(x.unscaled), IntToString(Pow(10, x.scale)))
            && FractionValue.Fraction(x.unscaled, Pow(10, x.scale)).ToDecimal(0, true) == x.ToString()
  {
    var x := Parse(AsString(value));
    FractionValue.PowerOfTenToDecimal(x.unscaled, x.scale);
  }

  /** A float gives its own digits over 10^k. */
  lemma TransformFloat(x: Decimal)
    ensures Transform(Float(x)) == Parts(IntToString(x.unscaled), IntToString(Pow(10, x.scale)))
  {
    ParseToString(x);
  }

  /** The float 0.5 gives ('5', '10'). */
  lemma HalfExample()
    ensures Transform(Float(Decimal(5, 1))) == Parts("5", "10")
  {
    TransformFloat(Decimal(5, 1));
    assert Pow(10, 1) == 10;
    assert NatToString(10) == NatToString(1) + "0";
  }

  /** The integer -1 gives ('-1', '1'). */
  lemma MinusOneExample()
    ensures Transform(Int(-1)) == Parts("-1", "1")
  {
    IntToStringIsNumber(-1);
    assert Pow(10, 0) == 1;
  }

  /** The integer 0 gives ('0', '1'), not the empty pair. */
  lemma ZeroExample()
    ensures Transform(Int(0)) == Parts("0", "1")
    ensures Transform(Int(0)) != NoParts
  {
    IntToStringIsNumber(0);
    assert Pow(10, 0) == 1;
  }

  /** '' and 'test' give the empty pair. */
  lemma NonNumericExamples()
    ensures Transform(Str("")) == NoParts
    ensures Transform(Str("test")) == NoParts
  {
    assert !IsDigit('t');
    assert IntegerDigits("test") == "test";
  }
}
