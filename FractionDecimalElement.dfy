/** The 'fraction_decimal' form element: a decimal typed by the user is
    converted to a fraction (its digits over 10^k), recorded on the form,
    and rejected when it has more than nine decimals or when it falls
    outside the range a 64-bit numerator over the same denominator can
    hold. */
module FractionDecimalElement {
  import opened Arith
  import opened Digits
  import opened BcMath
  import opened Php
  import opened Wrappers
  import opened FieldLimits
  import opened Form
  import FractionValue
  import FractionObject

  /** checkInBounds($value, $min, $max, $scale) on the bcmath path: both
      differences are taken with bcsub at the given scale; a zero
      difference is in bounds, a difference from the minimum that prints
      with a leading '-' is below it, and a difference from the maximum
      that prints with a leading digit is above it. */
  function CheckInBounds(value: string, min: string, max: string, scale: nat): (inBounds: bool)
    requires IsNumber(value) && IsNumber(min) && IsNumber(max)
    ensures var diffMin, diffMax := BcSub(Parse(value), Parse(min), scale), BcSub(Parse(value), Parse(max), scale);
            inBounds <==> diffMin.unscaled == 0 || diffMax.unscaled == 0 || (diffMin.unscaled > 0 && diffMax.unscaled < 0)
  {
    var diffMin := BcSub(Parse(value), Parse(min), scale);
    var diffMax := BcSub(Parse(value), Parse(max), scale);
    ToStringSign(diffMin);
    ToStringSign(diffMax);
    if diffMin.unscaled == 0 || diffMax.unscaled == 0 then true
    else if diffMin.ToString()[0] == '-' then false
    else if IsDigit(diffMax.ToString()[0]) then false
    else true
  }

  /** The values recorded for a valid input: the trimmed text and the
      numerator and denominator createFromDecimal gives it. */
  function Conversion(value: string): (parts: DecimalParts)
    requires IsNumber(value)
    ensures parts.decimal == value
    ensures parts.numerator == IntToString(Parse(value).unscaled)
    ensures parts.denominator == IntToString(Pow(10, Parse(value).scale))
  {
    var f := FractionValue.CreateFromDecimal(value);
    DecimalParts(value, IntToString(f.numerator), IntToString(f.denominator))
  }

  /** The bounds the input is checked against, printed as toDecimal(0, TRUE)
      prints them: the 64-bit limits over the input's denominator. */
  function BoundText(bound: int, denominator: int): (s: string)
    requires denominator > 0
    ensures IsNumber(s)
  {
    var f := FractionValue.New(bound, denominator);
    ParseToString(FractionValue.RoundedDecimal(f.numerator, f.denominator, f.DecimalPrecision(0, true)));
    f.ToDecimal(0, true)
  }

  /** The range check validateDecimal makes on the printed value of a
      fraction with the given denominator, at scale digits(denominator) - 1. */
  predicate InRange(decimal: string, denominator: int)
    requires IsNumber(decimal) && denominator > 0
  {
    IntToStringNotEmpty(denominator);
    CheckInBounds(decimal, BoundText(MinNumerator, denominator), BoundText(MaxNumerator, denominator),
                  |IntToString(denominator)| - 1)
  }

  /** The errors validateDecimal sets on a number it has converted: the
      digit limit, then the range check. */
  function DecimalErrors(value: string): seq<Message>
    requires IsNumber(value)
  {
    var f := FractionValue.CreateFromDecimal(value);
    ParseToString(FractionValue.RoundedDecimal(f.numerator, f.denominator, f.DecimalPrecision(0, true)));
    ErrorPair(DenominatorBeyondDecimals(IntToString(f.denominator)), !InRange(f.ToDecimal(0, true), f.denominator))
  }

  function ErrorPair(tooManyDecimals: bool, outOfRange: bool): (errors: seq<Message>)
    ensures TooManyDecimals in errors <==> tooManyDecimals
    ensures OutOfRange in errors <==> outOfRange
    ensures errors == [] <==> !tooManyDecimals && !outOfRange
    ensures errors != [] ==> errors[0] == if tooManyDecimals then TooManyDecimals else OutOfRange
  {
    (if tooManyDecimals then [TooManyDecimals] else []) + (if outOfRange then [OutOfRange] else [])
  }

  /** Number::validateNumber passes the raw input: it is a number, and the
      element's own limits, which are the framework's business, hold. */
  predicate NumberCheck(raw: string, withinLimits: bool)
  {
    IsNumber(Trim(raw)) && withinLimits
  }

  /** validateDecimal on the element named `name`: skip empty input; run
      the core number validation and stop if the form has any error on any
      element; record the conversion; then check the digit limit and the
      range, the element keeping the first error. */
  method ValidateDecimal(name: string, raw: string, withinLimits: bool, formState: FormState)
    modifies formState
    ensures raw == "" ==> formState.errors == old(formState.errors) && formState.value == old(formState.value)
    ensures raw != "" && !NumberCheck(raw, withinLimits) ==>
              formState.errors == Record(old(formState.errors), name, InvalidNumber) && formState.value == old(formState.value)
    ensures raw != "" && NumberCheck(raw, withinLimits) && old(formState.errors) != map[] ==>
              formState.errors == old(formState.errors) && formState.value == old(formState.value)
    ensures raw != "" && NumberCheck(raw, withinLimits) && old(formState.errors) == map[] ==>
              && formState.value == Some(Conversion(Trim(raw)))
              && formState.errors == RecordAll(map[], name, DecimalErrors(Trim(raw)))
              && formState.errors == if DecimalErrors(Trim(raw)) == [] then map[]
                                     else map[name := DecimalErrors(Trim(raw))[0]]
  {
    var value := Trim(raw);
    if raw == "" {
      return;
    }
    var valid := IsNumber(value) && withinLimits;
    if !valid {
      formState.SetError(name, InvalidNumber);
      assert name in formState.errors;
    }
    if formState.errors != map[] {
      return;
    }
    ghost var errors := DecimalErrors(value);
    ConvertAndCheck(name, value, formState);
    RecordAllKeepsFirst(map[], name, errors);
  }

  /** The part of validateDecimal after the number check: convert, record
      the values, then the digit limit and the range check. */
  method ConvertAndCheck(name: string, value: string, formState: FormState)
    requires IsNumber(value)
    modifies formState
    ensures formState.value == Some(Conversion(value))
    ensures formState.errors == RecordAll(old(formState.errors), name, DecimalErrors(value))
  {
    var fraction := FractionObject.Fraction.CreateFromDecimal(value);
    var numerator := fraction.numerator;
    var denominator := fraction.denominator;
    formState.SetValueForElement(DecimalParts(value, IntToString(numerator), IntToString(denominator)));
    var tooManyDecimals := DenominatorBeyondDecimals(IntToString(denominator));
    ghost var before, first := formState.errors, if tooManyDecimals then [TooManyDecimals] else [];
    RecordOptional(before, name, tooManyDecimals, TooManyDecimals);
    if tooManyDecimals {
      formState.SetError(name, TooManyDecimals);
    }
    ghost var afterFirst := formState.errors;
    var inBounds := RangeCheck(fraction);
    ghost var second := if !inBounds then [OutOfRange] else [];
    RecordOptional(afterFirst, name, !inBounds, OutOfRange);
    if !inBounds {
      formState.SetError(name, OutOfRange);
    }
    assert DecimalErrors(value) == first + second;
    RecordAllAppend(before, name, first, second);
  }

  /** The range check of validateDecimal on the converted fraction. */
  method RangeCheck(fraction: FractionObject.Fraction) returns (inBounds: bool)
    requires fraction.Valid()
    ensures IsNumber(fraction.Pair().ToDecimal(0, true))
    ensures inBounds == InRange(fraction.Pair().ToDecimal(0, true), fraction.denominator)
  {
    var denominator := fraction.denominator;
    var decimal := fraction.ToDecimal(0, true);
    PrintedIsNumber(fraction.Pair());
    var minDecimal := BoundDecimal(MinNumerator, denominator);
    var maxDecimal := BoundDecimal(MaxNumerator, denominator);
    IntToStringNotEmpty(denominator);
    var scale := |IntToString(denominator)| - 1;
    inBounds := CheckInBounds(decimal, minDecimal, maxDecimal, scale);
    InRangeIs(decimal, minDecimal, maxDecimal, denominator);
  }

  /** new Fraction($bound, $denominator) printed by toDecimal(0, TRUE). */
  method BoundDecimal(bound: int, denominator: int) returns (s: string)
    requires denominator > 0
    ensures s == BoundText(bound, denominator)
  {
    var f := new FractionObject.Fraction(bound, denominator);
    s := f.ToDecimal(0, true);
  }

  /** The range check on the bounds' printed forms is InRange. */
  lemma InRangeIs(decimal: string, minDecimal: string, maxDecimal: string, denominator: int)
    requires IsNumber(decimal) && denominator > 0
    requires minDecimal == BoundText(MinNumerator, denominator) && maxDecimal == BoundText(MaxNumerator, denominator)
    ensures |IntToString(denominator)| > 0
    ensures CheckInBounds(decimal, minDecimal, maxDecimal, |IntToString(denominator)| - 1) == InRange(decimal, denominator)
  {
    IntToStringNotEmpty(denominator);
  }

  /** What toDecimal prints is a number string. */
  lemma PrintedIsNumber(f: FractionValue.Fraction)
    requires f.Valid()
    ensures IsNumber(f.ToDecimal(0, true))
  {
    ParseToString(FractionValue.RoundedDecimal(f.numerator, f.denominator, f.DecimalPrecision(0, true)));
  }

  // ---------------------------------------------------------------------
  // Lemmas
  // ---------------------------------------------------------------------

  /** When every number is exact at the scale, checkInBounds compares the
      values: equal to a bound, or strictly between them. */
  lemma CheckInBoundsExact(value: string, min: string, max: string, scale: nat)
    requires IsNumber(value) && IsNumber(min) && IsNumber(max)
    requires Parse(value).scale <= scale && Parse(min).scale <= scale && Parse(max).scale <= scale
    ensures var v, l, h := Parse(value).At(scale), Parse(min).At(scale), Parse(max).At(scale);
            CheckInBounds(value, min, max, scale) <==> v == l || v == h || (l < v && v < h)
  {
    BcSubExact(Parse(value), Parse(min), scale);
    BcSubExact(Parse(value), Parse(max), scale);
  }

  /** With ordered bounds that is min <= value <= max. */
  lemma CheckInBoundsOrdered(value: string, min: string, max: string, scale: nat)
    requires IsNumber(value) && IsNumber(min) && IsNumber(max)
    requires Parse(value).scale <= scale && Parse(min).scale <= scale && Parse(max).scale <= scale
    requires Parse(min).At(scale) <= Parse(max).At(scale)
    ensures var v, l, h := Parse(value).At(scale), Parse(min).At(scale), Parse(max).At(scale);
            CheckInBounds(value, min, max, scale) <==> l <= v <= h
  {
    CheckInBoundsExact(value, min, max, scale);
  }

  /** More than nine digits after the point is exactly a denominator above
      10^9. */
  lemma DigitLimit(k: nat)
    ensures DenominatorBeyondDecimals(IntToString(Pow(10, k))) <==> k > 9
  {
    DenominatorBeyondDecimalsOfInt(Pow(10, k));
    assert Pow(10, 9) == MaxDecimalDenominator;
    if k > 9 {
      PowStrictlyMonotone(10, 9, k);
    } else {
      PowMonotone(10, k, 9);
    }
  }

  /** The range check on u / 10^k printed at k digits accepts exactly the
      numerators of the 64-bit range. */
  lemma InRangeOfPowerOfTen(u: int, k: nat)
    ensures Pow(10, k) > 0 && IsNumber(Decimal(u, k).ToString())
    ensures InRange(Decimal(u, k).ToString(), Pow(10, k)) <==> MinNumerator <= u <= MaxNumerator
  {
    var d := Pow(10, k);
    var decimal, minText, maxText := Decimal(u, k).ToString(), Decimal(MinNumerator, k).ToString(),
      Decimal(MaxNumerator, k).ToString();
    assert BoundText(MinNumerator, d) == minText by {
      FractionValue.PowerOfTenToDecimal(MinNumerator, k);
    }
    assert BoundText(MaxNumerator, d) == maxText by {
      FractionValue.PowerOfTenToDecimal(MaxNumerator, k);
    }
    assert |IntToString(d)| - 1 == k by {
      NatToStringOfPow10(k);
    }
    ReadAtOwnScale(u, k);
    ReadAtOwnScale(MinNumerator, k);
    ReadAtOwnScale(MaxNumerator, k);
    CheckInBoundsOrdered(decimal, minText, maxText, k);
  }

  /** u / 10^k printed and read back at scale k is u again. */
  lemma ReadAtOwnScale(u: int, k: nat)
    ensures IsNumber(Decimal(u, k).ToString())
    ensures Parse(Decimal(u, k).ToString()).scale == k
    ensures Parse(Decimal(u, k).ToString()).At(k) == u
  {
    ParseToString(Decimal(u, k));
    assert Pow(10, k - k) == 1;
  }

  /** What the two checks mean for a number string with k fractional
      digits and digits u: the digit limit fails exactly when k > 9, and
      the range check fails exactly when u is outside the 64-bit range,
      that is when u / 10^k cannot be stored over 10^k. */
  lemma DecimalErrorsMeaning(value: string)
    requires IsNumber(value)
    ensures var x, errors := Parse(value), DecimalErrors(value);
            && (TooManyDecimals in errors <==> x.scale > 9)
            && (OutOfRange in errors <==> x.unscaled < MinNumerator || x.unscaled > MaxNumerator)
  {
    var x := Parse(value);
    DigitLimit(x.scale);
    FractionValue.PowerOfTenToDecimal(x.unscaled, x.scale);
    InRangeOfPowerOfTen(x.unscaled, x.scale);
  }

  /** 10.1234567891, ten decimals, as bcmath prints it: the digit limit
      fails, the range check passes. */
  lemma TenDecimalsExample()
    ensures var s := Decimal(101234567891, 10).ToString();
            && IsNumber(s)
            && TooManyDecimals in DecimalErrors(s)
            && OutOfRange !in DecimalErrors(s)
  {
    ParseToString(Decimal(101234567891, 10));
    DecimalErrorsMeaning(Decimal(101234567891, 10).ToString());
  }

  /** What validateDecimal leaves on an element without an earlier error,
      for a number with k fractional digits and digits u: the digit-limit
      error when k > 9, otherwise the range error when u is outside the
      64-bit range, otherwise nothing. */
  lemma RecordedDecimalError(value: string, name: string, errors: map<string, Message>)
    requires IsNumber(value) && name !in errors
    ensures var x := Parse(value);
            RecordAll(errors, name, DecimalErrors(value))
            == if x.scale > 9 then errors[name := TooManyDecimals]
               else if x.unscaled < MinNumerator || x.unscaled > MaxNumerator then errors[name := OutOfRange]
               else errors
  {
    DecimalErrorsMeaning(value);
    RecordAllKeepsFirst(errors, name, DecimalErrors(value));
  }
}
