/** The bounds the fraction field enforces, and what comparing a number
    string with one of them means. The bounds are compared as PHP strings:
    numerically when both sides are numeric, byte-wise otherwise. */
module FieldLimits {
  import opened Arith
  import opened Digits
  import opened BcMath
  import opened Php

  /** The signed 64-bit range of the numerator column. */
  const MinNumerator: int := -9223372036854775808
  const MaxNumerator: int := 9223372036854775807
  /** The signed 32-bit upper bound of the denominator column. */
  const MaxDenominator: int := 2147483647
  /** 10^9: at most nine digits after the decimal point. */
  const MaxDecimalDenominator: int := 1000000000

  /** The string literals the code compares with: '-9223372036854775808',
      '9223372036854775807', '2147483647', '1000000000'. */
  const MinNumeratorText: string := "-9223372036854775808"
  const MaxNumeratorText: string := "9223372036854775807"
  const MaxDenominatorText: string := "2147483647"
  const MaxDecimalDenominatorText: string := "1000000000"

  /** (string) $numerator < '-9223372036854775808' || ... > '9223372036854775807'. */
  predicate NumeratorBeyondRange(numerator: string)
  {
    StringCompare(numerator, MinNumeratorText) < 0 || StringCompare(numerator, MaxNumeratorText) > 0
  }

  /** (string) $denominator <= '0' || ... > '2147483647'. */
  predicate DenominatorBeyondRange(denominator: string)
  {
    StringCompare(denominator, "0") <= 0 || StringCompare(denominator, MaxDenominatorText) > 0
  }

  /** (string) $denominator > '1000000000'. */
  predicate DenominatorBeyondDecimals(denominator: string)
  {
    StringCompare(denominator, MaxDecimalDenominatorText) > 0
  }

  // ---------------------------------------------------------------------
  // Lemmas
  // ---------------------------------------------------------------------

  /** Comparing a number string with a printed integer bound compares the
      values: x = unscaled / 10^scale against b. */
  lemma CompareWithBound(s: string, b: int)
    requires IsNumber(s)
    ensures var x := Parse(s);
            StringCompare(s, IntToString(b))
            == (if x.unscaled < b * Pow(10, x.scale) then -1 else if x.unscaled == b * Pow(10, x.scale) then 0 else 1)
  {
    var x := Parse(s);
    IntToStringIsNumber(b);
    CompareDecimalValues(x, Decimal(b, 0), x.scale);
    assert Pow(10, x.scale - x.scale) == 1;
  }

  /** On printed integers the comparison is the integer order. */
  lemma CompareIntegers(i: int, b: int)
    ensures StringCompare(IntToString(i), IntToString(b)) == (if i < b then -1 else if i == b then 0 else 1)
  {
    IntToStringIsNumber(i);
    IntToStringIsNumber(b);
    CompareWholeNumbers(IntToString(i), IntToString(b), i, b);
  }

  /** Two number strings that read as whole numbers compare as those. */
  lemma CompareWholeNumbers(s: string, t: string, i: int, b: int)
    requires IsNumber(s) && Parse(s) == Decimal(i, 0)
    requires IsNumber(t) && Parse(t) == Decimal(b, 0)
    ensures StringCompare(s, t) == (if i < b then -1 else if i == b then 0 else 1)
  {
    assert Decimal(i, 0).At(0) == i && Decimal(b, 0).At(0) == b by {
      assert Pow(10, 0) == 1;
    }
  }

  /** empty() holds of a printed integer exactly when it is zero. */
  lemma EmptyIntString(n: int)
    ensures Empty(IntToString(n)) <==> n == 0
  {
    IntToStringNotEmpty(n);
    if n < 0 {
      assert IntToString(n)[0] == '-';
    } else if n > 0 {
      PositiveNotZeroText(n);
    }
  }

  lemma PositiveNotZeroText(n: nat)
    requires n > 0
    ensures NatToString(n) != "0"
  {
    if n >= 10 {
      NatToStringProperties(n / 10);
    }
  }

  /** One more digit on the right of a printed natural number. */
  lemma NatToStringSnoc(q: nat, c: nat)
    requires q > 0 && c < 10
    ensures NatToString(10 * q + c) == NatToString(q) + [DigitChar(c)]
  {
    assert (10 * q + c) / 10 == q && (10 * q + c) % 10 == c;
  }

  /** The literals are the bounds printed. */
  lemma MinNumeratorPrinted()
    ensures IntToString(MinNumerator) == MinNumeratorText
  {
    NatToStringSnoc(9, 2);
    NatToStringSnoc(92, 2);
    NatToStringSnoc(922, 3);
    NatToStringSnoc(9223, 3);
    NatToStringSnoc(92233, 7);
    NatToStringSnoc(922337, 2);
    NatToStringSnoc(9223372, 0);
    NatToStringSnoc(92233720, 3);
    NatToStringSnoc(922337203, 6);
    NatToStringSnoc(9223372036, 8);
    NatToStringSnoc(92233720368, 5);
    NatToStringSnoc(922337203685, 4);
    NatToStringSnoc(9223372036854, 7);
    NatToStringSnoc(92233720368547, 7);
    NatToStringSnoc(922337203685477, 5);
    NatToStringSnoc(9223372036854775, 8);
    NatToStringSnoc(92233720368547758, 0);
    NatToStringSnoc(922337203685477580, 8);
  }

  lemma MaxNumeratorPrinted()
    ensures IntToString(MaxNumerator) == MaxNumeratorText
  {
    NatToStringSnoc(9, 2);
    NatToStringSnoc(92, 2);
    NatToStringSnoc(922, 3);
    NatToStringSnoc(9223, 3);
    NatToStringSnoc(92233, 7);
    NatToStringSnoc(922337, 2);
    NatToStringSnoc(9223372, 0);
    NatToStringSnoc(92233720, 3);
    NatToStringSnoc(922337203, 6);
    NatToStringSnoc(9223372036, 8);
    NatToStringSnoc(92233720368, 5);
    NatToStringSnoc(922337203685, 4);
    NatToStringSnoc(9223372036854, 7);
    NatToStringSnoc(92233720368547, 7);
    NatToStringSnoc(922337203685477, 5);
    NatToStringSnoc(9223372036854775, 8);
    NatToStringSnoc(92233720368547758, 0);
    NatToStringSnoc(922337203685477580, 7);
  }

  lemma MaxDenominatorPrinted()
    ensures IntToString(MaxDenominator) == MaxDenominatorText
  {
    NatToStringSnoc(2, 1);
    NatToStringSnoc(21, 4);
    NatToStringSnoc(214, 7);
    NatToStringSnoc(2147, 4);
    NatToStringSnoc(21474, 8);
    NatToStringSnoc(214748, 3);
    NatToStringSnoc(2147483, 6);
    NatToStringSnoc(21474836, 4);
    NatToStringSnoc(214748364, 7);
  }

  lemma MaxDecimalDenominatorPrinted()
    ensures IntToString(MaxDecimalDenominator) == MaxDecimalDenominatorText
  {
    NatToStringSnoc(1, 0);
    NatToStringSnoc(10, 0);
    NatToStringSnoc(100, 0);
    NatToStringSnoc(1000, 0);
    NatToStringSnoc(10000, 0);
    NatToStringSnoc(100000, 0);
    NatToStringSnoc(1000000, 0);
    NatToStringSnoc(10000000, 0);
    NatToStringSnoc(100000000, 0);
  }

  /** CompareIntegers against a bound given by its printed text. */
  lemma CompareWithText(i: int, b: int, t: string)
    requires t == IntToString(b)
    ensures StringCompare(IntToString(i), t) == (if i < b then -1 else if i == b then 0 else 1)
  {
    CompareIntegers(i, b);
  }

  /** The numerator check on a printed integer: outside the 64-bit range. */
  lemma NumeratorBeyondRangeOfInt(n: int)
    ensures NumeratorBeyondRange(IntToString(n)) <==> n < MinNumerator || n > MaxNumerator
  {
    MinNumeratorPrinted();
    MaxNumeratorPrinted();
    CompareWithText(n, MinNumerator, MinNumeratorText);
    CompareWithText(n, MaxNumerator, MaxNumeratorText);
  }

  /** The denominator check on a printed integer: not in 1..2147483647. */
  lemma DenominatorBeyondRangeOfInt(d: int)
    ensures DenominatorBeyondRange(IntToString(d)) <==> d <= 0 || d > MaxDenominator
  {
    CompareIntegers(d, 0);
    assert IntToString(0) == "0";
    MaxDenominatorPrinted();
    CompareWithText(d, MaxDenominator, MaxDenominatorText);
  }

  /** The decimal-digit check on a printed integer: above 10^9. */
  lemma DenominatorBeyondDecimalsOfInt(d: int)
    ensures DenominatorBeyondDecimals(IntToString(d)) <==> d > MaxDecimalDenominator
  {
    MaxDecimalDenominatorPrinted();
    CompareWithText(d, MaxDecimalDenominator, MaxDecimalDenominatorText);
  }
}
