/** The entity-level constraint on a fraction field item: the same checks
    as the form element plus the nine-decimal limit, tried in a fixed order,
    and only the first one that fails is reported. */
module FractionConstraint {
  import opened Digits
  import opened Php
  import opened Wrappers
  import opened FieldLimits
  import FractionElement

  /** The four messages the constraint can add. */
  datatype Violation =
    | DenominatorNotZero
    | DenominatorOutOfRange
    | NumeratorOutOfRange
    | MaxNumberOfDecimals

  /** Every check of validate() that fails on the item, in the order the
      checks are written. */
  function FailedChecks(numerator: string, denominator: string): (failed: seq<Violation>)
    ensures forall i, j :: 0 <= i < j < |failed| ==> failed[i] != failed[j]
  {
    (if Empty(denominator) && !Empty(numerator) then [DenominatorNotZero] else [])
    + (if !Empty(denominator) && DenominatorBeyondRange(denominator) then [DenominatorOutOfRange] else [])
    + (if !Empty(numerator) && NumeratorBeyondRange(numerator) then [NumeratorOutOfRange] else [])
    + (if DenominatorBeyondDecimals(denominator) then [MaxNumberOfDecimals] else [])
  }

  /** validate($items): each check returns right after adding its
      violation, so at most one violation is reported, the first failed
      check's. */
  function Validate(numerator: string, denominator: string): (r: Option<Violation>)
    ensures r.None? <==> FailedChecks(numerator, denominator) == []
    ensures r.Some? ==> r.value == FailedChecks(numerator, denominator)[0]
  {
    if Empty(denominator) && !Empty(numerator) then Some(DenominatorNotZero)
    else if !Empty(denominator) && DenominatorBeyondRange(denominator) then Some(DenominatorOutOfRange)
    else if !Empty(numerator) && NumeratorBeyondRange(numerator) then Some(NumeratorOutOfRange)
    else if DenominatorBeyondDecimals(denominator) then Some(MaxNumberOfDecimals)
    else None
  }

  // ---------------------------------------------------------------------
  // Lemmas
  // ---------------------------------------------------------------------

  /** On integer values: a zero denominator is only accepted with a zero
      numerator; otherwise the denominator must lie in 1..10^9 and the
      numerator in the signed 64-bit range. The violation reported is the
      first rule broken. */
  lemma ValidateIntegers(n: int, d: int)
    ensures var r := Validate(IntToString(n), IntToString(d));
            && (r.None? <==> (d == 0 && n == 0)
                             || (0 < d <= MaxDecimalDenominator && MinNumerator <= n <= MaxNumerator))
            && (r == Some(DenominatorNotZero) <==> d == 0 && n != 0)
            && (r == Some(DenominatorOutOfRange) <==> d < 0 || d > MaxDenominator)
            && (r == Some(NumeratorOutOfRange) <==>
                  0 < d <= MaxDenominator && (n < MinNumerator || n > MaxNumerator))
            && (r == Some(MaxNumberOfDecimals) <==>
                  MaxDecimalDenominator < d <= MaxDenominator && MinNumerator <= n <= MaxNumerator)
  {
    EmptyIntString(n);
    EmptyIntString(d);
    NumeratorBeyondRangeOfInt(n);
    DenominatorBeyondRangeOfInt(d);
    DenominatorBeyondDecimalsOfInt(d);
  }

  /** The constraint accepts exactly the items the form element accepts
      that also have at most nine decimals; a check the element would flag
      always makes the constraint report something other than the decimal
      limit. */
  lemma AgreesWithElement(numerator: string, denominator: string)
    ensures var errors := FractionElement.FractionErrors(numerator, denominator);
            var r := Validate(numerator, denominator);
            && (r.None? <==> errors == [] && !DenominatorBeyondDecimals(denominator))
            && (errors != [] <==> r.Some? && r.value != MaxNumberOfDecimals)
  {
  }
  /** 1/1, 1/123456 and 92233720368547758/1 are accepted. */
  lemma AcceptedExamples()
    ensures Validate(IntToString(1), IntToString(1)) == None
    ensures Validate(IntToString(1), IntToString(123456)) == None
    ensures Validate(IntToString(92233720368547758), IntToString(1)) == None
  {
    ValidateIntegers(1, 1);
    ValidateIntegers(1, 123456);
    ValidateIntegers(92233720368547758, 1);
  }

  /** 1/0, 1/2147483649 and 9223372036854775808/1 each get one violation. */
  lemma RejectedExamples()
    ensures Validate(IntToString(1), IntToString(0)) == Some(DenominatorNotZero)
    ensures Validate(IntToString(1), IntToString(2147483649)) == Some(DenominatorOutOfRange)
    ensures Validate(IntToString(9223372036854775808), IntToString(1)) == Some(NumeratorOutOfRange)
    ensures Validate(IntToString(-9223372036854775809), IntToString(1)) == Some(NumeratorOutOfRange)
  {
    ValidateIntegers(1, 0);
    ValidateIntegers(1, 2147483649);
    ValidateIntegers(9223372036854775808, 1);
    ValidateIntegers(-9223372036854775809, 1);
  }
}
