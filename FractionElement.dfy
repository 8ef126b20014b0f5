/** The 'fraction' form element: two number inputs whose values are checked
    independently of one another. Every failed check sets an error on the
    element, which keeps the first of them. */
module FractionElement {
  import opened Digits
  import opened Php
  import opened Wrappers
  import opened FieldLimits
  import opened Form

  /** A #default_value as the element receives it: not set (NULL), some
      value that is not an array, or an array of named entries. */
  datatype DefaultValue = Unset | NotArray | Array(entries: map<string, string>)

  /** The defaults processElement hands to the two child inputs. */
  datatype ChildDefaults = ChildDefaults(numerator: Option<string>, denominator: Option<string>)

  /** validateDefaultValue($default_value): an array holding both keys. */
  predicate ValidateDefaultValue(v: DefaultValue)
  {
    v.Array? && "numerator" in v.entries && "denominator" in v.entries
  }

  /** processElement: a default that is set but malformed throws
      InvalidArgumentException (None here); otherwise the children get the
      default's entries, or nothing when no default was set. */
  function ProcessElement(v: DefaultValue): (r: Option<ChildDefaults>)
    ensures r.None? <==> v != Unset && !ValidateDefaultValue(v)
    ensures v == Unset ==> r == Some(ChildDefaults(None, None))
    ensures r.Some? && v != Unset ==>
              r.value.numerator == Some(v.entries["numerator"]) && r.value.denominator == Some(v.entries["denominator"])
  {
    match v
    case Unset => Some(ChildDefaults(None, None))
    case NotArray => None
    case Array(m) =>
      if ValidateDefaultValue(v) then Some(ChildDefaults(Some(m["numerator"]), Some(m["denominator"])))
      else None
  }

  /** The errors validateFraction sets, in the order it sets them. */
  function FractionErrors(numerator: string, denominator: string): (errors: seq<Message>)
    ensures DenominatorEmpty in errors <==> Empty(denominator) && !Empty(numerator)
    ensures NumeratorRange in errors <==> !Empty(numerator) && NumeratorBeyondRange(numerator)
    ensures DenominatorRange in errors <==> !Empty(denominator) && DenominatorBeyondRange(denominator)
  {
    ErrorList(Empty(denominator) && !Empty(numerator),
              !Empty(numerator) && NumeratorBeyondRange(numerator),
              !Empty(denominator) && DenominatorBeyondRange(denominator))
  }

  /** One error per failed check, in the order of the checks; the first
      failed check comes first. */
  function ErrorList(missing: bool, numeratorBad: bool, denominatorBad: bool): (errors: seq<Message>)
    ensures DenominatorEmpty in errors <==> missing
    ensures NumeratorRange in errors <==> numeratorBad
    ensures DenominatorRange in errors <==> denominatorBad
    ensures forall i, j :: 0 <= i < j < |errors| ==> Rank(errors[i]) < Rank(errors[j])
    ensures errors == [] <==> !missing && !numeratorBad && !denominatorBad
    ensures errors != [] ==>
              errors[0] == (if missing then DenominatorEmpty else if numeratorBad then NumeratorRange else DenominatorRange)
  {
    (if missing then [DenominatorEmpty] else []) + (if numeratorBad then [NumeratorRange] else [])
    + (if denominatorBad then [DenominatorRange] else [])
  }

  /** validateFraction: three independent checks, each calling setError on
      the element named `name`; the element keeps the first error. */
  method ValidateFraction(name: string, numerator: string, denominator: string, formState: FormState)
    modifies formState
    ensures formState.errors == RecordAll(old(formState.errors), name, FractionErrors(numerator, denominator))
    ensures var errors := FractionErrors(numerator, denominator);
            formState.errors == if name in old(formState.errors) || errors == [] then old(formState.errors)
                                else old(formState.errors)[name := errors[0]]
    ensures formState.value == old(formState.value)
  {
    var missing := Empty(denominator) && !Empty(numerator);
    var numeratorBad := !Empty(numerator) && NumeratorBeyondRange(numerator);
    var denominatorBad := !Empty(denominator) && DenominatorBeyondRange(denominator);
    ghost var before := formState.errors;
    ghost var first, second, third := (if missing then [DenominatorEmpty] else []),
      (if numeratorBad then [NumeratorRange] else []), (if denominatorBad then [DenominatorRange] else []);
    RecordOptional(before, name, missing, DenominatorEmpty);
    if missing {
      formState.SetError(name, DenominatorEmpty);
    }
    ghost var afterFirst := formState.errors;
    RecordOptional(afterFirst, name, numeratorBad, NumeratorRange);
    if numeratorBad {
      formState.SetError(name, NumeratorRange);
    }
    ghost var afterSecond := formState.errors;
    RecordOptional(afterSecond, name, denominatorBad, DenominatorRange);
    if denominatorBad {
      formState.SetError(name, DenominatorRange);
    }
    RecordAllAppend(before, name, first, second);
    RecordAllAppend(before, name, first + second, third);
    assert first + second + third == FractionErrors(numerator, denominator);
    RecordAllKeepsFirst(before, name, first + second + third);
  }

  // ---------------------------------------------------------------------
  // Lemmas
  // ---------------------------------------------------------------------

  /** On integer inputs each error is set exactly when its rule is broken:
      a missing denominator under a numerator, a numerator outside the
      64-bit range, a denominator outside 1..2147483647. The errors are
      independent: any combination of them can be set at once. */
  lemma FractionErrorsOfIntegers(n: int, d: int)
    ensures var errors := FractionErrors(IntToString(n), IntToString(d));
            && (DenominatorEmpty in errors <==> d == 0 && n != 0)
            && (NumeratorRange in errors <==> n < MinNumerator || n > MaxNumerator)
            && (DenominatorRange in errors <==> d < 0 || d > MaxDenominator)
  {
    EmptyIntString(n);
    EmptyIntString(d);
    NumeratorBeyondRangeOfInt(n);
    DenominatorBeyondRangeOfInt(d);
  }

  function Rank(m: Message): nat
  {
    match m
    case DenominatorEmpty => 0
    case NumeratorRange => 1
    case DenominatorRange => 2
    case _ => 3
  }

  /** A zero numerator skips the range check, and together with a zero
      denominator passes every check. */
  lemma ZeroNumeratorPasses(d: int)
    requires 0 <= d <= MaxDenominator
    ensures FractionErrors(IntToString(0), IntToString(d)) == []
  {
    FractionErrorsOfIntegers(0, d);
  }

  /** What validateFraction leaves on an element without an earlier error,
      for integer inputs: the error of the first rule broken, in the order
      missing denominator, numerator range, denominator range; nothing when
      every rule holds. */
  lemma RecordedFractionError(n: int, d: int, name: string, errors: map<string, Message>)
    requires name !in errors
    ensures RecordAll(errors, name, FractionErrors(IntToString(n), IntToString(d)))
            == if d == 0 && n != 0 then errors[name := DenominatorEmpty]
               else if n < MinNumerator || n > MaxNumerator then errors[name := NumeratorRange]
               else if d < 0 || d > MaxDenominator then errors[name := DenominatorRange]
               else errors
  {
    var fe := FractionErrors(IntToString(n), IntToString(d));
    FractionErrorsOfIntegers(n, d);
    RecordAllKeepsFirst(errors, name, fe);
  }
}
