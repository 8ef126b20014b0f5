/** The Feeds target for fraction fields: an imported 'value' is parsed
    either as "numerator/denominator" or as a decimal, and replaced in the
    item's values by a numerator and a denominator. */
module FractionTarget {
  import opened Arith
  import opened Digits
  import opened BcMath
  import opened Php
  import FractionValue
  import FractionObject
  import FieldLimits
  import opened DecimalFraction

  /** The two import types the target offers. */
  datatype ImportType = FractionImport | DecimalImport

  /** The values of one field item, which prepareValue edits in place. */
  class ItemValues {
    var entries: map<string, Scalar>

    constructor(entries: map<string, Scalar>)
      ensures this.entries == entries
    {
      this.entries := entries;
    }
  }

  /** $values['value'], trimmed when it is a string; a missing key reads
      as NULL. */
  function ImportedItem(entries: map<string, Scalar>): (item: Scalar)
    ensures "value" !in entries ==> item == Other
    ensures "value" in entries && entries["value"].Str? ==> item == Str(Trim(entries["value"].s))
    ensures "value" in entries && !entries["value"].Str? ==> item == entries["value"]
  {
    if "value" !in entries then Other
    else if entries["value"].Str? then Str(Trim(entries["value"].s))
    else entries["value"]
  }

  /** The 'fraction' branch on the '/'-separated segments: the first two
      must be non-empty numbers, the second not negative; anything else
      gives the empty pair. */
  function SegmentFields(parts: seq<string>): (r: Parts)
    ensures r != NoParts ==>
              && |parts| >= 2 && r == Parts(parts[0], parts[1])
              && IsNumber(parts[0]) && !Empty(parts[0])
              && IsNumber(parts[1]) && !Empty(parts[1]) && Parse(parts[1]).unscaled >= 0
    ensures r == NoParts || r == Parts(parts[0], parts[1])
  {
    if |parts| >= 2 && !Empty(parts[0]) && IsNumber(parts[0]) && !Empty(parts[1]) && IsNumber(parts[1])
       && Parse(parts[1]).unscaled >= 0
    then Parts(parts[0], parts[1])
    else NoParts
  }

  /** explode('/', $item) for a string item, no segments otherwise. */
  function FractionFields(item: Scalar): (r: Parts)
    ensures !item.Str? ==> r == NoParts
  {
    SegmentFields(if item.Str? then Explode(item.s, '/') else [])
  }

  /** The fields an import type gives an item. */
  function Fields(mode: ImportType, item: Scalar): Parts
  {
    match mode
    case FractionImport => FractionFields(item)
    case DecimalImport => Transform(item)
  }

  /** prepareValue($delta, &$values): read and remove 'value', then set
      'numerator' and 'denominator'. */
  method PrepareValue(mode: ImportType, values: ItemValues)
    modifies values
    ensures var r := Fields(mode, ImportedItem(old(values.entries)));
            values.entries == (old(values.entries) - {"value"})
                              ["numerator" := Str(r.numerator)]["denominator" := Str(r.denominator)]
  {
    var item := ImportedItem(values.entries);
    values.entries := values.entries - {"value"};
    var numerator, denominator;
    match mode {
      case FractionImport =>
        numerator, denominator := FractionBranch(item);
      case DecimalImport =>
        numerator, denominator := DecimalBranch(item);
    }
    values.entries := values.entries["numerator" := Str(numerator)];
    values.entries := values.entries["denominator" := Str(denominator)];
  }

  /** The 'fraction' case of the switch. */
  method FractionBranch(item: Scalar) returns (numerator: string, denominator: string)
    ensures Parts(numerator, denominator) == FractionFields(item)
  {
    var parts := if item.Str? then Explode(item.s, '/') else [];
    if |parts| >= 2 && !Empty(parts[0]) && IsNumber(parts[0]) && !Empty(parts[1]) && IsNumber(parts[1])
       && Parse(parts[1]).unscaled >= 0 {
      numerator, denominator := parts[0], parts[1];
    } else {
      numerator, denominator := "", "";
    }
  }

  /** The 'decimal' case of the switch. */
  method DecimalBranch(item: Scalar) returns (numerator: string, denominator: string)
    ensures Parts(numerator, denominator) == Transform(item)
  {
    if !IsNumeric(item) || item == Str("") {
      numerator, denominator := "", "";
    } else {
      var fraction := FractionObject.Fraction.CreateFromDecimal(AsString(item));
      numerator, denominator := IntToString(fraction.numerator), IntToString(fraction.denominator);
    }
  }

  // ---------------------------------------------------------------------
  // Lemmas
  // ---------------------------------------------------------------------

  /** Trimming a string that neither starts nor ends with whitespace
      changes nothing. */
  lemma TrimUntrimmed(s: string)
    requires s == [] || (!IsTrimmed(s[0]) && !IsTrimmed(s[|s| - 1]))
    ensures Trim(s) == s
  {
  }

  /** The branch reads the first two segments only. */
  lemma SegmentFieldsReadsTwo(p: seq<string>, q: seq<string>)
    requires |p| >= 2 && |q| >= 2 && p[0] == q[0] && p[1] == q[1]
    ensures SegmentFields(p) == SegmentFields(q)
  {
  }

  /** The segments of "a/b" followed by anything. */
  lemma ExplodeTwo(a: string, b: string, s: string, tail: seq<string>)
    requires '/' !in a && s == a + "/" + b && Explode(b, '/') == tail
    ensures Explode(s, '/') == [a] + tail
  {
    assert s == a + ['/'] + b;
    ExplodeAt(a, b, '/');
  }

  /** Only the first two segments are read: "a/b/c..." imports as "a/b". */
  lemma ExtraSegmentsIgnored(a: string, b: string, rest: string)
    requires '/' !in a && '/' !in b
    ensures FractionFields(Str(a + "/" + b + "/" + rest)) == FractionFields(Str(a + "/" + b))
  {
    ExplodeFirstTwo(a, b, rest);
    SegmentFieldsReadsTwo(Explode(a + "/" + b + "/" + rest, '/'), Explode(a + "/" + b, '/'));
  }

  /** "a/b/rest" and "a/b" start with the same two segments. */
  lemma ExplodeFirstTwo(a: string, b: string, rest: string)
    requires '/' !in a && '/' !in b
    ensures var p, q := Explode(a + "/" + b + "/" + rest, '/'), Explode(a + "/" + b, '/');
            |p| >= 2 && |q| >= 2 && p[0] == q[0] && p[1] == q[1]
  {
    var tail := b + "/" + rest;
    assert a + "/" + b + "/" + rest == a + "/" + tail;
    ExplodeTwo(b, rest, tail, Explode(rest, '/'));
    ExplodeTwo(a, tail, a + "/" + tail, [b] + Explode(rest, '/'));
    ExplodeNoSeparator(b, '/');
    ExplodeTwo(a, b, a + "/" + b, [b]);
  }

  /** The pair n/d printed with '/' imports as its parts when n is not
      zero and d is positive. */
  lemma PrintedPairImports(n: int, d: int)
    requires n != 0 && d > 0
    ensures FractionFields(Str(IntToString(n) + "/" + IntToString(d))) == Parts(IntToString(n), IntToString(d))
  {
    IntToStringHasNoSeparators(n);
    IntToStringHasNoSeparators(d);
    ExplodeNoSeparator(IntToString(d), '/');
    ExplodeTwo(IntToString(n), IntToString(d), IntToString(n) + "/" + IntToString(d), [IntToString(d)]);
    IntToStringIsNumber(n);
    IntToStringIsNumber(d);
    FieldLimits.EmptyIntString(n);
    FieldLimits.EmptyIntString(d);
    assert Pow(10, 0) == 1;
  }

  /** A printed pair has no surrounding whitespace to trim. */
  lemma PrintedPairTrimmed(n: int, d: int)
    ensures Trim(IntToString(n) + "/" + IntToString(d)) == IntToString(n) + "/" + IntToString(d)
  {
    PrintedUntrimmed(n);
    PrintedUntrimmed(d);
    var s := IntToString(n) + "/" + IntToString(d);
    assert s[0] == IntToString(n)[0];
    assert s[|s| - 1] == IntToString(d)[|IntToString(d)| - 1];
    TrimUntrimmed(s);
  }

  /** A fraction printed with '/' imports as its own parts when its
      numerator is not zero. */
  lemma FractionRoundTrip(f: FractionValue.Fraction)
    requires f.Valid() && f.numerator != 0
    ensures FractionFields(ImportedItem(map["value" := Str(f.ToString("/"))]))
            == Parts(IntToString(f.numerator), IntToString(f.denominator))
  {
    PrintedPairTrimmed(f.numerator, f.denominator);
    PrintedPairImports(f.numerator, f.denominator);
  }

  /** A zero numerator, "0" being empty() in PHP, imports as the empty
      pair. */
  lemma ZeroNumeratorRejected(d: int)
    ensures FractionFields(Str(IntToString(0) + "/" + IntToString(d))) == NoParts
  {
    IntToStringHasNoSeparators(0);
    ExplodeAt(IntToString(0), IntToString(d), '/');
    assert IntToString(0) + "/" + IntToString(d) == IntToString(0) + ['/'] + IntToString(d);
    assert IntToString(0) == "0";
  }

  /** A negative denominator imports as the empty pair. */
  lemma NegativeDenominatorRejected(n: int, d: int)
    requires d < 0
    ensures FractionFields(Str(IntToString(n) + "/" + IntToString(d))) == NoParts
  {
    IntToStringHasNoSeparators(n);
    IntToStringHasNoSeparators(d);
    ExplodeAt(IntToString(n), IntToString(d), '/');
    assert IntToString(n) + "/" + IntToString(d) == IntToString(n) + ['/'] + IntToString(d);
    ExplodeNoSeparator(IntToString(d), '/');
    IntToStringIsNumber(d);
  }

  /** The first character and the last of a printed integer are not
      whitespace. */
  lemma PrintedUntrimmed(i: int)
    ensures |IntToString(i)| > 0
    ensures !IsTrimmed(IntToString(i)[0]) && !IsTrimmed(IntToString(i)[|IntToString(i)| - 1])
  {
    IntToStringNotEmpty(i);
    var s := IntToString(i);
    assert !IsTrimmed(s[0]) by {
      IntToStringIsNumber(i);
    }
    assert IsDigit(s[|s| - 1]) by {
      NatToStringProperties(Abs(i));
      var digits := NatToString(Abs(i));
      assert s[|s| - 1] == digits[|digits| - 1];
    }
  }

  /** "1/10" imports as ('1', '10'). */
  lemma OneTenthExample()
    ensures FractionFields(ImportedItem(map["value" := Str("1/10")])) == Parts("1", "10")
  {
    FractionRoundTrip(FractionValue.Fraction(1, 10));
    OneTenthPrinted();
  }

  lemma OneTenthPrinted()
    ensures IntToString(1) == "1" && IntToString(10) == "10"
    ensures FractionValue.Fraction(1, 10).ToString("/") == "1/10"
  {
    assert NatToString(1) == "1";
    assert NatToString(10) == NatToString(1) + "0";
    assert "1" + "/" + "10" == "1/10";
  }

  /** In decimal mode a float imports as its digits over 10^k. */
  lemma DecimalImportOfFloat(x: Decimal)
    ensures Fields(DecimalImport, ImportedItem(map["value" := Float(x)]))
            == Parts(IntToString(x.unscaled), IntToString(Pow(10, x.scale)))
  {
    TransformFloat(x);
  }

  lemma FiftyFiveHundredthsPrinted()
    ensures IntToString(55) == "55" && IntToString(Pow(10, 2)) == "100"
  {
    assert Pow(10, 2) == 100;
    assert NatToString(55) == NatToString(5) + "5";
    assert NatToString(100) == NatToString(10) + "0";
  }

  /** The float 0.55 in decimal mode imports as ('55', '100'). */
  lemma DecimalExample()
    ensures Fields(DecimalImport, ImportedItem(map["value" := Float(Decimal(55, 2))])) == Parts("55", "100")
  {
    DecimalImportOfFloat(Decimal(55, 2));
    FiftyFiveHundredthsPrinted();
  }
}
