/** The mathematical meaning of the bcmath calls the fraction code makes.
    A bcmath number is a decimal with a fixed number of fractional digits;
    every operation computes the exact result and then truncates it (toward
    zero) to the requested scale. */
module BcMath {
  import opened Arith
  import opened Digits

  /** unscaled / 10^scale, printed with exactly `scale` fractional digits. */
  datatype Decimal = Decimal(unscaled: int, scale: nat) {

    /** bcmath's output format: an optional '-', the integer part without
        leading zeros, then '.' and exactly `scale` digits when scale > 0. */
    function ToString(): string
    {
      (if unscaled < 0 then "-" else "")
      + IntegerText(this)
      + (if scale == 0 then "" else "." + FractionText(this))
    }

    /** The value expressed at a larger scale, as an integer count of 10^-s. */
    function At(s: nat): int
      requires scale <= s
    {
      unscaled * Pow(10, s - scale)
    }
  }

  // ---------------------------------------------------------------------
  // Number strings
  // ---------------------------------------------------------------------

  /** The string without its leading sign. */
  function Unsigned(s: string): string
  {
    if |s| > 0 && (s[0] == '-' || s[0] == '+') then s[1..] else s
  }

  /** The characters before the first '.'. */
  function BeforeDot(s: string): (r: string)
    ensures |r| <= |s| && r == s[..|r|]
    ensures |r| < |s| ==> s[|r|] == '.'
    ensures '.' !in r
  {
    if s == [] || s[0] == '.' then [] else [s[0]] + BeforeDot(s[1..])
  }

  function IntegerDigits(s: string): string
  {
    BeforeDot(Unsigned(s))
  }

  function FractionDigits(s: string): string
  {
    var body := Unsigned(s);
    var ip := BeforeDot(body);
    if |ip| < |body| then body[|ip| + 1..] else []
  }

  /** A plain decimal literal: optional sign, digits, optionally '.' and
      digits, with at least one digit in all. */
  predicate IsNumber(s: string)
  {
    && AllDigits(IntegerDigits(s))
    && AllDigits(FractionDigits(s))
    && |IntegerDigits(s)| + |FractionDigits(s)| > 0
  }

  /** The value a number string denotes, with one unit of scale per
      fractional digit written. */
  function Parse(s: string): (x: Decimal)
    requires IsNumber(s)
    ensures x.scale == |FractionDigits(s)|
  {
    DigitsValueAppend(IntegerDigits(s), FractionDigits(s));
    var m: int := DigitsValue(IntegerDigits(s) + FractionDigits(s));
    Decimal(if |s| > 0 && s[0] == '-' then -m else m, |FractionDigits(s)|)
  }

  // ---------------------------------------------------------------------
  // Arithmetic at a scale
  // ---------------------------------------------------------------------

  /** Rescale to `scale` digits: exact when widening, truncating toward
      zero when narrowing. */
  function Truncate(x: Decimal, scale: nat): (r: Decimal)
    ensures r.scale == scale
  {
    if scale >= x.scale then Decimal(x.At(scale), scale)
    else Decimal(TruncDiv(x.unscaled, Pow(10, x.scale - scale)), scale)
  }

  function Negate(x: Decimal): Decimal
  {
    Decimal(-x.unscaled, x.scale)
  }

  /** The exact sum, at the larger of the two scales. */
  function Sum(a: Decimal, b: Decimal): (r: Decimal)
  {
    var s := if a.scale >= b.scale then a.scale else b.scale;
    Decimal(a.At(s) + b.At(s), s)
  }

  /** bcadd(a, b, scale). */
  function BcAdd(a: Decimal, b: Decimal, scale: nat): Decimal
  {
    Truncate(Sum(a, b), scale)
  }

  /** bcsub(a, b, scale). */
  function BcSub(a: Decimal, b: Decimal, scale: nat): Decimal
  {
    Truncate(Sum(a, Negate(b)), scale)
  }

  /** bcmul(a, b, scale). */
  function BcMul(a: Decimal, b: Decimal, scale: nat): Decimal
  {
    Truncate(Decimal(a.unscaled * b.unscaled, a.scale + b.scale), scale)
  }

  /** bcdiv(n, d, scale) on integer operands; the code divides only by a
      positive denominator or a positive gcd. */
  function BcDiv(n: int, d: int, scale: nat): (r: Decimal)
    requires d > 0
    ensures r.scale == scale
  {
    Decimal(TruncDiv(n * Pow(10, scale), d), scale)
  }

  /** bcmod(a, b): the remainder, whose sign follows the dividend. */
  function BcMod(a: int, b: int): (r: int)
    requires b > 0
  {
    a - b * TruncDiv(a, b)
  }

  // ---------------------------------------------------------------------
  // Lemmas
  // ---------------------------------------------------------------------

  /** On a non-negative dividend bcmod is the ordinary remainder. */
  lemma BcModNonNegative(a: nat, b: int)
    requires b > 0
    ensures BcMod(a, b) == a % b
  {
  }

  lemma {:induction false} BeforeDotAppend(a: string, b: string)
    requires AllDigits(a)
    ensures BeforeDot(a + b) == a + BeforeDot(b)
    decreases |a|
  {
    if a != [] {
      calc {
        BeforeDot(a + b);
        { assert (a + b)[0] == a[0] && IsDigit(a[0]); }
        [a[0]] + BeforeDot((a + b)[1..]);
        { assert (a + b)[1..] == a[1..] + b; }
        [a[0]] + BeforeDot(a[1..] + b);
        { BeforeDotAppend(a[1..], b); }
        [a[0]] + (a[1..] + BeforeDot(b));
        { assert [a[0]] + a[1..] == a; }
        a + BeforeDot(b);
      }
    } else {
      assert a + b == b;
    }
  }

  /** The digits of |x| before the decimal point, as printed. */
  function IntegerText(x: Decimal): string
  {
    NatToString(Quotient(Abs(x.unscaled), Pow(10, x.scale)))
  }

  /** The digits of |x| after the decimal point, as printed. */
  function FractionText(x: Decimal): string
  {
    if x.scale == 0 then "" else PadDigits(Abs(x.unscaled) % Pow(10, x.scale), x.scale)
  }

  lemma UnsignedToString(x: Decimal)
    ensures var ip := IntegerText(x);
            && Unsigned(x.ToString()) == ip + (if x.scale == 0 then "" else "." + FractionText(x))
            && (x.ToString()[0] == '-' <==> x.unscaled < 0)
  {
    var ip := IntegerText(x);
    var tail := if x.scale == 0 then "" else "." + FractionText(x);
    var s := x.ToString();
    IntegerTextProperties(x);
    assert ip[0] != '-' && ip[0] != '+';
    if x.unscaled < 0 {
      assert s == "-" + (ip + tail);
      assert s[1..] == ip + tail;
    } else {
      assert s == ip + tail;
      assert s[0] == ip[0];
    }
  }

  lemma DigitsOfToString(x: Decimal)
    ensures IntegerDigits(x.ToString()) == IntegerText(x)
    ensures FractionDigits(x.ToString()) == FractionText(x)
  {
    var ip := IntegerText(x);
    var tail := if x.scale == 0 then "" else "." + FractionText(x);
    var body := Unsigned(x.ToString());
    UnsignedToString(x);
    assert body == ip + tail;
    IntegerTextProperties(x);
    SplitAtDot(ip, tail, FractionText(x), x.scale == 0);
    assert BeforeDot(body) == ip;
    assert FractionDigits(x.ToString()) == (if |ip| < |body| then body[|ip| + 1..] else []);
  }

  /** A dot-free integer part followed by an optional "." and a fraction
      splits back into the two. */
  lemma SplitAtDot(ip: string, tail: string, frac: string, whole: bool)
    requires AllDigits(ip)
    requires tail == (if whole then "" else "." + frac)
    ensures BeforeDot(ip + tail) == ip
    ensures var body := ip + tail;
            (if |ip| < |body| then body[|ip| + 1..] else []) == (if whole then [] else frac)
  {
    BeforeDotAppend(ip, tail);
    assert BeforeDot(tail) == [];
    if !whole {
      assert (ip + tail)[|ip| + 1..] == frac;
    }
  }

  /** Printing a number and reading it back gives the same number: the
      rendering is a number string with one fractional digit per unit of
      scale. */
  lemma ParseToString(x: Decimal)
    ensures IsNumber(x.ToString())
    ensures Parse(x.ToString()) == x
    ensures |FractionDigits(x.ToString())| == x.scale
  {
    var s := x.ToString();
    var ip := IntegerText(x);
    DigitsOfToString(x);
    UnsignedToString(x);
    IntegerTextProperties(x);
    FractionTextProperties(x);
    PrintedMagnitude(x);
    ParseOf(s, ip, FractionText(x), x.unscaled < 0);
  }

  /** The digits of a printed number spell its magnitude. */
  lemma PrintedMagnitude(x: Decimal)
    ensures AllDigits(IntegerText(x) + FractionText(x))
    ensures DigitsValue(IntegerText(x) + FractionText(x)) == Abs(x.unscaled)
  {
    FractionTextProperties(x);
    SplitDigits(Abs(x.unscaled), x.scale, FractionText(x));
  }

  /** Integer digits of m / 10^k followed by k digits of m % 10^k spell m. */
  lemma SplitDigits(m: nat, k: nat, frac: string)
    requires AllDigits(frac) && |frac| == k && DigitsValue(frac) == m % Pow(10, k)
    ensures AllDigits(NatToString(m / Pow(10, k)) + frac)
    ensures DigitsValue(NatToString(m / Pow(10, k)) + frac) == m
  {
    var p := Pow(10, k);
    var ip := NatToString(m / p);
    NatToStringProperties(m / p);
    DigitsValueAppend(ip, frac);
    assert DigitsValue(ip + frac) == (m / p) * p + m % p;
    QuotientTimesDivisor(m, p);
  }

  /** A non-negative number below one prints as "0." and its digits. */
  lemma BelowOnePrinted(u: nat, k: nat)
    requires k > 0 && u < Pow(10, k)
    ensures Decimal(u, k).ToString() == "0." + PadDigits(u, k)
  {
    DivModUnique(u, Pow(10, k), 0, u);
    assert IntegerText(Decimal(u, k)) == "0";
    assert FractionText(Decimal(u, k)) == PadDigits(u, k);
  }

  /** The integer part prints as its digits, without a sign. */
  lemma IntegerTextProperties(x: Decimal)
    ensures AllDigits(IntegerText(x)) && |IntegerText(x)| >= 1
    ensures DigitsValue(IntegerText(x)) == Abs(x.unscaled) / Pow(10, x.scale)
  {
    NatToStringProperties(Quotient(Abs(x.unscaled), Pow(10, x.scale)));
  }

  lemma QuotientTimesDivisor(m: nat, p: nat)
    requires p > 0
    ensures (m / p) * p + m % p == m
  {
  }

  lemma ParseOf(s: string, ip: string, frac: string, negative: bool)
    requires IntegerDigits(s) == ip && FractionDigits(s) == frac
    requires AllDigits(ip) && AllDigits(frac) && |ip| > 0
    requires (|s| > 0 && s[0] == '-') <==> negative
    ensures IsNumber(s)
    ensures AllDigits(ip + frac)
    ensures Parse(s) == Decimal(if negative then -(DigitsValue(ip + frac) as int) else DigitsValue(ip + frac), |frac|)
  {
    DigitsValueAppend(ip, frac);
  }

  lemma FractionTextProperties(x: Decimal)
    ensures AllDigits(FractionText(x)) && |FractionText(x)| == x.scale
    ensures DigitsValue(FractionText(x)) == Abs(x.unscaled) % Pow(10, x.scale)
  {
    var p := Pow(10, x.scale);
    var r := Abs(x.unscaled) % p;
    if x.scale == 0 {
      assert FractionText(x) == [];
      assert p == 1;
    } else {
      PadDigitsProperties(r, x.scale);
      DivModUnique(r, p, 0, r);
    }
  }

  /** The first character of a printed number is '-' exactly when it is
      negative. */
  lemma ToStringSign(x: Decimal)
    ensures |x.ToString()| > 0
    ensures x.ToString()[0] == '-' <==> x.unscaled < 0
    ensures x.ToString()[0] != '-' ==> IsDigit(x.ToString()[0])
  {
    IntegerTextProperties(x);
    var s := x.ToString();
    if x.unscaled >= 0 {
      assert s[0] == IntegerText(x)[0];
    }
  }

  /** Widening the scale keeps the value: the integer count scales by
      10^(s2 - s1). */
  lemma AtWiden(x: Decimal, s1: nat, s2: nat)
    requires x.scale <= s1 <= s2
    ensures x.At(s2) == x.At(s1) * Pow(10, s2 - s1)
  {
    PowAdd(10, s1 - x.scale, s2 - s1);
    assert s2 - x.scale == (s1 - x.scale) + (s2 - s1);
  }

  /** The difference of two numbers no wider than `scale`, taken at
      `scale`, is exact. */
  lemma BcSubExact(a: Decimal, b: Decimal, scale: nat)
    requires a.scale <= scale && b.scale <= scale
    ensures BcSub(a, b, scale) == Decimal(a.At(scale) - b.At(scale), scale)
  {
    var s := if a.scale >= b.scale then a.scale else b.scale;
    AtWiden(a, s, scale);
    AtWiden(b, s, scale);
    var d := Sum(a, Negate(b));
    assert d == Decimal(a.At(s) - b.At(s), s);
    assert (a.At(s) - b.At(s)) * Pow(10, scale - s) == a.At(scale) - b.At(scale);
  }
}
