/** The PHP built-ins the fraction code leans on, on the values it passes
    them: trim, explode, str_repeat, strrchr/substr/strlen, empty() on
    strings, is_numeric, and the comparison of two strings. */
module Php {
  import opened Arith
  import opened Digits
  import opened BcMath

  /** A PHP scalar as the importers receive it. A float is given by the
      plain decimal it prints as. */
  datatype Scalar = Str(s: string) | Int(i: int) | Float(repr: Decimal) | Other

  // ---------------------------------------------------------------------
  // Strings
  // ---------------------------------------------------------------------

  /** The characters trim() removes by default. */
  predicate IsTrimmed(c: char)
  {
    c == ' ' || c == '\t' || c == '\n' || c == '\r' || c == '\0' || c as int == 11
  }

  function TrimLeft(s: string): (r: string)
    ensures |r| <= |s| && r == s[|s| - |r|..]
    ensures r == [] || !IsTrimmed(r[0])
    ensures forall i :: 0 <= i < |s| - |r| ==> IsTrimmed(s[i])
  {
    if s != [] && IsTrimmed(s[0]) then TrimLeft(s[1..]) else s
  }

  function TrimRight(s: string): (r: string)
    ensures |r| <= |s| && r == s[..|r|]
    ensures r == [] || !IsTrimmed(r[|r| - 1])
    ensures forall i :: |r| <= i < |s| ==> IsTrimmed(s[i])
  {
    if s != [] && IsTrimmed(s[|s| - 1]) then TrimRight(s[..|s| - 1]) else s
  }

  /** trim($s): strip the default whitespace set from both ends. What is
      kept is a slice of the input, and everything removed before and after
      it is whitespace. */
  function Trim(s: string): (r: string)
    ensures r == [] || (!IsTrimmed(r[0]) && !IsTrimmed(r[|r| - 1]))
    ensures exists i {:trigger s[i..]} :: 0 <= i <= |s| - |r| && r == s[i..i + |r|]
              && (forall k :: 0 <= k < i ==> IsTrimmed(s[k]))
              && (forall k :: i + |r| <= k < |s| ==> IsTrimmed(s[k]))
  {
    var l := TrimLeft(s);
    var r := TrimRight(l);
    var i := |s| - |l|;
    assert r == s[i..][..|r|];
    PrefixOfSuffix(s, i, |r|);
    assert s[i..] == l;
    assert forall k :: i + |r| <= k < |s| ==> s[k] == l[k - i];
    assert s[i..] == s[i..];
    r
  }

  /** A prefix of a suffix is a slice. */
  lemma PrefixOfSuffix(s: string, i: nat, n: nat)
    requires i + n <= |s|
    ensures s[i..][..n] == s[i..i + n]
  {
  }

  /** str_repeat($c, $n) for a one-character string. */
  function Repeat(c: char, n: nat): (r: string)
    ensures |r| == n && forall i :: 0 <= i < n ==> r[i] == c
  {
    if n == 0 then [] else [c] + Repeat(c, n - 1)
  }

  /** The position of the first `c` in s. */
  function IndexOf(s: string, c: char): (i: nat)
    requires c in s
    ensures i < |s| && s[i] == c
    ensures forall k :: 0 <= k < i ==> s[k] != c
  {
    if s[0] == c then 0 else
      var j := IndexOf(s[1..], c);
      j + 1
  }

  /** The position of the last `c` in s. */
  function LastIndexOf(s: string, c: char): (i: nat)
    requires c in s
    ensures i < |s| && s[i] == c
    ensures forall k :: i < k < |s| ==> s[k] != c
  {
    if s[|s| - 1] == c then |s| - 1 else
      assert c in s[..|s| - 1] by {
        var k :| 0 <= k < |s| && s[k] == c;
        assert s[..|s| - 1][k] == c;
      }
      LastIndexOf(s[..|s| - 1], c)
  }

  /** explode($sep, $s): the pieces between occurrences of sep. */
  function Explode(s: string, sep: char): (parts: seq<string>)
    ensures |parts| >= 1
    ensures forall k :: 0 <= k < |parts| ==> sep !in parts[k]
    decreases |s|
  {
    if sep !in s then [s]
    else
      var i := IndexOf(s, sep);
      [s[..i]] + Explode(s[i + 1..], sep)
  }

  /** implode($sep, $parts). */
  function Implode(parts: seq<string>, sep: char): string
    requires |parts| >= 1
  {
    if |parts| == 1 then parts[0] else parts[0] + [sep] + Implode(parts[1..], sep)
  }

  /** strlen(substr(strrchr($s, '.'), 1)): the number of characters after
      the last '.', or 0 when there is none. */
  function CharsAfterLastDot(s: string): (n: nat)
    ensures n < |s| || n == 0
  {
    if '.' in s then |s| - 1 - LastIndexOf(s, '.') else 0
  }

  /** empty() on a string: "" and "0" are empty. */
  predicate Empty(s: string)
  {
    s == "" || s == "0"
  }

  /** is_numeric on a scalar; strings must be plain decimal literals. */
  predicate IsNumeric(v: Scalar)
  {
    match v
    case Str(s) => IsNumber(s)
    case Int(_) => true
    case Float(_) => true
    case Other => false
  }

  /** The (string) cast of a numeric scalar. */
  function AsString(v: Scalar): (s: string)
    requires IsNumeric(v)
    ensures IsNumber(s)
  {
    match v
    case Str(s) => s
    case Int(i) =>
      IntToStringIsNumber(i);
      IntToString(i)
    case Float(x) =>
      ParseToString(x);
      x.ToString()
  }

  // ---------------------------------------------------------------------
  // Comparison
  // ---------------------------------------------------------------------

  /** The sign of a - b on exact decimals: -1, 0 or 1. */
  function CompareDecimal(a: Decimal, b: Decimal): (c: int)
    ensures -1 <= c <= 1
  {
    var s := if a.scale >= b.scale then a.scale else b.scale;
    var x, y := a.At(s), b.At(s);
    if x < y then -1 else if x == y then 0 else 1
  }

  /** strcmp's sign: byte-wise lexicographic order. */
  function LexCompare(a: string, b: string): (c: int)
    ensures -1 <= c <= 1
  {
    if a == [] && b == [] then 0
    else if a == [] then -1
    else if b == [] then 1
    else if a[0] < b[0] then -1
    else if a[0] > b[0] then 1
    else LexCompare(a[1..], b[1..])
  }

  /** PHP 8's comparison of two strings: numerically when both are
      numeric, byte-wise otherwise. */
  function StringCompare(a: string, b: string): (c: int)
    ensures -1 <= c <= 1
  {
    if IsNumber(a) && IsNumber(b) then CompareDecimal(Parse(a), Parse(b)) else LexCompare(a, b)
  }

  // ---------------------------------------------------------------------
  // Lemmas
  // ---------------------------------------------------------------------

  /** An integer prints as a number string that parses back to itself. */
  lemma IntToStringIsNumber(i: int)
    ensures IsNumber(IntToString(i))
    ensures Parse(IntToString(i)) == Decimal(i, 0)
  {
    var x := Decimal(i, 0);
    assert Pow(10, 0) == 1;
    assert x.ToString() == IntToString(i);
    ParseToString(x);
  }

  /** Comparing two exact decimals orders their values: the result is the
      sign of a - b, whatever scale each is written at. */
  lemma CompareDecimalValues(a: Decimal, b: Decimal, s: nat)
    requires a.scale <= s && b.scale <= s
    ensures CompareDecimal(a, b) == (if a.At(s) < b.At(s) then -1 else if a.At(s) == b.At(s) then 0 else 1)
  {
    var m := if a.scale >= b.scale then a.scale else b.scale;
    AtWiden(a, m, s);
    AtWiden(b, m, s);
    var k := Pow(10, s - m);
    assert k > 0;
    var x, y := a.At(m), b.At(m);
    if x < y {
      ScaleStrict(x, y, k);
    } else if y < x {
      ScaleStrict(y, x, k);
    }
  }

  lemma ScaleStrict(x: int, y: int, k: int)
    requires x < y && k > 0
    ensures x * k < y * k
  {
    assert y * k - x * k == (y - x) * k;
    MulPositive(y - x, k);
  }

  /** The decimal parts of a number are what follows its last '.'. */
  lemma CharsAfterLastDotOfNumber(s: string)
    requires IsNumber(s)
    ensures CharsAfterLastDot(s) == |FractionDigits(s)|
  {
    var body := Unsigned(s);
    var ip := BeforeDot(body);
    var off := |s| - |body|;
    assert s[off..] == body;
    if |ip| < |body| {
      var frac := body[|ip| + 1..];
      var dot := off + |ip|;
      assert s[dot] == '.';
      assert forall k :: dot < k < |s| ==> s[k] == frac[k - dot - 1];
      assert forall k :: dot < k < |s| ==> s[k] != '.';
      var last := LastIndexOf(s, '.');
      assert last == dot;
    } else {
      assert body == ip;
      forall k | 0 <= k < |s|
        ensures s[k] != '.'
      {
        if k >= off {
          assert s[k] == body[k - off];
        }
      }
    }
  }

  /** Splitting a string that contains no separator before a given one. */
  lemma ExplodeAt(a: string, b: string, sep: char)
    requires sep !in a
    ensures Explode(a + [sep] + b, sep) == [a] + Explode(b, sep)
  {
    var s := a + [sep] + b;
    assert s[|a|] == sep;
    assert forall k :: 0 <= k < |a| ==> s[k] == a[k];
    var i := IndexOf(s, sep);
    assert i == |a|;
    assert s[..i] == a;
    assert s[i + 1..] == b;
  }

  /** implode undoes explode. */
  lemma {:induction false} ImplodeExplode(s: string, sep: char)
    ensures Implode(Explode(s, sep), sep) == s
    decreases |s|
  {
    if sep in s {
      var i := IndexOf(s, sep);
      ImplodeExplode(s[i + 1..], sep);
      var rest := Explode(s[i + 1..], sep);
      assert Explode(s, sep) == [s[..i]] + rest;
      assert ([s[..i]] + rest)[1..] == rest;
      assert s == s[..i] + [sep] + s[i + 1..];
    }
  }

  /** explode on a string with no separator returns it whole. */
  lemma ExplodeNoSeparator(s: string, sep: char)
    requires sep !in s
    ensures Explode(s, sep) == [s]
  {
  }

  /** A printed integer contains no '/' and no '.'. */
  lemma IntToStringHasNoSeparators(i: int)
    ensures '/' !in IntToString(i) && '.' !in IntToString(i)
  {
    var s := IntToString(i);
    NatToStringProperties(Abs(i));
    var d := NatToString(Abs(i));
    forall k | 0 <= k < |s|
      ensures s[k] != '/' && s[k] != '.'
    {
      if i < 0 && k > 0 {
        assert s[k] == d[k - 1];
      } else if i >= 0 {
        assert s[k] == d[k];
      }
    }
  }
}
