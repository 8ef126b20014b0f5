/** Decimal digit strings: the textual form in which the fraction module
    stores and prints its arbitrary-size integers. */
module Digits {
  import opened Arith

  predicate IsDigit(c: char)
  {
    '0' <= c <= '9'
  }

  function DigitValue(c: char): nat
    requires IsDigit(c)
  {
    (c as int) - ('0' as int)
  }

  function DigitChar(v: nat): (c: char)
    requires v < 10
    ensures IsDigit(c) && DigitValue(c) == v
  {
    (('0' as int) + v) as char
  }

  predicate AllDigits(s: string)
  {
    forall i :: 0 <= i < |s| ==> IsDigit(s[i])
  }

  /** The number a string of digits denotes (leading zeros allowed). */
  function DigitsValue(s: string): nat
    requires AllDigits(s)
    decreases |s|
  {
    if s == [] then 0 else DigitsValue(s[..|s| - 1]) * 10 + DigitValue(s[|s| - 1])
  }

  /** The shortest digit string of a natural number ("0" for zero). */
  function NatToString(n: nat): string
    decreases n
  {
    if n < 10 then [DigitChar(n)] else NatToString(n / 10) + [DigitChar(n % 10)]
  }

  /** Exactly `width` digits: the low-order digits of n, zero-padded. */
  function PadDigits(n: nat, width: nat): string
    decreases width
  {
    if width == 0 then [] else PadDigits(n / 10, width - 1) + [DigitChar(n % 10)]
  }

  /** PHP's (string) cast of an integer. */
  function IntToString(n: int): string
  {
    if n < 0 then "-" + NatToString(-n) else NatToString(n)
  }

  lemma {:induction false} DigitsValueAppend(a: string, b: string)
    requires AllDigits(a) && AllDigits(b)
    ensures AllDigits(a + b)
    ensures DigitsValue(a + b) == DigitsValue(a) * Pow(10, |b|) + DigitsValue(b)
    decreases |b|
  {
    var ab := a + b;
    assert AllDigits(ab) by {
      forall i | 0 <= i < |ab| ensures IsDigit(ab[i]) {
        if i < |a| { assert ab[i] == a[i]; } else { assert ab[i] == b[i - |a|]; }
      }
    }
    if b == [] {
      assert ab == a;
    } else {
      var b' := b[..|b| - 1];
      assert ab[..|ab| - 1] == a + b';
      assert ab[|ab| - 1] == b[|b| - 1];
      DigitsValueAppend(a, b');
      assert DigitsValue(ab) == DigitsValue(a + b') * 10 + DigitValue(b[|b| - 1]);
      assert DigitsValue(b) == DigitsValue(b') * 10 + DigitValue(b[|b| - 1]);
      assert Pow(10, |b|) == 10 * Pow(10, |b'|);
      ShiftDigit(DigitsValue(a), DigitsValue(b'), DigitValue(b[|b| - 1]), Pow(10, |b'|), Pow(10, |b|));
    }
  }

  /** Appending one digit to a split number: (x p + y) 10 + c = x (10 p) + (10 y + c). */
  lemma ShiftDigit(x: int, y: int, c: int, p: int, q: int)
    requires q == 10 * p
    ensures (x * p + y) * 10 + c == x * q + (y * 10 + c)
  {
  }

  lemma {:induction false} NatToStringProperties(n: nat)
    ensures AllDigits(NatToString(n))
    ensures |NatToString(n)| >= 1
    ensures DigitsValue(NatToString(n)) == n
    ensures n > 0 ==> NatToString(n)[0] != '0'
    ensures n == 0 ==> NatToString(n) == "0"
    decreases n
  {
    if n >= 10 {
      NatToStringProperties(n / 10);
      var s := NatToString(n / 10);
      var c := [DigitChar(n % 10)];
      DigitsValueAppend(s, c);
      assert DigitsValue(c) == n % 10 by {
        assert c[..0] == [];
      }
      assert NatToString(n) == s + c;
    } else {
      var s := NatToString(n);
      assert s[..0] == [];
    }
  }

  lemma {:induction false} PadDigitsProperties(n: nat, width: nat)
    ensures |PadDigits(n, width)| == width
    ensures Pow(10, width) > 0
    ensures AllDigits(PadDigits(n, width))
    ensures DigitsValue(PadDigits(n, width)) == n % Pow(10, width)
    decreases width
  {
    if width > 0 {
      PadDigitsProperties(n / 10, width - 1);
      var s := PadDigits(n / 10, width - 1);
      var c := [DigitChar(n % 10)];
      DigitsValueAppend(s, c);
      assert DigitsValue(c) == n % 10 by {
        assert c[..0] == [];
      }
      assert PadDigits(n, width) == s + c;
      ModOfTenMultiple(n, Pow(10, width - 1));
    }
  }

  /** (n / 10 mod m) * 10 + n mod 10 == n mod 10m. */
  lemma ModOfTenMultiple(n: nat, m: nat)
    requires m > 0
    ensures (n / 10) % m * 10 + n % 10 == n % (10 * m)
  {
    var q := n / 10;
    var q1, r1 := q / m, q % m;
    assert n == 10 * q + n % 10;
    assert q == m * q1 + r1;
    assert n == (10 * m) * q1 + (r1 * 10 + n % 10);
    DivModUnique(n, 10 * m, q1, r1 * 10 + n % 10);
  }

  /** 10^k prints as a one followed by k zeros. */
  lemma {:induction false} NatToStringOfPow10(k: nat)
    ensures NatToString(Pow(10, k)) == "1" + PadDigits(0, k)
    ensures |NatToString(Pow(10, k))| == k + 1
    decreases k
  {
    if k > 0 {
      NatToStringOfPow10(k - 1);
      var p := Pow(10, k);
      assert p == 10 * Pow(10, k - 1);
      assert p / 10 == Pow(10, k - 1) && p % 10 == 0 by {
        MulMod(10, Pow(10, k - 1));
      }
      assert p >= 10;
      assert PadDigits(0, k) == PadDigits(0, k - 1) + "0";
      PadDigitsProperties(0, k);
    }
  }

  lemma IntToStringNotEmpty(n: int)
    ensures |IntToString(n)| >= 1
    ensures IntToString(n)[0] == '-' <==> n < 0
  {
    NatToStringProperties(Abs(n));
  }
}
