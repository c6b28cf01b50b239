/**
 * The few pieces of java.lang.String behaviour the core relies on:
 * decimal rendering of integers, isBlank and startsWith.
 */
module JavaText {

  function Pow10(k: nat): (p: nat)
    ensures p >= 1
  {
    if k == 0 then 1 else 10 * Pow10(k - 1)
  }

  /** The ASCII character for a decimal digit. */
  function DigitChar(d: nat): (c: char)
    requires d < 10
    ensures '0' <= c <= '9'
  {
    "0123456789"[d]
  }

  predicate IsDigit(c: char) {
    '0' <= c <= '9'
  }

  /** The decimal digits of a natural number, most significant first, no leading zero. */
  function Digits(n: nat): (s: string)
    ensures |s| >= 1
    decreases n
  {
    if n < 10 then [DigitChar(n)] else Digits(n / 10) + [DigitChar(n % 10)]
  }

  /** Integer.toString / Long.toString / String.valueOf on an integer. */
  function DecimalString(n: int): (s: string)
    ensures |s| >= 1
  {
    if n < 0 then "-" + Digits(-n) else Digits(n)
  }

  /** The number a string of decimal digits denotes (its inverse on digit strings). */
  function DigitsValue(s: string): nat
    decreases |s|
  {
    if s == [] then 0
    else
      var c := s[|s| - 1];
      DigitsValue(s[..|s| - 1]) * 10 + (if IsDigit(c) then (c as int) - ('0' as int) else 0)
  }

  lemma DigitCharValue(d: nat)
    requires d < 10
    ensures (DigitChar(d) as int) - ('0' as int) == d
  {
  }

  /** Digits renders only decimal digits. */
  lemma {:induction false} DigitsAreDigits(n: nat)
    ensures forall i :: 0 <= i < |Digits(n)| ==> IsDigit(Digits(n)[i])
    decreases n
  {
    if n >= 10 {
      DigitsAreDigits(n / 10);
    }
  }

  /** Reading back the digits of n gives n. */
  lemma {:induction false} DigitsRoundTrip(n: nat)
    ensures DigitsValue(Digits(n)) == n
    decreases n
  {
    if n < 10 {
      DigitCharValue(n);
      assert Digits(n)[..0] == [];
    } else {
      var s := Digits(n);
      assert s[..|s| - 1] == Digits(n / 10);
      DigitsRoundTrip(n / 10);
      DigitCharValue(n % 10);
    }
  }

  /** The first digit of a positive number is never '0'. */
  lemma {:induction false} DigitsNoLeadingZero(n: nat)
    requires n > 0
    ensures Digits(n)[0] != '0'
    decreases n
  {
    if n >= 10 {
      DigitsNoLeadingZero(n / 10);
    } else {
      DigitCharValue(n);
    }
  }

  /**
   * No integer renders as a string of two or more characters that starts
   * with '0': such a string is never String.valueOf of any int.
   */
  lemma LeadingZeroNeverRendered(s: string, n: int)
    requires |s| >= 2 && s[0] == '0'
    ensures DecimalString(n) != s
  {
    if n > 0 {
      DigitsNoLeadingZero(n);
    } else if n == 0 {
      assert |DecimalString(n)| == 1;
    }
  }

  /** A rendering starts with '-' exactly when the number is negative. */
  lemma SignOfRendering(n: int)
    ensures DecimalString(n)[0] == '-' <==> n < 0
  {
    if n >= 0 {
      DigitsAreDigits(n);
      assert IsDigit(Digits(n)[0]);
    }
  }

  /** What follows the sign (if any) is the digits of the magnitude. */
  lemma MagnitudeOfRendering(n: int)
    ensures DigitsValue(if n < 0 then DecimalString(n)[1..] else DecimalString(n)) == if n < 0 then -n else n
  {
    if n < 0 {
      assert DecimalString(n)[1..] == Digits(-n);
      DigitsRoundTrip(-n);
    } else {
      DigitsRoundTrip(n);
    }
  }

  /** Decimal rendering is injective: different integers render differently. */
  lemma DecimalStringInjective(m: int, n: int)
    requires DecimalString(m) == DecimalString(n)
    ensures m == n
  {
    SignOfRendering(m);
    SignOfRendering(n);
    MagnitudeOfRendering(m);
    MagnitudeOfRendering(n);
  }

  /** Character.isWhitespace: Unicode space, line and paragraph separators other
      than the non-breaking ones, and the ASCII/C0 control separators. */
  predicate IsWhitespace(c: char) {
    || c == ' ' || c == '\t' || c == '\n' || c == '\r'
    || c == '\U{000B}' || c == '\U{000C}'
    || ('\U{001C}' <= c <= '\U{001F}')
    || c == '\U{1680}'
    || ('\U{2000}' <= c <= '\U{2006}') || ('\U{2008}' <= c <= '\U{200A}')
    || c == '\U{2028}' || c == '\U{2029}' || c == '\U{205F}' || c == '\U{3000}'
  }

  /** String.isBlank: empty or whitespace only. */
  predicate IsBlank(s: string) {
    forall i :: 0 <= i < |s| ==> IsWhitespace(s[i])
  }

  /** Integer.toString never yields a blank string: it starts with '-' or a digit. */
  lemma DecimalStringNotBlank(n: int)
    ensures !IsBlank(DecimalString(n))
  {
    var s := DecimalString(n);
    DigitsAreDigits(if n < 0 then -n else n);
    assert s[0] == '-' || IsDigit(s[0]);
    assert !IsWhitespace(s[0]);
  }

  /** String.startsWith (case-sensitive, exact characters). */
  predicate StartsWith(s: string, prefix: string) {
    |prefix| <= |s| && s[..|prefix|] == prefix
  }
}
