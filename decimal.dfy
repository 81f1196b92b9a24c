/** Decimal text of integers, as java.lang.Integer.parseInt reads it and
    String.valueOf(int) writes it, restricted to the ASCII digits '0'..'9'
    and without the 32-bit bound. */
module Decimal {

  predicate IsDigit(c: char) {
    '0' <= c <= '9'
  }

  predicate AllDigits(s: string) {
    forall i :: 0 <= i < |s| ==> IsDigit(s[i])
  }

  /** No character of `s` is a digit. */
  predicate NoDigits(s: string) {
    forall i :: 0 <= i < |s| ==> !IsDigit(s[i])
  }

  function DigitValue(c: char): (d: nat)
    requires IsDigit(c)
    ensures d < 10
  {
    c as int - '0' as int
  }

  function DigitChar(d: nat): (c: char)
    requires d < 10
    ensures IsDigit(c) && DigitValue(c) == d
  {
    (d + '0' as int) as char
  }

  /** The value of a run of decimal digits, most significant first; leading
      zeros contribute nothing. */
  function DigitsValue(s: string): nat
    requires AllDigits(s)
    decreases |s|
  {
    if s == [] then 0 else 10 * DigitsValue(s[..|s| - 1]) + DigitValue(s[|s| - 1])
  }

  /** The form String.valueOf gives a non-negative int: at least one digit,
      and a leading '0' only in "0" itself. */
  predicate Canonical(s: string) {
    |s| > 0 && AllDigits(s) && (s[0] == '0' ==> |s| == 1)
  }

  /** Decimal text of a natural number. */
  function NatToDigits(n: nat): string
    decreases n
  {
    if n < 10 then [DigitChar(n)] else NatToDigits(n / 10) + [DigitChar(n % 10)]
  }

  /** NatToDigits writes canonical text that reads back as the number. */
  lemma {:induction false} NatToDigitsCanonical(n: nat)
    ensures Canonical(NatToDigits(n))
    ensures DigitsValue(NatToDigits(n)) == n
    decreases n
  {
    if n >= 10 {
      NatToDigitsCanonical(n / 10);
      var r := NatToDigits(n);
      assert r[..|r| - 1] == NatToDigits(n / 10);
    }
  }

  /** Decimal text of an integer: a '-' before the digits of a negative one. */
  function IntToString(i: int): string {
    if i < 0 then "-" + NatToDigits(-i) else NatToDigits(i)
  }

  /** The form String.valueOf(int) produces: an optional '-' before canonical
      digits, and never "-0". */
  predicate CanonicalInt(s: string) {
    Canonical(s) || (|s| > 1 && s[0] == '-' && Canonical(s[1..]) && s[1] != '0')
  }

  /** The value Integer.parseInt reads from text of the form CanonicalInt. */
  function ParseInt(s: string): int
    requires CanonicalInt(s)
  {
    if Canonical(s) then DigitsValue(s) else 0 - DigitsValue(s[1..]) as int
  }

  /** Writing an integer and reading it back gives the integer. */
  lemma IntToStringRoundTrip(i: int)
    ensures CanonicalInt(IntToString(i))
    ensures ParseInt(IntToString(i)) == i
  {
    NatToDigitsCanonical(if i < 0 then -i else i);
    if i < 0 {
      var d := NatToDigits(-i);
      assert IntToString(i)[1..] == d;
      assert !Canonical(IntToString(i));
    }
  }

  /** A digit run that does not start with '0' denotes a positive number. */
  lemma {:induction false} LeadingNonZero(s: string)
    requires |s| > 0 && AllDigits(s) && s[0] != '0'
    ensures DigitsValue(s) >= 1
    decreases |s|
  {
    if |s| > 1 {
      LeadingNonZero(s[..|s| - 1]);
    }
  }

  /** Reading canonical text and writing the value again gives the text back. */
  lemma {:induction false} CanonicalRoundTrip(s: string)
    requires Canonical(s)
    ensures NatToDigits(DigitsValue(s)) == s
    decreases |s|
  {
    var last := s[|s| - 1];
    if |s| == 1 {
      assert DigitsValue(s) == 10 * DigitsValue([]) + DigitValue(last);
      assert s == [DigitChar(DigitValue(last))];
    } else {
      var prefix := s[..|s| - 1];
      assert prefix[0] == s[0] != '0';
      LeadingNonZero(prefix);
      CanonicalRoundTrip(prefix);
      var n := DigitsValue(s);
      assert n == 10 * DigitsValue(prefix) + DigitValue(last);
      assert n / 10 == DigitsValue(prefix) && n % 10 == DigitValue(last);
      assert s == prefix + [last];
    }
  }

  /** Two canonical texts are equal exactly when their values are. */
  lemma CanonicalInjective(s: string, t: string)
    requires Canonical(s) && Canonical(t)
    ensures s == t <==> DigitsValue(s) == DigitsValue(t)
  {
    if DigitsValue(s) == DigitsValue(t) {
      CanonicalRoundTrip(s);
      CanonicalRoundTrip(t);
    }
  }
}
