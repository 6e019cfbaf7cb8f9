/**
 * Decimal digit strings: the text of a non-negative integer (Number::toString
 * for integral values) and the canonical numeric strings that JavaScript treats
 * as array indices when it orders an object's own property keys.
 */
module Decimal {

  predicate IsDigit(c: char) {
    '0' <= c <= '9'
  }

  function DigitValue(c: char): (d: nat)
    requires IsDigit(c)
    ensures d < 10
  {
    (c as int) - ('0' as int)
  }

  function DigitChar(d: nat): (c: char)
    requires d < 10
    ensures IsDigit(c) && DigitValue(c) == d
  {
    (('0' as int) + d) as char
  }

  predicate AllDigits(s: string) {
    forall i :: 0 <= i < |s| ==> IsDigit(s[i])
  }

  /** The value of a string of decimal digits, most significant digit first. */
  function DigitsValue(s: string): nat
    requires AllDigits(s)
  {
    if s == [] then 0 else DigitsValue(s[..|s| - 1]) * 10 + DigitValue(s[|s| - 1])
  }

  /** Digits without a superfluous leading zero: the form ToString produces. */
  predicate Canonical(s: string) {
    |s| >= 1 && AllDigits(s) && (s[0] == '0' ==> |s| == 1)
  }

  /** The decimal text of `n`, as `${n}` renders a non-negative integer. */
  function NatToString(n: nat): (s: string)
    ensures Canonical(s)
    ensures |s| == 1 <==> n < 10
  {
    if n < 10 then [DigitChar(n)] else NatToString(n / 10) + [DigitChar(n % 10)]
  }

  lemma {:induction false} ValueOfNatToString(n: nat)
    ensures DigitsValue(NatToString(n)) == n
  {
    if n >= 10 {
      var s := NatToString(n);
      assert s[..|s| - 1] == NatToString(n / 10);
      ValueOfNatToString(n / 10);
    }
  }

  lemma {:induction false} LeadingDigitPositive(s: string)
    requires |s| >= 1 && AllDigits(s) && s[0] != '0'
    ensures DigitsValue(s) >= 1
  {
    if |s| > 1 {
      var p := s[..|s| - 1];
      assert p[0] == s[0];
      LeadingDigitPositive(p);
    }
  }

  /** A canonical digit string is the text of its own value. */
  lemma {:induction false} NatToStringOfValue(s: string)
    requires Canonical(s)
    ensures NatToString(DigitsValue(s)) == s
  {
    var n := DigitsValue(s);
    if |s| > 1 {
      var p := s[..|s| - 1];
      assert p[0] == s[0];
      LeadingDigitPositive(p);
      assert Canonical(p);
      NatToStringOfValue(p);
      assert n / 10 == DigitsValue(p) && n % 10 == DigitValue(s[|s| - 1]);
      assert NatToString(n) == p + [s[|s| - 1]];
    }
  }

  /** Distinct numbers have distinct texts. */
  lemma NatToStringInjective(m: nat, n: nat)
    requires NatToString(m) == NatToString(n)
    ensures m == n
  {
    ValueOfNatToString(m);
    ValueOfNatToString(n);
  }

  /** Array indices run from 0 to 2^32 - 2 (section 6.1.7 of ECMA-262). */
  const MaxArrayIndex: nat := 0xFFFF_FFFE

  /** A property key that is an array index: the canonical text of a number at most MaxArrayIndex. */
  predicate IsArrayIndex(k: string) {
    Canonical(k) && DigitsValue(k) <= MaxArrayIndex
  }

  function IndexValue(k: string): (n: nat)
    requires IsArrayIndex(k)
    ensures n <= MaxArrayIndex
  {
    DigitsValue(k)
  }

  lemma IndexKeyOf(n: nat)
    requires n <= MaxArrayIndex
    ensures IsArrayIndex(NatToString(n)) && IndexValue(NatToString(n)) == n
  {
    ValueOfNatToString(n);
  }

  /** Two array-index keys with the same numeric value are the same key. */
  lemma IndexValueInjective(a: string, b: string)
    requires IsArrayIndex(a) && IsArrayIndex(b) && IndexValue(a) == IndexValue(b)
    ensures a == b
  {
    NatToStringOfValue(a);
    NatToStringOfValue(b);
  }

  /** A key holding a non-digit character is never an array index. */
  lemma NotIndexWithLetter(k: string, i: nat)
    requires i < |k| && !IsDigit(k[i])
    ensures !IsArrayIndex(k)
  {
  }
}
