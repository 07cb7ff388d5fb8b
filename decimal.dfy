/**
 * Decimal numerals of non-negative integers, as Python's str() and f-string
 * interpolation write them, and the reading of a numeral back into a number.
 */
module Decimal {

  predicate IsDigit(c: char) { '0' <= c <= '9' }

  predicate AllDigits(s: string) {
    forall i :: 0 <= i < |s| ==> IsDigit(s[i])
  }

  function DigitChar(d: nat): (c: char)
    requires d < 10
    ensures IsDigit(c) && c as int - '0' as int == d
  {
    (d + '0' as int) as char
  }

  function DigitValue(c: char): (d: nat)
    requires IsDigit(c)
    ensures d < 10 && DigitChar(d) == c
  {
    c as int - '0' as int
  }

  /** The numeral of n: most significant digit first, no leading zero. */
  function Digits(n: nat): (s: string)
    ensures |s| >= 1 && AllDigits(s)
    ensures s[0] == '0' ==> n == 0 && s == "0"
    decreases n
  {
    if n < 10 then [DigitChar(n)] else Digits(n / 10) + [DigitChar(n % 10)]
  }

  /** A numeral is all digits, so it never breaks a line. */
  lemma DigitsNoNewline(n: nat)
    ensures forall i :: 0 <= i < |Digits(n)| ==> Digits(n)[i] != '\n'
  {
  }

  /** The number a string of digits denotes (leading zeros allowed). */
  function Value(s: string): nat
    requires AllDigits(s)
  {
    if s == [] then 0 else Value(s[..|s| - 1]) * 10 + DigitValue(s[|s| - 1])
  }

  /** Reading a numeral gives back the number it was written from. */
  lemma {:induction false} ValueOfDigits(n: nat)
    ensures Value(Digits(n)) == n
    decreases n
  {
    if n >= 10 {
      ValueOfDigits(n / 10);
      var s := Digits(n);
      assert s[..|s| - 1] == Digits(n / 10);
    }
  }

  /** Two numbers are written the same only if they are equal. */
  lemma DigitsInjective(m: nat, n: nat)
    requires Digits(m) == Digits(n)
    ensures m == n
  {
    ValueOfDigits(m);
    ValueOfDigits(n);
  }

  /**
   * Splits off the longest prefix of digits. The result is determined by its
   * contract: the two parts make up s, the first is all digits, and the second
   * does not start with one.
   */
  function TakeDigits(s: string): (p: (string, string))
    ensures p.0 + p.1 == s
    ensures AllDigits(p.0)
    ensures p.1 == [] || !IsDigit(p.1[0])
  {
    if s == [] || !IsDigit(s[0]) then ([], s)
    else
      var (ds, rest) := TakeDigits(s[1..]);
      ([s[0]] + ds, rest)
  }

  /** A run of digits followed by a non-digit (or nothing) is split exactly there. */
  lemma {:induction false} TakeDigitsOf(ds: string, rest: string)
    requires AllDigits(ds)
    requires rest == [] || !IsDigit(rest[0])
    ensures TakeDigits(ds + rest) == (ds, rest)
  {
    if ds != [] {
      var s := ds + rest;
      assert s[0] == ds[0] && IsDigit(s[0]);
      assert s[1..] == ds[1..] + rest;
      TakeDigitsOf(ds[1..], rest);
      assert [ds[0]] + ds[1..] == ds;
    } else {
      assert ds + rest == rest;
    }
  }
}
