/** Decimal numerals for the phone and birthday fields of a serialised
    entry: printing a natural number and reading it back. */
module Decimal {
  import opened Errors

  predicate IsDigit(c: char) {
    '0' <= c <= '9'
  }

  predicate AllDigits(s: string) {
    forall i :: 0 <= i < |s| ==> IsDigit(s[i])
  }

  /** A numeral as the printer writes it: non-empty, digits only, and no
      leading zero unless the numeral is "0" itself. */
  predicate IsCanonicalNumeral(s: string) {
    0 < |s| && AllDigits(s) && (1 < |s| ==> s[0] != '0')
  }

  function DigitChar(d: nat): (c: char)
    requires d < 10
    ensures IsDigit(c)
  {
    ('0' as int + d) as char
  }

  function DigitValue(c: char): (d: nat)
    requires IsDigit(c)
    ensures d < 10
    ensures DigitChar(d) == c
  {
    c as int - '0' as int
  }

  /** The decimal numeral of `n`, most significant digit first. */
  function Digits(n: nat): (r: string)
    ensures 0 < |r|
    ensures AllDigits(r)
    ensures r[0] == '0' ==> n == 0
    decreases n
  {
    if n < 10 then [DigitChar(n)] else Digits(n / 10) + [DigitChar(n % 10)]
  }

  /** The number a string of digits denotes. */
  function Value(s: string): nat
    requires AllDigits(s)
  {
    if |s| == 0 then 0 else Value(s[..|s| - 1]) * 10 + DigitValue(s[|s| - 1])
  }

  /** Reads a canonical numeral; anything else is rejected. */
  function ParseNat(s: string): Option<nat>
  {
    if IsCanonicalNumeral(s) then Some(Value(s)) else None
  }

  lemma DigitsCanonical(n: nat)
    ensures IsCanonicalNumeral(Digits(n))
  {
  }

  /** Reading back a printed number gives the number. */
  lemma {:induction false} ValueDigits(n: nat)
    ensures Value(Digits(n)) == n
    decreases n
  {
    if n >= 10 {
      var p := Digits(n / 10);
      ValueDigits(n / 10);
      assert (p + [DigitChar(n % 10)])[..|p|] == p;
    }
  }

  /** A numeral starting with a non-zero digit denotes a positive number. */
  lemma {:induction false} ValuePositive(s: string)
    requires 0 < |s| && AllDigits(s) && s[0] != '0'
    ensures Value(s) > 0
    decreases |s|
  {
    if |s| > 1 {
      ValuePositive(s[..|s| - 1]);
    }
  }

  /** Printing the number a canonical numeral denotes gives the numeral. */
  lemma {:induction false} DigitsValue(s: string)
    requires IsCanonicalNumeral(s)
    ensures Digits(Value(s)) == s
    decreases |s|
  {
    if |s| > 1 {
      var p := s[..|s| - 1];
      ValuePositive(p);
      DigitsValue(p);
      assert s == p + [s[|s| - 1]];
    }
  }

  /** Printing and reading are inverse: a string reads as `n` exactly
      when it is the numeral printed for `n`. */
  lemma ParseNatIff(s: string, n: nat)
    ensures ParseNat(s) == Some(n) <==> s == Digits(n)
  {
    if ParseNat(s) == Some(n) {
      DigitsValue(s);
    }
    if s == Digits(n) {
      DigitsCanonical(n);
      ValueDigits(n);
    }
  }
}
