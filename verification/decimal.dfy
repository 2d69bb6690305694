/** ASCII decimal numerals: the value of a digit string (what `str::parse`
    computes for the digit runs the lexer collects) and the canonical digit
    string of a natural number (used to print tokens back to text). */
module Decimal {

  predicate IsDigit(c: char) {
    '0' <= c <= '9'
  }

  predicate AllDigits(ds: seq<char>) {
    forall k :: 0 <= k < |ds| ==> IsDigit(ds[k])
  }

  function DigitValue(c: char): (d: nat)
    requires IsDigit(c)
    ensures d < 10
  {
    c as int - '0' as int
  }

  function DigitChar(d: nat): (c: char)
    requires d < 10
    ensures IsDigit(c) && DigitValue(c) == d
  {
    (d + '0' as int) as char
  }

  /** The value of a digit string read most-significant digit first. */
  function Value(ds: seq<char>): nat
    requires AllDigits(ds)
    decreases |ds|
  {
    if |ds| == 0 then 0 else 10 * Value(ds[..|ds| - 1]) + DigitValue(ds[|ds| - 1])
  }

  /** The shortest digit string of `n`. */
  function Digits(n: nat): (ds: seq<char>)
    ensures |ds| >= 1 && AllDigits(ds)
    ensures ds[0] == '0' ==> n == 0
  {
    if n < 10 then [DigitChar(n)] else Digits(n / 10) + [DigitChar(n % 10)]
  }

  /** Reading the digits of `n` back yields `n`. */
  lemma {:induction false} ValueOfDigits(n: nat)
    ensures Value(Digits(n)) == n
  {
    if n >= 10 {
      var ds := Digits(n);
      assert ds[..|ds| - 1] == Digits(n / 10);
      ValueOfDigits(n / 10);
    }
  }

  /** A leading zero does not change the value of a digit string. */
  lemma {:induction false} ValueLeadingZero(ds: seq<char>)
    requires AllDigits(ds)
    ensures AllDigits(['0'] + ds) && Value(['0'] + ds) == Value(ds)
    decreases |ds|
  {
    var z := ['0'] + ds;
    assert AllDigits(z) by {
      forall k | 0 <= k < |z|
        ensures IsDigit(z[k])
      {
        if k > 0 { assert z[k] == ds[k - 1]; }
      }
    }
    if |ds| > 0 {
      var init := ds[..|ds| - 1];
      assert z[..|z| - 1] == ['0'] + init;
      assert z[|z| - 1] == ds[|ds| - 1];
      ValueLeadingZero(init);
    }
  }
}
