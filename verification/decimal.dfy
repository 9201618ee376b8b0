/**
  Decimal digit strings: the `%d` conversion, the `%02d` zero-padded
  conversion used by the overlay, and the inverse that reads a digit
  string back as a number.
 */
module Decimal {

  predicate IsDigit(ch: char) {
    '0' <= ch <= '9'
  }

  predicate AllDigits(s: string) {
    forall i :: 0 <= i < |s| ==> IsDigit(s[i])
  }

  function DigitValue(ch: char): nat
    requires IsDigit(ch)
  {
    (ch as int) - ('0' as int)
  }

  function DigitChar(d: nat): (ch: char)
    requires d < 10
    ensures IsDigit(ch) && DigitValue(ch) == d
  {
    (('0' as int) + d) as char
  }

  /** The number a digit string denotes, most significant digit first */
  function Value(s: string): nat
    requires AllDigits(s)
    decreases |s|
  {
    if s == [] then 0 else Value(s[..|s| - 1]) * 10 + DigitValue(s[|s| - 1])
  }

  /** Shortest decimal representation of `n` (`%d`) */
  function Digits(n: nat): (s: string)
    ensures AllDigits(s)
    ensures Value(s) == n
    ensures 1 <= |s|
    ensures s[0] == '0' ==> n == 0
    ensures |s| >= 2 <==> n >= 10
    ensures |s| == 2 <==> 10 <= n < 100
    decreases n
  {
    if n < 10 then
      [DigitChar(n)]
    else
      var s := Digits(n / 10) + [DigitChar(n % 10)];
      assert s[..|s| - 1] == Digits(n / 10);
      s
  }

  /**
    `%02d`: the decimal representation of `n` padded on the left with
    zeros to a width of at least two.
   */
  function Pad2(n: nat): (s: string)
    ensures AllDigits(s)
    ensures Value(s) == n
    ensures |s| >= 2
    ensures |s| == 2 || s[0] != '0'
    ensures |s| == 2 <==> n < 100
  {
    if n < 10 then
      var s := [DigitChar(0), DigitChar(n)];
      assert s[..1] == [DigitChar(0)] && Value(s[..1]) == 0;
      s
    else
      Digits(n)
  }

  /** Any digit string of the padded shape that denotes `n` is `Pad2(n)` */
  lemma {:induction false} Pad2Unique(s: string, n: nat)
    requires AllDigits(s) && Value(s) == n
    requires |s| >= 2 && (|s| == 2 || s[0] != '0')
    ensures s == Pad2(n)
  {
    if |s| == 2 {
      assert s[..1] == [s[0]];
      assert Value(s[..1]) == DigitValue(s[0]) by {
        assert s[..1][..0] == [];
      }
      assert n == DigitValue(s[0]) * 10 + DigitValue(s[1]);
      if n < 10 {
        DigitsOfValue(s[1..], n);
        assert s == [s[0]] + s[1..];
      } else {
        DigitsOfValue(s, n);
      }
    } else {
      DigitsOfValue(s, n);
    }
  }

  /** A digit string without a leading zero (or the single "0") is `Digits` of its value */
  lemma {:induction false} DigitsOfValue(s: string, n: nat)
    requires AllDigits(s) && Value(s) == n && |s| >= 1
    requires |s| == 1 || s[0] != '0'
    ensures s == Digits(n)
    decreases |s|
  {
    if |s| == 1 {
      assert Value(s) == Value([]) * 10 + DigitValue(s[0]);
    } else {
      var p := s[..|s| - 1];
      var d := DigitValue(s[|s| - 1]);
      assert AllDigits(p) && p[0] == s[0];
      assert n == Value(p) * 10 + d;
      LeadingNonZero(p);
      DigitsOfValue(p, Value(p));
      assert n >= 10 && n / 10 == Value(p) && n % 10 == d;
      assert DigitChar(d) == s[|s| - 1];
      assert Digits(n) == p + [s[|s| - 1]];
      assert s == p + [s[|s| - 1]];
    }
  }

  /** A digit string that does not start with '0' denotes a positive number */
  lemma {:induction false} LeadingNonZero(s: string)
    requires AllDigits(s) && |s| >= 1 && s[0] != '0'
    ensures Value(s) >= 1
    decreases |s|
  {
    if |s| > 1 {
      var p := s[..|s| - 1];
      assert p[0] == s[0];
      LeadingNonZero(p);
    }
  }
}
