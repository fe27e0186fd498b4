/** ASCII decimal text for non-negative integers: what `String.format("%d")` and
    `String.format("%02d")` print in an ASCII locale, and the parser that reads it back. */
module Decimal {

  predicate IsDigitChar(c: char) {
    '0' <= c <= '9'
  }

  predicate AllDigits(s: string) {
    forall i :: 0 <= i < |s| ==> IsDigitChar(s[i])
  }

  function DigitValue(c: char): (d: nat)
    requires IsDigitChar(c)
    ensures d < 10
  {
    c as int - '0' as int
  }

  function DigitChar(d: nat): (c: char)
    requires d < 10
    ensures IsDigitChar(c) && DigitValue(c) == d
  {
    ('0' as int + d) as char
  }

  /** The value of a string of decimal digits, most significant first; "" reads as 0. */
  function Parse(s: string): nat
    requires AllDigits(s)
  {
    if s == [] then 0 else Parse(s[..|s| - 1]) * 10 + DigitValue(s[|s| - 1])
  }

  /** The shortest decimal representation of `n` (`%d`): no leading zero except for 0 itself,
      and it reads back as `n`. */
  function Digits(n: nat): (s: string)
    ensures 1 <= |s| && AllDigits(s)
    ensures s[0] == '0' ==> n == 0
    ensures Parse(s) == n
    ensures |s| == 1 <==> n < 10
    ensures |s| <= 2 <==> n < 100
  {
    if n < 10 then [DigitChar(n)]
    else
      var s := Digits(n / 10) + [DigitChar(n % 10)];
      assert s[..|s| - 1] == Digits(n / 10);
      s
  }

  /** A leading '0' does not change the value read. */
  lemma {:induction false} ParseLeadingZero(s: string)
    requires AllDigits(s)
    ensures AllDigits("0" + s) && Parse("0" + s) == Parse(s)
    decreases |s|
  {
    var z := "0" + s;
    if s != [] {
      assert z[..|z| - 1] == "0" + s[..|s| - 1];
      ParseLeadingZero(s[..|s| - 1]);
    }
  }

  /** `String.format("%02d", n)` for a non-negative `n`: at least two digits, exactly two when
      `n < 100`, a leading zero only when `n < 10`, and it reads back as `n`. These fix the text:
      see `Pad2Unique`. */
  function Pad2(n: nat): (s: string)
    ensures AllDigits(s) && |s| >= 2 && ':' !in s
    ensures |s| == 2 <==> n < 100
    ensures s[0] == '0' <==> n < 10
    ensures Parse(s) == n
  {
    var d := Digits(n);
    if |d| < 2 then
      ParseLeadingZero(d);
      "0" + d
    else d
  }

  /** The decimal text of a value without a leading zero is unique. */
  lemma {:induction false} DigitsUnique(s: string, n: nat)
    requires 1 <= |s| && AllDigits(s) && Parse(s) == n
    requires s[0] == '0' ==> |s| == 1
    ensures s == Digits(n)
    decreases |s|
  {
    var last := DigitValue(s[|s| - 1]);
    if |s| == 1 {
      assert s == [DigitChar(n)];
    } else {
      var init := s[..|s| - 1];
      assert init[0] == s[0];
      DigitsUnique(init, Parse(init));
      if Parse(init) == 0 {
        assert false;
      }
      assert n / 10 == Parse(init) && n % 10 == last;
      assert s == init + [s[|s| - 1]];
    }
  }

  /** Any text meeting the `%02d` contract of `Pad2` is `Pad2`'s own: the contract fixes the output. */
  lemma Pad2Unique(s: string, n: nat)
    requires AllDigits(s) && |s| >= 2
    requires |s| == 2 <==> n < 100
    requires s[0] == '0' <==> n < 10
    requires Parse(s) == n
    ensures s == Pad2(n)
  {
    if n < 10 {
      var t := s[1..];
      assert s == "0" + t;
      ParseLeadingZero(t);
      DigitsUnique(t, n);
    } else {
      DigitsUnique(s, n);
    }
  }

  /** A digit field of at least two digits, with a leading zero only when it has exactly two,
      is the `%02d` text of its value. */
  lemma PaddedField(s: string)
    requires AllDigits(s) && |s| >= 2
    requires s[0] == '0' ==> |s| == 2
    ensures s == Pad2(Parse(s))
  {
    var n := Parse(s);
    if s[0] == '0' {
      var t := s[1..];
      assert s == "0" + t;
      ParseLeadingZero(t);
      DigitsUnique(t, n);
    } else {
      DigitsUnique(s, n);
    }
  }
}
