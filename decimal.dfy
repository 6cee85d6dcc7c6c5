/** Decimal rendering of non-negative integers as JavaScript does it:
    `n.toString()` (radix 10, no leading zeros) and `padStart(width, '0')`,
    together with a reader that parses a digit string back. */
module Decimal {

  predicate IsDigit(c: char) {
    '0' <= c <= '9'
  }

  predicate AllDigits(s: string) {
    forall i :: 0 <= i < |s| ==> IsDigit(s[i])
  }

  function DigitValue(c: char): (d: nat)
    requires IsDigit(c)
    ensures d < 10
  {
    c as int - '0' as int
  }

  function DigitChar(d: nat): (c: char)
    requires d < 10
    ensures IsDigit(c) && DigitValue(c) == d
  {
    ('0' as int + d) as char
  }

  /** `n.toString()` for a non-negative integer. */
  function ToString(n: nat): (s: string)
    ensures 1 <= |s|
    ensures AllDigits(s)
    ensures n < 10 <==> |s| == 1
    ensures n < 100 <==> |s| <= 2
    ensures n != 0 ==> s[0] != '0'
  {
    if n < 10 then [DigitChar(n)] else ToString(n / 10) + [DigitChar(n % 10)]
  }

  /** `n.toString().padStart(2, '0')`: the decimal text is never empty, so
      padding to width two prepends at most one '0'. */
  function Pad2(n: nat): (r: string)
    ensures 2 <= |r|
    ensures n < 100 <==> |r| == 2
    ensures r[0] == '0' <==> n < 10
  {
    var s := ToString(n);
    if 2 <= |s| then s else ['0'] + s
  }

  /** Reads a digit string as a decimal number; leading zeros are allowed. */
  function Parse(s: string): nat
    requires AllDigits(s)
  {
    if s == [] then 0 else Parse(s[..|s| - 1]) * 10 + DigitValue(s[|s| - 1])
  }

  lemma {:induction false} ParseToString(n: nat)
    ensures Parse(ToString(n)) == n
  {
    if n >= 10 {
      var s := ToString(n);
      assert s[..|s| - 1] == ToString(n / 10);
      ParseToString(n / 10);
    }
  }

  lemma {:induction false} ParseLeadingZero(s: string)
    requires AllDigits(s)
    ensures AllDigits(['0'] + s) && Parse(['0'] + s) == Parse(s)
  {
    var t := ['0'] + s;
    if s != [] {
      assert t[..|t| - 1] == ['0'] + s[..|s| - 1];
      ParseLeadingZero(s[..|s| - 1]);
    }
  }

  /** The padded field is at least two digits wide, exactly two below 100,
      and reads back as the number it was made from. */
  lemma Pad2Reads(n: nat)
    ensures AllDigits(Pad2(n)) && Parse(Pad2(n)) == n
    ensures 2 <= |Pad2(n)|
    ensures n < 100 <==> |Pad2(n)| == 2
  {
    var s := ToString(n);
    ParseToString(n);
    if |s| < 2 {
      assert Pad2(n) == ['0'] + s;
      ParseLeadingZero(s);
    }
  }

  lemma Pad2OfZero()
    ensures Pad2(0) == "00"
  {
    assert ToString(0) == "0";
  }
}
