/** Decimal numerals of non-negative integers, as Python's f-string
    formatting renders the page numbers and counts shown to the user. */
module Decimal {

  predicate IsDigit(c: char) {
    '0' <= c <= '9'
  }

  predicate AllDigits(s: string) {
    forall k :: 0 <= k < |s| ==> IsDigit(s[k])
  }

  function DigitChar(d: nat): (c: char)
    requires d < 10
    ensures IsDigit(c) && c as int - '0' as int == d
  {
    ('0' as int + d) as char
  }

  /** The shortest numeral of n: at least one digit, no leading zero,
      so 0 is "0" and 12 is "12". */
  function NatToString(n: nat): (r: string)
    ensures |r| >= 1 && AllDigits(r)
    ensures |r| > 1 ==> r[0] != '0'
    decreases n
  {
    if n < 10 then [DigitChar(n)] else NatToString(n / 10) + [DigitChar(n % 10)]
  }

  /** The number a string of digits denotes. */
  function Value(s: string): nat
    requires AllDigits(s)
  {
    if s == [] then 0 else 10 * Value(s[..|s| - 1]) + (s[|s| - 1] as int - '0' as int)
  }

  /** Reading back a rendered numeral gives the number. */
  lemma {:induction false} ValueOfNatToString(n: nat)
    ensures Value(NatToString(n)) == n
  {
    if n >= 10 {
      var head := NatToString(n / 10);
      var r := NatToString(n);
      assert r == head + [DigitChar(n % 10)];
      assert r[..|r| - 1] == head;
      ValueOfNatToString(n / 10);
    }
  }

  /** The number of leading digits of s. */
  function DigitRun(s: string): nat {
    if s == [] || !IsDigit(s[0]) then 0 else 1 + DigitRun(s[1..])
  }

  /** A numeral followed by a non-digit: its digits are the leading run. */
  lemma {:induction false} DigitRunOfNumeral(a: string, x: string)
    requires AllDigits(a) && |x| > 0 && !IsDigit(x[0])
    ensures DigitRun(a + x) == |a|
  {
    if a != [] {
      assert (a + x)[0] == a[0];
      assert (a + x)[1..] == a[1..] + x;
      DigitRunOfNumeral(a[1..], x);
    }
  }

  /** A numeral followed by text that starts with a space can be told
      apart from what follows it: the space ends the numeral. */
  lemma NumeralThenSpace(pre: string, a: string, b: string, x: string, y: string)
    requires AllDigits(a) && AllDigits(b)
    requires |x| > 0 && x[0] == ' ' && |y| > 0 && y[0] == ' '
    requires pre + (a + x) == pre + (b + y)
    ensures a == b && x == y
  {
    assert a + x == (pre + (a + x))[|pre|..];
    assert b + y == (pre + (b + y))[|pre|..];
    DigitRunOfNumeral(a, x);
    DigitRunOfNumeral(b, y);
    assert a == (a + x)[..|a|];
    assert b == (b + y)[..|b|];
    assert x == (a + x)[|a|..];
    assert y == (b + y)[|b|..];
  }

  /** Different numbers are rendered differently. */
  lemma NatToStringInjective(a: nat, b: nat)
    requires NatToString(a) == NatToString(b)
    ensures a == b
  {
    ValueOfNatToString(a);
    ValueOfNatToString(b);
  }
}
