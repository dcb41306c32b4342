/**
 Decimal numerals as strings: what a string of digits is worth, and the one numeral of each
 number that has no leading zero.
 */
module Decimal {

  predicate IsDigit(c: char) { '0' <= c <= '9' }

  predicate Digits(s: string) { forall i | 0 <= i < |s| :: IsDigit(s[i]) }

  function DigitValue(c: char): (d: nat)
    requires IsDigit(c)
    ensures d < 10
  {
    (c - '0') as nat
  }

  function DigitOf(d: nat): (c: char)
    requires d < 10
    ensures IsDigit(c) && DigitValue(c) == d
  {
    '0' + d as char
  }

  function Value(s: string): nat
    requires Digits(s)
  {
    if s == "" then 0 else Value(s[..|s| - 1]) * 10 + DigitValue(s[|s| - 1])
  }

  function Numeral(n: nat): (s: string)
    ensures s != "" && Digits(s)
  {
    if n < 10 then [DigitOf(n)] else Numeral(n / 10) + [DigitOf(n % 10)]
  }

  function Pow10(k: nat): (p: nat)
    ensures p > 0
  {
    if k == 0 then 1 else 10 * Pow10(k - 1)
  }

  function ZeroDigits(k: nat): (s: string)
    ensures |s| == k && Digits(s)
  {
    seq(k, _ => '0')
  }

  /** Without the zeros in front. */
  function Stripped(s: string): string
  {
    if s != "" && s[0] == '0' then Stripped(s[1..]) else s
  }

  /** The ten digits. */
  lemma TenDigits(d: nat)
    requires d < 10
    ensures DigitOf(d) == "0123456789"[d] && DigitValue("0123456789"[d]) == d
  {
  }

  lemma {:induction false} NumeralValue(n: nat)
    ensures Value(Numeral(n)) == n
  {
    if n >= 10 {
      NumeralValue(n / 10);
      assert Numeral(n)[..|Numeral(n)| - 1] == Numeral(n / 10);
    } else {
      assert Value([DigitOf(n)][..0]) == 0;
    }
  }

  lemma {:induction false} ValueFront(s: string)
    requires Digits(s) && s != "" && s[0] == '0'
    ensures Value(s) == Value(s[1..])
  {
    if |s| == 1 {
      assert s[..0] == "" && s[1..] == "";
    } else {
      ValueFront(s[..|s| - 1]);
      assert s[..|s| - 1][1..] == s[1..][..|s| - 2];
    }
  }

  lemma {:induction false} StrippedValue(s: string)
    requires Digits(s)
    ensures Digits(Stripped(s)) && Value(Stripped(s)) == Value(s)
    ensures Stripped(s) != "" ==> Stripped(s)[0] != '0'
  {
    if s != "" && s[0] == '0' {
      ValueFront(s);
      StrippedValue(s[1..]);
    }
  }

  /** A string of digits that begins with none but a significant one is the numeral of its value. */
  lemma {:induction false} NumeralOfValue(s: string)
    requires Digits(s) && s != "" && s[0] != '0'
    ensures Value(s) > 0 && Numeral(Value(s)) == s
  {
    var front := s[..|s| - 1];
    assert s == front + [s[|s| - 1]];
    if front == "" {
      assert Value(front) == 0;
      assert DigitOf(DigitValue(s[0])) == s[0];
    } else {
      NumeralOfValue(front);
      assert Value(s) / 10 == Value(front) && Value(s) % 10 == DigitValue(s[|s| - 1]);
      assert DigitOf(DigitValue(s[|s| - 1])) == s[|s| - 1];
    }
  }

  /** Stripping the zeros in front, and writing "0" for nothing, gives the numeral. */
  lemma StrippedNumeral(s: string)
    requires Digits(s)
    ensures Numeral(Value(s)) == if Stripped(s) == "" then "0" else Stripped(s)
  {
    StrippedValue(s);
    if Stripped(s) != "" {
      NumeralOfValue(Stripped(s));
    }
  }

  lemma TenTimes(a: nat, b: nat)
    ensures a * (10 * b) == a * b * 10
  {
  }

  lemma ValuePush(s: string, c: char)
    requires Digits(s) && IsDigit(c)
    ensures Digits(s + [c]) && Value(s + [c]) == Value(s) * 10 + DigitValue(c)
  {
    assert (s + [c])[..|s|] == s;
  }

  /** Zeros behind multiply. */
  lemma {:induction false} ValuePadded(s: string, k: nat)
    requires Digits(s)
    ensures Digits(s + ZeroDigits(k)) && Value(s + ZeroDigits(k)) == Value(s) * Pow10(k)
  {
    hide Value;
    if k == 0 {
      assert s + ZeroDigits(0) == s;
    } else {
      ValuePadded(s, k - 1);
      ValuePush(s + ZeroDigits(k - 1), '0');
      assert s + ZeroDigits(k) == s + ZeroDigits(k - 1) + ['0'];
      TenTimes(Value(s), Pow10(k - 1));
    }
  }
}
