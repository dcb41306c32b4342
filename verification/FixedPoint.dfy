/**
 Amounts with a decimal point and amounts in the smallest unit (Utils.cpp): two conversions
 on strings, which undo each other.
 */
module FixedPoint {
  import opened Decimal

  /** `weiToFixedPoint`. */
  method WeiToFixedPoint(amount: string, digits: nat) returns (result: string)
    ensures result == Pointed(amount, digits)
  {
    if |amount| <= digits {
      var valueToPoint := digits - |amount|;
      result := "0.";
      for i := 0 to valueToPoint
        invariant result == "0." + ZeroDigits(i)
      {
        assert ZeroDigits(i + 1) == ZeroDigits(i) + "0";
        result := result + "0";
      }
      result := result + amount;
    } else {
      result := amount;
      var pointToPlace := |result| - digits;
      result := result[..pointToPlace] + "." + result[pointToPlace..];
    }
    if result == "" {
      result := "0";
    }
  }

  /** The amount with the point before its last `digits` digits. */
  function Pointed(amount: string, digits: nat): string
  {
    if |amount| <= digits then "0." + ZeroDigits(digits - |amount|) + amount
    else amount[..|amount| - digits] + "." + amount[|amount| - digits..]
  }

  /** The whole units in an amount with some number of decimals, and what is left of it. */
  function Units(n: nat, digits: nat): nat { Quotient(n, Pow10(digits)) }

  function Left(n: nat, digits: nat): nat { n - Quotient(n, Pow10(digits)) * Pow10(digits) }

  function Quotient(n: nat, d: nat): (q: nat)
    requires d > 0
    ensures q * d <= n < q * d + d
  {
    n / d
  }

  lemma OneQuotient(n: nat, d: nat, q: nat)
    requires d > 0 && q * d <= n < q * d + d
    ensures Quotient(n, d) == q
  {
    var p := Quotient(n, d);
    if p < q {
      Multiple(d, p, q);
    } else if q < p {
      Multiple(d, q, p);
    }
  }

  /** The numeral of an amount becomes the numeral of its whole units, a point, and the rest in
      as many digits as there are decimals. */
  lemma PointedUnits(n: nat, digits: nat) returns (rest: string)
    ensures Digits(rest) && |rest| == digits && Value(rest) == Left(n, digits)
    ensures Pointed(Numeral(n), digits) == Numeral(Units(n, digits)) + "." + rest
  {
    hide Value, Pow10, Numeral, Units, Left;
    var amount := Numeral(n);
    if |amount| <= digits {
      rest := ZeroDigits(digits - |amount|) + amount;
      LeadingZeros(digits - |amount|, amount);
      FewDigits(n, digits);
    } else {
      rest := amount[|amount| - digits..];
      NumeralSplit(n, digits);
    }
  }

  /** A number of no more digits than decimals has no whole units. */
  lemma FewDigits(n: nat, digits: nat)
    requires |Numeral(n)| <= digits
    ensures Units(n, digits) == 0 && Left(n, digits) == n
    ensures Numeral(0) == "0" && Value(Numeral(n)) == n
  {
    hide Value, Pow10;
    NumeralValue(n);
    ValueBelow(Numeral(n));
    Pow10Grows(|Numeral(n)|, digits);
    OneQuotient(n, Pow10(digits), 0);
    TenDigits(0);
  }

  lemma {:induction false} Pow10Grows(j: nat, k: nat)
    requires j <= k
    ensures Pow10(j) <= Pow10(k)
    decreases k
  {
    if j < k {
      Pow10Grows(j, k - 1);
    }
  }

  lemma {:induction false} ValueBelow(s: string)
    requires Digits(s)
    ensures Value(s) < Pow10(|s|)
  {
    if s != "" {
      ValueBelow(s[..|s| - 1]);
    }
  }

  /** The last digits of a numeral are the remainder, the others the numeral of the quotient. */
  lemma {:induction false} NumeralSplit(n: nat, k: nat)
    requires k < |Numeral(n)|
    ensures var s := Numeral(n);
            s[..|s| - k] == Numeral(Units(n, k)) && Value(s[|s| - k..]) == Left(n, k)
  {
    hide Value, Pow10, Numeral, Units, Left;
    var s := Numeral(n);
    if k == 0 {
      assert s[..|s|] == s && s[|s|..] == "";
      DivideByOne(n);
    } else {
      var t, c := LastDigit(n);
      NumeralSplit(n / 10, k - 1);
      DivideByTens(n, k);
      assert s[..|s| - k] == t[..|t| - (k - 1)];
      assert s[|s| - k..] == t[|t| - (k - 1)..] + [c];
      ValuePush(t[|t| - (k - 1)..], c);
    }
  }

  lemma LastDigit(n: nat) returns (t: string, c: char)
    requires |Numeral(n)| > 1
    ensures t == Numeral(n / 10) && Numeral(n) == t + [c] && IsDigit(c) && DigitValue(c) == n % 10
  {
    t, c := Numeral(n / 10), DigitOf(n % 10);
  }

  lemma DivideByOne(n: nat)
    ensures Units(n, 0) == n && Left(n, 0) == 0 && Value("") == 0
  {
    OneQuotient(n, 1, n);
  }

  lemma DivideByTens(n: nat, k: nat)
    requires k > 0
    ensures Units(n, k) == Units(n / 10, k - 1) && Left(n, k) == 10 * Left(n / 10, k - 1) + n % 10
  {
    var p := Pow10(k - 1);
    var a := Quotient(n / 10, p);
    assert a * Pow10(k) == 10 * (a * p);
    OneQuotient(n, Pow10(k), a);
  }

  lemma Multiple(d: nat, p: nat, q: nat)
    requires p < q
    ensures p * d + d <= q * d
  {
    assert q * d == (p + 1) * d + (q - p - 1) * d;
  }

  predicate Allowed(s: string) { forall i | 0 <= i < |s| :: IsDigit(s[i]) || s[i] == '.' }

  /** What comes before the first point. */
  function Whole(s: string): string
  {
    if s == "" || s[0] == '.' then "" else [s[0]] + Whole(s[1..])
  }

  lemma {:induction false} WholeOf(x: string, y: string)
    requires Digits(x)
    ensures Whole(x + "." + y) == x && Whole(x) == x
  {
    if x != "" {
      WholeOf(x[1..], y);
      assert (x + "." + y)[1..] == x[1..] + "." + y;
    } else {
      assert (x + "." + y)[0] == '.';
    }
  }

  lemma {:induction false} WholeStep(s: string, index: nat)
    requires index <= |s| && Whole(s) == s[..index] + Whole(s[index..])
    ensures index < |s| && s[index] != '.' ==> Whole(s) == s[..index + 1] + Whole(s[index + 1..])
    ensures index == |s| || s[index] == '.' ==> Whole(s) == s[..index]
  {
    if index < |s| && s[index] != '.' {
      assert s[index..][1..] == s[index + 1..];
      assert s[..index + 1] == s[..index] + [s[index]];
    }
  }

  /** The first point parts an amount in the only way there is. */
  lemma PartsAt(amount: string, at: nat, x: string, y: string)
    requires at <= |amount| && Whole(amount) == amount[..at]
    requires Digits(x) && amount == x + "." + y
    ensures at < |amount| && x == amount[..at] && y == amount[at + 1..]
  {
    WholeOf(x, y);
  }

  lemma NoPoint(amount: string, at: nat)
    requires Digits(amount) && at <= |amount| && Whole(amount) == amount[..at]
    ensures at == |amount|
  {
    WholeOf(amount, "");
  }

  lemma TooPrecise(amount: string, at: nat, decimals: nat)
    requires at < |amount| && Whole(amount) == amount[..at] && |amount| - at - 1 > decimals
    ensures !Digits(amount)
    ensures forall x: string, y: string | Digits(x) && amount == x + "." + y :: |y| > decimals
  {
    if Digits(amount) {
      NoPoint(amount, at);
    }
    forall x: string, y: string | Digits(x) && amount == x + "." + y
      ensures |y| > decimals
    {
      PartsAt(amount, at, x, y);
    }
  }

  /** What is behind the point at `at`, if there is one. */
  function Fraction(amount: string, at: nat): string
  {
    if at < |amount| then amount[at + 1..] else ""
  }

  lemma Converted(amount: string, at: nat, decimals: nat, all: string, r: string)
    requires at <= |amount| && Whole(amount) == amount[..at]
    requires var fraction := Fraction(amount, at);
             |fraction| <= decimals && all == amount[..at] + (fraction + ZeroDigits(decimals - |fraction|))
    requires r == Shown(all)
    ensures Digits(amount) ==> r == Numeral(Value(amount) * Pow10(decimals))
    ensures forall x: string, y: string | Digits(x) && Digits(y) && amount == x + "." + y ::
              |y| <= decimals && r == Numeral(Value(x + y) * Pow10(decimals - |y|))
  {
    hide Whole, Value, Numeral, Pow10, Shown, ZeroDigits;
    if Digits(amount) {
      NoPoint(amount, at);
      assert amount[..at] == amount;
      Padded(amount, "", decimals, all, r);
      assert amount + "" == amount;
    }
    forall x: string, y: string | Digits(x) && Digits(y) && amount == x + "." + y
      ensures |y| <= decimals && r == Numeral(Value(x + y) * Pow10(decimals - |y|))
    {
      PartsAt(amount, at, x, y);
      Padded(x, y, decimals - |y|, all, r);
    }
  }

  /** The same for any number of points. */
  lemma ConvertedAsShown(amount: string, at: nat, decimals: nat, all: string)
    requires at <= |amount| && Whole(amount) == amount[..at]
    requires var fraction := Fraction(amount, at);
             |fraction| <= decimals && all == amount[..at] + (fraction + ZeroDigits(decimals - |fraction|))
    ensures forall x: string, y: string | Digits(x) && amount == x + "." + y ::
              && |y| <= decimals && Shown(all) == Shown(x + y + ZeroDigits(decimals - |y|))
              && (Digits(Shown(all)) <==> Digits(y))
  {
    hide Whole, Shown, ZeroDigits;
    forall x: string, y: string | Digits(x) && amount == x + "." + y
      ensures && |y| <= decimals && Shown(all) == Shown(x + y + ZeroDigits(decimals - |y|))
              && (Digits(Shown(all)) <==> Digits(y))
    {
      PartsAt(amount, at, x, y);
      PointsShown(x, y, decimals - |y|);
      assert x + (y + ZeroDigits(decimals - |y|)) == x + y + ZeroDigits(decimals - |y|);
    }
  }

  /** A string without its zeros in front; "0" when nothing is left. */
  function Shown(s: string): string
  {
    if Stripped(s) == "" then "0" else Stripped(s)
  }

  /** Only zeros in front go, so a second point stays. */
  lemma {:induction false} PointsShown(x: string, y: string, k: nat)
    ensures Digits(Shown(x + y + ZeroDigits(k))) <==> Digits(x) && Digits(y)
  {
    var s := x + y + ZeroDigits(k);
    DigitsOfJoined(x + y, ZeroDigits(k));
    DigitsOfJoined(x, y);
    assert Digits(ZeroDigits(k));
    DigitsStripped(s);
  }

  lemma DigitsOfJoined(a: string, b: string)
    ensures Digits(a + b) <==> Digits(a) && Digits(b)
  {
    assert a == (a + b)[..|a|] && b == (a + b)[|a|..];
  }

  lemma {:induction false} DigitsStripped(s: string)
    ensures Digits(Stripped(s)) <==> Digits(s)
  {
    if s != "" && s[0] == '0' {
      DigitsStripped(s[1..]);
      DigitsOfJoined([s[0]], s[1..]);
      assert s == [s[0]] + s[1..];
    }
  }

  lemma Padded(x: string, y: string, k: nat, all: string, r: string)
    requires Digits(x) && Digits(y) && all == x + (y + ZeroDigits(k))
    requires r == Shown(all)
    ensures r == Numeral(Value(x + y) * Pow10(k))
  {
    hide Value, Numeral, Pow10, Stripped, ZeroDigits;
    assert all == x + y + ZeroDigits(k);
    ValuePadded(x + y, k);
    StrippedNumeral(all);
  }

  /** The digits before the point. */
  method ReadWhole(amount: string) returns (valuestr: string, index: nat)
    ensures index <= |amount| && valuestr == amount[..index] == Whole(amount)
    ensures index < |amount| ==> amount[index] == '.'
  {
    valuestr, index := "", 0;
    while index < |amount| && amount[index] != '.'
      invariant index <= |amount| && valuestr == amount[..index] && Whole(amount) == valuestr + Whole(amount[index..])
    {
      WholeStep(amount, index);
      valuestr := valuestr + [amount[index]];
      index := index + 1;
    }
    WholeStep(amount, index);
  }

  /** The digits from `first` on; `first` may lie one behind the end. */
  method ReadFraction(amount: string, first: nat) returns (digitPadding: string)
    requires 1 <= first <= |amount| + 1
    ensures digitPadding == Fraction(amount, first - 1)
  {
    digitPadding := "";
    var index := first;
    while index < |amount|
      invariant first <= index && (first <= |amount| ==> index <= |amount| && digitPadding == amount[first..index])
      invariant first > |amount| ==> digitPadding == ""
    {
      digitPadding := digitPadding + [amount[index]];
      index := index + 1;
    }
  }

  /** Zeros behind, up to the given number of decimals. */
  method Pad(fraction: string, decimals: nat) returns (digitPadding: string)
    requires |fraction| <= decimals
    ensures digitPadding == fraction + ZeroDigits(decimals - |fraction|)
  {
    digitPadding := fraction;
    assert fraction + ZeroDigits(0) == fraction;
    while |digitPadding| < decimals
      invariant |fraction| <= |digitPadding| <= decimals
      invariant digitPadding == fraction + ZeroDigits(|digitPadding| - |fraction|)
      decreases decimals - |digitPadding|
    {
      OneMoreZero(fraction, |digitPadding| - |fraction|);
      digitPadding := digitPadding + "0";
    }
  }

  lemma OneMoreZero(s: string, k: nat)
    ensures s + ZeroDigits(k + 1) == s + ZeroDigits(k) + "0"
  {
  }

  /** The loop that erases zeros in front. */
  method Strip(s: string) returns (valuestr: string)
    ensures valuestr == Shown(s)
  {
    valuestr := s;
    while valuestr != "" && valuestr[0] == '0'
      invariant Stripped(valuestr) == Stripped(s)
      decreases |valuestr|
    {
      valuestr := valuestr[1..];
    }
    if valuestr == "" {
      valuestr := "0";
    }
  }

  /** `fixedPointToWei`: other characters than digits and points are refused, and more decimals
      than there are. With a second point the result is no number: that point is copied. */
  method FixedPointToWei(amount: string, decimals: nat) returns (valuestr: string)
    ensures !Allowed(amount) ==> valuestr == ""
    ensures Digits(amount) ==> valuestr == Numeral(Value(amount) * Pow10(decimals))
    ensures forall x: string, y: string | Digits(x) && Digits(y) && amount == x + "." + y ::
              valuestr == if |y| <= decimals then Numeral(Value(x + y) * Pow10(decimals - |y|)) else ""
    ensures forall x: string, y: string | Digits(x) && Allowed(y) && amount == x + "." + y ::
              if |y| > decimals then valuestr == ""
              else
                && valuestr == Shown(x + y + ZeroDigits(decimals - |y|))
                && (Digits(valuestr) <==> Digits(y))
  {
    hide Whole, Value, Numeral, Pow10, Shown, Fraction, ZeroDigits;
    if !Allowed(amount) {
      NotAllowed(amount);
      return "";
    }
    var index;
    valuestr, index := ReadWhole(amount);
    ghost var at := index;
    FractionLength(amount, at);
    index := index + 1;
    if index - 1 < |amount| && amount[index - 1] == '.' && |amount| - index > decimals {
      TooPrecise(amount, at, decimals);
      return "";
    }
    var digitPadding := ReadFraction(amount, index);
    digitPadding := Pad(digitPadding, decimals);
    valuestr := valuestr + digitPadding;
    ghost var all := valuestr;
    valuestr := Strip(valuestr);
    Converted(amount, at, decimals, all, valuestr);
    ConvertedAsShown(amount, at, decimals, all);
  }

  lemma FractionLength(amount: string, at: nat)
    requires at <= |amount|
    ensures |Fraction(amount, at)| == if at < |amount| then |amount| - at - 1 else 0
  {
  }

  lemma NotAllowed(amount: string)
    requires !Allowed(amount)
    ensures !Digits(amount) && forall x: string, y: string | Digits(x) && Allowed(y) :: amount != x + "." + y
  {
    forall x: string, y: string | Digits(x) && Allowed(y)
      ensures amount != x + "." + y
    {
      assert Allowed(x + "." + y);
    }
  }

  /** Converted to a point and back, an amount comes out as its numeral: as it was, exactly
      when it had no redundant zero in front. */
  method ThereAndBack(amount: string, digits: nat) returns (back: string)
    requires Digits(amount)
    ensures back == Numeral(Value(amount))
    ensures back == amount <==> amount == "0" || (amount != "" && amount[0] != '0')
  {
    hide Value, Numeral, Stripped, Pointed;
    var pointed := WeiToFixedPoint(amount, digits);
    back := FixedPointToWei(pointed, digits);
    ghost var x, y := PointedParts(amount, digits);
    OneTimes(Value(x + y));
    CanonicalNumeral(amount);
  }

  /** The parts around the point, and what they are worth together. */
  ghost predicate Parts(amount: string, digits: nat, x: string, y: string)
    requires Digits(amount)
  {
    && Digits(x) && Digits(y) && Pointed(amount, digits) == x + "." + y
    && |y| == digits && Value(x + y) == Value(amount)
  }

  lemma PointedParts(amount: string, digits: nat) returns (x: string, y: string)
    requires Digits(amount)
    ensures Parts(amount, digits, x, y)
  {
    hide Value;
    if |amount| <= digits {
      var k := digits - |amount|;
      x, y := "0", ZeroDigits(k) + amount;
      assert Pointed(amount, digits) == x + "." + y;
      LeadingZeros(k + 1, amount);
      assert x + y == ZeroDigits(k + 1) + amount;
    } else {
      x, y := amount[..|amount| - digits], amount[|amount| - digits..];
      assert x + y == amount;
    }
  }

  lemma {:induction false} LeadingZeros(k: nat, s: string)
    requires Digits(s)
    ensures Value(ZeroDigits(k) + s) == Value(s)
  {
    if k == 0 {
      assert ZeroDigits(0) + s == s;
    } else {
      ValueFront(ZeroDigits(k) + s);
      assert (ZeroDigits(k) + s)[1..] == ZeroDigits(k - 1) + s;
      LeadingZeros(k - 1, s);
    }
  }

  lemma OneTimes(n: nat)
    ensures n * Pow10(0) == n
  {
  }

  lemma CanonicalNumeral(s: string)
    requires Digits(s)
    ensures Numeral(Value(s)) == s <==> s == "0" || (s != "" && s[0] != '0')
  {
    StrippedNumeral(s);
    StrippedValue(s);
    if s != "" && s[0] == '0' && s != "0" {
      StrippedShorter(s);
    }
  }

  lemma {:induction false} StrippedShorter(s: string)
    ensures |Stripped(s)| <= |s| && (s != "" && s[0] == '0' ==> |Stripped(s)| < |s|)
  {
    if s != "" && s[0] == '0' {
      StrippedShorter(s[1..]);
    }
  }
}