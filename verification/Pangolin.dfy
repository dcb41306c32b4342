/**
 The swap and liquidity amounts of Pangolin.cpp, computed in wrapping 256-bit arithmetic with
 a check after each step, against the exact quotients they stand for.
 */
module Pangolin {
  import opened Bytes

  /** An amount, the empty string of an overflow, or the exception of a division by zero. */
  datatype Quote = Amount(value: nat) | Empty | DivisionByZero

  function Mul(a: u256, b: u256): u256 { (a * b) % U256_LIMIT }

  function Add(a: u256, b: u256): u256 { (a + b) % U256_LIMIT }

  /** The quotient, rounded down. */
  function Div(n: nat, b: nat): (q: nat)
    requires b > 0
    ensures q * b <= n < q * b + b
  {
    n / b
  }

  /** `calcExchangeAmountOut`. */
  function CalcExchangeAmountOut(amountIn: u256, reserveIn: u256, reserveOut: u256): Quote
  {
    var amountInWithFee := Mul(amountIn, 997);
    if Div(amountInWithFee, 997) != amountIn then Empty else
    var numerator := Mul(amountInWithFee, reserveOut);
    if reserveOut == 0 then DivisionByZero
    else if Div(numerator, reserveOut) != amountInWithFee then Empty
    else
      var denominator := Mul(reserveIn, 1000);
      if Div(denominator, 1000) != reserveIn then Empty
      else if Add(denominator, amountInWithFee) < denominator then Empty
      else
        var sum := Add(denominator, amountInWithFee);
        if sum == 0 then DivisionByZero else Amount(Div(numerator, sum))
  }

  /** `calcLiquidityAmountOut`. */
  function CalcLiquidityAmountOut(amountIn: u256, reserveIn: u256, reserveOut: u256): Quote
  {
    var numerator := Mul(Mul(amountIn, 1000), reserveOut);
    if reserveOut == 0 then DivisionByZero
    else if Div(Div(numerator, reserveOut), 1000) != amountIn then Empty
    else
      var denominator := Mul(reserveIn, 1000);
      if Div(denominator, 1000) != reserveIn then Empty
      else if denominator == 0 then DivisionByZero
      else Amount(Div(numerator, denominator))
  }

  // ---- quotients ----

  lemma MulMono(a: int, b: int, c: nat)
    requires a <= b
    ensures a * c <= b * c
  {
  }

  lemma FewerTimes(n: int, b: nat, p: int, q: int)
    requires p * b <= n < q * b
    ensures p < q
  {
    if p >= q {
      MulMono(q, p, b);
    }
  }

  lemma DivIs(n: nat, b: nat, q: nat)
    requires b > 0 && q * b <= n < q * b + b
    ensures Div(n, b) == q
  {
    var d := Div(n, b);
    assert (d + 1) * b == d * b + b && (q + 1) * b == q * b + b;
    FewerTimes(n, b, d, q + 1);
    FewerTimes(n, b, q, d + 1);
  }

  lemma DivBelow(n: nat, b: nat, a: nat)
    requires b > 0
    ensures n < a * b <==> Div(n, b) < a
  {
    hide Div;
    var d := Div(n, b);
    if d >= a {
      MulMono(a, d, b);
    } else {
      MulMono(d + 1, a, b);
      assert (d + 1) * b == d * b + b;
    }
  }

  lemma MulAssoc(a: int, b: int, c: int)
    ensures a * b * c == a * (b * c) == a * (c * b)
  {
  }

  lemma PositiveProduct(a: nat, b: nat)
    requires a > 0 && b > 0
    ensures a * b > 0
  {
  }

  lemma DivTwice(n: nat, b: nat, c: nat)
    requires b > 0 && c > 0
    ensures b * c > 0 && Div(Div(n, b), c) == Div(n, b * c)
  {
    hide Div;
    var e := Div(n, b);
    var d := Div(e, c);
    PositiveProduct(b, c);
    MulMono(d * c, e, b);
    MulMono(e + 1, (d + 1) * c, b);
    OneMore(e, b);
    OneMore(d, c);
    OneMore(d, b * c);
    MulAssoc(d, c, b);
    MulAssoc(d + 1, c, b);
    DivIs(n, b * c, d);
  }

  lemma OneMore(a: int, b: int)
    ensures (a + 1) * b == a * b + b
  {
  }

  // ---- the checks are exact ----

  /** Dividing back tells whether a product wrapped. */
  lemma MulCheck(a: u256, b: u256)
    requires b > 0
    ensures Div(Mul(a, b), b) == a <==> a * b < U256_LIMIT
    ensures a * b < U256_LIMIT ==> Mul(a, b) == a * b
  {
    hide Div;
    MulWraps(a, b);
    if a * b < U256_LIMIT {
      DivIs(a * b, b, a);
    } else {
      DivBelow(Mul(a, b), b, a);
    }
  }

  lemma MulWraps(a: u256, b: u256)
    ensures a * b < U256_LIMIT ==> Mul(a, b) == a * b
    ensures a * b >= U256_LIMIT ==> Mul(a, b) < a * b
  {
    assert a * b >= 0;
  }

  /** Comparing tells whether a sum wrapped. */
  lemma AddCheck(a: u256, b: u256)
    ensures Add(a, b) < a <==> a + b >= U256_LIMIT
    ensures a + b < U256_LIMIT ==> Add(a, b) == a + b
  {
  }

  /** Every intermediate of the swap fits 256 bits. */
  predicate SwapFits(a: nat, reserveIn: nat, reserveOut: nat)
  {
    a * 997 < U256_LIMIT && a * 997 * reserveOut < U256_LIMIT && reserveIn * 1000 + a * 997 < U256_LIMIT
  }

  /** The swap is empty exactly when an intermediate overflows, and else the exact quotient,
      unless a pool without reserves makes it divide by zero. */
  lemma SwapExact(a: u256, reserveIn: u256, reserveOut: u256)
    ensures CalcExchangeAmountOut(a, reserveIn, reserveOut) ==
            if reserveOut == 0 then if a * 997 < U256_LIMIT then DivisionByZero else Empty
            else if !SwapFits(a, reserveIn, reserveOut) then Empty
            else if reserveIn == 0 && a == 0 then DivisionByZero
            else Amount(Div(a * 997 * reserveOut, reserveIn * 1000 + a * 997))
  {
    hide Div, Mul, Add;
    MulCheck(a, 997);
    if a * 997 < U256_LIMIT && reserveOut > 0 {
      MulCheck(a * 997, reserveOut);
      MulCheck(reserveIn, 1000);
      if reserveIn * 1000 < U256_LIMIT {
        AddCheck(reserveIn * 1000, a * 997);
      }
    }
  }

  /** What a swap answers: all its intermediates fit, and it is their quotient. */
  lemma SwapAnswers(a: u256, reserveIn: u256, reserveOut: u256, out: nat)
    requires reserveIn > 0 && reserveOut > 0 && CalcExchangeAmountOut(a, reserveIn, reserveOut) == Amount(out)
    ensures SwapFits(a, reserveIn, reserveOut) && out == Div(a * 997 * reserveOut, reserveIn * 1000 + a * 997)
  {
    hide Div, CalcExchangeAmountOut;
    SwapExact(a, reserveIn, reserveOut);
  }

  /** The pool's product never falls, and the pool is never emptied. */
  lemma SwapKeepsProduct(a: u256, reserveIn: u256, reserveOut: u256, out: nat)
    requires reserveIn > 0 && reserveOut > 0 && CalcExchangeAmountOut(a, reserveIn, reserveOut) == Amount(out)
    ensures out < reserveOut
    ensures (reserveIn * 1000 + a * 997) * (reserveOut - out) >= reserveIn * 1000 * reserveOut
  {
    hide Div, CalcExchangeAmountOut;
    SwapAnswers(a, reserveIn, reserveOut, out);
    QuotientInPool(reserveIn * 1000, a * 997, reserveOut, out);
  }

  lemma QuotientInPool(r: nat, a: nat, o: nat, out: nat)
    requires r > 0 && o > 0 && out == Div(a * o, r + a)
    ensures out < o && (r + a) * (o - out) >= r * o
  {
    hide Div;
    assert (r + a) * o == r * o + a * o;
    assert r * o > 0;
    assert o * (r + a) == (r + a) * o;
    DivBelow(a * o, r + a, o);
    assert (r + a) * (o - out) == (r + a) * o - out * (r + a);
  }

  /** More in, no less out; and where the larger amount is answered, so is the smaller. */
  lemma SwapMonotone(a: u256, b: u256, reserveIn: u256, reserveOut: u256, outB: nat) returns (outA: nat)
    requires reserveIn > 0 && reserveOut > 0 && a <= b
    requires CalcExchangeAmountOut(b, reserveIn, reserveOut) == Amount(outB)
    ensures CalcExchangeAmountOut(a, reserveIn, reserveOut) == Amount(outA) && outA <= outB
  {
    hide Div, CalcExchangeAmountOut;
    SwapAnswers(b, reserveIn, reserveOut, outB);
    MulMono(a * 997, b * 997, reserveOut);
    SwapExact(a, reserveIn, reserveOut);
    outA := Div(a * 997 * reserveOut, reserveIn * 1000 + a * 997);
    SmallerPart(a * 997, b * 997, reserveIn * 1000, reserveOut, outA);
    DivAtLeast(b * 997 * reserveOut, reserveIn * 1000 + b * 997, outA);
  }

  lemma DivAtLeast(n: nat, b: nat, q: nat)
    requires b > 0 && q * b <= n
    ensures Div(n, b) >= q
  {
    hide Div;
    if Div(n, b) < q {
      DivBelow(n, b, q);
    }
  }

  /** q (r + a) <= a o gives q (r + b) <= b o for b >= a. */
  lemma SmallerPart(a: nat, b: nat, r: nat, o: nat, q: nat)
    requires a <= b && r > 0 && q * (r + a) <= a * o
    ensures q * (r + b) <= b * o
  {
    if a == 0 {
      FewerTimes(0, r, q, 1);
    } else {
      assert (o + 1) * (r + a) == o * r + o * a + r + a && o * r >= 0 && a * o == o * a;
      FewerTimes(a * o, r + a, q, o + 1);
      MulMono(q, o, b - a);
      assert q * (r + b) == q * (r + a) + q * (b - a);
      assert b * o == a * o + o * (b - a);
    }
  }

  /** Swapping back what was swapped out, from the reserves it left, gains nothing. */
  lemma NoRoundTripGain(a: u256, reserveIn: u256, reserveOut: u256, out: u256, back: nat)
    requires reserveIn > 0 && reserveOut > 0 && CalcExchangeAmountOut(a, reserveIn, reserveOut) == Amount(out)
    requires out < reserveOut && reserveIn + a < U256_LIMIT
    requires CalcExchangeAmountOut(out, reserveOut - out, reserveIn + a) == Amount(back)
    ensures back <= a
  {
    hide Div, CalcExchangeAmountOut;
    SwapKeepsProduct(a, reserveIn, reserveOut, out);
    SwapAnswers(out, reserveOut - out, reserveIn + a, back);
    BackIsLess(a, reserveIn, out, reserveOut - out);
    DivBelow(out * 997 * (reserveIn + a), (reserveOut - out) * 1000 + out * 997, a + 1);
  }

  lemma BackIsLess(a: nat, r: nat, out: nat, left: nat)
    requires left > 0 && (r * 1000 + a * 997) * left >= r * 1000 * (left + out)
    ensures out * 997 * (r + a) < (a + 1) * (left * 1000 + out * 997)
  {
    assert (r * 1000 + a * 997) * left == r * 1000 * left + a * 997 * left;
    assert r * 1000 * (left + out) == r * 1000 * left + r * 1000 * out;
    assert a * 997 * left >= r * 1000 * out;
    assert a * left >= 0 && r * out >= 0;
    assert out * 997 * (r + a) == 997 * (r * out) + 997 * (a * out);
    assert (a + 1) * (left * 1000 + out * 997) == 1000 * (a * left) + 997 * (a * out) + left * 1000 + out * 997;
  }

  /** The amount of liquidity is empty exactly when an intermediate overflows, and else the
      exact proportion, unless a pool without reserves makes it divide by zero. */
  lemma LiquidityExact(a: u256, reserveIn: u256, reserveOut: u256)
    ensures CalcLiquidityAmountOut(a, reserveIn, reserveOut) ==
            if reserveOut == 0 then DivisionByZero
            else if a * 1000 * reserveOut >= U256_LIMIT || reserveIn * 1000 >= U256_LIMIT then Empty
            else if reserveIn == 0 then DivisionByZero
            else Amount(Div(a * reserveOut, reserveIn))
  {
    hide Div, Mul;
    if reserveOut > 0 {
      var numerator := Mul(Mul(a, 1000), reserveOut);
      TwoProducts(a, reserveOut);
      DivTwice(numerator, reserveOut, 1000);
      var b := reserveOut * 1000;
      assert a * b == a * 1000 * reserveOut;
      MulCheck(reserveIn, 1000);
      if a * 1000 * reserveOut >= U256_LIMIT {
        DivBelow(numerator, b, a);
      } else {
        DivIs(a * b, b, a);
        if reserveIn > 0 {
          DivCommon(a * reserveOut, reserveIn);
          assert a * 1000 * reserveOut == a * reserveOut * 1000;
        }
      }
    }
  }

  lemma TwoProducts(a: u256, b: u256)
    ensures a * 1000 * b < U256_LIMIT && b > 0 ==> Mul(Mul(a, 1000), b) == a * 1000 * b
    ensures a * 1000 * b >= U256_LIMIT ==> Mul(Mul(a, 1000), b) < a * 1000 * b
  {
    if a * 1000 * b < U256_LIMIT && b > 0 {
      MulMono(1, b, a * 1000);
      MulWraps(a, 1000);
      MulWraps(a * 1000, b);
    }
  }

  lemma DivCommon(n: nat, b: nat)
    requires b > 0
    ensures Div(n * 1000, b * 1000) == Div(n, b)
  {
    hide Div;
    var q := Div(n, b);
    assert q * (b * 1000) == q * b * 1000;
    DivIs(n * 1000, b * 1000, q);
  }
}
