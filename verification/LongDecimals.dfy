/** Amounts of more than 28 digits. Epay rounds such a decimal once; PayPal's product by 100 is rounded
    to the context before it is rounded to a unit. When the two differ, exactly. */
module LongDecimals {
  import opened Decimals
  import opened Money
  import opened Rounding
  import opened Wrappers

  predicate IsHalf(n: nat, p: nat)
    requires p > 0
  {
    2 * (n % p) == p
  }

  /** The digits of `100 * coeff` that the context rounds away, and what it leaves. */
  function Excess(n: nat): nat {
    if DigitCount(n) > PRECISION then DigitCount(n) - PRECISION else 0
  }

  function Left(n: nat): nat {
    HalfEven(n, Pow10(Excess(n)))
  }

  /** The context has rounded the product by 100 up to k + 1/2, or it has rounded k + 1/2 itself down to
      an even k. */
  predicate RoundsTwice(d: Decimal) {
    && d.coeff >= LIMIT
    && var n := 100 * d.coeff;
    && var p := Pow10(Excess(n));
    && var exp := d.exp + Excess(n);
    && if exp < 0 then IsHalf(Left(n), Pow10(-exp)) && n < Left(n) * p
       else exp == 0 && IsHalf(n, p) && n / p % 2 == 0
  }

  predicate Agree(d: Decimal) {
    EpayFen(d).Success? == PaypalFen(d).Success? && (EpayFen(d).Success? ==> EpayFen(d) == PaypalFen(d))
  }

  // ---------------------------------------------------------------- rounding twice, on naturals

  lemma Factors(c: int, p: int, h: int)
    ensures 2 * (c * (p * (2 * h))) == 2 * ((2 * (c * h)) * p)
    ensures (2 * (c * h) - h) * p == (2 * (c * h)) * p - h * p
    ensures (2 * (c * h) + h) * p == (2 * (c * h)) * p + h * p
    ensures p * (2 * h) == 2 * (h * p)
  {
  }

  lemma HalfUpOfProduct(n: nat, p: nat, h: nat, c: nat)
    requires p > 0 && h > 0
    ensures p * (2 * h) > 0
    ensures c == HalfUp(n, p * (2 * h)) <==> (2 * (c * h) - h) * p <= n < (2 * (c * h) + h) * p
  {
    ScaleUp(0, p, 2 * h);
    HalfUpMeaning(n, p * (2 * h), c);
    Factors(c, p, h);
  }

  lemma StaysBetween(n: nat, p: nat, q: int, low: int, high: int)
    requires p > 0 && low <= q < high && 2 * (q * p) <= 2 * n + p && 2 * n <= 2 * (q * p) + p
    ensures n < high * p
    ensures low < q ==> low * p <= n
  {
    ScaleUp(q + 1, high, p);
    assert (q + 1) * p == q * p + p;
    if low < q {
      ScaleUp(low + 1, q, p);
      assert (low + 1) * p == low * p + p;
    }
  }

  /** Rounding first to a multiple of `p` and then to one of `2hp` differs from rounding at once exactly
      when the first step went up and met a half of the second. */
  lemma RoundingTwice(n: nat, p: nat, h: nat)
    requires p > 0 && h > 0
    ensures p * (2 * h) > 0
    ensures var q := HalfEven(n, p);
            HalfUp(n, p * (2 * h)) == HalfUp(q, 2 * h) <==> !(IsHalf(q, 2 * h) && n < q * p)
  {
    var q := HalfEven(n, p);
    var c := HalfUp(q, 2 * h);
    HalfUpOfProduct(n, p, h, c);
    HalfUpIsBetween(q, h, c);
    HalfEvenMeaning(n, p);
    BetweenUnlessLow(n, p, q, 2 * (c * h) - h, 2 * (c * h) + h);
    HalfIsLow(q, h, c);
  }

  lemma HalfUpIsBetween(q: nat, h: nat, c: nat)
    requires h > 0 && c == HalfUp(q, 2 * h)
    ensures 2 * (c * h) - h <= q < 2 * (c * h) + h
  {
    HalfUpMeaning(q, 2 * h, c);
    assert c * (2 * h) == 2 * (c * h);
  }

  lemma BetweenUnlessLow(n: nat, p: nat, q: int, low: int, high: int)
    requires p > 0 && low <= q < high && 2 * (q * p) <= 2 * n + p && 2 * n <= 2 * (q * p) + p
    ensures low * p <= n < high * p <==> !(q == low && n < q * p)
  {
    StaysBetween(n, p, q, low, high);
  }

  lemma OneLess(c: int, h: int)
    ensures (c - 1) * (2 * h) == 2 * (c * h) - 2 * h
    ensures c == 0 ==> c * h == 0
  {
  }

  lemma LowIsHalf(q: nat, h: nat, c: nat)
    requires h > 0 && q == 2 * (c * h) - h
    ensures IsHalf(q, 2 * h)
  {
    OneLess(c, h);
    QuotientIsUnique(q, 2 * h, c - 1);
  }

  lemma HalfIsLow(q: nat, h: nat, c: nat)
    requires h > 0 && c == HalfUp(q, 2 * h)
    ensures IsHalf(q, 2 * h) <==> q == 2 * (c * h) - h
  {
    if q == 2 * (c * h) - h {
      LowIsHalf(q, h, c);
    } else if IsHalf(q, 2 * h) {
      var k := q / (2 * h);
      HalfUpByRemainder(q, 2 * h, k, h);
      OneLess(k + 1, h);
    }
  }

  lemma HalfUpByRemainder(n: nat, p: nat, q: nat, r: nat)
    requires p > 0 && n == q * p + r && r < p
    ensures HalfUp(n, p) == if 2 * r >= p then q + 1 else q
  {
    assert (q + 1) * p == q * p + p;
    HalfUpMeaning(n, p, if 2 * r >= p then q + 1 else q);
  }

  /** Half up and half even differ by one, exactly at a half above an even number. */
  lemma HalfUpOrEven(n: nat, p: nat)
    requires p > 0
    ensures HalfUp(n, p) == HalfEven(n, p) + if IsHalf(n, p) && n / p % 2 == 0 then 1 else 0
  {
    HalfUpByRemainder(n, p, n / p, n % p);
  }

  // ---------------------------------------------------------------- the two conversions

  lemma HundredthsAreUnits(d: Decimal)
    ensures HalfUpAt(d, -2) == HalfUpAt(Decimal(d.coeff * 100, d.exp), 0)
  {
    HalfUpAtScales(d.coeff * 10, d.exp, 0);
    HalfUpAtScales(d.coeff, d.exp + 1, 0);
    assert HalfUpAt(Decimal(d.coeff, d.exp + 2), 0) == HalfUpAt(d, -2);
  }

  lemma LongCoefficient(n: nat)
    requires n >= 100 * LIMIT
    ensures Excess(n) > 0
    ensures Pow10(27 + Excess(n)) <= n < Pow10(28 + Excess(n))
    ensures Pow10(28 + Excess(n)) == LIMIT * Pow10(Excess(n))
    ensures LIMIT / 10 <= Left(n) <= LIMIT
  {
    LimitIsPow10();
    ManyDigits(n, 28);
    DigitCountBounds(n);
    var k := Excess(n);
    Pow10Add(28, k);
    Pow10Add(27, k);
    HalfEvenAtLeast(n, Pow10(k), LIMIT / 10);
    HalfEvenAtMost(n, Pow10(k), LIMIT);
  }

  lemma HalfEvenAtMost(n: nat, p: nat, high: nat)
    requires p > 0 && n < high * p
    ensures HalfEven(n, p) <= high
  {
    CancelFactor(n / p, high, p);
  }

  lemma ContextLeaves(d: Decimal)
    requires d.coeff >= LIMIT
    ensures var n := 100 * d.coeff;
            HalfUpAt(Times100(d), 0) == HalfUpAt(Decimal(Left(n), d.exp + Excess(n)), 0)
  {
    var n := 100 * d.coeff;
    ContextOfLong(n, d.exp);
    HalfUpAtScales(LIMIT / 10, d.exp + Excess(n), 0);
  }

  lemma ContextOfLong(n: nat, exp: int)
    requires n >= LIMIT
    ensures InContext(Decimal(n, exp)) == if Left(n) == LIMIT then Decimal(LIMIT / 10, exp + Excess(n) + 1)
                                          else Decimal(Left(n), exp + Excess(n))
  {
  }

  lemma FiveTens(m: nat)
    requires m > 0
    ensures Pow10(m) == 2 * (5 * Pow10(m - 1)) && 5 * Pow10(m - 1) >= 5
  {
  }

  /** The 28 digits end below the units. */
  lemma EndingInFraction(d: Decimal)
    requires d.coeff >= LIMIT && d.exp + Excess(100 * d.coeff) < 0
    ensures Agree(d) <==> !RoundsTwice(d)
  {
    var n := 100 * d.coeff;
    var k := Excess(n);
    var p, q, m := Pow10(k), Left(n), -(d.exp + k);
    var h := 5 * Pow10(m - 1);
    LongCoefficient(n);
    FiveTens(m);
    Pow10Add(k, m);
    RoundingTwice(n, p, h);
    var c, c' := HalfUp(n, p * (2 * h)), HalfUp(q, 2 * h);
    assert HalfUpAt(d, -2) == c by {
      HundredthsAreUnits(d);
    }
    assert HalfUpAt(Times100(d), 0) == c' by {
      ContextLeaves(d);
    }
    EpayFenCases(d);
    PaypalFenCases(d);
    if RoundsTwice(d) {
      RoundedUpOnto(n, p, q, h);
    }
  }

  lemma RoundedUpOnto(n: nat, p: nat, q: nat, h: nat)
    requires p > 0 && h >= 5 && q <= LIMIT && IsHalf(q, 2 * h) && n < q * p
    ensures p * (2 * h) > 0
    ensures HalfUp(n, p * (2 * h)) <= HalfUp(q, 2 * h) && 0 < HalfUp(q, 2 * h) < LIMIT
  {
    ScaleUp(0, p, 2 * h);
    HalfUpScales(q, 2 * h, p);
    assert 2 * h * p == p * (2 * h);
    HalfUpMonotoneSame(n, q * p, p * (2 * h));
    HalfIsLow(q, h, HalfUp(q, 2 * h));
    ScaleUp(5, h, HalfUp(q, 2 * h));
  }

  /** A half above an even number is rounded to two numbers within the limit. */
  lemma HalfUpOrEvenInLimit(n: nat, p: nat)
    requires p > 0 && n < LIMIT * p
    ensures HalfUp(n, p) == HalfEven(n, p) + if IsHalf(n, p) && n / p % 2 == 0 then 1 else 0
    ensures IsHalf(n, p) && n / p % 2 == 0 ==> HalfUp(n, p) < LIMIT
  {
    HalfUpOrEven(n, p);
    CancelFactor(n / p, LIMIT, p);
    assert LIMIT % 2 == 0;
  }

  lemma UnitsOfLong(d: Decimal)
    requires d.coeff >= LIMIT && d.exp + Excess(100 * d.coeff) == 0
    ensures HalfUpAt(d, -2) == HalfUp(100 * d.coeff, Pow10(Excess(100 * d.coeff)))
    ensures HalfUpAt(Times100(d), 0) == Left(100 * d.coeff)
  {
    LongCoefficient(100 * d.coeff);
    HundredthsAreUnits(d);
    ContextLeaves(d);
    SameExponent(Left(100 * d.coeff), 0);
  }

  /** The 28 digits end at the units. */
  lemma EndingInUnits(d: Decimal)
    requires d.coeff >= LIMIT && d.exp + Excess(100 * d.coeff) == 0
    ensures Agree(d) <==> !RoundsTwice(d)
  {
    var n := 100 * d.coeff;
    LongCoefficient(n);
    UnitsOfLong(d);
    HalfUpOrEvenInLimit(n, Pow10(Excess(n)));
    EpayFenCases(d);
    PaypalFenCases(d);
  }

  /** The 28 digits end above the units: both conversions refuse. */
  lemma EndingAboveUnits(d: Decimal)
    requires d.coeff >= LIMIT && d.exp + Excess(100 * d.coeff) > 0
    ensures EpayFen(d).Failure? && PaypalFen(d).Failure?
  {
    EpayIsLarge(d);
    PaypalIsLarge(d);
    EpayFenCases(d);
    PaypalFenCases(d);
  }

  lemma EpayIsLarge(d: Decimal)
    requires d.coeff >= LIMIT && d.exp + Excess(100 * d.coeff) > 0
    ensures HalfUpAt(d, -2) >= LIMIT
  {
    var n := 100 * d.coeff;
    LongCoefficient(n);
    HundredthsAreUnits(d);
    if d.exp >= 0 {
      ScaleUp(1, Pow10(d.exp), n);
      assert Pow10(d.exp) * n == n * Pow10(d.exp);
    } else {
      LargeQuotient(n, Excess(n), -d.exp);
    }
  }

  lemma PaypalIsLarge(d: Decimal)
    requires d.coeff >= LIMIT && d.exp + Excess(100 * d.coeff) > 0
    ensures HalfUpAt(Times100(d), 0) >= LIMIT
  {
    var n := 100 * d.coeff;
    LongCoefficient(n);
    ContextLeaves(d);
    LargeWithTens(Left(n), d.exp + Excess(n));
  }

  lemma LargeWithTens(q: nat, m: nat)
    requires q >= LIMIT / 10 && m > 0
    ensures q * Pow10(m) >= LIMIT
  {
    FiveTens(m);
    ScaleUp(10, Pow10(m), q);
    assert Pow10(m) * q == q * Pow10(m);
  }

  lemma LargeQuotient(n: nat, k: nat, m: nat)
    requires m < k && n >= Pow10(27 + k)
    ensures HalfUp(n, Pow10(m)) >= LIMIT
  {
    assert LIMIT * Pow10(m) <= n by {
      LimitIsPow10();
      Pow10Monotone(28 + m, 27 + k);
      Pow10Add(28, m);
    }
    HalfUpAtLeast(n, Pow10(m), LIMIT);
  }

  lemma HalfUpAtLeast(n: nat, p: nat, low: nat)
    requires p > 0 && low * p <= n
    ensures HalfUp(n, p) >= low
  {
    var c := HalfUp(n, p);
    HalfUpMeaning(n, p, c);
    assert (c + 1) * p == c * p + p;
    CancelFactor(low, c + 1, p);
  }

  /** On every finite decimal, of any length and magnitude: the two conversions refuse the same values
      and return the same amounts unless the decimal is one of those the context moves across a half. */
  lemma AgreeUnlessRoundedTwice(d: Decimal)
    ensures Agree(d) <==> !RoundsTwice(d)
  {
    if d.coeff < LIMIT {
      if -d.coeff < LIMIT {
        EpayAndPaypalAgree(d);
      } else {
        NegativesAreRefused(d);
      }
    } else if d.exp + Excess(100 * d.coeff) < 0 {
      EndingInFraction(d);
    } else if d.exp + Excess(100 * d.coeff) == 0 {
      EndingInUnits(d);
    } else {
      EndingAboveUnits(d);
    }
  }

  lemma NegativesAreRefused(d: Decimal)
    requires d.coeff <= 0
    ensures EpayFen(d).Failure? && PaypalFen(d).Failure?
  {
    EpayFenCases(d);
    PaypalFenCases(d);
    SignIsKept(d, -2);
    SignIsKept(Times100(d), 0);
  }

  const LONG := Decimal(4_9999999_9999999_9999999_9999996, -31)

  lemma LongTimes100()
    ensures Times100(LONG) == Decimal(LIMIT / 2, -28)
  {
    var n: nat := LONG.coeff * 100;
    LimitIsPow10();
    Pow10Add(28, 3);
    assert Pow10(3) == 1000;
    DigitCountIs(n, 31);
    QuotientIsUnique(n, 1000, 4999999999999999999999999999);
  }

  /** With 29 digits they can differ: 0.00499999999999999999999999999996 is nothing to Epay, while
      the product by 100 rounds to a half and PayPal then rounds that up to one fen. */
  lemma LongDecimalsRoundTwice()
    ensures LONG.coeff >= LIMIT && EpayFen(LONG).Failure? && PaypalFen(LONG) == Success(1)
  {
    LongRoundsUp();
    LongRoundsDown();
    EpayFenCases(LONG);
    PaypalFenCases(LONG);
  }

  lemma LongRoundsUp()
    ensures HalfUpAt(Times100(LONG), 0) == 1
  {
    LimitIsPow10();
    LongTimes100();
    HalfUpMeaning(LIMIT / 2, LIMIT, 1);
  }

  lemma LongRoundsDown()
    ensures HalfUpAt(LONG, -2) == 0
  {
    LimitIsPow10();
    HalfUpMeaning(LONG.coeff, Pow10(29), 0);
  }
}
