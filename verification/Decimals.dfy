/** Python's `decimal` arithmetic as the payment adapters use it: finite decimals, the default
    context of 28 significant digits, half-even for the context and half-up for `quantize`. */
module Decimals {
  import opened Rounding
  import opened Wrappers

  /** The number `coeff * 10^exp`. */
  datatype Decimal = Decimal(coeff: int, exp: int)

  function Pow10(n: nat): (p: nat)
    ensures p >= 1
  {
    if n == 0 then 1 else 10 * Pow10(n - 1)
  }

  const PRECISION := 28
  /** The least coefficient that has more than 28 digits. */
  const LIMIT: nat := 1_0000000_0000000_0000000_0000000

  function DigitCount(n: nat): (d: nat)
    ensures d >= 1
  {
    if n < 10 then 1 else 1 + DigitCount(n / 10)
  }

  function Abs(n: int): nat {
    if n < 0 then -n else n
  }

  function Signed(sign: int, n: int): int {
    if sign < 0 then -n else n
  }

  // ---------------------------------------------------------------- operations

  /** What the context makes of an exact result: more than 28 digits are rounded away half-even. */
  function InContext(d: Decimal): Decimal {
    var n := Abs(d.coeff);
    if n < LIMIT then d
    else
      var k := if DigitCount(n) > PRECISION then DigitCount(n) - PRECISION else 0;
      var q := HalfEven(n, Pow10(k));
      if q == LIMIT then Decimal(Signed(d.coeff, LIMIT / 10), d.exp + k + 1)
      else Decimal(Signed(d.coeff, q), d.exp + k)
  }

  /** `Decimal(n) / Decimal(100)`. */
  function DivideBy100(n: int): Decimal {
    InContext(Decimal(n, -2))
  }

  /** `d * Decimal(100)`. */
  function Times100(d: Decimal): Decimal {
    InContext(Decimal(d.coeff * 100, d.exp))
  }

  /** The coefficient of `d` at exponent `exp`, rounded half up (away from zero). */
  function HalfUpAt(d: Decimal, exp: int): int {
    if d.exp >= exp then d.coeff * Pow10(d.exp - exp)
    else Signed(d.coeff, HalfUp(Abs(d.coeff), Pow10(exp - d.exp)))
  }

  /** `d.quantize(10^exp, ROUND_HALF_UP)`: invalid when the result needs more than 28 digits. */
  function Quantize(d: Decimal, exp: int): Option<Decimal> {
    var c := HalfUpAt(d, exp);
    if Abs(c) < LIMIT then Some(Decimal(c, exp)) else None
  }

  /** `int(d)`: towards zero. */
  function ToInt(d: Decimal): int {
    if d.exp >= 0 then d.coeff * Pow10(d.exp)
    else Signed(d.coeff, Abs(d.coeff) / Pow10(-d.exp))
  }

  /** The number a decimal stands for. */
  ghost function Value(d: Decimal): real {
    if d.exp >= 0 then (d.coeff * Pow10(d.exp)) as real
    else d.coeff as real / Pow10(-d.exp) as real
  }

  // ---------------------------------------------------------------- powers and digits

  lemma {:induction false} Pow10Add(a: nat, b: nat)
    ensures Pow10(a + b) == Pow10(a) * Pow10(b)
  {
    if a > 0 {
      Pow10Add(a - 1, b);
      Reassociate(10, Pow10(a - 1), Pow10(b));
    }
  }

  lemma {:induction false} Pow10Monotone(a: nat, b: nat)
    requires a <= b
    ensures Pow10(a) <= Pow10(b)
  {
    if a < b {
      Pow10Monotone(a, b - 1);
    }
  }

  lemma LimitIsPow10()
    ensures LIMIT == Pow10(28) && LIMIT == 10 * Pow10(27)
    ensures Pow10(29) == 10 * LIMIT && Pow10(30) == 100 * LIMIT
  {
    assert Pow10(7) == 1_0000000;
    Pow10Add(7, 7);
    Pow10Add(14, 14);
    assert Pow10(28) == 10 * Pow10(27);
    assert Pow10(29) == 10 * Pow10(28);
    assert Pow10(30) == 10 * Pow10(29);
  }

  /** A number with d digits lies between the powers of ten d-1 and d. */
  lemma {:induction false} DigitCountBounds(n: nat)
    ensures n < Pow10(DigitCount(n))
    ensures n > 0 ==> Pow10(DigitCount(n) - 1) <= n
  {
    if n >= 10 {
      DigitCountBounds(n / 10);
    }
  }

  lemma DigitCountIs(n: nat, d: nat)
    requires d > 0 && Pow10(d - 1) <= n < Pow10(d)
    ensures DigitCount(n) == d
  {
    DigitCountBounds(n);
    if DigitCount(n) < d {
      Pow10Monotone(DigitCount(n), d - 1);
    } else if DigitCount(n) > d {
      Pow10Monotone(d, DigitCount(n) - 1);
    }
  }

  lemma ManyDigits(n: nat, d: nat)
    requires n >= Pow10(d)
    ensures DigitCount(n) > d
  {
    DigitCountBounds(n);
    if DigitCount(n) <= d {
      Pow10Monotone(DigitCount(n), d);
    }
  }

  // ---------------------------------------------------------------- scaling

  /** Moving a factor of ten between coefficient and exponent does not change the rounded value. */
  lemma HalfUpAtScales(c: int, e: int, exp: int)
    ensures HalfUpAt(Decimal(c * 10, e), exp) == HalfUpAt(Decimal(c, e + 1), exp)
  {
    if e >= exp {
      assert Pow10(e + 1 - exp) == 10 * Pow10(e - exp);
      assert (c * 10) * Pow10(e - exp) == c * (10 * Pow10(e - exp));
    } else if e + 1 == exp {
      assert Pow10(1) == 10 && Pow10(0) == 1;
      HalfUpScales(Abs(c), 1, 10);
    } else {
      assert Pow10(exp - e) == 10 * Pow10(exp - e - 1) == Pow10(exp - e - 1) * 10;
      HalfUpScales(Abs(c), Pow10(exp - e - 1), 10);
    }
  }

  lemma SignOfProduct(c: int, p: nat)
    requires p > 0
    ensures Abs(c * p) == Abs(c) * p && (c * p < 0 <==> c < 0)
  {
    if c < 0 {
      ScaleUp(c, 0, p);
    } else {
      ScaleUp(0, c, p);
    }
  }

  lemma InContextDropsZeros(c: int, k: nat, e: int)
    requires Abs(c) < LIMIT && k > 0 && Pow10(PRECISION + k - 1) <= Abs(c) * Pow10(k) < Pow10(PRECISION + k)
    ensures InContext(Decimal(c * Pow10(k), e)) == Decimal(c, e + k)
  {
    LimitIsPow10();
    Pow10Monotone(PRECISION, PRECISION + k - 1);
    SignOfProduct(c, Pow10(k));
    DigitCountIs(Abs(c) * Pow10(k), PRECISION + k);
    HalfEvenExact(Abs(c), Pow10(k));
  }

  /** For a decimal of at most 28 digits the context keeps the product by 100 exact. */
  lemma Times100IsExact(d: Decimal)
    requires Abs(d.coeff) < LIMIT
    ensures Times100(d) in {
              Decimal(d.coeff * 100, d.exp), Decimal(d.coeff * 10, d.exp + 1), Decimal(d.coeff, d.exp + 2)}
  {
    var n := Abs(d.coeff * 100);
    assert Pow10(1) == 10 && Pow10(2) == 100;
    LimitIsPow10();
    if LIMIT <= n < 10 * LIMIT {
      InContextDropsZeros(d.coeff * 10, 1, d.exp);
    } else if 10 * LIMIT <= n {
      InContextDropsZeros(d.coeff, 2, d.exp);
    }
  }

  /** So scaling and then rounding to a unit is rounding to a hundredth. */
  lemma ScaleThenRound(d: Decimal)
    requires Abs(d.coeff) < LIMIT
    ensures HalfUpAt(Times100(d), 0) == HalfUpAt(d, -2)
  {
    Times100IsExact(d);
    HalfUpAtScales(d.coeff, d.exp + 1, 0);
    HalfUpAtScales(d.coeff * 10, d.exp, 0);
    assert HalfUpAt(Decimal(d.coeff, d.exp + 2), 0) == HalfUpAt(d, -2);
  }

  lemma SameExponent(c: int, exp: int)
    ensures HalfUpAt(Decimal(c, exp), exp) == c
  {
    assert Pow10(0) == 1;
  }

  /** A hundredth scaled by 100 and truncated is its own coefficient. */
  lemma HundredthsToInt(c: int)
    requires Abs(c) < LIMIT
    ensures ToInt(Times100(Decimal(c, -2))) == c
  {
    Times100IsExact(Decimal(c, -2));
    assert Pow10(0) == 1 && Pow10(1) == 10 && Pow10(2) == 100;
  }

  // ---------------------------------------------------------------- meaning

  /** Rounding a non-negative decimal to hundredths is floor(100v + 1/2). */
  lemma HundredthsAreFloor(d: Decimal)
    requires d.coeff >= 0
    ensures HalfUpAt(d, -2) == (100.0 * Value(d) + 0.5).Floor
  {
    if d.exp >= 0 {
      Pow10Add(d.exp, 2);
      assert Pow10(2) == 100;
      WholeHundredths(d.coeff, Pow10(d.exp));
    } else if d.exp >= -2 {
      assert Pow10(0) == 1 && Pow10(1) == 10 && Pow10(2) == 100;
    } else {
      var p := Pow10(-d.exp - 2);
      Pow10Add(-d.exp - 2, 2);
      assert Pow10(2) == 100 && Pow10(-d.exp) == p * 100;
      HalfUpIsFloor(d.coeff, p);
      HundredTimesQuotient(d.coeff, p);
    }
  }

  lemma WholeHundredths(c: nat, p: nat)
    ensures (100.0 * (c * p) as real + 0.5).Floor == c * (p * 100)
  {
    var m := c * p;
    assert c * (p * 100) == 100 * m;
    FloorIs(100.0 * m as real + 0.5, 100 * m);
  }

  lemma HundredTimesQuotient(c: nat, p: nat)
    requires p > 0
    ensures 100.0 * (c as real / (p * 100) as real) == c as real / p as real
  {
    var x, y := c as real / (p * 100) as real, c as real / p as real;
    var b := p as real;
    assert (p * 100) as real == 100.0 * b;
    assert x * (100.0 * b) == c as real;
    assert y * b == c as real;
    assert (100.0 * x) * b == x * (100.0 * b);
    RealCancel(100.0 * x, y, b);
  }

  /** The context leaves 28 digits of a longer coefficient and moves the others to the exponent. */
  lemma InContextKeepsDigits(d: Decimal, more: nat)
    requires d.coeff >= Pow10(PRECISION + more)
    ensures InContext(d).coeff >= LIMIT / 10 && InContext(d).exp > d.exp + more
  {
    LimitIsPow10();
    Pow10Monotone(PRECISION, PRECISION + more);
    ManyDigits(d.coeff, PRECISION + more);
    DigitCountBounds(d.coeff);
    var k := DigitCount(d.coeff) - PRECISION;
    Pow10Add(27, k);
    HalfEvenAtLeast(d.coeff, Pow10(k), LIMIT / 10);
  }

  /** So a value of at least `LIMIT * 10^exp` is not brought back under that by the context. */
  lemma InContextStaysLarge(d: Decimal, more: nat)
    requires d.coeff >= Pow10(PRECISION + more)
    ensures HalfUpAt(InContext(d), d.exp + more) >= LIMIT
  {
    InContextKeepsDigits(d, more);
    var r := InContext(d);
    var p := Pow10(r.exp - (d.exp + more));
    Pow10Monotone(1, r.exp - (d.exp + more));
    assert Pow10(1) == 10 && p >= 10;
    ScaleUp(10, p, r.coeff);
    assert p * r.coeff == r.coeff * p && 10 * r.coeff >= LIMIT;
  }

  lemma LargeInContext(d: Decimal)
    requires d.coeff >= LIMIT
    ensures InContext(d).coeff >= 0 && InContext(d).exp >= d.exp && HalfUpAt(InContext(d), d.exp) >= LIMIT
  {
    LimitIsPow10();
    InContextKeepsDigits(d, 0);
    InContextStaysLarge(d, 0);
  }

  /** A positive amount divided by 100 keeps its hundredths below the limit, and from the limit on
      has at least that many. */
  lemma DivideBy100Facts(amount: int)
    requires amount > 0
    ensures DivideBy100(amount).coeff >= 0 && DivideBy100(amount).exp >= -2
    ensures amount < LIMIT ==> HalfUpAt(DivideBy100(amount), -2) == amount
    ensures amount >= LIMIT ==> HalfUpAt(DivideBy100(amount), -2) >= LIMIT
  {
    if amount < LIMIT {
      SameExponent(amount, -2);
    } else {
      LargeInContext(Decimal(amount, -2));
    }
  }
}
