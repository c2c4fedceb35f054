/** Division of naturals to the nearest integer, and its meaning. */
module Rounding {

  /** `n / p` to the nearest integer, ties to the even one. */
  function HalfEven(n: nat, p: nat): nat
    requires p > 0
  {
    var q, r := n / p, n % p;
    if 2 * r > p || (2 * r == p && q % 2 == 1) then q + 1 else q
  }

  /** `n / p` to the nearest integer, ties upward. */
  function HalfUp(n: nat, p: nat): nat
    requires p > 0
  {
    (2 * n + p) / (2 * p)
  }

  lemma CancelFactor(a: int, b: int, p: nat)
    requires a * p < b * p
    ensures a < b
  {
  }

  lemma ScaleUp(a: int, b: int, p: nat)
    requires a <= b
    ensures a * p <= b * p
    ensures a < b && p > 0 ==> a * p < b * p
  {
  }

  lemma QuotientIsUnique(n: nat, p: nat, q: nat)
    requires p > 0 && q * p <= n < q * p + p
    ensures n / p == q && n % p == n - q * p
  {
    var d := n / p;
    assert d * p <= n < d * p + p;
    assert (d + 1) * p == d * p + p && (q + 1) * p == q * p + p;
    CancelFactor(d, q + 1, p);
    CancelFactor(q, d + 1, p);
  }

  /** Rounding half up gives the one integer r with r - 1/2 <= n/p < r + 1/2. */
  lemma HalfUpMeaning(n: nat, p: nat, r: nat)
    requires p > 0
    ensures r == HalfUp(n, p) <==> 2 * (r * p) <= 2 * n + p < 2 * (r * p) + 2 * p
  {
    var q := HalfUp(n, p);
    assert q * (2 * p) <= 2 * n + p < q * (2 * p) + 2 * p;
    assert q * (2 * p) == 2 * (q * p);
    if 2 * (r * p) <= 2 * n + p < 2 * (r * p) + 2 * p {
      assert r * (2 * p) == 2 * (r * p) && (r + 1) * (2 * p) == 2 * (r * p) + 2 * p;
      QuotientIsUnique(2 * n + p, 2 * p, r);
    }
  }

  lemma ScaleInequality(x: int, n: int, p: nat, s: nat)
    requires 2 * x <= 2 * n + p < 2 * x + 2 * p && s > 0
    ensures 2 * (x * s) <= 2 * (n * s) + p * s < 2 * (x * s) + 2 * (p * s)
  {
    var low, high := 2 * n + p - 2 * x, 2 * x + p - 2 * n;
    ScaleUp(0, low, s);
    ScaleUp(0, high, s);
    assert low * s == 2 * (n * s) + p * s - 2 * (x * s);
    assert high * s == 2 * (x * s) + p * s - 2 * (n * s);
  }

  lemma Reassociate(a: int, b: int, c: int)
    ensures a * (b * c) == (a * b) * c
  {
  }

  lemma HalfUpScales(n: nat, p: nat, s: nat)
    requires p > 0 && s > 0
    ensures p * s > 0 && HalfUp(n * s, p * s) == HalfUp(n, p)
  {
    var r := HalfUp(n, p);
    HalfUpMeaning(n, p, r);
    ScaleInequality(r * p, n, p, s);
    Reassociate(r, p, s);
    ScaleUp(0, p, s);
    HalfUpMeaning(n * s, p * s, r);
  }

  lemma HalfUpMonotoneSame(n: nat, n': nat, p: nat)
    requires p > 0 && n <= n'
    ensures HalfUp(n, p) <= HalfUp(n', p)
  {
    var r, r' := HalfUp(n, p), HalfUp(n', p);
    HalfUpMeaning(n, p, r);
    HalfUpMeaning(n', p, r');
    assert (r' + 1) * p == r' * p + p;
    CancelFactor(r, r' + 1, p);
  }

  /** Half-even rounding of an exact multiple changes nothing. */
  lemma HalfEvenExact(q: nat, p: nat)
    requires p > 0
    ensures HalfEven(q * p, p) == q
  {
    QuotientIsUnique(q * p, p, q);
  }

  /** Half-even rounding stays within half a unit, and at half a unit it is even. */
  lemma HalfEvenMeaning(n: nat, p: nat)
    requires p > 0
    ensures var r := HalfEven(n, p);
            && 2 * (r * p) <= 2 * n + p
            && 2 * n <= 2 * (r * p) + p
            && (2 * n + p == 2 * (r * p) || 2 * n == 2 * (r * p) + p ==> r % 2 == 0)
  {
    var q, rest := n / p, n % p;
    assert n == q * p + rest;
    assert (q + 1) * p == q * p + p;
  }

  lemma HalfEvenAtLeast(n: nat, p: nat, low: nat)
    requires p > 0 && low * p <= n
    ensures HalfEven(n, p) >= low
  {
    var q := n / p;
    assert n < q * p + p && (q + 1) * p == q * p + p;
    CancelFactor(low, q + 1, p);
  }

  lemma RealCancel(x: real, y: real, b: real)
    requires b > 0.0
    ensures x * b < y * b ==> x < y
    ensures x * b == y * b ==> x == y
  {
  }

  lemma FloorIs(x: real, q: int)
    requires q as real <= x < q as real + 1.0
    ensures x.Floor == q
  {
  }

  lemma RealQuotient(a: int, b: nat, q: int)
    requires b > 0 && q * b <= a < q * b + b
    ensures (a as real / b as real).Floor == q
  {
    var x, y, k := a as real / b as real, b as real, q as real;
    var m := q * b;
    assert x * y == a as real;
    assert k * y == m as real;
    assert (k + 1.0) * y == k * y + y;
    assert m as real <= a as real < m as real + y;
    RealCancel(x, k + 1.0, y);
    RealCancel(k, x, y);
    assert k <= x < k + 1.0;
    FloorIs(x, q);
  }

  lemma HalfMore(n: nat, p: nat)
    requires p > 0
    ensures n as real / p as real + 0.5 == (2 * n + p) as real / (2 * p) as real
  {
    var y := p as real;
    var x, z := n as real / y, (2 * n + p) as real / (2.0 * y);
    assert x * y == n as real;
    assert z * (2.0 * y) == 2.0 * n as real + y;
    assert (x + 0.5) * (2.0 * y) == 2.0 * (x * y) + y;
    RealCancel(x + 0.5, z, 2.0 * y);
  }

  /** Rounding half up is floor(x + 1/2). */
  lemma HalfUpIsFloor(n: nat, p: nat)
    requires p > 0
    ensures (n as real / p as real + 0.5).Floor == HalfUp(n, p)
  {
    var r := HalfUp(n, p);
    HalfUpMeaning(n, p, r);
    Reassociate(r, 2, p);
    Reassociate(2, r, p);
    RealQuotient(2 * n + p, 2 * p, r);
    HalfMore(n, p);
  }
}
