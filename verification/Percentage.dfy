/**
safe_percentage: a percentage of two 64-bit numbers with 32-bit arithmetic only.
Source: kernel/system_stats.c.
*/
module Percentage {
  const TWO32 := 0x1_0000_0000
  const TWO64 := 0x1_0000_0000_0000_0000
  const LIMIT := 0x7FFF_FFFF / 100

  /** The whole part of n / d. */
  function Floor(n: nat, d: nat): (q: nat)
    requires d > 0
    ensures q * d <= n < (q + 1) * d
  {
    n / d
  }

  /** The loop that halves both numbers until they fit 32 bits. */
  function Narrow(a: nat, b: nat): (nat, nat)
    decreases a + b
  {
    if a >= TWO32 || b >= TWO32 then Narrow(a / 2, b / 2) else (a, b)
  }

  /** The further reduction of a large numerator. */
  function Trim(a: nat, b: nat): (nat, nat) {
    if a > LIMIT then (a / 256, b / 256) else (a, b)
  }

  /** The division at the end; the product wraps at 32 bits. */
  function Ratio(u: nat, v: nat): nat {
    if v == 0 then 0 else Floor(u * 100 % TWO32, v)
  }

  function Percent(a: nat, b: nat): nat {
    if b == 0 then 0
    else
      var (x, y) := Narrow(a, b);
      var (u, v) := Trim(x, y);
      Ratio(u, v)
  }

  method NarrowBoth(a: nat, b: nat) returns (x: nat, y: nat)
    ensures (x, y) == Narrow(a, b)
  {
    x, y := a, b;
    while x > 0xFFFF_FFFF || y > 0xFFFF_FFFF
      invariant Narrow(x, y) == Narrow(a, b)
      decreases x + y
    {
      x := x / 2;
      y := y / 2;
    }
  }

  method SafePercentage(a: nat, b: nat) returns (r: nat)
    requires a < TWO64 && b < TWO64
    ensures r == Percent(a, b)
  {
    hide Narrow;
    hide Floor;
    if b == 0 {
      return 0;
    }
    var x, y := NarrowBoth(a, b);
    if x > 0x7FFF_FFFF / 100 {
      x := x / 256;
      y := y / 256;
    }
    if y == 0 {
      return 0;
    }
    r := Floor(x * 100 % TWO32, y);
  }

  // ---- both numbers are divided by the same power of two ----

  /** x and y are a and b divided by p. */
  predicate Scaled(a: nat, b: nat, x: nat, y: nat, p: nat) {
    && 0 < p
    && x * p <= a < (x + 1) * p
    && y * p <= b < (y + 1) * p
  }

  lemma ScaleHalf(a: nat, b: nat, x: nat, y: nat, p: nat)
    requires Scaled(a / 2, b / 2, x, y, p)
    ensures Scaled(a, b, x, y, 2 * p)
  {
    assert x * (2 * p) == 2 * (x * p) && (x + 1) * (2 * p) == 2 * ((x + 1) * p);
    assert y * (2 * p) == 2 * (y * p) && (y + 1) * (2 * p) == 2 * ((y + 1) * p);
  }

  /** The halving loop divides by some power of two, and leaves a divisor of at least 2^31 if it did anything. */
  lemma {:induction false} NarrowScales(a: nat, b: nat) returns (p: nat)
    requires a <= b
    ensures var (x, y) := Narrow(a, b);
            && Scaled(a, b, x, y, p) && x <= y < TWO32
            && (p == 1 ==> x == a && y == b) && (p > 1 ==> y >= TWO32 / 2)
            && (b < TWO32 ==> p == 1)
    decreases a + b
  {
    if b >= TWO32 {
      var q := NarrowScales(a / 2, b / 2);
      ScaleHalf(a, b, Narrow(a, b).0, Narrow(a, b).1, q);
      p := 2 * q;
    } else {
      p := 1;
    }
  }

  lemma MulMonotone(i: nat, j: nat, p: nat)
    requires i <= j
    ensures i * p <= j * p
  {
  }

  lemma ScaleStep(a: nat, x: nat, p: nat, u: nat)
    requires 0 < p && x * p <= a < (x + 1) * p && u == x / 256
    ensures u * (256 * p) <= a < (u + 1) * (256 * p)
  {
    var low := x - 256 * u;
    assert x * p == u * (256 * p) + low * p && 0 <= low * p;
    assert (x + 1) * p == u * (256 * p) + (low + 1) * p;
    assert (u + 1) * (256 * p) == u * (256 * p) + 256 * p;
    MulMonotone(low + 1, 256, p);
  }

  lemma ScaleMore(a: nat, b: nat, x: nat, y: nat, p: nat)
    requires Scaled(a, b, x, y, p)
    ensures Scaled(a, b, x / 256, y / 256, 256 * p)
  {
    var u, v := x / 256, y / 256;
    ScaleStep(a, x, p, u);
    ScaleStep(b, y, p, v);
  }

  /**
  After both reductions: the same scale for both, a small numerator, and a divisor of
  at least 83886 if anything was dropped.
  */
  lemma TrimScales(a: nat, b: nat) returns (u: nat, v: nat, p: nat)
    requires a <= b && b > 0
    ensures (u, v) == Trim(Narrow(a, b).0, Narrow(a, b).1)
    ensures Scaled(a, b, u, v, p) && u <= v && u <= LIMIT && v > 0
    ensures p == 1 ==> u == a && v == b
    ensures p > 1 ==> v >= 83886
    ensures b < TWO32 && a <= LIMIT ==> p == 1
  {
    p := NarrowScales(a, b);
    var (x, y) := Narrow(a, b);
    u, v := x, y;
    if x > LIMIT {
      ScaleMore(a, b, x, y, p);
      u, v, p := x / 256, y / 256, 256 * p;
    }
  }

  // ---- the error bound ----

  lemma CancelRight(i: nat, j: nat, k: nat)
    requires i * k < j * k
    ensures i < j
  {
    if j <= i { MulMonotone(j, i, k); }
  }

  /** (i * j) * k with the factors in another order. */
  lemma Swap(i: nat, j: nat, k: nat)
    ensures i * j * k == i * k * j
  {
  }

  lemma StrictProduct(i: nat, j: nat, k: nat)
    requires i < j && k > 0
    ensures i * k < j * k
  {
    MulMonotone(i + 1, j, k);
    assert (i + 1) * k == i * k + k;
  }

  lemma CrossUpper(a: nat, b: nat, u: nat, v: nat, p: nat)
    requires Scaled(a, b, u, v, p) && v > 0
    ensures a * v < (u + 1) * b
  {
    calc {
      a * v;
    <  { StrictProduct(a, (u + 1) * p, v); }
      (u + 1) * p * v;
    ==
      (u + 1) * (v * p);
    <= { MulMonotone(v * p, b, u + 1); }
      (u + 1) * b;
    }
  }

  lemma CrossLower(a: nat, b: nat, u: nat, v: nat, p: nat)
    requires Scaled(a, b, u, v, p)
    ensures u * b <= a * (v + 1)
  {
    calc {
      u * b;
    <= { MulMonotone(b, (v + 1) * p, u); }
      u * ((v + 1) * p);
    ==
      u * p * (v + 1);
    <= { MulMonotone(u * p, a, v + 1); }
      a * (v + 1);
    }
  }

  lemma ScaledBelow(a: nat, b: nat, u: nat, v: nat, exact: nat)
    requires a * v < (u + 1) * b && exact * b <= 100 * a
    ensures exact * v < 100 * u + 100
  {
    calc {
      exact * v * b;
    == { Swap(exact, v, b); }
      exact * b * v;
    <= { MulMonotone(exact * b, 100 * a, v); }
      100 * a * v;
    ==
      100 * (a * v);
    <
      100 * ((u + 1) * b);
    ==
      (100 * u + 100) * b;
    }
    CancelRight(exact * v, 100 * u + 100, b);
  }

  /** The scaled quotient is at most one too small. */
  lemma NotMuchBelow(a: nat, b: nat, u: nat, v: nat, p: nat, r: nat, exact: nat)
    requires Scaled(a, b, u, v, p) && v >= 100
    requires 100 * u < (r + 1) * v && exact * b <= 100 * a
    ensures exact <= r + 1
  {
    CrossUpper(a, b, u, v, p);
    hide Scaled;
    ScaledBelow(a, b, u, v, exact);
    assert (r + 2) * v == (r + 1) * v + v;
    CancelRight(exact, r + 2, v);
  }

  /** And at most one too large. */
  lemma NotMuchAbove(a: nat, b: nat, u: nat, v: nat, p: nat, r: nat, exact: nat)
    requires Scaled(a, b, u, v, p) && v >= 100 && r <= 100
    requires r * v <= 100 * u && 100 * a < (exact + 1) * b
    ensures r <= exact + 1
  {
    CrossLower(a, b, u, v, p);
    calc {
      r * v * b;
    <= { MulMonotone(r * v, 100 * u, b); }
      100 * u * b;
    ==
      100 * (u * b);
    <=
      100 * (a * (v + 1));
    ==
      100 * a * (v + 1);
    <  { StrictProduct(100 * a, (exact + 1) * b, v + 1); }
      (exact + 1) * b * (v + 1);
    == { Swap(exact + 1, b, v + 1); }
      (exact + 1) * (v + 1) * b;
    }
    CancelRight(r * v, (exact + 1) * (v + 1), b);
    assert (exact + 2) * v == (exact + 1) * v + v;
    assert (exact + 1) * (v + 1) == (exact + 1) * v + exact + 1;
    if r >= exact + 2 {
      MulMonotone(exact + 2, r, v);
    }
  }

  /** The same for quotients given by what makes them quotients. */
  lemma QuotientsClose(a: nat, b: nat, u: nat, v: nat, p: nat, r: nat, exact: nat)
    requires Scaled(a, b, u, v, p) && u <= v && v > 0 && b > 0
    requires (p == 1 ==> u == a && v == b) && (p > 1 ==> v >= 83886)
    requires r * v <= 100 * u < (r + 1) * v && exact * b <= 100 * a < (exact + 1) * b
    ensures r <= 100 && exact - 1 <= r <= exact + 1 && (p == 1 ==> r == exact)
  {
    if r > 100 { MulMonotone(101, r, v); }
    if p > 1 {
      NotMuchBelow(a, b, u, v, p, r, exact);
      NotMuchAbove(a, b, u, v, p, r, exact);
    } else {
      CancelRight(r, exact + 1, b);
      CancelRight(exact, r + 1, b);
    }
  }

  lemma RatioIs(u: nat, v: nat)
    requires u <= LIMIT && v > 0
    ensures u * 100 < TWO32 && Ratio(u, v) * v <= 100 * u < (Ratio(u, v) + 1) * v
  {
    hide Floor;
  }

  /**
  For a part of a whole the loop and the 32-bit product are safe, the result is
  at most 100 and at most one away from the exact percentage, and it is the exact
  one when neither reduction is taken.
  */
  lemma Accurate(a: nat, b: nat)
    requires a <= b && 0 < b < TWO64
    ensures var (u, v) := Trim(Narrow(a, b).0, Narrow(a, b).1); u * 100 < TWO32 && v > 0
    ensures Percent(a, b) <= 100
    ensures Floor(100 * a, b) - 1 <= Percent(a, b) <= Floor(100 * a, b) + 1
    ensures b < TWO32 && a <= LIMIT ==> Percent(a, b) == Floor(100 * a, b)
  {
    var u, v, p := TrimScales(a, b);
    hide Narrow;
    hide Trim;
    hide Floor;
    hide Scaled;
    var exact := Floor(100 * a, b);
    RatioIs(u, v);
    hide Ratio;
    QuotientsClose(a, b, u, v, p, Ratio(u, v), exact);
  }

  /** The bound is met: one too small when the numerator is trimmed. */
  lemma NotAlwaysExact()
    ensures Percent(25344254, 25600256) == 98 && Floor(100 * 25344254, 25600256) == 99
  {
    var a, b := 25344254, 25600256;
    assert Narrow(a, b) == (a, b) && Trim(a, b) == (99000, 100001);
    hide Narrow;
    hide Trim;
    assert 99000 * 100 % TWO32 / 100001 == 98;
    assert 100 * a / b == 99;
  }

  lemma NotLarger(n: nat, d: nat, q: nat)
    requires d > 0 && q * d <= n
    ensures q <= n
  {
    MulMonotone(1, d, q);
  }

  /** Whatever the numbers, the result is a 32-bit number. */
  lemma PercentSmall(a: nat, b: nat)
    ensures Percent(a, b) < TWO32
  {
    hide Narrow;
    hide Trim;
    var (x, y) := Narrow(a, b);
    var (u, v) := Trim(x, y);
    hide Floor;
    if v > 0 { NotLarger(u * 100 % TWO32, v, Floor(u * 100 % TWO32, v)); }
  }
}
