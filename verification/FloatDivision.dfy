/**
 Integer floor division carried out in 64-bit floating point: exact for operands up to
 2^53, and only up to there. Rounding is to a nearest representable value (section
 4.3.1 of IEEE 754-2019), whatever the rule for ties.
 */
module FloatDivision {
  import opened Arithmetic
  import opened Sums

  /** The largest magnitude below which every integer is representable. */
  const LIMIT := 9007199254740992

  function Pow2(k: nat): (p: nat)
    ensures p > 0
  {
    if k == 0 then 1 else 2 * Pow2(k - 1)
  }

  function Abs(x: real): (r: real) {
    if x < 0.0 then -x else x
  }

  predicate IsSignificand(n: int) {
    -LIMIT <= n <= LIMIT
  }

  predicate IsScaledUp(r: real, n: int, k: nat) {
    r == Times(n as real, Pow2(k) as real)
  }

  predicate IsScaledDown(r: real, n: int, k: nat) {
    Times(r, Pow2(k) as real) == n as real
  }

  /** A representable value: a significand scaled by a power of two in range. The largest power
      takes no significand of 2^53. */
  ghost predicate IsDouble(r: real) {
    || (exists n: int, k: nat :: IsSignificand(n) && InReach(n, k) && IsScaledUp(r, n, k))
    || (exists n: int, k: nat :: IsSignificand(n) && k <= 1074 && IsScaledDown(r, n, k))
  }

  predicate InReach(n: int, k: nat) {
    k <= 970 || (k == 971 && -LIMIT < n < LIMIT)
  }

  /** `y` is a representable value nearest to `q`. */
  ghost predicate RoundsTo(q: real, y: real) {
    IsDouble(y) && forall z: real :: IsDouble(z) ==> Abs(q - y) <= Abs(q - z)
  }

  lemma IntegersAreDoubles(n: int)
    requires IsSignificand(n)
    ensures IsDouble(n as real)
  {
    assert Pow2(0) == 1;
    assert IsScaledUp(n as real, n, 0);
  }

  lemma DyadicsAreDoubles(n: int, k: nat)
    requires IsSignificand(n) && k <= 1074
    ensures IsDouble(n as real / Pow2(k) as real)
  {
    DividedBack(n, Pow2(k));
    assert IsScaledDown(n as real / Pow2(k) as real, n, k);
  }

  /** Conversion of an operand within the limit is exact. */
  lemma ConversionIsExact(x: int, xf: real)
    requires IsSignificand(x) && RoundsTo(x as real, xf)
    ensures xf == x as real
  {
    IntegersAreDoubles(x);
  }

  /** The largest power of two not above `m`. */
  lemma PowerBelow(m: nat) returns (k: nat)
    requires 1 <= m <= LIMIT
    ensures Pow2(k) <= m < 2 * Pow2(k) && k <= 53
  {
    k := PowerSearch(m, 0);
  }

  lemma PowerSearch(m: nat, from: nat) returns (k: nat)
    requires 1 <= m <= LIMIT && Pow2(from) <= m && from <= 53
    ensures Pow2(k) <= m < 2 * Pow2(k) && k <= 53
    decreases 53 - from
  {
    if m < 2 * Pow2(from) {
      k := from;
    } else {
      FiftyThree();
      PowGrows(from, 53);
      k := PowerSearch(m, from + 1);
    }
  }

  lemma {:induction false} PowGrows(a: nat, b: nat)
    requires a <= b
    ensures Pow2(a) <= Pow2(b)
  {
    if a < b { PowGrows(a, b - 1); }
  }

  lemma {:induction false} PowAdd(a: nat, b: nat)
    ensures Pow2(a + b) == Pow2(a) * Pow2(b)
  {
    if b > 0 {
      PowAdd(a, b - 1);
      assert Pow2(a + b) == 2 * Pow2(a + b - 1);
    }
  }

  lemma TenBits()
    ensures Pow2(10) == 1024
  {
    assert Pow2(5) == 32;
    assert Pow2(10) == 32 * Pow2(5);
  }

  lemma FiftyThree()
    ensures Pow2(53) == LIMIT
  {
    TenBits();
    PowAdd(10, 10);
    assert Pow2(20) == 1048576;
    PowAdd(20, 20);
    assert Pow2(40) == 1099511627776;
    PowAdd(40, 10);
    assert Pow2(50) == 1125899906842624;
    PowAdd(50, 3);
    assert Pow2(3) == 8;
  }

  // ----- the quotient -----

  lemma CancelLess(a: int, b: int, m: nat)
    requires a * m < b * m
    ensures a < b
  {
    if b <= a { MulMono(b, a, m); }
  }

  /** The integer nearest to `a / m`. */
  lemma Nearest(a: int, m: nat) returns (n: int)
    requires m > 0 && -LIMIT * m <= a <= LIMIT * m
    ensures 2 * (a - n * m) <= m && 2 * (n * m - a) <= m && IsSignificand(n)
  {
    var f, r := a / m, a % m;
    assert a == f * m + r;
    assert (f + 1) * m == f * m + m;
    CancelLess(-LIMIT, f + 1, m);
    if 2 * r <= m {
      n := f;
      assert (LIMIT + 1) * m == LIMIT * m + m;
      CancelLess(f, LIMIT + 1, m);
    } else {
      n := f + 1;
      CancelLess(f, LIMIT, m);
    }
  }

  // ----- real arithmetic, one product at a time -----

  lemma TimesMono(a: real, b: real, c: real)
    requires a <= b && c >= 0.0
    ensures Times(a, c) <= Times(b, c)
  {
  }

  lemma TimesLess(a: real, b: real, c: real)
    requires a < b && c > 0.0
    ensures Times(a, c) < Times(b, c)
  {
  }

  lemma TimesInts(a: int, b: int)
    ensures Times(a as real, b as real) == (a * b) as real
  {
  }

  lemma TimesSpread(q: real, z: real, G: real, M: real)
    ensures Times(Times(q - z, G), M) == Times(Times(q, M), G) - Times(Times(z, G), M)
  {
  }

  lemma TimesOne(M: real)
    ensures Times(1.0, M) == M && Times(-1.0, M) == -M && Times(0.0, M) == 0.0
  {
  }

  lemma TimesDouble(u: real, M: real)
    ensures Times(2.0 * u, M) == 2.0 * Times(u, M) && Times(-2.0 * u, M) == -2.0 * Times(u, M)
  {
  }

  /** The dyadic `z = n / g` is within half a grid step of `q = x / m`. */
  lemma GridDistance(q: real, z: real, x: int, m: nat, n: int, g: nat)
    requires m > 0 && g > 0 && Times(q, m as real) == x as real && Times(z, g as real) == n as real
    requires 2 * (x * g - n * m) <= m && 2 * (n * m - x * g) <= m
    ensures 2.0 * Times(Abs(q - z), g as real) <= 1.0
  {
    var M, G := m as real, g as real;
    TimesSpread(q, z, G, M);
    TimesInts(x, g);
    TimesInts(n, m);
    var u := Times(q - z, G);
    assert Times(u, M) == (x * g - n * m) as real;
    HalfStep(u, M);
    AbsTimes(q - z, G);
  }

  lemma AbsTimes(d: real, G: real)
    requires G > 0.0
    ensures Times(Abs(d), G) == Abs(Times(d, G))
  {
    TimesOne(G);
    if d < 0.0 {
      TimesLess(d, 0.0, G);
      assert Times(-d, G) == -Times(d, G);
    } else {
      TimesMono(0.0, d, G);
    }
  }

  lemma HalfStep(u: real, M: real)
    requires M > 0.0 && 2.0 * Times(u, M) <= M && -2.0 * Times(u, M) <= M
    ensures 2.0 * Abs(u) <= 1.0
  {
    TimesOne(M);
    TimesDouble(u, M);
    if 2.0 * u > 1.0 { TimesLess(1.0, 2.0 * u, M); }
    if -2.0 * u > 1.0 { TimesLess(1.0, -2.0 * u, M); }
  }

  /** The next integer is at least `1 / m` away from `x / m`, further than any half step. */
  lemma NextIntegerIsFar(q: real, x: int, m: nat, c: int, g: nat, d: real)
    requires m > 0 && Times(q, m as real) == x as real && c * m >= x + 1 && m < 2 * g
    requires d >= 0.0 && 2.0 * Times(d, g as real) <= 1.0
    ensures d < c as real - q
  {
    var M, G := m as real, g as real;
    var w := c as real - q;
    TimesInts(c, m);
    assert Times(w, M) == Times(c as real, M) - Times(q, M);
    assert Times(w, M) >= 1.0;
    TimesOne(M);
    assert w > 0.0 by {
      if w <= 0.0 { TimesMono(w, 0.0, M); }
    }
    TimesCommute(w, M);
    TimesCommute(w, 2.0 * G);
    TimesLess(M, 2.0 * G, w);
    assert Times(w, 2.0 * G) == 2.0 * Times(w, G);
    if d >= w { TimesMono(w, d, G); }
  }

  lemma TimesCommute(a: real, b: real)
    ensures Times(a, b) == Times(b, a)
  {
  }

  lemma FloorSignificand(x: int, m: nat)
    requires m > 0 && IsSignificand(x)
    ensures IsSignificand(x / m)
  {
    var f := x / m;
    assert f * m <= x < f * m + m;
    assert (f + 1) * m == f * m + m;
    MulMono(-LIMIT, -LIMIT, m);
    if x >= 0 {
      CancelLess(-1, f, m);
      MulMono(f, f, m);
      if f > x { MulMono(x + 1, f, m); MulOne(x + 1, m); }
    } else {
      CancelLess(f, 0, m);
      if f < x { MulMono(f + 1, x, m); MulNegative(x, m); }
    }
  }

  lemma FloorBelow(q: real, x: int, m: nat)
    requires m > 0 && Times(q, m as real) == x as real
    ensures (x / m) as real <= q
  {
    var f := x / m;
    TimesInts(f, m);
    assert f * m <= x;
    if f as real > q {
      TimesLess(q, f as real, m as real);
    }
  }

  lemma RoundedNotAbove(x: int, m: nat, q: real, y: real)
    requires IsSignificand(x) && 1 <= m <= LIMIT && Times(q, m as real) == x as real && RoundsTo(q, y)
    ensures y < (x / m + 1) as real
  {
    var k := PowerBelow(m);
    var g := Pow2(k);
    GridBound(x, g, m);
    var n := Nearest(x * g, m);
    var z := n as real / g as real;
    DyadicsAreDoubles(n, k);
    DividedBack(n, g);
    GridDistance(q, z, x, m, n, g);
    var c := x / m + 1;
    NextMultiple(x, m);
    NextIntegerIsFar(q, x, m, c, g, Abs(q - z));
    assert Abs(q - y) <= Abs(q - z);
  }

  lemma DividedBack(n: int, g: nat)
    requires g > 0
    ensures Times(n as real / g as real, g as real) == n as real
  {
  }

  lemma NextMultiple(x: int, m: nat)
    requires m > 0
    ensures (x / m + 1) * m >= x + 1
  {
    var f := x / m;
    assert (f + 1) * m == f * m + m;
  }

  lemma GridBound(x: int, g: nat, m: nat)
    requires IsSignificand(x) && g <= m
    ensures -LIMIT * m <= x * g <= LIMIT * m
  {
    MulMono(-LIMIT, x, g);
    MulMono(x, LIMIT, g);
  }

  /** The two roundings of the computation: operand to floating point, then the quotient. */
  ghost predicate Computes(x: int, m: nat, xf: real, y: real)
    requires m > 0
  {
    RoundsTo(x as real, xf) && RoundsTo(xf / m as real, y)
  }

  /** Within the limit the floating-point quotient, rounded twice, has the exact floor. */
  lemma FloorDivisionIsExact(x: int, m: nat, xf: real, y: real)
    requires IsSignificand(x) && 1 <= m <= LIMIT && Computes(x, m, xf, y)
    ensures y.Floor == x / m
  {
    ConversionIsExact(x, xf);
    var q := xf / m as real;
    DividedBack(x, m);
    FloorBelow(q, x, m);
    FloorSignificand(x, m);
    RoundedNotAbove(x, m, q, y);
    IntegersAreDoubles(x / m);
    assert Abs(q - y) <= Abs(q - (x / m) as real);
  }

  // ----- and no further -----

  /** Above the limit only even integers are representable. */
  lemma NoDoubleInGap(z: real, e: nat)
    requires e % 2 == 0 && (LIMIT + e) as real < z < (LIMIT + e + 2) as real
    ensures !IsDouble(z)
  {
    forall n: int, k: nat | IsSignificand(n) ensures !IsScaledUp(z, n, k) && !IsScaledDown(z, n, k) {
      NotScaledUp(z, e, n, k);
      NotScaledDown(z, n, k);
    }
  }

  lemma NotScaledUp(z: real, e: nat, n: int, k: nat)
    requires e % 2 == 0 && (LIMIT + e) as real < z < (LIMIT + e + 2) as real && IsSignificand(n)
    ensures !IsScaledUp(z, n, k)
  {
    var v := n * Pow2(k);
    TimesInts(n, Pow2(k));
    if k > 0 {
      assert v == 2 * (n * Pow2(k - 1));
    } else {
      assert v == n;
    }
    assert v != LIMIT + e + 1;
  }

  lemma NotScaledDown(z: real, n: int, k: nat)
    requires LIMIT as real < z && IsSignificand(n)
    ensures !IsScaledDown(z, n, k)
  {
    TimesMono(1.0, Pow2(k) as real, z);
    TimesOne(z);
    TimesCommute(Pow2(k) as real, z);
  }

  lemma RoundsBelowGap()
    ensures RoundsTo((LIMIT + 1) as real, LIMIT as real)
  {
    IntegersAreDoubles(LIMIT);
    forall z: real | IsDouble(z) ensures Abs((LIMIT + 1) as real - LIMIT as real) <= Abs((LIMIT + 1) as real - z) {
      if LIMIT as real < z < (LIMIT + 2) as real {
        NoDoubleInGap(z, 0);
      }
    }
  }

  /** Every division with an operand of magnitude up to `b` is exact. */
  ghost predicate ExactUpTo(b: int) {
    forall x: int, m: nat, xf: real, y: real ::
      -b <= x <= b && 1 <= m <= LIMIT && Computes(x, m, xf, y) ==> y.Floor == x / m
  }

  lemma OnePastLimit()
    ensures Computes(LIMIT + 1, 1, LIMIT as real, LIMIT as real)
  {
    RoundsBelowGap();
    IntegersAreDoubles(LIMIT);
    assert LIMIT as real / 1 as real == LIMIT as real;
  }

  /** The bound is exact: one past the limit, a division by 1 already goes wrong. */
  lemma ExactExactlyUpToLimit(b: int)
    ensures ExactUpTo(b) <==> b <= LIMIT
  {
    if b <= LIMIT {
      forall x: int, m: nat, xf: real, y: real | -b <= x <= b && 1 <= m <= LIMIT && Computes(x, m, xf, y)
        ensures y.Floor == x / m
      {
        FloorDivisionIsExact(x, m, xf, y);
      }
    } else {
      OnePastLimit();
      assert (LIMIT as real).Floor != (LIMIT + 1) / 1;
    }
  }
}
