/**
 Remainders taken with the floating-point floor division: what is left over keeps its
 residue and stays small even where the division itself is no longer exact.
 */
module FloatResidue {
  import opened Arithmetic
  import opened Sums
  import opened FloatDivision

  /** A divisor up to this leaves room for the errors of a division of 62-bit operands. */
  const SAFE := LIMIT - 4096

  /** The largest operand considered, 2^62. */
  const WIDE := 4611686018427387904

  /** `round` rounds every number an index computation meets to a nearest representable value. */
  ghost predicate IsRounding(round: real -> real) {
    forall q: real {:trigger RoundsTo(q, round(q))} :: Abs(q) <= (2 * WIDE) as real ==> RoundsTo(q, round(q))
  }

  /** The division as it is carried out: convert both operands, divide, round down. No positive
      divisor converts to zero. */
  function FloatDiv(round: real -> real, x: int, m: nat): (q: int)
    requires m > 0
  {
    RoundedFloor(round, round(x as real), round(m as real))
  }

  function RoundedFloor(round: real -> real, x: real, d: real): (q: int) {
    if d == 0.0 then 0 else round(x / d).Floor
  }

  function Residue(round: real -> real, x: int, m: nat): (r: int)
    requires m > 0
  {
    x - FloatDiv(round, x, m) * m
  }

  lemma QuotientInRange(x: real, m: nat)
    requires m > 0 && Abs(x) <= (2 * WIDE) as real
    ensures Abs(x / m as real) <= (2 * WIDE) as real
    ensures Times(x / m as real, m as real) == x
  {
    var q, M := x / m as real, m as real;
    assert Times(q, M) == x;
    TimesOne(M);
    if q >= 0.0 {
      TimesMono(1.0, M, q);
      TimesCommute(q, M);
      TimesOne(q);
    } else {
      TimesMono(1.0, M, -q);
      TimesOne(-q);
      TimesCommute(-q, M);
      assert Times(M, -q) == -Times(M, q);
      TimesCommute(q, M);
    }
  }

  /** Within the limit the division is exact. */
  lemma ExactWithin(round: real -> real, x: int, m: nat)
    requires IsRounding(round) && IsSignificand(x) && 1 <= m <= LIMIT
    ensures FloatDiv(round, x, m) == x / m && Residue(round, x, m) == x % m
  {
    ExactQuotient(round, x, m, x / m);
    RemainderOf(x, x / m, m);
  }

  lemma ExactQuotient(round: real -> real, x: int, m: nat, q: int)
    requires IsRounding(round) && IsSignificand(x) && 1 <= m <= LIMIT && q == x / m
    ensures FloatDiv(round, x, m) == q
  {
    ConversionIsExact(m, round(m as real));
    ConversionIsExact(x, round(x as real));
    ExactFloor(round, x, m);
    Converted(round, x, m, x as real, m as real);
  }

  lemma Converted(round: real -> real, x: int, m: nat, xf: real, d: real)
    requires m > 0 && round(x as real) == xf && round(m as real) == d
    ensures FloatDiv(round, x, m) == RoundedFloor(round, xf, d)
  {
  }

  lemma ExactFloor(round: real -> real, x: int, m: nat)
    requires IsRounding(round) && IsSignificand(x) && 1 <= m <= LIMIT
    ensures RoundedFloor(round, x as real, m as real) == x / m
  {
    IntegersAreDoubles(x);
    QuotientInRange(x as real, m);
    FloorDivisionIsExact(x, m, x as real, round(x as real / m as real));
  }

  lemma RemainderOf(x: int, q: int, m: nat)
    requires m > 0 && q == x / m
    ensures x - q * m == x % m
  {
  }

  // ----- operands beyond the limit -----

  lemma ScaledIsDouble(n: int, k: nat)
    requires IsSignificand(n) && k <= 970
    ensures IsDouble(Times(n as real, Pow2(k) as real))
  {
    assert InReach(n, k) && IsScaledUp(Times(n as real, Pow2(k) as real), n, k);
  }

  /** Converting a 62-bit operand is off by at most 512. */
  lemma ConversionError(x: int, xf: real)
    requires -WIDE <= x <= WIDE && RoundsTo(x as real, xf)
    ensures Abs(x as real - xf) <= 512.0 && Abs(xf) <= (2 * WIDE) as real
  {
    var n := Nearest(x, 1024);
    TenBits();
    TimesInts(n, 1024);
    ScaledIsDouble(n, 10);
    assert Abs(x as real - xf) <= Abs(x as real - Times(n as real, 1024.0));
  }

  /** The integer nearest to a real number. */
  lemma NearestInteger(v: real) returns (n: int)
    requires Abs(v) <= (LIMIT - 1) as real
    ensures Abs(v - n as real) <= 0.5 && IsSignificand(n)
  {
    n := (v + 0.5).Floor;
  }

  /** A representable number within 1024 steps of `1 / 2^j` from `q`. */
  lemma CloseDouble(q: real, j: nat) returns (z: real)
    requires j <= 53 && Abs(Times(q, Pow2(j) as real)) <= (2 * WIDE) as real
    ensures IsDouble(z) && Abs(Times(q - z, Pow2(j) as real)) <= 1024.0
  {
    var P := Pow2(j) as real;
    var n := NearestInteger(Times(q, P) / 2048.0);
    if j <= 11 {
      z := Times(n as real, Pow2(11 - j) as real);
      ScaledIsDouble(n, 11 - j);
      PowAdd(11 - j, j);
      ElevenBits();
      Gathered(n as real, Pow2(11 - j) as real, P);
      TimesInts(Pow2(11 - j), Pow2(j));
    } else {
      z := n as real / Pow2(j - 11) as real;
      DyadicsAreDoubles(n, j - 11);
      DividedBack(n, Pow2(j - 11));
      PowAdd(j - 11, 11);
      ElevenBits();
      TimesInts(Pow2(j - 11), 2048);
      Gathered(z, Pow2(j - 11) as real, 2048.0);
    }
    assert Times(z, P) == Times(n as real, 2048.0);
    TimesMinus(q, z, P);
    ErrorFromSteps(Times(q, P), n as real);
  }

  lemma ElevenBits()
    ensures Pow2(11) == 2048
  {
    TenBits();
  }

  lemma Gathered(a: real, b: real, c: real)
    ensures Times(Times(a, b), c) == Times(a, Times(b, c))
  {
  }

  lemma TimesMinus(q: real, z: real, P: real)
    ensures Times(q - z, P) == Times(q, P) - Times(z, P)
  {
  }

  lemma ErrorFromSteps(u: real, n: real)
    requires Abs(u / 2048.0 - n) <= 0.5
    ensures Abs(u - Times(n, 2048.0)) <= 1024.0
  {
  }

  /** Rounding the quotient moves it by less than 2048 once multiplied back. */
  lemma QuotientError(q: real, m: nat, y: real)
    requires 1 <= m <= LIMIT && Abs(Times(q, m as real)) <= (2 * WIDE) as real && RoundsTo(q, y)
    ensures Abs(Times(q - y, m as real)) <= 2048.0
  {
    var j := PowerBelow(m);
    var P, M := Pow2(j) as real, m as real;
    SmallerProduct(q, P, M);
    var z := CloseDouble(q, j);
    assert Abs(q - y) <= Abs(q - z);
    AbsTimes(q - z, P);
    AbsTimes(q - y, M);
    TimesMono(Abs(q - y), Abs(q - z), M);
    TimesCommute(Abs(q - z), M);
    TimesCommute(Abs(q - z), 2.0 * P);
    TimesMono(M, 2.0 * P, Abs(q - z));
    DoubleProduct(Abs(q - z), P);
  }

  lemma DoubleProduct(d: real, P: real)
    ensures Times(d, 2.0 * P) == 2.0 * Times(d, P)
  {
  }

  lemma SmallerProduct(q: real, P: real, M: real)
    requires 0.0 < P <= M
    ensures Abs(Times(q, P)) <= Abs(Times(q, M))
  {
    AbsTimes(q, P);
    AbsTimes(q, M);
    TimesCommute(Abs(q), P);
    TimesCommute(Abs(q), M);
    TimesMono(P, M, Abs(q));
  }

  lemma ErrorBound(x: int, xf: real, m: nat, q: real, y: real, f: int)
    requires 1 <= m <= LIMIT && Times(q, m as real) == xf && Abs(xf) <= (2 * WIDE) as real
    requires Abs(x as real - xf) <= 512.0 && RoundsTo(q, y) && f as real <= y < f as real + 1.0
    ensures -4096 <= x - f * m <= m + 4096
  {
    var M := m as real;
    QuotientError(q, m, y);
    FloorPart(y, f as real, M);
    TimesMinus(q, y, M);
    TimesMinus(y, f as real, M);
    ErrorSum(x as real, xf, Times(y, M), Times(f as real, M), M);
    TimesInts(f, m);
    InRealTerms(x, f * m, m);
  }

  /** What a 62-bit operand leaves over a safe divisor is barely outside the proper range. */
  lemma ResidueIsSmall(round: real -> real, x: int, m: nat)
    requires IsRounding(round) && -WIDE <= x <= WIDE && 1 <= m <= LIMIT
    ensures -4096 <= Residue(round, x, m) <= m + 4096
  {
    var xf := round(x as real);
    ConversionIsExact(m, round(m as real));
    ConversionError(x, xf);
    SmallError(round, x, xf, m, RoundedFloor(round, xf, m as real));
    Converted(round, x, m, xf, m as real);
  }

  lemma SmallError(round: real -> real, x: int, xf: real, m: nat, f: int)
    requires IsRounding(round) && Abs(x as real - xf) <= 512.0 && Abs(xf) <= (2 * WIDE) as real && 1 <= m <= LIMIT
    requires f == RoundedFloor(round, xf, m as real)
    ensures -4096 <= x - f * m <= m + 4096
  {
    QuotientInRange(xf, m);
    var y := round(xf / m as real);
    ErrorBound(x, xf, m, xf / m as real, y, f);
  }

  lemma ErrorSum(x: real, xf: real, yM: real, fM: real, M: real)
    requires Abs(x - xf) <= 512.0 && Abs(xf - yM) <= 2048.0 && 0.0 <= yM - fM <= M
    ensures -4096.0 <= x - fM <= M + 4096.0
  {
  }

  lemma InRealTerms(x: int, p: int, m: nat)
    requires -4096.0 <= x as real - p as real <= m as real + 4096.0
    ensures -4096 <= x - p <= m + 4096
  {
    assert x as real - p as real == (x - p) as real && m as real + 4096.0 == (m + 4096) as real;
  }

  lemma FloorPart(y: real, f: real, M: real)
    requires f <= y < f + 1.0 && M > 0.0
    ensures 0.0 <= Times(y - f, M) <= M
  {
    TimesMono(0.0, y - f, M);
    TimesMono(y - f, 1.0, M);
    TimesOne(M);
  }

  // ----- divisors beyond the limit -----

  /** The largest representable value below 1. */
  function BelowOne(): (d: real) {
    (LIMIT - 1) as real / LIMIT as real
  }

  lemma BelowOneIsDouble()
    ensures IsDouble(BelowOne()) && Times(BelowOne(), LIMIT as real) == (LIMIT - 1) as real && BelowOne() < 1.0
  {
    FiftyThree();
    DyadicsAreDoubles(LIMIT - 1, 53);
    DividedBack(LIMIT - 1, LIMIT);
  }

  /** Rounding does not carry a number past a representable one. */
  lemma RoundsWithin(q: real, y: real, a: real, b: real)
    requires RoundsTo(q, y) && IsDouble(a) && IsDouble(b) && a <= q <= b
    ensures a <= y <= b
  {
    assert Abs(q - y) <= Abs(q - a) && Abs(q - y) <= Abs(q - b);
  }

  lemma DivisorStaysLarge(round: real -> real, m: nat)
    requires IsRounding(round) && LIMIT < m <= 2 * WIDE
    ensures LIMIT as real <= round(m as real)
  {
    IntegersAreDoubles(LIMIT);
    assert RoundsTo(m as real, round(m as real));
    assert Abs(m as real - round(m as real)) <= Abs(m as real - LIMIT as real);
  }

  lemma QuotientBounds(x: real, d: real, c: real)
    requires d > 0.0 && 0.0 <= x <= Times(c, d)
    ensures 0.0 <= x / d <= c
  {
    var q := x / d;
    assert Times(q, d) == x;
    TimesOne(d);
    if q < 0.0 { TimesLess(q, 0.0, d); }
    if q > c { TimesLess(c, q, d); }
  }

  /** A quotient of at most `BelowOne` is rounded down to nothing. */
  lemma RoundsToNothing(q: real, y: real)
    requires 0.0 <= q <= BelowOne() && RoundsTo(q, y)
    ensures y.Floor == 0
  {
    BelowOneIsDouble();
    IntegersAreDoubles(0);
    RoundsWithin(q, y, 0.0, BelowOne());
  }

  lemma NothingOver(round: real -> real, x: real, d: real)
    requires IsRounding(round) && d > 0.0 && 0.0 <= x <= Times(BelowOne(), d)
    ensures RoundedFloor(round, x, d) == 0
  {
    QuotientBounds(x, d, BelowOne());
    BelowOneIsDouble();
    RoundsToNothing(x / d, round(x / d));
  }

  /** Below the limit the division is exact whatever the divisor. */
  lemma ExactBelow(round: real -> real, x: int, m: nat)
    requires IsRounding(round) && 0 <= x < LIMIT && 1 <= m <= 2 * WIDE
    ensures FloatDiv(round, x, m) == x / m && Residue(round, x, m) == x % m
  {
    if m <= LIMIT {
      ExactWithin(round, x, m);
    } else {
      ConversionIsExact(x, round(x as real));
      DivisorStaysLarge(round, m);
      NothingBelow(round, x, round(m as real));
      SmallOverLarge(x, m);
    }
  }

  lemma NothingBelow(round: real -> real, x: int, d: real)
    requires IsRounding(round) && 0 <= x < LIMIT && LIMIT as real <= d
    ensures RoundedFloor(round, x as real, d) == 0
  {
    BelowOneIsDouble();
    TimesCommute(BelowOne(), LIMIT as real);
    TimesCommute(BelowOne(), d);
    TimesMono(LIMIT as real, d, BelowOne());
    NothingOver(round, x as real, d);
  }

  /** An operand that converts to the limit is less than a divisor that converts past it. */
  lemma LimitOver(round: real -> real, d: real)
    requires IsRounding(round) && d >= (LIMIT + 2) as real
    ensures RoundedFloor(round, LIMIT as real, d) == 0
  {
    BelowOneIsDouble();
    TimesCommute(BelowOne(), (LIMIT + 2) as real);
    TimesCommute(BelowOne(), d);
    TimesMono((LIMIT + 2) as real, d, BelowOne());
    assert Times(BelowOne(), (LIMIT + 2) as real) == Times(BelowOne(), LIMIT as real) + 2.0 * BelowOne();
    NothingOver(round, LIMIT as real, d);
  }

  lemma PairIsDouble()
    ensures IsDouble((LIMIT + 2) as real)
  {
    assert Pow2(1) == 2 * Pow2(0);
    ScaledIsDouble(LIMIT / 2 + 1, 1);
    TimesInts(LIMIT / 2 + 1, 2);
  }

  /** At the limit itself only the next integer, as a divisor, can be mistaken for it. */
  lemma AtLimit(round: real -> real, m: nat)
    requires IsRounding(round) && LIMIT < m <= 2 * WIDE
    ensures FloatDiv(round, LIMIT, m) == 0 || (FloatDiv(round, LIMIT, m) == 1 && m == LIMIT + 1)
  {
    var d := round(m as real);
    ConversionIsExact(LIMIT, round(LIMIT as real));
    Converted(round, LIMIT, m, LIMIT as real, d);
    DivisorStaysLarge(round, m);
    LimitAgainst(round, m, d);
  }

  lemma LimitAgainst(round: real -> real, m: nat, d: real)
    requires IsRounding(round) && LIMIT < m && RoundsTo(m as real, d) && LIMIT as real <= d
    ensures RoundedFloor(round, LIMIT as real, d) == 0 || (RoundedFloor(round, LIMIT as real, d) == 1 && m == LIMIT + 1)
  {
    if d >= (LIMIT + 2) as real {
      LimitOver(round, d);
    } else {
      DivisorAtLimit(m, d);
      UnitQuotient(round);
    }
  }

  lemma DivisorAtLimit(m: nat, d: real)
    requires LIMIT < m && RoundsTo(m as real, d) && LIMIT as real <= d < (LIMIT + 2) as real
    ensures d == LIMIT as real && m == LIMIT + 1
  {
    if LIMIT as real < d { NoDoubleInGap(d, 0); }
    PairIsDouble();
    assert Abs(m as real - d) <= Abs(m as real - (LIMIT + 2) as real);
  }

  lemma UnitQuotient(round: real -> real)
    requires IsRounding(round)
    ensures RoundedFloor(round, LIMIT as real, LIMIT as real) == 1
  {
    assert LIMIT as real / LIMIT as real == 1.0;
    ConversionIsExact(1, round(1.0));
  }

  // ----- and no further -----

  /** Ties go to the even neighbour: the one tie the failures below need. */
  predicate TiesToEven(round: real -> real) {
    round((LIMIT + 1) as real) == LIMIT as real
  }

  lemma LimitOverNext(round: real -> real)
    requires IsRounding(round) && TiesToEven(round)
    ensures Residue(round, LIMIT, LIMIT + 1) == -1
  {
    ConversionIsExact(LIMIT, round(LIMIT as real));
    UnitQuotient(round);
  }

  lemma MinusOneOverNext(round: real -> real)
    requires IsRounding(round) && TiesToEven(round)
    ensures Residue(round, -1, LIMIT + 1) == LIMIT
  {
    ConversionIsExact(-1, round((-1) as real));
    ExactFloor(round, -1, LIMIT);
  }

  lemma NextOverThree(round: real -> real)
    requires IsRounding(round) && TiesToEven(round)
    ensures Residue(round, LIMIT + 1, 3) == 3
  {
    ConversionIsExact(3, round(3 as real));
    ExactFloor(round, LIMIT, 3);
  }
}
