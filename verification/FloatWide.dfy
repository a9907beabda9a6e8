/**
 Operands of up to 62 bits over divisors close to 2^53: the roundings of the operand and of
 the quotient never combine to leave a remainder past the limit.
 */
module FloatWide {
  import opened Arithmetic
  import opened Sums
  import opened FloatDivision
  import opened FloatResidue

  // ----- the spacing of representable values -----

  /** Beyond `2^(j - 1)` representable values are multiples of `1 / 2^(53 - j)`. */
  lemma OnGrid(z: real, j: nat) returns (n: int)
    requires IsDouble(z) && j <= 53 && 2.0 * Abs(z) > Pow2(j) as real
    ensures Times(z, Pow2(53 - j) as real) == n as real
  {
    if a: int, k: nat :| IsSignificand(a) && InReach(a, k) && IsScaledUp(z, a, k) {
      TimesInts(a, Pow2(k));
      TimesInts(a * Pow2(k), Pow2(53 - j));
      n := a * Pow2(k) * Pow2(53 - j);
    } else {
      var a: int, k: nat :| IsSignificand(a) && k <= 1074 && IsScaledDown(z, a, k);
      FewBits(z, j, a, k);
      PowAdd(k, 53 - j - k);
      TimesInts(Pow2(k), Pow2(53 - j - k));
      Gathered(z, Pow2(k) as real, Pow2(53 - j - k) as real);
      TimesInts(a, Pow2(53 - j - k));
      n := a * Pow2(53 - j - k);
    }
  }

  lemma FewBits(z: real, j: nat, a: int, k: nat)
    requires j <= 53 && 2.0 * Abs(z) > Pow2(j) as real && IsSignificand(a) && IsScaledDown(z, a, k)
    ensures k <= 53 - j
  {
    if k > 53 - j {
      PowGrows(54 - j, k);
      WholeRange(j);
      TooLarge(Abs(z), Pow2(j) as real, Pow2(54 - j) as real, Pow2(k) as real, LIMIT as real);
      AbsTimes(z, Pow2(k) as real);
    }
  }

  lemma WholeRange(j: nat)
    requires j <= 53
    ensures Times(Pow2(j) as real, Pow2(54 - j) as real) == 2.0 * LIMIT as real
  {
    FiftyThree();
    PowAdd(j, 54 - j);
    TimesInts(Pow2(j), Pow2(54 - j));
    assert Pow2(54) == 2 * Pow2(53);
  }

  lemma TooLarge(u: real, P: real, Q: real, K: real, L: real)
    requires 2.0 * u > P && Times(P, Q) == 2.0 * L && K >= Q > 0.0 && P > 0.0
    ensures Times(u, K) > L
  {
    TimesLess(P, 2.0 * u, Q);
    assert Times(2.0 * u, Q) == 2.0 * Times(u, Q);
    TimesCommute(u, Q);
    TimesCommute(u, K);
    TimesMono(Q, K, u);
  }

  /** Between an integer and the representable value below it there is a whole step. */
  lemma WholeStep(y: real, g: int, j: nat)
    requires IsDouble(y) && y < g as real && j <= 52
    requires 2.0 * Abs(y) > Pow2(j) as real || 2 * g >= Pow2(j) + 1
    ensures Times(g as real - y, Pow2(53 - j) as real) >= 1.0
  {
    var W := Pow2(53 - j);
    TimesMinus(g as real, y, W as real);
    if 2.0 * Abs(y) > Pow2(j) as real {
      var n := OnGrid(y, j);
      TimesInts(g, W);
      TimesLess(y, g as real, W as real);
      assert n < g * W;
    } else {
      PowGrows(1, 53 - j);
      assert Pow2(1) == 2;
      assert g as real - y >= 0.5;
      TimesMono(0.5, g as real - y, W as real);
    }
  }

  /** A quotient rounded below an integer lies at least half a step below it. */
  lemma HalfStepBelow(q: real, y: real, g: int, j: nat)
    requires RoundsTo(q, y) && y < g as real && IsSignificand(g) && j <= 52
    requires 2.0 * Abs(y) > Pow2(j) as real || 2 * g >= Pow2(j) + 1
    ensures 2.0 * Times(g as real - q, Pow2(53 - j) as real) >= 1.0
  {
    var W := Pow2(53 - j) as real;
    IntegersAreDoubles(g);
    assert Abs(q - y) <= Abs(q - g as real);
    assert g as real - y <= 2.0 * (g as real - q);
    WholeStep(y, g, j);
    TimesMono(g as real - y, 2.0 * (g as real - q), W);
    assert Times(2.0 * (g as real - q), W) == 2.0 * Times(g as real - q, W);
  }

  /** An operand of at most `2^(53 + j)` is converted to within half of `2^j`. */
  lemma ConversionStep(x: int, xf: real, j: nat)
    requires RoundsTo(x as real, xf) && j <= 970 && -LIMIT * Pow2(j) <= x <= LIMIT * Pow2(j)
    ensures 2.0 * Abs(x as real - xf) <= Pow2(j) as real
  {
    var n := Nearest(x, Pow2(j));
    TimesInts(n, Pow2(j));
    ScaledIsDouble(n, j);
    assert Abs(x as real - xf) <= Abs(x as real - Times(n as real, Pow2(j) as real));
  }

  // ----- the two errors together -----

  /** With steps `P` for the operand and `1 / W` for the quotient, an operand above `g * m` is not
      converted so far below it that its quotient rounds below `g`. */
  lemma StepsCancel(x: int, xf: real, m: nat, q: real, g: int, P: nat, W: nat)
    requires Times(q, m as real) == xf && P * W == LIMIT && SAFE < m <= LIMIT && W >= 4096
    requires 2.0 * Abs(x as real - xf) <= P as real
    requires 2.0 * Times(g as real - q, W as real) >= 1.0
    ensures x <= g * m
  {
    var M, w := m as real, W as real;
    TimesMinus(g as real, q, M);
    TimesInts(g, m);
    var d := (g * m) as real - xf;
    assert Times(g as real - q, M) == d;
    ScaledStep(g as real - q, M, w, d);
    TimesMono(2.0 * (x as real - xf), P as real, w);
    TimesInts(P, W);
    assert Times(2.0 * (x as real - xf), w) == 2.0 * Times(x as real - xf, w);
    TimesMinus(x as real - xf, d, w);
    var e := x - g * m;
    assert x as real - xf - d == e as real;
    assert 2.0 * Times(e as real, w) <= (LIMIT - m) as real;
    TimesInts(e, W);
    if e >= 1 { MulMono(1, e, W); }
  }

  lemma ScaledStep(s: real, M: real, w: real, d: real)
    requires Times(s, M) == d && 2.0 * Times(s, w) >= 1.0 && M > 0.0
    ensures 2.0 * Times(d, w) >= M
  {
    assert Times(d, w) == Times(Times(s, w), M);
    TimesMono(0.5, Times(s, w), M);
  }

  // ----- the power of two around an integer -----

  /** `g` in the upper half of the range up to `2^j`, or `-g` in the half below it. */
  predicate Around(g: int, j: nat) {
    || (2 * g > Pow2(j) && g <= Pow2(j))
    || (2 * g + Pow2(j) <= 0 && 0 < g + Pow2(j))
  }

  lemma PowerAround(g: int) returns (j: nat)
    requires g != 0 && -1024 <= g <= 1024
    ensures Around(g, j) && j <= 11
  {
    var k := PowerBelow(if g > 0 then g else -g);
    ElevenBits();
    if k > 10 { PowGrows(11, k); }
    j := if g == Pow2(k) then k else k + 1;
    assert Pow2(k + 1) == 2 * Pow2(k);
  }

  lemma WideSteps(j: nat)
    requires j <= 11
    ensures Pow2(j) * Pow2(53 - j) == LIMIT && Pow2(53 - j) >= 4096
  {
    FiftyThree();
    PowAdd(j, 53 - j);
    PowGrows(12, 53 - j);
    TenBits();
    assert Pow2(12) == 4 * Pow2(10);
  }

  /** The integers above `y` and below `x / m` that an overflow would need. */
  lemma FactorIsSmall(x: int, m: nat, g: int)
    requires -WIDE <= x <= WIDE && SAFE < m <= LIMIT && g * m < x <= g * m + 4096
    ensures -1024 <= g <= 1024
  {
    if g > 1024 { MulMono(1025, g, m); }
    if g < -1024 { MulMono(g, -1025, m); }
  }

  /** The operand is within the range whose step is `2^j`. */
  lemma OperandInRange(x: int, xf: real, m: nat, g: int, p: int, j: nat)
    requires SAFE < m <= LIMIT && p == g * m && p < x <= p + 4096 && Around(g, j) && j <= 11
    requires RoundsTo(x as real, xf) && xf < p as real
    ensures -LIMIT * Pow2(j) <= x <= LIMIT * Pow2(j)
  {
    ProductInRange(g, m, p, Pow2(j));
    if x > LIMIT * Pow2(j) {
      TimesInts(LIMIT, Pow2(j));
      ScaledIsDouble(LIMIT, j);
      RoundsAbove(x as real, xf, (LIMIT * Pow2(j)) as real);
    }
  }

  /** Rounding does not carry a number below a representable one. */
  lemma RoundsAbove(q: real, y: real, a: real)
    requires RoundsTo(q, y) && IsDouble(a) && a <= q
    ensures a <= y
  {
    assert Abs(q - y) <= Abs(q - a);
  }

  lemma ProductInRange(g: int, m: nat, p: int, P: int)
    requires P >= 0 && m <= LIMIT && p == g * m && -P <= g <= P
    ensures -LIMIT * P <= p <= LIMIT * P
  {
    MulMono(-P, g, m);
    MulMono(g, P, m);
    MulMono(m, LIMIT, P);
    assert -P * m == -(m * P);
    assert -LIMIT * P == -(LIMIT * P);
  }

  /** However a 62-bit operand and its quotient are rounded, no remainder over a divisor of at most
      2^53 passes 2^53. */
  lemma NeverPastLimit(x: int, xf: real, m: nat, q: real, y: real, f: int)
    requires -WIDE <= x <= WIDE && SAFE < m <= LIMIT && RoundsTo(x as real, xf)
    requires Times(q, m as real) == xf && RoundsTo(q, y) && f as real <= y < f as real + 1.0
    requires x - f * m <= m + 4096
    ensures x - f * m <= LIMIT
  {
    var p := (f + 1) * m;
    assert p == f * m + m;
    if x > p { NoneAbove(x, xf, m, q, y, f + 1, p); }
  }

  lemma NoneAbove(x: int, xf: real, m: nat, q: real, y: real, g: int, p: int)
    requires -WIDE <= x <= WIDE && SAFE < m <= LIMIT && RoundsTo(x as real, xf) && p == g * m
    requires Times(q, m as real) == xf && RoundsTo(q, y) && y < g as real && x <= p + 4096
    ensures x <= p
  {
    if x > p {
      FactorIsSmall(x, m, g);
      QuotientBelow(q, xf, m, y, g);
      if g == 0 {
        PositiveQuotient(x, xf, m, q, y);
      } else {
        var j := PowerAround(g);
        OperandInRange(x, xf, m, g, p, j);
        ConversionStep(x, xf, j);
        Beyond(y, g, j);
        HalfStepBelow(q, y, g, j);
        WideSteps(j);
        StepsCancel(x, xf, m, q, g, Pow2(j), Pow2(53 - j));
      }
    }
  }

  lemma Beyond(y: real, g: int, j: nat)
    requires Around(g, j) && y < g as real
    ensures 2.0 * Abs(y) > Pow2(j) as real || 2 * g >= Pow2(j) + 1
  {
  }

  /** A quotient rounded below an integer is below it. */
  lemma QuotientBelow(q: real, xf: real, m: nat, y: real, g: int)
    requires Times(q, m as real) == xf && m > 0 && RoundsTo(q, y) && y < g as real && IsSignificand(g)
    ensures q < g as real && xf < (g * m) as real
  {
    IntegersAreDoubles(g);
    assert Abs(q - y) <= Abs(q - g as real);
    TimesLess(q, g as real, m as real);
    TimesInts(g, m);
  }

  lemma PositiveQuotient(x: int, xf: real, m: nat, q: real, y: real)
    requires x > 0 && m > 0 && RoundsTo(x as real, xf) && Times(q, m as real) == xf
    ensures q >= 0.0
  {
    IntegersAreDoubles(0);
    assert Abs(x as real - xf) <= Abs(x as real - 0.0);
    TimesOne(m as real);
    if q < 0.0 { TimesLess(q, 0.0, m as real); }
  }

  // ----- remainders -----

  /** Operands the later turns of a coordinate loop can meet. */
  predicate Manageable(r: int) {
    -4096 <= r <= LIMIT
  }

  lemma ResidueWithinLimit(round: real -> real, x: int, m: nat, xf: real, f: int)
    requires IsRounding(round) && -WIDE <= x <= WIDE && SAFE < m <= LIMIT
    requires RoundsTo(x as real, xf) && Abs(xf) <= (2 * WIDE) as real && f == RoundedFloor(round, xf, m as real)
    requires x - f * m <= m + 4096
    ensures x - f * m <= LIMIT
  {
    QuotientInRange(xf, m);
    var q := xf / m as real;
    assert RoundsTo(q, round(q));
    NeverPastLimit(x, xf, m, q, round(q), f);
  }

  /** A first remainder of a 62-bit operand over a divisor of at most 2^53 keeps the residue and is
      manageable, even where its own division is not exact. */
  lemma FirstResidue(round: real -> real, x: int, m: nat)
    requires IsRounding(round) && -WIDE <= x <= WIDE && 1 <= m <= LIMIT
    ensures Manageable(Residue(round, x, m)) && Residue(round, x, m) % m == x % m
  {
    ResidueIsSmall(round, x, m);
    SameResidue(x, FloatDiv(round, x, m), m);
    if m > SAFE {
      var xf := round(x as real);
      assert RoundsTo(x as real, xf);
      ConversionError(x, xf);
      ConversionIsExact(m, round(m as real));
      Converted(round, x, m, xf, m as real);
      ResidueWithinLimit(round, x, m, xf, FloatDiv(round, x, m));
    }
  }
}
