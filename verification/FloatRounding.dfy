/**
 A rounding to nearest exists: representable values are multiples of one tiny unit, so a
 nearest one below and a nearest one above can be found.
 */
module FloatRounding {
  import opened Sums
  import opened FloatDivision
  import opened FloatResidue

  /** The reciprocal of the smallest positive representable value. */
  function Units(): (u: nat)
    ensures u > 0
  {
    Pow2(1074)
  }

  lemma OnFinestGrid(z: real) returns (n: int)
    requires IsDouble(z)
    ensures Times(z, Units() as real) == n as real
  {
    if a: int, k: nat :| IsSignificand(a) && InReach(a, k) && IsScaledUp(z, a, k) {
      TimesInts(a, Pow2(k));
      TimesInts(a * Pow2(k), Units());
      n := a * Pow2(k) * Units();
    } else {
      var a: int, k: nat :| IsSignificand(a) && k <= 1074 && IsScaledDown(z, a, k);
      PowAdd(k, 1074 - k);
      TimesInts(Pow2(k), Pow2(1074 - k));
      Gathered(z, Pow2(k) as real, Pow2(1074 - k) as real);
      TimesInts(a, Pow2(1074 - k));
      n := a * Pow2(1074 - k);
    }
  }

  /** `n` units are a representable value. */
  ghost predicate IsMark(n: int) {
    exists z: real :: IsDouble(z) && Times(z, Units() as real) == n as real
  }

  lemma LargestMark(m: int, low: int) returns (n: int)
    requires IsMark(low) && low <= m
    ensures IsMark(n) && n <= m && forall k :: n < k <= m ==> !IsMark(k)
    decreases m - low
  {
    if IsMark(m) {
      n := m;
    } else {
      n := LargestMark(m - 1, low);
    }
  }

  lemma SmallestMark(m: int, high: int) returns (n: int)
    requires IsMark(high) && m <= high
    ensures IsMark(n) && m <= n && forall k :: m <= k < n ==> !IsMark(k)
    decreases high - m
  {
    if IsMark(m) {
      n := m;
    } else {
      n := SmallestMark(m + 1, high);
    }
  }

  /** The largest number considered, in units. */
  function Reach(): (n: nat) {
    2 * WIDE * Units()
  }

  lemma ReachIsMark()
    ensures IsMark(Reach()) && IsMark(-(Reach() as int))
  {
    TenBits();
    TimesInts(LIMIT, 1024);
    TimesInts(-LIMIT, 1024);
    ScaledIsDouble(LIMIT, 10);
    ScaledIsDouble(-LIMIT, 10);
    assert IsDouble((2 * WIDE) as real) && IsDouble((-2 * WIDE) as real);
    TimesInts(2 * WIDE, Units());
    TimesInts(-2 * WIDE, Units());
    assert -(Reach() as int) == -2 * WIDE * Units();
  }

  /** The mark nearest to `v`. */
  lemma NearestMark(v: real) returns (c: int)
    requires -(Reach() as int) as real <= v <= Reach() as real
    ensures IsMark(c) && forall n: int :: IsMark(n) ==> Abs(v - c as real) <= Abs(v - n as real)
  {
    ReachIsMark();
    var m := v.Floor;
    var lo := LargestMark(m, -(Reach() as int));
    if m as real == v {
      var hi := SmallestMark(m, Reach());
      c := if Abs(v - lo as real) <= Abs(v - hi as real) then lo else hi;
      Between(v, m, m, lo, hi, c);
    } else {
      var hi := SmallestMark(m + 1, Reach());
      c := if Abs(v - lo as real) <= Abs(v - hi as real) then lo else hi;
      Between(v, m, m + 1, lo, hi, c);
    }
  }

  lemma Between(v: real, m: int, h: int, lo: int, hi: int, c: int)
    requires m as real <= v <= h as real && h <= m + 1 && lo <= m && h <= hi
    requires (forall k :: lo < k <= m ==> !IsMark(k)) && (forall k :: h <= k < hi ==> !IsMark(k))
    requires Abs(v - c as real) <= Abs(v - lo as real) && Abs(v - c as real) <= Abs(v - hi as real)
    ensures forall n: int :: IsMark(n) ==> Abs(v - c as real) <= Abs(v - n as real)
  {
    forall n: int | IsMark(n) ensures Abs(v - c as real) <= Abs(v - n as real) {
      if n <= m {
        assert n <= lo;
      } else {
        assert n >= hi;
      }
    }
  }

  lemma CancelUnits(q: real, y: real, z: real, u: real)
    requires u > 0.0 && Abs(Times(q, u) - Times(y, u)) <= Abs(Times(q, u) - Times(z, u))
    ensures Abs(q - y) <= Abs(q - z)
  {
    TimesMinus(q, y, u);
    TimesMinus(q, z, u);
    AbsTimes(q - y, u);
    AbsTimes(q - z, u);
    if Abs(q - y) > Abs(q - z) { TimesLess(Abs(q - z), Abs(q - y), u); }
  }

  /** Every number an index computation meets has a nearest representable value. */
  lemma HasNearest(q: real) returns (y: real)
    requires Abs(q) <= (2 * WIDE) as real
    ensures RoundsTo(q, y)
  {
    var u := Units() as real;
    TimesMono(q, (2 * WIDE) as real, u);
    TimesMono((-2 * WIDE) as real, q, u);
    TimesInts(2 * WIDE, Units());
    TimesInts(-2 * WIDE, Units());
    var c := NearestMark(Times(q, u));
    y :| IsDouble(y) && Times(y, u) == c as real;
    forall z: real | IsDouble(z) ensures Abs(q - y) <= Abs(q - z) {
      var n := OnFinestGrid(z);
      assert IsMark(n);
      CancelUnits(q, y, z, u);
    }
  }

  /** A nearest representable value, with the tie above 2^53 going to the even neighbour. */
  ghost function Nearby(q: real): (y: real)
    ensures Abs(q) <= (2 * WIDE) as real ==> RoundsTo(q, y)
  {
    RoundsBelowGap();
    if q == (LIMIT + 1) as real then LIMIT as real
    else if Abs(q) <= (2 * WIDE) as real then
      Found(q);
      var y :| RoundsTo(q, y);
      y
    else 0.0
  }

  lemma Found(q: real)
    requires Abs(q) <= (2 * WIDE) as real
    ensures exists y :: RoundsTo(q, y)
  {
    var y := HasNearest(q);
  }

  /** What the results on coordinates assume of the rounding can be met. */
  lemma RoundingExists()
    ensures exists round: real -> real :: IsRounding(round) && TiesToEven(round)
  {
    var round: real -> real := q => Nearby(q);
    assert IsRounding(round) by {
      forall q: real | Abs(q) <= (2 * WIDE) as real ensures RoundsTo(q, round(q)) {
        assert round(q) == Nearby(q);
      }
    }
    assert TiesToEven(round);
  }
}
