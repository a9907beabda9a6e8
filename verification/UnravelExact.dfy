/**
 When the coordinates computed in floating point are right: exact borders for the index
 and for the number of positions.
 */
module UnravelExact {
  import opened Arithmetic
  import opened Tensors
  import opened FloatDivision
  import opened FloatResidue
  import opened FloatWide
  import opened UnravelIndex

  predicate Right(round: real -> real, shape: Shape, index: int)
    requires AllPositive(shape)
  {
    FloatCoordinates(round, shape, index) == Expected(shape, index)
  }

  /** The first remainder settles the rest when it keeps the residue of the index. */
  lemma RightFrom(round: real -> real, shape: Shape, index: int, top: nat)
    requires IsRounding(round) && AllPositive(shape) && AllWithin(shape, top)
    requires Prod(shape) > 0 && Settled(Residue(round, index, Prod(shape)), top)
    ensures Right(round, shape, index)
  {
    var total := Prod(shape);
    SameResidue(index, FloatDiv(round, index, total), total);
    PeeledIsExpected(round, shape, Residue(round, index, total), top);
  }

  /** Indices below the limit are right in every shape of at most 2^63 positions. */
  lemma RightBelow(round: real -> real, shape: Shape, index: int)
    requires IsRounding(round) && AllPositive(shape) && Prod(shape) <= 2 * WIDE && 0 <= index < LIMIT
    ensures Right(round, shape, index)
  {
    ProdPositive(shape);
    AxesWithinTotal(shape);
    ExactBelow(round, index, Prod(shape));
    RemainderBelow(index, Prod(shape));
    RightFrom(round, shape, index, Prod(shape));
  }

  lemma RemainderBelow(x: nat, m: nat)
    requires m > 0
    ensures 0 <= x % m <= x
  {
    DigitsOf(x, m);
    QuotientBetween(x, m);
    MulMono(0, x / m, m);
  }

  /** The limit itself is right when no axis is longer than it. */
  lemma RightAtLimit(round: real -> real, shape: Shape)
    requires IsRounding(round) && AllPositive(shape) && Prod(shape) <= 2 * WIDE && AllWithin(shape, LIMIT)
    ensures Right(round, shape, LIMIT)
  {
    ProdPositive(shape);
    var total := Prod(shape);
    if total <= LIMIT {
      ExactWithin(round, LIMIT, total);
      RemainderBelow(LIMIT, total);
    } else {
      AtLimit(round, total);
    }
    RightFrom(round, shape, LIMIT, LIMIT);
  }

  /** Indices within 2^62, of either sign, are right in every shape of at most 2^53 positions. */
  lemma RightWide(round: real -> real, shape: Shape, index: int)
    requires IsRounding(round) && AllPositive(shape) && Prod(shape) <= LIMIT && -WIDE <= index <= WIDE
    ensures Right(round, shape, index)
  {
    ProdPositive(shape);
    AxesWithinTotal(shape);
    FirstResidue(round, index, Prod(shape));
    RightFrom(round, shape, index, Prod(shape));
  }

  // ----- where it fails -----

  lemma PeeledTwo(round: real -> real, a: nat, b: nat, r: int)
    requires a > 0 && b > 0
    ensures |Peeled(round, [a, b], r)| == 2 && Peeled(round, [a, b], r)[1] == Residue(round, r, b)
  {
  }

  lemma FromSettledFirst(round: real -> real, shape: Shape, index: int)
    requires AllPositive(shape) && Prod(shape) > 0 && Residue(round, index, Prod(shape)) == index
    ensures FloatCoordinates(round, shape, index) == Peeled(round, shape, index)
  {
  }

  lemma WrongLast(round: real -> real, shape: Shape, index: int)
    requires AllPositive(shape) && shape != []
    requires !(0 <= FloatCoordinates(round, shape, index)[|shape| - 1] < shape[|shape| - 1])
    ensures !Right(round, shape, index)
  {
    var c := Expected(shape, index);
    assert c[|shape| - 1] < shape[|shape| - 1];
  }

  /** Index 2^53 in two rows of 2^53 + 1: the column comes out as -1. */
  lemma LimitFails(round: real -> real)
    requires IsRounding(round) && TiesToEven(round)
    ensures AllPositive([2, LIMIT + 1]) && Prod([2, LIMIT + 1]) == 2 * LIMIT + 2
    ensures FloatCoordinates(round, [2, LIMIT + 1], LIMIT)[1] == -1 && !Right(round, [2, LIMIT + 1], LIMIT)
  {
    var shape: Shape := [2, LIMIT + 1];
    assert shape[1..] == [LIMIT + 1] && [LIMIT + 1][1..] == [] && Prod([]) == 1;
    assert Prod(shape) == 2 * LIMIT + 2;
    AtLimit(round, Prod(shape));
    FromSettledFirst(round, shape, LIMIT);
    PeeledTwo(round, 2, LIMIT + 1, LIMIT);
    LimitOverNext(round);
    WrongLast(round, shape, LIMIT);
  }

  /** Index 2^53 + 1 in rows of 3: the column comes out as 3. */
  lemma NextFails(round: real -> real)
    requires IsRounding(round) && TiesToEven(round)
    ensures AllPositive([LIMIT, 3]) && Prod([LIMIT, 3]) == 3 * LIMIT
    ensures FloatCoordinates(round, [LIMIT, 3], LIMIT + 1)[1] == 3 && !Right(round, [LIMIT, 3], LIMIT + 1)
  {
    var shape: Shape := [LIMIT, 3];
    assert shape[1..] == [3] && [3][1..] == [] && Prod([]) == 1;
    assert Prod(shape) == 3 * LIMIT;
    NextOverTriple(round);
    FromSettledFirst(round, shape, LIMIT + 1);
    PeeledTwo(round, LIMIT, 3, LIMIT + 1);
    NextOverThree(round);
    WrongLast(round, shape, LIMIT + 1);
  }

  lemma NextOverTriple(round: real -> real)
    requires IsRounding(round) && TiesToEven(round)
    ensures Residue(round, LIMIT + 1, 3 * LIMIT) == LIMIT + 1
  {
    FiftyThree();
    ScaledIsDouble(3, 53);
    TimesInts(3, LIMIT);
    var d := round((3 * LIMIT) as real);
    assert RoundsTo((3 * LIMIT) as real, d);
    RoundsWithin((3 * LIMIT) as real, d, (3 * LIMIT) as real, (3 * LIMIT) as real);
    LimitOver(round, d);
    Converted(round, LIMIT + 1, 3 * LIMIT, LIMIT as real, d);
  }

  /** Index -1 of 2^53 + 1 positions on one axis comes out as -1. */
  lemma MinusOneFails(round: real -> real)
    requires IsRounding(round) && TiesToEven(round)
    ensures AllPositive([LIMIT + 1]) && Prod([LIMIT + 1]) == LIMIT + 1
    ensures FloatCoordinates(round, [LIMIT + 1], -1) == [-1] && !Right(round, [LIMIT + 1], -1)
  {
    var shape: Shape := [LIMIT + 1];
    assert shape[1..] == [] && Prod([]) == 1 && shape[..0] == [];
    MinusOneOverNext(round);
    LimitOverNext(round);
    WrongLast(round, shape, -1);
  }

  // ----- exact borders -----

  /** Every index up to `b` is right in every shape of at most 2^63 positions whose axes have at
      most `top` slices. */
  ghost predicate RightUpTo(round: real -> real, b: int, top: nat) {
    forall shape: Shape, index: nat ::
      AllPositive(shape) && Prod(shape) <= 2 * WIDE && AllWithin(shape, top) && index <= b ==>
      Right(round, shape, index)
  }

  /** With axes of any length, exactly the indices below 2^53 can be relied on. */
  lemma ExactForAnyShape(round: real -> real, b: int)
    requires IsRounding(round) && TiesToEven(round)
    ensures RightUpTo(round, b, 2 * WIDE) <==> b < LIMIT
  {
    if b < LIMIT {
      forall shape: Shape, index: nat | AllPositive(shape) && Prod(shape) <= 2 * WIDE && index <= b
        ensures Right(round, shape, index)
      {
        RightBelow(round, shape, index);
      }
    } else {
      LimitFails(round);
      assert AllWithin([2, LIMIT + 1], 2 * WIDE);
    }
  }

  /** With axes of at most 2^53 slices, exactly the indices up to 2^53. */
  lemma ExactForShortAxes(round: real -> real, b: int)
    requires IsRounding(round) && TiesToEven(round)
    ensures RightUpTo(round, b, LIMIT) <==> b <= LIMIT
  {
    if b <= LIMIT {
      forall shape: Shape, index: nat |
        AllPositive(shape) && Prod(shape) <= 2 * WIDE && AllWithin(shape, LIMIT) && index <= b
        ensures Right(round, shape, index)
      {
        if index < LIMIT { RightBelow(round, shape, index); } else { RightAtLimit(round, shape); }
      }
    } else {
      NextFails(round);
      assert AllWithin([LIMIT, 3], LIMIT);
    }
  }

  /** Every index of magnitude up to `b`, of either sign, is right in every shape of at most `t`
      positions. */
  ghost predicate RightInside(round: real -> real, b: int, t: int) {
    forall shape: Shape, index: int :: AllPositive(shape) && Prod(shape) <= t && -b <= index <= b ==>
      Right(round, shape, index)
  }

  /** For indices of either sign, whatever their magnitude up to 2^62, exactly the shapes of at most
      2^53 positions. */
  lemma ExactForSignedIndices(round: real -> real, b: int, t: int)
    requires IsRounding(round) && TiesToEven(round) && 1 <= b <= WIDE
    ensures RightInside(round, b, t) <==> t <= LIMIT
  {
    if t <= LIMIT {
      forall shape: Shape, index: int | AllPositive(shape) && Prod(shape) <= t && -b <= index <= b
        ensures Right(round, shape, index)
      {
        RightWide(round, shape, index);
      }
    } else {
      MinusOneFails(round);
    }
  }
}
