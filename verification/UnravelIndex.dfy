/**
 Flat indices to coordinates, one axis at a time from the right, by the floating-point
 floor division.
 */
module UnravelIndex {
  import opened Arithmetic
  import opened Totals
  import opened Axes
  import opened Tensors
  import opened FloatDivision
  import opened FloatResidue
  import opened FloatWide

  datatype Result = Ok(coords: seq<int>) | NegativeSize | EmptyShape

  predicate AllPositive(shape: Shape) {
    forall i :: 0 <= i < |shape| ==> shape[i] > 0
  }

  lemma {:induction false} ProdPositive(shape: Shape)
    requires AllPositive(shape)
    ensures Prod(shape) > 0
  {
    if shape != [] {
      ProdPositive(shape[1..]);
    }
  }

  lemma {:induction false} ProdZero(shape: Shape)
    ensures Prod(shape) > 0 <==> AllPositive(shape)
  {
    if shape != [] {
      ProdZero(shape[1..]);
      assert shape == [shape[0]] + shape[1..];
      assert Prod(shape[1..]) == 0 || shape[0] == 0 ==> Prod(shape) == 0;
    }
  }

  // ----- what the loop computes -----

  /** Coordinates of what remains, last axis first: a remainder, then the quotient for the rest. */
  function Peeled(round: real -> real, shape: Shape, r: int): (coords: seq<int>)
    requires AllPositive(shape)
    ensures |coords| == |shape|
  {
    if shape == [] then []
    else
      var n := |shape| - 1;
      var c := Residue(round, r, shape[n]);
      Peeled(round, shape[..n], FloatDiv(round, r - c, shape[n])) + [c]
  }

  function FloatCoordinates(round: real -> real, shape: Shape, index: int): (coords: seq<int>)
    requires AllPositive(shape)
    ensures |coords| == |shape|
  {
    ProdPositive(shape);
    Peeled(round, shape, Residue(round, index, Prod(shape)))
  }

  /** The coordinates meant: in range, and naming the position of the index modulo the total. */
  function Expected(shape: Shape, index: int): (coords: Index)
    requires AllPositive(shape)
    ensures InShape(shape, coords) && Prod(shape) > 0 && Ravel(shape, coords) == index % Prod(shape)
  {
    ProdPositive(shape);
    RavelUnravel(shape, index % Prod(shape));
    Unravel(shape, index % Prod(shape))
  }

  // ----- the call -----

  function AsShape(shp: seq<int>): (shape: Shape)
    requires AllNonNegative(shp)
    ensures |shape| == |shp| && forall i :: 0 <= i < |shp| ==> shape[i] == shp[i]
  {
    seq(|shp|, i requires 0 <= i < |shp| => shp[i] as nat)
  }

  /** The product of the sizes, or the reason it is not usable. */
  method CheckShape(shp: seq<int>) returns (total: int, negative: bool)
    ensures negative <==> !AllNonNegative(shp)
    ensures !negative ==> total == Prod(AsShape(shp))
  {
    total, negative := 1, false;
    assert shp[..0] == [];
    for i := 0 to |shp|
      invariant AllNonNegative(shp[..i]) && total == Prod(AsShape(shp[..i]))
    {
      if shp[i] < 0 {
        return total, true;
      }
      var before := AsShape(shp[..i]);
      assert AsShape(shp[..i + 1]) == before + [shp[i] as nat];
      ProdAppend(before, [shp[i] as nat]);
      assert Prod([shp[i] as nat]) == shp[i];
      total := total * shp[i];
    }
    assert shp[..|shp|] == shp;
  }

  /** The call refuses exactly a negative or an empty shape, and otherwise gives what the loop
      computes; the lemmas below say when that is right. */
  method Coordinates(round: real -> real, index: int, shp: seq<int>) returns (r: Result)
    ensures r.NegativeSize? <==> !AllNonNegative(shp)
    ensures r.EmptyShape? <==> AllNonNegative(shp) && exists i :: 0 <= i < |shp| && shp[i] == 0
    ensures r.Ok? ==> AllPositive(AsShape(shp)) && r.coords == FloatCoordinates(round, AsShape(shp), index)
  {
    var total, negative := CheckShape(shp);
    if negative {
      return NegativeSize;
    }
    var shape := AsShape(shp);
    ProdZero(shape);
    if total == 0 {
      return EmptyShape;
    }
    var coords := Peel(round, shape, index);
    r := Ok(coords);
  }

  /** The loop over the axes from the right. */
  method Peel(round: real -> real, shape: Shape, index: int) returns (coords: seq<int>)
    requires AllPositive(shape)
    ensures coords == FloatCoordinates(round, shape, index)
  {
    ProdPositive(shape);
    var remaining := Residue(round, index, Prod(shape));
    ghost var goal := FloatCoordinates(round, shape, index);
    coords := [];
    var i := |shape|;
    assert shape[..i] == shape && goal + [] == goal;
    while i > 0
      invariant 0 <= i <= |shape|
      invariant Peeled(round, shape[..i], remaining) + coords == goal
      decreases i
    {
      i := i - 1;
      var c := Residue(round, remaining, shape[i]);
      var next := FloatDiv(round, remaining - c, shape[i]);
      PeeledStep(round, shape, i, remaining, c, next, coords);
      coords, remaining := [c] + coords, next;
    }
    assert shape[..0] == [] && [] + coords == coords;
  }

  lemma PeeledLast(round: real -> real, shape: Shape, r: int, n: nat, c: int, next: int)
    requires AllPositive(shape) && n == |shape| - 1
    requires c == Residue(round, r, shape[n]) && next == FloatDiv(round, r - c, shape[n])
    ensures Peeled(round, shape, r) == Peeled(round, shape[..n], next) + [c]
  {
  }

  lemma PeeledStep(round: real -> real, shape: Shape, i: nat, r: int, c: int, next: int, coords: seq<int>)
    requires AllPositive(shape) && i < |shape|
    requires c == Residue(round, r, shape[i]) && next == FloatDiv(round, r - c, shape[i])
    ensures Peeled(round, shape[..i + 1], r) + coords == Peeled(round, shape[..i], next) + ([c] + coords)
  {
    PeeledLast(round, shape[..i + 1], r, i, c, next);
    assert shape[..i + 1][..i] == shape[..i];
    Regrouped(Peeled(round, shape[..i], next), [c], coords);
  }

  // ----- exact turns -----

  /** Operands on which every turn over axes of at most `top` slices is exact. */
  predicate Settled(r: int, top: nat) {
    || (0 <= r < LIMIT && top <= 2 * WIDE)
    || (top <= LIMIT && Manageable(r))
  }

  lemma TurnIsExact(round: real -> real, r: int, s: nat, top: nat)
    requires IsRounding(round) && 0 < s <= top && Settled(r, top)
    ensures Residue(round, r, s) == r % s && FloatDiv(round, r - r % s, s) == r / s
    ensures Settled(r / s, top)
  {
    DigitsOf(r, s);
    DigitReadInt(r / s, s, 0);
    QuotientBetween(r, s);
    if 0 <= r < LIMIT {
      ExactBelow(round, r, s);
      ExactBelow(round, r - r % s, s);
    } else {
      FloorMultiple(r, s);
      ExactWithin(round, r, s);
      ExactWithin(round, r - r % s, s);
    }
  }

  /** The multiple of an axis below a manageable operand is within the limit. */
  lemma FloorMultiple(r: int, s: nat)
    requires Manageable(r) && 0 < s <= LIMIT
    ensures IsSignificand(r - r % s)
  {
    DigitsOf(r, s);
    if r < 0 && s > 4096 {
      QuotientBetween(r, s);
      if r / s < -1 { MulMono(r / s, -2, s); }
    }
  }

  /** The last coordinate is a remainder, the others are those of the quotient. */
  lemma UnravelSnoc(shape: Shape, n: nat, k: int)
    requires AllPositive(shape) && n == |shape| - 1
    ensures Expected(shape, k) == Expected(shape[..n], k / shape[n]) + [k % shape[n]]
  {
    var init, s := shape[..n], shape[n];
    var idx, c := Expected(init, k / s), k % s;
    assert shape == init + [s];
    LastDigit(init, s, idx, c);
    ModuloBlocks(k, Prod(init), s);
    ProdPositive(shape);
    UnravelRavel(shape, idx + [c]);
  }

  lemma LastDigit(init: Shape, s: nat, idx: Index, c: nat)
    requires InShape(init, idx) && c < s
    ensures InShape(init + [s], idx + [c]) && Prod(init + [s]) == Prod(init) * s
    ensures Ravel(init + [s], idx + [c]) == Ravel(init, idx) * s + c
  {
    assert InShape([s], [c]);
    InShapeAppend(init, [s], idx, [c]);
    ProdAppend(init, [s]);
    RavelAppend(init, [s], idx, [c]);
    assert [s][1..] == [] && [c][1..] == [] && Prod([]) == 1;
    assert Prod([s]) == s && Ravel([s], [c]) == c;
  }

  /** A remainder by a product, digit by digit. */
  lemma ModuloBlocks(k: int, p: nat, s: nat)
    requires p > 0 && s > 0
    ensures p * s > 0 && k % (p * s) == ((k / s) % p) * s + k % s
  {
    DigitsOf(k, s);
    DigitsOf(k / s, p);
    ReadDigits(k / s / p, p, (k / s) % p, s, k % s);
  }

  lemma RegroupInt(a: int, p: nat, q: nat, b: nat, c: nat)
    ensures a * (p * q) + (b * q + c) == (a * p + b) * q + c
  {
    assert a * (p * q) == (a * p) * q;
  }

  lemma ReadDigits(a: int, s: nat, c: nat, p: nat, r: nat)
    requires c < s && r < p
    ensures s * p > 0
    ensures ((a * s + c) * p + r) / (s * p) == a && ((a * s + c) * p + r) % (s * p) == c * p + r
  {
    RegroupInt(a, s, p, c, r);
    DigitBound(c, s, p, r);
    DigitReadInt(a, s * p, c * p + r);
  }

  predicate AllWithin(shape: Shape, top: nat) {
    forall i :: 0 <= i < |shape| ==> shape[i] <= top
  }

  /** From a settled operand the loop computes its coordinates. */
  lemma {:induction false} PeeledIsExpected(round: real -> real, shape: Shape, r: int, top: nat)
    requires IsRounding(round) && AllPositive(shape) && AllWithin(shape, top) && Settled(r, top)
    ensures Peeled(round, shape, r) == Expected(shape, r)
    decreases |shape|
  {
    if shape != [] {
      var n := |shape| - 1;
      var s := shape[n];
      TurnIsExact(round, r, s, top);
      PeeledIsExpected(round, shape[..n], r / s, top);
      PeeledLast(round, shape, r, n, r % s, r / s);
      UnravelSnoc(shape, n, r);
      SameSnoc(Peeled(round, shape[..n], r / s), Expected(shape[..n], r / s), r % s);
    }
  }

  lemma SameSnoc(u: seq<int>, v: Index, c: nat)
    requires u == v
    ensures u + [c] == v + [c]
  {
  }

  lemma {:induction false} AxisWithin(shape: Shape, i: nat)
    requires i < |shape| && AllPositive(shape)
    ensures shape[i] <= Prod(shape)
  {
    ProdPositive(shape[1..]);
    var p := Prod(shape[1..]);
    if i == 0 {
      MulMono(1, p, shape[0]);
    } else {
      AxisWithin(shape[1..], i - 1);
      MulMono(1, shape[0], p);
    }
  }

  lemma AxesWithinTotal(shape: Shape)
    requires AllPositive(shape)
    ensures AllWithin(shape, Prod(shape))
  {
    forall i | 0 <= i < |shape| ensures shape[i] <= Prod(shape) {
      AxisWithin(shape, i);
    }
  }
}
