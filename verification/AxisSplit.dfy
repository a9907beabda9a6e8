/** Splitting an axis into consecutive pieces. The axis is the sequence of its slices. */
module AxisSplit {
  import opened Totals

  datatype Result<+T> = Ok(value: T) | BadSections | PointOutOfRange

  /** Where to cut: a number of near-equal sections, or explicit split points. */
  datatype Spec = Sections(n: int) | Points(points: seq<int>)

  function Concat<T>(pieces: seq<seq<T>>): (r: seq<T>) {
    if pieces == [] then [] else Concat(pieces[..|pieces| - 1]) + pieces[|pieces| - 1]
  }

  // ----- near-equal sections -----

  function LongThenShort(longs: nat, shorts: nat, length: nat): (r: seq<nat>)
    ensures |r| == longs + shorts
    ensures forall i :: 0 <= i < |r| ==> r[i] == length + (if i < longs then 1 else 0)
  {
    seq(longs, _ => length + 1) + seq(shorts, _ => length)
  }

  /** `size % n` sections of one more than `size / n`, then the others. */
  function SectionSizes(size: nat, n: nat): (r: seq<nat>)
    requires n > 0
    ensures |r| == n
    ensures forall i :: 0 <= i < n ==> r[i] == size / n + (if i < size % n then 1 else 0)
  {
    LongThenShort(size % n, n - size % n, size / n)
  }

  lemma {:induction false} TotalOf(sizes: seq<nat>, k: nat, base: nat, rem: nat)
    requires k <= |sizes| && forall i :: 0 <= i < |sizes| ==> sizes[i] == base + (if i < rem then 1 else 0)
    ensures Total(sizes[..k]) == k * base + (if k < rem then k else rem)
  {
    if k > 0 {
      TotalOf(sizes, k - 1, base, rem);
      assert sizes[..k][..k - 1] == sizes[..k - 1];
      assert k * base == (k - 1) * base + base;
    }
  }

  /** The sections add up to the axis, differ by at most one, longer ones first. */
  lemma SectionsAreFair(size: nat, n: nat)
    requires n > 0
    ensures var r := SectionSizes(size, n);
            && Total(r) == size
            && (forall i, j :: 0 <= i < j < n ==> r[j] <= r[i] <= r[j] + 1)
  {
    var r := SectionSizes(size, n);
    TotalOf(r, n, size / n, size % n);
    assert r[..n] == r;
  }

  /** The running totals of all sections but the last. */
  method SplitSections(size: nat, sections: int) returns (r: Result<seq<nat>>)
    ensures sections < 1 <==> r.BadSections?
    ensures sections >= 1 ==> r.Ok? && |r.value| == sections - 1
                              && forall i :: 0 <= i < |r.value| ==>
                                   r.value[i] == Total(SectionSizes(size, sections)[..i + 1])
  {
    if sections < 1 {
      return BadSections;
    }
    var sizes := SectionSizes(size, sections);
    var points: seq<nat> := [];
    var acc := 0;
    for k := 0 to sections - 1
      invariant |points| == k && acc == Total(sizes[..k])
      invariant forall i :: 0 <= i < k ==> points[i] == Total(sizes[..i + 1])
    {
      assert sizes[..k + 1][..k] == sizes[..k];
      acc := acc + sizes[k];
      points := points + [acc];
    }
    r := Ok(points);
  }

  // ----- pieces -----

  predicate InRange(points: seq<int>, size: nat) {
    forall i :: 0 <= i < |points| ==> 0 <= points[i] <= size
  }

  /** The largest bound so far: a later, smaller split point is ignored. */
  function Reach(bounds: seq<int>): (m: nat)
    ensures forall i :: 0 <= i < |bounds| ==> bounds[i] <= m
    ensures m == 0 || m in bounds
  {
    if bounds == [] then 0
    else
      var m := Reach(bounds[..|bounds| - 1]);
      var b := bounds[|bounds| - 1];
      if b > m then b else m
  }

  /** Piece `i` covers the slices between the reach before and the reach at bound `i`. */
  function Piece<T>(axis: seq<T>, bounds: seq<int>, i: nat): (r: seq<T>)
    requires i < |bounds| && InRange(bounds, |axis|)
  {
    ReachGrows(bounds, i, |axis|);
    axis[Reach(bounds[..i])..Reach(bounds[..i + 1])]
  }

  lemma ReachGrows(bounds: seq<int>, i: nat, size: nat)
    requires i < |bounds| && InRange(bounds, size)
    ensures Reach(bounds[..i]) <= Reach(bounds[..i + 1]) <= size
    ensures Reach(bounds[..i + 1]) == if bounds[i] > Reach(bounds[..i]) then bounds[i] else Reach(bounds[..i])
  {
    assert bounds[..i + 1][..i] == bounds[..i];
    ReachInRange(bounds[..i + 1], size);
  }

  lemma ReachInRange(bounds: seq<int>, size: nat)
    requires InRange(bounds, size)
    ensures Reach(bounds) <= size
  {
  }

  /** The checks and the cut, on the sequence of slices along the axis. */
  method SplitAxis<T>(axis: seq<T>, spec: Spec) returns (r: Result<seq<seq<T>>>)
    ensures r.BadSections? <==> spec.Sections? && spec.n < 1
    ensures r.PointOutOfRange? <==> spec.Points? && !InRange(spec.points, |axis|)
    ensures r.Ok? ==> Concat(r.value) == axis
    ensures r.Ok? && spec.Points? ==>
              && |r.value| == |spec.points| + 1
              && forall i :: 0 <= i < |r.value| ==> r.value[i] == Piece(axis, spec.points + [|axis|], i)
    ensures r.Ok? && spec.Sections? ==>
              && |r.value| == spec.n
              && forall i :: 0 <= i < |r.value| ==> |r.value[i]| == SectionSizes(|axis|, spec.n)[i]
  {
    if spec.Sections? {
      r := SplitIntoSections(axis, spec.n);
      return;
    }
    var k := 0;
    while k < |spec.points|
      invariant 0 <= k <= |spec.points| && forall i :: 0 <= i < k ==> 0 <= spec.points[i] <= |axis|
    {
      if spec.points[k] < 0 || spec.points[k] > |axis| {
        return PointOutOfRange;
      }
      k := k + 1;
    }
    var pieces := Cut(axis, spec.points);
    r := Ok(pieces);
  }

  method SplitIntoSections<T>(axis: seq<T>, n: int) returns (r: Result<seq<seq<T>>>)
    ensures !r.PointOutOfRange? && (r.BadSections? <==> n < 1)
    ensures r.Ok? ==> Concat(r.value) == axis && |r.value| == n
    ensures r.Ok? ==> forall i :: 0 <= i < n ==> |r.value[i]| == SectionSizes(|axis|, n)[i]
  {
    var cut := SplitSections(|axis|, n);
    if cut.BadSections? {
      return BadSections;
    }
    assert AreSectionPoints(cut.value, |axis|, n);
    SectionPointsInRange(cut.value, |axis|, n);
    var pieces := Cut(axis, cut.value);
    forall i | 0 <= i < n ensures |pieces[i]| == SectionSizes(|axis|, n)[i] {
      SectionLength(cut.value, |axis|, n, i);
    }
    r := Ok(pieces);
  }

  lemma ConcatStep<T>(pieces: seq<seq<T>>, piece: seq<T>)
    ensures Concat(pieces + [piece]) == Concat(pieces) + piece
  {
    assert (pieces + [piece])[..|pieces|] == pieces;
  }

  lemma SliceStep<T>(axis: seq<T>, i: nat, j: nat)
    requires i <= j <= |axis|
    ensures axis[..i] + axis[i..j] == axis[..j]
  {
  }

  /** The last bound is the end of the axis, so nothing is left over. */
  lemma ReachesEnd(points: seq<int>, size: nat)
    requires InRange(points, size)
    ensures InRange(points + [size], size) && Reach(points + [size]) == size
  {
    var bounds := points + [size];
    assert bounds[|points|] == size;
    ReachInRange(bounds, size);
  }

  /** The cutting loop: each piece starts where the furthest one so far ended. */
  method Cut<T>(axis: seq<T>, points: seq<int>) returns (pieces: seq<seq<T>>)
    requires InRange(points, |axis|)
    ensures |pieces| == |points| + 1
    ensures forall i :: 0 <= i < |pieces| ==> pieces[i] == Piece(axis, points + [|axis|], i)
    ensures Concat(pieces) == axis
  {
    var bounds := points + [|axis|];
    ReachesEnd(points, |axis|);
    pieces := [];
    var prev := 0;
    for k := 0 to |bounds|
      invariant |pieces| == k && prev == Reach(bounds[..k]) && prev <= |axis|
      invariant forall i :: 0 <= i < k ==> pieces[i] == Piece(axis, bounds, i)
      invariant Concat(pieces) == axis[..prev]
    {
      ghost var done := pieces;
      pieces, prev := CutOne(axis, bounds, k, prev, pieces);
      forall i | 0 <= i < k + 1 ensures pieces[i] == Piece(axis, bounds, i) {
        if i < k { assert pieces[i] == done[i]; }
      }
    }
    assert bounds[..|bounds|] == bounds;
    assert axis[..|axis|] == axis;
  }

  method CutOne<T>(axis: seq<T>, bounds: seq<int>, k: nat, prev: nat, pieces: seq<seq<T>>)
    returns (more: seq<seq<T>>, next: nat)
    requires k < |bounds| && InRange(bounds, |axis|) && prev == Reach(bounds[..k]) && prev <= |axis|
    requires Concat(pieces) == axis[..prev]
    ensures more == pieces + [Piece(axis, bounds, k)]
    ensures next == Reach(bounds[..k + 1]) && next <= |axis| && Concat(more) == axis[..next]
  {
    var b := bounds[k];
    ReachGrows(bounds, k, |axis|);
    var length := if b - prev > 0 then b - prev else 0;
    var piece := axis[prev..prev + length];
    SliceStep(axis, prev, prev + length);
    ConcatStep(pieces, piece);
    more := pieces + [piece];
    next := if b > prev then b else prev;
  }

  /** With increasing points the reach is the last point. */
  lemma {:induction false} ReachOfTotals(sizes: seq<nat>, bounds: seq<int>, k: nat)
    requires |bounds| == |sizes| && k <= |bounds|
    requires forall i :: 0 <= i < |bounds| ==> bounds[i] == Total(sizes[..i + 1])
    ensures Reach(bounds[..k]) == Total(sizes[..k])
  {
    if k > 0 {
      ReachOfTotals(sizes, bounds, k - 1);
      assert bounds[..k][..k - 1] == bounds[..k - 1];
      TotalGrows(sizes, k - 1, k);
    }
  }

  /** `points` are the running totals of all sections but the last. */
  predicate AreSectionPoints(points: seq<int>, size: nat, n: int) {
    n >= 1 && |points| == n - 1
    && forall i :: 0 <= i < |points| ==> points[i] == Total(SectionSizes(size, n)[..i + 1])
  }

  lemma SectionPointsInRange(points: seq<int>, size: nat, n: int)
    requires AreSectionPoints(points, size, n)
    ensures InRange(points, size)
  {
    var sizes := SectionSizes(size, n);
    SectionsAreFair(size, n);
    assert sizes[..n] == sizes;
    forall i | 0 <= i < |points| ensures 0 <= points[i] <= size {
      TotalGrows(sizes, i + 1, n);
    }
  }

  lemma SectionBounds(points: seq<int>, size: nat, n: int, i: nat)
    requires AreSectionPoints(points, size, n) && i <= n
    ensures Reach((points + [size])[..i]) == Total(SectionSizes(size, n)[..i])
  {
    var sizes := SectionSizes(size, n);
    SectionsAreFair(size, n);
    assert sizes[..n] == sizes;
    ReachOfTotals(sizes, points + [size], i);
  }

  lemma SectionLength(points: seq<int>, size: nat, n: int, i: nat)
    requires AreSectionPoints(points, size, n) && i < n
    ensures Reach((points + [size])[..i + 1]) - Reach((points + [size])[..i]) == SectionSizes(size, n)[i]
  {
    var sizes := SectionSizes(size, n);
    SectionBounds(points, size, n, i);
    SectionBounds(points, size, n, i + 1);
    assert sizes[..i + 1][..i] == sizes[..i];
  }

  /** With increasing points every piece runs from one point to the next. */
  lemma AscendingPieces<T>(axis: seq<T>, points: seq<int>, bounds: seq<int>, i: nat)
    requires InRange(points, |axis|) && i <= |points| && bounds == points + [|axis|]
    requires forall j, k :: 0 <= j < k < |points| ==> points[j] <= points[k]
    ensures InRange(bounds, |axis|)
    ensures Piece(axis, bounds, i) == axis[(if i == 0 then 0 else points[i - 1])..bounds[i]]
  {
    ReachAscending(bounds, i);
    ReachAscending(bounds, i + 1);
  }

  lemma {:induction false} ReachAscending(bounds: seq<int>, k: nat)
    requires k <= |bounds| && forall i :: 0 <= i < |bounds| ==> bounds[i] >= 0
    requires forall i, j :: 0 <= i < j < |bounds| ==> bounds[i] <= bounds[j]
    ensures Reach(bounds[..k]) == if k == 0 then 0 else bounds[k - 1]
  {
    if k > 0 {
      ReachAscending(bounds, k - 1);
      assert bounds[..k][..k - 1] == bounds[..k - 1];
    }
  }
}
