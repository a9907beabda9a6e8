/**
 Repeating slices along an axis: the expanded-view path for one count and the
 cumulative-sum/search path for a count per slice both equal the plain definition.
 */
module RepeatInterleave {
  import opened Totals
  import opened Tensors
  import opened Contraction
  import opened Tensordot
  import opened AxisSelect
  import B = BroadcastGrad

  // ----- the plain definition -----

  /** `reps[0]` copies of 0, then `reps[1]` copies of 1, and so on. */
  function Owners(reps: seq<nat>): (r: seq<nat>)
    ensures |r| == Total(reps) && AllBelow(r, |reps|)
  {
    if reps == [] then []
    else
      var n := |reps| - 1;
      Owners(reps[..n]) + Same(reps[n], n)
  }

  /** Each slice copied as often as its count says, in order. */
  function Repeated(t: Tensor, axis: nat, reps: seq<nat>): (r: Tensor)
    requires Valid(t) && axis < |t.shape| && |reps| == t.shape[axis]
    ensures Valid(r) && r.shape == t.shape[axis := Total(reps)]
  {
    Select(t, axis, Owners(reps))
  }

  // ----- running totals and search -----

  function RunningTotals(reps: seq<nat>): (r: seq<nat>)
    ensures |r| == |reps|
    ensures forall i :: 0 <= i < |reps| ==> r[i] == Total(reps[..i + 1])
  {
    seq(|reps|, i requires 0 <= i < |reps| => Total(reps[..i + 1]))
  }

  /** The first position whose value exceeds `p`, or the length: `searchsorted` on the right. */
  function SearchRight(ends: seq<nat>, p: nat): (k: nat)
    ensures k <= |ends|
    ensures forall i :: 0 <= i < k ==> ends[i] <= p
    ensures k < |ends| ==> p < ends[k]
  {
    if ends == [] || p < ends[0] then 0 else 1 + SearchRight(ends[1..], p)
  }

  function Clamp(k: nat, n: nat): (r: nat)
    requires n > 0
    ensures r < n
  {
    if k < n then k else n - 1
  }

  /** The owner of each output position, as the search finds it. */
  function Segments(reps: seq<nat>): (r: seq<nat>)
    requires reps != []
    ensures |r| == Total(reps)
  {
    seq(Total(reps), p requires 0 <= p < Total(reps) => Clamp(SearchRight(RunningTotals(reps), p), |reps|))
  }

  /** Position `p` belongs to the slice whose running total first exceeds it. */
  lemma {:induction false} OwnerAt(reps: seq<nat>, p: nat)
    requires p < Total(reps)
    ensures var k := Owners(reps)[p]; Total(reps[..k]) <= p < Total(reps[..k + 1])
  {
    var n := |reps| - 1;
    var before := reps[..n];
    assert reps[..n + 1] == reps;
    if p < Total(before) {
      OwnerAt(before, p);
      var k := Owners(before)[p];
      assert before[..k] == reps[..k] && before[..k + 1] == reps[..k + 1];
    }
  }

  lemma OwnerUnique(reps: seq<nat>, p: nat, j: nat, k: nat)
    requires j < |reps| && k < |reps|
    requires Total(reps[..j]) <= p < Total(reps[..j + 1]) && Total(reps[..k]) <= p < Total(reps[..k + 1])
    ensures j == k
  {
    if j < k { TotalGrows(reps, j + 1, k); }
    if k < j { TotalGrows(reps, k + 1, j); }
  }

  lemma SearchFindsOwner(reps: seq<nat>, p: nat)
    requires p < Total(reps)
    ensures SearchRight(RunningTotals(reps), p) == Owners(reps)[p]
  {
    var ends := RunningTotals(reps);
    var k, o := SearchRight(ends, p), Owners(reps)[p];
    OwnerAt(reps, p);
    assert reps[..|reps|] == reps;
    assert ends[|reps| - 1] == Total(reps);
    assert Total(reps[..k]) <= p by {
      if k > 0 { assert ends[k - 1] <= p; }
    }
    OwnerUnique(reps, p, k, o);
  }

  lemma SegmentsAreOwners(reps: seq<nat>)
    requires reps != []
    ensures Segments(reps) == Owners(reps)
  {
    forall p | 0 <= p < Total(reps) ensures Segments(reps)[p] == Owners(reps)[p] {
      SearchFindsOwner(reps, p);
    }
  }

  /** The index-map path: search the owners, select at the front of a transposed view. */
  function IndexPath(t: Tensor, axis: nat, reps: seq<nat>): (r: Tensor)
    requires Valid(t) && axis < |t.shape| && |reps| == t.shape[axis]
    ensures Valid(r)
  {
    if Total(reps) == 0 then EmptyResult(t, axis)
    else if axis == 0 then Select(t, 0, Segments(reps))
    else
      SwapInverse(|t.shape|, axis);
      SelectVia(t, SwapPerm(|t.shape|, axis), SwapPerm(|t.shape|, axis), Segments(reps))
  }

  /** No slices along the axis. */
  function EmptyResult(t: Tensor, axis: nat): (r: Tensor)
    requires axis < |t.shape|
    ensures Valid(r) && r.shape == t.shape[axis := 0]
  {
    ProdWithZero(t.shape[axis := 0], axis);
    Tensor(t.shape[axis := 0], [])
  }

  lemma {:induction false} ProdWithZero(s: Shape, axis: nat)
    requires axis < |s| && s[axis] == 0
    ensures Prod(s) == 0
  {
    if axis > 0 { ProdWithZero(s[1..], axis - 1); }
  }

  lemma EmptyIsSelect(t: Tensor, axis: nat)
    requires Valid(t) && axis < |t.shape|
    ensures EmptyResult(t, axis) == Select(t, axis, [])
  {
    ProdWithZero(t.shape[axis := 0], axis);
  }

  /** The index-map path is the plain definition, for every list of counts. */
  lemma IndexPathIsRepeated(t: Tensor, axis: nat, reps: seq<nat>)
    requires Valid(t) && axis < |t.shape| && |reps| == t.shape[axis]
    ensures IndexPath(t, axis, reps) == Repeated(t, axis, reps)
  {
    if Total(reps) == 0 {
      EmptyIsSelect(t, axis);
      assert Owners(reps) == [];
    } else {
      SegmentsAreOwners(reps);
      if axis != 0 {
        SwapInverse(|t.shape|, axis);
        SelectViaIsSelect(t, SwapPerm(|t.shape|, axis), SwapPerm(|t.shape|, axis), Segments(reps));
      }
    }
  }

  // ----- one count for every slice -----

  function Same(n: nat, c: nat): (r: seq<nat>)
    ensures |r| == n && forall i :: 0 <= i < n ==> r[i] == c
  {
    seq(n, _ => c)
  }

  lemma {:induction false} TotalSame(n: nat, c: nat)
    ensures Total(Same(n, c)) == n * c
  {
    if n > 0 {
      TotalSame(n - 1, c);
      assert Same(n, c)[..n - 1] == Same(n - 1, c);
      assert n * c == (n - 1) * c + c;
    }
  }

  lemma SameBracket(n: nat, c: nat, k: nat)
    requires k < n
    ensures Total(Same(n, c)[..k]) == k * c && Total(Same(n, c)[..k + 1]) == k * c + c
  {
    assert Same(n, c)[..k] == Same(k, c) && Same(n, c)[..k + 1] == Same(k + 1, c);
    TotalSame(k, c);
    assert Same(k + 1, c)[..k] == Same(k, c);
  }

  lemma OwnerSame(n: nat, c: nat, p: nat)
    requires p < n * c
    ensures Total(Same(n, c)) == n * c && c > 0 && p / c < n && Owners(Same(n, c))[p] == p / c
  {
    TotalSame(n, c);
    var q, r := SplitCoordinate(n, c, p);
    SameBracket(n, c, q);
    OwnerAt(Same(n, c), p);
    OwnerUnique(Same(n, c), p, q, Owners(Same(n, c))[p]);
  }

  function FourAxes(s: Shape, axis: nat, c: nat): (r: Shape)
    requires axis < |s|
    ensures |r| == 4
  {
    [Prod(s[..axis]), s[axis], c, Prod(s[axis + 1..])]
  }

  /** The scalar path: fold to three axes, stretch a companion axis, fold back. */
  function ScalarPath(t: Tensor, axis: nat, c: nat): (r: Tensor)
    requires Valid(t) && axis < |t.shape|
    ensures Valid(r) && r.shape == t.shape[axis := t.shape[axis] * c]
  {
    if t.shape[axis] * c == 0 then EmptyResult(t, axis)
    else
      FourAxesFit(t.shape, axis, c);
      Reshape(B.Expand(Reshape(t, FourAxes(t.shape, axis, 1)), FourAxes(t.shape, axis, c)),
              t.shape[axis := t.shape[axis] * c])
  }

  lemma FourAxesFit(s: Shape, axis: nat, c: nat)
    requires axis < |s|
    ensures Prod(FourAxes(s, axis, 1)) == Prod(s)
    ensures Prod(FourAxes(s, axis, c)) == Prod(s[axis := s[axis] * c])
    ensures B.ExpandsTo(FourAxes(s, axis, 1), FourAxes(s, axis, c))
  {
    FourAxesProd(s, axis, c);
    FourAxesProd(s, axis, 1);
    assert s[axis := s[axis] * 1] == s;
  }

  lemma FourAxesProd(s: Shape, axis: nat, c: nat)
    requires axis < |s|
    ensures Prod(FourAxes(s, axis, c)) == Prod(s[axis := s[axis] * c])
  {
    ProdFour(Prod(s[..axis]), s[axis], c, Prod(s[axis + 1..]));
    OutParts(s, axis, s[axis] * c);
    FoldProd(s[axis := s[axis] * c], axis);
  }

  lemma ProdFour(a: nat, b: nat, c: nat, d: nat)
    ensures Prod([a, b, c, d]) == (a * (b * c)) * d
  {
    assert [a, b, c, d] == [a] + ([b] + ([c] + [d]));
    assert Prod([d]) == d by { assert [d][1..] == []; }
    assert ([c] + [d])[1..] == [d] && ([b] + ([c] + [d]))[1..] == [c] + [d];
    assert ([a] + ([b] + ([c] + [d])))[1..] == [b] + ([c] + [d]);
    assert Prod([c] + [d]) == c * d;
    MulAssociate(b, c, d);
    MulAssociate(a, b * c, d);
  }

  lemma OutParts(s: Shape, axis: nat, m: nat)
    requires axis < |s|
    ensures s[axis := m][..axis] == s[..axis] && s[axis := m][axis + 1..] == s[axis + 1..]
  {
  }

  /** A shape seen as the block above the axis, the axis, and the block below. */
  lemma FoldProd(s: Shape, axis: nat)
    requires axis < |s|
    ensures Prod(s) == (Prod(s[..axis]) * s[axis]) * Prod(s[axis + 1..])
  {
    assert s == s[..axis] + ([s[axis]] + s[axis + 1..]);
    ProdAppend(s[..axis], [s[axis]] + s[axis + 1..]);
    assert ([s[axis]] + s[axis + 1..])[1..] == s[axis + 1..];
    MulAssociate(Prod(s[..axis]), s[axis], Prod(s[axis + 1..]));
  }

  /** The position of coordinates `x`, `k`, `y` in three folded axes. */
  function Place(x: nat, n: nat, k: nat, p: nat, y: nat): (r: nat) {
    (x * n + k) * p + y
  }

  lemma FoldRavel(s: Shape, axis: nat, idx: Index)
    requires axis < |s| && |idx| == |s|
    ensures Ravel(s, idx) == Place(Ravel(s[..axis], idx[..axis]), s[axis], idx[axis], Prod(s[axis + 1..]),
                                   Ravel(s[axis + 1..], idx[axis + 1..]))
  {
    assert s == s[..axis] + ([s[axis]] + s[axis + 1..]) && idx == idx[..axis] + ([idx[axis]] + idx[axis + 1..]);
    FoldParts(s[..axis], s[axis], s[axis + 1..], idx[..axis], idx[axis], idx[axis + 1..]);
  }

  lemma RavelCons(n: nat, t: Shape, k: nat, j: Index)
    requires |j| == |t|
    ensures Prod([n] + t) == n * Prod(t) && Ravel([n] + t, [k] + j) == k * Prod(t) + Ravel(t, j)
  {
    assert ([n] + t)[1..] == t && ([k] + j)[1..] == j;
  }

  lemma FoldParts(s: Shape, n: nat, t: Shape, i: Index, k: nat, j: Index)
    requires |i| == |s| && |j| == |t|
    ensures Ravel(s + ([n] + t), i + ([k] + j)) == Place(Ravel(s, i), n, k, Prod(t), Ravel(t, j))
  {
    RavelAppend(s, [n] + t, i, [k] + j);
    RavelCons(n, t, k, j);
    PlaceRegrouped(Ravel(s, i), n, k, Prod(t), Ravel(t, j), Prod([n] + t), Ravel([n] + t, [k] + j));
  }

  lemma PlaceRegrouped(x: nat, n: nat, k: nat, p: nat, y: nat, m: nat, z: nat)
    requires m == n * p && z == k * p + y
    ensures x * m + z == Place(x, n, k, p, y)
  {
    RegroupDigits(x, n, p, k, y);
  }

  /** Two coordinates of the middle axis are one coordinate of the folded one. */
  lemma PlaceSplit(i: nat, n: nat, q: nat, c: nat, r: nat, p: nat, j: nat)
    ensures Place(i, n * c, q * c + r, p, j) == Place(i * n + q, c, r, p, j)
  {
    RegroupDigits(i, n, c, q, r);
  }

  lemma RavelFour(a: nat, n: nat, c: nat, b: nat, i: nat, q: nat, r: nat, j: nat)
    ensures Ravel([a, n, c, b], [i, q, r, j]) == Place(i * n + q, c, r, b, j)
  {
    assert [a, n, c, b] == [a, n] + ([c] + [b]) && [i, q, r, j] == [i, q] + ([r] + [j]);
    FoldParts([a, n], c, [b], [i, q], r, [j]);
    RavelTwo(a, n, i, q);
    assert [b] == [b] + [] && [j] == [j] + [];
    RavelCons(b, [], j, []);
  }

  lemma ThinPlace(a: nat, n: nat, b: nat, i: nat, q: nat, j: nat)
    ensures Ravel([a, n, 1, b], [i, q, 0, j]) == Place(i, n, q, b, j)
  {
    RavelFour(a, n, 1, b, i, q, 0, j);
    PlaceSplit(i, n, q, 1, 0, b, j);
  }

  lemma BlockIndices(s: Shape, axis: nat, m: nat, idx: Index)
    requires axis < |s| && InShape(s[axis := m], idx)
    ensures idx[axis] < m
    ensures InShape(s[..axis], idx[..axis]) && InShape(s[axis + 1..], idx[axis + 1..])
  {
    var out := s[axis := m];
    OutParts(s, axis, m);
    assert idx[axis] < out[axis];
    assert out == out[..axis] + out[axis..];
    InShapeSplit(out[..axis], out[axis..], idx);
    InShapeTail(out[axis..], idx[axis..]);
    assert out[axis..][1..] == out[axis + 1..] && idx[axis..][1..] == idx[axis + 1..];
  }

  lemma SplitCoordinate(n: nat, c: nat, p: nat) returns (q: nat, r: nat)
    requires p < n * c
    ensures c > 0 && q == p / c && q < n && r < c && p == q * c + r
  {
    DigitFits(n, c, p);
    q, r := p / c, p % c;
  }

  /** One output entry of the scalar path, from its three coordinates. */
  lemma ScalarEntry(t: Tensor, axis: nat, c: nat, idx: Index)
    requires Valid(t) && axis < |t.shape| && t.shape[axis] * c > 0
    requires InShape(t.shape[axis := t.shape[axis] * c], idx)
    ensures c > 0 && idx[axis] / c < t.shape[axis]
    ensures At(ScalarPath(t, axis, c), idx) == At(t, Put(idx, axis, idx[axis] / c))
  {
    var s := t.shape;
    BlockIndices(s, axis, s[axis] * c, idx);
    var q, r := SplitCoordinate(s[axis], c, idx[axis]);
    var i, j := Ravel(s[..axis], idx[..axis]), Ravel(s[axis + 1..], idx[axis + 1..]);
    RavelBound(s[..axis], idx[..axis]);
    RavelBound(s[axis + 1..], idx[axis + 1..]);
    ScalarData(t, axis, c, idx, i, q, r, j);
  }

  lemma ScalarData(t: Tensor, axis: nat, c: nat, idx: Index, i: nat, q: nat, r: nat, j: nat)
    requires Valid(t) && axis < |t.shape| && t.shape[axis] * c > 0
    requires InShape(t.shape[axis := t.shape[axis] * c], idx)
    requires InShape(t.shape[..axis], idx[..axis]) && InShape(t.shape[axis + 1..], idx[axis + 1..])
    requires i == Ravel(t.shape[..axis], idx[..axis]) && j == Ravel(t.shape[axis + 1..], idx[axis + 1..])
    requires i < Prod(t.shape[..axis]) && q < t.shape[axis] && r < c && j < Prod(t.shape[axis + 1..])
    requires idx[axis] == q * c + r
    ensures At(ScalarPath(t, axis, c), idx) == At(t, Put(idx, axis, q))
  {
    OutPosition(t.shape, axis, c, idx, i, q, r, j);
    StretchedEntry(t, axis, c, FourAxes(t.shape, axis, c), i, q, r, j);
    SourcePositionOf(t, axis, idx, i, q, j);
  }

  /** The output position is the four-axis position of the split coordinate. */
  lemma OutPosition(s: Shape, axis: nat, c: nat, idx: Index, i: nat, q: nat, r: nat, j: nat)
    requires axis < |s| && |idx| == |s| && idx[axis] == q * c + r
    requires i == Ravel(s[..axis], idx[..axis]) && j == Ravel(s[axis + 1..], idx[axis + 1..])
    ensures Ravel(s[axis := s[axis] * c], idx)
         == Ravel(FourAxes(s, axis, c), [i, q, r, j])
  {
    var n := s[axis];
    OutParts(s, axis, n * c);
    FoldRavel(s[axis := n * c], axis, idx);
    RavelFour(Prod(s[..axis]), n, c, Prod(s[axis + 1..]), i, q, r, j);
    PlaceSplit(i, n, q, c, r, Prod(s[axis + 1..]), j);
  }

  /** A companion axis of size 1 stretched to `c` is read at 0. */
  lemma CompanionEntry(view: Tensor, a: nat, n: nat, c: nat, b: nat, i: nat, q: nat, r: nat, j: nat)
    requires Valid(view) && view.shape == [a, n, 1, b] && B.ExpandsTo(view.shape, [a, n, c, b])
    requires i < a && q < n && r < c && j < b
    ensures InShape([a, n, c, b], [i, q, r, j]) && InShape([a, n, 1, b], [i, q, 0, j])
    ensures At(B.Expand(view, [a, n, c, b]), [i, q, r, j]) == At(view, [i, q, 0, j])
  {
    var idx: Index := [i, q, r, j];
    BuildAt([a, n, c, b], (v: Index) => B.ExpandEntry(view, v), idx);
    assert idx[0..] == idx;
    assert B.SourceIndex(view.shape, idx) == [i, q, 0, j];
  }

  /** The stretched view read at four coordinates is the input at three. */
  lemma StretchedEntry(t: Tensor, axis: nat, c: nat, wide: Shape, i: nat, q: nat, r: nat, j: nat)
    requires Valid(t) && axis < |t.shape| && t.shape[axis] * c > 0
    requires wide == FourAxes(t.shape, axis, c)
    requires i < wide[0] && q < wide[1] && r < c && j < wide[3]
    ensures InShape(wide, [i, q, r, j]) && Prod(wide) == |ScalarPath(t, axis, c).data|
    ensures Ravel(wide, [i, q, r, j]) < Prod(wide)
    ensures Place(i, wide[1], q, wide[3], j) < |t.data|
    ensures ScalarPath(t, axis, c).data[Ravel(wide, [i, q, r, j])] == t.data[Place(i, wide[1], q, wide[3], j)]
  {
    FourAxesFit(t.shape, axis, c);
    var thin := FourAxes(t.shape, axis, 1);
    assert thin == [wide[0], wide[1], 1, wide[3]] && wide == [wide[0], wide[1], c, wide[3]];
    var view := Reshape(t, thin);
    CompanionEntry(view, wide[0], wide[1], c, wide[3], i, q, r, j);
    RavelBound(wide, [i, q, r, j]);
    RavelBound(thin, [i, q, 0, j]);
    ThinPlace(wide[0], wide[1], wide[3], i, q, j);
  }

  lemma SourcePositionOf(t: Tensor, axis: nat, idx: Index, i: nat, q: nat, j: nat)
    requires Valid(t) && axis < |t.shape| && |idx| == |t.shape| && q < t.shape[axis]
    requires InShape(t.shape[..axis], idx[..axis]) && InShape(t.shape[axis + 1..], idx[axis + 1..])
    requires i == Ravel(t.shape[..axis], idx[..axis]) && j == Ravel(t.shape[axis + 1..], idx[axis + 1..])
    ensures InShape(t.shape, Put(idx, axis, q))
    ensures Ravel(t.shape, Put(idx, axis, q)) == Place(i, t.shape[axis], q, Prod(t.shape[axis + 1..]), j)
  {
    var s, jdx := t.shape, Put(idx, axis, q);
    assert jdx[..axis] == idx[..axis] && jdx[axis + 1..] == idx[axis + 1..];
    forall k | 0 <= k < |s| ensures jdx[k] < s[k] {
      if k < axis {
        assert idx[..axis][k] < s[..axis][k];
      } else if k > axis {
        assert idx[axis + 1..][k - axis - 1] < s[axis + 1..][k - axis - 1];
      }
    }
    FoldRavel(s, axis, jdx);
  }

  /** The scalar path is the plain definition with one count for all slices, hence also
      the index-map path, for every rank, axis and count. */
  lemma ScalarPathIsRepeated(t: Tensor, axis: nat, c: nat)
    requires Valid(t) && axis < |t.shape|
    ensures ScalarPath(t, axis, c) == Repeated(t, axis, Same(t.shape[axis], c))
    ensures ScalarPath(t, axis, c) == IndexPath(t, axis, Same(t.shape[axis], c))
  {
    var n := t.shape[axis];
    var reps := Same(n, c);
    TotalSame(n, c);
    IndexPathIsRepeated(t, axis, reps);
    if n * c == 0 {
      EmptyIsSelect(t, axis);
      assert Owners(reps) == [];
    } else {
      var r := ScalarPath(t, axis, c);
      assert r.shape == t.shape[axis := n * c];
      forall idx | InShape(r.shape, idx)
        ensures axis < |idx| && idx[axis] < |Owners(reps)|
        ensures At(r, idx) == At(t, Put(idx, axis, Owners(reps)[idx[axis]]))
      {
        assert idx[axis] < t.shape[axis := n * c][axis];
        ScalarEntry(t, axis, c, idx);
        OwnerSame(n, c, idx[axis]);
      }
      SelectUnique(t, axis, Owners(reps), r);
    }
  }
}
