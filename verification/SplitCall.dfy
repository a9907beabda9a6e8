/**
 The whole call of `tensor_split`: the dimension, the refusals, and that the pieces, put
 back one after the other, are the input.
 */
module SplitCall {
  import opened Axes
  import opened Totals
  import opened Tensors
  import opened Contraction
  import opened AxisSelect
  import opened AxisSplit
  import opened RepeatInterleave
  import opened RepeatCall

  datatype Answer = Pieces(pieces: seq<Tensor>) | OutOfRange | BadSpec(why: AxisSplit.Result<()>)

  function Positions(n: nat): (r: seq<nat>)
    ensures |r| == n && forall i :: 0 <= i < n ==> r[i] == i
  {
    seq(n, i requires 0 <= i < n => i)
  }

  function Lengths<T>(lists: seq<seq<T>>): (r: seq<nat>)
    ensures |r| == |lists| && forall i :: 0 <= i < |lists| ==> r[i] == |lists[i]|
  {
    seq(|lists|, i requires 0 <= i < |lists| => |lists[i]|)
  }

  /** The views on the listed slices. */
  function Views(t: Tensor, axis: nat, lists: seq<seq<nat>>): (r: seq<Tensor>)
    requires Valid(t) && axis < |t.shape|
    ensures |r| == |lists| && forall i :: 0 <= i < |r| ==> r[i] == Select(t, axis, lists[i])
  {
    seq(|lists|, i requires 0 <= i < |lists| => Select(t, axis, lists[i]))
  }

  // ----- putting pieces back -----

  predicate AllValid(pieces: seq<Tensor>) {
    forall i :: 0 <= i < |pieces| ==> Valid(pieces[i])
  }

  /** The entry of the concatenation: of the piece that owns the position, at the rest of it. */
  function JoinedEntry(pieces: seq<Tensor>, axis: nat, sizes: seq<nat>, idx: Index): (r: real)
    requires AllValid(pieces) && |sizes| == |pieces|
  {
    if axis < |idx| && idx[axis] < Total(sizes) then
      At(pieces[Owners(sizes)[idx[axis]]], Put(idx, axis, Within(sizes, idx[axis])))
    else 0.0
  }

  /** How far a position is inside the piece that owns it. */
  function Within(sizes: seq<nat>, p: nat): (j: nat)
    requires p < Total(sizes)
    ensures p == Total(sizes[..Owners(sizes)[p]]) + j
  {
    OwnerAt(sizes, p);
    p - Total(sizes[..Owners(sizes)[p]])
  }

  /** Concatenation along the axis of pieces of the given sizes there. */
  function Joined(shape: Shape, axis: nat, pieces: seq<Tensor>, sizes: seq<nat>): (r: Tensor)
    requires AllValid(pieces) && |sizes| == |pieces| && axis < |shape|
    ensures Valid(r) && r.shape == shape[axis := Total(sizes)]
  {
    Build(shape[axis := Total(sizes)], (idx: Index) => JoinedEntry(pieces, axis, sizes, idx))
  }

  lemma LengthsSnoc<T>(lists: seq<seq<T>>, n: nat)
    requires n == |lists| - 1
    ensures Lengths(lists)[..n] == Lengths(lists[..n])
  {
  }

  lemma {:induction false} ConcatLength<T>(lists: seq<seq<T>>)
    ensures |Concat(lists)| == Total(Lengths(lists))
  {
    if lists != [] {
      LengthsSnoc(lists, |lists| - 1);
      ConcatLength(lists[..|lists| - 1]);
    }
  }

  /** Where an entry of a list stands in the concatenation. */
  lemma {:induction false} ConcatAt<T>(lists: seq<seq<T>>, i: nat, j: nat)
    requires i < |lists| && j < |lists[i]|
    ensures Total(Lengths(lists)[..i]) + j < |Concat(lists)|
    ensures Concat(lists)[Total(Lengths(lists)[..i]) + j] == lists[i][j]
    decreases |lists|
  {
    var n := |lists| - 1;
    LengthsSnoc(lists, n);
    if i < n {
      ConcatAt(lists[..n], i, j);
      assert Lengths(lists)[..n][..i] == Lengths(lists)[..i];
    } else {
      ConcatLength(lists[..n]);
    }
  }

  /** Position `p` of the axis is entry `p - Total(sizes[..k])` of list `k`, its owner. */
  lemma OwnedPosition(lists: seq<seq<nat>>, n: nat, p: nat, sizes: seq<nat>) returns (k: nat, j: nat)
    requires Concat(lists) == Positions(n) && p < n && sizes == Lengths(lists)
    ensures Total(sizes) == n && k == Owners(sizes)[p] && k < |lists|
    ensures p == Total(sizes[..k]) + j && j < |lists[k]| && lists[k][j] == p
  {
    ConcatLength(lists);
    OwnerAt(sizes, p);
    k := Owners(sizes)[p];
    assert sizes[..k + 1][..k] == sizes[..k];
    j := p - Total(sizes[..k]);
    ConcatAt(lists, k, j);
  }

  lemma JoinedAt(t: Tensor, axis: nat, lists: seq<seq<nat>>, idx: Index, sizes: seq<nat>)
    requires Valid(t) && axis < |t.shape| && Concat(lists) == Positions(t.shape[axis]) && sizes == Lengths(lists)
    requires InShape(t.shape, idx)
    ensures JoinedEntry(Views(t, axis, lists), axis, sizes, idx) == At(t, idx)
  {
    var p := idx[axis];
    var k, j := OwnedPosition(lists, t.shape[axis], p, sizes);
    PickedEntry(t, axis, lists[k], idx, j);
    assert Put(idx, axis, p) == idx;
    JoinedEntryIs(Views(t, axis, lists), axis, sizes, idx, k, j);
  }

  lemma JoinedEntryIs(pieces: seq<Tensor>, axis: nat, sizes: seq<nat>, idx: Index, k: nat, j: nat)
    requires AllValid(pieces) && |sizes| == |pieces| && axis < |idx| && idx[axis] < Total(sizes)
    requires k == Owners(sizes)[idx[axis]] && idx[axis] == Total(sizes[..k]) + j
    ensures JoinedEntry(pieces, axis, sizes, idx) == At(pieces[k], Put(idx, axis, j))
  {
  }

  lemma PickedEntry(t: Tensor, axis: nat, picks: seq<nat>, idx: Index, j: nat)
    requires Valid(t) && axis < |t.shape| && InShape(t.shape, idx) && j < |picks|
    ensures At(Select(t, axis, picks), Put(idx, axis, j)) == At(t, Put(idx, axis, picks[j]))
  {
    var s, v := t.shape[axis := |picks|], Put(idx, axis, j);
    assert s[axis := t.shape[axis]] == t.shape;
    PutInShape(s, axis, t.shape[axis], idx, j);
    SelectAt(t, axis, picks, v);
    assert Put(v, axis, picks[j]) == Put(idx, axis, picks[j]);
  }

  /** Views on lists of slices that concatenate to the whole axis join to the input. */
  lemma ViewsRejoin(t: Tensor, axis: nat, lists: seq<seq<nat>>)
    requires Valid(t) && axis < |t.shape| && Concat(lists) == Positions(t.shape[axis])
    ensures Joined(t.shape, axis, Views(t, axis, lists), Lengths(lists)) == t
  {
    var sizes := Lengths(lists);
    var r := Joined(t.shape, axis, Views(t, axis, lists), sizes);
    ConcatLength(lists);
    assert r.shape == t.shape;
    forall idx | InShape(t.shape, idx) ensures At(r, idx) == At(t, idx) {
      BuildAt(t.shape, (i: Index) => JoinedEntry(Views(t, axis, lists), axis, sizes, i), idx);
      JoinedAt(t, axis, lists, idx, sizes);
    }
    TensorExtensionality(r, t);
  }

  /** The lengths a request asks for along an axis of `n` slices. */
  function Asked(spec: Spec, n: nat): (r: seq<nat>)
    requires spec.Sections? ==> spec.n >= 1
    requires spec.Points? ==> InRange(spec.points, n)
  {
    if spec.Sections? then SectionSizes(n, spec.n)
    else
      seq(|spec.points| + 1, i requires 0 <= i <= |spec.points| => |Piece(Positions(n), spec.points + [n], i)|)
  }

  predicate HaveSizes(shape: Shape, axis: nat, pieces: seq<Tensor>, sizes: seq<nat>)
    requires axis < |shape| && |sizes| == |pieces|
  {
    forall i :: 0 <= i < |pieces| ==> pieces[i].shape == shape[axis := sizes[i]]
  }

  /** The call refuses a dimension out of range first, then a bad request; otherwise its pieces have
      the lengths asked for along the dimension and join to the input. */
  method TensorSplit(t: Tensor, spec: Spec, dim: int) returns (r: Answer)
    requires Valid(t)
    ensures r.OutOfRange? <==> NormalDim(dim, |t.shape|).None?
    ensures NormalDim(dim, |t.shape|).Some? ==>
              var axis := NormalDim(dim, |t.shape|).value;
              && (r == BadSpec(BadSections) <==> spec.Sections? && spec.n < 1)
              && (r == BadSpec(PointOutOfRange) <==> spec.Points? && !InRange(spec.points, t.shape[axis]))
              && (r.BadSpec? ==> !r.why.Ok?)
              && (r.Pieces? ==> && AllValid(r.pieces) && |r.pieces| == |Asked(spec, t.shape[axis])|
                                && HaveSizes(t.shape, axis, r.pieces, Asked(spec, t.shape[axis]))
                                && Joined(t.shape, axis, r.pieces, Asked(spec, t.shape[axis])) == t)
  {
    var d := NormalDim(dim, |t.shape|);
    if d.None? {
      return OutOfRange;
    }
    var n := t.shape[d.value];
    var cut := SplitAxis(Positions(n), spec);
    if !cut.Ok? {
      return BadSpec(if cut.BadSections? then BadSections else PointOutOfRange);
    }
    assert Lengths(cut.value) == Asked(spec, n);
    ViewsRejoin(t, d.value, cut.value);
    r := Pieces(Views(t, d.value, cut.value));
  }
}
