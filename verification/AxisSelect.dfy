/**
 Picking slices along one axis, and the roundabout ways the composite functions do it:
 through a permutation that brings the axis to the front, and through a flattened view.
 */
module AxisSelect {
  import opened Tensors
  import opened Contraction
  import opened Tensordot

  predicate AllBelow(picks: seq<nat>, n: nat) {
    forall i :: 0 <= i < |picks| ==> picks[i] < n
  }

  function SelectEntry(t: Tensor, axis: nat, picks: seq<nat>, idx: Index): (r: real)
    requires Valid(t)
  {
    if axis < |idx| && idx[axis] < |picks| then At(t, Put(idx, axis, picks[idx[axis]])) else 0.0
  }

  /** Slice `i` of the result is slice `picks[i]` of `t`. */
  function Select(t: Tensor, axis: nat, picks: seq<nat>): (r: Tensor)
    requires Valid(t) && axis < |t.shape|
    ensures Valid(r) && r.shape == t.shape[axis := |picks|]
  {
    Build(t.shape[axis := |picks|], (idx: Index) => SelectEntry(t, axis, picks, idx))
  }

  lemma SelectAt(t: Tensor, axis: nat, picks: seq<nat>, idx: Index)
    requires Valid(t) && axis < |t.shape| && InShape(t.shape[axis := |picks|], idx)
    ensures idx[axis] < |picks|
    ensures At(Select(t, axis, picks), idx) == At(t, Put(idx, axis, picks[idx[axis]]))
  {
    assert idx[axis] < t.shape[axis := |picks|][axis];
    BuildAt(t.shape[axis := |picks|], (i: Index) => SelectEntry(t, axis, picks, i), idx);
  }

  lemma PutInShape(shape: Shape, axis: nat, n: nat, idx: Index, k: nat)
    requires axis < |shape| && InShape(shape[axis := n], idx) && k < shape[axis]
    ensures InShape(shape, Put(idx, axis, k))
  {
    assert forall i :: 0 <= i < |shape| && i != axis ==> shape[axis := n][i] == shape[i];
  }

  /** A tensor with the entries of a selection is that selection. */
  lemma SelectUnique(t: Tensor, axis: nat, picks: seq<nat>, r: Tensor)
    requires Valid(t) && Valid(r) && axis < |t.shape| && r.shape == t.shape[axis := |picks|]
    requires forall idx :: InShape(r.shape, idx) ==>
               axis < |idx| && idx[axis] < |picks| && At(r, idx) == At(t, Put(idx, axis, picks[idx[axis]]))
    ensures r == Select(t, axis, picks)
  {
    forall idx | InShape(r.shape, idx) ensures At(r, idx) == At(Select(t, axis, picks), idx) {
      SelectAt(t, axis, picks, idx);
    }
    TensorExtensionality(r, Select(t, axis, picks));
  }

  function Compose(u: seq<nat>, v: seq<nat>): (r: seq<nat>)
    requires AllBelow(v, |u|)
    ensures |r| == |v| && forall i :: 0 <= i < |v| ==> r[i] == u[v[i]]
  {
    seq(|v|, i requires 0 <= i < |v| => u[v[i]])
  }

  /** Selecting twice is selecting once. */
  lemma SelectTwice(t: Tensor, axis: nat, u: seq<nat>, v: seq<nat>)
    requires Valid(t) && axis < |t.shape| && AllBelow(v, |u|)
    ensures Select(Select(t, axis, u), axis, v) == Select(t, axis, Compose(u, v))
  {
    var s := Select(t, axis, u);
    var r := Select(s, axis, v);
    assert r.shape == t.shape[axis := |Compose(u, v)|];
    forall idx | InShape(r.shape, idx)
      ensures axis < |idx| && idx[axis] < |v| && At(r, idx) == At(t, Put(idx, axis, Compose(u, v)[idx[axis]]))
    {
      SelectAt(s, axis, v, idx);
      var j := Put(idx, axis, v[idx[axis]]);
      PutInShape(s.shape, axis, |v|, idx, v[idx[axis]]);
      SelectAt(t, axis, u, j);
      assert Put(j, axis, u[j[axis]]) == Put(idx, axis, u[v[idx[axis]]]);
    }
    SelectUnique(t, axis, Compose(u, v), r);
  }

  /** Slices `i` and `k` along the axis hold the same entries. */
  ghost predicate SameSlice(t: Tensor, axis: nat, i: nat, k: nat)
    requires Valid(t)
  {
    forall idx :: InShape(t.shape, idx) && axis < |idx| && idx[axis] == i ==> At(t, idx) == At(t, Put(idx, axis, k))
  }

  /** Replacing every slice by an equal one changes nothing. */
  lemma SelectEqualSlices(t: Tensor, axis: nat, picks: seq<nat>)
    requires Valid(t) && axis < |t.shape| && |picks| == t.shape[axis]
    requires forall i :: 0 <= i < |picks| ==> SameSlice(t, axis, i, picks[i])
    ensures Select(t, axis, picks) == t
  {
    assert t.shape[axis := |picks|] == t.shape;
    forall idx | InShape(t.shape, idx)
      ensures axis < |idx| && idx[axis] < |picks| && At(t, idx) == At(t, Put(idx, axis, picks[idx[axis]]))
    {
      assert idx[axis] < t.shape[axis];
      assert SameSlice(t, axis, idx[axis], picks[idx[axis]]);
    }
    SelectUnique(t, axis, picks, t);
  }

  // ----- through a permutation -----

  /** `q` undoes `perm`. */
  predicate Inverse(perm: seq<nat>, q: seq<nat>, n: nat) {
    IsPermutation(perm, n) && IsPermutation(q, n) && forall i :: 0 <= i < n ==> q[perm[i]] == i
  }

  lemma ScatterInverse(perm: seq<nat>, q: seq<nat>, idx: Index)
    requires Inverse(perm, q, |idx|)
    ensures Scatter(q, idx) == Gather(idx, perm)
    ensures Scatter(perm, Gather(idx, perm)) == idx
  {
    forall d | 0 <= d < |idx| ensures Gather(idx, perm)[q[d]] == idx[d] {
      var i := PosOf(perm, d);
      assert perm[i] == d && q[d] == i;
    }
    ScatterUnique(q, idx, Gather(idx, perm));
    ScatterUnique(perm, Gather(idx, perm), idx);
  }

  /** Bring the axis to the front, select there, and put the axes back. */
  function SelectVia(t: Tensor, perm: seq<nat>, q: seq<nat>, picks: seq<nat>): (r: Tensor)
    requires Valid(t) && Inverse(perm, q, |t.shape|) && |t.shape| > 0
    ensures Valid(r)
  {
    Permute(Select(Permute(t, perm), 0, picks), q)
  }

  lemma ViaShape(t: Tensor, perm: seq<nat>, q: seq<nat>, picks: seq<nat>)
    requires Valid(t) && Inverse(perm, q, |t.shape|) && |t.shape| > 0
    ensures SelectVia(t, perm, q, picks).shape == t.shape[perm[0] := |picks|]
  {
    var s, axis := t.shape, perm[0];
    var front := Gather(s, perm)[0 := |picks|];
    forall d | 0 <= d < |s| ensures Gather(front, q)[d] == s[axis := |picks|][d] {
      var i := PosOf(perm, d);
      assert perm[i] == d && q[d] == i;
    }
    assert Gather(front, q) == s[axis := |picks|];
  }

  lemma ViaEntry(t: Tensor, perm: seq<nat>, q: seq<nat>, picks: seq<nat>, idx: Index)
    requires Valid(t) && Inverse(perm, q, |t.shape|) && |t.shape| > 0 && AllBelow(picks, t.shape[perm[0]])
    requires InShape(t.shape[perm[0] := |picks|], idx)
    ensures idx[perm[0]] < |picks|
    ensures At(SelectVia(t, perm, q, picks), idx) == At(t, Put(idx, perm[0], picks[idx[perm[0]]]))
  {
    var p := Permute(t, perm);
    var front := Select(p, 0, picks);
    ViaShape(t, perm, q, picks);
    PermuteAt(front, q, idx);
    ScatterInverse(perm, q, idx);
    var v := Gather(idx, perm);
    ScatterInShape(front.shape, q, idx);
    SelectAt(p, 0, picks, v);
    var k := picks[v[0]];
    PutInShape(p.shape, 0, |picks|, v, k);
    PermuteAt(t, perm, v[0 := k]);
    assert Put(v, 0, k) == v[0 := k];
    ScatterPut(perm, v, 0, k);
  }

  /** Selecting at the front of a permuted view is selecting along the original axis. */
  lemma SelectViaIsSelect(t: Tensor, perm: seq<nat>, q: seq<nat>, picks: seq<nat>)
    requires Valid(t) && Inverse(perm, q, |t.shape|) && |t.shape| > 0 && AllBelow(picks, t.shape[perm[0]])
    ensures SelectVia(t, perm, q, picks) == Select(t, perm[0], picks)
  {
    var r, axis := SelectVia(t, perm, q, picks), perm[0];
    ViaShape(t, perm, q, picks);
    forall idx | InShape(r.shape, idx)
      ensures axis < |idx| && idx[axis] < |picks| && At(r, idx) == At(t, Put(idx, axis, picks[idx[axis]]))
    {
      ViaEntry(t, perm, q, picks, idx);
    }
    SelectUnique(t, axis, picks, r);
  }

  /** Axis 0 and another axis exchanged: its own inverse. */
  function SwapPerm(n: nat, axis: nat): (r: seq<nat>)
    requires axis < n
    ensures |r| == n && r[0] == axis
    ensures forall d :: 0 <= d < n ==> r[d] == if d == 0 then axis else if d == axis then 0 else d
  {
    seq(n, d requires 0 <= d < n => if d == 0 then axis else if d == axis then 0 else d)
  }

  lemma SwapInverse(n: nat, axis: nat)
    requires axis < n
    ensures Inverse(SwapPerm(n, axis), SwapPerm(n, axis), n)
  {
    var p := SwapPerm(n, axis);
    forall d | 0 <= d < n ensures d in p {
      assert p[p[d]] == d;
    }
  }

  /** One axis moved to the front, the others in order, and back. */
  function FrontPerm(n: nat, axis: nat): (r: seq<nat>)
    requires axis < n
    ensures |r| == n && r[0] == axis
    ensures forall d :: 0 <= d < n ==> r[d] == if d == 0 then axis else if d <= axis then d - 1 else d
  {
    seq(n, d requires 0 <= d < n => if d == 0 then axis else if d <= axis then d - 1 else d)
  }

  function BackPerm(n: nat, axis: nat): (r: seq<nat>)
    requires axis < n
    ensures |r| == n
    ensures forall d :: 0 <= d < n ==> r[d] == if d == axis then 0 else if d < axis then d + 1 else d
  {
    seq(n, d requires 0 <= d < n => if d == axis then 0 else if d < axis then d + 1 else d)
  }

  lemma FrontInverse(n: nat, axis: nat)
    requires axis < n
    ensures Inverse(FrontPerm(n, axis), BackPerm(n, axis), n)
  {
    var p, q := FrontPerm(n, axis), BackPerm(n, axis);
    forall d | 0 <= d < n ensures d in p && d in q {
      assert p[q[d]] == d && q[p[d]] == d;
    }
  }

  // ----- through a flattened view -----

  /** The slices along the first axis as rows of one matrix. */
  function AsRows(t: Tensor): (r: Tensor)
    requires Valid(t) && |t.shape| > 0
    ensures Valid(r) && r.shape == [t.shape[0], Prod(t.shape[1..])]
  {
    RavelTwo(t.shape[0], Prod(t.shape[1..]), 0, 0);
    Reshape(t, [t.shape[0], Prod(t.shape[1..])])
  }

  function SelectRows(t: Tensor, picks: seq<nat>): (r: Tensor)
    requires Valid(t) && |t.shape| > 0
    ensures Valid(r) && r.shape == t.shape[0 := |picks|]
  {
    var rest := t.shape[1..];
    RavelTwo(|picks|, Prod(rest), 0, 0);
    assert t.shape[0 := |picks|][1..] == rest;
    Reshape(Select(AsRows(t), 0, picks), t.shape[0 := |picks|])
  }

  lemma RowEntry(t: Tensor, idx: Index)
    requires Valid(t) && |t.shape| > 0 && InShape(t.shape, idx)
    ensures var j := Ravel(t.shape[1..], idx[1..]);
            InShape([t.shape[0], Prod(t.shape[1..])], [idx[0], j]) && At(AsRows(t), [idx[0], j]) == At(t, idx)
  {
    var rest := t.shape[1..];
    var j := Ravel(rest, idx[1..]);
    InShapeTail(t.shape, idx);
    RavelBound(rest, idx[1..]);
    RavelTwo(t.shape[0], Prod(rest), idx[0], j);
  }

  /** Selecting rows of the flattened view is selecting along the first axis. */
  lemma SelectRowsIsSelect(t: Tensor, picks: seq<nat>)
    requires Valid(t) && |t.shape| > 0 && AllBelow(picks, t.shape[0])
    ensures SelectRows(t, picks) == Select(t, 0, picks)
  {
    var r := SelectRows(t, picks);
    forall idx | InShape(r.shape, idx)
      ensures 0 < |idx| && idx[0] < |picks| && At(r, idx) == At(t, Put(idx, 0, picks[idx[0]]))
    {
      SelectRowsEntry(t, picks, idx);
    }
    SelectUnique(t, 0, picks, r);
  }

  lemma SelectRowsEntry(t: Tensor, picks: seq<nat>, idx: Index)
    requires Valid(t) && |t.shape| > 0 && AllBelow(picks, t.shape[0]) && InShape(t.shape[0 := |picks|], idx)
    ensures idx[0] < |picks| && At(SelectRows(t, picks), idx) == At(t, Put(idx, 0, picks[idx[0]]))
  {
    var s := t.shape[0 := |picks|];
    assert idx[0] < s[0] && s[1..] == t.shape[1..];
    var rest, k := t.shape[1..], picks[idx[0]];
    var j := Ravel(rest, idx[1..]);
    InShapeTail(s, idx);
    RavelBound(rest, idx[1..]);
    RavelTwo(|picks|, Prod(rest), idx[0], j);
    var rows := AsRows(t);
    assert rows.shape[0 := |picks|] == [|picks|, Prod(rest)];
    SelectAt(rows, 0, picks, [idx[0], j]);
    assert Put([idx[0], j], 0, k) == [k, j];
    PutInShape(t.shape, 0, |picks|, idx, k);
    assert Put(idx, 0, k)[1..] == idx[1..];
    RowEntry(t, Put(idx, 0, k));
  }
}
