/**
 Collapsing runs of equal slices along an axis, or of equal entries of the flattened
 input, and the round trip through repetition.
 */
module UniqueConsecutive {
  import opened Text
  import opened Axes
  import opened Tensors
  import opened Contraction
  import opened Tensordot
  import opened AxisSelect
  import opened RepeatInterleave
  import opened RepeatCall
  import opened Runs

  datatype Coded = Coded(output: Tensor, inverse: seq<int>, counts: seq<int>)

  datatype Answer = Done(coded: Coded) | OutOfRange

  // ----- along a dimension -----

  /** Row `i` of a matrix differs somewhere from the row above it. */
  predicate RowChanges(flat: Tensor, m: nat, i: nat)
    requires Valid(flat) && i > 0
  {
    exists j: nat :: j < m && At(flat, [i, j]) != At(flat, [i - 1, j])
  }

  function RowFlags(flat: Tensor, n: nat, m: nat): (r: seq<bool>)
    requires Valid(flat) && n > 0
    ensures |r| == n && r[0]
  {
    if n == 1 then [true]
    else [true] + seq(n - 1, i requires 0 <= i < n - 1 => RowChanges(flat, m, i + 1))
  }

  function MoveToFront(t: Tensor, dim: nat): (r: Tensor)
    requires Valid(t) && dim < |t.shape|
    ensures Valid(r) && |r.shape| == |t.shape| && r.shape[0] == t.shape[dim]
  {
    FrontInverse(|t.shape|, dim);
    Permute(t, FrontPerm(|t.shape|, dim))
  }

  function MoveBack(t: Tensor, dim: nat): (r: Tensor)
    requires Valid(t) && dim < |t.shape|
    ensures Valid(r)
  {
    FrontInverse(|t.shape|, dim);
    Permute(t, BackPerm(|t.shape|, dim))
  }

  function DimFlags(t: Tensor, dim: nat): (r: seq<bool>)
    requires Valid(t) && dim < |t.shape|
    ensures |r| == t.shape[dim] && Starts(r)
  {
    var moved := MoveToFront(t, dim);
    if moved.shape[0] == 0 then []
    else RowFlags(AsRows(moved), moved.shape[0], Prod(moved.shape[1..]))
  }

  function DimPath(t: Tensor, dim: nat): (r: Coded)
    requires Valid(t) && dim < |t.shape|
    ensures Valid(r.output)
  {
    var moved := MoveToFront(t, dim);
    if moved.shape[0] == 0 then
      ProdWithZero(t.shape, dim);
      Coded(Tensor(t.shape, []), [], [])
    else
      var flags := DimFlags(t, dim);
      Coded(MoveBack(SelectRows(moved, Kept(flags)), dim), RunNumbers(flags), Lengths(flags))
  }

  // ----- over the flattened input -----

  function FlatPath(t: Tensor): (r: Coded)
    requires Valid(t)
    ensures Valid(r.output)
  {
    var v := t.data;
    if v == [] then Coded(Vector([]), [], [])
    else
      var flags := Flags(v);
      LastNumber(flags);
      NumbersBelow(flags);
      Coded(Vector(Masked(v, flags)), RunNumbers(flags), Tally(RunNumbers(flags)[|v| - 1] + 1, Numbers(flags)))
  }

  function Vector(v: seq<real>): (t: Tensor)
    ensures Valid(t) && t.shape == [|v|] && t.data == v
  {
    assert [|v|][1..] == [] && Prod([]) == 1;
    Tensor([|v|], v)
  }

  function Unique(t: Tensor, dim: Option<int>): (r: Answer)
    requires Valid(t)
    ensures r.Done? ==> Valid(r.coded.output)
  {
    if dim.None? then Done(FlatPath(t))
    else
      var d := NormalDim(dim.value, |t.shape|);
      if d.None? then OutOfRange else Done(DimPath(t, d.value))
  }

  // ----- rows and slices -----

  function RowAt(flat: Tensor, m: nat, i: nat): (r: seq<real>)
    requires Valid(flat)
    ensures |r| == m && forall j :: 0 <= j < m ==> r[j] == At(flat, [i, j])
  {
    seq(m, j requires 0 <= j < m => At(flat, [i, j]))
  }

  function RowList(flat: Tensor, n: nat, m: nat): (r: seq<seq<real>>)
    requires Valid(flat)
    ensures |r| == n && forall i :: 0 <= i < n ==> r[i] == RowAt(flat, m, i)
  {
    seq(n, i requires 0 <= i < n => RowAt(flat, m, i))
  }

  lemma RowChangesExactly(flat: Tensor, m: nat, i: nat)
    requires Valid(flat) && i > 0
    ensures RowChanges(flat, m, i) <==> RowAt(flat, m, i) != RowAt(flat, m, i - 1)
  {
    var a, b := RowAt(flat, m, i), RowAt(flat, m, i - 1);
    if a != b {
      var j := FirstDifference(a, b);
      assert At(flat, [i, j]) != At(flat, [i - 1, j]);
    }
  }

  lemma FirstDifference(a: seq<real>, b: seq<real>) returns (j: nat)
    requires |a| == |b| && a != b
    ensures j < |a| && a[j] != b[j]
  {
    j :| j < |a| && a[j] != b[j];
  }

  lemma RowFlagsAreFlags(flat: Tensor, n: nat, m: nat)
    requires Valid(flat) && n > 0
    ensures RowFlags(flat, n, m) == Flags(RowList(flat, n, m))
  {
    var f, g := RowFlags(flat, n, m), Flags(RowList(flat, n, m));
    forall i | 0 <= i < n ensures f[i] == g[i] {
      RowFlagAt(flat, n, m, i);
    }
  }

  lemma RowFlagAt(flat: Tensor, n: nat, m: nat, i: nat)
    requires Valid(flat) && i < n
    ensures RowFlags(flat, n, m)[i] == Flags(RowList(flat, n, m))[i]
  {
    if i > 0 { RowChangesExactly(flat, m, i); }
  }

  /** Equal rows of the flattened view are equal slices along the first axis. */
  lemma RowsAreSlices(u: Tensor, i: nat, k: nat)
    requires Valid(u) && |u.shape| > 0 && i < u.shape[0] && k < u.shape[0]
    ensures RowAt(AsRows(u), Prod(u.shape[1..]), i) == RowAt(AsRows(u), Prod(u.shape[1..]), k)
       <==> SameSlice(u, 0, i, k)
  {
    var m, rows := Prod(u.shape[1..]), AsRows(u);
    if RowAt(rows, m, i) == RowAt(rows, m, k) {
      forall idx | InShape(u.shape, idx) && 0 < |idx| && idx[0] == i ensures At(u, idx) == At(u, Put(idx, 0, k)) {
        SliceEntry(u, idx, i, k);
      }
    }
    if SameSlice(u, 0, i, k) {
      forall j | 0 <= j < m ensures RowAt(rows, m, i)[j] == RowAt(rows, m, k)[j] {
        EntryIndex(u, i, k, j);
      }
    }
  }

  lemma SliceEntry(u: Tensor, idx: Index, i: nat, k: nat)
    requires Valid(u) && |u.shape| > 0 && k < u.shape[0] && InShape(u.shape, idx) && idx[0] == i
    requires RowAt(AsRows(u), Prod(u.shape[1..]), i) == RowAt(AsRows(u), Prod(u.shape[1..]), k)
    ensures At(u, idx) == At(u, Put(idx, 0, k))
  {
    var j := Ravel(u.shape[1..], idx[1..]);
    InShapeTail(u.shape, idx);
    RavelBound(u.shape[1..], idx[1..]);
    RowEntry(u, idx);
    assert u.shape[0 := u.shape[0]] == u.shape;
    PutInShape(u.shape, 0, u.shape[0], idx, k);
    assert Put(idx, 0, k)[1..] == idx[1..];
    RowEntry(u, Put(idx, 0, k));
    assert RowAt(AsRows(u), Prod(u.shape[1..]), i)[j] == RowAt(AsRows(u), Prod(u.shape[1..]), k)[j];
  }

  lemma EntryIndex(u: Tensor, i: nat, k: nat, j: nat)
    requires Valid(u) && |u.shape| > 0 && i < u.shape[0] && k < u.shape[0] && j < Prod(u.shape[1..])
    requires SameSlice(u, 0, i, k)
    ensures At(AsRows(u), [i, j]) == At(AsRows(u), [k, j])
  {
    var at := Unravel(u.shape[1..], j);
    EntryOfRow(u, i, j, at);
    EntryOfRow(u, k, j, at);
    assert Put([i] + at, 0, k) == [k] + at;
  }

  lemma EntryOfRow(u: Tensor, i: nat, j: nat, at: Index)
    requires Valid(u) && |u.shape| > 0 && i < u.shape[0] && j < Prod(u.shape[1..]) && at == Unravel(u.shape[1..], j)
    ensures InShape(u.shape, [i] + at) && At(AsRows(u), [i, j]) == At(u, [i] + at)
  {
    RavelUnravel(u.shape[1..], j);
    RavelHead(u.shape, i, at);
    assert ([i] + at)[1..] == at;
    RowEntry(u, [i] + at);
  }

  /** Equal slices of the moved tensor are equal slices along the dimension. */
  lemma MovedSlices(t: Tensor, dim: nat, i: nat, k: nat)
    requires Valid(t) && dim < |t.shape| && i < t.shape[dim] && k < t.shape[dim]
    ensures SameSlice(MoveToFront(t, dim), 0, i, k) <==> SameSlice(t, dim, i, k)
  {
    var u := MoveToFront(t, dim);
    if SameSlice(u, 0, i, k) {
      forall idx | InShape(t.shape, idx) && dim < |idx| && idx[dim] == i ensures At(t, idx) == At(t, Put(idx, dim, k)) {
        FrontOf(t, dim, idx, k);
      }
    }
    if SameSlice(t, dim, i, k) {
      forall v | InShape(u.shape, v) && 0 < |v| && v[0] == i ensures At(u, v) == At(u, Put(v, 0, k)) {
        MovedEntry(t, dim, v, k);
      }
    }
  }

  /** An entry of the moved tensor and its neighbour along the first axis. */
  lemma MovedEntry(t: Tensor, dim: nat, v: Index, k: nat)
    requires Valid(t) && dim < |t.shape| && InShape(MoveToFront(t, dim).shape, v) && k < t.shape[dim]
    ensures IsPermutation(FrontPerm(|t.shape|, dim), |v|)
    ensures var idx := Scatter(FrontPerm(|t.shape|, dim), v);
            InShape(t.shape, idx) && idx[dim] == v[0]
            && At(MoveToFront(t, dim), v) == At(t, idx)
            && At(MoveToFront(t, dim), Put(v, 0, k)) == At(t, Put(idx, dim, k))
  {
    var u, perm := MoveToFront(t, dim), FrontPerm(|t.shape|, dim);
    FrontInverse(|t.shape|, dim);
    ScatterInShape(t.shape, perm, v);
    PermuteAt(t, perm, v);
    assert u.shape[0 := u.shape[0]] == u.shape;
    PutInShape(u.shape, 0, u.shape[0], v, k);
    PermuteAt(t, perm, v[0 := k]);
    ScatterPut(perm, v, 0, k);
  }

  lemma FrontOf(t: Tensor, dim: nat, idx: Index, k: nat)
    requires Valid(t) && dim < |t.shape| && InShape(t.shape, idx) && k < t.shape[dim]
    requires SameSlice(MoveToFront(t, dim), 0, idx[dim], k)
    ensures At(t, idx) == At(t, Put(idx, dim, k))
  {
    var u, perm := MoveToFront(t, dim), FrontPerm(|t.shape|, dim);
    FrontInverse(|t.shape|, dim);
    ScatterInverse(perm, BackPerm(|t.shape|, dim), idx);
    var v := Gather(idx, perm);
    assert InShape(u.shape, v) && v[0] == idx[dim];
    MovedEntry(t, dim, v, k);
  }

  // ----- the coded tensor -----

  /** The rows the flags are taken from. */
  function SliceRows(t: Tensor, dim: nat): (r: seq<seq<real>>)
    requires Valid(t) && dim < |t.shape|
    ensures |r| == t.shape[dim]
  {
    var u := MoveToFront(t, dim);
    RowList(AsRows(u), u.shape[0], Prod(u.shape[1..]))
  }

  lemma DimFlagsAreFlags(t: Tensor, dim: nat)
    requires Valid(t) && dim < |t.shape|
    ensures DimFlags(t, dim) == Flags(SliceRows(t, dim))
  {
    var u := MoveToFront(t, dim);
    if u.shape[0] > 0 { RowFlagsAreFlags(AsRows(u), u.shape[0], Prod(u.shape[1..])); }
  }

  lemma SliceRowsExactly(t: Tensor, dim: nat, i: nat, k: nat)
    requires Valid(t) && dim < |t.shape| && i < t.shape[dim] && k < t.shape[dim]
    ensures SliceRows(t, dim)[i] == SliceRows(t, dim)[k] <==> SameSlice(t, dim, i, k)
  {
    RowsAreSlices(MoveToFront(t, dim), i, k);
    MovedSlices(t, dim, i, k);
  }

  lemma KeptBelow(flags: seq<bool>)
    ensures AllBelow(Kept(flags), |flags|)
  {
  }

  /** The roundabout construction picks the first slice of every run. */
  lemma DimOutput(t: Tensor, dim: nat)
    requires Valid(t) && dim < |t.shape|
    ensures DimPath(t, dim).output == Select(t, dim, Kept(DimFlags(t, dim)))
    ensures DimPath(t, dim).inverse == RunNumbers(DimFlags(t, dim))
    ensures DimPath(t, dim).counts == Lengths(DimFlags(t, dim))
  {
    var flags := DimFlags(t, dim);
    if t.shape[dim] == 0 {
      assert t.shape[dim := 0] == t.shape;
      EmptyIsSelect(t, dim);
    } else {
      var n := |t.shape|;
      FrontInverse(n, dim);
      KeptBelow(flags);
      SelectRowsIsSelect(MoveToFront(t, dim), Kept(flags));
      SelectViaIsSelect(t, FrontPerm(n, dim), BackPerm(n, dim), Kept(flags));
    }
  }

  /** Run numbers lead from every slice to the kept slice of its run. */
  lemma ReadBack(t: Tensor, dim: nat)
    requires Valid(t) && dim < |t.shape|
    ensures AllBelow(Numbers(DimFlags(t, dim)), |Kept(DimFlags(t, dim))|)
    ensures Select(Select(t, dim, Kept(DimFlags(t, dim))), dim, Numbers(DimFlags(t, dim))) == t
  {
    var flags := DimFlags(t, dim);
    NumbersBelow(flags);
    SelectTwice(t, dim, Kept(flags), Numbers(flags));
    var picks := Compose(Kept(flags), Numbers(flags));
    DimFlagsAreFlags(t, dim);
    forall i | 0 <= i < |picks| ensures SameSlice(t, dim, i, picks[i]) {
      RunHolds(SliceRows(t, dim), i);
      SliceRowsExactly(t, dim, i, picks[i]);
    }
    SelectEqualSlices(t, dim, picks);
  }

  /** Neighbouring slices of the output differ. */
  lemma NeighboursDiffer(t: Tensor, dim: nat, j: nat)
    requires Valid(t) && dim < |t.shape| && j + 1 < |Kept(DimFlags(t, dim))|
    ensures !SameSlice(Select(t, dim, Kept(DimFlags(t, dim))), dim, j, j + 1)
  {
    var kept := Kept(DimFlags(t, dim));
    DimFlagsAreFlags(t, dim);
    KeptDiffer(SliceRows(t, dim), j);
    SliceRowsExactly(t, dim, kept[j], kept[j + 1]);
    if SameSlice(Select(t, dim, kept), dim, j, j + 1) {
      PickedSlices(t, dim, kept, j, j + 1);
    }
  }

  lemma PickedSlices(t: Tensor, dim: nat, picks: seq<nat>, i: nat, k: nat)
    requires Valid(t) && dim < |t.shape| && i < |picks| && k < |picks| && AllBelow(picks, t.shape[dim])
    requires SameSlice(Select(t, dim, picks), dim, i, k)
    ensures SameSlice(t, dim, picks[i], picks[k])
  {
    forall idx | InShape(t.shape, idx) && dim < |idx| && idx[dim] == picks[i]
      ensures At(t, idx) == At(t, Put(idx, dim, picks[k]))
    {
      PickedEntry(t, dim, picks, i, k, idx);
    }
  }

  lemma PickedEntry(t: Tensor, dim: nat, picks: seq<nat>, i: nat, k: nat, idx: Index)
    requires Valid(t) && dim < |t.shape| && i < |picks| && k < |picks|
    requires SameSlice(Select(t, dim, picks), dim, i, k)
    requires InShape(t.shape, idx) && idx[dim] == picks[i]
    ensures At(t, idx) == At(t, Put(idx, dim, picks[k]))
  {
    var s := Select(t, dim, picks);
    var a, b := Put(idx, dim, i), Put(idx, dim, k);
    assert s.shape[dim := t.shape[dim]] == t.shape;
    PutInShape(s.shape, dim, t.shape[dim], idx, i);
    PutInShape(s.shape, dim, t.shape[dim], idx, k);
    SelectAt(t, dim, picks, a);
    SelectAt(t, dim, picks, b);
    assert Put(a, dim, k) == b;
    assert Put(a, dim, picks[i]) == idx && Put(b, dim, picks[k]) == Put(idx, dim, picks[k]);
  }

  // ----- main results -----

  /** The shape of a run-length code of `t` along `dim`: positive counts, run numbers in range,
      and no two neighbouring output slices equal. */
  ghost predicate Codes(t: Tensor, dim: nat, c: Coded)
    requires Valid(t) && Valid(c.output)
  {
    && dim < |t.shape| == |c.output.shape|
    && (forall j :: 0 <= j < |c.counts| ==> c.counts[j] > 0)
    && |c.counts| == c.output.shape[dim] && |c.inverse| == t.shape[dim]
    && (forall i :: 0 <= i < |c.inverse| ==> 0 <= c.inverse[i] < |c.counts|)
    && (forall i: nat, j: nat :: j == i + 1 && j < |c.counts| ==> !SameSlice(c.output, dim, i, j))
  }

  /** Every slice of the input is found in the output by its run number, neighbouring output slices
      differ, the counts are positive, and repeating the output by its counts gives the input. */
  lemma DimRoundTrip(t: Tensor, dim: nat)
    requires Valid(t) && dim < |t.shape|
    ensures Codes(t, dim, DimPath(t, dim))
    ensures Select(DimPath(t, dim).output, dim, Naturals(DimPath(t, dim).inverse)) == t
    ensures Interleave(DimPath(t, dim).output, PerSlice(DimPath(t, dim).counts), Some(dim), Some(t.shape[dim])) == Ok(t)
  {
    var flags, c := DimFlags(t, dim), DimPath(t, dim);
    DimOutput(t, dim);
    NumbersBelow(flags);
    ReadBack(t, dim);
    LengthsCover(flags);
    LengthsOwn(flags);
    assert Naturals(c.inverse) == Numbers(flags);
    forall i: nat, j: nat | j == i + 1 && j < |c.counts| ensures !SameSlice(c.output, dim, i, j) {
      NeighboursDiffer(t, dim, i);
    }
    AlongIsRepeated(c.output, dim, PerSlice(c.counts), Some(t.shape[dim]), Lengths(flags));
  }

  // ----- the flattened input -----

  lemma VectorAt(v: seq<real>, i: nat)
    requires i < |v|
    ensures InShape(Vector(v).shape, [i]) && At(Vector(v), [i]) == v[i]
  {
    assert [|v|][1..] == [] && [i][1..] == [];
    assert Prod([]) == 1 && Ravel([], []) == 0;
    assert Ravel([|v|], [i]) == i;
  }

  lemma VectorSlices(v: seq<real>, i: nat, k: nat)
    requires i < |v| && k < |v|
    ensures SameSlice(Vector(v), 0, i, k) <==> v[i] == v[k]
  {
    VectorAt(v, i);
    VectorAt(v, k);
    assert Put([i], 0, k) == [k];
    if v[i] == v[k] {
      forall idx | InShape(Vector(v).shape, idx) && 0 < |idx| && idx[0] == i
        ensures At(Vector(v), idx) == At(Vector(v), Put(idx, 0, k))
      {
        assert idx == [i];
      }
    }
  }

  lemma VectorFlags(v: seq<real>)
    ensures DimFlags(Vector(v), 0) == Flags(v)
  {
    var t := Vector(v);
    DimFlagsAreFlags(t, 0);
    forall i | 0 < i < |v| ensures SliceRows(t, 0)[i] == SliceRows(t, 0)[i - 1] <==> v[i] == v[i - 1] {
      SliceRowsExactly(t, 0, i, i - 1);
      VectorSlices(v, i, i - 1);
    }
  }

  lemma VectorSelect(v: seq<real>, picks: seq<nat>)
    requires AllBelow(picks, |v|)
    ensures Select(Vector(v), 0, picks) == Vector(seq(|picks|, j requires 0 <= j < |picks| => v[picks[j]]))
  {
    var w := seq(|picks|, j requires 0 <= j < |picks| => v[picks[j]]);
    var t, r := Vector(v), Vector(w);
    assert t.shape[0 := |picks|] == r.shape;
    forall idx | InShape(r.shape, idx)
      ensures 0 < |idx| && idx[0] < |picks| && At(r, idx) == At(t, Put(idx, 0, picks[idx[0]]))
    {
      assert idx == [idx[0]];
      assert Put(idx, 0, picks[idx[0]]) == [picks[idx[0]]];
      VectorAt(w, idx[0]);
      VectorAt(v, picks[idx[0]]);
    }
    SelectUnique(t, 0, picks, r);
  }

  /** On a one-dimensional input the two paths give the same answer. */
  lemma PathsAgree(v: seq<real>)
    ensures DimPath(Vector(v), 0) == FlatPath(Vector(v))
  {
    var flags := Flags(v);
    VectorFlags(v);
    DimOutput(Vector(v), 0);
    KeptBelow(flags);
    VectorSelect(v, Kept(flags));
    MaskedIsKept(v, flags);
    assert Masked(v, flags) == seq(|Kept(flags)|, j requires 0 <= j < |Kept(flags)| => v[Kept(flags)[j]]);
    if v != [] { LastNumber(flags); }
  }

  /** On a vector, repetition along its dimension and without a dimension agree. */
  lemma VectorInterleave(v: seq<real>, repeats: Repeats, size: Option<int>, reps: seq<nat>)
    requires Accepts(repeats, |v|, size, reps)
    ensures Interleave(Vector(v), repeats, None, size) == Interleave(Vector(v), repeats, Some(0), size)
  {
    FlatAccepted(Vector(v), repeats, size, reps);
    AlongIsRepeated(Vector(v), 0, repeats, size, reps);
    VectorSelect(v, Owners(reps));
  }

  lemma CountsAccepted(t: Tensor, dim: nat)
    requires Valid(t) && dim < |t.shape|
    ensures var c := DimPath(t, dim);
            Accepts(PerSlice(c.counts), |c.counts|, Some(t.shape[dim]), Lengths(DimFlags(t, dim)))
  {
    DimOutput(t, dim);
    LengthsCover(DimFlags(t, dim));
  }

  /** The flattened input is coded as a vector, and read back by repetition with or without a
      dimension. */
  lemma FlatRoundTrip(t: Tensor, c: Coded)
    requires Valid(t) && Unique(t, None) == Done(c)
    ensures Codes(Vector(t.data), 0, c)
    ensures Interleave(c.output, PerSlice(c.counts), Some(0), Some(|t.data|)) == Ok(Vector(t.data))
    ensures Interleave(c.output, PerSlice(c.counts), None, Some(|t.data|)) == Ok(Vector(t.data))
  {
    assert FlatPath(t) == FlatPath(Vector(t.data));
    PathsAgree(t.data);
    DimRoundTrip(Vector(t.data), 0);
    CountsAccepted(Vector(t.data), 0);
    FlatInterleave(t.data, c);
  }

  lemma FlatInterleave(v: seq<real>, c: Coded)
    requires c == FlatPath(Vector(v)) == DimPath(Vector(v), 0)
    requires Accepts(PerSlice(c.counts), |c.counts|, Some(|v|), Lengths(DimFlags(Vector(v), 0)))
    ensures Interleave(c.output, PerSlice(c.counts), None, Some(|v|))
         == Interleave(c.output, PerSlice(c.counts), Some(0), Some(|v|))
  {
    var w := c.output.data;
    assert c.output == Vector(w);
    DimOutput(Vector(v), 0);
    VectorInterleave(w, PerSlice(c.counts), Some(|v|), Lengths(DimFlags(Vector(v), 0)));
  }

  /** The answer along a dimension in range, read back by repetition along that dimension. */
  lemma UniqueRoundTrip(t: Tensor, d: int)
    requires Valid(t)
    ensures Unique(t, Some(d)).Done? <==> -(|t.shape| as int) <= d < |t.shape|
    ensures Unique(t, Some(d)).Done? ==>
              var c := Unique(t, Some(d)).coded;
              Interleave(c.output, PerSlice(c.counts), Some(d), None) == Ok(t)
  {
    var dim := NormalDim(d, |t.shape|);
    if dim.Some? {
      DimRoundTrip(t, dim.value);
      CountsAccepted(t, dim.value);
      AlongIsRepeated(DimPath(t, dim.value).output, dim.value, PerSlice(DimPath(t, dim.value).counts), None,
                      Lengths(DimFlags(t, dim.value)));
      AlongIsRepeated(DimPath(t, dim.value).output, dim.value, PerSlice(DimPath(t, dim.value).counts),
                      Some(t.shape[dim.value]), Lengths(DimFlags(t, dim.value)));
    }
  }
}
