/**
 The whole call of `repeat_interleave`: which branch each kind of count takes, what
 is refused, and that every accepted call is the plain definition.
 */
module RepeatCall {
  import opened Text
  import opened Axes
  import opened Tensors
  import opened Contraction
  import opened Tensordot
  import opened AxisSelect
  import opened Totals
  import opened RepeatInterleave

  /** An integer count, a float count already truncated, or a list or tensor of counts, flattened. */
  datatype Repeats = Whole(n: int) | Truncated(n: int) | PerSlice(counts: seq<int>)

  datatype Error = DimOutOfRange | NegativeRepeats | SizeDisagrees | LengthDisagrees

  datatype Result = Ok(value: Tensor) | Failed(error: Error)

  /** The list of counts the index-map path works with. */
  function CountList(repeats: Repeats, n: nat): (r: seq<int>) {
    match repeats
    case PerSlice(counts) => if |counts| == 1 && n != 1 then seq(n, _ => counts[0]) else counts
    case _ => seq(n, _ => repeats.n)
  }

  function Naturals(xs: seq<int>): (r: seq<nat>)
    requires forall i :: 0 <= i < |xs| ==> xs[i] >= 0
    ensures |r| == |xs| && forall i :: 0 <= i < |xs| ==> r[i] == xs[i]
  {
    seq(|xs|, i requires 0 <= i < |xs| => xs[i])
  }

  predicate SizeAgrees(size: Option<int>, total: nat) {
    size.Some? ==> size.value == total
  }

  /** The repetition along a known axis. */
  function Along(src: Tensor, axis: nat, repeats: Repeats, size: Option<int>): (r: Result)
    requires Valid(src) && axis < |src.shape|
    ensures r.Ok? ==> Valid(r.value)
  {
    var n := src.shape[axis];
    if repeats.Whole? then
      if repeats.n < 0 then Failed(NegativeRepeats)
      else if !SizeAgrees(size, n * repeats.n) then Failed(SizeDisagrees)
      else Ok(ScalarPath(src, axis, repeats.n))
    else
      var counts := CountList(repeats, n);
      if |counts| != n then Failed(LengthDisagrees)
      else if exists i :: 0 <= i < n && counts[i] < 0 then Failed(NegativeRepeats)
      else if !SizeAgrees(size, Total(Naturals(counts))) then Failed(SizeDisagrees)
      else Ok(IndexPath(src, axis, Naturals(counts)))
  }

  function AsRow(input: Tensor): (r: Tensor)
    requires Valid(input)
    ensures Valid(r) && r.shape == [1, |input.data|] && r.data == input.data
  {
    RavelTwo(1, |input.data|, 0, 0);
    Reshape(input, [1, |input.data|])
  }

  function Flat(t: Tensor): (r: Tensor)
    requires Valid(t)
    ensures Valid(r) && r.shape == [|t.data|] && r.data == t.data
  {
    assert [|t.data|][1..] == [];
    Reshape(t, [|t.data|])
  }

  function Interleave(input: Tensor, repeats: Repeats, dim: Option<int>, size: Option<int>): (r: Result)
    requires Valid(input)
    ensures r.Ok? ==> Valid(r.value)
  {
    match dim
    case None =>
      var picked := Along(AsRow(input), 1, repeats, size);
      if picked.Ok? then Ok(Flat(picked.value)) else picked
    case Some(d) =>
      var axis := NormalDim(d, |input.shape|);
      if axis.None? then Failed(DimOutOfRange) else Along(input, axis.value, repeats, size)
  }

  // ----- what is asked for, said without the code's branches -----

  /** `reps` gives each of `n` slices its own count, or all of them the one count. */
  predicate Asks(repeats: Repeats, n: nat, reps: seq<nat>) {
    |reps| == n && forall i :: 0 <= i < n ==> reps[i] == CountAt(repeats, i)
  }

  function CountAt(repeats: Repeats, i: nat): (c: int) {
    if repeats.PerSlice? then
      if |repeats.counts| == 1 then repeats.counts[0]
      else if i < |repeats.counts| then repeats.counts[i] else -1
    else repeats.n
  }

  predicate FitsLength(repeats: Repeats, n: nat) {
    repeats.PerSlice? ==> |repeats.counts| == 1 || |repeats.counts| == n
  }

  /** Refusals the scalar branch makes before it looks at the axis. */
  predicate NegativeWhole(repeats: Repeats) {
    repeats.Whole? && repeats.n < 0
  }

  lemma CountListAt(repeats: Repeats, n: nat)
    requires FitsLength(repeats, n)
    ensures |CountList(repeats, n)| == n
    ensures forall i :: 0 <= i < n ==> CountList(repeats, n)[i] == CountAt(repeats, i)
  {
  }

  lemma NaturalsAsked(repeats: Repeats, n: nat, reps: seq<nat>)
    requires FitsLength(repeats, n) && Asks(repeats, n, reps)
    ensures |CountList(repeats, n)| == n && (forall i :: 0 <= i < n ==> CountList(repeats, n)[i] >= 0)
    ensures Naturals(CountList(repeats, n)) == reps
  {
    CountListAt(repeats, n);
    forall i | 0 <= i < n ensures CountList(repeats, n)[i] == reps[i] {
      assert reps[i] == CountAt(repeats, i);
    }
  }

  /** Every accepted request is the plain repetition. */
  lemma AlongIsRepeated(src: Tensor, axis: nat, repeats: Repeats, size: Option<int>, reps: seq<nat>)
    requires Valid(src) && axis < |src.shape| && !NegativeWhole(repeats)
    requires FitsLength(repeats, src.shape[axis]) && Asks(repeats, src.shape[axis], reps)
    requires SizeAgrees(size, Total(reps))
    ensures Along(src, axis, repeats, size) == Ok(Repeated(src, axis, reps))
  {
    var n := src.shape[axis];
    if repeats.Whole? {
      assert reps == Same(n, repeats.n);
      TotalSame(n, repeats.n);
      ScalarPathIsRepeated(src, axis, repeats.n);
    } else {
      NaturalsAsked(repeats, n, reps);
      IndexPathIsRepeated(src, axis, reps);
    }
  }

  /** Nothing else is accepted. */
  lemma AlongRefuses(src: Tensor, axis: nat, repeats: Repeats, size: Option<int>) returns (reps: seq<nat>)
    requires Valid(src) && axis < |src.shape| && Along(src, axis, repeats, size).Ok?
    ensures !NegativeWhole(repeats) && FitsLength(repeats, src.shape[axis])
    ensures Asks(repeats, src.shape[axis], reps) && SizeAgrees(size, Total(reps))
  {
    var n := src.shape[axis];
    if repeats.Whole? {
      reps := Same(n, repeats.n);
      TotalSame(n, repeats.n);
    } else {
      CountListAt(if FitsLength(repeats, n) then repeats else Whole(0), n);
      reps := Naturals(CountList(repeats, n));
    }
  }

  ghost predicate Accepts(repeats: Repeats, n: nat, size: Option<int>, reps: seq<nat>) {
    !NegativeWhole(repeats) && FitsLength(repeats, n) && Asks(repeats, n, reps) && SizeAgrees(size, Total(reps))
  }

  /** Along a given dimension the call succeeds exactly when the dimension is in range and the
      counts can be read, and then repeats the slices of the input. */
  lemma InterleaveAlongDim(input: Tensor, repeats: Repeats, d: int, size: Option<int>, r: Tensor)
    requires Valid(input)
    ensures Interleave(input, repeats, Some(d), size) == Ok(r) <==>
            exists axis: nat, reps | axis < |input.shape| ::
              NormalDim(d, |input.shape|) == Some(axis)
              && Accepts(repeats, input.shape[axis], size, reps) && r == Repeated(input, axis, reps)
  {
    var axis := NormalDim(d, |input.shape|);
    if axis.Some? {
      AlongExactly(input, axis.value, repeats, size, r);
    }
  }

  lemma AlongExactly(src: Tensor, axis: nat, repeats: Repeats, size: Option<int>, r: Tensor)
    requires Valid(src) && axis < |src.shape|
    ensures Along(src, axis, repeats, size) == Ok(r) <==>
            exists reps :: Accepts(repeats, src.shape[axis], size, reps) && r == Repeated(src, axis, reps)
  {
    if Along(src, axis, repeats, size).Ok? {
      var reps := AlongRefuses(src, axis, repeats, size);
      AlongIsRepeated(src, axis, repeats, size, reps);
      assert Accepts(repeats, src.shape[axis], size, reps);
    }
    forall reps | Accepts(repeats, src.shape[axis], size, reps)
      ensures Along(src, axis, repeats, size) == Ok(Repeated(src, axis, reps))
    {
      AlongIsRepeated(src, axis, repeats, size, reps);
    }
  }

  // ----- without a dimension -----

  lemma RowRepeated(input: Tensor, reps: seq<nat>)
    requires Valid(input) && |reps| == |input.data|
    ensures Repeated(AsRow(input), 1, reps).data
         == seq(Total(reps), p requires 0 <= p < Total(reps) => input.data[Owners(reps)[p]])
  {
    var row := AsRow(input);
    var r := Repeated(row, 1, reps);
    assert r.shape == [1, Total(reps)];
    RavelTwo(1, Total(reps), 0, 0);
    forall p | 0 <= p < Total(reps) ensures r.data[p] == input.data[Owners(reps)[p]] {
      RowRepeatedAt(input, reps, p);
    }
  }

  lemma RowAt(t: Tensor, n: nat, p: nat)
    requires Valid(t) && t.shape == [1, n] && p < n
    ensures |t.data| == n && InShape(t.shape, [0, p]) && At(t, [0, p]) == t.data[p]
  {
    RavelTwo(1, n, 0, p);
    RavelBound(t.shape, [0, p]);
  }

  lemma RowRepeatedAt(input: Tensor, reps: seq<nat>, p: nat)
    requires Valid(input) && |reps| == |input.data| && p < Total(reps)
    ensures |Repeated(AsRow(input), 1, reps).data| == Total(reps)
    ensures Repeated(AsRow(input), 1, reps).data[p] == input.data[Owners(reps)[p]]
  {
    var row, o := AsRow(input), Owners(reps)[p];
    var r := Repeated(row, 1, reps);
    assert r.shape == [1, Total(reps)];
    RowAt(r, Total(reps), p);
    RowAt(row, |reps|, o);
    SelectAt(row, 1, Owners(reps), [0, p]);
    assert Put([0, p], 1, o) == [0, o];
  }

  /** The flattened input with each entry repeated by its own count. */
  function FlatRepeated(input: Tensor, reps: seq<nat>): (r: Tensor)
    requires Valid(input) && |reps| == |input.data|
  {
    Tensor([Total(reps)], seq(Total(reps), p requires 0 <= p < Total(reps) => input.data[Owners(reps)[p]]))
  }

  lemma FlatAccepted(input: Tensor, repeats: Repeats, size: Option<int>, reps: seq<nat>)
    requires Valid(input) && Accepts(repeats, |input.data|, size, reps)
    ensures Interleave(input, repeats, None, size) == Ok(FlatRepeated(input, reps))
  {
    AlongIsRepeated(AsRow(input), 1, repeats, size, reps);
    RowRepeated(input, reps);
  }

  /** Without a dimension the call succeeds exactly when the counts can be read, and then repeats the
      flattened input entry by entry. */
  lemma InterleaveFlat(input: Tensor, repeats: Repeats, size: Option<int>, r: Tensor)
    requires Valid(input)
    ensures Interleave(input, repeats, None, size) == Ok(r) <==>
            exists reps | |reps| == |input.data| ::
              Accepts(repeats, |input.data|, size, reps) && r == FlatRepeated(input, reps)
  {
    if Interleave(input, repeats, None, size).Ok? {
      var reps := AlongRefuses(AsRow(input), 1, repeats, size);
      assert Accepts(repeats, |input.data|, size, reps);
      FlatAccepted(input, repeats, size, reps);
    }
    forall reps | |reps| == |input.data| && Accepts(repeats, |input.data|, size, reps)
      ensures Interleave(input, repeats, None, size) == Ok(FlatRepeated(input, reps))
    {
      FlatAccepted(input, repeats, size, reps);
    }
  }

  // ----- one count, given in two ways -----

  /** The size of the axis a call works along; absent when the dimension is out of range. */
  function AxisSize(input: Tensor, dim: Option<int>): (n: Option<nat>) {
    if dim.None? then Some(|input.data|)
    else
      var axis := NormalDim(dim.value, |input.shape|);
      if axis.None? then None else Some(input.shape[axis.value])
  }

  /** An integer count and the same count as a one-element list give the same answer, errors
      included, except for a negative count on an empty axis, which only the first refuses. */
  lemma OneCountAgreesExactly(input: Tensor, c: int, dim: Option<int>, size: Option<int>)
    requires Valid(input)
    ensures Interleave(input, Whole(c), dim, size) == Interleave(input, PerSlice([c]), dim, size)
       <==> !(c < 0 && AxisSize(input, dim) == Some(0))
    ensures Interleave(input, Truncated(c), dim, size) == Interleave(input, PerSlice([c]), dim, size)
  {
    if dim.None? {
      AlongOneCount(AsRow(input), 1, c, size);
    } else {
      var axis := NormalDim(dim.value, |input.shape|);
      if axis.Some? { AlongOneCount(input, axis.value, c, size); }
    }
  }

  lemma AlongOneCount(src: Tensor, axis: nat, c: int, size: Option<int>)
    requires Valid(src) && axis < |src.shape|
    ensures Along(src, axis, Whole(c), size) == Along(src, axis, PerSlice([c]), size)
       <==> !(c < 0 && src.shape[axis] == 0)
    ensures Along(src, axis, Truncated(c), size) == Along(src, axis, PerSlice([c]), size)
  {
    var n := src.shape[axis];
    assert CountList(PerSlice([c]), n) == CountList(Truncated(c), n);
    if c >= 0 {
      TotalSame(n, c);
      ScalarPathIsRepeated(src, axis, c);
      assert Naturals(CountList(PerSlice([c]), n)) == Same(n, c);
    } else if n > 0 {
      assert CountList(PerSlice([c]), n)[0] < 0;
    }
  }
}
