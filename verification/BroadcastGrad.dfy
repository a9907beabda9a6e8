/**
 Expansion to a broadcast shape and its backward pass: the backward sum is the exact
 adjoint of the expansion.
 */
module BroadcastGrad {
  import opened Sums
  import opened Tensors

  /** `target` is `shape` with axes added in front and axes of size 1 stretched. */
  predicate ExpandsTo(shape: Shape, target: Shape) {
    |shape| <= |target|
    && forall i :: 0 <= i < |shape| ==> shape[i] == 1 || target[|target| - |shape| + i] == shape[i]
  }

  /** Which entry of the input an index of the expansion reads. */
  function SourceIndex(shape: Shape, idx: Index): (r: Index)
    requires |shape| <= |idx|
    ensures |r| == |shape|
  {
    Clip(shape, idx[|idx| - |shape|..])
  }

  function ExpandEntry(x: Tensor, idx: Index): (r: real)
    requires Valid(x)
  {
    if |x.shape| <= |idx| then At(x, SourceIndex(x.shape, idx)) else 0.0
  }

  function Expand(x: Tensor, target: Shape): (r: Tensor)
    requires Valid(x) && ExpandsTo(x.shape, target)
    ensures Valid(r) && r.shape == target
  {
    Build(target, (idx: Index) => ExpandEntry(x, idx))
  }

  // ----- the reduction -----

  function KeepShape(shape: Shape, dims: seq<nat>): (r: Shape)
    ensures |r| == |shape|
    ensures forall i :: 0 <= i < |shape| ==> r[i] == if i in dims then 1 else shape[i]
  {
    seq(|shape|, i requires 0 <= i < |shape| => if i in dims then 1 else shape[i])
  }

  function Project(dims: seq<nat>, idx: Index): (r: Index)
    ensures |r| == |idx|
    ensures forall i :: 0 <= i < |idx| ==> r[i] == if i in dims then 0 else idx[i]
  {
    seq(|idx|, i requires 0 <= i < |idx| => if i in dims then 0 else idx[i])
  }

  /** Entries of `g` whose coordinates outside `dims` are those of `at`, zero elsewhere. */
  function FibreAt(g: Tensor, dims: seq<nat>, at: Index, k: nat): (r: real)
    requires Valid(g)
  {
    if k < |g.data| && Project(dims, Unravel(g.shape, k)) == at then g.data[k] else 0.0
  }

  function Fibre(g: Tensor, dims: seq<nat>, at: Index): (f: nat -> real)
    requires Valid(g)
  {
    (k: nat) => FibreAt(g, dims, at, k)
  }

  function SumEntry(g: Tensor, dims: seq<nat>, at: Index): (r: real)
    requires Valid(g)
  {
    Sum(|g.data|, Fibre(g, dims, at))
  }

  /** The native sum over `dims` that keeps them as axes of size 1. */
  function SumKeep(g: Tensor, dims: seq<nat>): (r: Tensor)
    requires Valid(g)
    ensures Valid(r) && r.shape == KeepShape(g.shape, dims)
  {
    Build(KeepShape(g.shape, dims), (at: Index) => SumEntry(g, dims, at))
  }

  function Range(n: nat): (r: seq<nat>)
    ensures |r| == n && forall d: nat :: d in r <==> d < n
  {
    if n == 0 then [] else Range(n - 1) + [n - 1]
  }

  /** Axes the backward pass sums: those added in front and those of size 1. */
  function ReducedDims(shape: Shape, extra: nat): (r: seq<nat>)
    ensures forall d: nat :: d in r <==> d < extra || (extra <= d < extra + |shape| && shape[d - extra] == 1)
  {
    Range(extra) + StretchedDims(shape, extra, |shape|)
  }

  function StretchedDims(shape: Shape, extra: nat, n: nat): (r: seq<nat>)
    requires n <= |shape|
    ensures forall d: nat :: d in r <==> extra <= d < extra + n && shape[d - extra] == 1
  {
    if n == 0 then []
    else StretchedDims(shape, extra, n - 1) + (if shape[n - 1] == 1 then [extra + n - 1] else [])
  }

  lemma KeepShapeIsPadded(shape: Shape, target: Shape)
    requires ExpandsTo(shape, target)
    ensures var extra := |target| - |shape|;
            KeepShape(target, ReducedDims(shape, extra)) == Ones(extra) + shape
  {
  }

  lemma ProjectIsPadded(shape: Shape, target: Shape, idx: Index)
    requires ExpandsTo(shape, target) && |idx| == |target|
    ensures var extra := |target| - |shape|;
            Project(ReducedDims(shape, extra), idx) == Zeros(extra) + SourceIndex(shape, idx)
  {
    var extra := |target| - |shape|;
    var dims := ReducedDims(shape, extra);
    forall i | 0 <= i < |idx|
      ensures Project(dims, idx)[i] == (Zeros(extra) + SourceIndex(shape, idx))[i]
    {
      assert i in dims <==> i < extra || shape[i - extra] == 1;
    }
  }

  /** The backward pass: sum if there is anything to sum, then restore the shape. */
  function Backward(shape: Shape, g: Tensor): (r: Tensor)
    requires Valid(g) && ExpandsTo(shape, g.shape)
    ensures Valid(r) && r.shape == shape
  {
    var extra := |g.shape| - |shape|;
    var dims := ReducedDims(shape, extra);
    var summed := if dims == [] then g else SumKeep(g, dims);
    SummedShape(shape, g.shape, dims);
    NothingToSum(shape, g.shape);
    Reshape(summed, shape)
  }

  lemma NothingToSum(shape: Shape, target: Shape)
    requires ExpandsTo(shape, target)
    ensures ReducedDims(shape, |target| - |shape|) == [] ==> shape == target
  {
    var extra := |target| - |shape|;
    var dims := ReducedDims(shape, extra);
    assert extra > 0 ==> 0 in dims;
    assert forall i :: 0 <= i < |shape| && shape[i] == 1 ==> extra + i in dims;
  }

  method DimsToReduce(shape: Shape, extra: nat) returns (dims: seq<nat>)
    ensures dims == ReducedDims(shape, extra)
  {
    dims := Range(extra);
    for i := 0 to |shape|
      invariant dims == Range(extra) + StretchedDims(shape, extra, i)
    {
      if shape[i] == 1 {
        dims := dims + [extra + i];
      }
    }
  }

  method BackwardPass(shape: Shape, g: Tensor) returns (r: Tensor)
    requires Valid(g) && ExpandsTo(shape, g.shape)
    ensures r == Backward(shape, g)
  {
    var extra := |g.shape| - |shape|;
    var dims := DimsToReduce(shape, extra);
    SummedShape(shape, g.shape, dims);
    NothingToSum(shape, g.shape);
    var summed := g;
    if dims != [] {
      summed := SumKeep(g, dims);
    }
    r := Reshape(summed, shape);
  }

  // ----- adjointness -----

  function Products(x: seq<real>, y: seq<real>): (f: nat -> real) {
    (k: nat) => if k < |x| && k < |y| then Times(x[k], y[k]) else 0.0
  }

  function Inner(x: Tensor, y: Tensor): (r: real) {
    Sum(|x.data|, Products(x.data, y.data))
  }

  /** The position in the input read by position `k` of the expansion. */
  function SourcePosition(shape: Shape, target: Shape, k: nat): (j: nat)
    requires ExpandsTo(shape, target) && k < Prod(target)
    ensures j < Prod(shape)
  {
    SourceInShape(shape, target, k);
    RavelBound(shape, SourceIndex(shape, Unravel(target, k)));
    Ravel(shape, SourceIndex(shape, Unravel(target, k)))
  }

  lemma ClipInShape(shape: Shape, target: Shape, idx: Index)
    requires ExpandsTo(shape, target) && InShape(target, idx)
    ensures InShape(shape, SourceIndex(shape, idx))
  {
    var extra, r := |target| - |shape|, SourceIndex(shape, idx);
    forall i | 0 <= i < |shape| ensures r[i] < shape[i] {
      assert idx[extra + i] < target[extra + i];
    }
  }

  lemma SourceInShape(shape: Shape, target: Shape, k: nat)
    requires ExpandsTo(shape, target) && k < Prod(target)
    ensures InShape(shape, SourceIndex(shape, Unravel(target, k)))
  {
    RavelUnravel(target, k);
    ClipInShape(shape, target, Unravel(target, k));
  }

  lemma ExpandData(x: Tensor, target: Shape, k: nat)
    requires Valid(x) && ExpandsTo(x.shape, target) && k < Prod(target)
    ensures Expand(x, target).data[k] == x.data[SourcePosition(x.shape, target, k)]
  {
    SourceInShape(x.shape, target, k);
  }

  /** A position belongs to the fibre over `j` exactly when it reads `j`. */
  lemma FibreIsPreimage(shape: Shape, target: Shape, k: nat, j: nat, dims: seq<nat>, keep: Shape)
    requires ExpandsTo(shape, target) && k < Prod(target) && j < Prod(shape)
    requires dims == ReducedDims(shape, |target| - |shape|) && keep == KeepShape(target, dims)
    requires Prod(keep) == Prod(shape)
    ensures Project(dims, Unravel(target, k)) == Unravel(keep, j) <==> SourcePosition(shape, target, k) == j
  {
    var extra := |target| - |shape|;
    var src := SourceIndex(shape, Unravel(target, k));
    KeepShapeIsPadded(shape, target);
    ProjectIsPadded(shape, target, Unravel(target, k));
    SourceInShape(shape, target, k);
    RavelLeadingOnes(extra, shape, src);
    InShapeAppend(Ones(extra), shape, Zeros(extra), src);
    RavelUnravel(keep, j);
    UnravelRavel(keep, Zeros(extra) + src);
  }

  /** What `j` receives: the entries of `g` that read `j`. */
  function ReceivedFrom(shape: Shape, g: Tensor, j: nat, k: nat): (r: real)
    requires Valid(g) && ExpandsTo(shape, g.shape)
  {
    if k < |g.data| && SourcePosition(shape, g.shape, k) == j then g.data[k] else 0.0
  }

  function Received(shape: Shape, g: Tensor, j: nat): (f: nat -> real)
    requires Valid(g) && ExpandsTo(shape, g.shape)
  {
    (k: nat) => ReceivedFrom(shape, g, j, k)
  }

  lemma FibreTerm(g: Tensor, dims: seq<nat>, at: Index, shape: Shape, j: nat, k: nat)
    requires Valid(g) && ExpandsTo(shape, g.shape) && k < |g.data|
    requires Project(dims, Unravel(g.shape, k)) == at <==> SourcePosition(shape, g.shape, k) == j
    ensures FibreAt(g, dims, at, k) == ReceivedFrom(shape, g, j, k)
  {
  }

  lemma SumKeepData(g: Tensor, dims: seq<nat>, j: nat)
    requires Valid(g) && j < Prod(KeepShape(g.shape, dims))
    ensures SumKeep(g, dims).data[j] == Sum(|g.data|, Fibre(g, dims, Unravel(KeepShape(g.shape, dims), j)))
  {
  }

  lemma SummedShape(shape: Shape, target: Shape, dims: seq<nat>)
    requires ExpandsTo(shape, target) && dims == ReducedDims(shape, |target| - |shape|)
    ensures Prod(KeepShape(target, dims)) == Prod(shape)
  {
    KeepShapeIsPadded(shape, target);
    RavelLeadingOnes(|target| - |shape|, shape, Zeros(|shape|));
  }

  lemma SummedData(shape: Shape, g: Tensor, j: nat, dims: seq<nat>)
    requires Valid(g) && ExpandsTo(shape, g.shape) && j < Prod(shape)
    requires dims == ReducedDims(shape, |g.shape| - |shape|)
    ensures Prod(KeepShape(g.shape, dims)) == Prod(shape)
    ensures SumKeep(g, dims).data[j] == Sum(|g.data|, Received(shape, g, j))
  {
    SummedShape(shape, g.shape, dims);
    SumKeepData(g, dims, j);
    SummedFibre(shape, g, j, dims, Unravel(KeepShape(g.shape, dims), j));
  }

  lemma SummedFibre(shape: Shape, g: Tensor, j: nat, dims: seq<nat>, at: Index)
    requires Valid(g) && ExpandsTo(shape, g.shape) && j < Prod(shape)
    requires dims == ReducedDims(shape, |g.shape| - |shape|) && Prod(KeepShape(g.shape, dims)) == Prod(shape)
    requires at == Unravel(KeepShape(g.shape, dims), j)
    ensures Sum(|g.data|, Fibre(g, dims, at)) == Sum(|g.data|, Received(shape, g, j))
  {
    var f, h := Fibre(g, dims, at), Received(shape, g, j);
    forall k: nat | k < |g.data| ensures f(k) == h(k) {
      SameFibre(shape, g, j, dims, at, k);
    }
    SumCongruence(|g.data|, f, h);
  }

  lemma SameFibre(shape: Shape, g: Tensor, j: nat, dims: seq<nat>, at: Index, k: nat)
    requires Valid(g) && ExpandsTo(shape, g.shape) && j < Prod(shape) && k < |g.data|
    requires dims == ReducedDims(shape, |g.shape| - |shape|) && Prod(KeepShape(g.shape, dims)) == Prod(shape)
    requires at == Unravel(KeepShape(g.shape, dims), j)
    ensures Fibre(g, dims, at)(k) == Received(shape, g, j)(k)
  {
    FibreIsPreimage(shape, g.shape, k, j, dims, KeepShape(g.shape, dims));
    FibreTerm(g, dims, at, shape, j, k);
    FibreUnfolds(g, dims, at, k);
    ReceivedUnfolds(shape, g, j, k);
  }

  lemma FibreUnfolds(g: Tensor, dims: seq<nat>, at: Index, k: nat)
    requires Valid(g)
    ensures Fibre(g, dims, at)(k) == FibreAt(g, dims, at, k)
  {
  }

  lemma ReceivedUnfolds(shape: Shape, g: Tensor, j: nat, k: nat)
    requires Valid(g) && ExpandsTo(shape, g.shape)
    ensures Received(shape, g, j)(k) == ReceivedFrom(shape, g, j, k)
  {
  }

  lemma SourceUnstretched(shape: Shape, k: nat)
    requires k < Prod(shape) && ReducedDims(shape, 0) == []
    ensures SourcePosition(shape, shape, k) == k
  {
    var idx := Unravel(shape, k);
    RavelUnravel(shape, k);
    assert forall i :: 0 <= i < |shape| && shape[i] == 1 ==> i in ReducedDims(shape, 0);
    assert idx[0..] == idx;
    assert SourceIndex(shape, idx) == idx;
  }

  lemma UnstretchedData(g: Tensor, j: nat)
    requires Valid(g) && j < Prod(g.shape) && ReducedDims(g.shape, 0) == []
    ensures g.data[j] == Sum(|g.data|, Received(g.shape, g, j))
  {
    var f := Received(g.shape, g, j);
    forall k: nat | k < |g.data| ensures f(k) == if k == j then g.data[k] else 0.0 {
      SourceUnstretched(g.shape, k);
    }
    SumSingle(|g.data|, j, f);
  }

  lemma BackwardData(shape: Shape, g: Tensor, j: nat)
    requires Valid(g) && ExpandsTo(shape, g.shape) && j < Prod(shape)
    ensures Backward(shape, g).data[j] == Sum(|g.data|, Received(shape, g, j))
  {
    NothingToSum(shape, g.shape);
    if ReducedDims(shape, |g.shape| - |shape|) == [] {
      UnstretchedData(g, j);
    } else {
      SummedData(shape, g, j, ReducedDims(shape, |g.shape| - |shape|));
    }
  }

  /** `x(j)` times what `j` receives from `k`. */
  function CellAt(x: Tensor, g: Tensor, k: nat, j: nat): (r: real)
    requires Valid(x) && Valid(g) && ExpandsTo(x.shape, g.shape)
  {
    if j < |x.data| then Times(x.data[j], ReceivedFrom(x.shape, g, j, k)) else 0.0
  }

  function Cell(x: Tensor, g: Tensor): (f: (nat, nat) -> real)
    requires Valid(x) && Valid(g) && ExpandsTo(x.shape, g.shape)
  {
    (k: nat, j: nat) => CellAt(x, g, k, j)
  }

  lemma CellValue(x: Tensor, g: Tensor, k: nat, j: nat)
    requires Valid(x) && Valid(g) && ExpandsTo(x.shape, g.shape) && k < |g.data| && j < |x.data|
    ensures CellAt(x, g, k, j)
         == if SourcePosition(x.shape, g.shape, k) == j then Times(x.data[j], g.data[k]) else 0.0
  {
  }

  lemma RowIsOneTerm(x: Tensor, g: Tensor, k: nat)
    requires Valid(x) && Valid(g) && ExpandsTo(x.shape, g.shape) && k < |g.data|
    ensures Rows(|x.data|, Cell(x, g))(k) == Products(Expand(x, g.shape).data, g.data)(k)
  {
    var p := SourcePosition(x.shape, g.shape, k);
    ExpandData(x, g.shape, k);
    var f := Row(Cell(x, g), k);
    forall j: nat | j < |x.data| ensures f(j) == if j == p then Times(x.data[p], g.data[k]) else 0.0 {
      CellValue(x, g, k, j);
    }
    SumSingle(|x.data|, p, f);
  }

  lemma ColumnIsOneEntry(x: Tensor, g: Tensor, j: nat)
    requires Valid(x) && Valid(g) && ExpandsTo(x.shape, g.shape) && j < |x.data|
    ensures Columns(|g.data|, Cell(x, g))(j) == Products(x.data, Backward(x.shape, g).data)(j)
  {
    BackwardData(x.shape, g, j);
    ColumnSum(x, g, j);
  }

  lemma ColumnSum(x: Tensor, g: Tensor, j: nat)
    requires Valid(x) && Valid(g) && ExpandsTo(x.shape, g.shape) && j < |x.data|
    ensures Columns(|g.data|, Cell(x, g))(j) == Times(x.data[j], Sum(|g.data|, Received(x.shape, g, j)))
  {
    var got := Received(x.shape, g, j);
    SumScale(|g.data|, x.data[j], got);
    SumCongruence(|g.data|, Column(Cell(x, g), j), Scaled(x.data[j], got));
  }

  /** The backward pass is the adjoint of the expansion: for every input, every shape it
      expands to and every gradient, the two inner products agree. */
  lemma BackwardIsAdjoint(x: Tensor, g: Tensor)
    requires Valid(x) && Valid(g) && ExpandsTo(x.shape, g.shape)
    ensures Inner(Expand(x, g.shape), g) == Inner(x, Backward(x.shape, g))
    ensures Backward(x.shape, g).shape == x.shape
  {
    var n, m := |g.data|, |x.data|;
    var cell := Cell(x, g);
    forall k: nat | k < n ensures Rows(m, cell)(k) == Products(Expand(x, g.shape).data, g.data)(k) {
      RowIsOneTerm(x, g, k);
    }
    forall j: nat | j < m ensures Columns(n, cell)(j) == Products(x.data, Backward(x.shape, g).data)(j) {
      ColumnIsOneEntry(x, g, j);
    }
    SumCongruence(n, Rows(m, cell), Products(Expand(x, g.shape).data, g.data));
    SumCongruence(m, Columns(n, cell), Products(x.data, Backward(x.shape, g).data));
    SumExchange(n, m, cell);
  }
}
