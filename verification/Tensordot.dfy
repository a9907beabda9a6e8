/**
 Tensor contraction by permuting, folding to matrices and multiplying: every entry of
 the result is the contraction over the paired axes.
 */
module Tensordot {
  import opened Sums
  import opened Tensors
  import opened Contraction

  // ----- permutation of axes -----

  predicate IsPermutation(perm: seq<nat>, n: nat) {
    && |perm| == n
    && (forall i :: 0 <= i < n ==> perm[i] < n)
    && (forall i, j :: 0 <= i < j < n ==> perm[i] != perm[j])
    && (forall d :: 0 <= d < n ==> d in perm)
  }

  function PosOf(perm: seq<nat>, d: nat): (p: nat)
    requires d in perm
    ensures p < |perm| && perm[p] == d
  {
    if perm[0] == d then 0 else 1 + PosOf(perm[1..], d)
  }

  function Gather(shape: Shape, perm: seq<nat>): (r: Shape)
    requires forall i :: 0 <= i < |perm| ==> perm[i] < |shape|
    ensures |r| == |perm| && forall i :: 0 <= i < |perm| ==> r[i] == shape[perm[i]]
  {
    seq(|perm|, i requires 0 <= i < |perm| => shape[perm[i]])
  }

  /** The index of the original whose permuted form is `v`. */
  function Scatter(perm: seq<nat>, v: Index): (r: Index)
    requires IsPermutation(perm, |perm|) && |v| == |perm|
    ensures |r| == |perm| && forall i :: 0 <= i < |perm| ==> r[perm[i]] == v[i]
  {
    var r := seq(|perm|, d requires 0 <= d < |perm| => v[PosOf(perm, d)]);
    PosUnique(perm);
    r
  }

  lemma PosUnique(perm: seq<nat>)
    requires IsPermutation(perm, |perm|)
    ensures forall i :: 0 <= i < |perm| ==> PosOf(perm, perm[i]) == i
  {
  }

  lemma ScatterUnique(perm: seq<nat>, v: Index, r: Index)
    requires IsPermutation(perm, |perm|) && |v| == |perm| == |r|
    requires forall i :: 0 <= i < |perm| ==> r[perm[i]] == v[i]
    ensures r == Scatter(perm, v)
  {
    forall d | 0 <= d < |perm| ensures r[d] == Scatter(perm, v)[d] {
      var i := PosOf(perm, d);
      assert perm[i] == d;
    }
  }

  lemma ScatterPut(perm: seq<nat>, v: Index, i: nat, k: nat)
    requires IsPermutation(perm, |perm|) && |v| == |perm| && i < |perm|
    ensures Put(Scatter(perm, v), perm[i], k) == Scatter(perm, v[i := k])
  {
    ScatterUnique(perm, v[i := k], Put(Scatter(perm, v), perm[i], k));
  }

  lemma ScatterInShape(shape: Shape, perm: seq<nat>, v: Index)
    requires IsPermutation(perm, |shape|) && InShape(Gather(shape, perm), v)
    ensures InShape(shape, Scatter(perm, v))
  {
    forall d | 0 <= d < |shape| ensures Scatter(perm, v)[d] < shape[d] {
      var i := PosOf(perm, d);
      assert v[i] < Gather(shape, perm)[i];
    }
  }

  function PermuteEntry(t: Tensor, perm: seq<nat>, v: Index): (r: real)
    requires Valid(t) && IsPermutation(perm, |t.shape|)
  {
    if |v| == |perm| then At(t, Scatter(perm, v)) else 0.0
  }

  function Permute(t: Tensor, perm: seq<nat>): (r: Tensor)
    requires Valid(t) && IsPermutation(perm, |t.shape|)
    ensures Valid(r) && r.shape == Gather(t.shape, perm)
  {
    Build(Gather(t.shape, perm), (v: Index) => PermuteEntry(t, perm, v))
  }

  lemma PermuteAt(t: Tensor, perm: seq<nat>, v: Index)
    requires Valid(t) && IsPermutation(perm, |t.shape|) && InShape(Gather(t.shape, perm), v)
    ensures At(Permute(t, perm), v) == At(t, Scatter(perm, v))
  {
    BuildAt(Gather(t.shape, perm), (w: Index) => PermuteEntry(t, perm, w), v);
  }

  // ----- matrix product -----

  function MmTerms(x: Tensor, y: Tensor, r: nat, s: nat): (f: nat -> real)
    requires Valid(x) && Valid(y)
  {
    (k: nat) => Times(At(x, [r, k]), At(y, [k, s]))
  }

  function MmEntry(x: Tensor, y: Tensor, n: nat, idx: Index): (r: real)
    requires Valid(x) && Valid(y)
  {
    if |idx| == 2 then Sum(n, MmTerms(x, y, idx[0], idx[1])) else 0.0
  }

  function Mm(x: Tensor, y: Tensor, p: nat, n: nat, q: nat): (r: Tensor)
    requires Valid(x) && Valid(y) && x.shape == [p, n] && y.shape == [n, q]
    ensures Valid(r) && r.shape == [p, q]
  {
    Build([p, q], (idx: Index) => MmEntry(x, y, n, idx))
  }

  lemma MmAt(x: Tensor, y: Tensor, p: nat, n: nat, q: nat, r: nat, s: nat)
    requires Valid(x) && Valid(y) && x.shape == [p, n] && y.shape == [n, q] && r < p && s < q
    ensures At(Mm(x, y, p, n, q), [r, s]) == Sum(n, MmTerms(x, y, r, s))
  {
    assert InShape([p, q], [r, s]);
    BuildAt([p, q], (idx: Index) => MmEntry(x, y, n, idx), [r, s]);
  }

  lemma RavelTwo(p: nat, q: nat, r: nat, s: nat)
    ensures Ravel([p, q], [r, s]) == r * q + s && Prod([p, q]) == p * q
  {
    assert [p, q][1..] == [q] && [r, s][1..] == [s] && [q][1..] == [] && [s][1..] == [];
    assert Prod([]) == 1 && Prod([q]) == q;
    assert Ravel([q], [s]) == s;
  }

  // ----- the folded contraction -----

  function LeftAxes(pairs: seq<Pair>): (r: seq<nat>)
    ensures |r| == |pairs| && forall i :: 0 <= i < |pairs| ==> r[i] == pairs[i].0
  {
    seq(|pairs|, i requires 0 <= i < |pairs| => pairs[i].0)
  }

  function RightAxes(pairs: seq<Pair>): (r: seq<nat>)
    ensures |r| == |pairs| && forall i :: 0 <= i < |pairs| ==> r[i] == pairs[i].1
  {
    seq(|pairs|, i requires 0 <= i < |pairs| => pairs[i].1)
  }

  /** The axes of both tensors split into contracted pairs and free ones, sizes agreeing. */
  predicate Aligned(a: Tensor, b: Tensor, pairs: seq<Pair>, freeA: seq<nat>, freeB: seq<nat>) {
    && Valid(a) && Valid(b)
    && IsPermutation(freeA + LeftAxes(pairs), |a.shape|)
    && IsPermutation(RightAxes(pairs) + freeB, |b.shape|)
    && (forall i :: 0 <= i < |pairs| ==> Size(a, pairs[i].0) == Size(b, pairs[i].1))
  }

  lemma {:induction false} SizesAt(a: Tensor, pairs: seq<Pair>, i: nat)
    requires i < |pairs|
    ensures Sizes(a, pairs)[i] == Size(a, pairs[i].0)
  {
    if i > 0 { SizesAt(a, pairs[1..], i - 1); }
  }

  /** In-range parts of a permutation. */
  lemma PartsInRange(a: Tensor, b: Tensor, pairs: seq<Pair>, freeA: seq<nat>, freeB: seq<nat>)
    requires Aligned(a, b, pairs, freeA, freeB)
    ensures forall i :: 0 <= i < |freeA| ==> freeA[i] < |a.shape|
    ensures forall i :: 0 <= i < |freeB| ==> freeB[i] < |b.shape|
    ensures forall i :: 0 <= i < |pairs| ==> pairs[i].0 < |a.shape| && pairs[i].1 < |b.shape|
  {
    var pa, pb := freeA + LeftAxes(pairs), RightAxes(pairs) + freeB;
    assert forall i :: 0 <= i < |freeA| ==> pa[i] == freeA[i];
    assert forall i :: 0 <= i < |pairs| ==> pa[|freeA| + i] == pairs[i].0;
    assert forall i :: 0 <= i < |pairs| ==> pb[i] == pairs[i].1;
    assert forall i :: 0 <= i < |freeB| ==> pb[|pairs| + i] == freeB[i];
  }

  lemma GatheredLeft(a: Tensor, pairs: seq<Pair>, free: seq<nat>)
    requires IsPermutation(free + LeftAxes(pairs), |a.shape|)
    ensures forall i :: 0 <= i < |free| ==> free[i] < |a.shape|
    ensures Gather(a.shape, free + LeftAxes(pairs)) == Gather(a.shape, free) + Sizes(a, pairs)
  {
    var perm := free + LeftAxes(pairs);
    assert forall i :: 0 <= i < |free| ==> perm[i] == free[i];
    forall i | 0 <= i < |pairs| ensures Sizes(a, pairs)[i] == a.shape[perm[|free| + i]] {
      SizesAt(a, pairs, i);
    }
  }

  lemma GatheredShapes(a: Tensor, b: Tensor, pairs: seq<Pair>, freeA: seq<nat>, freeB: seq<nat>)
    requires Aligned(a, b, pairs, freeA, freeB)
    ensures forall i :: 0 <= i < |freeA| ==> freeA[i] < |a.shape|
    ensures forall i :: 0 <= i < |freeB| ==> freeB[i] < |b.shape|
    ensures Gather(a.shape, freeA + LeftAxes(pairs)) == Gather(a.shape, freeA) + Sizes(a, pairs)
    ensures Gather(b.shape, RightAxes(pairs) + freeB) == Sizes(a, pairs) + Gather(b.shape, freeB)
  {
    PartsInRange(a, b, pairs, freeA, freeB);
    forall i | 0 <= i < |pairs| ensures Sizes(a, pairs)[i] == a.shape[pairs[i].0] == b.shape[pairs[i].1] {
      SizesAt(a, pairs, i);
    }
  }

  function FreeShapeA(a: Tensor, b: Tensor, pairs: seq<Pair>, freeA: seq<nat>, freeB: seq<nat>): (r: Shape)
    requires Aligned(a, b, pairs, freeA, freeB)
    ensures |r| == |freeA|
  {
    PartsInRange(a, b, pairs, freeA, freeB);
    Gather(a.shape, freeA)
  }

  function FreeShapeB(a: Tensor, b: Tensor, pairs: seq<Pair>, freeA: seq<nat>, freeB: seq<nat>): (r: Shape)
    requires Aligned(a, b, pairs, freeA, freeB)
    ensures |r| == |freeB|
  {
    PartsInRange(a, b, pairs, freeA, freeB);
    Gather(b.shape, freeB)
  }

  /** The left operand as a matrix: free positions by contracted positions. */
  function FoldA(a: Tensor, b: Tensor, pairs: seq<Pair>, freeA: seq<nat>, freeB: seq<nat>): (r: Tensor)
    requires Aligned(a, b, pairs, freeA, freeB)
    ensures Valid(r) && r.shape == [Prod(FreeShapeA(a, b, pairs, freeA, freeB)), Prod(Sizes(a, pairs))]
  {
    var fa, cs := FreeShapeA(a, b, pairs, freeA, freeB), Sizes(a, pairs);
    GatheredShapes(a, b, pairs, freeA, freeB);
    ProdAppend(fa, cs);
    RavelTwo(Prod(fa), Prod(cs), 0, 0);
    Reshape(Permute(a, freeA + LeftAxes(pairs)), [Prod(fa), Prod(cs)])
  }

  function FoldB(a: Tensor, b: Tensor, pairs: seq<Pair>, freeA: seq<nat>, freeB: seq<nat>): (r: Tensor)
    requires Aligned(a, b, pairs, freeA, freeB)
    ensures Valid(r) && r.shape == [Prod(Sizes(a, pairs)), Prod(FreeShapeB(a, b, pairs, freeA, freeB))]
  {
    var fb, cs := FreeShapeB(a, b, pairs, freeA, freeB), Sizes(a, pairs);
    GatheredShapes(a, b, pairs, freeA, freeB);
    ProdAppend(cs, fb);
    RavelTwo(Prod(cs), Prod(fb), 0, 0);
    Reshape(Permute(b, RightAxes(pairs) + freeB), [Prod(cs), Prod(fb)])
  }

  function Folded(a: Tensor, b: Tensor, pairs: seq<Pair>, freeA: seq<nat>, freeB: seq<nat>): (r: Tensor)
    requires Aligned(a, b, pairs, freeA, freeB)
    ensures Valid(r) && r.shape == FreeShapeA(a, b, pairs, freeA, freeB) + FreeShapeB(a, b, pairs, freeA, freeB)
  {
    var fa, fb := FreeShapeA(a, b, pairs, freeA, freeB), FreeShapeB(a, b, pairs, freeA, freeB);
    ProdAppend(fa, fb);
    RavelTwo(Prod(fa), Prod(fb), 0, 0);
    Reshape(Mm(FoldA(a, b, pairs, freeA, freeB), FoldB(a, b, pairs, freeA, freeB),
               Prod(fa), Prod(Sizes(a, pairs)), Prod(fb)), fa + fb)
  }

  // ----- entries of the folded operands -----

  /** Two folded coordinates stand where the joined index stands. */
  lemma FoldedPlace(f: Shape, g: Shape, i: Index, j: Index)
    requires InShape(f, i) && InShape(g, j)
    ensures Prod(f + g) == Prod([Prod(f), Prod(g)]) && InShape(f + g, i + j)
    ensures InShape([Prod(f), Prod(g)], [Ravel(f, i), Ravel(g, j)])
    ensures Ravel(f + g, i + j) == Ravel([Prod(f), Prod(g)], [Ravel(f, i), Ravel(g, j)])
  {
    ProdAppend(f, g);
    RavelTwo(Prod(f), Prod(g), Ravel(f, i), Ravel(g, j));
    RavelBound(f, i);
    RavelBound(g, j);
    InShapeAppend(f, g, i, j);
    RavelAppend(f, g, i, j);
  }

  /** Reshaping keeps the entry that keeps its place. */
  lemma ReshapedAt(t: Tensor, shape: Shape, i: Index, j: Index)
    requires Valid(t) && Prod(shape) == Prod(t.shape) && InShape(t.shape, i) && InShape(shape, j)
    requires Ravel(t.shape, i) == Ravel(shape, j)
    ensures At(Reshape(t, shape), j) == At(t, i)
  {
  }

  lemma FoldedRow(t: Tensor, f: Shape, c: Shape, fi: Index, k: nat)
    requires Valid(t) && t.shape == f + c && InShape(f, fi) && k < Prod(c)
    ensures Prod([Prod(f), Prod(c)]) == Prod(t.shape)
    ensures InShape(f + c, fi + Unravel(c, k))
    ensures At(Reshape(t, [Prod(f), Prod(c)]), [Ravel(f, fi), k]) == At(t, fi + Unravel(c, k))
  {
    RavelUnravel(c, k);
    FoldedPlace(f, c, fi, Unravel(c, k));
    ReshapedAt(t, [Prod(f), Prod(c)], fi + Unravel(c, k), [Ravel(f, fi), k]);
  }

  lemma FoldedColumn(t: Tensor, c: Shape, f: Shape, k: nat, fj: Index)
    requires Valid(t) && t.shape == c + f && InShape(f, fj) && k < Prod(c)
    ensures Prod([Prod(c), Prod(f)]) == Prod(t.shape)
    ensures InShape(c + f, Unravel(c, k) + fj)
    ensures At(Reshape(t, [Prod(c), Prod(f)]), [k, Ravel(f, fj)]) == At(t, Unravel(c, k) + fj)
  {
    RavelUnravel(c, k);
    FoldedPlace(c, f, Unravel(c, k), fj);
    ReshapedAt(t, [Prod(c), Prod(f)], Unravel(c, k) + fj, [k, Ravel(f, fj)]);
  }

  /** `v` with the coordinates from `off` on replaced by `c`. */
  function Splice(v: Index, off: nat, c: Index): (r: Index)
    requires off + |c| <= |v|
    ensures |r| == |v|
  {
    v[..off] + c + v[off + |c|..]
  }

  lemma SpliceNothing(v: Index, off: nat, c: Index)
    requires off <= |v| && c == []
    ensures Splice(v, off, c) == v
  {
  }

  lemma SpliceStep(v: Index, off: nat, c: Index)
    requires c != [] && off + |c| <= |v|
    ensures Splice(v[off := c[0]], off + 1, c[1..]) == Splice(v, off, c)
  {
  }

  /** Filling in contracted coordinates is scattering the spliced index. */
  lemma {:induction false} FillScatterLeft(perm: seq<nat>, off: nat, v: Index, pairs: seq<Pair>, c: Index)
    requires IsPermutation(perm, |perm|) && |v| == |perm| && |c| == |pairs| && off + |pairs| <= |perm|
    requires forall t :: 0 <= t < |pairs| ==> pairs[t].0 == perm[off + t]
    ensures FillLeft(Scatter(perm, v), pairs, c) == Scatter(perm, Splice(v, off, c))
    decreases |pairs|
  {
    if pairs == [] {
      SpliceNothing(v, off, c);
    } else {
      ScatterPut(perm, v, off, c[0]);
      SpliceStep(v, off, c);
      FillScatterLeft(perm, off + 1, v[off := c[0]], pairs[1..], c[1..]);
    }
  }

  lemma {:induction false} FillScatterRight(perm: seq<nat>, off: nat, v: Index, pairs: seq<Pair>, c: Index)
    requires IsPermutation(perm, |perm|) && |v| == |perm| && |c| == |pairs| && off + |pairs| <= |perm|
    requires forall t :: 0 <= t < |pairs| ==> pairs[t].1 == perm[off + t]
    ensures FillRight(Scatter(perm, v), pairs, c) == Scatter(perm, Splice(v, off, c))
    decreases |pairs|
  {
    if pairs == [] {
      SpliceNothing(v, off, c);
    } else {
      ScatterPut(perm, v, off, c[0]);
      SpliceStep(v, off, c);
      FillScatterRight(perm, off + 1, v[off := c[0]], pairs[1..], c[1..]);
    }
  }

  /** The left index with its free coordinates set and zero elsewhere. */
  function BaseA(a: Tensor, b: Tensor, pairs: seq<Pair>, freeA: seq<nat>, freeB: seq<nat>, fi: Index): (r: Index)
    requires Aligned(a, b, pairs, freeA, freeB) && |fi| == |freeA|
    ensures |r| == |a.shape|
  {
    Scatter(freeA + LeftAxes(pairs), fi + Zeros(|pairs|))
  }

  function BaseB(a: Tensor, b: Tensor, pairs: seq<Pair>, freeA: seq<nat>, freeB: seq<nat>, fj: Index): (r: Index)
    requires Aligned(a, b, pairs, freeA, freeB) && |fj| == |freeB|
    ensures |r| == |b.shape|
  {
    Scatter(RightAxes(pairs) + freeB, Zeros(|pairs|) + fj)
  }

  lemma FilledA(a: Tensor, b: Tensor, pairs: seq<Pair>, freeA: seq<nat>, freeB: seq<nat>, fi: Index, c: Index)
    requires Aligned(a, b, pairs, freeA, freeB) && |fi| == |freeA| && |c| == |pairs|
    ensures FillLeft(BaseA(a, b, pairs, freeA, freeB, fi), pairs, c) == Scatter(freeA + LeftAxes(pairs), fi + c)
  {
    var v := fi + Zeros(|pairs|);
    FillScatterLeft(freeA + LeftAxes(pairs), |freeA|, v, pairs, c);
    SpliceWhole(fi, Zeros(|pairs|), [], c);
    assert Zeros(|pairs|) + [] == Zeros(|pairs|) && c + [] == c;
  }

  lemma FilledB(a: Tensor, b: Tensor, pairs: seq<Pair>, freeA: seq<nat>, freeB: seq<nat>, fj: Index, c: Index)
    requires Aligned(a, b, pairs, freeA, freeB) && |fj| == |freeB| && |c| == |pairs|
    ensures FillRight(BaseB(a, b, pairs, freeA, freeB, fj), pairs, c) == Scatter(RightAxes(pairs) + freeB, c + fj)
  {
    var v := Zeros(|pairs|) + fj;
    FillScatterRight(RightAxes(pairs) + freeB, 0, v, pairs, c);
    SpliceWhole([], Zeros(|pairs|), fj, c);
    assert [] + (Zeros(|pairs|) + fj) == v && [] + (c + fj) == c + fj;
  }

  lemma SpliceWhole(u: Index, z: Index, w: Index, c: Index)
    requires |z| == |c|
    ensures Splice(u + (z + w), |u|, c) == u + (c + w)
  {
  }

  lemma EntryA(a: Tensor, b: Tensor, pairs: seq<Pair>, freeA: seq<nat>, freeB: seq<nat>, fi: Index, k: nat)
    requires Aligned(a, b, pairs, freeA, freeB) && k < Prod(Sizes(a, pairs))
    requires InShape(FreeShapeA(a, b, pairs, freeA, freeB), fi)
    ensures At(FoldA(a, b, pairs, freeA, freeB), [Ravel(FreeShapeA(a, b, pairs, freeA, freeB), fi), k])
         == At(a, FillLeft(BaseA(a, b, pairs, freeA, freeB, fi), pairs, Unravel(Sizes(a, pairs), k)))
  {
    var fa, cs, perm := FreeShapeA(a, b, pairs, freeA, freeB), Sizes(a, pairs), freeA + LeftAxes(pairs);
    GatheredShapes(a, b, pairs, freeA, freeB);
    FoldedRow(Permute(a, perm), fa, cs, fi, k);
    PermuteAt(a, perm, fi + Unravel(cs, k));
    FilledA(a, b, pairs, freeA, freeB, fi, Unravel(cs, k));
  }

  lemma EntryB(a: Tensor, b: Tensor, pairs: seq<Pair>, freeA: seq<nat>, freeB: seq<nat>, fj: Index, k: nat)
    requires Aligned(a, b, pairs, freeA, freeB) && k < Prod(Sizes(a, pairs))
    requires InShape(FreeShapeB(a, b, pairs, freeA, freeB), fj)
    ensures At(FoldB(a, b, pairs, freeA, freeB), [k, Ravel(FreeShapeB(a, b, pairs, freeA, freeB), fj)])
         == At(b, FillRight(BaseB(a, b, pairs, freeA, freeB, fj), pairs, Unravel(Sizes(a, pairs), k)))
  {
    var fb, cs, perm := FreeShapeB(a, b, pairs, freeA, freeB), Sizes(a, pairs), RightAxes(pairs) + freeB;
    GatheredShapes(a, b, pairs, freeA, freeB);
    FoldedColumn(Permute(b, perm), cs, fb, k, fj);
    PermuteAt(b, perm, Unravel(cs, k) + fj);
    FilledB(a, b, pairs, freeA, freeB, fj, Unravel(cs, k));
  }

  /** Every entry of the folded product is the contraction at its free coordinates. */
  lemma FoldedEntry(a: Tensor, b: Tensor, pairs: seq<Pair>, freeA: seq<nat>, freeB: seq<nat>, fi: Index, fj: Index)
    requires Aligned(a, b, pairs, freeA, freeB)
    requires InShape(FreeShapeA(a, b, pairs, freeA, freeB), fi) && InShape(FreeShapeB(a, b, pairs, freeA, freeB), fj)
    ensures At(Folded(a, b, pairs, freeA, freeB), fi + fj)
         == Contract(a, b, pairs, BaseA(a, b, pairs, freeA, freeB, fi), BaseB(a, b, pairs, freeA, freeB, fj))
  {
    var fa, fb := FreeShapeA(a, b, pairs, freeA, freeB), FreeShapeB(a, b, pairs, freeA, freeB);
    var x, y := FoldA(a, b, pairs, freeA, freeB), FoldB(a, b, pairs, freeA, freeB);
    var n, r, s := Prod(Sizes(a, pairs)), Ravel(fa, fi), Ravel(fb, fj);
    UnfoldedEntry(Mm(x, y, Prod(fa), n, Prod(fb)), fa, fb, fi, fj);
    MmAt(x, y, Prod(fa), n, Prod(fb), r, s);
    FoldedSum(a, b, pairs, freeA, freeB, fi, fj, n, MmTerms(x, y, r, s));
  }

  /** The matrix product's sum at a folded position is the contraction. */
  lemma FoldedSum(a: Tensor, b: Tensor, pairs: seq<Pair>, freeA: seq<nat>, freeB: seq<nat>, fi: Index, fj: Index,
                  n: nat, f: nat -> real)
    requires Aligned(a, b, pairs, freeA, freeB) && n == Prod(Sizes(a, pairs))
    requires InShape(FreeShapeA(a, b, pairs, freeA, freeB), fi) && InShape(FreeShapeB(a, b, pairs, freeA, freeB), fj)
    requires f == MmTerms(FoldA(a, b, pairs, freeA, freeB), FoldB(a, b, pairs, freeA, freeB),
                          Ravel(FreeShapeA(a, b, pairs, freeA, freeB), fi),
                          Ravel(FreeShapeB(a, b, pairs, freeA, freeB), fj))
    ensures Sum(n, f)
         == Contract(a, b, pairs, BaseA(a, b, pairs, freeA, freeB, fi), BaseB(a, b, pairs, freeA, freeB, fj))
  {
    var ia, ib := BaseA(a, b, pairs, freeA, freeB, fi), BaseB(a, b, pairs, freeA, freeB, fj);
    var h := FlatTerms(a, b, pairs, ia, ib);
    forall k: nat | k < n ensures f(k) == h(k) {
      EntryA(a, b, pairs, freeA, freeB, fi, k);
      EntryB(a, b, pairs, freeA, freeB, fj, k);
    }
    SumCongruence(n, f, h);
    FlatIsNested(a, b, pairs, ia, ib);
  }

  lemma UnfoldedEntry(m: Tensor, f: Shape, g: Shape, fi: Index, fj: Index)
    requires Valid(m) && m.shape == [Prod(f), Prod(g)] && InShape(f, fi) && InShape(g, fj)
    ensures Ravel(f, fi) < Prod(f) && Ravel(g, fj) < Prod(g) && Prod(f + g) == Prod(m.shape)
    ensures At(Reshape(m, f + g), fi + fj) == At(m, [Ravel(f, fi), Ravel(g, fj)])
  {
    RavelBound(f, fi);
    RavelBound(g, fj);
    FoldedPlace(f, g, fi, fj);
    ReshapedAt(m, f + g, [Ravel(f, fi), Ravel(g, fj)], fi + fj);
  }
}
