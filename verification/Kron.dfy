/** Kronecker product of any rank by interleaved reshapes. */
module Kron {
  import opened Sums
  import opened Tensors

  datatype Result = Ok(value: Tensor) | DimensionMismatch

  /** `[x0, y0, x1, y1, ...]` */
  function Interleave(x: seq<nat>, y: seq<nat>): (r: seq<nat>)
    requires |x| == |y|
    ensures |r| == 2 * |x|
    ensures forall k :: 0 <= k < |r| ==> r[k] == if k % 2 == 0 then x[k / 2] else y[k / 2]
  {
    if x == [] then [] else [x[0], y[0]] + Interleave(x[1..], y[1..])
  }

  function Merged(x: Shape, y: Shape): (r: Shape)
    requires |x| == |y|
    ensures |r| == |x| && forall i :: 0 <= i < |x| ==> r[i] == x[i] * y[i]
  {
    if x == [] then [] else [x[0] * y[0]] + Merged(x[1..], y[1..])
  }

  // ----- elementwise product with broadcasting -----

  predicate Compatible(x: Shape, y: Shape) {
    |x| == |y| && forall i :: 0 <= i < |x| ==> x[i] == y[i] || x[i] == 1 || y[i] == 1
  }

  function Joint(x: Shape, y: Shape): (r: Shape)
    requires Compatible(x, y)
    ensures |r| == |x| && forall i :: 0 <= i < |x| ==> r[i] == if x[i] == 1 then y[i] else x[i]
  {
    seq(|x|, i requires 0 <= i < |x| => if x[i] == 1 then y[i] else x[i])
  }

  function MulEntry(x: Tensor, y: Tensor, idx: Index): (r: real)
    requires Valid(x) && Valid(y) && |x.shape| == |y.shape|
  {
    if |idx| == |x.shape| then Times(At(x, Clip(x.shape, idx)), At(y, Clip(y.shape, idx))) else 0.0
  }

  function Mul(x: Tensor, y: Tensor): (r: Tensor)
    requires Valid(x) && Valid(y) && Compatible(x.shape, y.shape)
    ensures Valid(r) && r.shape == Joint(x.shape, y.shape)
  {
    Build(Joint(x.shape, y.shape), (idx: Index) => MulEntry(x, y, idx))
  }

  lemma MulAt(x: Tensor, y: Tensor, idx: Index)
    requires Valid(x) && Valid(y) && Compatible(x.shape, y.shape)
    requires InShape(Joint(x.shape, y.shape), idx)
    ensures At(Mul(x, y), idx) == Times(At(x, Clip(x.shape, idx)), At(y, Clip(y.shape, idx)))
  {
    BuildAt(Joint(x.shape, y.shape), (i: Index) => MulEntry(x, y, i), idx);
  }

  // ----- interleaved positions -----

  lemma {:induction false} ProdInterleave(x: Shape, y: Shape)
    requires |x| == |y|
    ensures Prod(Interleave(x, y)) == Prod(Merged(x, y))
  {
    if x != [] {
      ProdInterleave(x[1..], y[1..]);
      var r := Interleave(x, y);
      assert r[1..] == [y[0]] + Interleave(x[1..], y[1..]);
      assert r[1..][1..] == Interleave(x[1..], y[1..]);
      MulAssociate(x[0], y[0], Prod(Interleave(x[1..], y[1..])));
      assert Merged(x, y)[1..] == Merged(x[1..], y[1..]);
    }
  }

  lemma MergedOnes(x: Shape)
    ensures Merged(x, Ones(|x|)) == x && Merged(Ones(|x|), x) == x
  {
  }

  lemma RavelPair(a: nat, b: nat, s: Shape, i: nat, j: nat, idx: Index)
    requires |idx| == |s|
    ensures Ravel([a, b] + s, [i, j] + idx) == (i * b + j) * Prod(s) + Ravel(s, idx)
  {
    assert ([a, b] + s)[1..] == [b] + s && ([b] + s)[1..] == s;
    assert ([i, j] + idx)[1..] == [j] + idx && ([j] + idx)[1..] == idx;
    RegroupDigits(i, b, Prod(s), j, Ravel(s, idx));
  }

  /** Interleaving two indices is, axis by axis, the two-digit number `i*b + j`. */
  lemma {:induction false} RavelInterleave(x: Shape, y: Shape, i: Index, j: Index, c: Index)
    requires |x| == |y| && TwoDigits(c, y, i, j)
    ensures Ravel(Interleave(x, y), Interleave(i, j)) == Ravel(Merged(x, y), c)
  {
    if x != [] {
      RavelInterleave(x[1..], y[1..], i[1..], j[1..], c[1..]);
      RavelPair(x[0], y[0], Interleave(x[1..], y[1..]), i[0], j[0], Interleave(i[1..], j[1..]));
      ProdInterleave(x[1..], y[1..]);
      assert Merged(x, y)[1..] == Merged(x[1..], y[1..]);
    }
  }

  // ----- the product -----

  function LeftShape(s: Shape): (r: Shape)
    ensures Prod(r) == Prod(s) && r == Interleave(s, Ones(|s|))
  {
    ProdInterleave(s, Ones(|s|));
    MergedOnes(s);
    Interleave(s, Ones(|s|))
  }

  function RightShape(s: Shape): (r: Shape)
    ensures Prod(r) == Prod(s) && r == Interleave(Ones(|s|), s)
  {
    ProdInterleave(Ones(|s|), s);
    MergedOnes(s);
    Interleave(Ones(|s|), s)
  }

  lemma JointInterleave(x: Shape, y: Shape)
    requires |x| == |y|
    ensures Compatible(LeftShape(x), RightShape(y))
    ensures Joint(LeftShape(x), RightShape(y)) == Interleave(x, y)
  {
    var l, r := LeftShape(x), RightShape(y);
    assert forall k :: 0 <= k < |l| ==> l[k] == 1 || r[k] == 1;
    assert forall k :: 0 <= k < |l| ==> Joint(l, r)[k] == Interleave(x, y)[k];
  }

  function Product(a: Tensor, b: Tensor): (r: Tensor)
    requires Valid(a) && Valid(b) && |a.shape| == |b.shape|
    ensures Valid(r) && r.shape == Merged(a.shape, b.shape)
  {
    JointInterleave(a.shape, b.shape);
    ProdInterleave(a.shape, b.shape);
    Reshape(Mul(Reshape(a, LeftShape(a.shape)), Reshape(b, RightShape(b.shape))), Merged(a.shape, b.shape))
  }

  predicate Positive(s: Shape) {
    forall i :: 0 <= i < |s| ==> s[i] > 0
  }

  function Quotients(c: Index, s: Shape): (r: Index)
    requires |c| == |s| && Positive(s)
    ensures |r| == |c| && forall i :: 0 <= i < |c| ==> r[i] == c[i] / s[i]
  {
    seq(|c|, i requires 0 <= i < |c| => c[i] / s[i])
  }

  function Remainders(c: Index, s: Shape): (r: Index)
    requires |c| == |s| && Positive(s)
    ensures |r| == |c| && forall i :: 0 <= i < |c| ==> r[i] == c[i] % s[i]
  {
    seq(|c|, i requires 0 <= i < |c| => c[i] % s[i])
  }

  lemma FactorsPositive(a: nat, b: nat, c: nat)
    requires c < a * b
    ensures a > 0 && b > 0
  {
  }

  lemma PositiveFactors(x: Shape, y: Shape, c: Index)
    requires |x| == |y| && InShape(Merged(x, y), c)
    ensures Positive(x) && Positive(y)
  {
    forall k | 0 <= k < |x| ensures x[k] > 0 && y[k] > 0 {
      FactorsPositive(x[k], y[k], c[k]);
    }
  }

  /** Each coordinate is the two-digit number of its quotient and remainder. */
  predicate TwoDigits(c: Index, y: Shape, i: Index, j: Index) {
    |c| == |y| == |i| == |j| && forall k :: 0 <= k < |c| ==> IsTwoDigits(c[k], i[k], y[k], j[k])
  }

  predicate IsTwoDigits(c: nat, i: nat, b: nat, j: nat) {
    c == i * b + j
  }

  lemma SplitDigit(a: nat, b: nat, c: nat)
    requires c < a * b
    ensures b > 0 && c / b < a && c % b < b && IsTwoDigits(c, c / b, b, c % b)
  {
    DigitFits(a, b, c);
  }

  lemma SplitIndex(x: Shape, y: Shape, c: Index)
    requires |x| == |y| && InShape(Merged(x, y), c)
    ensures Positive(x) && Positive(y)
    ensures InShape(x, Quotients(c, y)) && InShape(y, Remainders(c, y))
    ensures TwoDigits(c, y, Quotients(c, y), Remainders(c, y))
  {
    PositiveFactors(x, y, c);
    var i, j := Quotients(c, y), Remainders(c, y);
    forall k | 0 <= k < |x| ensures i[k] < x[k] && j[k] < y[k] && IsTwoDigits(c[k], i[k], y[k], j[k]) {
      SplitDigit(x[k], y[k], c[k]);
    }
  }

  /** Only the left index is read on the left, only the right one on the right. */
  lemma ClipInterleave(x: Shape, y: Shape, i: Index, j: Index)
    requires |x| == |y| && InShape(x, i) && InShape(y, j)
    ensures Clip(LeftShape(x), Interleave(i, j)) == Interleave(i, Zeros(|x|))
    ensures Clip(RightShape(y), Interleave(i, j)) == Interleave(Zeros(|x|), j)
  {
    var l, r, b, z := LeftShape(x), RightShape(y), Interleave(i, j), Zeros(|x|);
    assert forall k :: 0 <= k < |b| ==> Clip(l, b)[k] == Interleave(i, z)[k];
    assert forall k :: 0 <= k < |b| ==> Clip(r, b)[k] == Interleave(z, j)[k];
  }

  lemma InShapeInterleave(x: Shape, y: Shape, i: Index, j: Index)
    requires |x| == |y| && InShape(x, i) && InShape(y, j)
    ensures InShape(Interleave(x, y), Interleave(i, j))
  {
  }

  lemma ReadLeft(a: Tensor, i: Index)
    requires Valid(a) && InShape(a.shape, i)
    ensures At(Reshape(a, LeftShape(a.shape)), Interleave(i, Zeros(|i|))) == At(a, i)
  {
    var n := |i|;
    InShapeInterleave(a.shape, Ones(n), i, Zeros(n));
    RavelInterleave(a.shape, Ones(n), i, Zeros(n), i);
    MergedOnes(a.shape);
  }

  lemma ReadRight(b: Tensor, j: Index)
    requires Valid(b) && InShape(b.shape, j)
    ensures At(Reshape(b, RightShape(b.shape)), Interleave(Zeros(|j|), j)) == At(b, j)
  {
    var n := |j|;
    InShapeInterleave(Ones(n), b.shape, Zeros(n), j);
    RavelInterleave(Ones(n), b.shape, Zeros(n), j, j);
    MergedOnes(b.shape);
  }

  /** The product at a split index. */
  lemma EntryAtDigits(a: Tensor, b: Tensor, i: Index, j: Index)
    requires Valid(a) && Valid(b) && InShape(a.shape, i) && InShape(b.shape, j) && |i| == |j|
    ensures var l, r := Reshape(a, LeftShape(a.shape)), Reshape(b, RightShape(b.shape));
            && Compatible(l.shape, r.shape)
            && At(Mul(l, r), Interleave(i, j)) == Times(At(a, i), At(b, j))
  {
    var l, r := Reshape(a, LeftShape(a.shape)), Reshape(b, RightShape(b.shape));
    JointInterleave(a.shape, b.shape);
    InShapeInterleave(a.shape, b.shape, i, j);
    MulAt(l, r, Interleave(i, j));
    ClipInterleave(a.shape, b.shape, i, j);
    ReadLeft(a, i);
    ReadRight(b, j);
  }

  /** Every entry of the product is the product of the entries the quotients and the
      remainders of its coordinates select, for every rank and every shape. */
  lemma KroneckerEntry(a: Tensor, b: Tensor, c: Index)
    requires Valid(a) && Valid(b) && |a.shape| == |b.shape|
    requires InShape(Merged(a.shape, b.shape), c)
    ensures Positive(b.shape)
    ensures At(Product(a, b), c) == Times(At(a, Quotients(c, b.shape)), At(b, Remainders(c, b.shape)))
  {
    SplitIndex(a.shape, b.shape, c);
    var i, j := Quotients(c, b.shape), Remainders(c, b.shape);
    EntryAtDigits(a, b, i, j);
    JointInterleave(a.shape, b.shape);
    InShapeInterleave(a.shape, b.shape, i, j);
    ReshapedEntry(Mul(Reshape(a, LeftShape(a.shape)), Reshape(b, RightShape(b.shape))), a.shape, b.shape, i, j, c);
  }

  lemma ReshapedEntry(m: Tensor, x: Shape, y: Shape, i: Index, j: Index, c: Index)
    requires |x| == |y| && TwoDigits(c, y, i, j) && Valid(m) && m.shape == Interleave(x, y)
    requires InShape(m.shape, Interleave(i, j)) && InShape(Merged(x, y), c)
    ensures Prod(m.shape) == Prod(Merged(x, y))
    ensures At(Reshape(m, Merged(x, y)), c) == At(m, Interleave(i, j))
  {
    ProdInterleave(x, y);
    RavelInterleave(x, y, i, j, c);
  }

  /** Scalars count as one-element vectors. */
  function AtLeastOneDim(t: Tensor): (r: Tensor)
    requires Valid(t)
    ensures Valid(r) && r.data == t.data && r.shape == if t.shape == [] then [1] else t.shape
  {
    if t.shape == [] then Reshape(t, [1]) else t
  }

  method Kronecker(input: Tensor, other: Tensor) returns (r: Result)
    requires Valid(input) && Valid(other)
    ensures var a, b := AtLeastOneDim(input), AtLeastOneDim(other);
            r == if |a.shape| != |b.shape| then DimensionMismatch else Ok(Product(a, b))
  {
    var a, b := AtLeastOneDim(input), AtLeastOneDim(other);
    if |a.shape| != |b.shape| {
      return DimensionMismatch;
    }
    var pa, pb, merged := Shapes(a.shape, b.shape);
    JointInterleave(a.shape, b.shape);
    ProdInterleave(a.shape, b.shape);
    var out := Mul(Reshape(a, pa), Reshape(b, pb));
    r := Ok(Reshape(out, merged));
  }

  /** One pass over both shapes builds the two interleaved shapes and the final one. */
  method Shapes(x: Shape, y: Shape) returns (pa: Shape, pb: Shape, merged: Shape)
    requires |x| == |y|
    ensures pa == LeftShape(x) && pb == RightShape(y) && merged == Merged(x, y)
  {
    pa, pb, merged := [], [], [];
    for k := 0 to |x|
      invariant |pa| == |pb| == 2 * k && |merged| == k
      invariant forall i :: 0 <= i < 2 * k ==> pa[i] == if i % 2 == 0 then x[i / 2] else 1
      invariant forall i :: 0 <= i < 2 * k ==> pb[i] == if i % 2 == 0 then 1 else y[i / 2]
      invariant forall i :: 0 <= i < k ==> merged[i] == x[i] * y[i]
    {
      pa := pa + [x[k], 1];
      pb := pb + [1, y[k]];
      merged := merged + [x[k] * y[k]];
    }
  }
}
