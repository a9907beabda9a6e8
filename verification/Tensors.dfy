/**
 Tensors of any rank as a shape and row-major data, with the plain index meaning of
 the native operations the composite functions are built from.
 */
module Tensors {
  import opened Arithmetic

  type Shape = seq<nat>
  type Index = seq<nat>

  datatype Tensor = Tensor(shape: Shape, data: seq<real>)

  function Prod(shape: Shape): (n: nat) {
    if shape == [] then 1 else shape[0] * Prod(shape[1..])
  }

  predicate Valid(t: Tensor) {
    |t.data| == Prod(t.shape)
  }

  predicate InShape(shape: Shape, idx: Index) {
    |idx| == |shape| && forall i :: 0 <= i < |shape| ==> idx[i] < shape[i]
  }

  // ----- row-major positions -----

  function Ravel(shape: Shape, idx: Index): (k: nat)
    requires |idx| == |shape|
  {
    if shape == [] then 0 else idx[0] * Prod(shape[1..]) + Ravel(shape[1..], idx[1..])
  }

  function Unravel(shape: Shape, k: nat): (idx: Index)
    requires k < Prod(shape)
    ensures |idx| == |shape|
  {
    if shape == [] then []
    else
      var p := Prod(shape[1..]);
      DigitFits(shape[0], p, k);
      [k / p] + Unravel(shape[1..], k % p)
  }

  lemma DigitFits(n: nat, p: nat, k: nat)
    requires k < n * p
    ensures p > 0 && k / p < n && k % p < p && k == (k / p) * p + k % p
  {
    assert p == 0 ==> n * p == 0;
    if k / p >= n {
      MulMono(n, k / p, p);
    }
  }

  lemma DigitRead(i: nat, p: nat, r: nat)
    requires r < p
    ensures (i * p + r) / p == i && (i * p + r) % p == r
  {
    var q := (i * p + r) / p;
    var s := (i * p + r) % p;
    assert q * p + s == i * p + r;
    if q < i { MulMono(q + 1, i, p); } else if q > i { MulMono(i + 1, q, p); }
  }

  lemma DigitBound(i: nat, n: nat, p: nat, r: nat)
    requires i < n && r < p
    ensures i * p + r < n * p
  {
    MulMono(i + 1, n, p);
  }

  lemma InShapeTail(shape: Shape, idx: Index)
    requires shape != [] && InShape(shape, idx)
    ensures idx[0] < shape[0] && InShape(shape[1..], idx[1..])
  {
  }

  lemma InShapeCons(n: nat, shape: Shape, i: nat, idx: Index)
    requires i < n && InShape(shape, idx)
    ensures InShape([n] + shape, [i] + idx)
  {
  }

  lemma {:induction false} RavelBound(shape: Shape, idx: Index)
    requires InShape(shape, idx)
    ensures Ravel(shape, idx) < Prod(shape)
  {
    if shape != [] {
      InShapeTail(shape, idx);
      RavelBound(shape[1..], idx[1..]);
      DigitBound(idx[0], shape[0], Prod(shape[1..]), Ravel(shape[1..], idx[1..]));
    }
  }

  /** Positions and indices are in bijection. */
  lemma {:induction false} RavelUnravel(shape: Shape, k: nat)
    requires k < Prod(shape)
    ensures InShape(shape, Unravel(shape, k)) && Ravel(shape, Unravel(shape, k)) == k
    decreases |shape|
  {
    if shape != [] {
      var i, r := HeadDigits(shape, k);
      RavelUnravel(shape[1..], r);
      RavelHead(shape, i, Unravel(shape[1..], r));
    }
  }

  /** The first coordinate of a position, and the position in the rest. */
  lemma HeadDigits(shape: Shape, k: nat) returns (i: nat, r: nat)
    requires shape != [] && k < Prod(shape)
    ensures i < shape[0] && r < Prod(shape[1..]) && k == DigitPlace(i, shape[1..], r)
    ensures Unravel(shape, k) == [i] + Unravel(shape[1..], r)
  {
    var p := Prod(shape[1..]);
    DigitFits(shape[0], p, k);
    i, r := k / p, k % p;
  }

  function DigitPlace(i: nat, rest: Shape, r: nat): (k: nat) {
    i * Prod(rest) + r
  }

  lemma RavelHead(shape: Shape, i: nat, idx: Index)
    requires shape != [] && i < shape[0] && InShape(shape[1..], idx)
    ensures InShape(shape, [i] + idx) && Ravel(shape, [i] + idx) == DigitPlace(i, shape[1..], Ravel(shape[1..], idx))
  {
    InShapeCons(shape[0], shape[1..], i, idx);
    assert [shape[0]] + shape[1..] == shape;
    assert ([i] + idx)[1..] == idx;
  }

  lemma {:induction false} UnravelRavel(shape: Shape, idx: Index)
    requires InShape(shape, idx)
    ensures Ravel(shape, idx) < Prod(shape) && Unravel(shape, Ravel(shape, idx)) == idx
  {
    RavelBound(shape, idx);
    if shape != [] {
      InShapeTail(shape, idx);
      RavelBound(shape[1..], idx[1..]);
      UnravelRavel(shape[1..], idx[1..]);
      DigitRead(idx[0], Prod(shape[1..]), Ravel(shape[1..], idx[1..]));
      assert [idx[0]] + idx[1..] == idx;
    }
  }

  /** The index of a position given as a first coordinate and a position in the rest. */
  lemma UnravelCons(shape: Shape, p: nat, i: nat, m: nat, j: nat)
    requires shape != [] && p == Prod(shape[1..]) && i < shape[0] && j < p && m == i * p
    ensures m + j < Prod(shape) && Unravel(shape, m + j) == [i] + Unravel(shape[1..], j)
  {
    DigitBound(i, shape[0], p, j);
    DigitRead(i, p, j);
  }

  lemma {:induction false} ProdAppend(s: Shape, t: Shape)
    ensures Prod(s + t) == Prod(s) * Prod(t)
  {
    if s == [] {
      assert s + t == t;
    } else {
      ProdAppend(s[1..], t);
      assert (s + t)[1..] == s[1..] + t;
      MulAssociate(s[0], Prod(s[1..]), Prod(t));
    }
  }

  lemma MulAssociate(a: nat, b: nat, c: nat)
    ensures a * (b * c) == (a * b) * c
  {
  }

  /** The position of a joined index is that of its parts, as two digits. */
  lemma {:induction false} RavelAppend(s: Shape, t: Shape, i: Index, j: Index)
    requires |i| == |s| && |j| == |t|
    ensures Ravel(s + t, i + j) == Ravel(s, i) * Prod(t) + Ravel(t, j)
  {
    if s == [] {
      assert s + t == t && i + j == j;
    } else {
      RavelAppend(s[1..], t, i[1..], j);
      ProdAppend(s[1..], t);
      assert (s + t)[1..] == s[1..] + t && (i + j)[1..] == i[1..] + j;
      RegroupDigits(i[0], Prod(s[1..]), Prod(t), Ravel(s[1..], i[1..]), Ravel(t, j));
    }
  }

  lemma RegroupDigits(a: nat, p: nat, q: nat, b: nat, c: nat)
    ensures a * (p * q) + (b * q + c) == (a * p + b) * q + c
  {
    MulAssociate(a, p, q);
  }

  lemma InShapeAppend(s: Shape, t: Shape, i: Index, j: Index)
    requires InShape(s, i) && InShape(t, j)
    ensures InShape(s + t, i + j)
  {
  }

  lemma InShapeSplit(s: Shape, t: Shape, idx: Index)
    requires InShape(s + t, idx)
    ensures InShape(s, idx[..|s|]) && InShape(t, idx[|s|..])
    ensures idx == idx[..|s|] + idx[|s|..]
  {
    assert forall i :: 0 <= i < |s| ==> (s + t)[i] == s[i];
    assert forall i :: 0 <= i < |t| ==> (s + t)[|s| + i] == t[i];
  }

  // ----- entries -----

  /** The entry at an index, zero outside the shape. */
  function At(t: Tensor, idx: Index): (r: real)
    requires Valid(t)
  {
    if InShape(t.shape, idx) then RavelBound(t.shape, idx); t.data[Ravel(t.shape, idx)] else 0.0
  }

  /** The tensor of a given shape whose entries are `f`. */
  function Build(shape: Shape, f: Index -> real): (t: Tensor)
    ensures t.shape == shape && Valid(t)
  {
    Tensor(shape, seq(Prod(shape), k requires 0 <= k < Prod(shape) => f(Unravel(shape, k))))
  }

  lemma BuildAt(shape: Shape, f: Index -> real, idx: Index)
    requires InShape(shape, idx)
    ensures At(Build(shape, f), idx) == f(idx)
  {
    UnravelRavel(shape, idx);
  }

  /** Tensors with the same shape and the same entries are equal. */
  lemma TensorExtensionality(t: Tensor, u: Tensor)
    requires Valid(t) && Valid(u) && t.shape == u.shape
    requires forall idx :: InShape(t.shape, idx) ==> At(t, idx) == At(u, idx)
    ensures t == u
  {
    forall k | 0 <= k < |t.data| ensures t.data[k] == u.data[k] {
      RavelUnravel(t.shape, k);
      var idx := Unravel(t.shape, k);
      assert At(t, idx) == At(u, idx);
    }
  }

  // ----- native operations -----

  /** A new shape over the same data. */
  function Reshape(t: Tensor, shape: Shape): (r: Tensor)
    requires Valid(t) && Prod(shape) == Prod(t.shape)
    ensures Valid(r) && r.shape == shape
  {
    Tensor(shape, t.data)
  }

  /** Axes of size 1 are read at 0. */
  function Clip(shape: Shape, idx: Index): (r: Index)
    requires |idx| == |shape|
    ensures |r| == |shape|
    ensures forall i :: 0 <= i < |shape| ==> r[i] == if shape[i] == 1 then 0 else idx[i]
  {
    seq(|shape|, i requires 0 <= i < |shape| => if shape[i] == 1 then 0 else idx[i])
  }

  function Ones(n: nat): (r: Shape)
    ensures |r| == n && forall i :: 0 <= i < n ==> r[i] == 1
  {
    seq(n, _ => 1)
  }

  function Zeros(n: nat): (r: Index)
    ensures |r| == n && forall i :: 0 <= i < n ==> r[i] == 0
  {
    seq(n, _ => 0)
  }

  /** Leading axes of size 1 do not move any entry. */
  lemma {:induction false} RavelLeadingOnes(n: nat, s: Shape, idx: Index)
    requires |idx| == |s|
    ensures Prod(Ones(n) + s) == Prod(s)
    ensures Ravel(Ones(n) + s, Zeros(n) + idx) == Ravel(s, idx)
  {
    if n == 0 {
      assert Ones(0) + s == s && Zeros(0) + idx == idx;
    } else {
      RavelLeadingOnes(n - 1, s, idx);
      assert (Ones(n) + s)[1..] == Ones(n - 1) + s;
      assert (Zeros(n) + idx)[1..] == Zeros(n - 1) + idx;
    }
  }
}
