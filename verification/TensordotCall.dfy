/**
 The tensordot entry point: reading the axis lists, the checks, the pair order, and the
 theorem that its result is the contraction over the pairs as the caller listed them.
 */
module TensordotCall {
  import opened Text
  import opened Axes
  import opened Tensors
  import opened Contraction
  import opened Tensordot
  import opened PairOrder

  /** How many trailing/leading axes to contract, or two axis lists paired by position. */
  datatype Dims = Trailing(n: int) | Lists(left: seq<int>, right: seq<int>)

  datatype Error =
    | NegativeDims | TooManyDims | LengthMismatch | OutOfRange | SizeMismatch | RepeatedAxis | AmbiguousShape

  datatype Result<+T> = Ok(value: T) | Failed(error: Error)

  // ----- reading the axis lists -----

  predicate AxesInRange(xs: seq<int>, n: nat) {
    forall i :: 0 <= i < |xs| ==> AxisInRange(xs[i], n)
  }

  function NormalAxes(xs: seq<int>, n: nat): (r: seq<nat>)
    requires AxesInRange(xs, n)
    ensures |r| == |xs| && forall i :: 0 <= i < |xs| ==> r[i] == Normal(xs[i], n) && r[i] < n
  {
    seq(|xs|, i requires 0 <= i < |xs| => Normal(xs[i], n))
  }

  method Normalize(xs: seq<int>, n: nat) returns (ok: bool, axes: seq<nat>)
    ensures ok <==> AxesInRange(xs, n)
    ensures ok ==> axes == NormalAxes(xs, n)
  {
    axes := [];
    for i := 0 to |xs|
      invariant |axes| == i && forall j :: 0 <= j < i ==> AxisInRange(xs[j], n) && axes[j] == Normal(xs[j], n)
    {
      var d := if xs[i] < 0 then xs[i] + n else xs[i];
      if d < 0 || d >= n {
        return false, [];
      }
      axes := axes + [d];
    }
    ok := true;
  }

  function Zip(xs: seq<nat>, ys: seq<nat>): (r: seq<Pair>)
    requires |xs| == |ys|
    ensures |r| == |xs| && forall i :: 0 <= i < |xs| ==> r[i] == (xs[i], ys[i])
  {
    seq(|xs|, i requires 0 <= i < |xs| => (xs[i], ys[i]))
  }

  /** The axis pairs a call asks for, or why it is refused. */
  function AskedPairs(na: nat, nb: nat, dims: Dims): (r: Result<seq<Pair>>)
  {
    match dims
    case Trailing(n) =>
      if n < 0 then Failed(NegativeDims)
      else if n > na || n > nb then Failed(TooManyDims)
      else Ok(seq(n, i requires 0 <= i < n => (na - n + i, i)))
    case Lists(left, right) =>
      if |left| != |right| then Failed(LengthMismatch)
      else if !AxesInRange(left, na) || !AxesInRange(right, nb) then Failed(OutOfRange)
      else Ok(Zip(NormalAxes(left, na), NormalAxes(right, nb)))
  }

  /** The axis lists can be read. */
  predicate Readable(na: nat, nb: nat, dims: Dims) {
    match dims
    case Trailing(n) => 0 <= n <= na && n <= nb
    case Lists(left, right) =>
      && |left| == |right|
      && (forall i :: 0 <= i < |left| ==> -(na as int) <= left[i] < na)
      && (forall i :: 0 <= i < |right| ==> -(nb as int) <= right[i] < nb)
  }

  /** The pairs the lists mean: the last axes of the first operand with the first of the second, or
      axes paired by position, negative ones counted from the end. */
  predicate Means(na: nat, nb: nat, dims: Dims, pairs: seq<Pair>)
    requires Readable(na, nb, dims)
  {
    match dims
    case Trailing(n) => |pairs| == n && forall i :: 0 <= i < n ==> pairs[i] == (na - n + i, i)
    case Lists(left, right) =>
      && |pairs| == |left|
      && forall i :: 0 <= i < |left| ==> na > 0 && nb > 0 && pairs[i] == (left[i] % na, right[i] % nb)
  }

  lemma InRangeExactly(xs: seq<int>, n: nat)
    ensures AxesInRange(xs, n) <==> forall i :: 0 <= i < |xs| ==> -(n as int) <= xs[i] < n
  {
    forall i | 0 <= i < |xs| ensures AxisInRange(xs[i], n) <==> -(n as int) <= xs[i] < n {}
    if forall i :: 0 <= i < |xs| ==> -(n as int) <= xs[i] < n {
      forall i | 0 <= i < |xs| ensures AxisInRange(xs[i], n) {}
    }
  }

  lemma ListsAsMeant(na: nat, nb: nat, left: seq<int>, right: seq<int>, pairs: seq<Pair>)
    requires |left| == |right| && AxesInRange(left, na) && AxesInRange(right, nb)
    requires Readable(na, nb, Lists(left, right))
    requires pairs == Zip(NormalAxes(left, na), NormalAxes(right, nb))
    ensures Means(na, nb, Lists(left, right), pairs)
  {
    forall i | 0 <= i < |left| ensures na > 0 && nb > 0 && pairs[i] == (left[i] % na, right[i] % nb) {
      assert AxisInRange(left[i], na) && AxisInRange(right[i], nb);
      assert Normal(left[i], na) == left[i] % na && Normal(right[i], nb) == right[i] % nb;
      assert pairs[i] == (Normal(left[i], na), Normal(right[i], nb));
    }
  }

  /** Reading succeeds exactly for readable lists, and gives the pairs meant. */
  lemma PairsAsMeant(na: nat, nb: nat, dims: Dims)
    ensures AskedPairs(na, nb, dims).Ok? <==> Readable(na, nb, dims)
    ensures AskedPairs(na, nb, dims).Ok? ==> Means(na, nb, dims, AskedPairs(na, nb, dims).value)
    ensures dims.Trailing? && dims.n < 0 ==> AskedPairs(na, nb, dims) == Failed(NegativeDims)
    ensures dims.Trailing? && dims.n >= 0 && (dims.n > na || dims.n > nb) ==>
              AskedPairs(na, nb, dims) == Failed(TooManyDims)
    ensures dims.Lists? && |dims.left| != |dims.right| ==> AskedPairs(na, nb, dims) == Failed(LengthMismatch)
    ensures dims.Lists? && |dims.left| == |dims.right| && !Readable(na, nb, dims) ==>
              AskedPairs(na, nb, dims) == Failed(OutOfRange)
  {
    if dims.Lists? {
      InRangeExactly(dims.left, na);
      InRangeExactly(dims.right, nb);
      if AskedPairs(na, nb, dims).Ok? { ListsAsMeant(na, nb, dims.left, dims.right, AskedPairs(na, nb, dims).value); }
    }
  }

  lemma MeantPairs(na: nat, nb: nat, dims: Dims, pairs: seq<Pair>)
    requires Readable(na, nb, dims) && Means(na, nb, dims, pairs)
    ensures AskedPairs(na, nb, dims) == Ok(pairs)
  {
    PairsAsMeant(na, nb, dims);
    assert AskedPairs(na, nb, dims).value == pairs;
  }

  method ReadPairs(na: nat, nb: nat, dims: Dims) returns (r: Result<seq<Pair>>)
    ensures r == AskedPairs(na, nb, dims)
  {
    match dims
    case Trailing(n) =>
      if n < 0 {
        return Failed(NegativeDims);
      }
      if n > na || n > nb {
        return Failed(TooManyDims);
      }
      r := Ok(seq(n, i requires 0 <= i < n => (na - n + i, i)));
    case Lists(left, right) =>
      if |left| != |right| {
        return Failed(LengthMismatch);
      }
      var okA, axesA := Normalize(left, na);
      if !okA {
        return Failed(OutOfRange);
      }
      var okB, axesB := Normalize(right, nb);
      if !okB {
        return Failed(OutOfRange);
      }
      r := Ok(Zip(axesA, axesB));
  }

  // ----- free axes -----

  function FreeUpTo(n: nat, used: seq<nat>): (r: seq<nat>) {
    if n == 0 then [] else FreeUpTo(n - 1, used) + FreeTail(n - 1, used)
  }

  /** The unused axes, in increasing order. */
  lemma {:induction false} FreeAxes(n: nat, used: seq<nat>)
    ensures forall d: nat :: d in FreeUpTo(n, used) <==> d < n && d !in used
    ensures forall i, j :: 0 <= i < j < |FreeUpTo(n, used)| ==> FreeUpTo(n, used)[i] < FreeUpTo(n, used)[j]
  {
    if n > 0 {
      FreeAxes(n - 1, used);
      var r := FreeUpTo(n - 1, used);
      assert forall i :: 0 <= i < |r| ==> r[i] in r;
    }
  }

  function FreeTail(d: nat, used: seq<nat>): (r: seq<nat>) {
    if d in used then [] else [d]
  }

  predicate DistinctAxes(s: seq<nat>) {
    forall i, j :: 0 <= i < j < |s| ==> s[i] != s[j]
  }

  function ToSet(s: seq<nat>): (r: set<nat>)
    ensures forall d :: d in r <==> d in s
  {
    if s == [] then {} else ToSet(s[1..]) + {s[0]}
  }

  function RangeSet(n: nat): (r: set<nat>)
    ensures forall d: nat :: d in r <==> d < n
    ensures |r| == n
  {
    if n == 0 then {} else RangeSet(n - 1) + {n - 1}
  }

  lemma {:induction false} SetOfDistinct(s: seq<nat>)
    requires DistinctAxes(s)
    ensures |ToSet(s)| == |s|
  {
    if s != [] {
      SetOfDistinct(s[1..]);
      assert s[0] !in s[1..];
    }
  }

  lemma LengthOfDistinct(s: seq<nat>, n: nat)
    requires DistinctAxes(s) && forall d :: d in s <==> 0 <= d < n
    ensures |s| == n
  {
    SetOfDistinct(s);
    assert ToSet(s) == RangeSet(n);
  }

  /** Free axes and used axes together are all axes, each once. */
  lemma Complement(n: nat, used: seq<nat>, listed: seq<nat>)
    requires DistinctAxes(used) && (forall d :: d in used ==> d < n) && forall d :: d in listed <==> d in used
    ensures IsPermutation(FreeUpTo(n, listed) + used, n) && IsPermutation(used + FreeUpTo(n, listed), n)
  {
    var free := FreeUpTo(n, listed);
    FreeAxes(n, listed);
    var p, q := free + used, used + free;
    assert forall d :: d in p <==> 0 <= d < n;
    assert forall d :: d in q <==> 0 <= d < n;
    assert forall i :: 0 <= i < |free| ==> free[i] in free;
    assert forall i :: 0 <= i < |used| ==> used[i] in used;
    LengthOfDistinct(p, n);
    LengthOfDistinct(q, n);
    assert forall i :: 0 <= i < |p| ==> p[i] in p;
    assert forall i :: 0 <= i < |q| ==> q[i] in q;
  }

  // ----- the call -----

  predicate SizesMatch(a: Tensor, b: Tensor, pairs: seq<Pair>) {
    forall i :: 0 <= i < |pairs| ==> Size(a, pairs[i].0) == Size(b, pairs[i].1)
  }

  predicate PairsInRange(a: Tensor, b: Tensor, pairs: seq<Pair>) {
    forall i :: 0 <= i < |pairs| ==> pairs[i].0 < |a.shape| && pairs[i].1 < |b.shape|
  }

  lemma AskedInRange(a: Tensor, b: Tensor, dims: Dims)
    ensures var r := AskedPairs(|a.shape|, |b.shape|, dims); r.Ok? ==> PairsInRange(a, b, r.value)
  {
  }

  lemma SortedAligned(a: Tensor, b: Tensor, pairs: seq<Pair>)
    requires Valid(a) && Valid(b) && PairsInRange(a, b, pairs) && SizesMatch(a, b, pairs) && PairwiseApart(pairs)
    ensures Aligned(a, b, SortPairs(pairs), FreeUpTo(|a.shape|, LeftAxes(pairs)), FreeUpTo(|b.shape|, RightAxes(pairs)))
  {
    var s := SortPairs(pairs);
    DistinctPermuted(s, pairs);
    ApartExactly(s);
    MembersOf(s, pairs);
    forall i | 0 <= i < |s| ensures s[i].0 < |a.shape| && s[i].1 < |b.shape| && Size(a, s[i].0) == Size(b, s[i].1) {
      assert s[i] in s;
      var j :| 0 <= j < |pairs| && pairs[j] == s[i];
    }
    SameAxes(s, pairs);
    Complement(|a.shape|, LeftAxes(s), LeftAxes(pairs));
    Complement(|b.shape|, RightAxes(s), RightAxes(pairs));
  }

  lemma SameAxes(s: seq<Pair>, t: seq<Pair>)
    requires forall p :: p in s <==> p in t
    ensures forall d :: d in LeftAxes(t) <==> d in LeftAxes(s)
    ensures forall d :: d in RightAxes(t) <==> d in RightAxes(s)
  {
    AxesCovered(s, t);
    AxesCovered(t, s);
  }

  lemma AxesCovered(s: seq<Pair>, t: seq<Pair>)
    requires forall p :: p in s ==> p in t
    ensures forall d :: d in LeftAxes(s) ==> d in LeftAxes(t)
    ensures forall d :: d in RightAxes(s) ==> d in RightAxes(t)
  {
    forall d | d in LeftAxes(s) ensures d in LeftAxes(t) {
      var i :| 0 <= i < |s| && LeftAxes(s)[i] == d;
      assert s[i] in t;
      var j :| 0 <= j < |t| && t[j] == s[i];
      assert LeftAxes(t)[j] == d;
    }
    forall d | d in RightAxes(s) ensures d in RightAxes(t) {
      var i :| 0 <= i < |s| && RightAxes(s)[i] == d;
      assert s[i] in t;
      var j :| 0 <= j < |t| && t[j] == s[i];
      assert RightAxes(t)[j] == d;
    }
  }

  /** The result for accepted pairs. */
  function Dotted(a: Tensor, b: Tensor, pairs: seq<Pair>): (r: Tensor)
    requires Valid(a) && Valid(b) && PairsInRange(a, b, pairs) && SizesMatch(a, b, pairs) && PairwiseApart(pairs)
    ensures Valid(r)
  {
    SortedAligned(a, b, pairs);
    Folded(a, b, SortPairs(pairs), FreeUpTo(|a.shape|, LeftAxes(pairs)), FreeUpTo(|b.shape|, RightAxes(pairs)))
  }

  /** Every entry of the result is the contraction over the pairs as listed, starting from
      any indices whose free coordinates are those of the entry. */
  lemma DottedIsContraction(a: Tensor, b: Tensor, pairs: seq<Pair>, fi: Index, fj: Index, ia: Index, ib: Index)
    requires Valid(a) && Valid(b) && PairsInRange(a, b, pairs) && SizesMatch(a, b, pairs) && PairwiseApart(pairs)
    requires IsFreePart(a.shape, FreeUpTo(|a.shape|, LeftAxes(pairs)), fi, ia)
    requires IsFreePart(b.shape, FreeUpTo(|b.shape|, RightAxes(pairs)), fj, ib)
    ensures At(Dotted(a, b, pairs), fi + fj) == Contract(a, b, pairs, ia, ib)
  {
    var s := SortPairs(pairs);
    var freeA, freeB := FreeUpTo(|a.shape|, LeftAxes(pairs)), FreeUpTo(|b.shape|, RightAxes(pairs));
    SortedAligned(a, b, pairs);
    FoldedEntry(a, b, s, freeA, freeB, fi, fj);
    ContractPermuted(a, b, s, pairs, ia, ib);
    BaseAgreesA(a, b, s, freeA, freeB, fi, ia);
    BaseAgreesB(a, b, s, freeA, freeB, fj, ib);
    ContractFree(a, b, s, BaseA(a, b, s, freeA, freeB, fi), BaseB(a, b, s, freeA, freeB, fj), ia, ib);
  }

  /** `f` lists the coordinates of `idx` on the free axes, in range of their sizes. */
  predicate IsFreePart(shape: Shape, free: seq<nat>, f: Index, idx: Index) {
    && |idx| == |shape| && |f| == |free|
    && forall i :: 0 <= i < |free| ==> free[i] < |shape| && f[i] < shape[free[i]] && idx[free[i]] == f[i]
  }

  lemma BaseAgreesA(a: Tensor, b: Tensor, s: seq<Pair>, freeA: seq<nat>, freeB: seq<nat>, fi: Index, ia: Index)
    requires Aligned(a, b, s, freeA, freeB) && IsFreePart(a.shape, freeA, fi, ia)
    ensures AgreeOutside(BaseA(a, b, s, freeA, freeB, fi), ia, Lefts(s))
  {
    var perm := freeA + LeftAxes(s);
    var base := BaseA(a, b, s, freeA, freeB, fi);
    forall i | |freeA| <= i < |perm| ensures perm[i] in Lefts(s) {
      assert s[i - |freeA|] in s;
    }
    forall d | 0 <= d < |ia| && d !in Lefts(s) ensures base[d] == ia[d] {
      var i := PosOf(perm, d);
      assert base[perm[i]] == (fi + Zeros(|s|))[i];
    }
  }

  lemma BaseAgreesB(a: Tensor, b: Tensor, s: seq<Pair>, freeA: seq<nat>, freeB: seq<nat>, fj: Index, ib: Index)
    requires Aligned(a, b, s, freeA, freeB) && IsFreePart(b.shape, freeB, fj, ib)
    ensures AgreeOutside(BaseB(a, b, s, freeA, freeB, fj), ib, Rights(s))
  {
    var perm := RightAxes(s) + freeB;
    var base := BaseB(a, b, s, freeA, freeB, fj);
    forall i | 0 <= i < |s| ensures perm[i] in Rights(s) {
      assert s[i] in s;
    }
    forall d | 0 <= d < |ib| && d !in Rights(s) ensures base[d] == ib[d] {
      var i := PosOf(perm, d);
      assert base[perm[i]] == (Zeros(|s|) + fj)[i];
    }
  }

  lemma DottedOrder(a: Tensor, b: Tensor, s: seq<Pair>, t: seq<Pair>)
    requires Valid(a) && Valid(b) && PairsInRange(a, b, s) && SizesMatch(a, b, s) && PairwiseApart(s)
    requires PairsInRange(a, b, t) && SizesMatch(a, b, t) && PairwiseApart(t) && multiset(s) == multiset(t)
    ensures Dotted(a, b, s) == Dotted(a, b, t)
  {
    SortIsSorted(s);
    SortIsSorted(t);
    DistinctPermuted(SortPairs(s), s);
    SortIsCanonical(SortPairs(s), SortPairs(t));
    MembersOf(s, t);
    SameAxes(s, t);
    FreeSame(|a.shape|, LeftAxes(s), LeftAxes(t));
    FreeSame(|b.shape|, RightAxes(s), RightAxes(t));
  }

  lemma {:induction false} FreeSame(n: nat, u: seq<nat>, v: seq<nat>)
    requires forall d: nat :: d in u <==> d in v
    ensures FreeUpTo(n, u) == FreeUpTo(n, v)
  {
    if n > 0 {
      FreeSame(n - 1, u, v);
      FreeTailSame(n - 1, u, v);
    }
  }

  lemma FreeTailSame(d: nat, u: seq<nat>, v: seq<nat>)
    requires forall d: nat :: d in u <==> d in v
    ensures FreeTail(d, u) == FreeTail(d, v)
  {
  }

  // ----- the whole call -----

  /** A reshape that infers one axis beside axes of `rest` entries in all: it is refused when
      that axis cannot be known. */
  function Inferred(numel: nat, rest: nat): (r: Option<nat>) {
    if rest > 0 && numel % rest == 0 then Some(numel / rest) else None
  }

  lemma InferredExactly(numel: nat, m: nat, rest: nat)
    requires numel == m * rest
    ensures Inferred(numel, rest) == if rest == 0 then None else Some(m)
  {
    if rest > 0 { DigitRead(m, rest, 0); }
  }

  /** What the call answers for the pairs it has read, checks in the order they are made: the
      sizes, then each operand permuted and folded in turn. */
  function Checked(a: Tensor, b: Tensor, pairs: seq<Pair>): (r: Result<Tensor>)
    requires Valid(a) && Valid(b) && PairsInRange(a, b, pairs)
  {
    if !SizesMatch(a, b, pairs) then Failed(SizeMismatch)
    else if !DistinctLefts(pairs) then Failed(RepeatedAxis)
    else if HasEmpty(a, pairs) then Failed(AmbiguousShape)
    else if !DistinctRights(pairs) then Failed(RepeatedAxis)
    else
      ApartExactly(pairs);
      Ok(Dotted(a, b, pairs))
  }

  function Answer(a: Tensor, b: Tensor, dims: Dims): (r: Result<Tensor>)
    requires Valid(a) && Valid(b)
  {
    var asked := AskedPairs(|a.shape|, |b.shape|, dims);
    AskedInRange(a, b, dims);
    if asked.Failed? then Failed(asked.error) else Checked(a, b, asked.value)
  }

  /** The call returns a tensor exactly when the axis lists can be read and, for the pairs they mean,
      sizes agree, no axis is used twice and no contracted axis is empty. */
  lemma AnswersExactly(a: Tensor, b: Tensor, dims: Dims)
    requires Valid(a) && Valid(b)
    ensures Answer(a, b, dims).Ok? <==>
            Readable(|a.shape|, |b.shape|, dims)
            && exists pairs :: Means(|a.shape|, |b.shape|, dims, pairs)
                               && SizesMatch(a, b, pairs) && PairwiseApart(pairs) && !HasEmpty(a, pairs)
  {
    var asked := AskedPairs(|a.shape|, |b.shape|, dims);
    AskedInRange(a, b, dims);
    PairsAsMeant(|a.shape|, |b.shape|, dims);
    if asked.Ok? {
      ApartExactly(asked.value);
      forall pairs | Means(|a.shape|, |b.shape|, dims, pairs) ensures pairs == asked.value {
        MeantPairs(|a.shape|, |b.shape|, dims, pairs);
      }
    }
  }

  /** The sizes of the axes not listed, in order. */
  function FreeSizes(shape: Shape, used: seq<nat>): (r: Shape) {
    FreeAxes(|shape|, used);
    var free := FreeUpTo(|shape|, used);
    assert forall i :: 0 <= i < |free| ==> free[i] in free;
    Gather(shape, free)
  }

  /** Every entry of the tensor the call returns is the contraction over the pairs the lists mean,
      starting from any indices whose free coordinates are those of the entry. */
  lemma TensordotIsContraction(a: Tensor, b: Tensor, dims: Dims, pairs: seq<Pair>, r: Tensor,
                               fi: Index, fj: Index, ia: Index, ib: Index)
    requires Valid(a) && Valid(b) && Answer(a, b, dims) == Ok(r)
    requires Readable(|a.shape|, |b.shape|, dims) && Means(|a.shape|, |b.shape|, dims, pairs)
    requires IsFreePart(a.shape, FreeUpTo(|a.shape|, LeftAxes(pairs)), fi, ia)
    requires IsFreePart(b.shape, FreeUpTo(|b.shape|, RightAxes(pairs)), fj, ib)
    ensures Valid(r) && At(r, fi + fj) == Contract(a, b, pairs, ia, ib)
    ensures r.shape == FreeSizes(a.shape, LeftAxes(pairs)) + FreeSizes(b.shape, RightAxes(pairs))
  {
    MeantPairs(|a.shape|, |b.shape|, dims, pairs);
    AskedInRange(a, b, dims);
    ApartExactly(pairs);
    DottedIsContraction(a, b, pairs, fi, fj, ia, ib);
  }

  lemma SizesPermuted(a: Tensor, b: Tensor, s: seq<Pair>, t: seq<Pair>)
    requires multiset(s) == multiset(t)
    ensures SizesMatch(a, b, s) ==> SizesMatch(a, b, t)
    ensures HasEmpty(a, s) ==> HasEmpty(a, t)
  {
    MembersOf(s, t);
    if SizesMatch(a, b, s) {
      forall i | 0 <= i < |t| ensures Size(a, t[i].0) == Size(b, t[i].1) {
        assert t[i] in s;
      }
    }
    if HasEmpty(a, s) {
      var i :| 0 <= i < |s| && Size(a, s[i].0) == 0;
      assert s[i] in t;
    }
  }

  /** Listing the pairs in another order gives the same answer, errors included. */
  lemma PairOrderIsImmaterial(a: Tensor, b: Tensor, s: seq<Pair>, t: seq<Pair>)
    requires Valid(a) && Valid(b) && PairsInRange(a, b, s) && PairsInRange(a, b, t) && multiset(s) == multiset(t)
    ensures Checked(a, b, s) == Checked(a, b, t)
  {
    SizesPermuted(a, b, s, t);
    SizesPermuted(a, b, t, s);
    DistinctPermuted(s, t);
    if SizesMatch(a, b, s) && DistinctLefts(s) && DistinctRights(s) {
      ApartExactly(s);
      ApartExactly(t);
      DottedOrder(a, b, s, t);
    }
  }

  /** An empty contracted axis is refused although its contraction is a tensor of zeros: two
      matrices of sizes 2 by 0 and 0 by 3. */
  lemma EmptyContractionIsRefused(a: Tensor, b: Tensor)
    requires a == Tensor([2, 0], []) && b == Tensor([0, 3], [])
    ensures Valid(a) && Valid(b) && Answer(a, b, Lists([1], [0])) == Failed(AmbiguousShape)
    ensures SizesMatch(a, b, [(1, 0)]) && PairwiseApart([(1, 0)]) && Contract(a, b, [(1, 0)], [0, 0], [0, 0]) == 0.0
  {
    RavelTwo(2, 0, 0, 0);
    RavelTwo(0, 3, 0, 0);
    assert NormalAxes([1], 2) == [1] && NormalAxes([0], 2) == [0];
    assert Zip([1], [0]) == [(1, 0)];
    assert AskedPairs(2, 2, Lists([1], [0])) == Ok([(1, 0)]);
    assert Size(a, [(1, 0)][0].0) == 0;
  }

  // ----- the imperative entry point -----

  method CheckSizes(a: Tensor, b: Tensor, pairs: seq<Pair>) returns (ok: bool)
    requires PairsInRange(a, b, pairs)
    ensures ok <==> SizesMatch(a, b, pairs)
  {
    for i := 0 to |pairs|
      invariant forall j :: 0 <= j < i ==> Size(a, pairs[j].0) == Size(b, pairs[j].1)
    {
      if a.shape[pairs[i].0] != b.shape[pairs[i].1] {
        return false;
      }
    }
    ok := true;
  }

  /** The running product of the contracted sizes, in the order listed. */
  method ContractSize(a: Tensor, pairs: seq<Pair>) returns (n: nat)
    ensures n == Prod(Sizes(a, SortPairs(pairs)))
    ensures n == 0 <==> HasEmpty(a, pairs)
  {
    n := 1;
    for i := 0 to |pairs|
      invariant n == Prod(Sizes(a, pairs[..i]))
    {
      assert pairs[..i + 1] == pairs[..i] + [pairs[i]];
      SizesSnoc(a, pairs[..i], pairs[i]);
      n := n * Size(a, pairs[i].0);
    }
    assert pairs[..|pairs|] == pairs;
    SortProd(a, pairs);
    ContractedIsZero(a, pairs);
  }

  /** The call, errors in the order they are raised. */
  method Dot(a: Tensor, b: Tensor, dims: Dims) returns (r: Result<Tensor>)
    requires Valid(a) && Valid(b)
    ensures r == Answer(a, b, dims)
  {
    var asked := ReadPairs(|a.shape|, |b.shape|, dims);
    AskedInRange(a, b, dims);
    if asked.Failed? {
      return Failed(asked.error);
    }
    var same := CheckSizes(a, b, asked.value);
    if !same {
      return Failed(SizeMismatch);
    }
    r := Fold(a, b, asked.value);
  }

  lemma LeftAxesDistinct(s: seq<Pair>)
    requires DistinctLefts(s)
    ensures DistinctAxes(LeftAxes(s))
  {
    forall i, j | 0 <= i < j < |s| ensures LeftAxes(s)[i] != LeftAxes(s)[j] {
      assert LeftsDiffer(s[i], s[j]);
    }
  }

  lemma LeftAxesBelow(s: seq<Pair>, n: nat)
    requires forall i :: 0 <= i < |s| ==> s[i].0 < n
    ensures forall d: nat :: d in LeftAxes(s) ==> d < n
  {
  }

  lemma LeftPermutes(a: Tensor, pairs: seq<Pair>)
    requires DistinctLefts(pairs) && forall i :: 0 <= i < |pairs| ==> pairs[i].0 < |a.shape|
    ensures IsPermutation(FreeUpTo(|a.shape|, LeftAxes(pairs)) + LeftAxes(SortPairs(pairs)), |a.shape|)
  {
    var s := SortPairs(pairs);
    DistinctPermuted(s, pairs);
    LeftAxesDistinct(s);
    MembersOf(s, pairs);
    SameAxes(s, pairs);
    LeftAxesBelow(pairs, |a.shape|);
    Complement(|a.shape|, LeftAxes(s), LeftAxes(pairs));
  }

  /** The rows of the folded left operand are inferred from its number of entries. */
  lemma LeftFolds(a: Tensor, pairs: seq<Pair>, s: seq<Pair>, free: seq<nat>)
    requires Valid(a) && s == SortPairs(pairs) && free == FreeUpTo(|a.shape|, LeftAxes(pairs))
    requires IsPermutation(free + LeftAxes(s), |a.shape|)
    ensures forall i :: 0 <= i < |free| ==> free[i] < |a.shape|
    ensures Gather(a.shape, free + LeftAxes(s)) == Gather(a.shape, free) + Sizes(a, s)
    ensures Inferred(|Permute(a, free + LeftAxes(s)).data|, Prod(Sizes(a, s)))
         == if Prod(Sizes(a, s)) == 0 then None else Some(Prod(Gather(a.shape, free)))
  {
    GatheredLeft(a, s, free);
    ProdAppend(Gather(a.shape, free), Sizes(a, s));
    InferredExactly(Prod(Gather(a.shape, free + LeftAxes(s))), Prod(Gather(a.shape, free)), Prod(Sizes(a, s)));
  }

  lemma MulCommutes(x: nat, y: nat)
    ensures x * y == y * x
  {
  }

  lemma RightFolds(b: Tensor, free: seq<nat>, perm: seq<nat>, sizes: Shape)
    requires Valid(b) && IsPermutation(perm, |b.shape|) && forall i :: 0 <= i < |free| ==> free[i] < |b.shape|
    requires Gather(b.shape, perm) == sizes + Gather(b.shape, free) && Prod(sizes) > 0
    ensures Inferred(|Permute(b, perm).data|, Prod(sizes)) == Some(Prod(Gather(b.shape, free)))
  {
    ProdAppend(sizes, Gather(b.shape, free));
    MulCommutes(Prod(sizes), Prod(Gather(b.shape, free)));
    InferredExactly(Prod(Gather(b.shape, perm)), Prod(Gather(b.shape, free)), Prod(sizes));
  }

  lemma {:induction false} AllFree(n: nat)
    ensures |FreeUpTo(n, [])| == n && forall i :: 0 <= i < n ==> FreeUpTo(n, [])[i] == i
  {
    if n > 0 { AllFree(n - 1); }
  }

  /** Without pairs nothing is permuted. */
  lemma CountingPermutes(perm: seq<nat>)
    requires forall i :: 0 <= i < |perm| ==> perm[i] == i
    ensures IsPermutation(perm, |perm|)
    ensures forall v: Index :: |v| == |perm| ==> Scatter(perm, v) == v && Gather(v, perm) == v
  {
    forall d | 0 <= d < |perm| ensures d in perm {
      assert perm[d] == d;
    }
    forall v: Index | |v| == |perm| ensures Scatter(perm, v) == v {
      ScatterUnique(perm, v, v);
    }
  }

  lemma NothingPermuted(t: Tensor, perm: seq<nat>)
    requires Valid(t) && perm == FreeUpTo(|t.shape|, [])
    ensures IsPermutation(perm, |t.shape|) && Permute(t, perm) == t
  {
    AllFree(|t.shape|);
    CountingPermutes(perm);
    var r := Permute(t, perm);
    forall v | InShape(t.shape, v) ensures At(r, v) == At(t, v) {
      PermuteAt(t, perm, v);
    }
    TensorExtensionality(r, t);
  }

  /** The operand as it is folded: permuted, or as given when there are no pairs. */
  method Arrange(t: Tensor, none: bool, perm: seq<nat>) returns (r: Tensor)
    requires Valid(t) && IsPermutation(perm, |t.shape|) && (none ==> perm == FreeUpTo(|t.shape|, []))
    ensures r == Permute(t, perm)
  {
    if none {
      NothingPermuted(t, perm);
      r := t;
    } else {
      r := Permute(t, perm);
    }
  }

  lemma NoAxes(pairs: seq<Pair>, n: nat)
    requires pairs == []
    ensures FreeUpTo(n, LeftAxes(pairs)) + LeftAxes(SortPairs(pairs)) == FreeUpTo(n, [])
    ensures RightAxes(SortPairs(pairs)) + FreeUpTo(n, RightAxes(pairs)) == FreeUpTo(n, [])
  {
    assert LeftAxes([]) == [] && RightAxes([]) == [];
  }

  /** Both operands permuted, folded to matrices with an inferred axis, multiplied and unfolded. */
  method Fold(a: Tensor, b: Tensor, pairs: seq<Pair>) returns (r: Result<Tensor>)
    requires Valid(a) && Valid(b) && PairsInRange(a, b, pairs) && SizesMatch(a, b, pairs)
    ensures r == Checked(a, b, pairs)
  {
    var ordered := SortPairs(pairs);
    var contractSize := ContractSize(a, pairs);
    var freeA, freeB := FreeUpTo(|a.shape|, LeftAxes(pairs)), FreeUpTo(|b.shape|, RightAxes(pairs));
    if pairs == [] {
      NoAxes(pairs, |a.shape|);
      NoAxes(pairs, |b.shape|);
    }
    if !DistinctLefts(pairs) {
      return Failed(RepeatedAxis);
    }
    LeftPermutes(a, pairs);
    LeftFolds(a, pairs, ordered, freeA);
    var left := Arrange(a, pairs == [], freeA + LeftAxes(ordered));
    var rows := Inferred(|left.data|, contractSize);
    if rows.None? {
      return Failed(AmbiguousShape);
    }
    if !DistinctRights(pairs) {
      return Failed(RepeatedAxis);
    }
    ApartExactly(pairs);
    SortedAligned(a, b, pairs);
    GatheredShapes(a, b, ordered, freeA, freeB);
    RightFolds(b, freeB, RightAxes(ordered) + freeB, Sizes(a, ordered));
    var right := Arrange(b, pairs == [], RightAxes(ordered) + freeB);
    var columns := Inferred(|right.data|, contractSize);
    var out := Multiply(a, b, ordered, freeA, freeB, left, right, rows.value, contractSize, columns.value);
    r := Ok(out);
  }

  method Multiply(a: Tensor, b: Tensor, pairs: seq<Pair>, freeA: seq<nat>, freeB: seq<nat>,
                  left: Tensor, right: Tensor, rows: nat, inner: nat, columns: nat) returns (out: Tensor)
    requires Aligned(a, b, pairs, freeA, freeB) && inner == Prod(Sizes(a, pairs))
    requires left == Permute(a, freeA + LeftAxes(pairs)) && right == Permute(b, RightAxes(pairs) + freeB)
    requires rows == Prod(FreeShapeA(a, b, pairs, freeA, freeB))
    requires columns == Prod(FreeShapeB(a, b, pairs, freeA, freeB))
    ensures out == Folded(a, b, pairs, freeA, freeB)
  {
    var fa, fb := FreeShapeA(a, b, pairs, freeA, freeB), FreeShapeB(a, b, pairs, freeA, freeB);
    GatheredShapes(a, b, pairs, freeA, freeB);
    ProdAppend(fa, Sizes(a, pairs));
    ProdAppend(Sizes(a, pairs), fb);
    ProdAppend(fa, fb);
    RavelTwo(rows, inner, 0, 0);
    RavelTwo(inner, columns, 0, 0);
    RavelTwo(rows, columns, 0, 0);
    var a2, b2 := Reshape(left, [rows, inner]), Reshape(right, [inner, columns]);
    out := Reshape(Mm(a2, b2, rows, inner, columns), fa + fb);
  }
}
