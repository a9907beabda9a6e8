/** Axis pairs sorted by their right axis: what sorting keeps, and that it is canonical. */
module PairOrder {
  import opened Tensors
  import opened Contraction

  /** Pairs by increasing right axis. */
  function InsertPair(p: Pair, s: seq<Pair>): (r: seq<Pair>)
    ensures multiset(r) == multiset{p} + multiset(s)
  {
    if s == [] then [p]
    else if p.1 <= s[0].1 then [p] + s
    else
      assert s == [s[0]] + s[1..];
      [s[0]] + InsertPair(p, s[1..])
  }

  function SortPairs(s: seq<Pair>): (r: seq<Pair>)
    ensures multiset(r) == multiset(s)
  {
    if s == [] then []
    else
      assert s == [s[0]] + s[1..];
      InsertPair(s[0], SortPairs(s[1..]))
  }

  predicate SortedByRight(s: seq<Pair>) {
    forall i, j :: 0 <= i < j < |s| ==> s[i].1 <= s[j].1
  }

  lemma {:induction false} InsertSorted(p: Pair, s: seq<Pair>)
    requires SortedByRight(s)
    ensures SortedByRight(InsertPair(p, s))
  {
    if s != [] && p.1 > s[0].1 {
      InsertSorted(p, s[1..]);
      var r := InsertPair(p, s[1..]);
      forall k | 0 <= k < |r| ensures s[0].1 <= r[k].1 {
        assert r[k] in multiset(r);
        assert r[k] in multiset(s[1..]) ==> r[k] in s[1..];
      }
    }
  }

  lemma {:induction false} SortIsSorted(s: seq<Pair>)
    ensures SortedByRight(SortPairs(s))
  {
    if s != [] {
      SortIsSorted(s[1..]);
      InsertSorted(s[0], SortPairs(s[1..]));
    }
  }

  lemma MembersOf(s: seq<Pair>, t: seq<Pair>)
    requires multiset(s) == multiset(t)
    ensures |s| == |t| && forall p :: p in s <==> p in t
  {
    assert |multiset(s)| == |s| && |multiset(t)| == |t|;
    forall p ensures p in s <==> p in t {
      assert p in s <==> p in multiset(s);
      assert p in t <==> p in multiset(t);
    }
  }

  // ----- axes used once -----

  predicate LeftsDiffer(p: Pair, q: Pair) {
    p.0 != q.0
  }

  predicate RightsDiffer(p: Pair, q: Pair) {
    p.1 != q.1
  }

  predicate PairwiseBy(rel: (Pair, Pair) -> bool, s: seq<Pair>) {
    forall i, j :: 0 <= i < j < |s| ==> rel(s[i], s[j])
  }

  predicate DistinctLefts(s: seq<Pair>) {
    PairwiseBy(LeftsDiffer, s)
  }

  predicate DistinctRights(s: seq<Pair>) {
    PairwiseBy(RightsDiffer, s)
  }

  lemma ApartExactly(s: seq<Pair>)
    ensures PairwiseApart(s) <==> DistinctLefts(s) && DistinctRights(s)
  {
    if DistinctLefts(s) && DistinctRights(s) {
      forall i, j | 0 <= i < j < |s| ensures Apart(s[i], s[j]) {
        assert LeftsDiffer(s[i], s[j]) && RightsDiffer(s[i], s[j]);
      }
    }
    if PairwiseApart(s) {
      forall i, j | 0 <= i < j < |s| ensures LeftsDiffer(s[i], s[j]) && RightsDiffer(s[i], s[j]) {
        assert Apart(s[i], s[j]);
      }
    }
  }

  ghost predicate Symmetric(rel: (Pair, Pair) -> bool) {
    forall p, q :: rel(p, q) ==> rel(q, p)
  }

  lemma PairwiseWithout(rel: (Pair, Pair) -> bool, t: seq<Pair>, k: nat)
    requires k < |t| && PairwiseBy(rel, t) && Symmetric(rel)
    ensures PairwiseBy(rel, t[..k] + t[k + 1..])
    ensures forall p :: p in t[..k] + t[k + 1..] ==> rel(t[k], p)
  {
    var u := t[..k] + t[k + 1..];
    assert forall i :: 0 <= i < |u| ==> u[i] == t[if i < k then i else i + 1];
  }

  lemma PairwiseCons(rel: (Pair, Pair) -> bool, p: Pair, s: seq<Pair>)
    requires PairwiseBy(rel, s) && forall q :: q in s ==> rel(p, q)
    ensures PairwiseBy(rel, [p] + s)
  {
    var t := [p] + s;
    forall i, j | 0 <= i < j < |t| ensures rel(t[i], t[j]) {
      assert t[j] == s[j - 1];
      if i > 0 { assert t[i] == s[i - 1]; }
    }
  }

  /** A symmetric relation between any two members does not depend on the order. */
  lemma {:induction false} PairwisePermuted(rel: (Pair, Pair) -> bool, s: seq<Pair>, t: seq<Pair>)
    requires multiset(s) == multiset(t) && PairwiseBy(rel, t) && Symmetric(rel)
    ensures PairwiseBy(rel, s)
    decreases |s|
  {
    if s != [] {
      var k := RemoveOne(s, t);
      var rest := t[..k] + t[k + 1..];
      PairwiseWithout(rel, t, k);
      PairwisePermuted(rel, s[1..], rest);
      MembersOf(s[1..], rest);
      PairwiseCons(rel, s[0], s[1..]);
      assert s == [s[0]] + s[1..];
    }
  }

  lemma DistinctPermuted(s: seq<Pair>, t: seq<Pair>)
    requires multiset(s) == multiset(t)
    ensures DistinctLefts(s) <==> DistinctLefts(t)
    ensures DistinctRights(s) <==> DistinctRights(t)
    ensures PairwiseApart(s) <==> PairwiseApart(t)
  {
    assert Symmetric(LeftsDiffer) && Symmetric(RightsDiffer);
    if DistinctLefts(s) { PairwisePermuted(LeftsDiffer, t, s); }
    if DistinctLefts(t) { PairwisePermuted(LeftsDiffer, s, t); }
    if DistinctRights(s) { PairwisePermuted(RightsDiffer, t, s); }
    if DistinctRights(t) { PairwisePermuted(RightsDiffer, s, t); }
    ApartExactly(s);
    ApartExactly(t);
  }

  // ----- sorting is canonical -----

  lemma SameHead(s: seq<Pair>, t: seq<Pair>)
    requires SortedByRight(s) && SortedByRight(t) && PairwiseApart(s) && s != [] && multiset(s) == multiset(t)
    ensures t != [] && s[0] == t[0]
  {
    MembersOf(s, t);
    assert s[0] in t && t[0] in s;
    var i :| 0 <= i < |t| && t[i] == s[0];
    var j :| 0 <= j < |s| && s[j] == t[0];
    assert s[0].1 <= s[j].1;
    assert t[0].1 <= t[i].1;
  }

  lemma {:induction false} SortIsCanonical(s: seq<Pair>, t: seq<Pair>)
    requires SortedByRight(s) && SortedByRight(t) && PairwiseApart(s) && multiset(s) == multiset(t)
    ensures s == t
    decreases |s|
  {
    if s == [] {
      EmptyMultiset(s, t);
    } else {
      SameHead(s, t);
      var p := s[0];
      assert s == [p] + s[1..] && t == [] + ([p] + t[1..]);
      TakenOut(p, s[1..], [], t[1..]);
      assert [] + t[1..] == t[1..];
      SortIsCanonical(s[1..], t[1..]);
      assert t == [p] + t[1..];
    }
  }

  // ----- the product of the contracted sizes -----

  lemma {:induction false} SizesSnoc(a: Tensor, s: seq<Pair>, p: Pair)
    ensures Prod(Sizes(a, s + [p])) == Prod(Sizes(a, s)) * Size(a, p.0)
    decreases |s|
  {
    if s == [] {
      SizesCons(a, p, []);
      assert s + [p] == [p] + [];
    } else {
      SizesSnoc(a, s[1..], p);
      assert s + [p] == [s[0]] + (s[1..] + [p]) && s == [s[0]] + s[1..];
      SizesCons(a, s[0], s[1..] + [p]);
      SizesCons(a, s[0], s[1..]);
      MulAssociate(Size(a, s[0].0), Prod(Sizes(a, s[1..])), Size(a, p.0));
    }
  }

  lemma {:induction false} SortProd(a: Tensor, s: seq<Pair>)
    ensures Prod(Sizes(a, SortPairs(s))) == Prod(Sizes(a, s))
  {
    if s != [] {
      SortProd(a, s[1..]);
      InsertProd(a, s[0], SortPairs(s[1..]));
      SizesCons(a, s[0], s[1..]);
      assert s == [s[0]] + s[1..];
    }
  }

  lemma {:induction false} InsertProd(a: Tensor, p: Pair, s: seq<Pair>)
    ensures Prod(Sizes(a, InsertPair(p, s))) == Size(a, p.0) * Prod(Sizes(a, s))
  {
    if s == [] || p.1 <= s[0].1 {
      assert ([p] + s)[1..] == s;
      SizesCons(a, p, s);
    } else {
      InsertProd(a, p, s[1..]);
      SizesCons(a, s[0], InsertPair(p, s[1..]));
      SizesCons(a, s[0], s[1..]);
      assert s == [s[0]] + s[1..];
      MulSwap(Size(a, s[0].0), Size(a, p.0), Prod(Sizes(a, s[1..])));
    }
  }

  lemma SizesCons(a: Tensor, p: Pair, s: seq<Pair>)
    ensures Prod(Sizes(a, [p] + s)) == Size(a, p.0) * Prod(Sizes(a, s))
  {
    assert ([p] + s)[1..] == s;
    assert Sizes(a, [p] + s)[1..] == Sizes(a, s);
  }

  lemma MulSwap(x: nat, y: nat, z: nat)
    ensures x * (y * z) == y * (x * z)
  {
  }

  /** Some contracted axis has no entries. */
  predicate HasEmpty(a: Tensor, pairs: seq<Pair>) {
    exists i :: 0 <= i < |pairs| && Size(a, pairs[i].0) == 0
  }

  /** The contracted size is zero exactly when a contracted axis is empty. */
  lemma {:induction false} ContractedIsZero(a: Tensor, pairs: seq<Pair>)
    ensures Prod(Sizes(a, pairs)) == 0 <==> HasEmpty(a, pairs)
  {
    if pairs != [] {
      var p, rest := pairs[0], pairs[1..];
      ContractedIsZero(a, rest);
      assert pairs == [p] + rest;
      SizesCons(a, p, rest);
      ZeroProduct(Size(a, p.0), Prod(Sizes(a, rest)));
      if HasEmpty(a, rest) {
        var i :| 0 <= i < |rest| && Size(a, rest[i].0) == 0;
        assert pairs[i + 1] == rest[i];
      }
      if HasEmpty(a, pairs) && Size(a, p.0) != 0 {
        var i :| 0 <= i < |pairs| && Size(a, pairs[i].0) == 0;
        assert rest[i - 1] == pairs[i];
      }
    }
  }

  lemma ZeroProduct(x: nat, y: nat)
    ensures x * y == 0 <==> x == 0 || y == 0
  {
  }
}
