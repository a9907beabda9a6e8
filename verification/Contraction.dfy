/**
 Contraction of two tensors over paired axes: nested sums, independent of the order of
 the pairs, equal to one flat sum over the contracted positions.
 */
module Contraction {
  import opened Sums
  import opened Tensors

  /** An axis of the left tensor paired with one of the right. */
  type Pair = (nat, nat)

  /** `idx` with axis `x` set to `k`. */
  function Put(idx: Index, x: nat, k: nat): (r: Index)
    ensures |r| == |idx|
    ensures forall i :: 0 <= i < |idx| ==> r[i] == if i == x then k else idx[i]
  {
    if x < |idx| then idx[x := k] else idx
  }

  function Size(a: Tensor, x: nat): (n: nat) {
    if x < |a.shape| then a.shape[x] else 0
  }

  /** The sum over every contracted coordinate of the product of the two entries. */
  function Contract(a: Tensor, b: Tensor, pairs: seq<Pair>, ia: Index, ib: Index): (r: real)
    requires Valid(a) && Valid(b)
    decreases |pairs|, 1
  {
    if pairs == [] then Times(At(a, ia), At(b, ib))
    else Sum(Size(a, pairs[0].0), Terms(a, b, pairs, ia, ib))
  }

  function Terms(a: Tensor, b: Tensor, pairs: seq<Pair>, ia: Index, ib: Index): (f: nat -> real)
    requires Valid(a) && Valid(b) && pairs != []
    decreases |pairs|, 0
  {
    (k: nat) => Contract(a, b, pairs[1..], Put(ia, pairs[0].0, k), Put(ib, pairs[0].1, k))
  }

  lemma ConsTerm(a: Tensor, b: Tensor, p: Pair, s: seq<Pair>, ia: Index, ib: Index, k: nat)
    requires Valid(a) && Valid(b)
    ensures Terms(a, b, [p] + s, ia, ib)(k) == Contract(a, b, s, Put(ia, p.0, k), Put(ib, p.1, k))
  {
    assert ([p] + s)[1..] == s;
  }

  // ----- the order of the pairs -----

  predicate Apart(p: Pair, q: Pair) {
    p.0 != q.0 && p.1 != q.1
  }

  predicate PairwiseApart(pairs: seq<Pair>) {
    forall i, j :: 0 <= i < j < |pairs| ==> Apart(pairs[i], pairs[j])
  }

  lemma PutCommutes(idx: Index, x: nat, y: nat, i: nat, j: nat)
    requires x != y
    ensures Put(Put(idx, x, i), y, j) == Put(Put(idx, y, j), x, i)
  {
  }

  /** The summand of two nested sums, as a table. */
  function Table(a: Tensor, b: Tensor, p: Pair, q: Pair, rest: seq<Pair>, ia: Index, ib: Index): (f: (nat, nat) -> real)
    requires Valid(a) && Valid(b)
  {
    (i: nat, j: nat) => Contract(a, b, rest, Put(Put(ia, p.0, i), q.0, j), Put(Put(ib, p.1, i), q.1, j))
  }

  lemma ContractTwo(a: Tensor, b: Tensor, p: Pair, q: Pair, rest: seq<Pair>, ia: Index, ib: Index)
    requires Valid(a) && Valid(b)
    ensures Contract(a, b, [p, q] + rest, ia, ib)
         == Sum(Size(a, p.0), Rows(Size(a, q.0), Table(a, b, p, q, rest, ia, ib)))
  {
    var pairs := [p] + ([q] + rest);
    assert [p, q] + rest == pairs;
    var n, f, t := Size(a, q.0), Terms(a, b, pairs, ia, ib), Table(a, b, p, q, rest, ia, ib);
    forall i: nat ensures f(i) == Rows(n, t)(i) {
      var ia1, ib1 := Put(ia, p.0, i), Put(ib, p.1, i);
      ConsTerm(a, b, p, [q] + rest, ia, ib, i);
      forall j: nat ensures Terms(a, b, [q] + rest, ia1, ib1)(j) == Row(t, i)(j) {
        ConsTerm(a, b, q, rest, ia1, ib1, j);
      }
      SumCongruence(n, Terms(a, b, [q] + rest, ia1, ib1), Row(t, i));
    }
    SumCongruence(Size(a, p.0), f, Rows(n, t));
  }

  lemma ContractSwap(a: Tensor, b: Tensor, p: Pair, q: Pair, rest: seq<Pair>, ia: Index, ib: Index)
    requires Valid(a) && Valid(b) && Apart(p, q)
    ensures Contract(a, b, [p, q] + rest, ia, ib) == Contract(a, b, [q, p] + rest, ia, ib)
  {
    var m, n := Size(a, p.0), Size(a, q.0);
    var t, u := Table(a, b, p, q, rest, ia, ib), Table(a, b, q, p, rest, ia, ib);
    ContractTwo(a, b, p, q, rest, ia, ib);
    ContractTwo(a, b, q, p, rest, ia, ib);
    SumExchange(m, n, t);
    forall j: nat ensures Columns(m, t)(j) == Rows(m, u)(j) {
      forall i: nat ensures Column(t, j)(i) == Row(u, j)(i) {
        PutCommutes(ia, p.0, q.0, i, j);
        PutCommutes(ib, p.1, q.1, i, j);
      }
      SumCongruence(m, Column(t, j), Row(u, j));
    }
    SumCongruence(n, Columns(m, t), Rows(m, u));
  }

  /** Equal contractions of the tails make equal contractions. */
  lemma ContractUnder(a: Tensor, b: Tensor, p: Pair, s: seq<Pair>, t: seq<Pair>, ia: Index, ib: Index)
    requires Valid(a) && Valid(b)
    requires forall ja, jb :: Contract(a, b, s, ja, jb) == Contract(a, b, t, ja, jb)
    ensures Contract(a, b, [p] + s, ia, ib) == Contract(a, b, [p] + t, ia, ib)
  {
    forall k: nat ensures Terms(a, b, [p] + s, ia, ib)(k) == Terms(a, b, [p] + t, ia, ib)(k) {
      ConsTerm(a, b, p, s, ia, ib, k);
      ConsTerm(a, b, p, t, ia, ib, k);
    }
    SumCongruence(Size(a, p.0), Terms(a, b, [p] + s, ia, ib), Terms(a, b, [p] + t, ia, ib));
  }

  /** A pair may be moved to the front. */
  lemma {:induction false} ContractMove(a: Tensor, b: Tensor, s: seq<Pair>, p: Pair, t: seq<Pair>,
                                        ia: Index, ib: Index)
    requires Valid(a) && Valid(b) && forall i :: 0 <= i < |s| ==> Apart(s[i], p)
    ensures Contract(a, b, s + ([p] + t), ia, ib) == Contract(a, b, [p] + (s + t), ia, ib)
    decreases |s|
  {
    if s == [] {
      assert s + ([p] + t) == [p] + (s + t);
    } else {
      var q, s1 := s[0], s[1..];
      forall ja, jb
        ensures Contract(a, b, s1 + ([p] + t), ja, jb) == Contract(a, b, [p] + (s1 + t), ja, jb)
      {
        ContractMove(a, b, s1, p, t, ja, jb);
      }
      ContractUnder(a, b, q, s1 + ([p] + t), [p] + (s1 + t), ia, ib);
      assert s == [q] + s1;
      MoveShapes(s, q, s1, p, t);
      ContractSwap(a, b, q, p, s1 + t, ia, ib);
    }
  }

  lemma MoveShapes(s: seq<Pair>, q: Pair, s1: seq<Pair>, p: Pair, t: seq<Pair>)
    requires s == [q] + s1
    ensures s + ([p] + t) == [q] + (s1 + ([p] + t))
    ensures [q] + ([p] + (s1 + t)) == [q, p] + (s1 + t)
    ensures [p, q] + (s1 + t) == [p] + (s + t)
  {
  }

  lemma RemoveOne(s: seq<Pair>, t: seq<Pair>) returns (k: nat)
    requires s != [] && multiset(s) == multiset(t)
    ensures k < |t| && t[k] == s[0] && t == t[..k] + ([s[0]] + t[k + 1..])
    ensures multiset(s[1..]) == multiset(t[..k] + t[k + 1..])
  {
    assert s[0] in multiset(t);
    k :| 0 <= k < |t| && t[k] == s[0];
    assert s == [s[0]] + s[1..];
    assert t == t[..k] + ([s[0]] + t[k + 1..]);
    TakenOut(s[0], s[1..], t[..k], t[k + 1..]);
  }

  lemma TakenOut(p: Pair, s: seq<Pair>, u: seq<Pair>, v: seq<Pair>)
    requires multiset([p] + s) == multiset(u + ([p] + v))
    ensures multiset(s) == multiset(u + v)
  {
    assert multiset([p] + s) == multiset{p} + multiset(s);
    assert multiset(u + ([p] + v)) == multiset(u) + (multiset{p} + multiset(v));
    assert multiset(s) == multiset([p] + s) - multiset{p};
  }

  /** Listing the pairs in another order changes nothing. */
  lemma {:induction false} ContractPermuted(a: Tensor, b: Tensor, s: seq<Pair>, t: seq<Pair>, ia: Index, ib: Index)
    requires Valid(a) && Valid(b) && multiset(s) == multiset(t) && PairwiseApart(t)
    ensures Contract(a, b, s, ia, ib) == Contract(a, b, t, ia, ib)
    decreases |s|
  {
    if s == [] {
      EmptyMultiset(s, t);
    } else {
      var k := RemoveOne(s, t);
      var p, t1 := s[0], t[..k] + t[k + 1..];
      WithoutOne(t, k);
      forall ja, jb ensures Contract(a, b, s[1..], ja, jb) == Contract(a, b, t1, ja, jb) {
        ContractPermuted(a, b, s[1..], t1, ja, jb);
      }
      ContractUnder(a, b, p, s[1..], t1, ia, ib);
      assert s == [p] + s[1..];
      ContractMove(a, b, t[..k], p, t[k + 1..], ia, ib);
    }
  }

  lemma EmptyMultiset(s: seq<Pair>, t: seq<Pair>)
    requires s == [] && multiset(s) == multiset(t)
    ensures t == []
  {
    assert |multiset(t)| == |t|;
  }

  lemma WithoutOne(t: seq<Pair>, k: nat)
    requires k < |t| && PairwiseApart(t)
    ensures PairwiseApart(t[..k] + t[k + 1..])
    ensures forall i :: 0 <= i < k ==> Apart(t[..k][i], t[k])
  {
    var u := t[..k] + t[k + 1..];
    assert forall i :: 0 <= i < |u| ==> u[i] == t[if i < k then i else i + 1];
  }

  // ----- contracted axes are overwritten -----

  predicate AgreeOutside(i: Index, j: Index, axes: set<nat>) {
    |i| == |j| && forall d :: 0 <= d < |i| && d !in axes ==> i[d] == j[d]
  }

  function Lefts(pairs: seq<Pair>): (r: set<nat>) {
    set p | p in pairs :: p.0
  }

  function Rights(pairs: seq<Pair>): (r: set<nat>) {
    set p | p in pairs :: p.1
  }

  lemma AxesStep(pairs: seq<Pair>)
    requires pairs != []
    ensures Lefts(pairs) == Lefts(pairs[1..]) + {pairs[0].0}
    ensures Rights(pairs) == Rights(pairs[1..]) + {pairs[0].1}
  {
    assert forall p :: p in pairs <==> p == pairs[0] || p in pairs[1..];
  }

  /** Only the free coordinates of the starting indices matter. */
  lemma {:induction false} ContractFree(a: Tensor, b: Tensor, pairs: seq<Pair>, ia: Index, ib: Index, ja: Index,
                                        jb: Index)
    requires Valid(a) && Valid(b)
    requires AgreeOutside(ia, ja, Lefts(pairs)) && AgreeOutside(ib, jb, Rights(pairs))
    ensures Contract(a, b, pairs, ia, ib) == Contract(a, b, pairs, ja, jb)
    decreases |pairs|
  {
    if pairs == [] {
      assert ia == ja && ib == jb;
    } else {
      AxesStep(pairs);
      var p := pairs[0];
      var f, g := Terms(a, b, pairs, ia, ib), Terms(a, b, pairs, ja, jb);
      forall k: nat ensures f(k) == g(k) {
        ContractFree(a, b, pairs[1..], Put(ia, p.0, k), Put(ib, p.1, k), Put(ja, p.0, k), Put(jb, p.1, k));
      }
      SumCongruence(Size(a, p.0), f, g);
    }
  }

  // ----- one flat sum -----

  function Sizes(a: Tensor, pairs: seq<Pair>): (r: Shape)
    ensures |r| == |pairs|
  {
    if pairs == [] then [] else [Size(a, pairs[0].0)] + Sizes(a, pairs[1..])
  }

  function FillLeft(idx: Index, pairs: seq<Pair>, c: Index): (r: Index)
    requires |c| == |pairs|
    ensures |r| == |idx|
    decreases |pairs|
  {
    if pairs == [] then idx else FillLeft(Put(idx, pairs[0].0, c[0]), pairs[1..], c[1..])
  }

  function FillRight(idx: Index, pairs: seq<Pair>, c: Index): (r: Index)
    requires |c| == |pairs|
    ensures |r| == |idx|
    decreases |pairs|
  {
    if pairs == [] then idx else FillRight(Put(idx, pairs[0].1, c[0]), pairs[1..], c[1..])
  }

  function FlatTerm(a: Tensor, b: Tensor, pairs: seq<Pair>, ia: Index, ib: Index, k: nat): (r: real)
    requires Valid(a) && Valid(b)
  {
    if k < Prod(Sizes(a, pairs)) then
      var c := Unravel(Sizes(a, pairs), k);
      Times(At(a, FillLeft(ia, pairs, c)), At(b, FillRight(ib, pairs, c)))
    else 0.0
  }

  function FlatTerms(a: Tensor, b: Tensor, pairs: seq<Pair>, ia: Index, ib: Index): (f: nat -> real)
    requires Valid(a) && Valid(b)
  {
    (k: nat) => FlatTerm(a, b, pairs, ia, ib, k)
  }

  lemma SizesTail(a: Tensor, pairs: seq<Pair>)
    requires pairs != []
    ensures Sizes(a, pairs)[0] == Size(a, pairs[0].0) && Sizes(a, pairs)[1..] == Sizes(a, pairs[1..])
  {
  }

  lemma FillCons(idx: Index, pairs: seq<Pair>, i: nat, c: Index)
    requires pairs != [] && |c| == |pairs| - 1
    ensures FillLeft(idx, pairs, [i] + c) == FillLeft(Put(idx, pairs[0].0, i), pairs[1..], c)
    ensures FillRight(idx, pairs, [i] + c) == FillRight(Put(idx, pairs[0].1, i), pairs[1..], c)
  {
    assert ([i] + c)[1..] == c;
  }

  lemma FlatTermStep(a: Tensor, b: Tensor, pairs: seq<Pair>, ia: Index, ib: Index, p: nat, i: nat, m: nat, j: nat)
    requires Valid(a) && Valid(b) && pairs != [] && p == Prod(Sizes(a, pairs[1..]))
    requires i < Size(a, pairs[0].0) && j < p && m == i * p
    ensures FlatTerm(a, b, pairs, ia, ib, m + j)
         == FlatTerm(a, b, pairs[1..], Put(ia, pairs[0].0, i), Put(ib, pairs[0].1, i), j)
  {
    SizesTail(a, pairs);
    UnravelCons(Sizes(a, pairs), p, i, m, j);
    var c := Unravel(Sizes(a, pairs[1..]), j);
    FillCons(ia, pairs, i, c);
    FillCons(ib, pairs, i, c);
  }

  /** One sum over all contracted positions is the nested sums. */
  lemma {:induction false} FlatIsNested(a: Tensor, b: Tensor, pairs: seq<Pair>, ia: Index, ib: Index)
    requires Valid(a) && Valid(b)
    ensures Sum(Prod(Sizes(a, pairs)), FlatTerms(a, b, pairs, ia, ib)) == Contract(a, b, pairs, ia, ib)
    decreases |pairs|
  {
    if pairs == [] {
      FlatEmpty(a, b, ia, ib);
    } else {
      var n, p := Size(a, pairs[0].0), Prod(Sizes(a, pairs[1..]));
      var f, g := FlatTerms(a, b, pairs, ia, ib), Terms(a, b, pairs, ia, ib);
      assert Sizes(a, pairs)[1..] == Sizes(a, pairs[1..]);
      SumBlocks(n, p, f);
      forall i: nat | i < n ensures Blocks(p, f)(i) == g(i) {
        FlatBlock(a, b, pairs, ia, ib, p, i);
        FlatIsNested(a, b, pairs[1..], Put(ia, pairs[0].0, i), Put(ib, pairs[0].1, i));
      }
      SumCongruence(n, Blocks(p, f), g);
    }
  }

  lemma FlatEmpty(a: Tensor, b: Tensor, ia: Index, ib: Index)
    requires Valid(a) && Valid(b)
    ensures Sum(Prod(Sizes(a, [])), FlatTerms(a, b, [], ia, ib)) == Times(At(a, ia), At(b, ib))
  {
    var f := FlatTerms(a, b, [], ia, ib);
    assert f(0) == FlatTerm(a, b, [], ia, ib, 0);
    assert Sum(1, f) == Sum(0, f) + f(0);
  }

  /** The positions that share their first contracted coordinate. */
  lemma FlatBlock(a: Tensor, b: Tensor, pairs: seq<Pair>, ia: Index, ib: Index, p: nat, i: nat)
    requires Valid(a) && Valid(b) && pairs != [] && i < Size(a, pairs[0].0)
    requires p == Prod(Sizes(a, pairs[1..]))
    ensures Blocks(p, FlatTerms(a, b, pairs, ia, ib))(i)
         == Sum(p, FlatTerms(a, b, pairs[1..], Put(ia, pairs[0].0, i), Put(ib, pairs[0].1, i)))
  {
    ShiftedSum(a, b, pairs, ia, ib, p, i, i * p);
  }

  lemma ShiftedSum(a: Tensor, b: Tensor, pairs: seq<Pair>, ia: Index, ib: Index, p: nat, i: nat, m: nat)
    requires Valid(a) && Valid(b) && pairs != [] && i < Size(a, pairs[0].0)
    requires p == Prod(Sizes(a, pairs[1..])) && m == i * p
    ensures Sum(p, Shifted(m, FlatTerms(a, b, pairs, ia, ib)))
         == Sum(p, FlatTerms(a, b, pairs[1..], Put(ia, pairs[0].0, i), Put(ib, pairs[0].1, i)))
  {
    var g := Shifted(m, FlatTerms(a, b, pairs, ia, ib));
    var h := FlatTerms(a, b, pairs[1..], Put(ia, pairs[0].0, i), Put(ib, pairs[0].1, i));
    forall j: nat | j < p ensures g(j) == h(j) {
      ShiftedTerm(a, b, pairs, ia, ib, p, i, m, j, g, h);
    }
    SumCongruence(p, g, h);
  }

  lemma ShiftedTerm(a: Tensor, b: Tensor, pairs: seq<Pair>, ia: Index, ib: Index, p: nat, i: nat, m: nat, j: nat,
                    g: nat -> real, h: nat -> real)
    requires Valid(a) && Valid(b) && pairs != [] && i < Size(a, pairs[0].0)
    requires p == Prod(Sizes(a, pairs[1..])) && m == i * p && j < p
    requires g == Shifted(m, FlatTerms(a, b, pairs, ia, ib))
    requires h == FlatTerms(a, b, pairs[1..], Put(ia, pairs[0].0, i), Put(ib, pairs[0].1, i))
    ensures g(j) == h(j)
  {
    FlatTermStep(a, b, pairs, ia, ib, p, i, m, j);
    ShiftedAt(a, b, pairs, ia, ib, m, j);
    TermAt(a, b, pairs[1..], Put(ia, pairs[0].0, i), Put(ib, pairs[0].1, i), j);
  }

  lemma ShiftedAt(a: Tensor, b: Tensor, pairs: seq<Pair>, ia: Index, ib: Index, m: nat, j: nat)
    requires Valid(a) && Valid(b)
    ensures Shifted(m, FlatTerms(a, b, pairs, ia, ib))(j) == FlatTerm(a, b, pairs, ia, ib, m + j)
  {
    ShiftedUnfolds(m, FlatTerms(a, b, pairs, ia, ib), j);
    TermAt(a, b, pairs, ia, ib, m + j);
  }

  lemma TermAt(a: Tensor, b: Tensor, pairs: seq<Pair>, ia: Index, ib: Index, j: nat)
    requires Valid(a) && Valid(b)
    ensures FlatTerms(a, b, pairs, ia, ib)(j) == FlatTerm(a, b, pairs, ia, ib, j)
  {
  }
}
