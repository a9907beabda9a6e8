/** Finite sums of reals: congruence, scaling, exchange and regrouping. */
module Sums {

  /** The product of two reals, as a symbol the verifier can rewrite under. */
  function Times(x: real, y: real): (r: real) {
    x * y
  }

  function Sum(n: nat, f: nat -> real): (r: real) {
    if n == 0 then 0.0 else Sum(n - 1, f) + f(n - 1)
  }

  lemma {:induction false} SumCongruence(n: nat, f: nat -> real, g: nat -> real)
    requires forall k: nat :: k < n ==> f(k) == g(k)
    ensures Sum(n, f) == Sum(n, g)
  {
    if n > 0 { SumCongruence(n - 1, f, g); }
  }

  lemma {:induction false} SumZero(n: nat, f: nat -> real)
    requires forall k: nat :: k < n ==> f(k) == 0.0
    ensures Sum(n, f) == 0.0
  {
    if n > 0 { SumZero(n - 1, f); }
  }

  function Added(f: nat -> real, g: nat -> real): nat -> real {
    (k: nat) => f(k) + g(k)
  }

  lemma {:induction false} SumAdd(n: nat, f: nat -> real, g: nat -> real)
    ensures Sum(n, Added(f, g)) == Sum(n, f) + Sum(n, g)
  {
    if n > 0 { SumAdd(n - 1, f, g); }
  }

  function Scaled(c: real, f: nat -> real): nat -> real {
    (k: nat) => Times(c, f(k))
  }

  lemma {:induction false} SumScale(n: nat, c: real, f: nat -> real)
    ensures Sum(n, Scaled(c, f)) == Times(c, Sum(n, f))
  {
    if n > 0 { SumScale(n - 1, c, f); }
  }

  // ----- sums over a table -----

  function Row(f: (nat, nat) -> real, i: nat): nat -> real {
    (j: nat) => f(i, j)
  }

  function Column(f: (nat, nat) -> real, j: nat): nat -> real {
    (i: nat) => f(i, j)
  }

  function Rows(n: nat, f: (nat, nat) -> real): nat -> real {
    (i: nat) => Sum(n, Row(f, i))
  }

  function Columns(m: nat, f: (nat, nat) -> real): nat -> real {
    (j: nat) => Sum(m, Column(f, j))
  }

  /** The order of two sums can be exchanged. */
  lemma {:induction false} SumExchange(m: nat, n: nat, f: (nat, nat) -> real)
    ensures Sum(m, Rows(n, f)) == Sum(n, Columns(m, f))
  {
    if m == 0 {
      SumZero(n, Columns(0, f));
    } else {
      SumExchange(m - 1, n, f);
      SumAdd(n, Columns(m - 1, f), Row(f, m - 1));
      SumCongruence(n, Columns(m, f), Added(Columns(m - 1, f), Row(f, m - 1)));
    }
  }

  function Shifted(a: nat, f: nat -> real): nat -> real {
    (k: nat) => f(a + k)
  }

  lemma {:induction false} SumAppend(a: nat, b: nat, f: nat -> real)
    ensures Sum(a + b, f) == Sum(a, f) + Sum(b, Shifted(a, f))
  {
    if b > 0 { SumAppend(a, b - 1, f); }
  }

  lemma ShiftedUnfolds(m: nat, f: nat -> real, j: nat)
    ensures Shifted(m, f)(j) == f(m + j)
  {
  }

  function Blocks(m: nat, f: nat -> real): nat -> real {
    (i: nat) => Sum(m, Shifted(i * m, f))
  }

  /** A long sum taken block by block. */
  lemma {:induction false} SumBlocks(n: nat, m: nat, f: nat -> real)
    ensures Sum(n * m, f) == Sum(n, Blocks(m, f))
  {
    if n > 0 {
      assert n * m == (n - 1) * m + m;
      SumBlocks(n - 1, m, f);
      SumAppend((n - 1) * m, m, f);
    }
  }

  /** A sum with one non-zero term. */
  lemma {:induction false} SumSingle(n: nat, k: nat, f: nat -> real)
    requires k < n && forall i: nat :: i < n && i != k ==> f(i) == 0.0
    ensures Sum(n, f) == f(k)
  {
    if k == n - 1 {
      SumZero(n - 1, f);
    } else {
      SumSingle(n - 1, k, f);
    }
  }
}
