/**
 Integer powers of a square matrix by repeated squaring: the loop computes the e-fold
 product, with a known number of multiplications, and powers add.
 */
module MatrixPower {
  import opened Text
  import opened Sums
  import opened Tensors
  import opened Tensordot

  predicate IsSquare(t: Tensor, n: nat) {
    Valid(t) && t.shape == [n, n]
  }

  function Mul(x: Tensor, y: Tensor, n: nat): (r: Tensor)
    requires IsSquare(x, n) && IsSquare(y, n)
    ensures IsSquare(r, n)
  {
    Mm(x, y, n, n, n)
  }

  function EyeEntry(idx: Index): (r: real) {
    if |idx| == 2 && idx[0] == idx[1] then 1.0 else 0.0
  }

  function Eye(n: nat): (r: Tensor)
    ensures IsSquare(r, n)
  {
    Build([n, n], (idx: Index) => EyeEntry(idx))
  }

  /** The e-fold product. */
  function Power(b: Tensor, n: nat, e: nat): (r: Tensor)
    requires IsSquare(b, n)
    ensures IsSquare(r, n)
  {
    if e == 0 then Eye(n) else Mul(Power(b, n, e - 1), b, n)
  }

  // ----- matrices form a monoid -----

  lemma Same(x: Tensor, y: Tensor, n: nat)
    requires IsSquare(x, n) && IsSquare(y, n)
    requires forall r: nat, s: nat :: r < n && s < n ==> At(x, [r, s]) == At(y, [r, s])
    ensures x == y
  {
    forall idx | InShape(x.shape, idx) ensures At(x, idx) == At(y, idx) {
      assert idx == [idx[0], idx[1]];
    }
    TensorExtensionality(x, y);
  }

  lemma EyeAt(n: nat, r: nat, s: nat)
    requires r < n && s < n
    ensures At(Eye(n), [r, s]) == if r == s then 1.0 else 0.0
  {
    assert InShape([n, n], [r, s]);
    BuildAt([n, n], (idx: Index) => EyeEntry(idx), [r, s]);
  }

  lemma MulEyeAt(x: Tensor, n: nat, r: nat, s: nat)
    requires IsSquare(x, n) && r < n && s < n
    ensures At(Mul(x, Eye(n), n), [r, s]) == At(x, [r, s])
    ensures At(Mul(Eye(n), x, n), [r, s]) == At(x, [r, s])
  {
    MmAt(x, Eye(n), n, n, n, r, s);
    MmAt(Eye(n), x, n, n, n, r, s);
    forall k: nat | k < n
      ensures k != s ==> MmTerms(x, Eye(n), r, s)(k) == 0.0
      ensures k != r ==> MmTerms(Eye(n), x, r, s)(k) == 0.0
    {
      EyeAt(n, k, s);
      EyeAt(n, r, k);
    }
    SumSingle(n, s, MmTerms(x, Eye(n), r, s));
    SumSingle(n, r, MmTerms(Eye(n), x, r, s));
    EyeAt(n, s, s);
    EyeAt(n, r, r);
  }

  lemma MulEye(x: Tensor, n: nat)
    requires IsSquare(x, n)
    ensures Mul(x, Eye(n), n) == x && Mul(Eye(n), x, n) == x
  {
    forall r: nat, s: nat | r < n && s < n
      ensures At(Mul(x, Eye(n), n), [r, s]) == At(x, [r, s])
      ensures At(Mul(Eye(n), x, n), [r, s]) == At(x, [r, s])
    {
      MulEyeAt(x, n, r, s);
    }
    Same(Mul(x, Eye(n), n), x, n);
    Same(Mul(Eye(n), x, n), x, n);
  }

  function TripleAt(x: Tensor, y: Tensor, z: Tensor, r: nat, s: nat, j: nat, k: nat): (v: real)
    requires Valid(x) && Valid(y) && Valid(z)
  {
    Times(At(x, [r, j]), Times(At(y, [j, k]), At(z, [k, s])))
  }

  function Triple(x: Tensor, y: Tensor, z: Tensor, r: nat, s: nat): (f: (nat, nat) -> real)
    requires Valid(x) && Valid(y) && Valid(z)
  {
    (j: nat, k: nat) => TripleAt(x, y, z, r, s, j, k)
  }

  lemma LeftTerm(x: Tensor, y: Tensor, z: Tensor, n: nat, r: nat, s: nat, k: nat)
    requires IsSquare(x, n) && IsSquare(y, n) && IsSquare(z, n) && r < n && s < n && k < n
    ensures MmTerms(Mul(x, y, n), z, r, s)(k) == Columns(n, Triple(x, y, z, r, s))(k)
  {
    var c := At(z, [k, s]);
    MmAt(x, y, n, n, n, r, k);
    SumScale(n, c, MmTerms(x, y, r, k));
    forall j: nat | j < n ensures Scaled(c, MmTerms(x, y, r, k))(j) == Column(Triple(x, y, z, r, s), k)(j) {
      TimesRotate(At(x, [r, j]), At(y, [j, k]), c);
    }
    SumCongruence(n, Scaled(c, MmTerms(x, y, r, k)), Column(Triple(x, y, z, r, s), k));
  }

  lemma TimesRotate(a: real, b: real, c: real)
    ensures Times(c, Times(a, b)) == Times(a, Times(b, c))
  {
  }

  lemma RightTerm(x: Tensor, y: Tensor, z: Tensor, n: nat, r: nat, s: nat, j: nat)
    requires IsSquare(x, n) && IsSquare(y, n) && IsSquare(z, n) && r < n && s < n && j < n
    ensures MmTerms(x, Mul(y, z, n), r, s)(j) == Rows(n, Triple(x, y, z, r, s))(j)
  {
    var c := At(x, [r, j]);
    MmAt(y, z, n, n, n, j, s);
    SumScale(n, c, MmTerms(y, z, j, s));
    SumCongruence(n, Scaled(c, MmTerms(y, z, j, s)), Row(Triple(x, y, z, r, s), j));
  }

  lemma AssociateAt(x: Tensor, y: Tensor, z: Tensor, n: nat, r: nat, s: nat)
    requires IsSquare(x, n) && IsSquare(y, n) && IsSquare(z, n) && r < n && s < n
    ensures At(Mul(Mul(x, y, n), z, n), [r, s]) == At(Mul(x, Mul(y, z, n), n), [r, s])
  {
    MmAt(Mul(x, y, n), z, n, n, n, r, s);
    MmAt(x, Mul(y, z, n), n, n, n, r, s);
    var f := Triple(x, y, z, r, s);
    forall k: nat | k < n ensures MmTerms(Mul(x, y, n), z, r, s)(k) == Columns(n, f)(k) {
      LeftTerm(x, y, z, n, r, s, k);
    }
    forall j: nat | j < n ensures MmTerms(x, Mul(y, z, n), r, s)(j) == Rows(n, f)(j) {
      RightTerm(x, y, z, n, r, s, j);
    }
    SumCongruence(n, MmTerms(Mul(x, y, n), z, r, s), Columns(n, f));
    SumCongruence(n, MmTerms(x, Mul(y, z, n), r, s), Rows(n, f));
    SumExchange(n, n, f);
  }

  lemma MulAssociates(x: Tensor, y: Tensor, z: Tensor, n: nat)
    requires IsSquare(x, n) && IsSquare(y, n) && IsSquare(z, n)
    ensures Mul(Mul(x, y, n), z, n) == Mul(x, Mul(y, z, n), n)
  {
    forall r: nat, s: nat | r < n && s < n
      ensures At(Mul(Mul(x, y, n), z, n), [r, s]) == At(Mul(x, Mul(y, z, n), n), [r, s])
    {
      AssociateAt(x, y, z, n, r, s);
    }
    Same(Mul(Mul(x, y, n), z, n), Mul(x, Mul(y, z, n), n), n);
  }

  // ----- powers -----

  lemma {:induction false} PowerAdd(b: Tensor, n: nat, i: nat, j: nat)
    requires IsSquare(b, n)
    ensures Mul(Power(b, n, i), Power(b, n, j), n) == Power(b, n, i + j)
  {
    if j == 0 {
      MulEye(Power(b, n, i), n);
    } else {
      PowerAdd(b, n, i, j - 1);
      MulAssociates(Power(b, n, i), Power(b, n, j - 1), b, n);
    }
  }

  lemma PowerOne(b: Tensor, n: nat)
    requires IsSquare(b, n)
    ensures Power(b, n, 1) == b
  {
    MulEye(b, n);
    assert Power(b, n, 0) == Eye(n);
  }

  lemma {:induction false} PowerOfSquare(b: Tensor, n: nat, e: nat)
    requires IsSquare(b, n)
    ensures Power(Mul(b, b, n), n, e) == Power(b, n, 2 * e)
  {
    if e > 0 {
      PowerOfSquare(b, n, e - 1);
      PowerOne(b, n);
      PowerAdd(b, n, 1, 1);
      PowerAdd(b, n, 2 * e - 2, 2);
    }
  }

  // ----- the loop -----

  function Bits(e: nat): (k: nat)
    ensures e > 0 ==> k > 0
  {
    if e == 0 then 0 else 1 + Bits(e / 2)
  }

  function OneBits(e: nat): (k: nat)
    ensures k <= Bits(e)
  {
    if e == 0 then 0 else e % 2 + OneBits(e / 2)
  }

  /** Multiplications made for exponent `e`: one per set bit, and one per squaring. */
  function Work(e: nat): (k: nat)
    ensures e > 0 ==> k <= 2 * Bits(e) - 1
  {
    if e == 0 then 0 else OneBits(e) + Bits(e) - 1
  }

  lemma SquareStep(result: Tensor, base: Tensor, n: nat, e: nat)
    requires IsSquare(result, n) && IsSquare(base, n)
    ensures Mul(result, Power(base, n, 2 * e), n) == Mul(result, Power(Mul(base, base, n), n, e), n)
    ensures Mul(result, Power(base, n, 2 * e + 1), n) == Mul(Mul(result, base, n), Power(base, n, 2 * e), n)
  {
    PowerOfSquare(base, n, e);
    PowerOne(base, n);
    PowerAdd(base, n, 1, 2 * e);
    MulAssociates(result, base, Power(base, n, 2 * e), n);
  }

  /** What the loop still has to deliver: the result so far times the remaining power. */
  function Pending(result: Tensor, base: Tensor, n: nat, e: nat): (r: Tensor)
    requires IsSquare(result, n) && IsSquare(base, n)
  {
    Mul(result, Power(base, n, e), n)
  }

  lemma LoopStep(result: Tensor, base: Tensor, n: nat, e: nat)
    requires IsSquare(result, n) && IsSquare(base, n) && e > 0
    ensures Pending(if e % 2 == 1 then Mul(result, base, n) else result,
                    if e / 2 > 0 then Mul(base, base, n) else base, n, e / 2) == Pending(result, base, n, e)
  {
    var half := e / 2;
    SquareStep(result, base, n, half);
    if e % 2 == 1 { SquareStep(Mul(result, base, n), base, n, half); }
  }

  lemma WorkStep(e: nat)
    requires e > 0
    ensures Work(e) == Work(e / 2) + e % 2 + (if e / 2 > 0 then 1 else 0)
  {
  }

  /** The squaring loop; `work` counts its multiplications. */
  method Squaring(b: Tensor, n: nat, exponent: nat) returns (result: Tensor, work: nat)
    requires IsSquare(b, n)
    ensures result == Power(b, n, exponent)
    ensures work == Work(exponent)
  {
    result, work := Eye(n), 0;
    var base, e := b, exponent;
    MulEye(Power(b, n, exponent), n);
    while e > 0
      invariant IsSquare(result, n) && IsSquare(base, n)
      invariant Pending(result, base, n, e) == Power(b, n, exponent)
      invariant work + Work(e) == Work(exponent)
    {
      LoopStep(result, base, n, e);
      WorkStep(e);
      if e % 2 == 1 {
        result, work := Mul(result, base, n), work + 1;
      }
      e := e / 2;
      if e > 0 {
        base, work := Mul(base, base, n), work + 1;
      }
    }
    MulEye(result, n);
  }

  datatype Result = Ok(value: Tensor) | NotMatrix | NotSquare | Singular

  predicate Inverses(a: Tensor, b: Tensor, n: nat)
    requires IsSquare(a, n) && IsSquare(b, n)
  {
    Mul(a, b, n) == Eye(n) && Mul(b, a, n) == Eye(n)
  }

  /** A power for any integer, by the matrix or by its inverse. */
  function IntPower(a: Tensor, b: Tensor, n: nat, p: int): (r: Tensor)
    requires IsSquare(a, n) && IsSquare(b, n)
    ensures IsSquare(r, n)
  {
    if p < 0 then Power(b, n, -p) else Power(a, n, p)
  }

  /** The call. `inverse` is what the native inversion answers: absent where it raises. */
  method MatrixPower(input: Tensor, p: int, inverse: Option<Tensor>) returns (r: Result, work: nat)
    requires Valid(input)
    requires inverse.Some? ==> Valid(inverse.value) && inverse.value.shape == input.shape
    ensures |input.shape| != 2 <==> r == NotMatrix
    ensures r == NotSquare <==> |input.shape| == 2 && input.shape[0] != input.shape[1]
    ensures r == Singular <==> |input.shape| == 2 && input.shape[0] == input.shape[1] && p < 0 && inverse.None?
    ensures r.Ok? ==> IsSquare(input, input.shape[0])
                      && r.value == IntPower(input, if p < 0 then inverse.value else input, input.shape[0], p)
    ensures work <= Work(if p < 0 then -p else p)
  {
    work := 0;
    if |input.shape| != 2 { return NotMatrix, work; }
    var n := input.shape[0];
    if n != input.shape[1] { return NotSquare, work; }
    assert input.shape == [n, n];
    if p < 0 && inverse.None? { return Singular, work; }
    var base := if p < 0 then inverse.value else input;
    var value: Tensor;
    value, work := Squaring(base, n, if p < 0 then -p else p);
    r := Ok(value);
  }

  // ----- powers of a matrix and its inverse -----

  lemma StepUp(a: Tensor, b: Tensor, n: nat, p: int)
    requires IsSquare(a, n) && IsSquare(b, n) && Inverses(a, b, n)
    ensures Mul(IntPower(a, b, n, p), a, n) == IntPower(a, b, n, p + 1)
  {
    if p < 0 {
      var k := -p - 1;
      MulAssociates(Power(b, n, k), b, a, n);
      MulEye(Power(b, n, k), n);
    }
  }

  lemma StepDown(a: Tensor, b: Tensor, n: nat, p: int)
    requires IsSquare(a, n) && IsSquare(b, n) && Inverses(a, b, n)
    ensures Mul(IntPower(a, b, n, p), b, n) == IntPower(a, b, n, p - 1)
  {
    if p > 0 {
      MulAssociates(Power(a, n, p - 1), a, b, n);
      MulEye(Power(a, n, p - 1), n);
    } else if p == 0 {
      PowerOne(b, n);
      MulEye(b, n);
    }
  }

  /** Exponents add, over all integers; so powers p and -p multiply to the identity. */
  lemma {:induction false} IntPowersAdd(a: Tensor, b: Tensor, n: nat, p: int, q: int)
    requires IsSquare(a, n) && IsSquare(b, n) && Inverses(a, b, n)
    ensures Mul(IntPower(a, b, n, p), IntPower(a, b, n, q), n) == IntPower(a, b, n, p + q)
  {
    Add(a, b, n, p, q);
  }

  predicate Adds(a: Tensor, b: Tensor, n: nat, p: int, q: int)
    requires IsSquare(a, n) && IsSquare(b, n)
  {
    Mul(IntPower(a, b, n, p), IntPower(a, b, n, q), n) == IntPower(a, b, n, p + q)
  }

  lemma {:induction false} Add(a: Tensor, b: Tensor, n: nat, p: int, q: int)
    requires IsSquare(a, n) && IsSquare(b, n) && Inverses(a, b, n)
    ensures Adds(a, b, n, p, q)
    decreases if q < 0 then -q else q
  {
    if q == 0 {
      AddNothing(a, b, n, p);
    } else if q > 0 {
      Add(a, b, n, p, q - 1);
      AddOneMore(a, b, n, p, q - 1);
    } else {
      Add(a, b, n, p, q + 1);
      AddOneLess(a, b, n, p, q + 1);
    }
  }

  lemma AddNothing(a: Tensor, b: Tensor, n: nat, p: int)
    requires IsSquare(a, n) && IsSquare(b, n)
    ensures Adds(a, b, n, p, 0)
  {
    MulEye(IntPower(a, b, n, p), n);
  }

  lemma AddOneMore(a: Tensor, b: Tensor, n: nat, p: int, q: int)
    requires IsSquare(a, n) && IsSquare(b, n) && Inverses(a, b, n)
    requires Adds(a, b, n, p, q)
    ensures Adds(a, b, n, p, q + 1)
  {
    StepUp(a, b, n, q);
    MulAssociates(IntPower(a, b, n, p), IntPower(a, b, n, q), a, n);
    StepUp(a, b, n, p + q);
    assert p + (q + 1) == p + q + 1;
  }

  lemma AddOneLess(a: Tensor, b: Tensor, n: nat, p: int, q: int)
    requires IsSquare(a, n) && IsSquare(b, n) && Inverses(a, b, n)
    requires Adds(a, b, n, p, q)
    ensures Adds(a, b, n, p, q - 1)
  {
    StepDown(a, b, n, q);
    MulAssociates(IntPower(a, b, n, p), IntPower(a, b, n, q), b, n);
    StepDown(a, b, n, p + q);
    assert p + (q - 1) == p + q - 1;
  }

  lemma OppositePowersCancel(a: Tensor, b: Tensor, n: nat, p: int)
    requires IsSquare(a, n) && IsSquare(b, n) && Inverses(a, b, n)
    ensures Mul(IntPower(a, b, n, p), IntPower(a, b, n, -p), n) == Eye(n)
  {
    IntPowersAdd(a, b, n, p, -p);
  }
}
