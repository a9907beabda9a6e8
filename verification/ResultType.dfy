/**
 Type promotion: the promotion table is the join of an order on the table's types, and
 the type of an elementwise result follows from it, whatever the order of the operands.
 */
module ResultType {
  import opened Text

  datatype DType =
    | Bool | UInt8 | Int8 | Int16 | Int32 | Int64
    | Float16 | BFloat16 | Float32 | Float64 | Complex64 | Complex128
    | Complex32

  /** The types that have a row in the promotion table. */
  type Tabled = d: DType | d != Complex32 witness Bool

  function Column(d: Tabled): (k: nat)
    ensures k < 12
  {
    match d
    case Bool => 0 case UInt8 => 1 case Int8 => 2 case Int16 => 3 case Int32 => 4 case Int64 => 5
    case Float16 => 6 case BFloat16 => 7 case Float32 => 8 case Float64 => 9
    case Complex64 => 10 case Complex128 => 11
  }

  function TableRow(d: Tabled): (r: seq<Tabled>)
    ensures |r| == 12
  {
    match d
    case Bool => [Bool, UInt8, Int8, Int16, Int32, Int64, Float16, BFloat16, Float32, Float64, Complex64, Complex128]
    case UInt8 => [UInt8, UInt8, Int16, Int16, Int32, Int64, Float16, BFloat16, Float32, Float64, Complex64, Complex128]
    case Int8 => [Int8, Int16, Int8, Int16, Int32, Int64, Float16, BFloat16, Float32, Float64, Complex64, Complex128]
    case Int16 => [Int16, Int16, Int16, Int16, Int32, Int64, Float16, BFloat16, Float32, Float64, Complex64, Complex128]
    case Int32 => [Int32, Int32, Int32, Int32, Int32, Int64, Float16, BFloat16, Float32, Float64, Complex64, Complex128]
    case Int64 => [Int64, Int64, Int64, Int64, Int64, Int64, Float16, BFloat16, Float32, Float64, Complex64, Complex128]
    case Float16 => [Float16, Float16, Float16, Float16, Float16, Float16, Float16, Float32, Float32, Float64,
                     Complex64, Complex128]
    case BFloat16 => [BFloat16, BFloat16, BFloat16, BFloat16, BFloat16, BFloat16, Float32, BFloat16, Float32,
                      Float64, Complex64, Complex128]
    case Float32 => [Float32, Float32, Float32, Float32, Float32, Float32, Float32, Float32, Float32, Float64,
                     Complex64, Complex128]
    case Float64 => [Float64, Float64, Float64, Float64, Float64, Float64, Float64, Float64, Float64, Float64,
                     Complex128, Complex128]
    case Complex64 => [Complex64, Complex64, Complex64, Complex64, Complex64, Complex64, Complex64, Complex64,
                       Complex64, Complex128, Complex64, Complex128]
    case Complex128 => [Complex128, Complex128, Complex128, Complex128, Complex128, Complex128, Complex128,
                        Complex128, Complex128, Complex128, Complex128, Complex128]
  }

  function PromoteTypes(a: Tabled, b: Tabled): (r: Tabled) {
    TableRow(a)[Column(b)]
  }

  /** Whether a cast is allowed; absent where the lookup raises. */
  function CanCast(a: Tabled, b: DType): (r: Option<bool>)
  {
    if b == Complex32 then None else Some(PromoteTypes(a, b) == b)
  }

  // ----- the order behind the table -----

  /** Height in the promotion order: types of equal height are equal or unrelated. */
  function Height(d: Tabled): (k: nat) {
    match d
    case Bool => 0 case UInt8 => 1 case Int8 => 1 case Int16 => 2 case Int32 => 3 case Int64 => 4
    case Float16 => 5 case BFloat16 => 5 case Float32 => 6 case Float64 => 7
    case Complex64 => 7 case Complex128 => 8
  }

  predicate Fits(a: Tabled, b: Tabled) {
    a == b || Height(a) < Height(b)
  }

  /** `p` is the larger of two related types, and one step above two unrelated ones. */
  predicate StepsUp(a: Tabled, b: Tabled, p: Tabled) {
    && (Fits(a, b) ==> p == b)
    && (Fits(b, a) ==> p == a)
    && (!Fits(a, b) && !Fits(b, a) ==> Height(p) == Height(a) + 1)
  }

  lemma SmallRows(a: Tabled, b: Tabled)
    requires Height(a) <= 1
    ensures StepsUp(a, b, PromoteTypes(a, b))
  {
    match a case Bool => case UInt8 => case Int8 =>
  }

  lemma IntegerRows(a: Tabled, b: Tabled)
    requires 2 <= Height(a) <= 4
    ensures StepsUp(a, b, PromoteTypes(a, b))
  {
    match a case Int16 => case Int32 => case Int64 =>
  }

  lemma RealRows(a: Tabled, b: Tabled)
    requires 5 <= Height(a) <= 6
    ensures StepsUp(a, b, PromoteTypes(a, b))
  {
    match a case Float16 => case BFloat16 => case Float32 =>
  }

  lemma LargeRows(a: Tabled, b: Tabled)
    requires 7 <= Height(a)
    ensures StepsUp(a, b, PromoteTypes(a, b))
  {
    match a case Float64 => case Complex64 => case Complex128 =>
  }

  lemma TableEntry(a: Tabled, b: Tabled)
    ensures StepsUp(a, b, PromoteTypes(a, b))
  {
    if Height(a) <= 1 {
      SmallRows(a, b);
    } else if Height(a) <= 4 {
      IntegerRows(a, b);
    } else if Height(a) <= 6 {
      RealRows(a, b);
    } else {
      LargeRows(a, b);
    }
  }

  /** Just three pairs of types are unrelated. */
  predicate Clash(a: Tabled, b: Tabled) {
    (a.UInt8? && b.Int8?) || (a.Float16? && b.BFloat16?) || (a.Float64? && b.Complex64?)
  }

  lemma UnrelatedClash(a: Tabled, b: Tabled)
    requires !Fits(a, b) && !Fits(b, a)
    ensures Clash(a, b) || Clash(b, a)
  {
  }

  lemma ClashJoin(a: Tabled, b: Tabled, p: Tabled, c: Tabled)
    requires Clash(a, b) && Height(p) == Height(a) + 1
    ensures Fits(p, c) <==> Fits(a, c) && Fits(b, c)
  {
    match a case UInt8 => case Float16 => case Float64 =>
  }

  lemma FitsTransitive(a: Tabled, b: Tabled, c: Tabled)
    requires Fits(a, b) && Fits(b, c)
    ensures Fits(a, c)
  {
  }

  lemma StepIsJoin(a: Tabled, b: Tabled, p: Tabled, c: Tabled)
    requires StepsUp(a, b, p)
    ensures Fits(p, c) <==> Fits(a, c) && Fits(b, c)
  {
    if Fits(a, b) {
      if Fits(b, c) { FitsTransitive(a, b, c); }
    } else if Fits(b, a) {
      if Fits(a, c) { FitsTransitive(b, a, c); }
    } else {
      UnrelatedClash(a, b);
      if Clash(a, b) { ClashJoin(a, b, p, c); } else { ClashJoin(b, a, p, c); }
    }
  }

  /** Promotion is the join: the least type both operands fit in. */
  lemma PromoteIsJoin(a: Tabled, b: Tabled, c: Tabled)
    ensures Fits(PromoteTypes(a, b), c) <==> Fits(a, c) && Fits(b, c)
  {
    TableEntry(a, b);
    StepIsJoin(a, b, PromoteTypes(a, b), c);
  }

  lemma FitsAntisymmetric(a: Tabled, b: Tabled)
    requires Fits(a, b) && Fits(b, a)
    ensures a == b
  {
  }

  /** Casting is allowed exactly upward in the order. */
  lemma CastIsOrder(a: Tabled, b: Tabled)
    ensures CanCast(a, b) == Some(Fits(a, b))
  {
    TableEntry(a, b);
  }

  lemma PromoteCommutes(a: Tabled, b: Tabled)
    ensures PromoteTypes(a, b) == PromoteTypes(b, a)
  {
    forall d: Tabled ensures Fits(PromoteTypes(a, b), d) <==> Fits(PromoteTypes(b, a), d) {
      PromoteIsJoin(a, b, d);
      PromoteIsJoin(b, a, d);
    }
    SameBounds(PromoteTypes(a, b), PromoteTypes(b, a));
  }

  lemma AssociateBound(a: Tabled, b: Tabled, c: Tabled, d: Tabled)
    ensures Fits(PromoteTypes(PromoteTypes(a, b), c), d) <==> Fits(PromoteTypes(a, PromoteTypes(b, c)), d)
  {
    PromoteIsJoin(PromoteTypes(a, b), c, d);
    PromoteIsJoin(a, b, d);
    PromoteIsJoin(a, PromoteTypes(b, c), d);
    PromoteIsJoin(b, c, d);
  }

  lemma PromoteAssociates(a: Tabled, b: Tabled, c: Tabled)
    ensures PromoteTypes(PromoteTypes(a, b), c) == PromoteTypes(a, PromoteTypes(b, c))
  {
    var l, r := PromoteTypes(PromoteTypes(a, b), c), PromoteTypes(a, PromoteTypes(b, c));
    forall d: Tabled ensures Fits(l, d) <==> Fits(r, d) {
      AssociateBound(a, b, c, d);
    }
    SameBounds(l, r);
  }

  lemma SameBounds(a: Tabled, b: Tabled)
    requires forall d: Tabled :: Fits(a, d) <==> Fits(b, d)
    ensures a == b
  {
    assert Fits(a, a) && Fits(b, b);
    FitsAntisymmetric(a, b);
  }

  // ----- operands -----

  datatype Operand =
    | TensorOf(dims: nat, dtype: Tabled)
    | BoolNumber | IntNumber | RealNumber | ComplexNumber
    | TypeItself(dtype: Tabled)

  datatype Rank = Dimensioned | ZeroDim | Wrapped

  function RankOf(x: Operand): (r: Rank) {
    if x.TensorOf? then (if x.dims > 0 then Dimensioned else ZeroDim) else Wrapped
  }

  /** The type an operand contributes; `real` is the default real type. */
  function TypeOf(x: Operand, real_: Tabled): (d: Tabled) {
    match x
    case TensorOf(_, d) => d
    case BoolNumber => Bool
    case IntNumber => Int64
    case RealNumber => real_
    case ComplexNumber => if real_ == Float64 then Complex128 else Complex64
    case TypeItself(d) => d
  }

  function Promote(a: Option<Tabled>, b: Option<Tabled>): (r: Option<Tabled>) {
    if a.None? then b else if b.None? then a else Some(PromoteTypes(a.value, b.value))
  }

  predicate IsComplex(d: DType) {
    d.Complex32? || d.Complex64? || d.Complex128?
  }

  predicate IsFloating(d: DType) {
    d.Float16? || d.BFloat16? || d.Float32? || d.Float64?
  }

  /** A real type's width carried into a complex type. */
  function Widened(higher: DType, lower: DType): (r: DType) {
    match higher
    case Float16 => Complex32
    case Float32 => Complex64
    case Float64 => Complex128
    case _ => lower
  }

  function Combine(higher: Option<Tabled>, lower: Option<DType>): (r: Option<DType>) {
    if higher.Some? && IsComplex(higher.value) then higher
    else if lower.Some? && IsComplex(lower.value) then
      if higher.Some? && IsFloating(higher.value) then Some(Widened(higher.value, lower.value)) else lower
    else if higher.Some? && IsFloating(higher.value) then higher
    else if higher == Some(Bool) || (lower.Some? && IsFloating(lower.value)) then Promote(higher, lower)
    else if higher.Some? then higher else lower
  }

  predicate All<T(==)>(s: seq<T>, p: T -> bool) {
    forall x :: x in s ==> p(x)
  }

  lemma AllStep<T>(s: seq<T>, x: T, p: T -> bool)
    ensures All(s + [x], p) <==> All(s, p) && p(x)
  {
    assert forall y :: y in s + [x] <==> y in s || y == x;
  }

  lemma AllSame<T>(s: seq<T>, t: seq<T>, p: T -> bool)
    requires forall x :: x in s <==> x in t
    ensures All(s, p) <==> All(t, p)
  {
  }

  function OfOtherRank(rank: Rank): (p: Operand -> bool) {
    x => RankOf(x) != rank
  }

  function Below(real_: Tabled, rank: Rank, c: Tabled): (p: Operand -> bool) {
    x => RankOf(x) == rank ==> Fits(TypeOf(x, real_), c)
  }

  lemma AbsentFits(args: seq<Operand>, real_: Tabled, rank: Rank, c: Tabled)
    requires All(args, OfOtherRank(rank))
    ensures All(args, Below(real_, rank, c))
  {
    forall x | x in args ensures Below(real_, rank, c)(x) {
      assert OfOtherRank(rank)(x);
    }
  }

  /** `r` is the join of the types the operands of one rank contribute; absent when there are none. */
  ghost predicate IsJoin(args: seq<Operand>, real_: Tabled, rank: Rank, r: Option<Tabled>) {
    && (r.None? <==> All(args, OfOtherRank(rank)))
    && (r.Some? ==> forall c: Tabled :: Fits(r.value, c) <==> All(args, Below(real_, rank, c)))
  }

  function Next(r: Option<Tabled>, rank: Rank, x: Operand, real_: Tabled): (s: Option<Tabled>) {
    if RankOf(x) == rank then Promote(r, Some(TypeOf(x, real_))) else r
  }

  lemma JoinStep(args: seq<Operand>, x: Operand, real_: Tabled, rank: Rank, r: Option<Tabled>)
    requires IsJoin(args, real_, rank, r)
    ensures IsJoin(args + [x], real_, rank, Next(r, rank, x, real_))
  {
    var s := Next(r, rank, x, real_);
    AllStep(args, x, OfOtherRank(rank));
    if s.Some? {
      forall c: Tabled ensures Fits(s.value, c) <==> All(args + [x], Below(real_, rank, c)) {
        BoundStep(args, x, real_, rank, r, c);
      }
    }
  }

  lemma BoundStep(args: seq<Operand>, x: Operand, real_: Tabled, rank: Rank, r: Option<Tabled>, c: Tabled)
    requires IsJoin(args, real_, rank, r) && Next(r, rank, x, real_).Some?
    ensures Fits(Next(r, rank, x, real_).value, c) <==> All(args + [x], Below(real_, rank, c))
  {
    AllStep(args, x, Below(real_, rank, c));
    assert Below(real_, rank, c)(x) <==> (RankOf(x) == rank ==> Fits(TypeOf(x, real_), c));
    if r.Some? {
      PromoteIsJoin(r.value, TypeOf(x, real_), c);
    } else {
      AbsentFits(args, real_, rank, c);
    }
  }

  /** The promotion, in order, of the types contributed by the operands of one rank. */
  function Folded(args: seq<Operand>, real_: Tabled, rank: Rank): (r: Option<Tabled>) {
    if args == [] then None
    else Next(Folded(args[..|args| - 1], real_, rank), rank, args[|args| - 1], real_)
  }

  lemma {:induction false} FoldedIsJoin(args: seq<Operand>, real_: Tabled, rank: Rank)
    ensures IsJoin(args, real_, rank, Folded(args, real_, rank))
  {
    if args != [] {
      var before, x := args[..|args| - 1], args[|args| - 1];
      FoldedIsJoin(before, real_, rank);
      JoinStep(before, x, real_, rank, Folded(before, real_, rank));
      assert args == before + [x];
    }
  }

  function ResultOf(args: seq<Operand>, real_: Tabled): (r: Option<DType>) {
    Combine(Folded(args, real_, Dimensioned), Combine(Folded(args, real_, ZeroDim), Folded(args, real_, Wrapped)))
  }

  lemma FoldedStep(args: seq<Operand>, k: nat, real_: Tabled, rank: Rank)
    requires k < |args|
    ensures Folded(args[..k + 1], real_, rank) == Next(Folded(args[..k], real_, rank), rank, args[k], real_)
  {
    assert args[..k + 1][..k] == args[..k];
  }

  method ResultType(args: seq<Operand>, real_: Tabled) returns (r: Option<DType>)
    ensures r == ResultOf(args, real_)
  {
    var dim: Option<Tabled>, zero: Option<Tabled>, wrapped: Option<Tabled> := None, None, None;
    for k := 0 to |args|
      invariant dim == Folded(args[..k], real_, Dimensioned)
      invariant zero == Folded(args[..k], real_, ZeroDim)
      invariant wrapped == Folded(args[..k], real_, Wrapped)
    {
      FoldedStep(args, k, real_, Dimensioned);
      FoldedStep(args, k, real_, ZeroDim);
      FoldedStep(args, k, real_, Wrapped);
      var dt := TypeOf(args[k], real_);
      if args[k].TensorOf? {
        if args[k].dims > 0 { dim := Promote(dim, Some(dt)); } else { zero := Promote(zero, Some(dt)); }
      } else {
        wrapped := Promote(wrapped, Some(dt));
      }
    }
    assert args[..|args|] == args;
    r := Combine(dim, Combine(zero, wrapped));
  }

  // ----- the order of the operands -----

  lemma JoinUnique(args: seq<Operand>, other: seq<Operand>, real_: Tabled, rank: Rank, r: Option<Tabled>,
                   s: Option<Tabled>)
    requires forall x :: x in args <==> x in other
    requires IsJoin(args, real_, rank, r) && IsJoin(other, real_, rank, s)
    ensures r == s
  {
    AllSame(args, other, OfOtherRank(rank));
    if r.Some? {
      forall c: Tabled ensures Fits(r.value, c) <==> Fits(s.value, c) {
        AllSame(args, other, Below(real_, rank, c));
      }
      SameBounds(r.value, s.value);
    }
  }

  lemma FoldedSame(args: seq<Operand>, other: seq<Operand>, real_: Tabled, rank: Rank)
    requires forall x :: x in args <==> x in other
    ensures Folded(args, real_, rank) == Folded(other, real_, rank)
  {
    FoldedIsJoin(args, real_, rank);
    FoldedIsJoin(other, real_, rank);
    JoinUnique(args, other, real_, rank, Folded(args, real_, rank), Folded(other, real_, rank));
  }

  /** Only which operands occur matters: not their order, nor how often each is given. */
  lemma OrderIsImmaterial(args: seq<Operand>, other: seq<Operand>, real_: Tabled)
    requires forall x :: x in args <==> x in other
    ensures ResultOf(args, real_) == ResultOf(other, real_)
  {
    FoldedSame(args, other, real_, Dimensioned);
    FoldedSame(args, other, real_, ZeroDim);
    FoldedSame(args, other, real_, Wrapped);
  }

  // ----- casting operands to the result -----

  predicate Complexes(t: Option<Tabled>) {
    t.Some? && IsComplex(t.value)
  }

  /** A 16-bit float decides the width beside a complex operand of lower rank. */
  predicate HalfBesideComplex(d: Option<Tabled>, z: Option<Tabled>, w: Option<Tabled>) {
    || (d == Some(Float16) && (Complexes(z) || Complexes(w)))
    || (z == Some(Float16) && Complexes(w)
        && (d.None? || d == Some(BFloat16) || !(IsFloating(d.value) || IsComplex(d.value))))
  }

  lemma LowerHalf(z: Option<Tabled>, w: Option<Tabled>)
    ensures Combine(z, w) == Some(Complex32) <==> z == Some(Float16) && Complexes(w)
    ensures (Combine(z, w).Some? && IsComplex(Combine(z, w).value)) <==> Complexes(z) || Complexes(w)
  {
  }

  lemma HigherHalf(d: Option<Tabled>, lower: Option<DType>)
    ensures Combine(d, lower) == Some(Complex32) <==>
            || (d == Some(Float16) && lower.Some? && IsComplex(lower.value))
            || (lower == Some(Complex32)
                && (d.None? || d == Some(BFloat16) || !(IsFloating(d.value) || IsComplex(d.value))))
  {
  }

  lemma HalfExactly(d: Option<Tabled>, z: Option<Tabled>, w: Option<Tabled>)
    ensures Combine(d, Combine(z, w)) == Some(Complex32) <==> HalfBesideComplex(d, z, w)
  {
    LowerHalf(z, w);
    HigherHalf(d, Combine(z, w));
  }

  /** Outside that case the result holds the join of the dimensioned operands. */
  lemma DimensionedFits(d: Tabled, z: Option<Tabled>, w: Option<Tabled>)
    requires !HalfBesideComplex(Some(d), z, w)
    ensures var r := Combine(Some(d), Combine(z, w)); r.Some? && r.value != Complex32 && Fits(d, r.value)
  {
    HalfExactly(Some(d), z, w);
    var lower := Combine(z, w);
    if lower.Some? && !IsComplex(lower.value) {
      TableEntry(d, lower.value);
      PromoteIsJoin(d, lower.value, PromoteTypes(d, lower.value));
    }
  }

  lemma OperandBelow(args: seq<Operand>, real_: Tabled, d: Option<Tabled>, i: nat)
    requires IsJoin(args, real_, Dimensioned, d) && i < |args| && RankOf(args[i]) == Dimensioned
    ensures d.Some? && Fits(args[i].dtype, d.value)
  {
    assert args[i] in args;
    assert !OfOtherRank(Dimensioned)(args[i]);
    assert Fits(d.value, d.value);
    assert Below(real_, Dimensioned, d.value)(args[i]);
  }

  /** Every dimensioned operand can be cast to the result exactly when the width of a 16-bit
      float is not carried into a complex result. */
  lemma OperandsCastExactly(args: seq<Operand>, real_: Tabled, i: nat)
    requires i < |args| && RankOf(args[i]) == Dimensioned
    ensures ResultOf(args, real_).Some?
    ensures CanCast(args[i].dtype, ResultOf(args, real_).value) == Some(true) <==>
            !HalfBesideComplex(Folded(args, real_, Dimensioned), Folded(args, real_, ZeroDim),
                               Folded(args, real_, Wrapped))
  {
    var d, z, w := Folded(args, real_, Dimensioned), Folded(args, real_, ZeroDim), Folded(args, real_, Wrapped);
    FoldedIsJoin(args, real_, Dimensioned);
    OperandBelow(args, real_, d, i);
    CastFrom(args[i].dtype, d.value, z, w);
  }

  lemma CastFrom(a: Tabled, d: Tabled, z: Option<Tabled>, w: Option<Tabled>)
    requires Fits(a, d)
    ensures Combine(Some(d), Combine(z, w)).Some?
    ensures CanCast(a, Combine(Some(d), Combine(z, w)).value) == Some(true) <==> !HalfBesideComplex(Some(d), z, w)
  {
    HalfExactly(Some(d), z, w);
    if !HalfBesideComplex(Some(d), z, w) {
      DimensionedFits(d, z, w);
      CastIsOrder(a, Combine(Some(d), Combine(z, w)).value);
    }
  }

  // ----- kinds -----

  function Kind(d: DType): (k: nat) {
    if d == Bool then 0 else if IsComplex(d) then 3 else if IsFloating(d) then 2 else 1
  }

  function KindOf(t: Option<DType>): (k: int) {
    if t.None? then -1 else Kind(t.value)
  }

  function Larger(a: int, b: int): (r: int) {
    if a < b then b else a
  }

  lemma PromoteKind(a: Tabled, b: Tabled)
    ensures Kind(PromoteTypes(a, b)) == Larger(Kind(a), Kind(b))
  {
    TableEntry(a, b);
    StepKind(a, b, PromoteTypes(a, b));
  }

  lemma KindGrows(a: Tabled, b: Tabled)
    requires Fits(a, b)
    ensures Kind(a) <= Kind(b)
  {
  }

  lemma ClashKind(a: Tabled, b: Tabled, p: Tabled)
    requires Clash(a, b) && Height(p) == Height(a) + 1
    ensures Kind(p) == Larger(Kind(a), Kind(b))
  {
    match a case UInt8 => case Float16 => case Float64 =>
  }

  lemma StepKind(a: Tabled, b: Tabled, p: Tabled)
    requires StepsUp(a, b, p)
    ensures Kind(p) == Larger(Kind(a), Kind(b))
  {
    if Fits(a, b) {
      KindGrows(a, b);
    } else if Fits(b, a) {
      KindGrows(b, a);
    } else {
      UnrelatedClash(a, b);
      if Clash(a, b) { ClashKind(a, b, p); } else { ClashKind(b, a, p); }
    }
  }

  lemma CombineKind(h: Option<Tabled>, l: Option<DType>)
    ensures KindOf(Combine(h, l)) == Larger(KindOf(h), KindOf(l))
    ensures h.Some? && KindOf(l) <= KindOf(h) ==> Combine(h, l) == h
  {
    if h.Some? && l.Some? && l.value != Complex32 {
      PromoteKind(h.value, l.value);
      TableEntry(h.value, l.value);
    }
  }

  /** The result's kind is the largest kind present, and operands of lower rank change the type
      only by bringing a larger kind: a number never widens a tensor of its own kind. */
  lemma KindDecides(args: seq<Operand>, real_: Tabled, d: Option<Tabled>, z: Option<Tabled>, w: Option<Tabled>)
    requires d == Folded(args, real_, Dimensioned) && z == Folded(args, real_, ZeroDim)
    requires w == Folded(args, real_, Wrapped)
    ensures KindOf(ResultOf(args, real_)) == Larger(KindOf(d), Larger(KindOf(z), KindOf(w)))
    ensures d.Some? && KindOf(z) <= KindOf(d) && KindOf(w) <= KindOf(d) ==> ResultOf(args, real_) == d
    ensures d.None? && z.Some? && KindOf(w) <= KindOf(z) ==> ResultOf(args, real_) == z
  {
    CombineKind(z, w);
    CombineKind(d, Combine(z, w));
  }

  // ----- the exact type -----

  /** The real type each part of a complex type has. */
  function RealPart(c: DType): (r: Option<DType>) {
    match c
    case Complex32 => Some(Float16)
    case Complex64 => Some(Float32)
    case Complex128 => Some(Float64)
    case _ => None
  }

  /** The higher rank keeps its type unless the lower brings a larger kind. Then the lower type is
      taken, except that a complex one takes on the width of a real type that has a complex form. */
  ghost predicate Outranked(h: Option<DType>, l: Option<DType>, r: Option<DType>) {
    && (KindOf(l) <= KindOf(h) ==> r == h)
    && (KindOf(l) > KindOf(h) && KindOf(l) == 3 && HasComplexForm(h) ==> r.Some? && RealPart(r.value) == h)
    && (KindOf(l) > KindOf(h) && !(KindOf(l) == 3 && HasComplexForm(h)) ==> r == l)
  }

  predicate HasComplexForm(h: Option<DType>) {
    h == Some(Float16) || h == Some(Float32) || h == Some(Float64)
  }

  lemma WidenedKeepsWidth(h: DType, l: DType)
    requires HasComplexForm(Some(h))
    ensures RealPart(Widened(h, l)) == Some(h)
  {
  }

  lemma CombineExactly(h: Option<Tabled>, l: Option<DType>)
    ensures Outranked(h, l, Combine(h, l))
  {
    CombineKind(h, l);
    if h.Some? && HasComplexForm(h) && l.Some? { WidenedKeepsWidth(h.value, l.value); }
    if h.Some? && l.Some? && Kind(h.value) < Kind(l.value) <= 2 {
      SmallerKindFits(h.value, l.value);
      TableEntry(h.value, l.value);
    }
  }

  lemma SmallerKindFits(a: Tabled, b: Tabled)
    requires Kind(a) < Kind(b) <= 2
    ensures Fits(a, b)
  {
  }

  /** The result type, exactly, from the joins of the three ranks. */
  lemma ResultExactly(args: seq<Operand>, real_: Tabled, d: Option<Tabled>, z: Option<Tabled>, w: Option<Tabled>)
    returns (lower: Option<DType>)
    requires IsJoin(args, real_, Dimensioned, d) && IsJoin(args, real_, ZeroDim, z) && IsJoin(args, real_, Wrapped, w)
    ensures Outranked(z, w, lower) && Outranked(d, lower, ResultOf(args, real_))
  {
    FoldedIsJoin(args, real_, Dimensioned);
    FoldedIsJoin(args, real_, ZeroDim);
    FoldedIsJoin(args, real_, Wrapped);
    JoinUnique(args, args, real_, Dimensioned, d, Folded(args, real_, Dimensioned));
    JoinUnique(args, args, real_, ZeroDim, z, Folded(args, real_, ZeroDim));
    JoinUnique(args, args, real_, Wrapped, w, Folded(args, real_, Wrapped));
    lower := Combine(z, w);
    CombineExactly(z, w);
    CombineExactly(d, lower);
  }

  lemma FoldedOne(x: Operand, real_: Tabled, rank: Rank)
    ensures Folded([x], real_, rank) == if RankOf(x) == rank then Some(TypeOf(x, real_)) else None
  {
    assert [x][..0] == [];
    assert Folded([], real_, rank) == None;
  }

  /** One operand alone: a tensor's or a named type is itself, and a number has the type of its kind. */
  lemma LoneOperand(x: Operand, real_: Tabled)
    ensures ResultOf([x], real_) == Some(TypeOf(x, real_))
    ensures ResultOf([BoolNumber], real_) == Some(Bool) && ResultOf([IntNumber], real_) == Some(Int64)
    ensures ResultOf([RealNumber], real_) == Some(real_)
    ensures ResultOf([ComplexNumber], real_) == Some(if real_ == Float64 then Complex128 else Complex64)
  {
    LoneType(x, real_);
    LoneType(BoolNumber, real_);
    LoneType(IntNumber, real_);
    LoneType(RealNumber, real_);
    LoneType(ComplexNumber, real_);
  }

  lemma LoneType(x: Operand, real_: Tabled)
    ensures ResultOf([x], real_) == Some(TypeOf(x, real_))
  {
    FoldedOne(x, real_, Dimensioned);
    FoldedOne(x, real_, ZeroDim);
    FoldedOne(x, real_, Wrapped);
    var t: Option<Tabled> := Some(TypeOf(x, real_));
    CombineNothing(t);
  }

  lemma CombineNothing(t: Option<Tabled>)
    ensures Combine(t, None) == t && Combine(None, t) == t && Combine(None, None) == None
  {
  }

  lemma FoldedTwo(x: Operand, y: Operand, real_: Tabled, rank: Rank)
    requires RankOf(x) != RankOf(y)
    ensures Folded([x, y], real_, rank)
         == if RankOf(x) == rank then Some(TypeOf(x, real_))
            else if RankOf(y) == rank then Some(TypeOf(y, real_)) else None
  {
    assert [x, y][..1] == [x];
    FoldedOne(x, real_, rank);
  }

  /** A tensor with dimensions beside one number: the number counts by its kind, never by a width. */
  lemma TensorBesideNumber(n: nat, t: Tabled, x: Operand, real_: Tabled)
    requires n > 0 && !x.TensorOf?
    ensures Outranked(Some(t), Some(TypeOf(x, real_)), ResultOf([TensorOf(n, t), x], real_))
  {
    Ranked(TensorOf(n, t), x, real_);
  }

  /** An integer tensor beside a real number becomes the default real type, a boolean one beside a
      whole number 64-bit, and a 32-bit real one beside a complex number complex with 32-bit parts. */
  lemma NumbersGiveTheirKind(n: nat, t: Tabled, real_: Tabled)
    requires n > 0 && IsFloating(real_)
    ensures Kind(t) <= 1 ==> ResultOf([TensorOf(n, t), RealNumber], real_) == Some(real_)
    ensures ResultOf([TensorOf(n, Bool), IntNumber], real_) == Some(Int64)
    ensures Kind(t) == 1 ==> ResultOf([TensorOf(n, t), IntNumber], real_) == Some(t)
    ensures ResultOf([TensorOf(n, Float32), ComplexNumber], real_) == Some(Complex64)
  {
    TensorBesideNumber(n, t, RealNumber, real_);
    TensorBesideNumber(n, Bool, IntNumber, real_);
    TensorBesideNumber(n, t, IntNumber, real_);
    TensorBesideNumber(n, Float32, ComplexNumber, real_);
  }

  lemma FoldedSameRank(x: Operand, y: Operand, real_: Tabled, rank: Rank)
    requires RankOf(x) == RankOf(y)
    ensures Folded([x, y], real_, rank)
         == if RankOf(x) == rank then Some(PromoteTypes(TypeOf(x, real_), TypeOf(y, real_))) else None
  {
    assert [x, y][..1] == [x];
    FoldedOne(x, real_, rank);
  }

  /** Two tensors with dimensions, two without, or two operands that are not tensors: promoted alike. */
  lemma AlikePromote(x: Operand, y: Operand, real_: Tabled)
    requires x.TensorOf? == y.TensorOf? && (x.TensorOf? ==> (x.dims > 0) == (y.dims > 0))
    ensures ResultOf([x, y], real_) == Some(PromoteTypes(TypeOf(x, real_), TypeOf(y, real_)))
  {
    FoldedSameRank(x, y, real_, Dimensioned);
    FoldedSameRank(x, y, real_, ZeroDim);
    FoldedSameRank(x, y, real_, Wrapped);
    var t: Option<Tabled> := Some(PromoteTypes(TypeOf(x, real_), TypeOf(y, real_)));
    CombineNothing(t);
  }

  /** A tensor without dimensions counts by its kind beside one with dimensions, and outranks what
      is not a tensor. */
  lemma ZeroDimBeside(n: nat, t: Tabled, u: Tabled, x: Operand, real_: Tabled)
    requires n > 0 && !x.TensorOf?
    ensures Outranked(Some(t), Some(u), ResultOf([TensorOf(n, t), TensorOf(0, u)], real_))
    ensures Outranked(Some(u), Some(TypeOf(x, real_)), ResultOf([TensorOf(0, u), x], real_))
  {
    Ranked(TensorOf(n, t), TensorOf(0, u), real_);
    Ranked(TensorOf(0, u), x, real_);
  }

  lemma Ranked(x: Operand, y: Operand, real_: Tabled)
    requires x.TensorOf? && (y.TensorOf? ==> x.dims > 0 && y.dims == 0)
    ensures Outranked(Some(TypeOf(x, real_)), Some(TypeOf(y, real_)), ResultOf([x, y], real_))
  {
    FoldedTwo(x, y, real_, Dimensioned);
    FoldedTwo(x, y, real_, ZeroDim);
    FoldedTwo(x, y, real_, Wrapped);
    CombineNothing(Some(TypeOf(x, real_)));
    CombineNothing(Some(TypeOf(y, real_)));
    CombineExactly(Some(TypeOf(x, real_)), Some(TypeOf(y, real_)));
  }

  /** A complex number beside a real tensor keeps the tensor's width in the result, as documented,
      except for the one real type that has no complex form. */
  lemma WidthCarriesExactly(n: nat, t: Tabled, real_: Tabled, r: Option<DType>)
    requires n > 0 && IsFloating(t) && r == ResultOf([TensorOf(n, t), ComplexNumber], real_)
    ensures r.Some? && IsComplex(r.value)
    ensures RealPart(r.value) == Some(t) <==> t != BFloat16
  {
    TensorBesideNumber(n, t, ComplexNumber, real_);
  }
}
