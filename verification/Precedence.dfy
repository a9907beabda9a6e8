/**
 Which arguments a dispatched call consults, and in what order: collection of the
 hook-bearing arguments found in nested containers, most-derived types first.
 */
module Precedence {

  type TypeId = nat

  datatype Obj = Obj(id: nat, typ: TypeId)

  /** An argument: an object, a tuple or list, or a dictionary (its values in order). */
  datatype Value = Leaf(obj: Obj) | Sequence(items: seq<Value>) | Mapping(values: seq<Value>)

  /** What `issubclass` answers; it may raise instead. */
  datatype Answer = Yes | No | RaisesTypeError

  type SubclassTest = (TypeId, TypeId) -> Answer
  type HookTest = TypeId -> bool

  predicate Below(sub: SubclassTest, a: TypeId, b: TypeId) {
    sub(a, b) == Yes
  }

  ghost predicate IsPartialOrder(sub: SubclassTest) {
    && (forall a :: Below(sub, a, a))
    && (forall a, b :: Below(sub, a, b) && Below(sub, b, a) ==> a == b)
    && (forall a, b, c :: Below(sub, a, b) && Below(sub, b, c) ==> Below(sub, a, c))
  }

  predicate Unrelated(sub: SubclassTest, a: TypeId, b: TypeId) {
    !Below(sub, a, b) && !Below(sub, b, a)
  }

  // ----- candidates -----

  /** The objects in a value, in the order they are met. */
  function Candidates(v: Value): (r: seq<Obj>)
    decreases v, 0
  {
    match v
    case Leaf(o) => [o]
    case Sequence(items) => AllCandidates(items)
    case Mapping(values) => AllCandidates(values)
  }

  function AllCandidates(vs: seq<Value>): (r: seq<Obj>)
    decreases vs
  {
    if vs == [] then [] else Candidates(vs[0]) + AllCandidates(vs[1..])
  }

  /** The object occurs in the value, at any depth. */
  predicate OccursIn(o: Obj, v: Value) {
    match v
    case Leaf(x) => x == o
    case Sequence(items) => exists w :: w in items && OccursIn(o, w)
    case Mapping(values) => exists w :: w in values && OccursIn(o, w)
  }

  /** Every object inside the containers is a candidate, and nothing else is. */
  lemma {:induction false} CandidatesExactly(v: Value, o: Obj)
    ensures o in Candidates(v) <==> OccursIn(o, v)
    decreases v, 0
  {
    match v
    case Leaf(_) =>
    case Sequence(items) => AllCandidatesExactly(items, o);
    case Mapping(values) => AllCandidatesExactly(values, o);
  }

  lemma {:induction false} AllCandidatesExactly(vs: seq<Value>, o: Obj)
    ensures o in AllCandidates(vs) <==> exists w :: w in vs && OccursIn(o, w)
    decreases vs
  {
    if vs != [] {
      CandidatesExactly(vs[0], o);
      AllCandidatesExactly(vs[1..], o);
      assert forall w :: w in vs <==> w == vs[0] || w in vs[1..];
    }
  }

  /** Candidates come in reading order: containers are read through, left to right. */
  lemma {:induction false} CandidatesInOrder(a: seq<Value>, b: seq<Value>, o: Obj)
    ensures AllCandidates(a + b) == AllCandidates(a) + AllCandidates(b)
    ensures AllCandidates([Leaf(o)]) == [o]
    ensures AllCandidates([Sequence(a)]) == AllCandidates(a) && AllCandidates([Mapping(a)]) == AllCandidates(a)
    decreases |a|
  {
    OneCandidate(Leaf(o));
    OneCandidate(Sequence(a));
    OneCandidate(Mapping(a));
    if a == [] {
      assert a + b == b;
    } else {
      CandidatesInOrder(a[1..], b, o);
      assert (a + b)[1..] == a[1..] + b;
    }
  }

  lemma OneCandidate(v: Value)
    ensures AllCandidates([v]) == Candidates(v)
  {
    assert [v][1..] == [];
    assert Candidates(v) + [] == Candidates(v);
  }

  // ----- insertion -----

  function Types(objs: seq<Obj>): (r: seq<TypeId>)
    ensures |r| == |objs|
    ensures forall i :: 0 <= i < |r| ==> r[i] == objs[i].typ
  {
    seq(|objs|, i requires 0 <= i < |objs| => objs[i].typ)
  }

  /** Where a new type goes: before the first type it is a subclass of, else last. */
  function Slot(sub: SubclassTest, ts: seq<TypeId>, t: TypeId): (k: nat)
    ensures k <= |ts|
    ensures forall i :: 0 <= i < k ==> !Below(sub, t, ts[i])
    ensures k < |ts| ==> Below(sub, t, ts[k])
  {
    if ts == [] || Below(sub, t, ts[0]) then 0 else 1 + Slot(sub, ts[1..], t)
  }

  function InsertAt<T>(s: seq<T>, k: nat, x: T): (r: seq<T>)
    requires k <= |s|
    ensures |r| == |s| + 1 && r[k] == x
  {
    s[..k] + [x] + s[k..]
  }

  /** One candidate: skipped when its type has no hook or was met before. */
  function Consider(hook: HookTest, sub: SubclassTest, acc: seq<Obj>, o: Obj): (r: seq<Obj>) {
    if o.typ in Types(acc) || !hook(o.typ) then acc
    else InsertAt(acc, Slot(sub, Types(acc), o.typ), o)
  }

  function Collect(hook: HookTest, sub: SubclassTest, objs: seq<Obj>): (r: seq<Obj>) {
    if objs == [] then []
    else Consider(hook, sub, Collect(hook, sub, objs[..|objs| - 1]), objs[|objs| - 1])
  }

  /** The collecting loop: for each candidate a scan of the list so far. */
  method OverloadedArgs(hook: HookTest, sub: SubclassTest, args: seq<Value>) returns (found: seq<Obj>)
    ensures found == Collect(hook, sub, AllCandidates(args))
  {
    var objs := AllCandidates(args);
    var seen: set<TypeId> := {};
    found := [];
    for n := 0 to |objs|
      invariant found == Collect(hook, sub, objs[..n])
      invariant forall t :: t in seen <==> t in Types(found)
    {
      var o := objs[n];
      assert objs[..n + 1][..n] == objs[..n];
      if o.typ in seen || !hook(o.typ) {
        continue;
      }
      seen := seen + {o.typ};
      var index := FindSlot(sub, found, o.typ);
      InsertTypes(found, index, o);
      found := InsertAt(found, index, o);
    }
    assert objs[..|objs|] == objs;
  }

  lemma InsertTypes(acc: seq<Obj>, k: nat, o: Obj)
    requires k <= |acc|
    ensures Types(InsertAt(acc, k, o)) == InsertAt(Types(acc), k, o.typ)
    ensures forall t :: t in InsertAt(Types(acc), k, o.typ) <==> t == o.typ || t in Types(acc)
  {
    InsertMembers(Types(acc), k, o.typ);
  }

  lemma InsertMembers<T>(s: seq<T>, k: nat, x: T)
    requires k <= |s|
    ensures forall t :: t in InsertAt(s, k, x) <==> t == x || t in s
  {
    assert s == s[..k] + s[k..];
  }

  method FindSlot(sub: SubclassTest, acc: seq<Obj>, t: TypeId) returns (index: nat)
    ensures index == Slot(sub, Types(acc), t)
  {
    index := |acc|;
    var i := 0;
    while i < |acc|
      invariant 0 <= i <= |acc| && index == |acc|
      invariant forall j :: 0 <= j < i ==> !Below(sub, t, acc[j].typ)
    {
      if sub(t, acc[i].typ) == Yes {
        index := i;
        break;
      }
      i := i + 1;
    }
    SlotUnique(sub, Types(acc), t, index);
  }

  lemma SlotUnique(sub: SubclassTest, ts: seq<TypeId>, t: TypeId, k: nat)
    requires k <= |ts| && forall i :: 0 <= i < k ==> !Below(sub, t, ts[i])
    requires k < |ts| ==> Below(sub, t, ts[k])
    ensures k == Slot(sub, ts, t)
  {
  }

  // ----- one argument per type, the first met -----

  /** `objs[i]` is the first candidate of its type, and that type has a hook. */
  predicate IsFirst(hook: HookTest, objs: seq<Obj>, i: int) {
    0 <= i < |objs| && hook(objs[i].typ) && forall j :: 0 <= j < i ==> objs[j].typ != objs[i].typ
  }

  /** `o` is the first candidate of its hook-bearing type. */
  predicate IsFirstOfType(hook: HookTest, objs: seq<Obj>, o: Obj) {
    exists i :: 0 <= i < |objs| && IsFirst(hook, objs, i) && objs[i] == o
  }

  predicate Distinct<T(==)>(s: seq<T>) {
    forall i, j :: 0 <= i < j < |s| ==> s[i] != s[j]
  }

  /** The first candidate of each hook-bearing type, in the order met. */
  function FirstSeen(hook: HookTest, objs: seq<Obj>): (r: seq<Obj>) {
    if objs == [] then []
    else
      var n := |objs| - 1;
      FirstSeen(hook, objs[..n]) + (if IsFirst(hook, objs, n) then [objs[n]] else [])
  }

  /** The types of the first-seen list: exactly the hook-bearing ones, each once. */
  lemma {:induction false} FirstSeenTypes(hook: HookTest, objs: seq<Obj>)
    ensures forall t :: t in Types(FirstSeen(hook, objs)) <==> hook(t) && t in Types(objs)
    ensures Distinct(Types(FirstSeen(hook, objs)))
    ensures forall o :: o in FirstSeen(hook, objs) <==> IsFirstOfType(hook, objs, o)
  {
    if objs != [] {
      var n := |objs| - 1;
      var before := objs[..n];
      FirstSeenTypes(hook, before);
      assert objs == before + [objs[n]];
      assert Types(objs) == Types(before) + [objs[n].typ];
      FirstSeenStep(hook, objs);
      forall o ensures IsFirstOfType(hook, objs, o)
                  <==> IsFirstOfType(hook, before, o) || (IsFirst(hook, objs, n) && o == objs[n]) {
        FirstOfTypeStep(hook, objs, o);
      }
    }
  }

  lemma FirstSeenStep(hook: HookTest, objs: seq<Obj>)
    requires objs != []
    ensures var n := |objs| - 1;
            && (IsFirst(hook, objs, n) <==> hook(objs[n].typ) && objs[n].typ !in Types(objs[..n]))
            && (forall i :: 0 <= i < n ==> (IsFirst(hook, objs, i) <==> IsFirst(hook, objs[..n], i)))
            && Types(FirstSeen(hook, objs))
            == Types(FirstSeen(hook, objs[..n])) + (if IsFirst(hook, objs, n) then [objs[n].typ] else [])
  {
    var n := |objs| - 1;
    assert forall i :: 0 <= i < n ==> Types(objs[..n])[i] == objs[i].typ;
  }

  lemma FirstOfTypeStep(hook: HookTest, objs: seq<Obj>, o: Obj)
    requires objs != []
    ensures var n := |objs| - 1;
            IsFirstOfType(hook, objs, o)
            <==> IsFirstOfType(hook, objs[..n], o) || (IsFirst(hook, objs, n) && o == objs[n])
  {
    var n := |objs| - 1;
    FirstSeenStep(hook, objs);
    if IsFirstOfType(hook, objs[..n], o) {
      var i :| 0 <= i < n && IsFirst(hook, objs[..n], i) && objs[..n][i] == o;
      assert IsFirst(hook, objs, i) && objs[i] == o;
    }
    if IsFirstOfType(hook, objs, o) {
      var i :| 0 <= i < |objs| && IsFirst(hook, objs, i) && objs[i] == o;
      assert i < n ==> IsFirst(hook, objs[..n], i) && objs[..n][i] == o;
    }
  }

  // ----- the order of types alone -----

  /** Types inserted one after the other. */
  function Order(sub: SubclassTest, ts: seq<TypeId>): (r: seq<TypeId>) {
    if ts == [] then []
    else
      var n := |ts| - 1;
      var acc := Order(sub, ts[..n]);
      InsertAt(acc, Slot(sub, acc, ts[n]), ts[n])
  }

  lemma {:induction false} OrderMembers(sub: SubclassTest, ts: seq<TypeId>)
    ensures |Order(sub, ts)| == |ts|
    ensures forall t :: t in Order(sub, ts) <==> t in ts
  {
    if ts != [] {
      var n := |ts| - 1;
      var acc := Order(sub, ts[..n]);
      OrderMembers(sub, ts[..n]);
      assert ts == ts[..n] + [ts[n]];
      InsertMembers(acc, Slot(sub, acc, ts[n]), ts[n]);
    }
  }

  lemma InsertDistinct<T>(s: seq<T>, k: nat, x: T)
    requires k <= |s| && Distinct(s) && x !in s
    ensures Distinct(InsertAt(s, k, x))
  {
    var r := InsertAt(s, k, x);
    assert forall i :: 0 <= i < |r| ==> r[i] == if i < k then s[i] else if i == k then x else s[i - 1];
  }

  lemma {:induction false} OrderDistinct(sub: SubclassTest, ts: seq<TypeId>)
    requires Distinct(ts)
    ensures Distinct(Order(sub, ts))
  {
    if ts != [] {
      var n := |ts| - 1;
      OrderDistinct(sub, ts[..n]);
      OrderMembers(sub, ts[..n]);
      var acc := Order(sub, ts[..n]);
      assert ts[n] !in ts[..n];
      InsertDistinct(acc, Slot(sub, acc, ts[n]), ts[n]);
    }
  }

  /** Collecting is: take the first of each hook-bearing type, then insert in that order. */
  lemma {:induction false} CollectIsOrder(hook: HookTest, sub: SubclassTest, objs: seq<Obj>)
    ensures Types(Collect(hook, sub, objs)) == Order(sub, Types(FirstSeen(hook, objs)))
    ensures forall o :: o in Collect(hook, sub, objs) <==> o in FirstSeen(hook, objs)
  {
    if objs != [] {
      var n := |objs| - 1;
      var before, o := objs[..n], objs[n];
      CollectIsOrder(hook, sub, before);
      FirstSeenTypes(hook, before);
      FirstSeenStep(hook, objs);
      var acc, first := Collect(hook, sub, before), FirstSeen(hook, before);
      OrderMembers(sub, Types(first));
      assert IsFirst(hook, objs, n) <==> hook(o.typ) && o.typ !in Types(acc);
      if IsFirst(hook, objs, n) {
        var k := Slot(sub, Types(acc), o.typ);
        InsertTypes(acc, k, o);
        InsertMembers(acc, k, o);
        OrderStep(sub, Types(first), o.typ);
      } else {
        assert first + [] == first;
      }
    }
  }

  lemma OrderStep(sub: SubclassTest, ts: seq<TypeId>, t: TypeId)
    ensures Order(sub, ts + [t]) == InsertAt(Order(sub, ts), Slot(sub, Order(sub, ts), t), t)
  {
    assert (ts + [t])[..|ts|] == ts;
  }

  // ----- precedence -----

  /** No type stands after one of its proper superclasses. */
  predicate DerivedFirst(sub: SubclassTest, ts: seq<TypeId>) {
    forall i, j :: 0 <= i < j < |ts| && Below(sub, ts[j], ts[i]) ==> ts[i] == ts[j]
  }

  lemma InsertDerivedFirst(sub: SubclassTest, acc: seq<TypeId>, t: TypeId)
    requires IsPartialOrder(sub) && DerivedFirst(sub, acc)
    ensures DerivedFirst(sub, InsertAt(acc, Slot(sub, acc, t), t))
  {
    var k := Slot(sub, acc, t);
    var r := InsertAt(acc, k, t);
    forall i, j | 0 <= i < j < |r| && Below(sub, r[j], r[i]) ensures r[i] == r[j] {
      if i == k {
        var y := acc[j - 1];
        assert r[j] == y && Below(sub, t, acc[k]);
        assert Below(sub, y, acc[k]);
        assert j - 1 > k ==> acc[k] == y;
      }
    }
  }

  lemma {:induction false} OrderDerivedFirst(sub: SubclassTest, ts: seq<TypeId>)
    requires IsPartialOrder(sub)
    ensures DerivedFirst(sub, Order(sub, ts))
  {
    if ts != [] {
      var n := |ts| - 1;
      OrderDerivedFirst(sub, ts[..n]);
      InsertDerivedFirst(sub, Order(sub, ts[..n]), ts[n]);
    }
  }

  /** The dispatch order: one argument, the first met, for each hook-bearing type, and
      no type after one of its proper superclasses. */
  lemma DispatchOrder(hook: HookTest, sub: SubclassTest, args: seq<Value>)
    requires IsPartialOrder(sub)
    ensures var objs := AllCandidates(args); var r := Collect(hook, sub, objs);
            && Distinct(Types(r))
            && (forall t :: t in Types(r) <==> hook(t) && t in Types(objs))
            && (forall o :: o in r <==> IsFirstOfType(hook, objs, o))
            && DerivedFirst(sub, Types(r))
  {
    var objs := AllCandidates(args);
    CollectIsOrder(hook, sub, objs);
    FirstSeenTypes(hook, objs);
    var ts := Types(FirstSeen(hook, objs));
    OrderMembers(sub, ts);
    OrderDistinct(sub, ts);
    OrderDerivedFirst(sub, ts);
  }

  // ----- first-seen order of unrelated types -----

  predicate Before(s: seq<TypeId>, a: TypeId, b: TypeId) {
    exists i, j :: 0 <= i < j < |s| && s[i] == a && s[j] == b
  }

  /** Unrelated types come out in the order they were met. */
  predicate KeepsFirstSeen(sub: SubclassTest, ts: seq<TypeId>) {
    forall i, j :: 0 <= i < j < |ts| && Unrelated(sub, ts[i], ts[j]) ==> Before(Order(sub, ts), ts[i], ts[j])
  }

  /** A type is a subclass of one met earlier and unrelated to one met in between,
      which is itself unrelated to that superclass. */
  predicate OvertakesAt(sub: SubclassTest, ts: seq<TypeId>, i: int, j: int, k: int) {
    0 <= i < j < k < |ts|
    && Below(sub, ts[k], ts[i]) && Unrelated(sub, ts[i], ts[j]) && Unrelated(sub, ts[j], ts[k])
  }

  predicate Overtakes(sub: SubclassTest, ts: seq<TypeId>) {
    exists i, j, k :: 0 <= i < j < k < |ts| && OvertakesAt(sub, ts, i, j, k)
  }

  lemma BeforeInsert(s: seq<TypeId>, k: nat, x: TypeId, a: TypeId, b: TypeId)
    requires k <= |s| && Before(s, a, b)
    ensures Before(InsertAt(s, k, x), a, b)
  {
    var i, j :| 0 <= i < j < |s| && s[i] == a && s[j] == b;
    var r := InsertAt(s, k, x);
    var i', j' := if i < k then i else i + 1, if j < k then j else j + 1;
    assert r[i'] == a && r[j'] == b;
  }

  lemma BeforeTotal(s: seq<TypeId>, a: TypeId, b: TypeId)
    requires a in s && b in s && a != b
    ensures Before(s, a, b) || Before(s, b, a)
  {
    var i :| 0 <= i < |s| && s[i] == a;
    var j :| 0 <= j < |s| && s[j] == b;
    assert i < j || j < i;
  }

  lemma BeforeAsymmetric(s: seq<TypeId>, a: TypeId, b: TypeId)
    requires Distinct(s) && Before(s, a, b)
    ensures !Before(s, b, a)
  {
  }

  lemma BeforeTransitive(s: seq<TypeId>, a: TypeId, b: TypeId, c: TypeId)
    requires Distinct(s) && Before(s, a, b) && Before(s, b, c)
    ensures Before(s, a, c)
  {
    var i, j :| 0 <= i < j < |s| && s[i] == a && s[j] == b;
    var j', k :| 0 <= j' < k < |s| && s[j'] == b && s[k] == c;
    assert j == j';
  }

  /** An overtaking type ends before the type it overtakes, or the latter is before
      their common earlier neighbour: either way a first-seen order is lost. */
  lemma OvertakingLoses(sub: SubclassTest, ts: seq<TypeId>, i: int, j: int, k: int)
    requires IsPartialOrder(sub) && Distinct(ts) && OvertakesAt(sub, ts, i, j, k)
    ensures Before(Order(sub, ts), ts[k], ts[j]) || !Before(Order(sub, ts), ts[i], ts[j])
    ensures Distinct(Order(sub, ts))
  {
    var r := Order(sub, ts);
    OrderMembers(sub, ts);
    OrderDistinct(sub, ts);
    OrderDerivedFirst(sub, ts);
    assert ts[i] in r && ts[k] in r && ts[i] != ts[k];
    BeforeTotal(r, ts[k], ts[i]);
    assert Before(r, ts[k], ts[i]);
    if Before(r, ts[i], ts[j]) {
      BeforeTransitive(r, ts[k], ts[i], ts[j]);
    }
  }

  /** If a type overtakes, the order of some unrelated pair is lost. */
  lemma OvertakingBreaks(sub: SubclassTest, ts: seq<TypeId>)
    requires IsPartialOrder(sub) && Distinct(ts) && Overtakes(sub, ts)
    ensures !KeepsFirstSeen(sub, ts)
  {
    var i, j, k :| 0 <= i < j < k < |ts| && OvertakesAt(sub, ts, i, j, k);
    OvertakingLoses(sub, ts, i, j, k);
    if Before(Order(sub, ts), ts[k], ts[j]) {
      BeforeAsymmetric(Order(sub, ts), ts[k], ts[j]);
    }
  }

  /** The new type, wherever it is inserted, stays behind every unrelated type. */
  lemma NewTypeStaysBehind(sub: SubclassTest, ts: seq<TypeId>, j: nat)
    requires IsPartialOrder(sub) && Distinct(ts) && ts != [] && !Overtakes(sub, ts)
    requires KeepsFirstSeen(sub, ts[..|ts| - 1])
    requires j < |ts| - 1 && Unrelated(sub, ts[j], ts[|ts| - 1])
    ensures Before(Order(sub, ts), ts[j], ts[|ts| - 1])
  {
    var m := PlaceOf(sub, ts[..|ts| - 1], j);
    SlotIsLater(sub, ts, j, m);
    InsertedBehind(sub, ts, j, m);
  }

  lemma SlotIsLater(sub: SubclassTest, ts: seq<TypeId>, j: nat, m: nat)
    requires IsPartialOrder(sub) && Distinct(ts) && ts != [] && !Overtakes(sub, ts)
    requires KeepsFirstSeen(sub, ts[..|ts| - 1])
    requires j < |ts| - 1 && Unrelated(sub, ts[j], ts[|ts| - 1])
    requires m < |Order(sub, ts[..|ts| - 1])| && Order(sub, ts[..|ts| - 1])[m] == ts[j]
    ensures m < Slot(sub, Order(sub, ts[..|ts| - 1]), ts[|ts| - 1])
  {
    var k := Slot(sub, Order(sub, ts[..|ts| - 1]), ts[|ts| - 1]);
    if k <= m { JumpedOverMeansOvertaking(sub, ts, j, k, m); }
  }

  lemma InsertedBehind(sub: SubclassTest, ts: seq<TypeId>, j: nat, m: nat)
    requires ts != [] && j < |ts| - 1
    requires m < |Order(sub, ts[..|ts| - 1])| && Order(sub, ts[..|ts| - 1])[m] == ts[j]
    requires m < Slot(sub, Order(sub, ts[..|ts| - 1]), ts[|ts| - 1])
    ensures Before(Order(sub, ts), ts[j], ts[|ts| - 1])
  {
    var acc, x := Order(sub, ts[..|ts| - 1]), ts[|ts| - 1];
    InsertBehind(acc, Slot(sub, acc, x), x, m);
  }

  lemma PlaceOf(sub: SubclassTest, us: seq<TypeId>, j: nat) returns (m: nat)
    requires j < |us|
    ensures m < |Order(sub, us)| && Order(sub, us)[m] == us[j]
  {
    OrderMembers(sub, us);
    assert us[j] in Order(sub, us);
    m :| m < |Order(sub, us)| && Order(sub, us)[m] == us[j];
  }

  lemma InsertBehind(acc: seq<TypeId>, k: nat, x: TypeId, m: nat)
    requires m < k <= |acc|
    ensures Before(InsertAt(acc, k, x), acc[m], x)
  {
    var r := InsertAt(acc, k, x);
    assert r[m] == acc[m] && r[k] == x;
  }

  lemma JumpedOverMeansOvertaking(sub: SubclassTest, ts: seq<TypeId>, j: nat, k: nat, m: nat)
    requires IsPartialOrder(sub) && Distinct(ts) && ts != []
    requires KeepsFirstSeen(sub, ts[..|ts| - 1])
    requires j < |ts| - 1 && Unrelated(sub, ts[j], ts[|ts| - 1])
    requires k == Slot(sub, Order(sub, ts[..|ts| - 1]), ts[|ts| - 1]) && k <= m < |Order(sub, ts[..|ts| - 1])|
    requires Order(sub, ts[..|ts| - 1])[m] == ts[j]
    ensures Overtakes(sub, ts)
  {
    var n := |ts| - 1;
    var us, x := ts[..n], ts[n];
    var acc := Order(sub, us);
    OrderDistinct(sub, us);
    OrderDerivedFirst(sub, us);
    assert Below(sub, x, acc[k]);
    assert k != m;
    JumpedUnrelated(sub, acc, x, k, m);
    var i := MetAt(sub, us, k);
    assert Before(acc, us[i], us[j]);
    MetEarlier(sub, us, i, j);
    assert OvertakesAt(sub, ts, i, j, n);
  }

  /** A type ordered after a supertype of `x` and unrelated to `x` is unrelated to that supertype. */
  lemma JumpedUnrelated(sub: SubclassTest, acc: seq<TypeId>, x: TypeId, k: nat, m: nat)
    requires IsPartialOrder(sub) && DerivedFirst(sub, acc) && Distinct(acc) && k < m < |acc|
    requires Below(sub, x, acc[k]) && Unrelated(sub, acc[m], x)
    ensures Unrelated(sub, acc[k], acc[m])
  {
    assert acc[k] != acc[m];
  }

  lemma MetAt(sub: SubclassTest, us: seq<TypeId>, k: nat) returns (i: nat)
    requires k < |Order(sub, us)|
    ensures i < |us| && us[i] == Order(sub, us)[k]
  {
    OrderMembers(sub, us);
    assert Order(sub, us)[k] in us;
    i :| i < |us| && us[i] == Order(sub, us)[k];
  }

  /** Of two unrelated types, the one ordered first was met first. */
  lemma MetEarlier(sub: SubclassTest, us: seq<TypeId>, i: nat, j: nat)
    requires KeepsFirstSeen(sub, us) && Distinct(Order(sub, us)) && i < |us| && j < |us|
    requires Unrelated(sub, us[i], us[j]) && Before(Order(sub, us), us[i], us[j])
    ensures i < j
  {
    BeforeAsymmetric(Order(sub, us), us[i], us[j]);
  }

  lemma OvertakesGrows(sub: SubclassTest, ts: seq<TypeId>, n: nat)
    requires n <= |ts| && Overtakes(sub, ts[..n])
    ensures Overtakes(sub, ts)
  {
    var us := ts[..n];
    var i, j, k :| 0 <= i < j < k < |us| && OvertakesAt(sub, us, i, j, k);
    assert OvertakesAt(sub, ts, i, j, k);
  }

  lemma {:induction false} WithoutOvertakingOrderIsKept(sub: SubclassTest, ts: seq<TypeId>)
    requires IsPartialOrder(sub) && Distinct(ts) && !Overtakes(sub, ts)
    ensures KeepsFirstSeen(sub, ts)
  {
    if ts != [] {
      var n := |ts| - 1;
      var us := ts[..n];
      if Overtakes(sub, us) { OvertakesGrows(sub, ts, n); }
      WithoutOvertakingOrderIsKept(sub, us);
      forall i, j | 0 <= i < j < |ts| && Unrelated(sub, ts[i], ts[j])
        ensures Before(Order(sub, ts), ts[i], ts[j])
      {
        if j < n {
          assert us[i] == ts[i] && us[j] == ts[j];
          BeforeInsert(Order(sub, us), Slot(sub, Order(sub, us), ts[n]), ts[n], ts[i], ts[j]);
        } else {
          NewTypeStaysBehind(sub, ts, i);
        }
      }
    }
  }

  /** The documented promise that unrelated types keep their first-seen order holds
      exactly when no type overtakes. */
  lemma FirstSeenOrderExactly(sub: SubclassTest, ts: seq<TypeId>)
    requires IsPartialOrder(sub) && Distinct(ts)
    ensures KeepsFirstSeen(sub, ts) <==> !Overtakes(sub, ts)
  {
    if Overtakes(sub, ts) {
      OvertakingBreaks(sub, ts);
    } else {
      WithoutOvertakingOrderIsKept(sub, ts);
    }
  }

  /** A hierarchy of three types, 2 a subclass of 0, 1 unrelated to both. */
  function SmallHierarchy(a: TypeId, b: TypeId): Answer {
    if a == b || (a == 2 && b == 0) then Yes else No
  }

  lemma SmallHierarchyIsPartialOrder()
    ensures IsPartialOrder(SmallHierarchy)
  {
  }

  lemma OrderSnoc(sub: SubclassTest, ts: seq<TypeId>, x: TypeId, k: nat)
    requires k <= |Order(sub, ts)| && Slot(sub, Order(sub, ts), x) == k
    ensures Order(sub, ts + [x]) == InsertAt(Order(sub, ts), k, x)
  {
    assert (ts + [x])[..|ts|] == ts;
  }

  lemma SmallSlots()
    ensures Slot(SmallHierarchy, [], 0) == 0 && Slot(SmallHierarchy, [0], 1) == 1
    ensures Slot(SmallHierarchy, [0, 1], 2) == 0
  {
    SlotUnique(SmallHierarchy, [], 0, 0);
    SlotUnique(SmallHierarchy, [0], 1, 1);
    SlotUnique(SmallHierarchy, [0, 1], 2, 0);
  }

  lemma OrderStepIs(sub: SubclassTest, ts: seq<TypeId>, x: TypeId, all: seq<TypeId>, acc: seq<TypeId>, k: nat,
                    r: seq<TypeId>)
    requires all == ts + [x] && Order(sub, ts) == acc && k <= |acc| && Slot(sub, acc, x) == k
    requires r == acc[..k] + [x] + acc[k..]
    ensures Order(sub, all) == r
  {
    OrderSnoc(sub, ts, x, k);
  }

  lemma SmallOrder()
    ensures Order(SmallHierarchy, [0, 1, 2]) == [2, 0, 1]
  {
    SmallSlots();
    OrderStepIs(SmallHierarchy, [], 0, [0], [], 0, [0]);
    OrderStepIs(SmallHierarchy, [0], 1, [0, 1], [0], 1, [0, 1]);
    OrderStepIs(SmallHierarchy, [0, 1], 2, [0, 1, 2], [0, 1], 0, [2, 0, 1]);
  }

  /** The promise does fail: met in the order 0, 1, 2, type 2 comes out before type 1. */
  lemma FirstSeenOrderFails()
    ensures IsPartialOrder(SmallHierarchy) && Unrelated(SmallHierarchy, 1, 2)
    ensures Order(SmallHierarchy, [0, 1, 2]) == [2, 0, 1]
    ensures !KeepsFirstSeen(SmallHierarchy, [0, 1, 2])
  {
    SmallHierarchyIsPartialOrder();
    SmallOrder();
    var ts: seq<TypeId> := [0, 1, 2];
    assert OvertakesAt(SmallHierarchy, ts, 0, 1, 2);
    OvertakingBreaks(SmallHierarchy, ts);
  }
}
