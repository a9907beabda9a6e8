/** The broadcast shape of any number of shapes. */
module BroadcastShapes {
  import opened Axes

  type Sizes = seq<int>

  datatype Result = Ok(shape: Sizes) | NegativeSize | Mismatch

  // ----- the right-aligned specification -----

  /** The size `j` axes from the right; an absent axis counts as 1. */
  function Dim(s: Sizes, j: nat): (d: int) {
    if j < |s| then s[|s| - 1 - j] else 1
  }

  predicate HasNegative(shapes: seq<Sizes>) {
    exists s :: s in shapes && !AllNonNegative(s)
  }

  predicate Clash(s: Sizes, t: Sizes, j: nat) {
    Dim(s, j) != 1 && Dim(t, j) != 1 && Dim(s, j) != Dim(t, j)
  }

  /** Some column holds two distinct sizes other than 1. */
  ghost predicate HasClash(shapes: seq<Sizes>) {
    exists s, t, j: nat :: s in shapes && t in shapes && Clash(s, t, j)
  }

  /** `d` is the common size of column `j`. */
  predicate IsColumnSize(d: int, shapes: seq<Sizes>, j: nat) {
    && (forall s :: s in shapes ==> Dim(s, j) == 1 || Dim(s, j) == d)
    && (d == 1 || exists s :: s in shapes && Dim(s, j) == d)
  }

  predicate IsRank(n: nat, shapes: seq<Sizes>) {
    && (forall s :: s in shapes ==> |s| <= n)
    && (n == 0 || exists s :: s in shapes && |s| == n)
  }

  /** `r` is as long as the longest shape and gives every column its common size. */
  ghost predicate IsBroadcast(r: Sizes, shapes: seq<Sizes>) {
    IsRank(|r|, shapes) && forall j: nat :: IsColumnSize(Dim(r, j), shapes, j)
  }

  // ----- the in-place fold -----

  /** Merge one shape into the result so far, axis by axis. */
  method MergeInto(acc: Sizes, sh: Sizes) returns (ok: bool, result: Sizes)
    requires |sh| <= |acc|
    ensures ok <==> forall j: nat :: !Clash(acc, sh, j)
    ensures ok ==> |result| == |acc|
                   && forall j: nat :: Dim(result, j) == if Dim(sh, j) == 1 then Dim(acc, j) else Dim(sh, j)
  {
    result := acc;
    var offset := |acc| - |sh|;
    for i := 0 to |sh|
      invariant |result| == |acc|
      invariant forall k :: 0 <= k < |acc| ==>
                  result[k] == if offset <= k < offset + i && sh[k - offset] != 1 then sh[k - offset] else acc[k]
      invariant forall k :: 0 <= k < i ==> sh[k] == 1 || acc[offset + k] == 1 || sh[k] == acc[offset + k]
    {
      var d, r := sh[i], result[offset + i];
      if d == 1 {
        continue;
      }
      if r == 1 {
        result := result[offset + i := d];
      } else if d != r {
        assert Clash(acc, sh, |sh| - 1 - i);
        return false, result;
      }
    }
    ok := true;
    forall j: nat ensures !Clash(acc, sh, j) {
      if j < |sh| { assert Dim(sh, j) == sh[|sh| - 1 - j]; }
    }
  }

  /** Prefixing 1s changes no column. */
  lemma PadDim(acc: Sizes, n: nat)
    ensures forall j: nat :: Dim(seq(n, _ => 1) + acc, j) == Dim(acc, j)
  {
  }

  /** A shape with a negative size comes before any clash. */
  ghost predicate NegativeFirst(shapes: seq<Sizes>) {
    exists n :: 0 <= n < |shapes| && !AllNonNegative(shapes[n]) && !HasNegative(shapes[..n]) && !HasClash(shapes[..n])
  }

  lemma ClashFirst(shapes: seq<Sizes>, n: nat)
    requires n < |shapes| && !HasNegative(shapes[..n + 1]) && HasClash(shapes[..n + 1])
    ensures HasClash(shapes) && !NegativeFirst(shapes)
  {
    ClashGrows(shapes[..n + 1], shapes);
    forall m | 0 <= m < |shapes| && !AllNonNegative(shapes[m]) ensures HasClash(shapes[..m]) {
      assert forall i :: 0 <= i <= n ==> shapes[..n + 1][i] == shapes[..m][i];
      ClashGrows(shapes[..n + 1], shapes[..m]);
    }
  }

  method BroadcastShapes(shapes: seq<Sizes>) returns (r: Result)
    ensures r.Ok? <==> !HasNegative(shapes) && !HasClash(shapes)
    ensures r.NegativeSize? <==> NegativeFirst(shapes)
    ensures r.Ok? ==> IsBroadcast(r.shape, shapes)
  {
    var result: Sizes := [];
    for n := 0 to |shapes|
      invariant IsBroadcast(result, shapes[..n])
      invariant !HasNegative(shapes[..n]) && !HasClash(shapes[..n])
    {
      var sh := shapes[n];
      var k := 0;
      while k < |sh|
        invariant 0 <= k <= |sh| && forall i :: 0 <= i < k ==> sh[i] >= 0
      {
        if sh[k] < 0 {
          assert sh in shapes;
          return NegativeSize;
        }
        k := k + 1;
      }
      ghost var before := result;
      if |sh| > |result| {
        PadDim(result, |sh| - |result|);
        result := seq(|sh| - |result|, _ => 1) + result;
      }
      ghost var padded := result;
      var ok, merged := MergeInto(result, sh);
      assert shapes[..n + 1] == shapes[..n] + [sh];
      if !ok {
        ghost var j: nat :| Clash(padded, sh, j);
        assert Clash(before, sh, j);
        ClashFound(before, shapes[..n], sh, j);
        assert !HasNegative(shapes[..n + 1]);
        ClashFirst(shapes, n);
        return Mismatch;
      }
      forall j: nat ensures !Clash(before, sh, j) {
        assert !Clash(padded, sh, j);
      }
      MergeStep(before, shapes[..n], sh, merged);
      result := merged;
    }
    assert shapes[..|shapes|] == shapes;
    r := Ok(result);
  }

  lemma ClashGrows(a: seq<Sizes>, b: seq<Sizes>)
    requires HasClash(a) && forall s :: s in a ==> s in b
    ensures HasClash(b)
  {
    var s, t, j: nat :| s in a && t in a && Clash(s, t, j);
    assert s in b && t in b && Clash(s, t, j);
  }

  lemma ClashFound(acc: Sizes, shapes: seq<Sizes>, sh: Sizes, j: nat)
    requires IsBroadcast(acc, shapes) && Clash(acc, sh, j)
    ensures HasClash(shapes + [sh])
  {
    assert IsColumnSize(Dim(acc, j), shapes, j);
    var s :| s in shapes && Dim(s, j) == Dim(acc, j);
    var all := shapes + [sh];
    assert s in all && sh in all && Clash(s, sh, j);
  }

  /** Adding one shape without a clash keeps the specification. */
  lemma MergeStep(acc: Sizes, shapes: seq<Sizes>, sh: Sizes, r: Sizes)
    requires IsBroadcast(acc, shapes) && !HasClash(shapes) && !HasNegative(shapes) && AllNonNegative(sh)
    requires forall j: nat :: !Clash(acc, sh, j)
    requires |r| == if |sh| > |acc| then |sh| else |acc|
    requires forall j: nat :: Dim(r, j) == if Dim(sh, j) == 1 then Dim(acc, j) else Dim(sh, j)
    ensures IsBroadcast(r, shapes + [sh])
    ensures !HasClash(shapes + [sh]) && !HasNegative(shapes + [sh])
  {
    var all := shapes + [sh];
    assert sh in all && forall s :: s in all <==> s in shapes || s == sh;
    forall j: nat ensures IsColumnSize(Dim(r, j), all, j) {
      MergeColumn(acc, shapes, sh, r, j);
    }
    forall s, t, j: nat | s in all && t in all ensures !Clash(s, t, j) {
      assert IsColumnSize(Dim(r, j), all, j);
    }
    assert IsRank(|r|, all) by {
      if |sh| <= |acc| && |acc| != 0 {
        var s :| s in shapes && |s| == |acc|;
        assert s in all;
      }
    }
  }

  lemma MergeColumn(acc: Sizes, shapes: seq<Sizes>, sh: Sizes, r: Sizes, j: nat)
    requires IsColumnSize(Dim(acc, j), shapes, j) && !Clash(acc, sh, j)
    requires Dim(r, j) == if Dim(sh, j) == 1 then Dim(acc, j) else Dim(sh, j)
    ensures IsColumnSize(Dim(r, j), shapes + [sh], j)
  {
    var all := shapes + [sh];
    assert sh in all && forall s :: s in all <==> s in shapes || s == sh;
    if Dim(acc, j) != 1 {
      var s :| s in shapes && Dim(s, j) == Dim(acc, j);
      assert s in all;
    }
  }

  // ----- order and grouping -----

  lemma RankUnique(m: nat, n: nat, shapes: seq<Sizes>, others: seq<Sizes>)
    requires IsRank(m, shapes) && IsRank(n, others) && forall s :: s in shapes <==> s in others
    ensures m == n
  {
  }

  lemma ColumnUnique(c: int, d: int, shapes: seq<Sizes>, others: seq<Sizes>, j: nat)
    requires IsColumnSize(c, shapes, j) && IsColumnSize(d, others, j)
    requires forall s :: s in shapes <==> s in others
    ensures c == d
  {
  }

  lemma SameDims(r: Sizes, q: Sizes)
    requires |r| == |q| && forall j: nat :: Dim(r, j) == Dim(q, j)
    ensures r == q
  {
    forall i | 0 <= i < |r| ensures r[i] == q[i] {
      var j: nat := |r| - 1 - i;
      assert Dim(r, j) == Dim(q, j);
    }
  }

  /** The broadcast shape depends only on which shapes are given, not on their order or
      how often each is repeated. */
  lemma OrderIsImmaterial(shapes: seq<Sizes>, others: seq<Sizes>, r: Sizes, q: Sizes)
    requires IsBroadcast(r, shapes) && IsBroadcast(q, others)
    requires forall s :: s in shapes <==> s in others
    ensures r == q
  {
    RankUnique(|r|, |q|, shapes, others);
    forall j: nat ensures Dim(r, j) == Dim(q, j) {
      assert IsColumnSize(Dim(r, j), shapes, j) && IsColumnSize(Dim(q, j), others, j);
      ColumnUnique(Dim(r, j), Dim(q, j), shapes, others, j);
    }
    SameDims(r, q);
  }

  /** The members of a list of shapes with a group of them replaced by its broadcast shape. */
  lemma GroupedColumn(group: seq<Sizes>, m: Sizes, rest: seq<Sizes>, d: int, j: nat)
    requires IsColumnSize(Dim(m, j), group, j)
    ensures IsColumnSize(d, [m] + rest, j) <==> IsColumnSize(d, group + rest, j)
  {
    var a, b := [m] + rest, group + rest;
    assert forall s :: s in a <==> s == m || s in rest;
    assert forall s :: s in b <==> s in group || s in rest;
    assert m in a;
    if Dim(m, j) != 1 {
      var s :| s in group && Dim(s, j) == Dim(m, j);
      assert s in b;
    }
  }

  lemma GroupedRank(group: seq<Sizes>, m: Sizes, rest: seq<Sizes>, n: nat)
    requires IsRank(|m|, group)
    ensures IsRank(n, [m] + rest) <==> IsRank(n, group + rest)
  {
    var a, b := [m] + rest, group + rest;
    assert forall s :: s in a <==> s == m || s in rest;
    assert forall s :: s in b <==> s in group || s in rest;
    assert m in a;
    if |m| != 0 {
      var s :| s in group && |s| == |m|;
      assert s in b;
    }
  }

  /** A size other than 1 in a column of the group is that of its broadcast shape. */
  lemma GroupedDim(group: seq<Sizes>, m: Sizes, s: Sizes, j: nat)
    requires IsBroadcast(m, group) && s in group
    ensures Dim(s, j) == 1 || Dim(s, j) == Dim(m, j)
  {
    assert IsColumnSize(Dim(m, j), group, j);
  }

  lemma GroupMember(group: seq<Sizes>, m: Sizes, j: nat) returns (s: Sizes)
    requires IsBroadcast(m, group) && Dim(m, j) != 1
    ensures s in group && Dim(s, j) == Dim(m, j)
  {
    assert IsColumnSize(Dim(m, j), group, j);
    s :| s in group && Dim(s, j) == Dim(m, j);
  }

  lemma GroupedClash(group: seq<Sizes>, m: Sizes, rest: seq<Sizes>)
    requires IsBroadcast(m, group)
    ensures HasClash([m] + rest) <==> HasClash(group + rest)
  {
    var a, b := [m] + rest, group + rest;
    if HasClash(a) {
      var s, t, j: nat :| s in a && t in a && Clash(s, t, j);
      var s', t' := s, t;
      if s == m { s' := GroupMember(group, m, j); }
      if t == m { t' := GroupMember(group, m, j); }
      assert s' in b && t' in b && Clash(s', t', j);
    }
    if HasClash(b) {
      var s, t, j: nat :| s in b && t in b && Clash(s, t, j);
      var s', t' := s, t;
      if s in group { GroupedDim(group, m, s, j); s' := m; }
      if t in group { GroupedDim(group, m, t, j); t' := m; }
      assert m in a && s' in a && t' in a && Clash(s', t', j);
    }
  }

  lemma NegativeDim(s: Sizes)
    ensures !AllNonNegative(s) <==> exists j: nat :: Dim(s, j) < 0
  {
    if i :| 0 <= i < |s| && s[i] < 0 {
      assert Dim(s, |s| - 1 - i) < 0;
    }
  }

  lemma GroupedNegative(group: seq<Sizes>, m: Sizes, rest: seq<Sizes>)
    requires IsBroadcast(m, group)
    ensures HasNegative([m] + rest) <==> HasNegative(group + rest)
  {
    var a, b := [m] + rest, group + rest;
    NegativeDim(m);
    if HasNegative(a) {
      var s :| s in a && !AllNonNegative(s);
      if s == m {
        var j: nat :| Dim(m, j) < 0;
        s := GroupMember(group, m, j);
        NegativeDim(s);
      }
      assert s in b;
    }
    if HasNegative(b) {
      var s :| s in b && !AllNonNegative(s);
      if s in group {
        NegativeDim(s);
        var j: nat :| Dim(s, j) < 0;
        GroupedDim(group, m, s, j);
        s := m;
      }
      assert m in a && s in a;
    }
  }

  /** Broadcasting a group first and its result with the rest fails exactly when broadcasting all
      of them at once does, and gives the same shape. */
  lemma GroupingIsImmaterial(group: seq<Sizes>, m: Sizes, rest: seq<Sizes>, r: Sizes)
    requires IsBroadcast(m, group)
    ensures IsBroadcast(r, [m] + rest) <==> IsBroadcast(r, group + rest)
    ensures HasNegative([m] + rest) || HasClash([m] + rest) <==> HasNegative(group + rest) || HasClash(group + rest)
  {
    GroupedClash(group, m, rest);
    GroupedNegative(group, m, rest);
    GroupedRank(group, m, rest, |r|);
    forall j: nat
      ensures IsColumnSize(Dim(r, j), [m] + rest, j) <==> IsColumnSize(Dim(r, j), group + rest, j)
    {
      assert IsColumnSize(Dim(m, j), group, j);
      GroupedColumn(group, m, rest, Dim(r, j), j);
    }
  }
}
