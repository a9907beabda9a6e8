/**
 Run-length coding of a sequence: change flags, kept positions, run numbers by running
 count, run lengths by counting run numbers, and the round trip.
 */
module Runs {
  import opened AxisSelect
  import opened Totals
  import opened RepeatInterleave

  /** Where a new run begins. */
  function Flags<T(==)>(s: seq<T>): (r: seq<bool>)
    ensures |r| == |s|
    ensures forall i :: 0 <= i < |s| ==> r[i] == (i == 0 || s[i] != s[i - 1])
  {
    seq(|s|, i requires 0 <= i < |s| => i == 0 || s[i] != s[i - 1])
  }

  /** Positions of the set flags, in order. */
  function Kept(flags: seq<bool>): (r: seq<nat>)
    ensures forall j :: 0 <= j < |r| ==> r[j] < |flags| && flags[r[j]]
  {
    if flags == [] then []
    else
      var n := |flags| - 1;
      Kept(flags[..n]) + (if flags[n] then [n] else [])
  }

  /** The running count of set flags, less one. */
  function RunNumbers(flags: seq<bool>): (r: seq<int>)
    ensures |r| == |flags|
  {
    seq(|flags|, i requires 0 <= i < |flags| => |Kept(flags[..i + 1])| - 1)
  }

  /** The entries whose flag is set, in order. */
  function Masked<T>(s: seq<T>, flags: seq<bool>): (r: seq<T>)
    requires |s| == |flags|
  {
    if s == [] then []
    else
      var n := |s| - 1;
      Masked(s[..n], flags[..n]) + (if flags[n] then [s[n]] else [])
  }

  /** Ones added at each listed place of `m` zeros. */
  function Tally(m: nat, places: seq<nat>): (r: seq<nat>)
    requires AllBelow(places, m)
    ensures |r| == m
  {
    if places == [] then seq(m, _ => 0)
    else
      var n := |places| - 1;
      var t := Tally(m, places[..n]);
      t[places[n] := t[places[n]] + 1]
  }

  // ----- flags that start a run at the first position -----

  predicate Starts(flags: seq<bool>) {
    flags != [] ==> flags[0]
  }

  lemma StartsPrefix(flags: seq<bool>, n: nat)
    requires Starts(flags) && n <= |flags|
    ensures Starts(flags[..n]) && (n > 0 ==> Kept(flags[..n]) != [])
  {
    if n > 0 { KeepsFirst(flags[..n]); }
  }

  lemma {:induction false} KeepsFirst(flags: seq<bool>)
    requires flags != [] && flags[0]
    ensures Kept(flags) != []
  {
    if |flags| > 1 { KeepsFirst(flags[..|flags| - 1]); }
  }

  function NumberAt(flags: seq<bool>, i: nat): (r: nat)
    requires Starts(flags) && i < |flags|
    ensures r == |Kept(flags[..i + 1])| - 1
  {
    StartsPrefix(flags, i + 1);
    |Kept(flags[..i + 1])| - 1
  }

  /** Run numbers as places. */
  function Numbers(flags: seq<bool>): (r: seq<nat>)
    requires Starts(flags)
    ensures |r| == |flags| && r == RunNumbers(flags)
    ensures forall i :: 0 <= i < |flags| ==> r[i] == NumberAt(flags, i)
  {
    seq(|flags|, i requires 0 <= i < |flags| => NumberAt(flags, i))
  }

  lemma NumberEarlier(flags: seq<bool>, n: nat, i: nat)
    requires Starts(flags) && i < n <= |flags|
    ensures Starts(flags[..n]) && NumberAt(flags[..n], i) == NumberAt(flags, i)
  {
    assert flags[..n][..i + 1] == flags[..i + 1];
  }

  lemma NumbersStep(flags: seq<bool>, before: seq<bool>)
    requires Starts(flags) && flags != [] && before == flags[..|flags| - 1]
    ensures Starts(before) && Kept(flags) != []
    ensures Numbers(flags) == Numbers(before) + [|Kept(flags)| - 1]
  {
    KeepsFirst(flags);
    var n := |flags| - 1;
    assert flags[..n + 1] == flags;
    forall i | 0 <= i < n ensures Numbers(flags)[i] == Numbers(before)[i] {
      NumberEarlier(flags, n, i);
    }
    assert Numbers(flags)[n] == |Kept(flags)| - 1;
  }

  lemma {:induction false} NumbersBelow(flags: seq<bool>)
    requires Starts(flags)
    ensures AllBelow(Numbers(flags), |Kept(flags)|)
  {
    if flags != [] {
      NumbersStep(flags, flags[..|flags| - 1]);
      NumbersBelow(flags[..|flags| - 1]);
    }
  }

  /** Run lengths. */
  function Lengths(flags: seq<bool>): (r: seq<nat>)
    requires Starts(flags)
    ensures |r| == |Kept(flags)|
  {
    NumbersBelow(flags);
    Tally(|Kept(flags)|, Numbers(flags))
  }

  lemma {:induction false} TallyWiden(m: nat, places: seq<nat>)
    requires AllBelow(places, m)
    ensures Tally(m + 1, places) == Tally(m, places) + [0]
  {
    if places == [] {
      assert Tally(m + 1, []) == Tally(m, []) + [0];
    } else {
      TallyWiden(m, places[..|places| - 1]);
    }
  }

  lemma TallySnoc(m: nat, w: seq<nat>, k: nat)
    requires AllBelow(w, m) && k < m
    ensures AllBelow(w + [k], m) && Tally(m, w + [k]) == Tally(m, w)[k := Tally(m, w)[k] + 1]
  {
    assert (w + [k])[..|w|] == w;
  }

  lemma TallyNew(m: nat, w: seq<nat>)
    requires AllBelow(w, m)
    ensures AllBelow(w + [m], m + 1) && Tally(m + 1, w + [m]) == Tally(m, w) + [1]
  {
    TallySnoc(m + 1, w, m);
    TallyWiden(m, w);
  }

  lemma LengthsStep(flags: seq<bool>, before: seq<bool>)
    requires Starts(flags) && flags != [] && before == flags[..|flags| - 1]
    ensures Starts(before)
    ensures flags[|flags| - 1] ==> Lengths(flags) == Lengths(before) + [1]
    ensures !flags[|flags| - 1] ==> Lengths(before) != [] && Lengths(flags) == LastGrown(Lengths(before))
  {
    if flags[|flags| - 1] { LengthsNew(flags, before); } else { LengthsLonger(flags, before); }
  }

  lemma LengthsNew(flags: seq<bool>, before: seq<bool>)
    requires Starts(flags) && flags != [] && before == flags[..|flags| - 1] && flags[|flags| - 1]
    ensures Starts(before) && Lengths(flags) == Lengths(before) + [1]
  {
    NumbersStep(flags, before);
    NumbersBelow(before);
    NumbersBelow(flags);
    var m, w := |Kept(before)|, Numbers(before);
    TallyNew(m, w);
    TallySame(|Kept(flags)|, m + 1, Numbers(flags), w + [m]);
  }

  lemma LengthsLonger(flags: seq<bool>, before: seq<bool>)
    requires Starts(flags) && flags != [] && before == flags[..|flags| - 1] && !flags[|flags| - 1]
    ensures Starts(before) && Lengths(before) != [] && Lengths(flags) == LastGrown(Lengths(before))
  {
    NumbersStep(flags, before);
    NumbersBelow(before);
    NumbersBelow(flags);
    KeepsFirst(before);
    var m, w := |Kept(before)|, Numbers(before);
    TallySnoc(m, w, m - 1);
    TallySame(|Kept(flags)|, m, Numbers(flags), w + [m - 1]);
  }

  lemma TallySame(m: nat, n: nat, u: seq<nat>, w: seq<nat>)
    requires m == n && u == w && AllBelow(u, m)
    ensures Tally(m, u) == Tally(n, w)
  {
  }

  /** The last count raised by one. */
  function LastGrown(c: seq<nat>): (r: seq<nat>)
    requires c != []
    ensures |r| == |c|
  {
    c[|c| - 1 := c[|c| - 1] + 1]
  }

  lemma OwnersSnoc(c: seq<nat>, k: nat)
    ensures Owners(c + [k]) == Owners(c) + Same(k, |c|)
  {
    assert (c + [k])[..|c|] == c;
  }

  lemma OwnersNew(c: seq<nat>)
    ensures Owners(c + [1]) == Owners(c) + [|c|]
  {
    OwnersSnoc(c, 1);
    assert Same(1, |c|) == [|c|];
  }

  lemma SameGrow(k: nat, v: nat)
    ensures Same(k + 1, v) == Same(k, v) + [v]
  {
  }

  lemma OwnersMore(d: seq<nat>, k: nat)
    ensures Owners(d + [k + 1]) == Owners(d + [k]) + [|d|]
  {
    OwnersSnoc(d, k);
    OwnersSnoc(d, k + 1);
    SameGrow(k, |d|);
    Regrouped(Owners(d), Same(k, |d|), [|d|]);
  }

  lemma LastGrownParts(c: seq<nat>) returns (d: seq<nat>, k: nat)
    requires c != []
    ensures c == d + [k] && LastGrown(c) == d + [k + 1] && |d| == |c| - 1
  {
    d, k := c[..|c| - 1], c[|c| - 1];
  }

  lemma OwnersGrow(c: seq<nat>)
    requires c != []
    ensures Owners(LastGrown(c)) == Owners(c) + [|c| - 1]
  {
    var d, k := LastGrownParts(c);
    OwnersLonger(c, LastGrown(c), d, k);
  }

  lemma OwnersLonger(c: seq<nat>, g: seq<nat>, d: seq<nat>, k: nat)
    requires c == d + [k] && g == d + [k + 1]
    ensures Owners(g) == Owners(c) + [|d|]
  {
    OwnersMore(d, k);
  }

  /** Repeating run numbers by run lengths spells the run numbers again. */
  lemma {:induction false} LengthsOwn(flags: seq<bool>)
    requires Starts(flags)
    ensures Owners(Lengths(flags)) == Numbers(flags)
  {
    if flags != [] {
      var before := flags[..|flags| - 1];
      LengthsStep(flags, before);
      NumbersStep(flags, before);
      LengthsOwn(before);
      OwnersNext(flags[|flags| - 1], Lengths(before), Lengths(flags));
      SnocSame(Owners(Lengths(flags)), Numbers(flags), Owners(Lengths(before)), Numbers(before), |Kept(flags)| - 1);
    }
  }

  lemma SnocSame(u: seq<nat>, v: seq<nat>, a: seq<nat>, b: seq<nat>, x: nat)
    requires a == b && u == a + [x] && v == b + [x]
    ensures u == v
  {
  }

  /** One more position: a new run, or the last one longer. */
  lemma OwnersNext(starts: bool, c: seq<nat>, d: seq<nat>)
    requires starts ==> d == c + [1]
    requires !starts ==> c != [] && d == LastGrown(c)
    ensures d != [] && Owners(d) == Owners(c) + [|d| - 1]
  {
    if starts { OwnersNew(c); } else { OwnersGrow(c); }
  }

  /** Run lengths are positive and add up to the length. */
  lemma LengthsCover(flags: seq<bool>)
    requires Starts(flags)
    ensures Total(Lengths(flags)) == |flags|
    ensures forall j :: 0 <= j < |Lengths(flags)| ==> Lengths(flags)[j] > 0
  {
    LengthsOwn(flags);
    LengthsPositive(flags);
  }

  lemma {:induction false} LengthsPositive(flags: seq<bool>)
    requires Starts(flags)
    ensures forall j :: 0 <= j < |Lengths(flags)| ==> Lengths(flags)[j] > 0
  {
    if flags != [] {
      LengthsStep(flags, flags[..|flags| - 1]);
      LengthsPositive(flags[..|flags| - 1]);
    }
  }

  /** The last run number, plus one, is the number of runs. */
  lemma LastNumber(flags: seq<bool>)
    requires Starts(flags) && flags != []
    ensures RunNumbers(flags)[|flags| - 1] + 1 == |Kept(flags)|
  {
    NumbersStep(flags, flags[..|flags| - 1]);
  }

  // ----- the coded sequence -----

  lemma FlagsPrefix<T>(s: seq<T>, n: nat)
    requires n <= |s|
    ensures Flags(s)[..n] == Flags(s[..n])
  {
  }

  /** The kept position of the run that position `i` belongs to. */
  function RunStart(flags: seq<bool>, i: nat): (k: nat)
    requires Starts(flags) && i < |flags|
    ensures k < |flags|
  {
    NumbersBelow(flags);
    Kept(flags)[Numbers(flags)[i]]
  }

  lemma RunStartEarlier(flags: seq<bool>, n: nat, i: nat)
    requires Starts(flags) && n == |flags| - 1 && i < n
    ensures Starts(flags[..n]) && RunStart(flags, i) == RunStart(flags[..n], i)
  {
    NumberEarlier(flags, n, i);
    NumbersBelow(flags[..n]);
  }

  lemma RunStartLast(flags: seq<bool>, n: nat)
    requires Starts(flags) && n == |flags| - 1
    ensures Kept(flags) != [] && RunStart(flags, n) == Kept(flags)[|Kept(flags)| - 1]
  {
    NumbersStep(flags, flags[..n]);
  }

  /** A set flag starts its own run, a clear one continues the run before it. */
  lemma RunStartStep(flags: seq<bool>, n: nat)
    requires Starts(flags) && n == |flags| - 1
    ensures flags[n] ==> RunStart(flags, n) == n
    ensures !flags[n] ==> n > 0 && Starts(flags[..n]) && RunStart(flags, n) == RunStart(flags[..n], n - 1)
  {
    RunStartLast(flags, n);
    if !flags[n] { RunStartLast(flags[..n], n - 1); }
  }

  /** An entry equals the kept entry of its run. */
  lemma {:induction false} RunHolds<T>(s: seq<T>, i: nat)
    requires i < |s|
    ensures Holds(s, i)
    decreases |s|
  {
    var n := |s| - 1;
    if i < n {
      RunHolds(s[..n], i);
      EarlierHolds(s, n, i);
    } else {
      if n > 0 { RunHolds(s[..n], n - 1); }
      LastHolds(s, n);
    }
  }

  ghost predicate Holds<T>(s: seq<T>, i: nat)
    requires i < |s|
  {
    s[RunStart(Flags(s), i)] == s[i]
  }

  lemma EarlierHolds<T>(s: seq<T>, n: nat, i: nat)
    requires n == |s| - 1 && i < n && Holds(s[..n], i)
    ensures Holds(s, i)
  {
    FlagsPrefix(s, n);
    RunStartEarlier(Flags(s), n, i);
  }

  lemma LastHolds<T>(s: seq<T>, n: nat)
    requires n == |s| - 1 && (n > 0 ==> Holds(s[..n], n - 1))
    ensures Holds(s, n)
  {
    FlagsPrefix(s, n);
    RunStartStep(Flags(s), n);
  }

  /** Neighbouring kept entries differ. */
  lemma {:induction false} KeptDiffer<T>(s: seq<T>, j: nat)
    requires j + 1 < |Kept(Flags(s))|
    ensures s[Kept(Flags(s))[j]] != s[Kept(Flags(s))[j + 1]]
    decreases |s|
  {
    var n := |s| - 1;
    FlagsPrefix(s, n);
    if j + 1 < |Kept(Flags(s)[..n])| {
      KeptDiffer(s[..n], j);
    } else {
      LastKeptHolds(s[..n]);
    }
  }

  lemma LastKeptHolds<T>(s: seq<T>)
    requires s != []
    ensures Kept(Flags(s)) != [] && s[Kept(Flags(s))[|Kept(Flags(s))| - 1]] == s[|s| - 1]
  {
    RunHolds(s, |s| - 1);
    RunStartLast(Flags(s), |s| - 1);
  }

  /** Masking keeps what the kept positions name. */
  lemma {:induction false} MaskedIsKept<T>(s: seq<T>, flags: seq<bool>)
    requires |s| == |flags|
    ensures |Masked(s, flags)| == |Kept(flags)|
    ensures forall j :: 0 <= j < |Kept(flags)| ==> Masked(s, flags)[j] == s[Kept(flags)[j]]
  {
    if s != [] { MaskedIsKept(s[..|s| - 1], flags[..|s| - 1]); }
  }
}
