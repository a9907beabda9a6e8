/** The median of real numbers: half of them are not above it, and it scales. */
module Medians {
  import opened Sums

  function Insert(x: real, s: seq<real>): (r: seq<real>)
    ensures |r| == |s| + 1
  {
    if s == [] || x <= s[0] then [x] + s else [s[0]] + Insert(x, s[1..])
  }

  function Sort(s: seq<real>): (r: seq<real>)
    ensures |r| == |s|
  {
    if s == [] then [] else Insert(s[0], Sort(s[1..]))
  }

  /** The middle value, or the mean of the two middle values. */
  function Median(s: seq<real>): (m: real)
    requires s != []
  {
    var t, h := Sort(s), |s| / 2;
    if |s| % 2 == 1 then t[h] else (t[h - 1] + t[h]) / 2.0
  }

  predicate Ascending(s: seq<real>) {
    forall i, j :: 0 <= i < j < |s| ==> s[i] <= s[j]
  }

  /** How many entries lie above `x`. */
  function CountAbove(s: seq<real>, x: real): (k: nat)
    ensures k <= |s|
  {
    if s == [] then 0 else (if s[0] > x then 1 else 0) + CountAbove(s[1..], x)
  }

  lemma {:induction false} InsertAscending(x: real, s: seq<real>)
    requires Ascending(s)
    ensures Ascending(Insert(x, s))
    ensures forall i :: 0 <= i <= |s| ==> Insert(x, s)[i] >= if s == [] || x <= s[0] then x else s[0]
  {
    if s != [] && x > s[0] { InsertAscending(x, s[1..]); }
  }

  lemma {:induction false} SortAscending(s: seq<real>)
    ensures Ascending(Sort(s))
  {
    if s != [] {
      SortAscending(s[1..]);
      InsertAscending(s[0], Sort(s[1..]));
    }
  }

  lemma CountCons(y: real, s: seq<real>, x: real)
    ensures CountAbove([y] + s, x) == (if y > x then 1 else 0) + CountAbove(s, x)
  {
    assert ([y] + s)[1..] == s;
  }

  lemma {:induction false} InsertCount(y: real, s: seq<real>, x: real)
    ensures CountAbove(Insert(y, s), x) == (if y > x then 1 else 0) + CountAbove(s, x)
  {
    if s == [] || y <= s[0] {
      CountCons(y, s, x);
    } else {
      InsertCount(y, s[1..], x);
      CountCons(s[0], Insert(y, s[1..]), x);
    }
  }

  lemma {:induction false} SortCount(s: seq<real>, x: real)
    ensures CountAbove(Sort(s), x) == CountAbove(s, x)
  {
    if s != [] {
      SortCount(s[1..], x);
      InsertCount(s[0], Sort(s[1..]), x);
    }
  }

  lemma {:induction false} CountTail(t: seq<real>, k: nat, x: real)
    requires Ascending(t) && k <= |t| && (k > 0 ==> t[k - 1] <= x)
    ensures CountAbove(t, x) <= |t| - k
  {
    if k > 0 {
      assert t[0] <= t[k - 1];
      CountTail(t[1..], k - 1, x);
    }
  }

  /** At most half of the entries lie above the median. */
  lemma AtMostHalfAbove(s: seq<real>)
    requires s != []
    ensures CountAbove(s, Median(s)) <= |s| / 2
  {
    var t, h := Sort(s), |s| / 2;
    SortAscending(s);
    SortCount(s, Median(s));
    if |s| % 2 == 1 {
      CountTail(t, h + 1, Median(s));
    } else {
      assert t[h - 1] <= t[h];
      CountTail(t, h, Median(s));
    }
  }

  // ----- the middle by rank -----

  /** How many entries lie below `x`. */
  function CountBelow(s: seq<real>, x: real): (k: nat)
    ensures k <= |s|
  {
    if s == [] then 0 else (if s[0] < x then 1 else 0) + CountBelow(s[1..], x)
  }

  /** `x` is an entry that can stand at position `k` when the entries are put in order. */
  predicate HasRank(s: seq<real>, x: real, k: int) {
    x in s && CountBelow(s, x) <= k < |s| - CountAbove(s, x)
  }

  /** At most one number has a given rank. */
  lemma RankUnique(s: seq<real>, x: real, y: real, k: int)
    requires HasRank(s, x, k) && HasRank(s, y, k)
    ensures x == y
  {
    if x < y { BelowOrAbove(s, x, y); }
    if y < x { BelowOrAbove(s, y, x); }
  }

  lemma {:induction false} BelowOrAbove(s: seq<real>, x: real, y: real)
    requires x < y
    ensures CountAbove(s, x) + CountBelow(s, y) >= |s|
  {
    if s != [] { BelowOrAbove(s[1..], x, y); }
  }

  lemma BelowCons(y: real, s: seq<real>, x: real)
    ensures CountBelow([y] + s, x) == (if y < x then 1 else 0) + CountBelow(s, x)
  {
    assert ([y] + s)[1..] == s;
  }

  lemma {:induction false} InsertBelow(y: real, s: seq<real>, x: real)
    ensures CountBelow(Insert(y, s), x) == (if y < x then 1 else 0) + CountBelow(s, x)
    ensures x in Insert(y, s) <==> x == y || x in s
  {
    if s == [] || y <= s[0] {
      BelowCons(y, s, x);
    } else {
      InsertBelow(y, s[1..], x);
      BelowCons(s[0], Insert(y, s[1..]), x);
      assert x in s <==> x == s[0] || x in s[1..];
    }
  }

  lemma {:induction false} SortBelow(s: seq<real>, x: real)
    ensures CountBelow(Sort(s), x) == CountBelow(s, x)
    ensures x in Sort(s) <==> x in s
  {
    if s != [] {
      SortBelow(s[1..], x);
      InsertBelow(s[0], Sort(s[1..]), x);
      assert x in s <==> x == s[0] || x in s[1..];
    }
  }

  lemma {:induction false} CountHead(t: seq<real>, k: nat, x: real)
    requires Ascending(t) && k <= |t| && (k < |t| ==> t[k] >= x)
    ensures CountBelow(t, x) <= k
  {
    if t != [] {
      if k == 0 {
        NothingBelow(t, x);
      } else {
        CountHead(t[1..], k - 1, x);
      }
    }
  }

  lemma {:induction false} NothingBelow(t: seq<real>, x: real)
    requires Ascending(t) && (t != [] ==> t[0] >= x)
    ensures CountBelow(t, x) == 0
  {
    if |t| > 1 {
      assert t[0] <= t[1];
      NothingBelow(t[1..], x);
    }
  }

  lemma SortedRank(s: seq<real>, k: nat)
    requires k < |s|
    ensures HasRank(s, Sort(s)[k], k)
  {
    var t := Sort(s);
    SortAscending(s);
    SortBelow(s, t[k]);
    SortCount(s, t[k]);
    CountHead(t, k, t[k]);
    CountTail(t, k + 1, t[k]);
  }

  lemma RankIsSorted(s: seq<real>, x: real, k: nat)
    requires k < |s| && HasRank(s, x, k)
    ensures |Sort(s)| == |s| && x == Sort(s)[k]
  {
    SortedRank(s, k);
    RankUnique(s, x, Sort(s)[k], k);
  }

  /** The median is the entry of the middle rank, or the mean of the entries of the two middle
      ranks. */
  lemma MedianIsMiddle(s: seq<real>, x: real, y: real)
    requires s != [] && HasRank(s, x, (|s| - 1) / 2) && HasRank(s, y, |s| / 2)
    ensures Median(s) == (x + y) / 2.0
  {
    var i, j := (|s| - 1) / 2, |s| / 2;
    RankIsSorted(s, x, i);
    RankIsSorted(s, y, j);
    assert i == if |s| % 2 == 1 then j else j - 1;
    MedianEntries(s, i, j);
  }

  lemma MedianEntries(s: seq<real>, i: nat, j: nat)
    requires s != [] && j == |s| / 2 && i == (if |s| % 2 == 1 then j else j - 1) && |Sort(s)| == |s|
    ensures Median(s) == (Sort(s)[i] + Sort(s)[j]) / 2.0
  {
  }

  /** There are entries of the middle ranks, and with an odd number of entries they are one. */
  lemma MiddleExists(s: seq<real>) returns (x: real, y: real)
    requires s != []
    ensures HasRank(s, x, (|s| - 1) / 2) && HasRank(s, y, |s| / 2) && (|s| % 2 == 1 ==> x == y)
    ensures Median(s) == (x + y) / 2.0
  {
    x, y := Sort(s)[(|s| - 1) / 2], Sort(s)[|s| / 2];
    SortedRank(s, (|s| - 1) / 2);
    SortedRank(s, |s| / 2);
    MedianIsMiddle(s, x, y);
  }

  lemma {:induction false} InsertPositive(x: real, s: seq<real>)
    requires x > 0.0 && forall i :: 0 <= i < |s| ==> s[i] > 0.0
    ensures forall i :: 0 <= i <= |s| ==> Insert(x, s)[i] > 0.0
  {
    if s != [] && x > s[0] { InsertPositive(x, s[1..]); }
  }

  lemma {:induction false} SortPositive(s: seq<real>)
    requires forall i :: 0 <= i < |s| ==> s[i] > 0.0
    ensures forall i :: 0 <= i < |s| ==> Sort(s)[i] > 0.0
  {
    if s != [] {
      SortPositive(s[1..]);
      InsertPositive(s[0], Sort(s[1..]));
    }
  }

  lemma MedianPositive(s: seq<real>)
    requires s != [] && forall i :: 0 <= i < |s| ==> s[i] > 0.0
    ensures Median(s) > 0.0
  {
    SortPositive(s);
  }

  // ----- scaling -----

  function Stretched(c: real, s: seq<real>): (r: seq<real>)
    ensures |r| == |s| && forall i :: 0 <= i < |s| ==> r[i] == Times(c, s[i])
  {
    seq(|s|, i requires 0 <= i < |s| => Times(c, s[i]))
  }

  lemma StretchOrder(c: real, x: real, y: real)
    requires c > 0.0
    ensures Times(c, x) <= Times(c, y) <==> x <= y
  {
    if x <= y {
      assert c * (y - x) >= 0.0;
    } else {
      assert c * (x - y) > 0.0;
    }
  }

  lemma {:induction false} InsertStretches(c: real, x: real, s: seq<real>)
    requires c > 0.0
    ensures Insert(Times(c, x), Stretched(c, s)) == Stretched(c, Insert(x, s))
  {
    if s != [] {
      StretchOrder(c, x, s[0]);
      if x > s[0] {
        InsertStretches(c, x, s[1..]);
        assert Stretched(c, s)[1..] == Stretched(c, s[1..]);
      }
    }
  }

  lemma {:induction false} SortStretches(c: real, s: seq<real>)
    requires c > 0.0
    ensures Sort(Stretched(c, s)) == Stretched(c, Sort(s))
  {
    if s != [] {
      assert Stretched(c, s)[1..] == Stretched(c, s[1..]);
      SortStretches(c, s[1..]);
      InsertStretches(c, s[0], Sort(s[1..]));
    }
  }

  lemma HalfwayStretches(c: real, x: real, y: real)
    ensures (Times(c, x) + Times(c, y)) / 2.0 == Times(c, (x + y) / 2.0)
  {
  }

  /** The median scales with its data. */
  lemma MedianStretches(c: real, s: seq<real>)
    requires c > 0.0 && s != []
    ensures Median(Stretched(c, s)) == Times(c, Median(s))
  {
    SortStretches(c, s);
    var t, h := Sort(s), |s| / 2;
    if |s| % 2 == 0 { HalfwayStretches(c, t[h - 1], t[h]); }
  }
}
