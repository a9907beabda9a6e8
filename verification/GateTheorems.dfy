/** What the gate promises: how much it can report, and how it reacts to a faster or slower host. */
module GateTheorems {
  import opened Text
  import opened Sums
  import opened Medians
  import opened Gate

  // ----- what is reported -----

  predicate Named(metrics: seq<string>, scales: map<string, real>) {
    forall k :: 0 <= k < |metrics| ==> metrics[k] in scales
  }

  /** An item without errors reports exactly its flagged metrics. */
  lemma {:induction false} ItemReports(p: Pair, metrics: seq<string>, scales: map<string, real>, slack: real,
                                       v: Violation)
    requires Named(metrics, scales) && CheckItem(p, metrics, scales, slack).Ok?
    ensures forall k :: 0 <= k < |metrics| ==> Ratio(p, metrics[k]).Some?
    ensures v in CheckItem(p, metrics, scales, slack).value <==>
            v.name == p.current.name && v.metric in metrics && Flagged(p, v.metric, scales[v.metric], slack)
  {
    if metrics != [] {
      ItemReports(p, metrics[..|metrics| - 1], scales, slack, v);
    }
  }

  /** Some measurement of this name is flagged. */
  ghost predicate Hit(pairs: seq<Pair>, v: Violation, scale: real, slack: real) {
    exists p :: p in pairs && p.current.name == v.name && Flagged(p, v.metric, scale, slack)
  }

  /** A run without errors reports exactly the flagged metrics of its measurements. */
  lemma {:induction false} AllReports(rule: Rule, pairs: seq<Pair>, metrics: seq<string>, scales: map<string, real>,
                                      slack: real, v: Violation)
    requires Named(metrics, scales) && CheckAll(rule, pairs, metrics, scales, slack).Ok?
    ensures v in CheckAll(rule, pairs, metrics, scales, slack).value <==>
            v.metric in metrics && Hit(pairs, v, scales[v.metric], slack)
  {
    if pairs != [] {
      var p := pairs[|pairs| - 1];
      AllReports(rule, pairs[..|pairs| - 1], metrics, scales, slack, v);
      ItemReports(p, metrics, scales, slack, v);
      assert forall q :: q in pairs <==> q in pairs[..|pairs| - 1] || q == p;
    }
  }

  lemma {:induction false} AllTimed(rule: Rule, pairs: seq<Pair>, metrics: seq<string>, scales: map<string, real>,
                                    slack: real, k: nat)
    requires Named(metrics, scales) && CheckAll(rule, pairs, metrics, scales, slack).Ok? && k < |metrics|
    ensures |Ratios(pairs, metrics[k])| == |pairs|
  {
    if pairs != [] {
      AllTimed(rule, pairs[..|pairs| - 1], metrics, scales, slack, k);
      ItemReports(pairs[|pairs| - 1], metrics, scales, slack, Violation("", ""));
    }
  }

  // ----- at most half -----

  /** Reports for one metric. */
  function CountFor(v: seq<Violation>, metric: string): (n: nat)
    ensures n <= |v|
  {
    if v == [] then 0 else CountFor(v[..|v| - 1], metric) + (if v[|v| - 1].metric == metric then 1 else 0)
  }

  lemma {:induction false} CountForAppend(v: seq<Violation>, w: seq<Violation>, metric: string)
    ensures CountFor(v + w, metric) == CountFor(v, metric) + CountFor(w, metric)
  {
    if w == [] {
      assert v + w == v;
    } else {
      var u := w[..|w| - 1];
      CountForAppend(v, u, metric);
      assert (v + w)[..|v + w| - 1] == v + u;
    }
  }

  predicate DistinctMetrics(metrics: seq<string>) {
    forall i, j :: 0 <= i < j < |metrics| ==> metrics[i] != metrics[j]
  }

  lemma CountOne(p: Pair, metric: string, scale: real, slack: real, other: string)
    ensures CountFor(Reported(p, metric, scale, slack), other) == if metric == other
            && Flagged(p, metric, scale, slack) then 1 else 0
  {
    assert CountFor([], other) == 0;
    assert [Violation(p.current.name, metric)][..0] == [];
  }

  lemma {:induction false} ItemCount(p: Pair, metrics: seq<string>, scales: map<string, real>, slack: real,
                                     metric: string)
    requires Named(metrics, scales) && DistinctMetrics(metrics) && CheckItem(p, metrics, scales, slack).Ok?
    ensures CountFor(CheckItem(p, metrics, scales, slack).value, metric)
         == if metric in metrics && Flagged(p, metric, scales[metric], slack) then 1 else 0
  {
    if metrics != [] {
      var n := |metrics| - 1;
      LastMetric(metrics, n, metric);
      ItemCount(p, metrics[..n], scales, slack, metric);
      CountOne(p, metrics[n], scales[metrics[n]], slack, metric);
      CountForAppend(CheckItem(p, metrics[..n], scales, slack).value,
                     Reported(p, metrics[n], scales[metrics[n]], slack), metric);
    }
  }

  lemma LastMetric(metrics: seq<string>, n: nat, metric: string)
    requires DistinctMetrics(metrics) && n == |metrics| - 1
    ensures DistinctMetrics(metrics[..n])
    ensures metric in metrics <==> metric in metrics[..n] || metric == metrics[n]
    ensures !(metric in metrics[..n] && metric == metrics[n])
  {
    assert metrics == metrics[..n] + [metrics[n]];
  }

  lemma CountAboveSnoc(s: seq<real>, y: real, x: real)
    ensures CountAbove(s + [y], x) == CountAbove(s, x) + (if y > x then 1 else 0)
    decreases |s|
  {
    if s == [] {
      CountCons(y, [], x);
      assert s + [y] == [y] + [];
    } else {
      assert (s + [y])[1..] == s[1..] + [y];
      CountAboveSnoc(s[1..], y, x);
    }
  }

  /** Reports for a metric are ratios above the limit. */
  lemma {:induction false} ReportsAreRatios(rule: Rule, pairs: seq<Pair>, metrics: seq<string>,
                                            scales: map<string, real>, slack: real, k: nat)
    requires Named(metrics, scales) && DistinctMetrics(metrics) && k < |metrics|
    requires CheckAll(rule, pairs, metrics, scales, slack).Ok?
    ensures CountFor(CheckAll(rule, pairs, metrics, scales, slack).value, metrics[k])
         <= CountAbove(Ratios(pairs, metrics[k]), Times(scales[metrics[k]], 1.0 + slack))
  {
    if pairs != [] {
      var p, before := pairs[|pairs| - 1], pairs[..|pairs| - 1];
      var limit := Times(scales[metrics[k]], 1.0 + slack);
      ReportsAreRatios(rule, before, metrics, scales, slack, k);
      ItemReports(p, metrics, scales, slack, Violation("", ""));
      ItemCount(p, metrics, scales, slack, metrics[k]);
      CountForAppend(CheckAll(rule, before, metrics, scales, slack).value,
                     CheckItem(p, metrics, scales, slack).value, metrics[k]);
      CountAboveSnoc(Ratios(before, metrics[k]), Ratio(p, metrics[k]).value, limit);
    }
  }

  lemma {:induction false} CountAboveFalls(s: seq<real>, x: real, y: real)
    requires x <= y
    ensures CountAbove(s, y) <= CountAbove(s, x)
  {
    if s != [] { CountAboveFalls(s[1..], x, y); }
  }

  lemma LimitAboveMedian(rule: Rule, ratios: seq<real>, slack: real)
    requires ratios != [] && slack >= 0.0 && forall i :: 0 <= i < |ratios| ==> ratios[i] > 0.0
    ensures Median(ratios) <= Times(ScaleFrom(rule, ratios), 1.0 + slack)
  {
    MedianPositive(ratios);
    var s := ScaleFrom(rule, ratios);
    assert s * (1.0 + slack) == s + s * slack;
    assert s * slack >= 0.0;
  }

  /** Per metric, at most half of the compared measurements are reported, by either gate. */
  lemma AtMostHalfReported(rule: Rule, current: Payload, baseline: Payload, metrics: seq<string>, slack: real, k: nat)
    requires DistinctMetrics(metrics) && k < |metrics| && slack >= 0.0
    requires Outcome(rule, current, baseline, metrics, slack).Ok?
    ensures CountFor(Outcome(rule, current, baseline, metrics, slack).value, metrics[k])
         <= |Compared(current.measurements, baseline.measurements)| / 2
  {
    var pairs := Compared(current.measurements, baseline.measurements);
    var scales := Scales(rule, pairs, metrics);
    var ratios := Ratios(pairs, metrics[k]);
    ReportsAreRatios(rule, pairs, metrics, scales, slack, k);
    AllTimed(rule, pairs, metrics, scales, slack, k);
    if ratios != [] {
      LimitAboveMedian(rule, ratios, slack);
      CountAboveFalls(ratios, Median(ratios), Times(scales[metrics[k]], 1.0 + slack));
      AtMostHalfAbove(ratios);
    }
  }

  // ----- a uniformly faster or slower run -----

  function Paced(t: Timing, c: real): (r: Timing) {
    if t.Seconds? then Seconds(Times(c, t.value)) else t
  }

  function PacedItem(x: Item, c: real): (r: Item) {
    x.(timings := map m | m in x.timings :: Paced(x.timings[m], c))
  }

  /** The same run on a host that takes `c` times as long for everything. */
  function PacedItems(items: seq<Item>, c: real): (r: seq<Item>)
    ensures |r| == |items| && forall i :: 0 <= i < |items| ==> r[i] == PacedItem(items[i], c)
  {
    seq(|items|, i requires 0 <= i < |items| => PacedItem(items[i], c))
  }

  function PacedRun(p: Payload, c: real): (r: Payload) {
    p.(measurements := PacedItems(p.measurements, c))
  }

  function PacedPairs(pairs: seq<Pair>, c: real): (r: seq<Pair>)
    ensures |r| == |pairs| && forall i :: 0 <= i < |pairs| ==>
            r[i] == Pair(PacedItem(pairs[i].current, c), pairs[i].baseline)
  {
    seq(|pairs|, i requires 0 <= i < |pairs| => Pair(PacedItem(pairs[i].current, c), pairs[i].baseline))
  }

  lemma {:induction false} ComparedPaced(current: seq<Item>, baseline: seq<Item>, c: real)
    ensures Compared(PacedItems(current, c), baseline) == PacedPairs(Compared(current, baseline), c)
  {
    if current != [] {
      var n := |current| - 1;
      assert PacedItems(current, c)[..n] == PacedItems(current[..n], c);
      ComparedPaced(current[..n], baseline, c);
    }
  }

  lemma PositivePaced(t: Timing, c: real)
    requires c > 0.0
    ensures IsPositive(Paced(t, c)) <==> IsPositive(t)
  {
    if t.Seconds? { StretchOrder(c, t.value, 0.0); }
  }

  lemma QuotientPaced(c: real, a: real, b: real)
    requires b > 0.0
    ensures Times(c, a) / b == Times(c, a / b)
  {
  }

  lemma RatioPaced(p: Pair, q: Pair, metric: string, c: real)
    requires c > 0.0 && q == Pair(PacedItem(p.current, c), p.baseline)
    ensures Ratio(q, metric) == if Ratio(p, metric).Some? then Some(Times(c, Ratio(p, metric).value)) else None
    ensures TimingError(q, metric) == TimingError(p, metric)
  {
    var t, b := TimingOf(p.current, metric), TimingOf(p.baseline, metric);
    assert TimingOf(q.current, metric) == Paced(t, c);
    PositivePaced(t, c);
    if IsPositive(t) && IsPositive(b) { QuotientPaced(c, t.value, b.value); }
  }

  lemma {:induction false} RatiosPaced(pairs: seq<Pair>, metric: string, c: real)
    requires c > 0.0
    ensures Ratios(PacedPairs(pairs, c), metric) == Stretched(c, Ratios(pairs, metric))
  {
    if pairs != [] {
      var n := |pairs| - 1;
      var q := PacedPairs(pairs, c);
      assert q[..n] == PacedPairs(pairs[..n], c);
      RatiosPaced(pairs[..n], metric, c);
      RatioPaced(pairs[n], q[n], metric, c);
    }
  }

  lemma LimitOrder(c: real, r: real, scale: real, k: real)
    requires c > 0.0
    ensures Times(c, r) > Times(Times(c, scale), k) <==> r > Times(scale, k)
  {
    StretchOrder(c, r, Times(scale, k));
    assert (c * scale) * k == c * (scale * k);
  }

  // ----- the same errors -----

  /** Two lists of measurements that fail, where they fail, in the same way. */
  ghost predicate Parallel(rule: Rule, ps: seq<Pair>, qs: seq<Pair>) {
    |ps| == |qs| && forall i :: 0 <= i < |ps| ==> SameErrors(rule, ps[i], qs[i])
  }

  ghost predicate SameErrors(rule: Rule, p: Pair, q: Pair) {
    && p.current.name == q.current.name && ItemError(rule, p) == ItemError(rule, q)
    && forall metric :: TimingError(p, metric) == TimingError(q, metric)
  }

  predicate SameEnding(r: Result<seq<Violation>>, s: Result<seq<Violation>>) {
    (r.Ok? <==> s.Ok?) && (r.Failed? ==> r == s)
  }

  lemma {:induction false} ItemEnding(rule: Rule, p: Pair, q: Pair, metrics: seq<string>, a: map<string, real>,
                                      b: map<string, real>, slack: real)
    requires SameErrors(rule, p, q) && Named(metrics, a) && Named(metrics, b)
    ensures SameEnding(CheckItem(p, metrics, a, slack), CheckItem(q, metrics, b, slack))
  {
    if metrics != [] {
      ItemEnding(rule, p, q, metrics[..|metrics| - 1], a, b, slack);
    }
  }

  lemma {:induction false} AllEnding(rule: Rule, ps: seq<Pair>, qs: seq<Pair>, metrics: seq<string>,
                                     a: map<string, real>, b: map<string, real>, slack: real)
    requires Parallel(rule, ps, qs) && Named(metrics, a) && Named(metrics, b)
    ensures SameEnding(CheckAll(rule, ps, metrics, a, slack), CheckAll(rule, qs, metrics, b, slack))
  {
    if ps != [] {
      var n := |ps| - 1;
      AllEnding(rule, ps[..n], qs[..n], metrics, a, b, slack);
      assert SameErrors(rule, ps[n], qs[n]);
      ItemEnding(rule, ps[n], qs[n], metrics, a, b, slack);
    }
  }

  lemma PacedParallel(rule: Rule, pairs: seq<Pair>, c: real)
    requires c > 0.0
    ensures Parallel(rule, PacedPairs(pairs, c), pairs)
  {
    forall i | 0 <= i < |pairs| ensures SameErrors(rule, PacedPairs(pairs, c)[i], pairs[i]) {
      forall metric ensures TimingError(PacedPairs(pairs, c)[i], metric) == TimingError(pairs[i], metric) {
        RatioPaced(pairs[i], PacedPairs(pairs, c)[i], metric, c);
      }
    }
  }

  // ----- the same reports -----

  /** Both lists flag the same metrics, each under its own scales. */
  ghost predicate SameFlags(ps: seq<Pair>, qs: seq<Pair>, metrics: seq<string>, a: map<string, real>,
                            b: map<string, real>, slack: real)
    requires Named(metrics, a) && Named(metrics, b) && |ps| == |qs|
  {
    forall i, k :: 0 <= i < |ps| && 0 <= k < |metrics| ==>
      (Flagged(ps[i], metrics[k], a[metrics[k]], slack) <==> Flagged(qs[i], metrics[k], b[metrics[k]], slack))
  }

  lemma {:induction false} ItemSame(rule: Rule, p: Pair, q: Pair, metrics: seq<string>, a: map<string, real>,
                                    b: map<string, real>, slack: real)
    requires SameErrors(rule, p, q) && Named(metrics, a) && Named(metrics, b)
    requires SameFlags([p], [q], metrics, a, b, slack)
    ensures CheckItem(p, metrics, a, slack) == CheckItem(q, metrics, b, slack)
  {
    if metrics != [] {
      var n := |metrics| - 1;
      assert Flagged([p][0], metrics[n], a[metrics[n]], slack) <==> Flagged([q][0], metrics[n], b[metrics[n]], slack);
      ItemSame(rule, p, q, metrics[..n], a, b, slack);
    }
  }

  lemma {:induction false} AllSame(rule: Rule, ps: seq<Pair>, qs: seq<Pair>, metrics: seq<string>,
                                   a: map<string, real>, b: map<string, real>, slack: real)
    requires Parallel(rule, ps, qs) && Named(metrics, a) && Named(metrics, b) && SameFlags(ps, qs, metrics, a, b, slack)
    ensures CheckAll(rule, ps, metrics, a, slack) == CheckAll(rule, qs, metrics, b, slack)
  {
    if ps != [] {
      var n := |ps| - 1;
      AllSame(rule, ps[..n], qs[..n], metrics, a, b, slack);
      assert SameErrors(rule, ps[n], qs[n]);
      ItemSame(rule, ps[n], qs[n], metrics, a, b, slack);
    }
  }

  lemma {:induction false} TimedRatios(pairs: seq<Pair>, i: nat, metric: string)
    requires i < |pairs| && Ratio(pairs[i], metric).Some?
    ensures Ratios(pairs, metric) != []
  {
    if i < |pairs| - 1 { TimedRatios(pairs[..|pairs| - 1], i, metric); }
  }

  lemma CpuFlagPaced(pairs: seq<Pair>, i: nat, metric: string, c: real, slack: real)
    requires c > 0.0 && i < |pairs|
    ensures Flagged(PacedPairs(pairs, c)[i], metric, Scale(Cpu, PacedPairs(pairs, c), metric), slack)
       <==> Flagged(pairs[i], metric, Scale(Cpu, pairs, metric), slack)
  {
    RatiosPaced(pairs, metric, c);
    RatioPaced(pairs[i], PacedPairs(pairs, c)[i], metric, c);
    if Ratio(pairs[i], metric).Some? {
      TimedRatios(pairs, i, metric);
      MedianStretches(c, Ratios(pairs, metric));
      LimitOrder(c, Ratio(pairs[i], metric).value, Median(Ratios(pairs, metric)), 1.0 + slack);
    }
  }

  /** The CPU gate's whole answer, reports and errors alike, does not depend on the host's speed. */
  lemma CpuIgnoresPace(current: Payload, baseline: Payload, metrics: seq<string>, slack: real, c: real)
    requires c > 0.0
    ensures Outcome(Cpu, PacedRun(current, c), baseline, metrics, slack) ==
            Outcome(Cpu, current, baseline, metrics, slack)
  {
    var pairs := Compared(current.measurements, baseline.measurements);
    var paced := PacedPairs(pairs, c);
    ComparedPaced(current.measurements, baseline.measurements, c);
    PacedParallel(Cpu, pairs, c);
    var a, b := Scales(Cpu, paced, metrics), Scales(Cpu, pairs, metrics);
    forall i, k | 0 <= i < |paced| && 0 <= k < |metrics|
      ensures Flagged(paced[i], metrics[k], a[metrics[k]], slack) <==>
              Flagged(pairs[i], metrics[k], b[metrics[k]], slack)
    {
      CpuFlagPaced(pairs, i, metrics[k], c, slack);
    }
    AllSame(Cpu, paced, pairs, metrics, a, b, slack);
  }

  // ----- the MPS gate -----

  lemma FlooredLimit(c: real, r: real, m: real, k: real)
    requires 0.0 < c <= 1.0 && r > 0.0 && m > 0.0
    requires Times(c, r) > Times(if Times(c, m) > 1.0 then Times(c, m) else 1.0, k)
    ensures r > Times(if m > 1.0 then m else 1.0, k)
  {
    var f := if m > 1.0 then m else 1.0;
    var g := if c * m > 1.0 then c * m else 1.0;
    assert g >= c * f by {
      if m > 1.0 { assert g >= c * m; } else { assert c * 1.0 <= 1.0; }
    }
    FlooredOrder(c, r, f, g, k);
  }

  lemma FlooredOrder(c: real, r: real, f: real, g: real, k: real)
    requires c > 0.0 && r > 0.0 && f > 0.0 && g >= c * f && Times(c, r) > Times(g, k)
    ensures r > Times(f, k)
  {
    if k >= 0.0 {
      assert (g - c * f) * k >= 0.0;
      assert c * r > (c * f) * k;
      LimitOrder(c, r, f, k);
    } else {
      assert f * k < 0.0;
    }
  }

  lemma MpsFlagPaced(pairs: seq<Pair>, i: nat, metric: string, c: real, slack: real)
    requires 0.0 < c <= 1.0 && i < |pairs|
    requires Flagged(PacedPairs(pairs, c)[i], metric, Scale(Mps, PacedPairs(pairs, c), metric), slack)
    ensures Flagged(pairs[i], metric, Scale(Mps, pairs, metric), slack)
  {
    RatiosPaced(pairs, metric, c);
    RatioPaced(pairs[i], PacedPairs(pairs, c)[i], metric, c);
    TimedRatios(pairs, i, metric);
    var ratios := Ratios(pairs, metric);
    MedianStretches(c, ratios);
    MedianPositive(ratios);
    FlooredLimit(c, Ratio(pairs[i], metric).value, Median(ratios), 1.0 + slack);
  }

  /** A uniformly faster run is refused by the MPS gate just as the slower one, or else reports
      no measurement that the slower one does not. */
  lemma MpsShrinksWithPace(current: Payload, baseline: Payload, metrics: seq<string>, slack: real, c: real)
    requires 0.0 < c <= 1.0
    ensures SameEnding(Outcome(Mps, PacedRun(current, c), baseline, metrics, slack),
                       Outcome(Mps, current, baseline, metrics, slack))
    ensures Outcome(Mps, current, baseline, metrics, slack).Ok? ==>
              forall v :: v in Outcome(Mps, PacedRun(current, c), baseline, metrics, slack).value
                      ==> v in Outcome(Mps, current, baseline, metrics, slack).value
  {
    var pairs := Compared(current.measurements, baseline.measurements);
    var paced := PacedPairs(pairs, c);
    ComparedPaced(current.measurements, baseline.measurements, c);
    PacedParallel(Mps, pairs, c);
    var a, b := Scales(Mps, paced, metrics), Scales(Mps, pairs, metrics);
    AllEnding(Mps, paced, pairs, metrics, a, b, slack);
    if Outcome(Mps, current, baseline, metrics, slack).Ok? {
      forall v | v in CheckAll(Mps, paced, metrics, a, slack).value
        ensures v in CheckAll(Mps, pairs, metrics, b, slack).value
      {
        MpsReportPaced(pairs, metrics, slack, c, v);
      }
    }
  }

  lemma MpsReportPaced(pairs: seq<Pair>, metrics: seq<string>, slack: real, c: real, v: Violation)
    requires 0.0 < c <= 1.0
    requires CheckAll(Mps, pairs, metrics, Scales(Mps, pairs, metrics), slack).Ok?
    requires CheckAll(Mps, PacedPairs(pairs, c), metrics, Scales(Mps, PacedPairs(pairs, c), metrics), slack).Ok?
    requires v in CheckAll(Mps, PacedPairs(pairs, c), metrics, Scales(Mps, PacedPairs(pairs, c), metrics), slack).value
    ensures v in CheckAll(Mps, pairs, metrics, Scales(Mps, pairs, metrics), slack).value
  {
    var paced := PacedPairs(pairs, c);
    var a, b := Scales(Mps, paced, metrics), Scales(Mps, pairs, metrics);
    AllReports(Mps, paced, metrics, a, slack, v);
    AllReports(Mps, pairs, metrics, b, slack, v);
    MpsHitPaced(pairs, slack, c, v);
  }

  lemma MpsHitPaced(pairs: seq<Pair>, slack: real, c: real, v: Violation)
    requires 0.0 < c <= 1.0 && Hit(PacedPairs(pairs, c), v, Scale(Mps, PacedPairs(pairs, c), v.metric), slack)
    ensures Hit(pairs, v, Scale(Mps, pairs, v.metric), slack)
  {
    var paced := PacedPairs(pairs, c);
    var q :| q in paced && q.current.name == v.name && Flagged(q, v.metric, Scale(Mps, paced, v.metric), slack);
    var i :| 0 <= i < |paced| && paced[i] == q;
    MpsFlagPaced(pairs, i, v.metric, c, slack);
    assert pairs[i] in pairs;
  }

  lemma FloorRaises(m: real, r: real, k: real)
    requires m > 0.0 && r > 0.0 && r > Times(if m > 1.0 then m else 1.0, k)
    ensures r > Times(m, k)
  {
    if k >= 0.0 {
      if m <= 1.0 { assert m * k <= 1.0 * k; }
    } else {
      assert m * k < 0.0;
    }
  }

  lemma MpsFlagIsCpuFlag(pairs: seq<Pair>, p: Pair, metric: string, slack: real)
    requires p in pairs && Flagged(p, metric, Scale(Mps, pairs, metric), slack)
    ensures Flagged(p, metric, Scale(Cpu, pairs, metric), slack)
  {
    var i :| 0 <= i < |pairs| && pairs[i] == p;
    TimedRatios(pairs, i, metric);
    MedianPositive(Ratios(pairs, metric));
    FloorRaises(Median(Ratios(pairs, metric)), Ratio(p, metric).value, 1.0 + slack);
  }

  /** On data both gates accept, everything the MPS gate reports the CPU gate reports too. */
  lemma MpsWithinCpu(current: Payload, baseline: Payload, metrics: seq<string>, slack: real, v: Violation)
    requires Outcome(Cpu, current, baseline, metrics, slack).Ok? && Outcome(Mps, current, baseline, metrics, slack).Ok?
    requires v in Outcome(Mps, current, baseline, metrics, slack).value
    ensures v in Outcome(Cpu, current, baseline, metrics, slack).value
  {
    var pairs := Compared(current.measurements, baseline.measurements);
    var a, b := Scales(Mps, pairs, metrics), Scales(Cpu, pairs, metrics);
    AllReports(Mps, pairs, metrics, a, slack, v);
    AllReports(Cpu, pairs, metrics, b, slack, v);
    var p :| p in pairs && p.current.name == v.name && Flagged(p, v.metric, a[v.metric], slack);
    MpsFlagIsCpuFlag(pairs, p, v.metric, slack);
  }
}
