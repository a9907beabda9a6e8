/**
 What the gates compare, measure, report and refuse, said on the timings and the metadata
 themselves.
 */
module GateMeaning {
  import opened Text
  import opened Sums
  import opened Medians
  import opened Gate
  import opened GateTheorems

  // ----- what is compared -----

  lemma {:induction false} LookupExactly(items: seq<Item>, name: string, x: Item)
    requires DistinctNames(items)
    ensures Lookup(items, name) == Some(x) <==> x in items && x.name == name
  {
    if items != [] {
      var n := |items| - 1;
      LookupExactly(items[..n], name, x);
      assert items == items[..n] + [items[n]];
    }
  }

  /** The measurements whose name both sides have, each with the baseline measurement of its name. */
  lemma {:induction false} ComparedExactly(current: seq<Item>, baseline: seq<Item>, p: Pair)
    requires DistinctNames(baseline)
    ensures p in Compared(current, baseline) <==>
            p.current in current && p.baseline in baseline && p.current.name == p.baseline.name
  {
    if current != [] {
      var n := |current| - 1;
      ComparedExactly(current[..n], baseline, p);
      LookupExactly(baseline, current[n].name, p.baseline);
      assert current == current[..n] + [current[n]];
    }
  }

  /** They are compared in the order of the current run. */
  lemma ComparedInOrder(current: seq<Item>, x: Item, baseline: seq<Item>)
    ensures Lookup(baseline, x.name).None? ==> Compared(current + [x], baseline) == Compared(current, baseline)
    ensures Lookup(baseline, x.name).Some? ==>
              Compared(current + [x], baseline) ==
              Compared(current, baseline) + [Pair(x, Lookup(baseline, x.name).value)]
  {
    assert (current + [x])[..|current|] == current;
  }

  // ----- the measured shift -----

  /** The ratios are those of the measurements with two positive timings, in order. */
  lemma RatiosSnoc(pairs: seq<Pair>, p: Pair, metric: string)
    ensures var a, b := TimingOf(p.current, metric), TimingOf(p.baseline, metric);
            var before, after := Ratios(pairs, metric), Ratios(pairs + [p], metric);
            && (IsPositive(a) && IsPositive(b) ==>
                  |after| == |before| + 1 && after[..|before|] == before && Times(after[|before|], b.value) == a.value)
            && (!(IsPositive(a) && IsPositive(b)) ==> after == before)
  {
    assert (pairs + [p])[..|pairs|] == pairs;
    var a, b := TimingOf(p.current, metric), TimingOf(p.baseline, metric);
    if IsPositive(a) && IsPositive(b) { QuotientTimes(a.value, b.value); }
  }

  lemma QuotientTimes(a: real, b: real)
    requires b > 0.0
    ensures Times(a / b, b) == a
  {
  }

  /** The scale is 1 without ratios, and otherwise the mean of the entries of the two middle ranks,
      which the MPS gate raises to at least 1. */
  lemma ScaleExactly(rule: Rule, ratios: seq<real>, x: real, y: real)
    requires ratios != [] ==> HasRank(ratios, x, (|ratios| - 1) / 2) && HasRank(ratios, y, |ratios| / 2)
    ensures ratios == [] ==> ScaleFrom(rule, ratios) == 1.0
    ensures ratios != [] && rule == Cpu ==> ScaleFrom(rule, ratios) == (x + y) / 2.0
    ensures ratios != [] && rule == Mps ==>
              ScaleFrom(rule, ratios) == if (x + y) / 2.0 > 1.0 then (x + y) / 2.0 else 1.0
  {
    if ratios != [] { MedianIsMiddle(ratios, x, y); }
  }

  // ----- what is reported -----

  /** Slower than the limit allows: the current timing is more than `scale * (1 + slack)` times a
      baseline of at least ten microseconds. */
  predicate TooSlow(p: Pair, metric: string, scale: real, slack: real) {
    var a, b := TimingOf(p.current, metric), TimingOf(p.baseline, metric);
    IsPositive(a) && b.Seconds? && 100000.0 * b.value >= 1.0 && a.value > Times(Times(scale, 1.0 + slack), b.value)
  }

  lemma QuotientOrder(a: real, b: real, limit: real)
    requires b > 0.0
    ensures a / b > limit <==> a > Times(limit, b)
  {
    QuotientTimes(a, b);
    if a / b > limit {
      assert (a / b - limit) * b > 0.0;
    } else {
      assert (limit - a / b) * b >= 0.0;
    }
  }

  lemma FlaggedExactly(p: Pair, metric: string, scale: real, slack: real)
    ensures Flagged(p, metric, scale, slack) <==> TooSlow(p, metric, scale, slack)
  {
    var a, b := TimingOf(p.current, metric), TimingOf(p.baseline, metric);
    if IsPositive(a) && IsPositive(b) { QuotientOrder(a.value, b.value, Times(scale, 1.0 + slack)); }
  }

  /** A gate that accepts its data reports a name and metric exactly when the measurement of that name
      is too slow by the scale of that metric. */
  lemma ReportedExactly(rule: Rule, current: Payload, baseline: Payload, metrics: seq<string>, slack: real,
                        v: Violation)
    requires Outcome(rule, current, baseline, metrics, slack).Ok?
    ensures v in Outcome(rule, current, baseline, metrics, slack).value <==>
            v.metric in metrics
            && var pairs := Compared(current.measurements, baseline.measurements);
               exists p :: p in pairs && p.current.name == v.name
                           && TooSlow(p, v.metric, Scale(rule, pairs, v.metric), slack)
  {
    var pairs := Compared(current.measurements, baseline.measurements);
    var scales := Scales(rule, pairs, metrics);
    AllReports(rule, pairs, metrics, scales, slack, v);
    if v.metric in metrics {
      assert scales[v.metric] == Scale(rule, pairs, v.metric);
      forall p
        ensures Flagged(p, v.metric, scales[v.metric], slack) <==> TooSlow(p, v.metric, scales[v.metric], slack)
      {
        FlaggedExactly(p, v.metric, scales[v.metric], slack);
      }
    }
  }

  // ----- what is refused -----

  /** The metadata a gate requires to agree. */
  predicate HeadersAgree(rule: Rule, a: Header, b: Header) {
    && a.benchmark == b.benchmark && a.suite == b.suite && a.dtype == b.dtype
    && (rule == Cpu ==> a.threads == b.threads && a.backend == b.backend)
    && (rule == Mps ==> a.device == b.device)
  }

  predicate ItemsAgree(rule: Rule, p: Pair) {
    && p.current.category == p.baseline.category && p.current.shapes == p.baseline.shapes
    && (rule == Cpu ==> p.current.extents == p.baseline.extents)
  }

  predicate Timed(p: Pair, metrics: seq<string>) {
    forall m :: m in metrics ==> IsPositive(TimingOf(p.current, m)) && IsPositive(TimingOf(p.baseline, m))
  }

  lemma {:induction false} ItemAccepted(p: Pair, metrics: seq<string>, scales: map<string, real>, slack: real)
    requires Named(metrics, scales)
    ensures CheckItem(p, metrics, scales, slack).Ok? <==> Timed(p, metrics)
  {
    if metrics != [] {
      var n := |metrics| - 1;
      ItemAccepted(p, metrics[..n], scales, slack);
      assert metrics == metrics[..n] + [metrics[n]];
    }
  }

  lemma {:induction false} AllAccepted(rule: Rule, pairs: seq<Pair>, metrics: seq<string>, scales: map<string, real>,
                                       slack: real)
    requires Named(metrics, scales)
    ensures CheckAll(rule, pairs, metrics, scales, slack).Ok? <==>
            forall p :: p in pairs ==> ItemsAgree(rule, p) && Timed(p, metrics)
  {
    if pairs != [] {
      var n := |pairs| - 1;
      AllAccepted(rule, pairs[..n], metrics, scales, slack);
      ItemAccepted(pairs[n], metrics, scales, slack);
      assert pairs == pairs[..n] + [pairs[n]];
    }
  }

  /** A gate accepts its data exactly when the metadata of the runs and of every compared measurement
      agree and all compared timings are positive numbers. */
  lemma AcceptsExactly(rule: Rule, current: Payload, baseline: Payload, metrics: seq<string>, slack: real)
    ensures Outcome(rule, current, baseline, metrics, slack).Ok? <==>
            && HeadersAgree(rule, current.header, baseline.header)
            && forall p :: p in Compared(current.measurements, baseline.measurements) ==>
                             ItemsAgree(rule, p) && Timed(p, metrics)
  {
    var pairs := Compared(current.measurements, baseline.measurements);
    AllAccepted(rule, pairs, metrics, Scales(rule, pairs, metrics), slack);
  }

  /** Which error a disagreeing header raises: the first field that differs, in the order benchmark,
      suite, threads, then the other metadata. */
  lemma HeaderErrors(rule: Rule, current: Payload, baseline: Payload, metrics: seq<string>, slack: real)
    ensures var a, b := current.header, baseline.header;
            var r := Outcome(rule, current, baseline, metrics, slack);
            && (a.benchmark != b.benchmark ==> r == Failed(BenchmarkDiffers))
            && (a.benchmark == b.benchmark && a.suite != b.suite ==> r == Failed(SuiteDiffers))
            && (a.benchmark == b.benchmark && a.suite == b.suite && rule == Cpu && a.threads != b.threads ==>
                  r == Failed(ThreadsDiffer))
            && (HeadersAgree(rule, a, b.(dtype := a.dtype, backend := a.backend, device := a.device))
                && !HeadersAgree(rule, a, b) ==>
                  r == Failed(MetadataDiffers))
  {
  }

  /** The error of one measurement: its category first, then its other metadata, then the first
      metric whose timings cannot be compared. */
  ghost predicate Blames(rule: Rule, p: Pair, metrics: seq<string>, e: Error) {
    var name := p.current.name;
    if p.current.category != p.baseline.category then e == CategoryDiffers(name)
    else if !ItemsAgree(rule, p) then e == IdentityDiffers(name)
    else exists k :: 0 <= k < |metrics| && Timed(p, metrics[..k]) && BlamesTiming(p, metrics[k], e)
  }

  predicate BlamesTiming(p: Pair, metric: string, e: Error) {
    var a, b, name := TimingOf(p.current, metric), TimingOf(p.baseline, metric), p.current.name;
    || (e == TimingNotNumeric(name) && a == NotNumeric)
    || (e == BaselineNotNumeric(name) && a != NotNumeric && b == NotNumeric)
    || (e == TimingNotFinite(name) && a != NotNumeric && b != NotNumeric && (a == NotFinite || b == NotFinite))
    || (e == TimingNotPositive(name) && a.Seconds? && b.Seconds? && (a.value <= 0.0 || b.value <= 0.0))
  }

  lemma {:induction false} ItemBlamed(p: Pair, metrics: seq<string>, scales: map<string, real>,
                                      slack: real) returns (k: nat)
    requires Named(metrics, scales) && CheckItem(p, metrics, scales, slack).Failed?
    ensures k < |metrics| && Timed(p, metrics[..k])
    ensures BlamesTiming(p, metrics[k], CheckItem(p, metrics, scales, slack).error)
  {
    var n := |metrics| - 1;
    if CheckItem(p, metrics[..n], scales, slack).Failed? {
      k := ItemBlamed(p, metrics[..n], scales, slack);
      assert metrics[..n][..k] == metrics[..k];
    } else {
      k := n;
      ItemAccepted(p, metrics[..n], scales, slack);
    }
  }

  /** A refusal with agreeing headers blames the first measurement, in the order compared, that cannot
      be gated. */
  lemma {:induction false} FirstBlamed(rule: Rule, pairs: seq<Pair>, metrics: seq<string>, scales: map<string, real>,
                                       slack: real)
    returns (k: nat)
    requires Named(metrics, scales) && CheckAll(rule, pairs, metrics, scales, slack).Failed?
    ensures k < |pairs| && forall i :: 0 <= i < k ==> ItemsAgree(rule, pairs[i]) && Timed(pairs[i], metrics)
    ensures Blames(rule, pairs[k], metrics, CheckAll(rule, pairs, metrics, scales, slack).error)
  {
    var n := |pairs| - 1;
    if CheckAll(rule, pairs[..n], metrics, scales, slack).Failed? {
      k := FirstBlamed(rule, pairs[..n], metrics, scales, slack);
    } else {
      k := n;
      AllAccepted(rule, pairs[..n], metrics, scales, slack);
      forall i | 0 <= i < n ensures ItemsAgree(rule, pairs[i]) && Timed(pairs[i], metrics) {
        assert pairs[i] in pairs[..n];
      }
      if ItemsAgree(rule, pairs[n]) {
        var m := ItemBlamed(pairs[n], metrics, scales, slack);
      }
    }
  }
}
