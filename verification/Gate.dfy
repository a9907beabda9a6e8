/**
 The performance gate: the run's overall shift is measured as the median ratio to the
 baseline, and only slowdowns beyond that shift are reported.
 */
module Gate {
  import opened Text
  import opened Sums
  import opened Medians

  /** A timing as read: not a number (or missing), not finite, or a number of seconds. */
  datatype Timing = NotNumeric | NotFinite | Seconds(value: real)

  datatype Item = Item(name: string, category: string, shapes: string, extents: string, timings: map<string, Timing>)

  datatype Header = Header(
    benchmark: string, suite: string, threads: string, dtype: string, backend: string, device: string)

  datatype Payload = Payload(header: Header, measurements: seq<Item>)

  /** The two gates: the CPU gate takes the median shift as it is, the MPS gate never below 1. */
  datatype Rule = Cpu | Mps

  datatype Error =
    | BenchmarkDiffers | SuiteDiffers | ThreadsDiffer | MetadataDiffers
    | CategoryDiffers(name: string) | IdentityDiffers(name: string)
    | TimingNotNumeric(name: string) | BaselineNotNumeric(name: string)
    | TimingNotFinite(name: string) | TimingNotPositive(name: string)

  datatype Violation = Violation(name: string, metric: string)

  datatype Result<+T> = Ok(value: T) | Failed(error: Error)

  // ----- the measurements of both sides -----

  datatype Pair = Pair(current: Item, baseline: Item)

  predicate DistinctNames(items: seq<Item>) {
    forall i, j :: 0 <= i < j < |items| ==> items[i].name != items[j].name
  }

  function Lookup(items: seq<Item>, name: string): (r: Option<Item>)
    ensures r.Some? ==> r.value in items && r.value.name == name
    ensures r.None? <==> forall i :: 0 <= i < |items| ==> items[i].name != name
  {
    if items == [] then None
    else if items[|items| - 1].name == name then Some(items[|items| - 1])
    else Lookup(items[..|items| - 1], name)
  }

  /** The names on both sides, in the order of the current run. */
  function Compared(current: seq<Item>, baseline: seq<Item>): (r: seq<Pair>)
    ensures |r| <= |current|
  {
    if current == [] then []
    else
      var x := current[|current| - 1];
      var b := Lookup(baseline, x.name);
      Compared(current[..|current| - 1], baseline) + (if b.Some? then [Pair(x, b.value)] else [])
  }

  function TimingOf(x: Item, metric: string): (t: Timing) {
    if metric in x.timings then x.timings[metric] else NotNumeric
  }

  predicate IsPositive(t: Timing) {
    t.Seconds? && t.value > 0.0
  }

  function Ratio(p: Pair, metric: string): (r: Option<real>)
    ensures r.Some? <==> IsPositive(TimingOf(p.current, metric)) && IsPositive(TimingOf(p.baseline, metric))
    ensures r.Some? ==> r.value > 0.0
  {
    var a, b := TimingOf(p.current, metric), TimingOf(p.baseline, metric);
    if IsPositive(a) && IsPositive(b) then Some(a.value / b.value) else None
  }

  function Ratios(pairs: seq<Pair>, metric: string): (r: seq<real>)
    ensures forall i :: 0 <= i < |r| ==> r[i] > 0.0
  {
    if pairs == [] then []
    else
      var q := Ratio(pairs[|pairs| - 1], metric);
      Ratios(pairs[..|pairs| - 1], metric) + (if q.Some? then [q.value] else [])
  }

  function ScaleFrom(rule: Rule, ratios: seq<real>): (s: real) {
    if ratios == [] then 1.0
    else if rule.Cpu? || Median(ratios) > 1.0 then Median(ratios) else 1.0
  }

  function Scale(rule: Rule, pairs: seq<Pair>, metric: string): (s: real) {
    ScaleFrom(rule, Ratios(pairs, metric))
  }

  function Scales(rule: Rule, pairs: seq<Pair>, metrics: seq<string>): (m: map<string, real>)
    ensures forall k :: 0 <= k < |metrics| ==> metrics[k] in m && m[metrics[k]] == Scale(rule, pairs, metrics[k])
  {
    map metric | metric in metrics :: Scale(rule, pairs, metric)
  }

  // ----- the checks -----

  function HeaderError(rule: Rule, a: Header, b: Header): (e: Option<Error>) {
    if a.benchmark != b.benchmark then Some(BenchmarkDiffers)
    else if a.suite != b.suite then Some(SuiteDiffers)
    else if rule.Cpu? && a.threads != b.threads then Some(ThreadsDiffer)
    else if a.dtype != b.dtype then Some(MetadataDiffers)
    else if rule.Cpu? && a.backend != b.backend then Some(MetadataDiffers)
    else if rule.Mps? && a.device != b.device then Some(MetadataDiffers)
    else None
  }

  function ItemError(rule: Rule, p: Pair): (e: Option<Error>) {
    if p.current.category != p.baseline.category then Some(CategoryDiffers(p.current.name))
    else if p.current.shapes != p.baseline.shapes then Some(IdentityDiffers(p.current.name))
    else if rule.Cpu? && p.current.extents != p.baseline.extents then Some(IdentityDiffers(p.current.name))
    else None
  }

  function TimingError(p: Pair, metric: string): (e: Option<Error>)
    ensures e.None? <==> Ratio(p, metric).Some?
  {
    var a, b, name := TimingOf(p.current, metric), TimingOf(p.baseline, metric), p.current.name;
    if a.NotNumeric? then Some(TimingNotNumeric(name))
    else if b.NotNumeric? then Some(BaselineNotNumeric(name))
    else if a.NotFinite? || b.NotFinite? then Some(TimingNotFinite(name))
    else if a.value <= 0.0 || b.value <= 0.0 then Some(TimingNotPositive(name))
    else None
  }

  /** Baselines under ten microseconds sit at the timing floor and are not gated. */
  predicate AboveFloor(t: Timing) {
    t.Seconds? && t.value >= 0.00001
  }

  predicate Flagged(p: Pair, metric: string, scale: real, slack: real) {
    Ratio(p, metric).Some? && AboveFloor(TimingOf(p.baseline, metric))
    && Ratio(p, metric).value > Times(scale, 1.0 + slack)
  }

  function Reported(p: Pair, metric: string, scale: real, slack: real): (v: seq<Violation>) {
    if Flagged(p, metric, scale, slack) then [Violation(p.current.name, metric)] else []
  }

  /** What the gate reports for one measurement. */
  function CheckItem(p: Pair, metrics: seq<string>, scales: map<string, real>, slack: real): (r: Result<seq<Violation>>)
    requires forall k :: 0 <= k < |metrics| ==> metrics[k] in scales
  {
    if metrics == [] then Ok([])
    else
      var before := CheckItem(p, metrics[..|metrics| - 1], scales, slack);
      var metric := metrics[|metrics| - 1];
      if before.Failed? then before
      else if TimingError(p, metric).Some? then Failed(TimingError(p, metric).value)
      else Ok(before.value + Reported(p, metric, scales[metric], slack))
  }

  /** What the gate reports for all of them, in order, up to the first error. */
  function CheckAll(rule: Rule, pairs: seq<Pair>, metrics: seq<string>, scales: map<string, real>,
                    slack: real): (r: Result<seq<Violation>>)
    requires forall k :: 0 <= k < |metrics| ==> metrics[k] in scales
  {
    if pairs == [] then Ok([])
    else
      var before := CheckAll(rule, pairs[..|pairs| - 1], metrics, scales, slack);
      var p := pairs[|pairs| - 1];
      if before.Failed? then before
      else if ItemError(rule, p).Some? then Failed(ItemError(rule, p).value)
      else
        var here := CheckItem(p, metrics, scales, slack);
        if here.Failed? then here else Ok(before.value + here.value)
  }

  function Outcome(rule: Rule, current: Payload, baseline: Payload, metrics: seq<string>,
                   slack: real): (r: Result<seq<Violation>>) {
    if HeaderError(rule, current.header, baseline.header).Some? then
      Failed(HeaderError(rule, current.header, baseline.header).value)
    else
      var pairs := Compared(current.measurements, baseline.measurements);
      CheckAll(rule, pairs, metrics, Scales(rule, pairs, metrics), slack)
  }

  // ----- the loops -----

  method CollectPairs(current: seq<Item>, baseline: seq<Item>) returns (pairs: seq<Pair>)
    ensures pairs == Compared(current, baseline)
  {
    pairs := [];
    for k := 0 to |current|
      invariant pairs == Compared(current[..k], baseline)
    {
      assert current[..k + 1][..k] == current[..k];
      var b := Lookup(baseline, current[k].name);
      if b.Some? { pairs := pairs + [Pair(current[k], b.value)]; }
    }
    assert current[..|current|] == current;
  }

  method MeasureScale(rule: Rule, pairs: seq<Pair>, metric: string) returns (scale: real)
    ensures scale == Scale(rule, pairs, metric)
  {
    var ratios: seq<real> := [];
    for k := 0 to |pairs|
      invariant ratios == Ratios(pairs[..k], metric)
    {
      assert pairs[..k + 1][..k] == pairs[..k];
      var q := Ratio(pairs[k], metric);
      if q.Some? { ratios := ratios + [q.value]; }
    }
    assert pairs[..|pairs|] == pairs;
    scale := ScaleFrom(rule, ratios);
  }

  method MeasureScales(rule: Rule, pairs: seq<Pair>, metrics: seq<string>) returns (scales: map<string, real>)
    ensures scales == Scales(rule, pairs, metrics)
  {
    scales := map[];
    for k := 0 to |metrics|
      invariant forall name :: name in scales <==> name in metrics[..k]
      invariant forall name :: name in scales ==> scales[name] == Scale(rule, pairs, name)
    {
      assert metrics[..k + 1] == metrics[..k] + [metrics[k]];
      var s := MeasureScale(rule, pairs, metrics[k]);
      scales := scales[metrics[k] := s];
    }
    assert metrics[..|metrics|] == metrics;
  }

  method GateItem(p: Pair, metrics: seq<string>, scales: map<string, real>, slack: real)
    returns (r: Result<seq<Violation>>)
    requires forall k :: 0 <= k < |metrics| ==> metrics[k] in scales
    ensures r == CheckItem(p, metrics, scales, slack)
  {
    var found: seq<Violation> := [];
    for k := 0 to |metrics|
      invariant CheckItem(p, metrics[..k], scales, slack) == Ok(found)
    {
      assert metrics[..k + 1][..k] == metrics[..k];
      var e := TimingError(p, metrics[k]);
      if e.Some? {
        ItemFails(p, metrics, scales, slack, k + 1);
        return Failed(e.value);
      }
      if Flagged(p, metrics[k], scales[metrics[k]], slack) {
        found := found + [Violation(p.current.name, metrics[k])];
      } else {
        assert found + [] == found;
      }
    }
    assert metrics[..|metrics|] == metrics;
    r := Ok(found);
  }

  lemma {:induction false} ItemFails(p: Pair, metrics: seq<string>, scales: map<string, real>, slack: real, k: nat)
    requires (forall i :: 0 <= i < |metrics| ==> metrics[i] in scales) && k <= |metrics|
    requires CheckItem(p, metrics[..k], scales, slack).Failed?
    ensures CheckItem(p, metrics, scales, slack) == CheckItem(p, metrics[..k], scales, slack)
    decreases |metrics|
  {
    if k == |metrics| {
      assert metrics[..k] == metrics;
    } else {
      assert metrics[..|metrics| - 1][..k] == metrics[..k];
      ItemFails(p, metrics[..|metrics| - 1], scales, slack, k);
    }
  }

  lemma {:induction false} AllFails(rule: Rule, pairs: seq<Pair>, metrics: seq<string>, scales: map<string, real>,
                                    slack: real, k: nat)
    requires (forall i :: 0 <= i < |metrics| ==> metrics[i] in scales) && k <= |pairs|
    requires CheckAll(rule, pairs[..k], metrics, scales, slack).Failed?
    ensures CheckAll(rule, pairs, metrics, scales, slack) == CheckAll(rule, pairs[..k], metrics, scales, slack)
    decreases |pairs|
  {
    if k == |pairs| {
      assert pairs[..k] == pairs;
    } else {
      assert pairs[..|pairs| - 1][..k] == pairs[..k];
      AllFails(rule, pairs[..|pairs| - 1], metrics, scales, slack, k);
    }
  }

  lemma AllStep(rule: Rule, pairs: seq<Pair>, metrics: seq<string>, scales: map<string, real>, slack: real, k: nat,
                found: seq<Violation>)
    requires (forall i :: 0 <= i < |metrics| ==> metrics[i] in scales) && k < |pairs|
    requires CheckAll(rule, pairs[..k], metrics, scales, slack) == Ok(found)
    ensures CheckAll(rule, pairs[..k + 1], metrics, scales, slack) ==
            var e, here := ItemError(rule, pairs[k]), CheckItem(pairs[k], metrics, scales, slack);
            if e.Some? then Failed(e.value) else if here.Failed? then here else Ok(found + here.value)
  {
    assert pairs[..k + 1][..k] == pairs[..k];
  }

  method GateAll(rule: Rule, pairs: seq<Pair>, metrics: seq<string>, scales: map<string, real>, slack: real)
    returns (r: Result<seq<Violation>>)
    requires forall k :: 0 <= k < |metrics| ==> metrics[k] in scales
    ensures r == CheckAll(rule, pairs, metrics, scales, slack)
  {
    var found: seq<Violation> := [];
    for k := 0 to |pairs|
      invariant CheckAll(rule, pairs[..k], metrics, scales, slack) == Ok(found)
    {
      AllStep(rule, pairs, metrics, scales, slack, k, found);
      var e := ItemError(rule, pairs[k]);
      if e.Some? {
        AllFails(rule, pairs, metrics, scales, slack, k + 1);
        return Failed(e.value);
      }
      var here := GateItem(pairs[k], metrics, scales, slack);
      if here.Failed? {
        AllFails(rule, pairs, metrics, scales, slack, k + 1);
        return here;
      }
      found := found + here.value;
    }
    assert pairs[..|pairs|] == pairs;
    r := Ok(found);
  }

  /** The comparison of a run with a baseline. Names are distinct in a loaded run. */
  method Compare(rule: Rule, current: Payload, baseline: Payload, metrics: seq<string>, slack: real)
    returns (r: Result<seq<Violation>>)
    requires DistinctNames(current.measurements) && DistinctNames(baseline.measurements)
    ensures r == Outcome(rule, current, baseline, metrics, slack)
  {
    var e := HeaderError(rule, current.header, baseline.header);
    if e.Some? { return Failed(e.value); }
    var pairs := CollectPairs(current.measurements, baseline.measurements);
    var scales := MeasureScales(rule, pairs, metrics);
    r := GateAll(rule, pairs, metrics, scales, slack);
  }
}
