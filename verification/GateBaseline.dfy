/**
 The MPS gate's baseline: history timings projected onto the current host's speed by the
 shift of a comparison runtime, and the raw median where that is not possible.
 */
module GateBaseline {
  import opened Text
  import opened Sums
  import opened Medians
  import opened Gate
  import opened GateTheorems

  /** The two suites of a history run; absent when missing or not a record. */
  datatype HistoryRun = HistoryRun(own: Option<Payload>, reference: Option<Payload>)

  /** The only metric of the MPS benchmark. */
  const SECONDS := "seconds"

  function Usable(t: Timing): (r: Option<real>)
    ensures r.Some? ==> r.value > 0.0
  {
    if IsPositive(t) then Some(t.value) else None
  }

  function FirstSeconds(items: seq<Item>, name: string): (r: Option<real>)
    ensures r.Some? ==> r.value > 0.0
  {
    if items == [] then None
    else if items[0].name == name then Usable(TimingOf(items[0], SECONDS))
    else FirstSeconds(items[1..], name)
  }

  function SecondsOf(p: Option<Payload>, name: string): (r: Option<real>)
    ensures r.Some? ==> r.value > 0.0
  {
    if p.None? then None else FirstSeconds(p.value.measurements, name)
  }

  method MeasurementSeconds(p: Option<Payload>, name: string) returns (r: Option<real>)
    ensures r == SecondsOf(p, name)
  {
    if p.None? { return None; }
    var items := p.value.measurements;
    for k := 0 to |items|
      invariant FirstSeconds(items[k..], name) == FirstSeconds(items, name)
    {
      if items[k].name == name { return Usable(TimingOf(items[k], SECONDS)); }
      assert items[k..][1..] == items[k + 1..];
    }
    r := None;
  }

  // ----- matching runs -----

  predicate Matches(h: Header, run: HistoryRun) {
    run.own.Some?
    && var g := run.own.value.header;
       g.benchmark == h.benchmark && g.suite == h.suite && g.dtype == h.dtype && g.device == h.device
  }

  function Matching(h: Header, runs: seq<HistoryRun>): (r: seq<HistoryRun>)
  {
    if runs == [] then []
    else Matching(h, runs[..|runs| - 1]) + (if Matches(h, runs[|runs| - 1]) then [runs[|runs| - 1]] else [])
  }

  method CollectMatching(h: Header, runs: seq<HistoryRun>) returns (matching: seq<HistoryRun>)
    ensures matching == Matching(h, runs)
  {
    matching := [];
    for k := 0 to |runs|
      invariant matching == Matching(h, runs[..k])
    {
      assert runs[..k + 1][..k] == runs[..k];
      if Matches(h, runs[k]) { matching := matching + [runs[k]]; }
    }
    assert runs[..|runs|] == runs;
  }

  // ----- values for one name -----

  /** A history timing on the current host's scale. */
  function Projected(before: real, now: real, prior: real): (r: real)
    requires prior > 0.0
  {
    Times(before, now) / prior
  }

  function CalibratedTime(run: HistoryRun, name: string, now: real): (r: seq<real>) {
    var before, prior := SecondsOf(run.own, name), SecondsOf(run.reference, name);
    if before.Some? && prior.Some? then [Projected(before.value, now, prior.value)] else []
  }

  function CalibratedTimes(matching: seq<HistoryRun>, name: string, now: real): (r: seq<real>) {
    if matching == [] then []
    else CalibratedTimes(matching[..|matching| - 1], name, now) + CalibratedTime(matching[|matching| - 1], name, now)
  }

  function RawTime(run: HistoryRun, name: string): (r: seq<real>)
    ensures forall i :: 0 <= i < |r| ==> r[i] > 0.0
  {
    var before := SecondsOf(run.own, name);
    if before.Some? then [before.value] else []
  }

  function RawTimes(matching: seq<HistoryRun>, name: string): (r: seq<real>)
    ensures forall i :: 0 <= i < |r| ==> r[i] > 0.0
  {
    if matching == [] then []
    else RawTimes(matching[..|matching| - 1], name) + RawTime(matching[|matching| - 1], name)
  }

  /** The current pass has a reference time for the name, and so has some run that timed it. */
  predicate IsCalibrated(matching: seq<HistoryRun>, name: string, reference: map<string, real>) {
    name in reference && reference[name] != 0.0 && CalibratedTimes(matching, name, reference[name]) != []
  }

  function Values(matching: seq<HistoryRun>, name: string, reference: map<string, real>): (r: seq<real>) {
    if IsCalibrated(matching, name, reference) then CalibratedTimes(matching, name, reference[name])
    else RawTimes(matching, name)
  }

  method CollectValues(matching: seq<HistoryRun>, name: string, reference: map<string, real>)
    returns (values: seq<real>)
    ensures values == Values(matching, name, reference)
  {
    values := [];
    if name in reference && reference[name] != 0.0 {
      var now := reference[name];
      for k := 0 to |matching|
        invariant values == CalibratedTimes(matching[..k], name, now)
      {
        assert matching[..k + 1][..k] == matching[..k];
        var before := MeasurementSeconds(matching[k].own, name);
        var prior := MeasurementSeconds(matching[k].reference, name);
        if before.Some? && prior.Some? {
          values := values + [Projected(before.value, now, prior.value)];
        } else {
          assert values + [] == values;
        }
      }
      assert matching[..|matching|] == matching;
    }
    if values == [] { values := CollectRaw(matching, name); }
  }

  method CollectRaw(matching: seq<HistoryRun>, name: string) returns (values: seq<real>)
    ensures values == RawTimes(matching, name)
  {
    values := [];
    for k := 0 to |matching|
      invariant values == RawTimes(matching[..k], name)
    {
      assert matching[..k + 1][..k] == matching[..k];
      var before := MeasurementSeconds(matching[k].own, name);
      if before.Some? {
        values := values + [before.value];
      } else {
        assert values + [] == values;
      }
    }
    assert matching[..|matching|] == matching;
  }

  function BaselineItem(x: Item, values: seq<real>): (r: Item) {
    if values == [] then x else x.(timings := x.timings[SECONDS := Seconds(Median(values))])
  }

  function ItemFor(x: Item, matching: seq<HistoryRun>, reference: map<string, real>): (r: Item) {
    BaselineItem(x, Values(matching, x.name, reference))
  }

  function BaselineItems(items: seq<Item>, matching: seq<HistoryRun>, reference: map<string, real>): (r: seq<Item>) {
    if items == [] then []
    else
      BaselineItems(items[..|items| - 1], matching, reference) + [ItemFor(items[|items| - 1], matching, reference)]
  }

  function Baseline(current: Payload, runs: seq<HistoryRun>, reference: map<string, real>): (r: Option<Payload>) {
    var matching := Matching(current.header, runs);
    if matching == [] then None
    else Some(current.(measurements := BaselineItems(current.measurements, matching, reference)))
  }

  method CollectItem(x: Item, matching: seq<HistoryRun>, reference: map<string, real>) returns (r: Item)
    ensures r == ItemFor(x, matching, reference)
  {
    var values := CollectValues(matching, x.name, reference);
    r := BaselineItem(x, values);
  }

  method CollectItems(current: seq<Item>, matching: seq<HistoryRun>, reference: map<string, real>)
    returns (items: seq<Item>)
    ensures items == BaselineItems(current, matching, reference)
  {
    items := [];
    for k := 0 to |current|
      invariant items == BaselineItems(current[..k], matching, reference)
    {
      assert current[..k + 1][..k] == current[..k];
      var item := CollectItem(current[k], matching, reference);
      items := items + [item];
    }
    assert current[..|current|] == current;
  }

  method MedianBaseline(current: Payload, runs: seq<HistoryRun>, reference: map<string, real>)
    returns (r: Option<Payload>)
    ensures r == Baseline(current, runs, reference)
  {
    var matching := CollectMatching(current.header, runs);
    if matching == [] { return None; }
    var items := CollectItems(current.measurements, matching, reference);
    r := Some(current.(measurements := items));
  }

  // ----- history runs from hosts of other speeds -----

  function PacedSuite(p: Option<Payload>, c: real): (r: Option<Payload>) {
    if p.None? then None else Some(PacedRun(p.value, c))
  }

  /** The same history run on a host that takes `c` times as long for everything. */
  function PacedHistory(run: HistoryRun, c: real): (r: HistoryRun) {
    HistoryRun(PacedSuite(run.own, c), PacedSuite(run.reference, c))
  }

  ghost predicate IsPaced(a: HistoryRun, b: HistoryRun) {
    exists c: real :: c > 0.0 && b == PacedHistory(a, c)
  }

  /** Each run of `bs` is the run of `as_` in its place, on a host of its own speed. */
  ghost predicate EachPaced(as_: seq<HistoryRun>, bs: seq<HistoryRun>) {
    |as_| == |bs| && forall i :: 0 <= i < |as_| ==> IsPaced(as_[i], bs[i])
  }

  lemma {:induction false} SecondsPaced(items: seq<Item>, name: string, c: real)
    requires c > 0.0
    ensures FirstSeconds(PacedItems(items, c), name)
         == if FirstSeconds(items, name).Some? then Some(Times(c, FirstSeconds(items, name).value)) else None
  {
    if items != [] {
      assert PacedItems(items, c)[1..] == PacedItems(items[1..], c);
      if items[0].name == name {
        assert TimingOf(PacedItem(items[0], c), SECONDS) == Paced(TimingOf(items[0], SECONDS), c);
        PositivePaced(TimingOf(items[0], SECONDS), c);
      } else {
        SecondsPaced(items[1..], name, c);
      }
    }
  }

  lemma SuitePaced(p: Option<Payload>, name: string, c: real)
    requires c > 0.0
    ensures SecondsOf(PacedSuite(p, c), name)
         == if SecondsOf(p, name).Some? then Some(Times(c, SecondsOf(p, name).value)) else None
  {
    if p.Some? { SecondsPaced(p.value.measurements, name, c); }
  }

  lemma PaceCancels(c: real, before: real, now: real, prior: real)
    requires c > 0.0 && prior > 0.0 && Times(c, prior) > 0.0
    ensures Projected(Times(c, before), now, Times(c, prior)) == Projected(before, now, prior)
  {
    var q := (before * now) / prior;
    assert before * now == q * prior;
    assert (c * before) * now == c * (before * now) == c * (q * prior) == q * (c * prior);
  }

  lemma TimePaced(a: HistoryRun, b: HistoryRun, name: string, now: real)
    requires IsPaced(a, b)
    ensures CalibratedTime(b, name, now) == CalibratedTime(a, name, now)
    ensures RawTime(b, name) == [] <==> RawTime(a, name) == []
  {
    var c: real :| c > 0.0 && b == PacedHistory(a, c);
    SuitePaced(a.own, name, c);
    SuitePaced(a.reference, name, c);
    var before, prior := SecondsOf(a.own, name), SecondsOf(a.reference, name);
    if before.Some? && prior.Some? { PaceCancels(c, before.value, now, prior.value); }
  }

  lemma {:induction false} TimesPaced(as_: seq<HistoryRun>, bs: seq<HistoryRun>, name: string, now: real)
    requires EachPaced(as_, bs)
    ensures CalibratedTimes(bs, name, now) == CalibratedTimes(as_, name, now)
    ensures RawTimes(bs, name) == [] <==> RawTimes(as_, name) == []
  {
    if as_ != [] {
      var n := |as_| - 1;
      TimesPaced(as_[..n], bs[..n], name, now);
      TimePaced(as_[n], bs[n], name, now);
    }
  }

  lemma MatchPaced(h: Header, a: HistoryRun, b: HistoryRun)
    requires IsPaced(a, b)
    ensures Matches(h, b) <==> Matches(h, a)
  {
  }

  lemma {:induction false} MatchingPaced(h: Header, as_: seq<HistoryRun>, bs: seq<HistoryRun>)
    requires EachPaced(as_, bs)
    ensures EachPaced(Matching(h, as_), Matching(h, bs))
  {
    if as_ != [] {
      var n := |as_| - 1;
      MatchingPaced(h, as_[..n], bs[..n]);
      MatchPaced(h, as_[n], bs[n]);
    }
  }

  /** Every measurement with any usable history can be calibrated. */
  predicate AllCalibrated(items: seq<Item>, matching: seq<HistoryRun>, reference: map<string, real>) {
    forall i :: 0 <= i < |items| ==>
      IsCalibrated(matching, items[i].name, reference) || RawTimes(matching, items[i].name) == []
  }

  /** A calibrated baseline does not depend on how fast the hosts of the history were, each run
      having its own speed. */
  lemma CalibratedIgnoresPace(current: Payload, as_: seq<HistoryRun>, bs: seq<HistoryRun>, reference: map<string, real>)
    requires EachPaced(as_, bs)
    requires AllCalibrated(current.measurements, Matching(current.header, as_), reference)
    ensures Baseline(current, bs, reference) == Baseline(current, as_, reference)
  {
    var a, b := Matching(current.header, as_), Matching(current.header, bs);
    MatchingPaced(current.header, as_, bs);
    forall i | 0 <= i < |current.measurements|
      ensures ItemFor(current.measurements[i], b, reference) == ItemFor(current.measurements[i], a, reference)
    {
      SameItem(current.measurements[i], a, b, reference);
    }
    SameItems(current.measurements, a, b, reference);
  }

  lemma SameItem(x: Item, a: seq<HistoryRun>, b: seq<HistoryRun>, reference: map<string, real>)
    requires EachPaced(a, b) && (IsCalibrated(a, x.name, reference) || RawTimes(a, x.name) == [])
    ensures ItemFor(x, b, reference) == ItemFor(x, a, reference)
  {
    TimesPaced(a, b, x.name, if x.name in reference then reference[x.name] else 0.0);
  }

  lemma {:induction false} SameItems(items: seq<Item>, a: seq<HistoryRun>, b: seq<HistoryRun>,
                                     reference: map<string, real>)
    requires forall i :: 0 <= i < |items| ==> ItemFor(items[i], b, reference) == ItemFor(items[i], a, reference)
    ensures BaselineItems(items, b, reference) == BaselineItems(items, a, reference)
  {
    if items != [] { SameItems(items[..|items| - 1], a, b, reference); }
  }

  // ----- where calibration is not possible -----

  function AllPaced(runs: seq<HistoryRun>, c: real): (r: seq<HistoryRun>)
    ensures |r| == |runs| && forall i :: 0 <= i < |runs| ==> r[i] == PacedHistory(runs[i], c)
  {
    seq(|runs|, i requires 0 <= i < |runs| => PacedHistory(runs[i], c))
  }

  lemma {:induction false} RawPaced(runs: seq<HistoryRun>, name: string, c: real)
    requires c > 0.0
    ensures RawTimes(AllPaced(runs, c), name) == Stretched(c, RawTimes(runs, name))
  {
    if runs != [] {
      var n := |runs| - 1;
      assert AllPaced(runs, c)[..n] == AllPaced(runs[..n], c);
      RawPaced(runs[..n], name, c);
      SuitePaced(runs[n].own, name, c);
    }
  }

  lemma OnlyOneFixes(c: real, m: real)
    requires m > 0.0
    ensures Times(c, m) == m <==> c == 1.0
  {
    if c != 1.0 { assert (c - 1.0) * m != 0.0; }
  }

  function Level(values: seq<real>): (r: Option<real>) {
    if values == [] then None else Some(Median(values))
  }

  /** When the whole history moves by one factor, a baseline value stays put exactly when it is
      calibrated, or has no history, or the factor is 1. */
  lemma SteadyExactly(matching: seq<HistoryRun>, name: string, reference: map<string, real>, c: real)
    requires c > 0.0
    ensures Level(Values(AllPaced(matching, c), name, reference)) == Level(Values(matching, name, reference))
       <==> c == 1.0 || IsCalibrated(matching, name, reference) || RawTimes(matching, name) == []
  {
    var paced := AllPaced(matching, c);
    assert EachPaced(matching, paced);
    TimesPaced(matching, paced, name, if name in reference then reference[name] else 0.0);
    if !IsCalibrated(matching, name, reference) && RawTimes(matching, name) != [] {
      var raw := RawTimes(matching, name);
      RawPaced(matching, name, c);
      MedianStretches(c, raw);
      MedianPositive(raw);
      OnlyOneFixes(c, Median(raw));
    }
  }

  // ----- the baseline, said on the history itself -----

  /** Measurement k is the first of the name, and its seconds are the positive number v. */
  predicate IsFirstTimed(items: seq<Item>, name: string, v: real, k: int) {
    0 <= k < |items| && items[k].name == name && (forall i :: 0 <= i < k ==> items[i].name != name)
    && TimingOf(items[k], SECONDS) == Seconds(v) && v > 0.0
  }

  /** The time found for a name is that of its first measurement, when that is a positive number. */
  lemma {:induction false} SecondsExactly(items: seq<Item>, name: string, v: real)
    ensures FirstSeconds(items, name) == Some(v) <==> exists k :: IsFirstTimed(items, name, v, k)
  {
    if items == [] {
    } else if items[0].name == name {
      if FirstSeconds(items, name) == Some(v) { assert IsFirstTimed(items, name, v, 0); }
    } else {
      SecondsExactly(items[1..], name, v);
      if k :| IsFirstTimed(items[1..], name, v, k) { FirstTimedShift(items, name, v, k + 1); }
      if k :| IsFirstTimed(items, name, v, k) { FirstTimedShift(items, name, v, k); }
    }
  }

  lemma FirstTimedShift(items: seq<Item>, name: string, v: real, k: int)
    requires items != [] && items[0].name != name
    ensures IsFirstTimed(items, name, v, k) <==> IsFirstTimed(items[1..], name, v, k - 1)
  {
    if IsFirstTimed(items[1..], name, v, k - 1) {
      forall i | 0 <= i < k ensures items[i].name != name {
        if i > 0 { assert items[1..][i - 1].name != name; }
      }
    }
  }

  /** The runs whose own suite has the current benchmark, suite, dtype and device. */
  lemma {:induction false} MatchingExactly(h: Header, runs: seq<HistoryRun>, run: HistoryRun)
    ensures run in Matching(h, runs) <==>
            run in runs && run.own.Some? && run.own.value.header.benchmark == h.benchmark
            && run.own.value.header.suite == h.suite && run.own.value.header.dtype == h.dtype
            && run.own.value.header.device == h.device
  {
    if runs != [] {
      var n := |runs| - 1;
      MatchingExactly(h, runs[..n], run);
      assert runs == runs[..n] + [runs[n]];
    }
  }

  /** Projection by a shift of 1 changes nothing, and the projected time grows with the current
      reference time and with the history time. */
  lemma ProjectedLaws(before: real, now: real, prior: real, c: real)
    requires prior > 0.0
    ensures Projected(before, prior, prior) == before
    ensures Projected(before, Times(c, now), prior) == Times(c, Projected(before, now, prior))
    ensures Projected(Times(c, before), now, prior) == Times(c, Projected(before, now, prior))
  {
    var q := Projected(before, now, prior);
    assert Times(q, prior) == Times(before, now);
    assert Times(before, Times(c, now)) == Times(Times(c, q), prior);
    assert Times(Times(c, before), now) == Times(Times(c, q), prior);
  }

  /** A calibrated value is a history time whose reference time, now and then, stands in the same
      proportion. */
  lemma {:induction false} CalibratedExactly(matching: seq<HistoryRun>, name: string, now: real, v: real)
    ensures v in CalibratedTimes(matching, name, now) <==>
            exists run :: run in matching && SecondsOf(run.own, name).Some? && SecondsOf(run.reference, name).Some?
              && Times(v, SecondsOf(run.reference, name).value) == Times(SecondsOf(run.own, name).value, now)
  {
    if matching != [] {
      var n := |matching| - 1;
      CalibratedExactly(matching[..n], name, now, v);
      OneCalibrated(matching[n], name, now, v);
      assert matching == matching[..n] + [matching[n]];
    }
  }

  lemma OneCalibrated(run: HistoryRun, name: string, now: real, v: real)
    ensures v in CalibratedTime(run, name, now) <==>
            SecondsOf(run.own, name).Some? && SecondsOf(run.reference, name).Some?
            && Times(v, SecondsOf(run.reference, name).value) == Times(SecondsOf(run.own, name).value, now)
  {
    var before, prior := SecondsOf(run.own, name), SecondsOf(run.reference, name);
    if before.Some? && prior.Some? { SameProportion(before.value, now, prior.value, v); }
  }

  lemma SameProportion(before: real, now: real, prior: real, v: real)
    requires prior > 0.0
    ensures v == Projected(before, now, prior) <==> Times(v, prior) == Times(before, now)
  {
    var q := Projected(before, now, prior);
    assert Times(q, prior) == Times(before, now);
    if Times(v, prior) == Times(q, prior) { assert (v - q) * prior == 0.0; }
  }

  lemma {:induction false} RawExactly(matching: seq<HistoryRun>, name: string, v: real)
    ensures v in RawTimes(matching, name) <==> exists run :: run in matching && SecondsOf(run.own, name) == Some(v)
  {
    if matching != [] {
      var n := |matching| - 1;
      RawExactly(matching[..n], name, v);
      assert matching == matching[..n] + [matching[n]];
    }
  }

  /** A name is calibrated exactly when the current pass has a reference time for it and some
      matching run has timed it in both its suites. */
  lemma {:induction false} CalibratedWhen(matching: seq<HistoryRun>, name: string, now: real)
    ensures CalibratedTimes(matching, name, now) != [] <==>
            exists run :: run in matching && SecondsOf(run.own, name).Some? && SecondsOf(run.reference, name).Some?
  {
    if matching != [] {
      var n := |matching| - 1;
      CalibratedWhen(matching[..n], name, now);
      assert matching == matching[..n] + [matching[n]];
    }
  }

  lemma BaselineSnoc(items: seq<Item>, x: Item, matching: seq<HistoryRun>, reference: map<string, real>)
    ensures BaselineItems(items + [x], matching, reference)
         == BaselineItems(items, matching, reference) + [ItemFor(x, matching, reference)]
  {
    assert (items + [x])[..|items|] == items;
  }

  lemma {:induction false} BaselineItemsCount(items: seq<Item>, matching: seq<HistoryRun>, reference: map<string, real>)
    ensures |BaselineItems(items, matching, reference)| == |items|
  {
    if items != [] { BaselineItemsCount(items[..|items| - 1], matching, reference); }
  }

  /** The baseline keeps the current measurements in order, each with its timings settled. */
  lemma {:induction false} BaselineInOrder(items: seq<Item>, matching: seq<HistoryRun>,
                                           reference: map<string, real>, i: nat)
    requires i < |items|
    ensures |BaselineItems(items, matching, reference)| == |items|
    ensures BaselineItems(items, matching, reference)[i] == ItemFor(items[i], matching, reference)
    decreases |items|
  {
    var before, x := items[..|items| - 1], items[|items| - 1];
    assert items == before + [x];
    BaselineSnoc(before, x, matching, reference);
    BaselineItemsCount(before, matching, reference);
    if i < |before| { BaselineInOrder(before, matching, reference, i); }
  }

  /** Settling replaces the seconds alone, by the median of the calibrated values, or else of the
      raw ones, and nothing when there are neither. */
  lemma SettledExactly(x: Item, matching: seq<HistoryRun>, reference: map<string, real>, metric: string,
                       calibrated: seq<real>, raw: seq<real>)
    requires calibrated == if x.name in reference && reference[x.name] != 0.0
                           then CalibratedTimes(matching, x.name, reference[x.name]) else []
    requires raw == RawTimes(matching, x.name)
    ensures ItemFor(x, matching, reference).name == x.name
    ensures TimingOf(ItemFor(x, matching, reference), metric)
         == if metric == "seconds" && calibrated != [] then Seconds(Median(calibrated))
            else if metric == "seconds" && raw != [] then Seconds(Median(raw))
            else TimingOf(x, metric)
  {
  }

  /** There is no baseline exactly when no run has the current header, and else it differs from the
      current run in its measurements alone. */
  lemma BaselineExactly(current: Payload, runs: seq<HistoryRun>, reference: map<string, real>)
    ensures Baseline(current, runs, reference).None? <==>
            forall run :: run in runs ==> run !in Matching(current.header, runs)
    ensures Baseline(current, runs, reference).Some? ==>
              Baseline(current, runs, reference).value.header == current.header
  {
    var matching := Matching(current.header, runs);
    if matching != [] { MatchingExactly(current.header, runs, matching[0]); }
  }
}
