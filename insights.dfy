/** The insights panel: the latest week-over-week delta, the drill-down
    chain of units, the recommendation list and the strongest anomalies. */
module Insights {
  import opened Wrappers
  import opened Values
  import Units
  import Series
  import Text

  // ---------------------------------------------------------------------------
  // Latest delta

  /** `getLatestDelta`: the last value minus the one before it, 0 when there
      are fewer than two values. */
  function GetLatestDelta(values: seq<real>): (r: real)
    ensures |values| <= 1 ==> r == 0.0
    ensures |values| >= 2 ==> r + values[|values| - 2] == values[|values| - 1]
  {
    var lastIndex := |values| - 1;
    if lastIndex <= 0 then 0.0 else values[lastIndex] - values[lastIndex - 1]
  }

  /** The delta reads only the last two values, and the summary calls the
      trend rising exactly when the last value is not below the one before. */
  lemma LatestDeltaSpec(values: seq<real>, earlier: seq<real>)
    ensures |values| >= 2 ==> GetLatestDelta(earlier + values) == GetLatestDelta(values)
    ensures GetLatestDelta(values) >= 0.0 <==> |values| <= 1 || values[|values| - 1] >= values[|values| - 2]
  {
    if |values| >= 2 {
      var s := earlier + values;
      assert s[|s| - 1] == values[|values| - 1] && s[|s| - 2] == values[|values| - 2];
    }
  }

  // ---------------------------------------------------------------------------
  // Drill-down chain

  /** `unitNext`: the unit one level further down, if any. */
  function UnitNext(u: Units.MeasurementUnit): (r: Option<Units.MeasurementUnit>)
    ensures r != Some(Units.All) && r != Some(u)
    ensures r.None? <==> u == Units.Stadium || u == Units.Court
  {
    match u
    case All => Some(Units.AreaGroup)
    case AreaGroup => Some(Units.Area)
    case Area => Some(Units.StadiumGroup)
    case StadiumGroup => Some(Units.Stadium)
    case Stadium => None
    case RegionGroup => Some(Units.Region)
    case Region => Some(Units.Stadium)
    case Court => None
  }

  /** How many drill steps remain below a unit. */
  function Depth(u: Units.MeasurementUnit): (d: nat)
    ensures d <= 4
    ensures d == 0 <==> UnitNext(u).None?
  {
    match u
    case All => 4
    case AreaGroup => 3
    case Area => 2
    case StadiumGroup => 1
    case Stadium => 0
    case RegionGroup => 2
    case Region => 1
    case Court => 0
  }

  /** Each drill step lowers the depth by one. */
  lemma DepthStep(u: Units.MeasurementUnit)
    ensures UnitNext(u).Some? ==> Depth(UnitNext(u).value) == Depth(u) - 1
  {
  }

  /** The units reached from `u` by following `unitNext` until it is null. */
  function Chain(u: Units.MeasurementUnit): (r: seq<Units.MeasurementUnit>)
    ensures |r| == Depth(u) + 1 && r[0] == u
    ensures UnitNext(r[|r| - 1]).None?
    ensures forall i :: 0 <= i < |r| ==> Depth(r[i]) == Depth(u) - i
    decreases Depth(u)
  {
    match UnitNext(u)
    case None => [u]
    case Some(v) =>
      DepthStep(u);
      var rest := Chain(v);
      assert forall i :: 1 <= i < |rest| + 1 ==> ([u] + rest)[i] == rest[i - 1];
      [u] + rest
  }

  /** Following `unitNext` from any unit reaches null after at most four
      steps and never visits a unit twice; it never leads back to "all". */
  lemma ChainSpec(u: Units.MeasurementUnit)
    ensures |Chain(u)| <= 5
    ensures forall i, j :: 0 <= i < j < |Chain(u)| ==> Chain(u)[i] != Chain(u)[j]
    ensures forall i :: 1 <= i < |Chain(u)| ==> Chain(u)[i] != Units.All
  {
    var c := Chain(u);
    forall i, j | 0 <= i < j < |c| ensures c[i] != c[j] {
      assert Depth(c[i]) != Depth(c[j]);
    }
    forall i | 1 <= i < |c| ensures c[i] != Units.All {
      assert Depth(c[i]) < Depth(u);
    }
  }

  // ---------------------------------------------------------------------------
  // Anomaly details

  /** One flagged point: the metric, the week label at its index (absent
      past the end of `weeks`), its score and its value (0 when absent). */
  datatype Detail = Detail(metric: Series.Metric, week: Option<string>, score: real, value: real)

  function At<T>(s: seq<T>, i: nat): Option<T> {
    if i < |s| then Some(s[i]) else None
  }

  /** The threshold a score must reach in absolute value. */
  const Threshold: real := 2.0

  /** At most this many details are kept. */
  const MaxDetails: nat := 3

  /** The detail the source builds for score index `j` of a metric. */
  function PointOf(m: Series.Metric, weeks: seq<string>, values: seq<real>, scores: seq<real>, j: nat): Detail
    requires j < |scores|
  {
    Detail(m, At(weeks, j), scores[j], At(values, j).GetOr(0.0))
  }

  /** The `map` of one metric's scores to details, from score index `i` on. */
  function Points(m: Series.Metric, weeks: seq<string>, values: seq<real>, scores: seq<real>, i: nat)
    : seq<Detail>
  {
    if i >= |scores| then []
    else seq(|scores| - i, k requires 0 <= k < |scores| - i => PointOf(m, weeks, values, scores, i + k))
  }

  lemma PointsCons(m: Series.Metric, weeks: seq<string>, values: seq<real>, scores: seq<real>, i: nat)
    requires i < |scores|
    ensures Points(m, weeks, values, scores, i) == [PointOf(m, weeks, values, scores, i)] + Points(m, weeks, values, scores, i + 1)
  {
  }

  /** The flagged points of one metric, from score index `i` on: the `filter`
      of `Points`, which keeps their index order and multiplicity. */
  function MetricDetails(m: Series.Metric, weeks: seq<string>, values: seq<real>, scores: seq<real>, i: nat)
    : (r: seq<Detail>)
    ensures forall k :: 0 <= k < |r| ==> Abs(r[k].score) >= Threshold && r[k].metric == m
    ensures forall j :: i <= j < |scores| && Abs(scores[j]) >= Threshold ==> PointOf(m, weeks, values, scores, j) in r
    ensures |r| <= |scores| - i || (i > |scores| && r == [])
    decreases |scores| - i
  {
    if i >= |scores| then []
    else
      var rest := MetricDetails(m, weeks, values, scores, i + 1);
      if Abs(scores[i]) >= Threshold then [PointOf(m, weeks, values, scores, i)] + rest
      else rest
  }

  /** The flagged points are the `filter` of `Points`: in index order, each as
      often as among the points. */
  lemma {:induction false} MetricDetailsFilter(m: Series.Metric, weeks: seq<string>, values: seq<real>,
                                               scores: seq<real>, i: nat)
    ensures var r := MetricDetails(m, weeks, values, scores, i);
      && Text.IsSubsequence(r, Points(m, weeks, values, scores, i))
      && forall d :: multiset(r)[d] == if Abs(d.score) >= Threshold then multiset(Points(m, weeks, values, scores, i))[d] else 0
    decreases |scores| - i
  {
    if i < |scores| {
      var rest := MetricDetails(m, weeks, values, scores, i + 1);
      var p := PointOf(m, weeks, values, scores, i);
      MetricDetailsFilter(m, weeks, values, scores, i + 1);
      PointsCons(m, weeks, values, scores, i);
      if Abs(scores[i]) >= Threshold {
        assert ([p] + rest)[1..] == rest;
      }
    }
  }

  /** Every flagged point of a metric is the detail of one of its scores. */
  lemma {:induction false} MetricDetailsSound(m: Series.Metric, weeks: seq<string>, values: seq<real>,
                                              scores: seq<real>, i: nat, d: Detail)
    requires d in MetricDetails(m, weeks, values, scores, i)
    ensures exists j :: i <= j < |scores| && Abs(scores[j]) >= Threshold && d == PointOf(m, weeks, values, scores, j)
    decreases |scores| - i
  {
    if i < |scores| {
      var rest := MetricDetails(m, weeks, values, scores, i + 1);
      if d in rest {
        MetricDetailsSound(m, weeks, values, scores, i + 1, d);
      }
    }
  }

  /** The series of a metric, empty when the map has none. */
  function ValuesFor(series: map<string, seq<real>>, m: Series.Metric): seq<real> {
    if m.id in series then series[m.id] else []
  }

  function ScoresOf(series: map<string, seq<real>>, m: Series.Metric, zScores: seq<real> -> seq<real>): seq<real> {
    zScores(ValuesFor(series, m))
  }

  /** `d` is the detail of the `j`-th score of metric `m`, and that score is
      flagged. */
  predicate Flagged(m: Series.Metric, weeks: seq<string>, series: map<string, seq<real>>,
                    zScores: seq<real> -> seq<real>, j: int, d: Detail) {
    var scores := ScoresOf(series, m, zScores);
    0 <= j < |scores| && Abs(scores[j]) >= Threshold && d == PointOf(m, weeks, ValuesFor(series, m), scores, j)
  }

  /** The `flatMap` over the metrics before the `filter`: every scored point
      of every metric, metric by metric, each in index order. */
  function AllPoints(metrics: seq<Series.Metric>, weeks: seq<string>, series: map<string, seq<real>>,
                     zScores: seq<real> -> seq<real>): seq<Detail>
  {
    if metrics == [] then []
    else
      var m := metrics[0];
      Points(m, weeks, ValuesFor(series, m), ScoresOf(series, m, zScores), 0)
        + AllPoints(metrics[1..], weeks, series, zScores)
  }

  /** The `flatMap` over the metrics: each metric's series (empty when the
      series map has none) scored by `zScores`, kept where the score is
      at least the threshold in absolute value. */
  function Candidates(metrics: seq<Series.Metric>, weeks: seq<string>, series: map<string, seq<real>>,
                      zScores: seq<real> -> seq<real>): (r: seq<Detail>)
    ensures forall k :: 0 <= k < |r| ==> Abs(r[k].score) >= Threshold && r[k].metric in metrics
    ensures forall k, j, d :: 0 <= k < |metrics| && Flagged(metrics[k], weeks, series, zScores, j, d) ==> d in r
  {
    if metrics == [] then []
    else
      var m := metrics[0];
      var values := ValuesFor(series, m);
      var rest := Candidates(metrics[1..], weeks, series, zScores);
      var own := MetricDetails(m, weeks, values, zScores(values), 0);
      assert forall k :: 0 <= k < |rest| ==> rest[k].metric in metrics by {
        forall k | 0 <= k < |rest| ensures rest[k].metric in metrics {
          var j :| 0 <= j < |metrics[1..]| && metrics[1..][j] == rest[k].metric;
          assert metrics[j + 1] == rest[k].metric;
        }
      }
      assert forall k :: 1 <= k < |metrics| ==> metrics[k] == metrics[1..][k - 1];
      own + rest
  }

  /** The candidates are the `filter` of `AllPoints`: metric by metric, each
      metric's points in index order, each as often as among the points. */
  lemma {:induction false} CandidatesFilter(metrics: seq<Series.Metric>, weeks: seq<string>,
                                            series: map<string, seq<real>>, zScores: seq<real> -> seq<real>)
    ensures var r := Candidates(metrics, weeks, series, zScores);
      && Text.IsSubsequence(r, AllPoints(metrics, weeks, series, zScores))
      && forall d :: multiset(r)[d] == if Abs(d.score) >= Threshold then multiset(AllPoints(metrics, weeks, series, zScores))[d] else 0
  {
    if metrics != [] {
      var m := metrics[0];
      var values := ValuesFor(series, m);
      var own := MetricDetails(m, weeks, values, zScores(values), 0);
      var rest := Candidates(metrics[1..], weeks, series, zScores);
      var pts := Points(m, weeks, values, zScores(values), 0);
      var more := AllPoints(metrics[1..], weeks, series, zScores);
      assert Candidates(metrics, weeks, series, zScores) == own + rest;
      assert AllPoints(metrics, weeks, series, zScores) == pts + more;
      MetricDetailsFilter(m, weeks, values, zScores(values), 0);
      CandidatesFilter(metrics[1..], weeks, series, zScores);
      Text.SubsequenceConcat(own, pts, rest, more);
    }
  }

  /** Every candidate is the detail of a flagged score of one of the metrics. */
  lemma {:induction false} CandidatesSound(metrics: seq<Series.Metric>, weeks: seq<string>,
                                           series: map<string, seq<real>>, zScores: seq<real> -> seq<real>, d: Detail)
    requires d in Candidates(metrics, weeks, series, zScores)
    ensures exists k, j :: 0 <= k < |metrics| && Flagged(metrics[k], weeks, series, zScores, j, d)
  {
    var m := metrics[0];
    var own := MetricDetails(m, weeks, ValuesFor(series, m), ScoresOf(series, m, zScores), 0);
    var rest := Candidates(metrics[1..], weeks, series, zScores);
    assert Candidates(metrics, weeks, series, zScores) == own + rest;
    if d in own {
      MetricDetailsSound(m, weeks, ValuesFor(series, m), ScoresOf(series, m, zScores), 0, d);
      var j :| 0 <= j < |ScoresOf(series, m, zScores)| && Abs(ScoresOf(series, m, zScores)[j]) >= Threshold &&
        d == PointOf(m, weeks, ValuesFor(series, m), ScoresOf(series, m, zScores), j);
      assert Flagged(metrics[0], weeks, series, zScores, j, d);
    } else {
      CandidatesSound(metrics[1..], weeks, series, zScores, d);
      var k, j :| 0 <= k < |metrics[1..]| && Flagged(metrics[1..][k], weeks, series, zScores, j, d);
      assert metrics[k + 1] == metrics[1..][k];
    }
  }

  /** The absolute score the sort compares. */
  function Strength(d: Detail): real {
    Abs(d.score)
  }

  /** Larger absolute scores first. */
  predicate ScoreSorted(s: seq<Detail>) {
    forall i, j :: 0 <= i < j < |s| ==> Strength(s[i]) >= Strength(s[j])
  }

  /** Insert `x` after every element of larger absolute score and before the
      rest, which keeps equal scores in their original order. */
  function InsertDetail(x: Detail, s: seq<Detail>): (r: seq<Detail>)
    requires ScoreSorted(s)
    ensures ScoreSorted(r)
    ensures multiset(r) == multiset(s) + multiset{x}
  {
    if s == [] then [x]
    else if Strength(s[0]) > Strength(x) then
      var t := InsertDetail(x, s[1..]);
      InsertDetailBehind(x, s, t);
      [s[0]] + t
    else
      InsertDetailFront(x, s);
      [x] + s
  }

  lemma InsertDetailFront(x: Detail, s: seq<Detail>)
    requires ScoreSorted(s) && s != [] && Strength(x) >= Strength(s[0])
    ensures ScoreSorted([x] + s)
    ensures multiset([x] + s) == multiset(s) + multiset{x}
  {
    forall i, j | 0 <= i < j < |s| + 1 ensures Strength(([x] + s)[i]) >= Strength(([x] + s)[j]) {
      if i == 0 { assert ([x] + s)[j] == s[j - 1]; }
      else { assert ([x] + s)[i] == s[i - 1] && ([x] + s)[j] == s[j - 1]; }
    }
  }

  lemma InsertDetailBehind(x: Detail, s: seq<Detail>, t: seq<Detail>)
    requires ScoreSorted(s) && s != [] && Strength(s[0]) > Strength(x) && ScoreSorted(t)
    requires multiset(t) == multiset(s[1..]) + multiset{x}
    ensures ScoreSorted([s[0]] + t)
    ensures multiset([s[0]] + t) == multiset(s) + multiset{x}
  {
    assert s == [s[0]] + s[1..];
    forall k | 0 <= k < |t| ensures Strength(s[0]) >= Strength(t[k]) {
      assert t[k] in multiset(t);
      if t[k] != x {
        assert t[k] in s[1..];
        var j :| 0 <= j < |s[1..]| && s[1..][j] == t[k];
        assert s[1 + j] == t[k];
      }
    }
    forall i, j | 0 <= i < j < |t| + 1 ensures Strength(([s[0]] + t)[i]) >= Strength(([s[0]] + t)[j]) {
      if i == 0 { assert ([s[0]] + t)[j] == t[j - 1]; }
      else { assert ([s[0]] + t)[i] == t[i - 1] && ([s[0]] + t)[j] == t[j - 1]; }
    }
  }

  /** `sort((a, b) => |b.score| - |a.score|)`: a stable sort by absolute
      score, largest first. */
  function SortByScore(xs: seq<Detail>): (r: seq<Detail>)
    ensures ScoreSorted(r)
    ensures multiset(r) == multiset(xs)
  {
    if xs == [] then []
    else
      assert xs == [xs[0]] + xs[1..];
      InsertDetail(xs[0], SortByScore(xs[1..]))
  }

  /** The elements of `s` whose absolute score is `v`, in order. */
  function OfStrength(s: seq<Detail>, v: real): seq<Detail> {
    if s == [] then []
    else if Strength(s[0]) == v then [s[0]] + OfStrength(s[1..], v)
    else OfStrength(s[1..], v)
  }

  lemma OfStrengthCons(x: Detail, s: seq<Detail>, v: real)
    ensures OfStrength([x] + s, v) == if Strength(x) == v then [x] + OfStrength(s, v) else OfStrength(s, v)
  {
    assert ([x] + s)[1..] == s;
  }

  /** Inserting `x` keeps, for every strength, the elements of that strength
      in the order `x` followed by `s`. */
  lemma {:induction false} InsertDetailStable(x: Detail, s: seq<Detail>, v: real)
    requires ScoreSorted(s)
    ensures OfStrength(InsertDetail(x, s), v) == OfStrength([x] + s, v)
  {
    if s != [] && Strength(s[0]) > Strength(x) {
      var t := InsertDetail(x, s[1..]);
      InsertDetailStable(x, s[1..], v);
      OfStrengthCons(s[0], t, v);
      OfStrengthCons(x, s[1..], v);
      OfStrengthCons(x, s, v);
      assert s == [s[0]] + s[1..];
      OfStrengthCons(s[0], s[1..], v);
    }
  }

  /** The sort is stable: elements of equal absolute score keep their input
      order, which decides the ties at the cut of three. */
  lemma {:induction false} SortByScoreStable(xs: seq<Detail>, v: real)
    ensures OfStrength(SortByScore(xs), v) == OfStrength(xs, v)
  {
    if xs != [] {
      var t := SortByScore(xs[1..]);
      SortByScoreStable(xs[1..], v);
      InsertDetailStable(xs[0], t, v);
      OfStrengthCons(xs[0], t, v);
      assert xs == [xs[0]] + xs[1..];
      OfStrengthCons(xs[0], xs[1..], v);
    }
  }

  /** `anomalyDetails`: the three strongest candidates. */
  function AnomalyDetails(metrics: seq<Series.Metric>, weeks: seq<string>, series: map<string, seq<real>>,
                          zScores: seq<real> -> seq<real>): (r: seq<Detail>)
    ensures |r| <= MaxDetails
    ensures ScoreSorted(r)
    ensures multiset(r) <= multiset(Candidates(metrics, weeks, series, zScores))
  {
    var sorted := SortByScore(Candidates(metrics, weeks, series, zScores));
    PrefixSorted(sorted, MaxDetails);
    PrefixMultiset(sorted, MaxDetails);
    Text.Take(sorted, MaxDetails)
  }

  /** A prefix takes no element more often than the whole has it. */
  lemma PrefixMultiset(s: seq<Detail>, n: nat)
    ensures multiset(Text.Take(s, n)) <= multiset(s)
  {
    var r := Text.Take(s, n);
    assert s == r + s[|r|..];
    assert multiset(s) == multiset(r) + multiset(s[|r|..]);
  }

  /** The first `n` of a sorted list are sorted. */
  lemma PrefixSorted(s: seq<Detail>, n: nat)
    requires ScoreSorted(s)
    ensures ScoreSorted(Text.Take(s, n))
  {
    var r := Text.Take(s, n);
    forall i, j | 0 <= i < j < |r| ensures Strength(r[i]) >= Strength(r[j]) {
      assert r[i] == s[i] && r[j] == s[j];
    }
  }

  /** At most three details, each of absolute score at least 2, strongest
      first, each a candidate; there are fewer than three only when there
      are fewer candidates. */
  lemma AnomalyDetailsSpec(metrics: seq<Series.Metric>, weeks: seq<string>, series: map<string, seq<real>>,
                           zScores: seq<real> -> seq<real>)
    ensures var r := AnomalyDetails(metrics, weeks, series, zScores);
      var cs := Candidates(metrics, weeks, series, zScores);
      && |r| == (if |cs| < MaxDetails then |cs| else MaxDetails)
      && ScoreSorted(r)
      && (forall k :: 0 <= k < |r| ==> Strength(r[k]) >= Threshold && r[k].metric in metrics)
      && multiset(r) <= multiset(cs)
  {
    var cs := Candidates(metrics, weeks, series, zScores);
    var sorted := SortByScore(cs);
    assert |sorted| == |cs| by {
      assert |multiset(sorted)| == |multiset(cs)|;
    }
    PrefixMultiset(sorted, MaxDetails);
    PrefixSorted(sorted, MaxDetails);
    KeptAreCandidates(Text.Take(sorted, MaxDetails), cs, metrics);
  }

  /** Details drawn from the candidates share the candidates' bounds. */
  lemma KeptAreCandidates(r: seq<Detail>, cs: seq<Detail>, metrics: seq<Series.Metric>)
    requires multiset(r) <= multiset(cs)
    requires forall k :: 0 <= k < |cs| ==> Abs(cs[k].score) >= Threshold && cs[k].metric in metrics
    ensures forall k :: 0 <= k < |r| ==> Strength(r[k]) >= Threshold && r[k].metric in metrics
  {
    forall k | 0 <= k < |r| ensures Strength(r[k]) >= Threshold && r[k].metric in metrics {
      assert r[k] in multiset(r);
      assert r[k] in multiset(cs);
      var j :| 0 <= j < |cs| && cs[j] == r[k];
    }
  }

  /** No candidate left out is stronger than one kept. */
  lemma AnomalyDetailsStrongest(metrics: seq<Series.Metric>, weeks: seq<string>, series: map<string, seq<real>>,
                                zScores: seq<real> -> seq<real>, x: Detail)
    requires x in Candidates(metrics, weeks, series, zScores)
    requires x !in AnomalyDetails(metrics, weeks, series, zScores)
    ensures var r := AnomalyDetails(metrics, weeks, series, zScores);
      r != [] && Strength(x) <= Strength(r[|r| - 1])
  {
    var cs := Candidates(metrics, weeks, series, zScores);
    var sorted := SortByScore(cs);
    var r := AnomalyDetails(metrics, weeks, series, zScores);
    assert x in multiset(sorted);
    var j :| 0 <= j < |sorted| && sorted[j] == x;
    assert forall k :: 0 <= k < |r| ==> r[k] == sorted[k];
    assert j >= |r|;
    assert r[|r| - 1] == sorted[|r| - 1];
  }

  // ---------------------------------------------------------------------------
  // Recommendations

  datatype Recommendation = Recommendation(caption: string, nextUnit: Units.MeasurementUnit)

  /** The "see the next unit" recommendation. */
  function ViewNext(next: Units.MeasurementUnit): Recommendation {
    Recommendation(Units.UnitLabel(next) + " 보기", next)
  }

  /** The recommendation to look at the next unit by the strongest anomaly. */
  function CheckAnomaly(metricName: string, next: Units.MeasurementUnit): Recommendation {
    Recommendation(metricName + " 이상치 기준 " + Units.UnitLabel(next) + " 확인", next)
  }

  /** The recommendation to go back to the whole. */
  const BackToAll: Recommendation := Recommendation("전체로 돌아가기", Units.All)

  /** The `recommendations` list, built by `push` and `unshift`: the anomaly
      recommendation first (when there is an anomaly and a next unit), then
      the next unit, then the way back (below "all"). */
  method Recommendations(unit: Units.MeasurementUnit, details: seq<Detail>) returns (recs: seq<Recommendation>)
    ensures |recs| <= 3
    ensures |recs| == (if UnitNext(unit).Some? then 1 else 0) + (if UnitNext(unit).Some? && |details| > 0 then 1 else 0) +
                      (if unit != Units.All then 1 else 0)
    ensures UnitNext(unit).Some? && |details| > 0 ==>
      recs[0] == CheckAnomaly(details[0].metric.name, UnitNext(unit).value) && recs[1] == ViewNext(UnitNext(unit).value)
    ensures UnitNext(unit).Some? && |details| == 0 ==> recs[0] == ViewNext(UnitNext(unit).value)
    ensures (recs != [] && recs[|recs| - 1] == BackToAll) <==> unit != Units.All
    ensures UnitNext(unit).None? ==> recs == (if unit != Units.All then [BackToAll] else [])
    ensures forall k :: 0 <= k < |recs| ==> recs[k] == BackToAll || Some(recs[k].nextUnit) == UnitNext(unit)
  {
    recs := [];
    var nextUnit := UnitNext(unit);
    if nextUnit.Some? {
      recs := recs + [ViewNext(nextUnit.value)];
    }
    if |details| > 0 && nextUnit.Some? {
      var metricName := details[0].metric.name;
      recs := [CheckAnomaly(metricName, nextUnit.value)] + recs;
    }
    if unit != Units.All {
      recs := recs + [BackToAll];
    }
    NextIsNeverAll(unit);
  }

  /** The next unit is never "all", so no drill-down recommendation can be
      mistaken for the way back. */
  lemma NextIsNeverAll(u: Units.MeasurementUnit)
    ensures UnitNext(u) != Some(Units.All)
  {
  }
}
