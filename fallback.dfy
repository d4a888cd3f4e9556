/** getHeatmapFromBaseTable of app/lib/dataQueries.ts: when the weekly rollup
    view has no rows, the heatmap is rebuilt from the fact table by folding
    every (week, entity, metric) sample into a running max / sum / count and
    collapsing each group to its mean (rate metrics) or its maximum (count
    metrics). The store query itself (its column list and its `in`, `not null`
    and `eq` filters) is the input `data`. */
module Fallback {
  import opened Wrappers
  import opened Values
  import Text
  import Catalog

  /** A fact-table row as the fallback reads it: the week column, the unit's
      entity column, and the metric columns that came back (a column the row
      does not have is absent from `metrics`). */
  datatype BaseRow = BaseRow(week: Option<string>, entity: Option<string>, metrics: map<string, Cell>)

  /** The group a sample belongs to. */
  datatype Key = Key(week: string, entity: string, metric: string)

  /** One finite value folded into the accumulator. */
  datatype Sample = Sample(key: Key, value: real)

  datatype AggState = AggState(max: real, sum: real, count: nat)

  function Lookup(metrics: map<string, Cell>, metric: string): Option<Cell> {
    if metric in metrics then Some(metrics[metric]) else None
  }

  /** `Number(raw ?? NaN)`, kept only when finite: unlike the rollup path, a
      null or missing cell is skipped here rather than read as 0. */
  function SampleValue(raw: Option<Cell>): (r: Option<real>)
    ensures raw.None? || raw.value.Null? ==> r.None?
    ensures raw.Some? && raw.value.Number? && raw.value.n.Finite? ==> r == Some(raw.value.n.v)
    ensures raw.Some? && raw.value.Number? && !raw.value.n.Finite? ==> r.None?
    ensures raw.Some? && raw.value.Text? && Text.IsBlank(raw.value.s) ==> r == Some(0.0)
    ensures raw.Some? && raw.value.Text? && !Text.IsBlank(raw.value.s) ==>
      r == if raw.value.parsed.Finite? then Some(raw.value.parsed.v) else None
  {
    match raw
    case None => None
    case Some(c) =>
      if c.Null? then None
      else match ToNumber(c)
        case Finite(v) => Some(v)
        case _ => None
  }

  function RowWeek(row: BaseRow): string { Text.Trim(row.week.GetOr("")) }
  function RowEntity(row: BaseRow): string { Text.Trim(row.entity.GetOr("")) }

  // ---------------------------------------------------------------------------
  // Specification: the samples in the order the nested loops visit them

  /** The samples of one row for the metric ids `ids`, in the inner loop's order. */
  function MetricSamples(week: string, entity: string, metrics: map<string, Cell>, ids: seq<string>): seq<Sample>
  {
    if ids == [] then []
    else
      var m := ids[|ids| - 1];
      var p := MetricSamples(week, entity, metrics, ids[..|ids| - 1]);
      match SampleValue(Lookup(metrics, m))
      case Some(v) => p + [Sample(Key(week, entity, m), v)]
      case None => p
  }

  /** A row with a blank week or entity contributes nothing. */
  function RowSamples(row: BaseRow, ids: seq<string>): seq<Sample> {
    if RowWeek(row) == [] || RowEntity(row) == [] then []
    else MetricSamples(RowWeek(row), RowEntity(row), row.metrics, ids)
  }

  function Samples(rows: seq<BaseRow>, ids: seq<string>): seq<Sample> {
    if rows == [] then []
    else Samples(rows[..|rows| - 1], ids) + RowSamples(rows[|rows| - 1], ids)
  }

  /** The values folded into group `k`, in order. */
  function ValuesOf(samples: seq<Sample>, k: Key): seq<real> {
    if samples == [] then []
    else if samples[|samples| - 1].key == k then ValuesOf(samples[..|samples| - 1], k) + [samples[|samples| - 1].value]
    else ValuesOf(samples[..|samples| - 1], k)
  }

  /** The groups in the order a `Map` keeps its keys: by first sample. */
  function KeyOrder(samples: seq<Sample>): seq<Key> {
    if samples == [] then []
    else
      var p := KeyOrder(samples[..|samples| - 1]);
      if samples[|samples| - 1].key in p then p else p + [samples[|samples| - 1].key]
  }

  function MaxOf(xs: seq<real>): (r: real)
    requires xs != []
    ensures forall i :: 0 <= i < |xs| ==> xs[i] <= r
    ensures r in xs
  {
    if |xs| == 1 then xs[0]
    else
      var p := xs[..|xs| - 1];
      assert forall i :: 0 <= i < |p| ==> p[i] == xs[i];
      Max(MaxOf(p), xs[|xs| - 1])
  }

  function MinOf(xs: seq<real>): (r: real)
    requires xs != []
    ensures forall i :: 0 <= i < |xs| ==> r <= xs[i]
    ensures r in xs
  {
    if |xs| == 1 then xs[0]
    else
      var p := xs[..|xs| - 1];
      assert forall i :: 0 <= i < |p| ==> p[i] == xs[i];
      var m := MinOf(p);
      if xs[|xs| - 1] < m then xs[|xs| - 1] else m
  }

  function SumOf(xs: seq<real>): real {
    if xs == [] then 0.0 else SumOf(xs[..|xs| - 1]) + xs[|xs| - 1]
  }

  function Summary(xs: seq<real>): AggState
    requires xs != []
  {
    AggState(MaxOf(xs), SumOf(xs), |xs|)
  }

  /** The emitted value of a group: `sum / max(count, 1)` for a rate, `max` otherwise. */
  function Collapse(metric: string, st: AggState): real {
    if Catalog.IsRateMetric(metric) then st.sum / (if st.count < 1 then 1 else st.count) as real
    else st.max
  }

  function OutputRow(unit: Catalog.Unit, k: Key, value: real): Catalog.RollupRow {
    Catalog.RollupRow(Some(k.week), Some(Catalog.UnitId(unit)), Some(k.entity), Some(k.metric), Number(Finite(value)))
  }

  /** The groups listed are distinct and are exactly those with values. */
  lemma {:induction false} KeyOrderSpec(samples: seq<Sample>, k: Key)
    ensures Text.NoDups(KeyOrder(samples))
    ensures k in KeyOrder(samples) <==> ValuesOf(samples, k) != []
  {
    if samples != [] {
      var p := samples[..|samples| - 1];
      var x := samples[|samples| - 1];
      KeyOrderSpec(p, k);
      KeyOrderSpec(p, x.key);
    }
  }

  lemma KeyOrderHasValues(samples: seq<Sample>, k: Key)
    requires k in KeyOrder(samples)
    ensures ValuesOf(samples, k) != []
  {
    KeyOrderSpec(samples, k);
  }

  /** The rows the fallback returns, one per group, in first-sample order. */
  function FallbackRows(unit: Catalog.Unit, ids: seq<string>, data: seq<BaseRow>): (r: seq<Catalog.RollupRow>)
    ensures |r| == |KeyOrder(Samples(data, ids))|
    ensures forall i :: 0 <= i < |r| ==> r[i].measureUnit == Some(Catalog.UnitId(unit)) && r[i].value.Number?
  {
    var s := Samples(data, ids);
    var ks := KeyOrder(s);
    seq(|ks|, i requires 0 <= i < |ks| =>
      KeyOrderHasValues(s, ks[i]);
      OutputRow(unit, ks[i], Collapse(ks[i].metric, Summary(ValuesOf(s, ks[i])))))
  }

  // ---------------------------------------------------------------------------
  // The accumulator loop

  /** The accumulator `(order, acc)` is the fold of `samples`: its keys in
      insertion order are the groups by first sample, and each group's state
      summarises exactly that group's values. */
  ghost predicate Tracks(samples: seq<Sample>, order: seq<Key>, acc: map<Key, AggState>) {
    && order == KeyOrder(samples)
    && (forall k :: k in acc <==> k in order)
    && StatesTrack(samples, acc)
  }

  ghost predicate StatesTrack(samples: seq<Sample>, acc: map<Key, AggState>) {
    forall k :: k in acc ==> ValuesOf(samples, k) != [] && acc[k] == Summary(ValuesOf(samples, k))
  }

  lemma KeyOrderAppend(samples: seq<Sample>, x: Sample)
    ensures KeyOrder(samples + [x]) ==
      if x.key in KeyOrder(samples) then KeyOrder(samples) else KeyOrder(samples) + [x.key]
  {
    assert (samples + [x])[..|samples|] == samples;
  }

  lemma ValuesOfAppend(samples: seq<Sample>, x: Sample, k: Key)
    ensures ValuesOf(samples + [x], k) == if x.key == k then ValuesOf(samples, k) + [x.value] else ValuesOf(samples, k)
  {
    assert (samples + [x])[..|samples|] == samples;
  }

  lemma SummaryAppend(xs: seq<real>, v: real)
    requires xs != []
    ensures Summary(xs + [v]) == AggState(Max(Summary(xs).max, v), Summary(xs).sum + v, Summary(xs).count + 1)
  {
    assert (xs + [v])[..|xs|] == xs;
  }

  lemma AddToGroupStates(samples: seq<Sample>, acc: map<Key, AggState>, k: Key, v: real)
    requires StatesTrack(samples, acc) && k in acc
    ensures StatesTrack(samples + [Sample(k, v)],
      acc[k := AggState(Max(acc[k].max, v), acc[k].sum + v, acc[k].count + 1)])
  {
    var t := samples + [Sample(k, v)];
    var acc' := acc[k := AggState(Max(acc[k].max, v), acc[k].sum + v, acc[k].count + 1)];
    forall k' | k' in acc' ensures ValuesOf(t, k') != [] && acc'[k'] == Summary(ValuesOf(t, k')) {
      ValuesOfAppend(samples, Sample(k, v), k');
      if k' == k { SummaryAppend(ValuesOf(samples, k), v); }
    }
  }

  /** A sample for a group already in the accumulator updates its state. */
  lemma AddToGroup(samples: seq<Sample>, order: seq<Key>, acc: map<Key, AggState>, k: Key, v: real)
    requires Tracks(samples, order, acc) && k in acc
    ensures Tracks(samples + [Sample(k, v)], order,
      acc[k := AggState(Max(acc[k].max, v), acc[k].sum + v, acc[k].count + 1)])
  {
    KeyOrderAppend(samples, Sample(k, v));
    AddToGroupStates(samples, acc, k, v);
  }

  lemma AddNewGroupStates(samples: seq<Sample>, acc: map<Key, AggState>, k: Key, v: real)
    requires StatesTrack(samples, acc) && ValuesOf(samples, k) == []
    ensures StatesTrack(samples + [Sample(k, v)], acc[k := AggState(v, v, 1)])
  {
    var t := samples + [Sample(k, v)];
    var acc' := acc[k := AggState(v, v, 1)];
    forall k' | k' in acc' ensures ValuesOf(t, k') != [] && acc'[k'] == Summary(ValuesOf(t, k')) {
      ValuesOfAppend(samples, Sample(k, v), k');
      if k' == k {
        assert ValuesOf(t, k) == [v];
        assert [v][..0] == [];
        assert SumOf([v]) == SumOf([]) + v;
      }
    }
  }

  /** A sample for a new group appends the group and starts its state. */
  lemma AddNewGroup(samples: seq<Sample>, order: seq<Key>, acc: map<Key, AggState>, k: Key, v: real)
    requires Tracks(samples, order, acc) && k !in acc
    ensures Tracks(samples + [Sample(k, v)], order + [k], acc[k := AggState(v, v, 1)])
  {
    KeyOrderAppend(samples, Sample(k, v));
    KeyOrderSpec(samples, k);
    AddNewGroupStates(samples, acc, k, v);
  }

  /** One metric id of the inner loop, unfolded. */
  lemma MetricSamplesStep(week: string, entity: string, metrics: map<string, Cell>, ids: seq<string>,
                          j: int, before: seq<Sample>)
    requires 0 <= j < |ids|
    ensures SampleValue(Lookup(metrics, ids[j])).None? ==>
      before + MetricSamples(week, entity, metrics, ids[..j + 1]) == before + MetricSamples(week, entity, metrics, ids[..j])
    ensures SampleValue(Lookup(metrics, ids[j])).Some? ==>
      before + MetricSamples(week, entity, metrics, ids[..j + 1]) ==
        (before + MetricSamples(week, entity, metrics, ids[..j])) + [Sample(Key(week, entity, ids[j]), SampleValue(Lookup(metrics, ids[j])).value)]
  {
    assert ids[..j + 1][..j] == ids[..j];
    var done := MetricSamples(week, entity, metrics, ids[..j]);
    var v := SampleValue(Lookup(metrics, ids[j]));
    if v.Some? {
      assert before + (done + [Sample(Key(week, entity, ids[j]), v.value)]) ==
        (before + done) + [Sample(Key(week, entity, ids[j]), v.value)];
    }
  }

  lemma MetricSamplesStart(week: string, entity: string, metrics: map<string, Cell>, ids: seq<string>,
                           before: seq<Sample>)
    ensures before + MetricSamples(week, entity, metrics, ids[..0]) == before
  {
    assert ids[..0] == [];
  }

  /** The inner loop over the requested metric ids of one row whose week and
      entity are not blank. */
  method FoldRow(week: string, entity: string, metrics: map<string, Cell>, metricIds: seq<string>,
                 ghost before: seq<Sample>, order0: seq<Key>, acc0: map<Key, AggState>)
    returns (order: seq<Key>, acc: map<Key, AggState>)
    requires Tracks(before, order0, acc0)
    ensures Tracks(before + MetricSamples(week, entity, metrics, metricIds), order, acc)
  {
    order, acc := order0, acc0;
    MetricSamplesStart(week, entity, metrics, metricIds, before);
    var j := 0;
    while j < |metricIds|
      invariant 0 <= j <= |metricIds|
      invariant Tracks(before + MetricSamples(week, entity, metrics, metricIds[..j]), order, acc)
    {
      var metricId := metricIds[j];
      MetricSamplesStep(week, entity, metrics, metricIds, j, before);
      var value := SampleValue(Lookup(metrics, metricId));
      if value.Some? {
        order, acc := AddSample(before + MetricSamples(week, entity, metrics, metricIds[..j]), order, acc,
                                Key(week, entity, metricId), value.value);
      }
      j := j + 1;
    }
    Text.TakeAll(metricIds);
  }

  /** One sample folded into the accumulator: a known group is updated, a
      new one is appended to the order and started. */
  method AddSample(ghost seen: seq<Sample>, order0: seq<Key>, acc0: map<Key, AggState>, key: Key, v: real)
    returns (order: seq<Key>, acc: map<Key, AggState>)
    requires Tracks(seen, order0, acc0)
    ensures Tracks(seen + [Sample(key, v)], order, acc)
  {
    if key in acc0 {
      AddToGroup(seen, order0, acc0, key, v);
      order, acc := order0, acc0[key := AggState(Max(acc0[key].max, v), acc0[key].sum + v, acc0[key].count + 1)];
    } else {
      AddNewGroup(seen, order0, acc0, key, v);
      order, acc := order0 + [key], acc0[key := AggState(v, v, 1)];
    }
  }

  /** The row emitted for group `k` of `samples`. */
  function GroupRow(unit: Catalog.Unit, samples: seq<Sample>, k: Key): Catalog.RollupRow
    requires ValuesOf(samples, k) != []
  {
    OutputRow(unit, k, Collapse(k.metric, Summary(ValuesOf(samples, k))))
  }

  /** One more emitted row keeps the rows those of the first groups. */
  lemma EmitStep(unit: Catalog.Unit, samples: seq<Sample>, order: seq<Key>, acc: map<Key, AggState>,
                 rows: seq<Catalog.RollupRow>, k: int)
    requires Tracks(samples, order, acc) && 0 <= k < |order| && |rows| == k
    requires forall i :: 0 <= i < k ==> rows[i] == GroupRow(unit, samples, order[i])
    ensures order[k] in acc
    ensures var r := rows + [OutputRow(unit, order[k], Collapse(order[k].metric, acc[order[k]]))];
      forall i :: 0 <= i < k + 1 ==> r[i] == GroupRow(unit, samples, order[i])
  {
    var key := order[k];
    assert key in acc;
    assert ValuesOf(samples, key) != [] && acc[key] == Summary(ValuesOf(samples, key));
    var r := rows + [OutputRow(unit, key, Collapse(key.metric, acc[key]))];
    assert r[k] == GroupRow(unit, samples, key);
    assert forall i :: 0 <= i < k ==> r[i] == rows[i];
  }

  /** The emission loop: one row per group, in the accumulator's order. */
  method Emit(unit: Catalog.Unit, ghost samples: seq<Sample>, order: seq<Key>, acc: map<Key, AggState>)
    returns (rows: seq<Catalog.RollupRow>)
    requires Tracks(samples, order, acc)
    ensures |rows| == |order|
    ensures forall i :: 0 <= i < |order| ==> rows[i] == GroupRow(unit, samples, order[i])
  {
    rows := [];
    var k := 0;
    while k < |order|
      invariant 0 <= k <= |order|
      invariant |rows| == k
      invariant forall i :: 0 <= i < k ==> rows[i] == GroupRow(unit, samples, order[i])
    {
      var key := order[k];
      EmitStep(unit, samples, order, acc, rows, k);
      rows := rows + [OutputRow(unit, key, Collapse(key.metric, acc[key]))];
      k := k + 1;
    }
  }

  /** The fallback query's row folding and emission, with tuple keys. */
  method GetHeatmapFromBaseTable(unit: Catalog.Unit, metricIds: seq<string>, data: seq<BaseRow>)
    returns (rows: seq<Catalog.RollupRow>)
    ensures rows == FallbackRows(unit, metricIds, data)
  {
    var order: seq<Key> := [];
    var acc: map<Key, AggState> := map[];
    var i := 0;
    while i < |data|
      invariant 0 <= i <= |data|
      invariant Tracks(Samples(data[..i], metricIds), order, acc)
    {
      var row := data[i];
      var week := Text.Trim(row.week.GetOr(""));
      var entity := Text.Trim(row.entity.GetOr(""));
      assert data[..i + 1][..i] == data[..i];
      assert Samples(data[..i + 1], metricIds) == Samples(data[..i], metricIds) + RowSamples(row, metricIds);
      if week != [] && entity != [] {
        order, acc := FoldRow(week, entity, row.metrics, metricIds, Samples(data[..i], metricIds), order, acc);
      } else {
        assert Samples(data[..i], metricIds) + [] == Samples(data[..i], metricIds);
      }
      i := i + 1;
    }
    assert data[..i] == data;
    rows := Emit(unit, Samples(data, metricIds), order, acc);
  }

  // ---------------------------------------------------------------------------
  // Properties

  /** A row contributes a finite sample to group `k`. */
  predicate Contributes(row: BaseRow, ids: seq<string>, k: Key) {
    && RowWeek(row) == k.week && RowEntity(row) == k.entity
    && k.week != [] && k.entity != [] && k.metric in ids
    && SampleValue(Lookup(row.metrics, k.metric)).Some?
  }

  lemma {:induction false} ValuesOfConcat(a: seq<Sample>, b: seq<Sample>, k: Key)
    ensures ValuesOf(a + b, k) == ValuesOf(a, k) + ValuesOf(b, k)
  {
    if b != [] {
      var b' := b[..|b| - 1];
      Text.ConcatLast(a, b);
      ValuesOfAppend(a + b', b[|b| - 1], k);
      ValuesOfAppend(b', b[|b| - 1], k);
      Text.LastSplit(b);
      ValuesOfConcat(a, b', k);
    } else {
      Text.ConcatEmpty(a);
    }
  }

  lemma {:induction false} MetricSamplesValues(week: string, entity: string, metrics: map<string, Cell>,
                                               ids: seq<string>, k: Key, v: real)
    ensures v in ValuesOf(MetricSamples(week, entity, metrics, ids), k) <==>
      k.week == week && k.entity == entity && k.metric in ids && SampleValue(Lookup(metrics, k.metric)) == Some(v)
  {
    if ids != [] {
      var p := ids[..|ids| - 1];
      var m := ids[|ids| - 1];
      var q := MetricSamples(week, entity, metrics, p);
      if SampleValue(Lookup(metrics, m)).Some? {
        ValuesOfAppend(q, Sample(Key(week, entity, m), SampleValue(Lookup(metrics, m)).value), k);
      }
      MetricSamplesValues(week, entity, metrics, p, k, v);
      assert ids == p + [m];
    }
  }

  /** Row `row` folds the value `v` into group `k`. */
  predicate Yields(row: BaseRow, ids: seq<string>, k: Key, v: real) {
    Contributes(row, ids, k) && SampleValue(Lookup(row.metrics, k.metric)) == Some(v)
  }

  lemma RowSamplesValues(row: BaseRow, ids: seq<string>, k: Key, v: real)
    ensures v in ValuesOf(RowSamples(row, ids), k) <==> Yields(row, ids, k, v)
  {
    if RowWeek(row) != [] && RowEntity(row) != [] {
      MetricSamplesValues(RowWeek(row), RowEntity(row), row.metrics, ids, k, v);
    }
  }

  /** Every value folded into a group is the finite sample of a row that
      belongs to it, and every such sample is folded in. */
  lemma {:induction false} SamplesOrigin(rows: seq<BaseRow>, ids: seq<string>, k: Key, v: real)
    ensures v in ValuesOf(Samples(rows, ids), k) <==> exists j :: 0 <= j < |rows| && Yields(rows[j], ids, k, v)
  {
    if rows != [] {
      var p := rows[..|rows| - 1];
      var last := rows[|rows| - 1];
      ValuesOfConcat(Samples(p, ids), RowSamples(last, ids), k);
      SamplesOrigin(p, ids, k, v);
      RowSamplesValues(last, ids, k, v);
      Text.ExistsSplit(rows, r => Yields(r, ids, k, v));
    }
  }

  lemma MulMonotone(n: real, a: real, b: real)
    requires n > 0.0 && a < b
    ensures n * a < n * b
  {
  }

  lemma {:induction false} SumAtLeast(xs: seq<real>, m: real)
    requires forall i :: 0 <= i < |xs| ==> m <= xs[i]
    ensures |xs| as real * m <= SumOf(xs)
  {
    if xs != [] {
      var p := xs[..|xs| - 1];
      assert forall i :: 0 <= i < |p| ==> p[i] == xs[i];
      SumAtLeast(p, m);
      assert |xs| as real * m == |p| as real * m + m;
    }
  }

  lemma {:induction false} SumAtMost(xs: seq<real>, m: real)
    requires forall i :: 0 <= i < |xs| ==> xs[i] <= m
    ensures SumOf(xs) <= |xs| as real * m
  {
    if xs != [] {
      var p := xs[..|xs| - 1];
      assert forall i :: 0 <= i < |p| ==> p[i] == xs[i];
      SumAtMost(p, m);
      assert |xs| as real * m == |p| as real * m + m;
    }
  }

  lemma DivBounds(sum: real, n: real, lo: real, hi: real)
    requires n > 0.0 && n * lo <= sum <= n * hi
    ensures lo <= sum / n <= hi
  {
    var q := sum / n;
    assert q * n == sum;
    if q < lo { MulMonotone(n, q, lo); }
    if q > hi { MulMonotone(n, hi, q); }
  }

  /** A group's value is the mean of its samples for a rate and their maximum
      otherwise; either way it lies between the smallest and the largest sample. */
  lemma CollapseSpec(metric: string, xs: seq<real>)
    requires xs != []
    ensures Catalog.IsRateMetric(metric) ==> Collapse(metric, Summary(xs)) == SumOf(xs) / |xs| as real
    ensures !Catalog.IsRateMetric(metric) ==> Collapse(metric, Summary(xs)) == MaxOf(xs)
    ensures MinOf(xs) <= Collapse(metric, Summary(xs)) <= MaxOf(xs)
  {
    if Catalog.IsRateMetric(metric) {
      MeanBounds(xs);
    } else {
      assert MinOf(xs) <= xs[0] <= MaxOf(xs);
    }
  }

  /** The mean lies between the smallest and the largest value. */
  lemma MeanBounds(xs: seq<real>)
    requires xs != []
    ensures MinOf(xs) <= SumOf(xs) / |xs| as real <= MaxOf(xs)
  {
    MeanBetween(xs, MinOf(xs), MaxOf(xs));
  }

  lemma MeanBetween(xs: seq<real>, lo: real, hi: real)
    requires xs != []
    requires forall i :: 0 <= i < |xs| ==> lo <= xs[i] <= hi
    ensures lo <= SumOf(xs) / |xs| as real <= hi
  {
    SumAtLeast(xs, lo);
    SumAtMost(xs, hi);
    DivBounds(SumOf(xs), |xs| as real, lo, hi);
  }

  /** Row `r` is the one emitted for group `k`. */
  predicate IsRowOf(r: Catalog.RollupRow, k: Key) {
    r.week == Some(k.week) && r.filterValue == Some(k.entity) && r.metricId == Some(k.metric)
  }

  /** Every fallback row carries the requested unit, and no two rows share a
      (week, entity, metric) triple. */
  lemma FallbackRowsSpec(unit: Catalog.Unit, ids: seq<string>, data: seq<BaseRow>)
    ensures forall r :: r in FallbackRows(unit, ids, data) ==> r.measureUnit == Some(Catalog.UnitId(unit))
    ensures forall i, j :: 0 <= i < j < |FallbackRows(unit, ids, data)| ==>
      var a := FallbackRows(unit, ids, data)[i];
      var b := FallbackRows(unit, ids, data)[j];
      (a.week, a.filterValue, a.metricId) != (b.week, b.filterValue, b.metricId)
  {
    var ks := KeyOrder(Samples(data, ids));
    var rs := FallbackRows(unit, ids, data);
    KeyOrderSpec(Samples(data, ids), Key([], [], []));
    forall i, j | 0 <= i < j < |rs|
      ensures (rs[i].week, rs[i].filterValue, rs[i].metricId) != (rs[j].week, rs[j].filterValue, rs[j].metricId)
    {
      assert ks[i] != ks[j];
    }
  }

  /** A group has samples exactly when some fact row contributes to it. */
  lemma KeysCover(ids: seq<string>, data: seq<BaseRow>, k: Key)
    ensures k in KeyOrder(Samples(data, ids)) <==> exists j :: 0 <= j < |data| && Contributes(data[j], ids, k)
  {
    var s := Samples(data, ids);
    KeyOrderSpec(s, k);
    if ValuesOf(s, k) != [] {
      var v := ValuesOf(s, k)[0];
      SamplesOrigin(data, ids, k, v);
      var j :| 0 <= j < |data| && Yields(data[j], ids, k, v);
    }
    if exists j :: 0 <= j < |data| && Contributes(data[j], ids, k) {
      var j :| 0 <= j < |data| && Contributes(data[j], ids, k);
      var v := SampleValue(Lookup(data[j].metrics, k.metric)).value;
      SamplesOrigin(data, ids, k, v);
      assert Yields(data[j], ids, k, v);
    }
  }

  /** Every listed group has a trimmed, non-blank week and entity and a
      requested metric. */
  lemma KeyShape(ids: seq<string>, data: seq<BaseRow>, k: Key)
    requires k in KeyOrder(Samples(data, ids))
    ensures k.week != [] && Text.IsTrimmed(k.week) && k.entity != [] && Text.IsTrimmed(k.entity) && k.metric in ids
  {
    KeysCover(ids, data, k);
    var j :| 0 <= j < |data| && Contributes(data[j], ids, k);
    Text.TrimSpec(data[j].week.GetOr(""));
    Text.TrimSpec(data[j].entity.GetOr(""));
  }

  /** The fallback emits a row for group `k` exactly when `k` is listed. */
  lemma RowsOfKeys(unit: Catalog.Unit, ids: seq<string>, data: seq<BaseRow>, k: Key)
    ensures (exists r :: r in FallbackRows(unit, ids, data) && IsRowOf(r, k)) <==> k in KeyOrder(Samples(data, ids))
  {
    var ks := KeyOrder(Samples(data, ids));
    var rs := FallbackRows(unit, ids, data);
    if exists r :: r in rs && IsRowOf(r, k) {
      var r :| r in rs && IsRowOf(r, k);
      var i :| 0 <= i < |rs| && rs[i] == r;
      assert ks[i] == k;
    }
    if k in ks {
      var n :| 0 <= n < |ks| && ks[n] == k;
      assert rs[n] in rs && IsRowOf(rs[n], k);
    }
  }

  /** The fallback emits a row for group `k` exactly when some fact row
      contributes a finite sample to it. */
  lemma FallbackRowsCover(unit: Catalog.Unit, ids: seq<string>, data: seq<BaseRow>, k: Key)
    ensures (exists r :: r in FallbackRows(unit, ids, data) && IsRowOf(r, k)) <==>
      exists j :: 0 <= j < |data| && Contributes(data[j], ids, k)
  {
    RowsOfKeys(unit, ids, data, k);
    KeysCover(ids, data, k);
  }

  /** The value emitted for each group is its samples' mean (rate) or maximum. */
  lemma FallbackRowValue(unit: Catalog.Unit, ids: seq<string>, data: seq<BaseRow>, i: int)
    requires 0 <= i < |FallbackRows(unit, ids, data)|
    ensures var k := KeyOrder(Samples(data, ids))[i];
      var xs := ValuesOf(Samples(data, ids), k);
      && xs != []
      && FallbackRows(unit, ids, data)[i] == OutputRow(unit, k, Collapse(k.metric, Summary(xs)))
      && MinOf(xs) <= Collapse(k.metric, Summary(xs)) <= MaxOf(xs)
      && (Catalog.IsRateMetric(k.metric) ==> Collapse(k.metric, Summary(xs)) == SumOf(xs) / |xs| as real)
      && (!Catalog.IsRateMetric(k.metric) ==> Collapse(k.metric, Summary(xs)) == MaxOf(xs))
  {
    var s := Samples(data, ids);
    var k := KeyOrder(s)[i];
    KeyOrderHasValues(s, k);
    CollapseSpec(k.metric, ValuesOf(s, k));
  }

  // ---------------------------------------------------------------------------
  // The composite string key as written

  /** `${week}|${entity}|${metricId}`. */
  function KeyAsWritten(k: Key): string {
    Text.Join([k.week, k.entity, k.metric], '|')
  }

  function Part(parts: seq<string>, i: nat): Option<string> {
    if i < |parts| then Some(parts[i]) else None
  }

  /** The emitted row as the source builds it: `key.split("|")` read back as
      week, entity and metric (a missing part is `undefined`). */
  function OutputRowAsWritten(unit: Catalog.Unit, key: string, st: AggState): Catalog.RollupRow {
    var parts := Text.Split(key, '|');
    var metric := Part(parts, 2).GetOr("");
    Catalog.RollupRow(Part(parts, 0), Some(Catalog.UnitId(unit)), Part(parts, 1), Part(parts, 2),
      Number(Finite(Collapse(metric, st))))
  }

  /** With no '|' in any part, splitting the string key gives back the triple,
      so the source's rows agree with the tuple-keyed ones. */
  lemma AsWrittenAgreesWithoutPipe(unit: Catalog.Unit, k: Key, st: AggState)
    requires '|' !in k.week && '|' !in k.entity && '|' !in k.metric
    ensures OutputRowAsWritten(unit, KeyAsWritten(k), st) == OutputRow(unit, k, Collapse(k.metric, st))
  {
    Text.SplitJoin([k.week, k.entity, k.metric], '|');
  }

  /** An entity holding '|' is split apart: the group (week, a + "|" + b,
      metric) comes back as entity `a` with metric `b`, and its real metric
      is lost. */
  lemma AsWrittenSplitsPipeEntity(unit: Catalog.Unit, st: AggState, week: string, a: string, b: string, metric: string)
    requires '|' !in week && '|' !in a && '|' !in b && '|' !in metric
    ensures var row := OutputRowAsWritten(unit, KeyAsWritten(Key(week, a + "|" + b, metric)), st);
      row.filterValue == Some(a) && row.metricId == Some(b)
  {
    var parts := [week, a, b, metric];
    JoinPipeEntity(week, a, b, metric);
    forall i | 0 <= i < |parts| ensures '|' !in parts[i] { }
    Text.SplitJoin(parts, '|');
  }

  /** The key of an entity `a + "|" + b` is the key of four fields. */
  lemma JoinPipeEntity(week: string, a: string, b: string, metric: string)
    ensures KeyAsWritten(Key(week, a + "|" + b, metric)) == Text.Join([week, a, b, metric], '|')
  {
    var e := a + "|" + b;
    var tail := b + ['|'] + metric;
    assert [b, metric][1..] == [metric];
    assert Text.Join([b, metric], '|') == tail;
    assert [a, b, metric][1..] == [b, metric];
    assert Text.Join([a, b, metric], '|') == a + ['|'] + tail;
    assert [e, metric][1..] == [metric];
    assert Text.Join([e, metric], '|') == e + ['|'] + metric;
    assert e + ['|'] + metric == a + ['|'] + tail;
    assert [week, a, b, metric][1..] == [a, b, metric];
    assert [week, e, metric][1..] == [e, metric];
  }

  /** Two different groups can share one string key. */
  lemma AsWrittenKeysCollide()
    ensures Key("w", "a|b", "m") != Key("w", "a", "b|m")
    ensures KeyAsWritten(Key("w", "a|b", "m")) == KeyAsWritten(Key("w", "a", "b|m"))
  {
  }
}
