/** The dashboard page's client-side data shaping: the per-entity series map
    built from heatmap rows, the context handed to the summary request, the
    bounded error log, the metric catalog mapping and the selection filters. */
module Series {
  import opened Wrappers
  import Text
  import Units
  import Heatmap

  const AllLabel: string := "전체"
  const AllValue: string := "all"
  /** The error log keeps at most this many items. */
  const ErrorLogLimit: nat := 50

  datatype Format = NumberFormat | PercentFormat

  datatype Metric = Metric(id: string, name: string, description: string, format: Format)

  datatype Entity = Entity(id: string, name: string, unit: Units.MeasurementUnit)

  /** entity -> metric -> one value per requested week. */
  type SeriesMap = map<string, map<string, seq<real>>>

  // ---------------------------------------------------------------------------
  // Metric catalog mapping

  /** The `metricFormats` table; an id it does not list is a plain number. */
  function MetricFormat(id: string): (f: Format)
    ensures f == PercentFormat <==> id == "progress_match_rate" || id == "match_open_rate" || id == "match_loss_rate"
  {
    if id == "progress_match_rate" || id == "match_open_rate" || id == "match_loss_rate" then PercentFormat
    else NumberFormat
  }

  /** A row of the metric dictionary as the metrics endpoint returns it. */
  datatype MetricRow = MetricRow(metric: string, koreanName: string, description: Option<string>)

  /** The mapping in `loadMetrics`: an empty Korean name falls back to the id,
      a null or empty description becomes "", the format comes from the table. */
  function MapMetricRow(row: MetricRow): (m: Metric)
    ensures m.id == row.metric
    ensures m.name == (if row.koreanName == "" then row.metric else row.koreanName)
    ensures m.name != "" <==> row.koreanName != "" || row.metric != ""
    ensures m.description == (if row.description.Some? then row.description.value else "")
    ensures m.format == MetricFormat(row.metric)
  {
    Metric(row.metric, if row.koreanName == "" then row.metric else row.koreanName,
           row.description.GetOr(""), MetricFormat(row.metric))
  }

  function MapMetricRows(rows: seq<MetricRow>): (ms: seq<Metric>)
    ensures |ms| == |rows|
    ensures forall k :: 0 <= k < |rows| ==> ms[k] == MapMetricRow(rows[k])
  {
    seq(|rows|, k requires 0 <= k < |rows| => MapMetricRow(rows[k]))
  }

  function Ids(ms: seq<Metric>): (ids: seq<string>)
    ensures |ids| == |ms|
    ensures forall k :: 0 <= k < |ms| ==> ids[k] == ms[k].id
  {
    seq(|ms|, k requires 0 <= k < |ms| => ms[k].id)
  }

  /** The catalog the page falls back to when the metrics request fails. */
  const FallbackMetrics: seq<Metric> := [
    Metric("total_match_cnt", "전체 매치 수",
           "공개 혹은 취소 상태의 매치 수. 진행률 계산식의 분모에 해당.", NumberFormat),
    Metric("setting_match_cnt", "세팅 매치 수",
           "정기일정 혹은 개별일정 형태로 생성된 매치 수.", NumberFormat),
    Metric("progress_match_cnt", "진행 매치 수",
           "매치 시작 시간이 지난 공개 상태의 매치 수.", NumberFormat),
    Metric("progress_match_rate", "진행률",
           "전체 매치 수 대비 진행 매치 수의 비율.", PercentFormat),
    Metric("match_open_rate", "매치 공개율",
           "세팅 매치 중 매니저가 배정되거나 플래버 매치로 공개된 매치 비율.", PercentFormat),
    Metric("match_loss_rate", "매치 로스율",
           "세팅 매치 중 매치 공개 후 숨기기 처리된 매치 비율.", PercentFormat)
  ]

  lemma FallbackIds()
    ensures Ids(FallbackMetrics) == ["total_match_cnt", "setting_match_cnt", "progress_match_cnt",
                                     "progress_match_rate", "match_open_rate", "match_loss_rate"]
  {
  }

  lemma FallbackIdsDistinct()
    ensures Text.NoDups(Ids(FallbackMetrics))
  {
    FallbackIds();
    var ids := Ids(FallbackMetrics);
    assert ids[0][0] == 't' && ids[1][0] == 's' && ids[2][0] == 'p' && ids[3][0] == 'p' &&
           ids[4][0] == 'm' && ids[5][0] == 'm';
    assert ids[2][|ids[2]| - 1] == 't' && ids[3][|ids[3]| - 1] == 'e';
    assert ids[4][6] == 'o' && ids[5][6] == 'l';
  }

  lemma FallbackFormat(k: int)
    requires 0 <= k < |FallbackMetrics|
    ensures FallbackMetrics[k].format == MetricFormat(FallbackMetrics[k].id)
    ensures FallbackMetrics[k].format == PercentFormat <==> Text.EndsWith(FallbackMetrics[k].id, "_rate")
  {
    var id := FallbackMetrics[k].id;
    if k < 3 {
      assert id[|id| - 1] == 't';
    } else {
      assert id[|id| - 5..] == "_rate";
    }
  }

  /** The fallback catalog agrees with the format table and has distinct ids,
      and exactly its `_rate` metrics are shown as percentages. */
  lemma FallbackMetricsConsistent()
    ensures Text.NoDups(Ids(FallbackMetrics))
    ensures forall k :: 0 <= k < |FallbackMetrics| ==>
      FallbackMetrics[k].format == MetricFormat(FallbackMetrics[k].id) &&
      (FallbackMetrics[k].format == PercentFormat <==> Text.EndsWith(FallbackMetrics[k].id, "_rate"))
  {
    FallbackIdsDistinct();
    forall k | 0 <= k < |FallbackMetrics|
      ensures FallbackMetrics[k].format == MetricFormat(FallbackMetrics[k].id)
      ensures FallbackMetrics[k].format == PercentFormat <==> Text.EndsWith(FallbackMetrics[k].id, "_rate")
    {
      FallbackFormat(k);
    }
  }

  /** The catalog state after the metrics request: the metrics list and the
      selected ids. */
  datatype Catalog = Catalog(metrics: seq<Metric>, selected: seq<string>)

  /** The outcome of `loadMetrics`. A successful response replaces the catalog
      (a missing list counts as empty) and selects every id; a failure
      installs the fallback catalog when `current`, the catalog the effect's
      closure saw, has no metrics. */
  function LoadMetrics(current: Catalog, response: Result<Option<seq<MetricRow>>>): (c: Catalog)
    ensures response.Ok? ==> c.metrics == MapMetricRows(response.value.GetOr([])) && c.selected == Ids(c.metrics)
    ensures response.Err? && current.metrics == [] ==> c == Catalog(FallbackMetrics, Ids(FallbackMetrics))
    ensures response.Err? && current.metrics != [] ==> c == current
  {
    match response
    case Ok(list) =>
      var ms := MapMetricRows(list.GetOr([]));
      Catalog(ms, Ids(ms))
    case Err(_) =>
      if current.metrics == [] then Catalog(FallbackMetrics, Ids(FallbackMetrics)) else current
  }

  /** The effect runs once, on mount, so its closure sees the first render's
      empty catalog: a failed request always installs the fallback catalog,
      and either way every metric ends up selected. */
  lemma LoadMetricsOnMount(response: Result<Option<seq<MetricRow>>>)
    ensures response.Err? ==> LoadMetrics(Catalog([], []), response) == Catalog(FallbackMetrics, Ids(FallbackMetrics))
    ensures LoadMetrics(Catalog([], []), response).selected == Ids(LoadMetrics(Catalog([], []), response).metrics)
  {
  }

  /** The effect that selects every metric when the selection becomes empty. */
  function SelectAllWhenEmpty(c: Catalog): (r: Catalog)
    ensures r.metrics == c.metrics
    ensures c.selected != [] || c.metrics == [] ==> r == c
    ensures c.selected == [] && c.metrics != [] ==> r.selected == Ids(c.metrics)
    ensures c.metrics != [] ==> r.selected != []
  {
    if c.metrics != [] && c.selected == [] then Catalog(c.metrics, Ids(c.metrics)) else c
  }

  /** Applying the effect a second time changes nothing. */
  lemma SelectAllWhenEmptyIdempotent(c: Catalog)
    ensures SelectAllWhenEmpty(SelectAllWhenEmpty(c)) == SelectAllWhenEmpty(c)
  {
    if c.metrics != [] && c.selected == [] {
      assert Ids(c.metrics)[0] == c.metrics[0].id;
    }
  }

  // ---------------------------------------------------------------------------
  // Selection filters

  /** `new Map(metrics.map(m => [m.id, m]))`: a repeated id keeps its last metric. */
  function ById(metrics: seq<Metric>): map<string, Metric> {
    if metrics == [] then map[]
    else ById(metrics[..|metrics| - 1])[metrics[|metrics| - 1].id := metrics[|metrics| - 1]]
  }

  lemma {:induction false} ByIdSpec(metrics: seq<Metric>, id: string)
    ensures id in ById(metrics) <==> id in Ids(metrics)
    ensures id in ById(metrics) ==> exists j :: 0 <= j < |metrics| && LastWithId(metrics, j, id)
  {
    if metrics != [] {
      var p := metrics[..|metrics| - 1];
      ByIdSpec(p, id);
      assert Ids(metrics) == Ids(p) + [metrics[|metrics| - 1].id];
      if id in ById(metrics) && metrics[|metrics| - 1].id != id {
        var j :| 0 <= j < |p| && LastWithId(p, j, id);
        assert LastWithId(metrics, j, id);
      } else if id in ById(metrics) {
        assert LastWithId(metrics, |metrics| - 1, id);
      }
    }
  }

  /** `metrics[j]` is the last metric with this id. */
  predicate LastWithId(metrics: seq<Metric>, j: int, id: string) {
    0 <= j < |metrics| && metrics[j].id == id && id in ById(metrics) && ById(metrics)[id] == metrics[j] &&
    forall k :: j < k < |metrics| ==> metrics[k].id != id
  }

  /** `m` is the last catalog entry with its id. */
  ghost predicate Resolves(metrics: seq<Metric>, m: Metric) {
    exists j :: 0 <= j < |metrics| && metrics[j] == m && LastWithId(metrics, j, m.id)
  }

  /** `selectedMetrics`: the selected ids that name a metric, in selection
      order, each resolved to the last metric with that id. */
  function SelectedMetrics(metrics: seq<Metric>, selected: seq<string>): (r: seq<Metric>)
    ensures |r| <= |selected|
    ensures forall m :: m in r ==> m in metrics && m.id in selected
  {
    if selected == [] then []
    else
      var rest := SelectedMetrics(metrics, selected[1..]);
      var byId := ById(metrics);
      ByIdSpec(metrics, selected[0]);
      assert forall x :: x in selected[1..] ==> x in selected;
      if selected[0] in byId then [byId[selected[0]]] + rest else rest
  }

  lemma {:induction false} SelectedIds(metrics: seq<Metric>, selected: seq<string>)
    ensures Ids(SelectedMetrics(metrics, selected)) == Heatmap.KeepAllowed(selected, Ids(metrics))
  {
    if selected != [] {
      SelectedIds(metrics, selected[1..]);
      ByIdSpec(metrics, selected[0]);
      if selected[0] in ById(metrics) {
        var m := ById(metrics)[selected[0]];
        var j :| 0 <= j < |metrics| && LastWithId(metrics, j, selected[0]);
        var rest := SelectedMetrics(metrics, selected[1..]);
        assert Ids([m] + rest) == [m.id] + Ids(rest);
      }
    }
  }

  lemma {:induction false} SelectedResolve(metrics: seq<Metric>, selected: seq<string>)
    ensures forall k :: 0 <= k < |SelectedMetrics(metrics, selected)| ==>
      Resolves(metrics, SelectedMetrics(metrics, selected)[k])
  {
    if selected != [] {
      SelectedResolve(metrics, selected[1..]);
      ByIdSpec(metrics, selected[0]);
      var rest := SelectedMetrics(metrics, selected[1..]);
      if selected[0] in ById(metrics) {
        var m := ById(metrics)[selected[0]];
        var j :| 0 <= j < |metrics| && LastWithId(metrics, j, selected[0]);
        var r := [m] + rest;
        assert SelectedMetrics(metrics, selected) == r;
        forall k | 0 <= k < |r| ensures Resolves(metrics, r[k]) {
          if k == 0 {
            assert LastWithId(metrics, j, r[0].id);
          } else {
            assert r[k] == rest[k - 1];
          }
        }
      }
    }
  }

  /** The selection keeps the selection order and drops unknown ids; every
      metric it returns is the last catalog entry with its id. */
  lemma SelectedMetricsSpec(metrics: seq<Metric>, selected: seq<string>)
    ensures Ids(SelectedMetrics(metrics, selected)) == Heatmap.KeepAllowed(selected, Ids(metrics))
    ensures forall k :: 0 <= k < |SelectedMetrics(metrics, selected)| ==>
      Resolves(metrics, SelectedMetrics(metrics, selected)[k])
  {
    SelectedIds(metrics, selected);
    SelectedResolve(metrics, selected);
  }

  /** `missingMetricIds`: nothing is missing while no metric is available;
      otherwise the selected ids that are not available, in order. */
  function MissingMetricIds(available: seq<string>, selected: seq<string>): (r: seq<string>)
    ensures available == [] ==> r == []
    ensures available != [] ==> forall x :: x in r <==> x in selected && x !in available
    ensures available != [] ==> Text.IsSubsequence(r, selected)
    ensures available != [] ==> forall x :: multiset(r)[x] == if x in available then 0 else multiset(selected)[x]
    ensures |r| <= |selected|
  {
    if available == [] then []
    else
      UnavailableSpec(available, selected);
      Unavailable(available, selected)
  }

  /** The ids of `xs` not in `available`, in order. */
  function Unavailable(available: seq<string>, xs: seq<string>): (r: seq<string>)
    ensures forall x :: x in r <==> x in xs && x !in available
    ensures |r| <= |xs|
  {
    if xs == [] then []
    else
      var rest := Unavailable(available, xs[1..]);
      assert forall x :: x in xs <==> x == xs[0] || x in xs[1..];
      if xs[0] in available then rest else [xs[0]] + rest
  }

  /** `Unavailable` is `xs` with the available ids taken out: the rest keep
      their order, and every other id occurs as often as in `xs`. */
  lemma {:induction false} UnavailableSpec(available: seq<string>, xs: seq<string>)
    ensures Text.IsSubsequence(Unavailable(available, xs), xs)
    ensures forall x :: multiset(Unavailable(available, xs))[x] == if x in available then 0 else multiset(xs)[x]
  {
    if xs != [] {
      UnavailableSpec(available, xs[1..]);
      assert xs == [xs[0]] + xs[1..];
      var rest := Unavailable(available, xs[1..]);
      if xs[0] !in available {
        var r := [xs[0]] + rest;
        assert r[1..] == rest;
      }
    }
  }

  /** The unavailable ids and the available ones (`KeepAllowed`) split the
      selection between them. */
  lemma UnavailableComplements(available: seq<string>, xs: seq<string>)
    ensures |Unavailable(available, xs)| + |Heatmap.KeepAllowed(xs, available)| == |xs|
    ensures multiset(Unavailable(available, xs)) + multiset(Heatmap.KeepAllowed(xs, available)) == multiset(xs)
    ensures Unavailable(available, xs) == [] <==> forall k :: 0 <= k < |xs| ==> xs[k] in available
  {
    SplitMultiset(available, xs);
    var r := Unavailable(available, xs);
    if r != [] {
      assert r[0] in xs && r[0] !in available;
    } else {
      forall k | 0 <= k < |xs| ensures xs[k] in available {
        assert xs[k] !in r;
      }
    }
  }

  lemma {:induction false} SplitMultiset(available: seq<string>, xs: seq<string>)
    ensures multiset(Unavailable(available, xs)) + multiset(Heatmap.KeepAllowed(xs, available)) == multiset(xs)
  {
    if xs != [] {
      var t := xs[1..];
      SplitMultiset(available, t);
      assert xs == [xs[0]] + t;
      var u, a := Unavailable(available, t), Heatmap.KeepAllowed(t, available);
      if xs[0] in available {
        assert Heatmap.KeepAllowed(xs, available) == [xs[0]] + a;
        assert Unavailable(available, xs) == u;
      } else {
        assert Heatmap.KeepAllowed(xs, available) == a;
        assert Unavailable(available, xs) == [xs[0]] + u;
      }
    }
  }

  // ---------------------------------------------------------------------------
  // Error log

  datatype ErrorLogItem = ErrorLogItem(id: string, message: string, detail: Option<string>, time: string)

  /** The `pushError` updater: the new item first, then the previous items,
      cut to the log limit. The item's id and time come from the clock and a
      random source and are given. */
  function PushError(prev: seq<ErrorLogItem>, item: ErrorLogItem): (next: seq<ErrorLogItem>)
    ensures |next| == if |prev| + 1 < ErrorLogLimit then |prev| + 1 else ErrorLogLimit
    ensures next[0] == item
    ensures forall k :: 1 <= k < |next| ==> next[k] == prev[k - 1]
  {
    Text.Take([item] + prev, ErrorLogLimit)
  }

  /** Pushing `items` one after the other. */
  function PushAll(log: seq<ErrorLogItem>, items: seq<ErrorLogItem>): seq<ErrorLogItem>
    decreases |items|
  {
    if items == [] then log else PushAll(PushError(log, items[0]), items[1..])
  }

  /** After any run of pushes onto a short enough log, the log holds the
      newest items first, followed by the older ones, and never more than the
      limit. */
  lemma {:induction false} PushAllSpec(log: seq<ErrorLogItem>, items: seq<ErrorLogItem>)
    requires |log| <= ErrorLogLimit
    ensures PushAll(log, items) == Text.Take(Text.Reverse(items) + log, ErrorLogLimit)
    ensures |PushAll(log, items)| <= ErrorLogLimit
    decreases |items|
  {
    if items != [] {
      var next := PushError(log, items[0]);
      PushAllSpec(next, items[1..]);
      var whole := Text.Reverse(items) + log;
      var left := Text.Reverse(items[1..]) + next;
      var right := Text.Reverse(items[1..]) + [items[0]] + log;
      assert Text.Reverse(items) == Text.Reverse(items[1..]) + [items[0]];
      assert right == whole;
      var n := |Text.Reverse(items[1..])|;
      assert |Text.Take(left, ErrorLogLimit)| == |Text.Take(whole, ErrorLogLimit)|;
      forall k | 0 <= k < |Text.Take(left, ErrorLogLimit)|
        ensures Text.Take(left, ErrorLogLimit)[k] == Text.Take(whole, ErrorLogLimit)[k]
      {
        if k < n {
          assert left[k] == whole[k];
        } else {
          assert left[k] == next[k - n];
          assert whole[k] == right[k];
        }
      }
    }
  }

  // ---------------------------------------------------------------------------
  // Series map

  /** `row.entity || ALL_LABEL`: an empty entity is the whole-market entity. */
  function EntityKey(row: Heatmap.GridRow): (e: string)
    ensures e != ""
    ensures row.entity != "" ==> e == row.entity
  {
    if row.entity == "" then AllLabel else row.entity
  }

  /** The value a row writes for a metric; a metric the row lacks writes 0. */
  function RowValue(row: Heatmap.GridRow, m: string): real {
    if m in row.metrics then row.metrics[m] else 0.0
  }

  /** The row falls inside the week window and belongs to entity `e`. */
  predicate Feeds(row: Heatmap.GridRow, weeks: seq<string>, e: string) {
    row.week in weeks && EntityKey(row) == e
  }

  /** The row writes the cell of entity `e` at week position `p`. */
  predicate HitsCell(row: Heatmap.GridRow, weeks: seq<string>, e: string, p: int) {
    Feeds(row, weeks, e) && Heatmap.Pos(Heatmap.WeekIndex(weeks), row.week) == p
  }

  /** The series' entities in order of first appearance among the rows in the
      window. */
  function SeriesEntities(rows: seq<Heatmap.GridRow>, weeks: seq<string>): seq<string> {
    if rows == [] then []
    else
      var p := SeriesEntities(rows[..|rows| - 1], weeks);
      var row := rows[|rows| - 1];
      if row.week in weeks && EntityKey(row) !in p then p + [EntityKey(row)] else p
  }

  /** The value left in cell (e, m, p) after all rows: the last row that hits
      the cell decides it, and an untouched cell keeps its 0. */
  function Written(rows: seq<Heatmap.GridRow>, weeks: seq<string>, e: string, m: string, p: int): real {
    if rows == [] then 0.0
    else if HitsCell(rows[|rows| - 1], weeks, e, p) then RowValue(rows[|rows| - 1], m)
    else Written(rows[..|rows| - 1], weeks, e, m, p)
  }

  function EntityList(keys: seq<string>, unit: Units.MeasurementUnit): (es: seq<Entity>)
    ensures |es| == |keys|
    ensures forall k :: 0 <= k < |keys| ==> es[k] == Entity(keys[k], keys[k], unit)
  {
    seq(|keys|, k requires 0 <= k < |keys| => Entity(keys[k], keys[k], unit))
  }

  function Zeros(n: nat): (z: seq<real>)
    ensures |z| == n && forall i :: 0 <= i < n ==> z[i] == 0.0
  {
    seq(n, _ => 0.0)
  }

  /** Exactly the entities `keys` are present, each with exactly the metrics
      `ids`, each an array of length `n`. */
  ghost predicate Dense(series: SeriesMap, keys: seq<string>, ids: seq<string>, n: nat) {
    (forall e :: e in series <==> e in keys) &&
    (forall e, m :: e in series ==> (m in series[e] <==> m in ids)) &&
    (forall e, m :: e in series && m in series[e] ==> |series[e][m]| == n)
  }

  /** Every cell holds the value the rows leave in it. */
  ghost predicate Agrees(series: SeriesMap, rows: seq<Heatmap.GridRow>, weeks: seq<string>) {
    forall e, m, p :: e in series && m in series[e] && 0 <= p < |series[e][m]| ==>
      series[e][m][p] == Written(rows, weeks, e, m, p)
  }

  /** The zero-filled arrays of a new entity: `Array(n).fill(0)` per metric. */
  method ZeroSeries(metricIds: seq<string>, n: nat) returns (s: map<string, seq<real>>)
    ensures forall m :: m in s <==> m in metricIds
    ensures forall m :: m in s ==> s[m] == Zeros(n)
  {
    s := map[];
    var j := 0;
    while j < |metricIds|
      invariant 0 <= j <= |metricIds|
      invariant forall m :: m in s <==> m in metricIds[..j]
      invariant forall m :: m in s ==> s[m] == Zeros(n)
    {
      assert metricIds[..j + 1] == metricIds[..j] + [metricIds[j]];
      s := s[metricIds[j] := Zeros(n)];
      j := j + 1;
    }
  }

  /** Write one row's value of every requested metric at position `p`. */
  method WriteRow(s: map<string, seq<real>>, row: Heatmap.GridRow, metricIds: seq<string>, p: nat)
    returns (t: map<string, seq<real>>)
    requires forall m :: m in metricIds ==> m in s && p < |s[m]|
    ensures forall m :: m in t <==> m in s
    ensures forall m :: m in t && m in metricIds ==> t[m] == s[m][p := RowValue(row, m)]
    ensures forall m :: m in t && m !in metricIds ==> t[m] == s[m]
  {
    t := s;
    var j := 0;
    while j < |metricIds|
      invariant 0 <= j <= |metricIds|
      invariant forall m :: m in t <==> m in s
      invariant forall m :: m in t && m in metricIds[..j] ==> t[m] == s[m][p := RowValue(row, m)]
      invariant forall m :: m in t && m !in metricIds[..j] ==> t[m] == s[m]
    {
      var m := metricIds[j];
      assert metricIds[..j + 1] == metricIds[..j] + [m];
      t := t[m := t[m][p := RowValue(row, m)]];
      j := j + 1;
    }
  }

  lemma SeriesEntitiesStep(rows: seq<Heatmap.GridRow>, row: Heatmap.GridRow, weeks: seq<string>)
    ensures SeriesEntities(rows + [row], weeks) ==
      var p := SeriesEntities(rows, weeks);
      if row.week in weeks && EntityKey(row) !in p then p + [EntityKey(row)] else p
  {
    assert (rows + [row])[..|rows|] == rows;
  }

  lemma WrittenStep(rows: seq<Heatmap.GridRow>, row: Heatmap.GridRow, weeks: seq<string>, e: string, m: string, p: int)
    ensures Written(rows + [row], weeks, e, m, p) ==
      if HitsCell(row, weeks, e, p) then RowValue(row, m) else Written(rows, weeks, e, m, p)
  {
    assert (rows + [row])[..|rows|] == rows;
  }

  /** A cell of an entity no row has fed yet is still 0. */
  lemma {:induction false} WrittenUnfed(rows: seq<Heatmap.GridRow>, weeks: seq<string>, e: string, m: string, p: int)
    requires e !in SeriesEntities(rows, weeks)
    ensures Written(rows, weeks, e, m, p) == 0.0
  {
    if rows != [] {
      var q := rows[..|rows| - 1];
      assert rows == q + [rows[|rows| - 1]];
      SeriesEntitiesStep(q, rows[|rows| - 1], weeks);
      WrittenUnfed(q, weeks, e, m, p);
    }
  }

  /** A new entity's zero arrays agree with rows that never fed it. */
  lemma ZeroAgrees(series: SeriesMap, rows: seq<Heatmap.GridRow>, weeks: seq<string>, key: string,
                   zero: map<string, seq<real>>)
    requires Agrees(series, rows, weeks) && key !in SeriesEntities(rows, weeks)
    requires forall m :: m in zero ==> zero[m] == Zeros(|weeks|)
    ensures Agrees(series[key := zero], rows, weeks)
  {
    forall m, p | m in zero && 0 <= p < |weeks| ensures zero[m][p] == Written(rows, weeks, key, m, p) {
      WrittenUnfed(rows, weeks, key, m, p);
    }
  }

  /** A row outside the window leaves every cell as it was. */
  lemma SkipAgrees(series: SeriesMap, rows: seq<Heatmap.GridRow>, row: Heatmap.GridRow, weeks: seq<string>)
    requires Agrees(series, rows, weeks) && row.week !in weeks
    ensures Agrees(series, rows + [row], weeks)
  {
    forall e, m, p | e in series && m in series[e] && 0 <= p < |series[e][m]|
      ensures series[e][m][p] == Written(rows + [row], weeks, e, m, p)
    {
      WrittenStep(rows, row, weeks, e, m, p);
    }
  }

  /** Writing the row's values at its week's position keeps the map in
      agreement with the rows so far. */
  lemma WriteAgrees(series: SeriesMap, rows: seq<Heatmap.GridRow>, row: Heatmap.GridRow, weeks: seq<string>,
                    ids: seq<string>, s: map<string, seq<real>>)
    requires row.week in weeks && EntityKey(row) in series
    requires Agrees(series, rows, weeks)
    requires 0 <= Heatmap.Pos(Heatmap.WeekIndex(weeks), row.week) < |weeks|
    requires forall m :: m in series[EntityKey(row)] <==> m in ids
    requires forall m :: m in series[EntityKey(row)] ==> |series[EntityKey(row)][m]| == |weeks|
    requires forall m :: m in s <==> m in series[EntityKey(row)]
    requires forall m :: m in s && m in ids ==>
      s[m] == series[EntityKey(row)][m][Heatmap.Pos(Heatmap.WeekIndex(weeks), row.week) := RowValue(row, m)]
    requires forall m :: m in s && m !in ids ==> s[m] == series[EntityKey(row)][m]
    ensures Agrees(series[EntityKey(row) := s], rows + [row], weeks)
  {
    var key := EntityKey(row);
    var t := series[key := s];
    var pos := Heatmap.Pos(Heatmap.WeekIndex(weeks), row.week);
    forall e, m, p | e in t && m in t[e] && 0 <= p < |t[e][m]|
      ensures t[e][m][p] == Written(rows + [row], weeks, e, m, p)
    {
      WrittenStep(rows, row, weeks, e, m, p);
      if e == key {
        assert m in ids;
        assert t[e][m] == series[key][m][pos := RowValue(row, m)];
        if p == pos {
          assert HitsCell(row, weeks, e, p);
        } else {
          assert !HitsCell(row, weeks, e, p);
          assert t[e][m][p] == series[key][m][p];
        }
      } else {
        assert !HitsCell(row, weeks, e, p);
      }
    }
  }

  /** A new entity with zero arrays for every requested metric keeps the map dense. */
  lemma DenseAdd(series: SeriesMap, keys: seq<string>, ids: seq<string>, n: nat, key: string,
                 zero: map<string, seq<real>>)
    requires Dense(series, keys, ids, n) && key !in series
    requires forall m :: m in zero <==> m in ids
    requires forall m :: m in zero ==> zero[m] == Zeros(n)
    ensures Dense(series[key := zero], keys + [key], ids, n)
  {
  }

  /** Overwriting one position of an entity's arrays keeps the map dense. */
  lemma DenseWrite(series: SeriesMap, keys: seq<string>, ids: seq<string>, n: nat, key: string,
                   s: map<string, seq<real>>)
    requires Dense(series, keys, ids, n) && key in series
    requires forall m :: m in s <==> m in series[key]
    requires forall m :: m in s ==> |s[m]| == |series[key][m]|
    ensures Dense(series[key := s], keys, ids, n)
  {
  }

  /** Appending an entity to the key list appends its entry to the entity list. */
  lemma EntityListSnoc(keys: seq<string>, key: string, unit: Units.MeasurementUnit)
    ensures EntityList(keys + [key], unit) == EntityList(keys, unit) + [Entity(key, key, unit)]
  {
  }

  /** The body of buildSeriesMap's loop, for one heatmap row. */
  method SeriesRow(row: Heatmap.GridRow, metricIds: seq<string>, weekLabels: seq<string>,
                   weekIndex: map<string, int>, unit: Units.MeasurementUnit, ghost seen: seq<Heatmap.GridRow>,
                   entities0: seq<Entity>, series0: SeriesMap)
    returns (entities: seq<Entity>, series: SeriesMap)
    requires weekIndex == Heatmap.WeekIndex(weekLabels)
    requires entities0 == EntityList(SeriesEntities(seen, weekLabels), unit)
    requires Dense(series0, SeriesEntities(seen, weekLabels), metricIds, |weekLabels|)
    requires Agrees(series0, seen, weekLabels)
    ensures entities == EntityList(SeriesEntities(seen + [row], weekLabels), unit)
    ensures Dense(series, SeriesEntities(seen + [row], weekLabels), metricIds, |weekLabels|)
    ensures Agrees(series, seen + [row], weekLabels)
  {
    entities, series := entities0, series0;
    ghost var keys := SeriesEntities(seen, weekLabels);
    SeriesEntitiesStep(seen, row, weekLabels);
    Heatmap.WeekIndexSpec(weekLabels, row.week);
    if row.week in weekIndex {
      var key := EntityKey(row);
      if key !in series {
        var zero := ZeroSeries(metricIds, |weekLabels|);
        ZeroAgrees(series, seen, weekLabels, key, zero);
        DenseAdd(series, keys, metricIds, |weekLabels|, key, zero);
        EntityListSnoc(keys, key, unit);
        series := series[key := zero];
        entities := entities + [Entity(key, key, unit)];
        keys := keys + [key];
      }
      var idx := weekIndex[row.week];
      var s := WriteRow(series[key], row, metricIds, idx);
      WriteAgrees(series, seen, row, weekLabels, metricIds, s);
      DenseWrite(series, keys, metricIds, |weekLabels|, key, s);
      series := series[key := s];
    } else {
      SkipAgrees(series, seen, row, weekLabels);
    }
  }

  /** `buildSeriesMap`: one entry per entity in the window, in first-appearance
      order, each with a zero-initialised array of length |weeks| per
      requested metric, overwritten by the rows at their week's index. */
  method BuildSeriesMap(rows: seq<Heatmap.GridRow>, metricIds: seq<string>, weekLabels: seq<string>,
                        unit: Units.MeasurementUnit)
    returns (entities: seq<Entity>, series: SeriesMap)
    ensures entities == EntityList(SeriesEntities(rows, weekLabels), unit)
    ensures Dense(series, SeriesEntities(rows, weekLabels), metricIds, |weekLabels|)
    ensures Agrees(series, rows, weekLabels)
  {
    var weekIndex := Heatmap.WeekIndex(weekLabels);
    entities := [];
    series := map[];
    var i := 0;
    while i < |rows|
      invariant 0 <= i <= |rows|
      invariant entities == EntityList(SeriesEntities(rows[..i], weekLabels), unit)
      invariant Dense(series, SeriesEntities(rows[..i], weekLabels), metricIds, |weekLabels|)
      invariant Agrees(series, rows[..i], weekLabels)
    {
      assert rows[..i + 1] == rows[..i] + [rows[i]];
      entities, series := SeriesRow(rows[i], metricIds, weekLabels, weekIndex, unit, rows[..i], entities, series);
      i := i + 1;
    }
    assert rows[..|rows|] == rows;
  }

  // ---------------------------------------------------------------------------
  // Properties of the series map

  /** The entity list has no duplicates and holds exactly the entities of the
      rows in the window. */
  lemma {:induction false} SeriesEntitiesSpec(rows: seq<Heatmap.GridRow>, weeks: seq<string>, e: string)
    ensures Text.NoDups(SeriesEntities(rows, weeks))
    ensures e in SeriesEntities(rows, weeks) <==> exists j :: 0 <= j < |rows| && Feeds(rows[j], weeks, e)
  {
    if rows != [] {
      var q := rows[..|rows| - 1];
      SeriesEntitiesSpec(q, weeks, e);
      assert forall j :: 0 <= j < |q| ==> q[j] == rows[j];
      if Feeds(rows[|rows| - 1], weeks, e) {
        assert e in SeriesEntities(rows, weeks);
      }
    }
  }

  /** First-appearance order: the entities of a prefix of the rows are a
      prefix of the entities of all rows. */
  lemma {:induction false} SeriesEntitiesPrefix(rows: seq<Heatmap.GridRow>, weeks: seq<string>, k: nat)
    requires k <= |rows|
    ensures SeriesEntities(rows[..k], weeks) <= SeriesEntities(rows, weeks)
  {
    if k < |rows| {
      var q := rows[..|rows| - 1];
      assert q[..k] == rows[..k];
      SeriesEntitiesPrefix(q, weeks, k);
    } else {
      assert rows[..k] == rows;
    }
  }

  /** The last row that hits a cell decides its value; a metric that row
      lacks reads 0. */
  lemma {:induction false} WrittenLast(rows: seq<Heatmap.GridRow>, weeks: seq<string>, e: string, m: string, p: int, j: int)
    requires 0 <= j < |rows| && HitsCell(rows[j], weeks, e, p)
    requires forall k :: j < k < |rows| ==> !HitsCell(rows[k], weeks, e, p)
    ensures Written(rows, weeks, e, m, p) == RowValue(rows[j], m)
    ensures m !in rows[j].metrics ==> Written(rows, weeks, e, m, p) == 0.0
  {
    if j < |rows| - 1 {
      var q := rows[..|rows| - 1];
      assert q[j] == rows[j];
      WrittenLast(q, weeks, e, m, p, j);
    }
  }

  /** A cell that no row hits keeps its 0. */
  lemma {:induction false} WrittenUntouched(rows: seq<Heatmap.GridRow>, weeks: seq<string>, e: string, m: string, p: int)
    requires forall k :: 0 <= k < |rows| ==> !HitsCell(rows[k], weeks, e, p)
    ensures Written(rows, weeks, e, m, p) == 0.0
  {
    if rows != [] {
      var q := rows[..|rows| - 1];
      assert forall k :: 0 <= k < |q| ==> q[k] == rows[k];
      WrittenUntouched(q, weeks, e, m, p);
    }
  }

  /** Rows whose week is outside the window change nothing. */
  lemma {:induction false} OutsideWindowIgnored(rows: seq<Heatmap.GridRow>, extra: seq<Heatmap.GridRow>, weeks: seq<string>,
                                                e: string, m: string, p: int)
    requires forall k :: 0 <= k < |extra| ==> extra[k].week !in weeks
    ensures SeriesEntities(rows + extra, weeks) == SeriesEntities(rows, weeks)
    ensures Written(rows + extra, weeks, e, m, p) == Written(rows, weeks, e, m, p)
  {
    if extra == [] {
      assert rows + extra == rows;
    } else {
      var q := extra[..|extra| - 1];
      assert rows + extra == (rows + q) + [extra[|extra| - 1]];
      OutsideWindowIgnored(rows, q, weeks, e, m, p);
      SeriesEntitiesStep(rows + q, extra[|extra| - 1], weeks);
      WrittenStep(rows + q, extra[|extra| - 1], weeks, e, m, p);
    }
  }

  /** Only the last position of a repeated week label is ever written. */
  lemma WrittenOnlyAtLastIndex(rows: seq<Heatmap.GridRow>, weeks: seq<string>, e: string, m: string, p: int)
    requires 0 <= p < |weeks| && exists q :: p < q < |weeks| && weeks[q] == weeks[p]
    ensures Written(rows, weeks, e, m, p) == 0.0
  {
    forall k | 0 <= k < |rows| ensures !HitsCell(rows[k], weeks, e, p) {
      Heatmap.WeekIndexSpec(weeks, rows[k].week);
      Heatmap.WeekIndexSpec(weeks, weeks[p]);
    }
    WrittenUntouched(rows, weeks, e, m, p);
  }

  // ---------------------------------------------------------------------------
  // Context for the summary request

  datatype MetricSummary = MetricSummary(metricId: string, name: string, latest: Option<real>,
                                         delta: Option<real>, format: Format)

  datatype Context = Context(unit: string, filter: string, weeks: seq<string>, primaryMetricId: string,
                             metricSummaries: seq<MetricSummary>)

  /** The page passes "전체" as the filter when the "all" option is chosen. */
  function ContextFilter(filterValue: string): (f: string)
    ensures filterValue == AllValue ==> f == AllLabel
    ensures filterValue != AllValue ==> f == filterValue
  {
    if filterValue == AllValue then AllLabel else filterValue
  }

  /** The series of the context's entity, else of the whole market, else none. */
  function SeriesFor(seriesByEntity: SeriesMap, unit: Units.MeasurementUnit, filterValue: string): (s: map<string, seq<real>>)
    ensures var key := if unit == Units.All then AllLabel else filterValue;
      if key in seriesByEntity then s == seriesByEntity[key]
      else if AllLabel in seriesByEntity then s == seriesByEntity[AllLabel]
      else s == map[]
  {
    var key := if unit == Units.All then AllLabel else filterValue;
    if key in seriesByEntity then seriesByEntity[key]
    else if AllLabel in seriesByEntity then seriesByEntity[AllLabel]
    else map[]
  }

  function Summarize(series: map<string, seq<real>>, metric: Metric): (s: MetricSummary)
    ensures s.metricId == metric.id && s.name == metric.name && s.format == metric.format
    ensures var values := if metric.id in series then series[metric.id] else [];
      (s.latest.Some? <==> |values| >= 1) &&
      (s.latest.Some? ==> s.latest.value == values[0]) &&
      (s.delta.Some? <==> |values| >= 2) &&
      (s.delta.Some? ==> s.latest.Some? && s.delta.value == s.latest.value - values[1])
  {
    var values := if metric.id in series then series[metric.id] else [];
    var latest := if |values| >= 1 then Some(values[0]) else None;
    var delta := if |values| > 1 then Some(values[0] - values[1]) else None;
    MetricSummary(metric.id, metric.name, latest, delta, metric.format)
  }

  /** `buildContext`: the unit's label, the filter, the weeks, the primary id
      ("" when none) and one summary per metric, in order. */
  function BuildContext(weeks: seq<string>, metrics: seq<Metric>, primaryMetricId: Option<string>,
                        seriesByEntity: SeriesMap, unit: Units.MeasurementUnit, filterValue: string): (c: Context)
    ensures c.unit == Units.UnitLabel(unit) && c.filter == filterValue && c.weeks == weeks
    ensures c.primaryMetricId == primaryMetricId.GetOr("")
    ensures |c.metricSummaries| == |metrics|
    ensures forall k :: 0 <= k < |metrics| ==>
      c.metricSummaries[k] == Summarize(SeriesFor(seriesByEntity, unit, filterValue), metrics[k])
  {
    var series := SeriesFor(seriesByEntity, unit, filterValue);
    Context(Units.UnitLabel(unit), filterValue, weeks, primaryMetricId.GetOr(""),
            seq(|metrics|, k requires 0 <= k < |metrics| => Summarize(series, metrics[k])))
  }

  /** On a series map built from the rows, the context's latest value of a
      requested metric is what the rows left at the first week position, and
      its delta is the difference to the second. */
  lemma ContextReadsSeries(rows: seq<Heatmap.GridRow>, ids: seq<string>, weeks: seq<string>, series: SeriesMap,
                           metrics: seq<Metric>, unit: Units.MeasurementUnit, filterValue: string, k: int)
    requires Dense(series, SeriesEntities(rows, weeks), ids, |weeks|) && Agrees(series, rows, weeks)
    requires 0 <= k < |metrics| && metrics[k].id in ids && |weeks| >= 2
    requires (if unit == Units.All then AllLabel else filterValue) in series
    ensures var key := if unit == Units.All then AllLabel else filterValue;
      var s := BuildContext(weeks, metrics, None, series, unit, filterValue).metricSummaries[k];
      s.latest == Some(Written(rows, weeks, key, metrics[k].id, 0)) &&
      s.delta == Some(Written(rows, weeks, key, metrics[k].id, 0) - Written(rows, weeks, key, metrics[k].id, 1))
  {
    var key := if unit == Units.All then AllLabel else filterValue;
    var m := metrics[k].id;
    assert m in series[key];
    assert |series[key][m]| == |weeks|;
    assert series[key][m][0] == Written(rows, weeks, key, m, 0);
    assert series[key][m][1] == Written(rows, weeks, key, m, 1);
  }
}
