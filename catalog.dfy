/** The catalog side of app/lib/dataQueries.ts: the week window
    (buildWeekEntries, getWeeksData, getWeeks, getLatestWeek), the supported
    metrics and the metric dictionary (getBaseMetricColumns,
    getSupportedMetricIds, getMetricDictionary) and the filter options
    (getFilterOptions). Every store read is an input: a `Result` that is either
    the rows the query returned or the error message it failed with. */
module Catalog {
  import opened Wrappers
  import opened Values
  import Text

  /** The reserved name of the single entity of unit "all". */
  const AllLabel: string := "전체"
  const WeekLimitDefault: int := 104

  /** The measure units the queries accept (QueryMeasureUnit). */
  datatype Unit = All | AreaGroup | Area | StadiumGroup | Stadium

  function UnitId(u: Unit): string {
    match u
    case All => "all"
    case AreaGroup => "area_group"
    case Area => "area"
    case StadiumGroup => "stadium_group"
    case Stadium => "stadium"
  }

  /** The unit a name stands for, if any; no two units share a name. */
  function UnitNamed(name: string): (r: Option<Unit>)
    ensures forall u :: UnitId(u) == name <==> r == Some(u)
  {
    if name == "all" then Some(All)
    else if name == "area_group" then Some(AreaGroup)
    else if name == "area" then Some(Area)
    else if name == "stadium_group" then Some(StadiumGroup)
    else if name == "stadium" then Some(Stadium)
    else None
  }

  /** columnByUnit: the fact-table column that holds a unit's entities. */
  function UnitColumn(u: Unit): string
    requires u != All
  {
    UnitId(u)
  }

  /** The fact-table columns that are never metrics. */
  const MetricColumnBlacklist: set<string> := {
    "_airbyte_raw_id", "_airbyte_extracted_at", "_airbyte_meta", "_airbyte_generation_id",
    "day", "area", "hour", "time", "week", "year", "yoil", "month", "quarter", "stadium",
    "area_group", "yoil_group", "period_type", "stadium_group", "dimension_type"
  }

  /** A row of the weekly rollup view (HeatmapAggRow): every column may be null. */
  datatype RollupRow = RollupRow(
    week: Option<string>, measureUnit: Option<string>, filterValue: Option<string>,
    metricId: Option<string>, value: Cell)

  /** `isRateMetric`: ids ending in "_rate" are rates. */
  predicate IsRateMetric(metricId: string) {
    Text.EndsWith(metricId, "_rate")
  }

  // ---------------------------------------------------------------------------
  // Weeks

  /** A row of the week index; `week` is None when it is null or not a string. */
  datatype WeekRow = WeekRow(week: Option<string>, weekStartDate: Option<string>)
  datatype WeekEntry = WeekEntry(week: string, startDate: Option<string>)
  datatype Order = Asc | Desc

  function EntryOf(row: WeekRow): WeekEntry {
    WeekEntry(if row.week.Some? then Text.Trim(row.week.value) else [], row.weekStartDate)
  }

  /** A label as `trim` leaves it: not empty, no white space at either end. */
  predicate IsTrimmedLabel(w: string) {
    w != [] && Text.IsTrimmed(w)
  }

  /** Every row, mapped (the `map` of buildWeekEntries before its `filter`). */
  function AllEntries(rows: seq<WeekRow>): (r: seq<WeekEntry>)
    ensures |r| == |rows| && forall j :: 0 <= j < |rows| ==> r[j] == EntryOf(rows[j])
  {
    seq(|rows|, j requires 0 <= j < |rows| => EntryOf(rows[j]))
  }

  /** The `map`/`filter` of buildWeekEntries: trimmed labels, blank ones dropped,
      input order kept. */
  function WeekEntries(rows: seq<WeekRow>): (r: seq<WeekEntry>)
    ensures |r| <= |rows|
    ensures forall i :: 0 <= i < |r| ==> IsTrimmedLabel(r[i].week)
    ensures Text.IsSubsequence(r, AllEntries(rows))
    ensures forall e :: multiset(r)[e] == if e.week != [] then multiset(AllEntries(rows))[e] else 0
  {
    if rows == [] then []
    else
      var e := EntryOf(rows[0]);
      var rest := WeekEntries(rows[1..]);
      assert AllEntries(rows) == [e] + AllEntries(rows[1..]);
      if e.week != [] then
        EntryLabelTrimmed(rows[0]);
        assert ([e] + rest)[1..] == rest;
        [e] + rest
      else rest
  }

  lemma EntryLabelTrimmed(row: WeekRow)
    ensures EntryOf(row).week != [] ==> IsTrimmedLabel(EntryOf(row).week)
  {
    if row.week.Some? { Text.TrimSpec(row.week.value); }
  }

  /** Exactly the rows whose trimmed label is not empty become entries. */
  lemma {:induction false} WeekEntriesMembers(rows: seq<WeekRow>)
    ensures forall e :: e in WeekEntries(rows) <==> e in AllEntries(rows) && e.week != []
  {
    if rows != [] {
      WeekEntriesMembers(rows[1..]);
      assert AllEntries(rows) == [EntryOf(rows[0])] + AllEntries(rows[1..]);
    }
  }

  /** An absent or non-positive limit means the default of 104. */
  function EffectiveLimit(limit: Option<int>): (n: int)
    ensures n > 0
    ensures limit.None? ==> n == WeekLimitDefault
    ensures limit.Some? ==> n == if limit.value > 0 then limit.value else WeekLimitDefault
  {
    if limit.Some? && limit.value > 0 then limit.value else WeekLimitDefault
  }

  /** buildWeekEntries: `view` is the week index in the store's order (week start
      date descending); the store keeps the first `EffectiveLimit(limit)` rows. */
  function BuildWeekEntries(limit: Option<int>, view: Result<seq<WeekRow>>): (r: Result<seq<WeekEntry>>)
    ensures r.Ok? <==> view.Ok?
    ensures view.Err? ==> r.message == view.message
    ensures r.Ok? ==> |r.value| <= EffectiveLimit(limit)
  {
    if view.Err? then Err(view.message)
    else Ok(WeekEntries(Text.Take(view.value, EffectiveLimit(limit))))
  }

  /** getWeeksData: the limit defaults to 104 and the order to "asc"; "desc" is
      the store's most-recent-first order and "asc" its reverse. */
  function GetWeeksData(limit: Option<int>, order: Option<Order>, view: Result<seq<WeekRow>>): (r: Result<seq<WeekEntry>>)
    ensures r.Ok? <==> view.Ok?
    ensures view.Err? ==> r.message == view.message
    ensures r.Ok? ==> |r.value| <= EffectiveLimit(limit)
  {
    var l := limit.GetOr(WeekLimitDefault);
    var entries := BuildWeekEntries(Some(l), view);
    if entries.Err? then Err(entries.message)
    else
      var limited := if l > 0 then Text.Take(entries.value, l) else entries.value;
      Ok(if order == Some(Desc) then limited else Text.Reverse(limited))
  }

  /** The "asc" window is the exact reverse of the "desc" window, and "asc" is the default. */
  lemma AscIsReverseOfDesc(limit: Option<int>, view: Result<seq<WeekRow>>)
    requires view.Ok?
    ensures GetWeeksData(limit, Some(Asc), view).value == Text.Reverse(GetWeeksData(limit, Some(Desc), view).value)
    ensures GetWeeksData(limit, None, view) == GetWeeksData(limit, Some(Asc), view)
    ensures Text.Reverse(GetWeeksData(limit, Some(Asc), view).value) == GetWeeksData(limit, Some(Desc), view).value
  {
    Text.ReverseReverse(GetWeeksData(limit, Some(Desc), view).value);
  }

  /** The "desc" window lists the labelled rows among the first
      `EffectiveLimit(limit)` rows of the index, in index order. */
  lemma DescWindow(limit: Option<int>, view: Result<seq<WeekRow>>)
    requires view.Ok?
    ensures var d := GetWeeksData(limit, Some(Desc), view).value;
      d == WeekEntries(Text.Take(view.value, EffectiveLimit(limit)))
  {
    var l := limit.GetOr(WeekLimitDefault);
    var e := WeekEntries(Text.Take(view.value, EffectiveLimit(limit)));
    assert EffectiveLimit(Some(l)) == EffectiveLimit(limit);
    assert l > 0 ==> |e| <= l;
  }

  /** getWeeks: the labels of the ascending window, limit 104 by default. */
  function GetWeeks(limit: Option<int>, view: Result<seq<WeekRow>>): (r: Result<seq<string>>)
    ensures r.Ok? <==> view.Ok?
    ensures view.Err? ==> r.message == view.message
    ensures r.Ok? ==> |r.value| <= EffectiveLimit(limit)
    ensures r.Ok? ==> forall i :: 0 <= i < |r.value| ==> r.value[i] != []
    ensures r.Ok? ==> var w := GetWeeksData(limit, Some(Asc), view).value;
      |r.value| == |w| && forall i :: 0 <= i < |w| ==> r.value[i] == w[i].week
  {
    var w := GetWeeksData(Some(limit.GetOr(WeekLimitDefault)), Some(Asc), view);
    if w.Err? then Err(w.message) else Ok(seq(|w.value|, i requires 0 <= i < |w.value| => w.value[i].week))
  }

  /** getLatestWeek: the label of the first row of the index, or null when that
      row has no label (the store returns that one row only). */
  function GetLatestWeek(view: Result<seq<WeekRow>>): (r: Result<Option<string>>)
    ensures r.Ok? <==> view.Ok?
    ensures view.Err? ==> r.message == view.message
    ensures r.Ok? && r.value.Some? ==> r.value.value != []
  {
    var w := GetWeeksData(Some(1), Some(Desc), view);
    if w.Err? then Err(w.message) else Ok(if w.value == [] then None else Some(w.value[0].week))
  }

  lemma LatestWeekIsFirstRow(view: Result<seq<WeekRow>>)
    requires view.Ok?
    ensures view.value == [] ==> GetLatestWeek(view) == Ok(None)
    ensures view.value != [] ==>
      GetLatestWeek(view) == Ok(if EntryOf(view.value[0]).week == [] then None else Some(EntryOf(view.value[0]).week))
  {
    if view.value != [] {
      assert Text.Take(view.value, 1) == [view.value[0]];
      assert WeekEntries([view.value[0]]) == (if EntryOf(view.value[0]).week != [] then [EntryOf(view.value[0])] else []);
    }
  }

  // ---------------------------------------------------------------------------
  // Metric catalog

  /** The columns of `sample` that are not blacklisted, in sample order. */
  function NonBlacklisted(columns: seq<string>): (r: seq<string>)
    ensures forall c :: c in r <==> c in columns && c !in MetricColumnBlacklist
  {
    if columns == [] then []
    else (if columns[0] in MetricColumnBlacklist then [] else [columns[0]]) + NonBlacklisted(columns[1..])
  }

  /** getBaseMetricColumns: `sample` is the first fact row's column names, or
      None when the table is empty. */
  function BaseMetricColumns(sample: Result<Option<seq<string>>>): (r: Result<seq<string>>)
    ensures r.Ok? <==> sample.Ok?
    ensures sample.Err? ==> r.message == sample.message
    ensures r.Ok? && sample.value.None? ==> r.value == []
    ensures r.Ok? && sample.value.Some? ==> forall c :: c in r.value <==> c in sample.value.value && c !in MetricColumnBlacklist
  {
    if sample.Err? then Err(sample.message)
    else if sample.value.None? then Ok([])
    else Ok(NonBlacklisted(sample.value.value))
  }

  /** The dictionary ids that are also sampled columns, in dictionary order. */
  function KeepAvailable(ids: seq<string>, available: set<string>): (r: seq<string>)
    ensures forall m :: m in r <==> m in ids && m in available
    ensures available == {} ==> r == []
  {
    if ids == [] then []
    else (if ids[0] in available then [ids[0]] else []) + KeepAvailable(ids[1..], available)
  }

  /** getSupportedMetricIds: `dict` is the dictionary's `metric` column,
      `sample` the fact-table sample. A failed sample fails first (it is the
      awaited call that throws), a failed dictionary read second. */
  function SupportedMetricIds(dict: Result<seq<string>>, sample: Result<Option<seq<string>>>): (r: Result<seq<string>>)
    ensures sample.Err? ==> r == Err(sample.message)
    ensures sample.Ok? && dict.Err? ==> r == Err(dict.message)
    ensures r.Ok? ==> Text.StrictlySorted(r.value)
  {
    var base := BaseMetricColumns(sample);
    if base.Err? then Err(base.message)
    else if dict.Err? then Err(dict.message)
    else
      var kept := KeepAvailable(dict.value, set c | c in base.value);
      Text.SortedUniqueSpec(kept);
      Ok(Text.SortedUnique(kept))
  }

  /** The supported ids are strictly ascending (so free of duplicates) and are
      exactly the dictionary ids that are sampled, non-blacklisted columns; an
      empty sample supports nothing. */
  lemma SupportedMetricIdsSpec(dict: Result<seq<string>>, sample: Result<Option<seq<string>>>)
    ensures var r := SupportedMetricIds(dict, sample);
      && (sample.Err? ==> r == Err(sample.message))
      && (sample.Ok? && dict.Err? ==> r == Err(dict.message))
      && (r.Ok? <==> sample.Ok? && dict.Ok?)
      && (r.Ok? ==> Text.StrictlySorted(r.value) && Text.NoDups(r.value))
      && (r.Ok? ==> forall m :: m in r.value <==>
            m in dict.value && sample.value.Some? && m in sample.value.value && m !in MetricColumnBlacklist)
      && (r.Ok? && sample.value.None? ==> r.value == [])
  {
    if sample.Ok? && dict.Ok? {
      var base := BaseMetricColumns(sample);
      var kept := KeepAvailable(dict.value, set c | c in base.value);
      Text.SortedUniqueSpec(kept);
      if sample.value.None? {
        assert (set c | c in base.value) == {};
        assert Text.SortedUnique([]) == [];
      }
    }
  }

  /** A row of the metric dictionary. */
  datatype DictRow = DictRow(metric: string, koreanName: string, description: Option<string>)

  predicate SortedByMetric(rows: seq<DictRow>) {
    forall i, j :: 0 <= i < j < |rows| ==> Text.LessEq(rows[i].metric, rows[j].metric)
  }

  /** Insert `x` before the first row whose id is not below its own: a stable insertion. */
  function InsertRow(x: DictRow, rows: seq<DictRow>): (r: seq<DictRow>)
    requires SortedByMetric(rows)
    ensures SortedByMetric(r)
    ensures multiset(r) == multiset(rows) + multiset{x}
  {
    if rows == [] then [x]
    else if Text.LessEq(x.metric, rows[0].metric) then
      InsertRowFront(x, rows);
      [x] + rows
    else
      Text.LessTotal(x.metric, rows[0].metric);
      var t := InsertRow(x, rows[1..]);
      assert rows == [rows[0]] + rows[1..];
      InsertRowBehind(x, rows, t);
      [rows[0]] + t
  }

  lemma InsertRowFront(x: DictRow, rows: seq<DictRow>)
    requires SortedByMetric(rows) && rows != [] && Text.LessEq(x.metric, rows[0].metric)
    ensures SortedByMetric([x] + rows)
  {
    forall i, j | 0 <= i < j < |rows| + 1
      ensures Text.LessEq(([x] + rows)[i].metric, ([x] + rows)[j].metric)
    {
      if i == 0 { Text.LessEqTransitive(x.metric, rows[0].metric, rows[j - 1].metric); }
    }
  }

  lemma InsertRowBehind(x: DictRow, rows: seq<DictRow>, t: seq<DictRow>)
    requires SortedByMetric(rows) && rows != [] && Text.LessEq(rows[0].metric, x.metric) && SortedByMetric(t)
    requires multiset(t) == multiset(rows[1..]) + multiset{x}
    ensures SortedByMetric([rows[0]] + t)
  {
    forall k | 0 <= k < |t| ensures Text.LessEq(rows[0].metric, t[k].metric) {
      assert t[k] in multiset(t);
      if t[k] != x {
        assert t[k] in rows[1..];
        var j :| 0 <= j < |rows[1..]| && rows[1..][j] == t[k];
        assert rows[1 + j] == t[k];
      }
    }
  }

  /** The comparator sort `(a, b) => a.metric.localeCompare(b.metric)`: stable,
      ordered by id, a permutation of its input. */
  function SortRowsByMetric(rows: seq<DictRow>): (r: seq<DictRow>)
    ensures SortedByMetric(r)
    ensures multiset(r) == multiset(rows)
  {
    if rows == [] then []
    else
      assert rows == [rows[0]] + rows[1..];
      InsertRow(rows[0], SortRowsByMetric(rows[1..]))
  }

  /** `rows.filter((row) => supportedSet.has(row.metric))`: the rows with an
      allowed id, in input order, each as often as in the input. */
  function KeepSupportedRows(rows: seq<DictRow>, allowed: set<string>): (r: seq<DictRow>)
    ensures forall x :: x in r <==> x in rows && x.metric in allowed
    ensures forall x :: multiset(r)[x] == if x.metric in allowed then multiset(rows)[x] else 0
    ensures Text.IsSubsequence(r, rows)
  {
    if rows == [] then []
    else
      assert rows == [rows[0]] + rows[1..];
      var rest := KeepSupportedRows(rows[1..], allowed);
      if rows[0].metric in allowed then
        assert ([rows[0]] + rest)[1..] == rest;
        [rows[0]] + rest
      else rest
  }

  /** getMetricDictionary: the dictionary rows whose id is supported, ordered by
      id; descriptions stay as they are (null included). A failure of
      `supported` is reported first. */
  function MetricDictionary(rows: Result<seq<DictRow>>, supported: Result<seq<string>>): (r: Result<seq<DictRow>>)
    ensures supported.Err? ==> r == Err(supported.message)
    ensures supported.Ok? && rows.Err? ==> r == Err(rows.message)
    ensures r.Ok? <==> supported.Ok? && rows.Ok?
    ensures r.Ok? ==> SortedByMetric(r.value)
    ensures r.Ok? ==> forall x :: x in r.value <==> x in rows.value && x.metric in supported.value
    ensures r.Ok? ==> forall x :: multiset(r.value)[x] == if x.metric in supported.value then multiset(rows.value)[x] else 0
  {
    if supported.Err? then Err(supported.message)
    else if rows.Err? then Err(rows.message)
    else
      var kept := KeepSupportedRows(rows.value, set m | m in supported.value);
      var sorted := SortRowsByMetric(kept);
      assert forall x :: x in sorted <==> x in kept by {
        forall x ensures x in sorted <==> x in kept {
          assert x in sorted <==> x in multiset(sorted);
          assert x in kept <==> x in multiset(kept);
        }
      }
      Ok(sorted)
  }

  // ---------------------------------------------------------------------------
  // Filter options

  function NonBlankValues(column: seq<Option<string>>): (r: seq<string>)
    ensures forall v :: v in r <==> Some(v) in column && !Text.IsBlank(v)
  {
    if column == [] then []
    else
      (if column[0].Some? && !Text.IsBlank(column[0].value) then [column[0].value] else [])
        + NonBlankValues(column[1..])
  }

  /** getFilterOptions: "all" needs no store read and yields the single
      reserved entity; any other unit yields the distinct non-blank values of
      its column (untrimmed), sorted. */
  function FilterOptions(unit: Unit, column: Result<seq<Option<string>>>): (r: Result<seq<string>>)
    ensures unit == All ==> r == Ok([AllLabel])
    ensures unit != All ==> (r.Ok? <==> column.Ok?)
    ensures unit != All && column.Err? ==> r.message == column.message
  {
    if unit == All then Ok([AllLabel])
    else if column.Err? then Err(column.message)
    else Ok(Text.SortedUnique(NonBlankValues(column.value)))
  }

  lemma FilterOptionsSpec(unit: Unit, column: Result<seq<Option<string>>>)
    requires unit != All && column.Ok?
    ensures var r := FilterOptions(unit, column).value;
      && Text.StrictlySorted(r)
      && forall v :: v in r <==> Some(v) in column.value && !Text.IsBlank(v)
  {
    Text.SortedUniqueSpec(NonBlankValues(column.value));
  }
}
