/** mapHeatmapRows and getHeatmap of app/lib/dataQueries.ts: the rollup rows
    are grouped by entity and week into a dense grid (every entity seen, for
    every requested week, with every requested metric), later rows overwrite
    earlier ones, and the grid is sorted by entity and then by week position.
    getHeatmap picks the metric ids, reads the rollup view and, when allowed
    and the view has nothing for a non-"all" unit, rebuilds the rows from the
    fact table. */
module Heatmap {
  import opened Wrappers
  import opened Values
  import Text
  import Catalog
  import Fallback

  /** One cell of the grid: an entity's metrics for one week. */
  datatype GridRow = GridRow(entity: string, week: string, metrics: map<string, real>)

  /** A rollup row that survived the filters, with its parsed parts. */
  datatype Accepted = Accepted(entity: string, week: string, metric: string, value: real)

  /** The stored value: `typeof v === "number" ? v : Number(v ?? 0)`, and 0
      when that is not finite. */
  function StoredValue(c: Cell): (r: real)
    ensures c.Null? ==> r == 0.0
    ensures c.Number? && c.n.Finite? ==> r == c.n.v
    ensures c.Number? && !c.n.Finite? ==> r == 0.0
    ensures c.Text? && Text.IsBlank(c.s) ==> r == 0.0
    ensures c.Text? && !Text.IsBlank(c.s) ==> r == if c.parsed.Finite? then c.parsed.v else 0.0
  {
    match ToNumber(c)
    case Finite(v) => v
    case _ => 0.0
  }

  /** The three `continue` guards of the first loop: the week as given, the
      entity ("전체" for unit all, else the trimmed filter value) and the
      trimmed metric id must be non-empty. */
  function Accept(row: Catalog.RollupRow, unit: Catalog.Unit): (r: Option<Accepted>)
    ensures r.Some? ==> Some(r.value.week) == row.week && r.value.week != []
    ensures r.Some? ==> r.value.metric != [] && Text.IsTrimmed(r.value.metric)
    ensures r.Some? ==> r.value.entity != [] && Text.IsTrimmed(r.value.entity)
    ensures r.Some? && unit == Catalog.All ==> r.value.entity == Catalog.AllLabel
    ensures r.Some? ==> r.value.value == StoredValue(row.value)
    ensures row.week.None? || row.week == Some([]) ==> r.None?
    ensures r.Some? && unit != Catalog.All ==> r.value.entity == Text.Trim(row.filterValue.GetOr(""))
    ensures r.Some? ==> r.value.metric == Text.Trim(row.metricId.GetOr(""))
    ensures r.Some? <==> (row.week.GetOr("") != []
                          && (unit == Catalog.All || Text.Trim(row.filterValue.GetOr("")) != [])
                          && Text.Trim(row.metricId.GetOr("")) != [])
  {
    var week := row.week.GetOr("");
    var entity := if unit == Catalog.All then Catalog.AllLabel else Text.Trim(row.filterValue.GetOr(""));
    var metric := Text.Trim(row.metricId.GetOr(""));
    Text.TrimSpec(row.filterValue.GetOr(""));
    Text.TrimSpec(row.metricId.GetOr(""));
    if week == [] || entity == [] || metric == [] then None
    else Some(Accepted(entity, week, metric, StoredValue(row.value)))
  }

  /** Row `row` writes metric values into the cell of entity `e`, week `w`. */
  predicate Hits(row: Catalog.RollupRow, unit: Catalog.Unit, e: string, w: string) {
    Accept(row, unit).Some? && Accept(row, unit).value.entity == e && Accept(row, unit).value.week == w
  }

  // ---------------------------------------------------------------------------
  // Specification of the grouping loop

  /** The entities in the order the `byEntity` map first sees them. */
  function Entities(rows: seq<Catalog.RollupRow>, unit: Catalog.Unit): seq<string> {
    if rows == [] then []
    else
      var p := Entities(rows[..|rows| - 1], unit);
      var a := Accept(rows[|rows| - 1], unit);
      if a.Some? && a.value.entity !in p then p + [a.value.entity] else p
  }

  /** `initial` / `emptyMetrics`: every requested metric set to 0. */
  function Zero(ids: seq<string>): map<string, real> {
    if ids == [] then map[] else Zero(ids[..|ids| - 1])[ids[|ids| - 1] := 0.0]
  }

  /** The metrics of entity `e` in week `w` after `rows`, or None when no row hit that cell. */
  function CellOf(rows: seq<Catalog.RollupRow>, unit: Catalog.Unit, ids: seq<string>, e: string, w: string)
    : Option<map<string, real>>
  {
    if rows == [] then None
    else
      var c := CellOf(rows[..|rows| - 1], unit, ids, e, w);
      var a := Accept(rows[|rows| - 1], unit);
      if a.Some? && a.value.entity == e && a.value.week == w then
        Some((if c.Some? then c.value else Zero(ids))[a.value.metric := a.value.value])
      else c
  }

  function CellOrZero(rows: seq<Catalog.RollupRow>, unit: Catalog.Unit, ids: seq<string>, e: string, w: string)
    : map<string, real>
  {
    CellOf(rows, unit, ids, e, w).GetOr(Zero(ids))
  }

  /** The value of the last row that wrote metric `m` into cell (e, w). */
  function LastValue(rows: seq<Catalog.RollupRow>, unit: Catalog.Unit, e: string, w: string, m: string)
    : Option<real>
  {
    if rows == [] then None
    else
      var a := Accept(rows[|rows| - 1], unit);
      if a.Some? && a.value.entity == e && a.value.week == w && a.value.metric == m then Some(a.value.value)
      else LastValue(rows[..|rows| - 1], unit, e, w, m)
  }

  /** The rows emitted for one entity: one per requested week, in request order. */
  function EntityRows(rows: seq<Catalog.RollupRow>, unit: Catalog.Unit, ids: seq<string>,
                      weeks: seq<string>, e: string): (r: seq<GridRow>)
    ensures |r| == |weeks|
    ensures forall j :: 0 <= j < |weeks| ==> r[j] == GridRow(e, weeks[j], CellOrZero(rows, unit, ids, e, weeks[j]))
  {
    seq(|weeks|, j requires 0 <= j < |weeks| => GridRow(e, weeks[j], CellOrZero(rows, unit, ids, e, weeks[j])))
  }

  /** The emission loops before the sort, for the entities `es`. */
  function Unsorted(rows: seq<Catalog.RollupRow>, unit: Catalog.Unit, ids: seq<string>,
                    weeks: seq<string>, es: seq<string>): seq<GridRow>
  {
    if es == [] then []
    else Unsorted(rows, unit, ids, weeks, es[..|es| - 1]) + EntityRows(rows, unit, ids, weeks, es[|es| - 1])
  }

  // ---------------------------------------------------------------------------
  // The sort

  /** `new Map(weeks.map((week, index) => [week, index]))`: a repeated week keeps its last index. */
  function WeekIndex(weeks: seq<string>): map<string, int> {
    if weeks == [] then map[] else WeekIndex(weeks[..|weeks| - 1])[weeks[|weeks| - 1] := |weeks| - 1]
  }

  /** `weekIndex.get(week) ?? 0`. */
  function Pos(index: map<string, int>, w: string): int {
    if w in index then index[w] else 0
  }

  /** The comparator is at most 0: entities in order, then week positions. */
  predicate GridLeq(a: GridRow, b: GridRow, index: map<string, int>) {
    Text.Less(a.entity, b.entity) || (a.entity == b.entity && Pos(index, a.week) <= Pos(index, b.week))
  }

  predicate GridSorted(s: seq<GridRow>, index: map<string, int>) {
    forall i, j :: 0 <= i < j < |s| ==> GridLeq(s[i], s[j], index)
  }

  lemma GridLeqTransitive(a: GridRow, b: GridRow, c: GridRow, index: map<string, int>)
    requires GridLeq(a, b, index) && GridLeq(b, c, index)
    ensures GridLeq(a, c, index)
  {
    if Text.Less(a.entity, b.entity) && Text.Less(b.entity, c.entity) {
      Text.LessTransitive(a.entity, b.entity, c.entity);
    }
  }

  lemma GridLeqTotal(a: GridRow, b: GridRow, index: map<string, int>)
    ensures GridLeq(a, b, index) || GridLeq(b, a, index)
  {
    Text.LessTotal(a.entity, b.entity);
  }

  /** Insert `x` before the first element it does not sort after (stable). */
  function InsertRow(x: GridRow, s: seq<GridRow>, index: map<string, int>): (r: seq<GridRow>)
    requires GridSorted(s, index)
    ensures GridSorted(r, index)
    ensures multiset(r) == multiset(s) + multiset{x}
  {
    if s == [] then [x]
    else if GridLeq(x, s[0], index) then
      InsertRowFront(x, s, index);
      [x] + s
    else
      GridLeqTotal(x, s[0], index);
      var t := InsertRow(x, s[1..], index);
      assert s == [s[0]] + s[1..];
      InsertRowBehind(x, s, t, index);
      [s[0]] + t
  }

  lemma InsertRowFront(x: GridRow, s: seq<GridRow>, index: map<string, int>)
    requires GridSorted(s, index) && s != [] && GridLeq(x, s[0], index)
    ensures GridSorted([x] + s, index)
  {
    forall i, j | 0 <= i < j < |s| + 1 ensures GridLeq(([x] + s)[i], ([x] + s)[j], index) {
      if i == 0 && j > 1 { GridLeqTransitive(x, s[0], s[j - 1], index); }
    }
  }

  lemma InsertRowBehind(x: GridRow, s: seq<GridRow>, t: seq<GridRow>, index: map<string, int>)
    requires GridSorted(s, index) && s != [] && GridLeq(s[0], x, index) && GridSorted(t, index)
    requires multiset(t) == multiset(s[1..]) + multiset{x}
    ensures GridSorted([s[0]] + t, index)
  {
    forall k | 0 <= k < |t| ensures GridLeq(s[0], t[k], index) {
      assert t[k] in multiset(t);
      if t[k] != x {
        assert t[k] in s[1..];
        var j :| 0 <= j < |s[1..]| && s[1..][j] == t[k];
        assert s[1 + j] == t[k];
      }
    }
  }

  /** `mapped.sort(compare)`: sorted and a permutation of its input; the sort is stable. */
  function SortGrid(xs: seq<GridRow>, index: map<string, int>): (r: seq<GridRow>)
    ensures GridSorted(r, index)
    ensures multiset(r) == multiset(xs)
  {
    if xs == [] then []
    else
      assert xs == [xs[0]] + xs[1..];
      InsertRow(xs[0], SortGrid(xs[1..], index), index)
  }

  /** The result of mapHeatmapRows. */
  function Grid(rows: seq<Catalog.RollupRow>, unit: Catalog.Unit, ids: seq<string>, weeks: seq<string>)
    : (r: seq<GridRow>)
    ensures GridSorted(r, WeekIndex(weeks))
    ensures multiset(r) == multiset(Unsorted(rows, unit, ids, weeks, Entities(rows, unit)))
  {
    SortGrid(Unsorted(rows, unit, ids, weeks, Entities(rows, unit)), WeekIndex(weeks))
  }

  // ---------------------------------------------------------------------------
  // The imperative mapper

  /** The cells `byWeek` holds are those of entity `e`. */
  ghost predicate MirrorsEntity(rows: seq<Catalog.RollupRow>, unit: Catalog.Unit, ids: seq<string>,
                                e: string, byWeek: map<string, map<string, real>>)
  {
    forall w :: (w in byWeek <==> CellOf(rows, unit, ids, e, w).Some?)
      && (w in byWeek ==> byWeek[w] == CellOf(rows, unit, ids, e, w).value)
  }

  /** `byEntity` holds, for every entity seen, exactly the cells some row hit,
      each with the metrics the rows so far gave it. */
  ghost predicate Mirrors(rows: seq<Catalog.RollupRow>, unit: Catalog.Unit, ids: seq<string>,
                          order: seq<string>, byEntity: map<string, map<string, map<string, real>>>)
  {
    && order == Entities(rows, unit)
    && (forall e :: e in byEntity <==> e in order)
    && (forall e :: e in byEntity ==> MirrorsEntity(rows, unit, ids, e, byEntity[e]))
  }

  lemma {:induction false} CellOfEntity(rows: seq<Catalog.RollupRow>, unit: Catalog.Unit, ids: seq<string>,
                                        e: string, w: string)
    requires CellOf(rows, unit, ids, e, w).Some?
    ensures e in Entities(rows, unit)
  {
    var p := rows[..|rows| - 1];
    if !Hits(rows[|rows| - 1], unit, e, w) {
      CellOfEntity(p, unit, ids, e, w);
    }
  }

  /** A row the guards skip leaves the grouping as it was. */
  lemma MirrorsSkip(rows: seq<Catalog.RollupRow>, row: Catalog.RollupRow, unit: Catalog.Unit, ids: seq<string>,
                    order: seq<string>, byEntity: map<string, map<string, map<string, real>>>)
    requires Mirrors(rows, unit, ids, order, byEntity) && Accept(row, unit).None?
    ensures Mirrors(rows + [row], unit, ids, order, byEntity)
  {
    assert (rows + [row])[..|rows|] == rows;
  }

  /** One accepted row changes exactly its own cell. */
  lemma CellOfStep(rows: seq<Catalog.RollupRow>, row: Catalog.RollupRow, unit: Catalog.Unit, ids: seq<string>,
                   e: string, w: string)
    ensures CellOf(rows + [row], unit, ids, e, w) ==
      if Hits(row, unit, e, w) then
        Some(CellOf(rows, unit, ids, e, w).GetOr(Zero(ids))[Accept(row, unit).value.metric := Accept(row, unit).value.value])
      else CellOf(rows, unit, ids, e, w)
  {
    assert (rows + [row])[..|rows|] == rows;
  }

  /** One row, seen from one entity's cells. */
  lemma MirrorsEntityStep(rows: seq<Catalog.RollupRow>, row: Catalog.RollupRow, unit: Catalog.Unit,
                          ids: seq<string>, e: string, byWeek: map<string, map<string, real>>)
    requires MirrorsEntity(rows, unit, ids, e, byWeek) && Accept(row, unit).Some?
    ensures var a := Accept(row, unit).value;
      var cell := if a.week in byWeek then byWeek[a.week] else Zero(ids);
      MirrorsEntity(rows + [row], unit, ids, e,
        if a.entity == e then byWeek[a.week := cell[a.metric := a.value]] else byWeek)
  {
    forall w {
      CellOfStep(rows, row, unit, ids, e, w);
    }
  }

  /** An entity never seen has no cells. */
  lemma MirrorsNewEntity(rows: seq<Catalog.RollupRow>, unit: Catalog.Unit, ids: seq<string>, e: string)
    requires e !in Entities(rows, unit)
    ensures MirrorsEntity(rows, unit, ids, e, map[])
  {
    forall w ensures CellOf(rows, unit, ids, e, w).None? {
      if CellOf(rows, unit, ids, e, w).Some? {
        CellOfEntity(rows, unit, ids, e, w);
      }
    }
  }

  /** An accepted row writes its value into its cell, creating the entity and
      the zero-filled cell first when they are new. */
  lemma MirrorsWrite(rows: seq<Catalog.RollupRow>, row: Catalog.RollupRow, unit: Catalog.Unit, ids: seq<string>,
                     order: seq<string>, byEntity: map<string, map<string, map<string, real>>>)
    requires Mirrors(rows, unit, ids, order, byEntity) && Accept(row, unit).Some?
    ensures var a := Accept(row, unit).value;
      var byWeek := if a.entity in byEntity then byEntity[a.entity] else map[];
      var cell := if a.week in byWeek then byWeek[a.week] else Zero(ids);
      Mirrors(rows + [row], unit, ids, if a.entity in byEntity then order else order + [a.entity],
        byEntity[a.entity := byWeek[a.week := cell[a.metric := a.value]]])
  {
    var a := Accept(row, unit).value;
    var t := rows + [row];
    assert t[..|rows|] == rows;
    var byWeek := if a.entity in byEntity then byEntity[a.entity] else map[];
    var cell := if a.week in byWeek then byWeek[a.week] else Zero(ids);
    var byEntity' := byEntity[a.entity := byWeek[a.week := cell[a.metric := a.value]]];
    if a.entity !in byEntity {
      MirrorsNewEntity(rows, unit, ids, a.entity);
    }
    forall e | e in byEntity' ensures MirrorsEntity(t, unit, ids, e, byEntity'[e]) {
      if e == a.entity {
        MirrorsEntityStep(rows, row, unit, ids, e, byWeek);
      } else {
        MirrorsEntityStep(rows, row, unit, ids, e, byEntity[e]);
      }
    }
  }

  /** The `forEach` that fills a fresh all-zero metrics record. */
  method ZeroMetrics(ids: seq<string>) returns (m: map<string, real>)
    ensures m == Zero(ids)
  {
    m := map[];
    var j := 0;
    while j < |ids|
      invariant 0 <= j <= |ids|
      invariant m == Zero(ids[..j])
    {
      assert ids[..j + 1][..j] == ids[..j];
      m := m[ids[j] := 0.0];
      j := j + 1;
    }
    assert ids[..j] == ids;
  }

  /** The body of the first loop of mapHeatmapRows, for one row. */
  method GroupRow(row: Catalog.RollupRow, unit: Catalog.Unit, metricIds: seq<string>, ghost seen: seq<Catalog.RollupRow>,
                  order0: seq<string>, byEntity0: map<string, map<string, map<string, real>>>)
    returns (order: seq<string>, byEntity: map<string, map<string, map<string, real>>>)
    requires Mirrors(seen, unit, metricIds, order0, byEntity0)
    ensures Mirrors(seen + [row], unit, metricIds, order, byEntity)
  {
    order, byEntity := order0, byEntity0;
    var week := row.week.GetOr("");
    var entity := if unit == Catalog.All then Catalog.AllLabel else Text.Trim(row.filterValue.GetOr(""));
    var metricId := Text.Trim(row.metricId.GetOr(""));
    if week == [] || entity == [] || metricId == [] {
      MirrorsSkip(seen, row, unit, metricIds, order, byEntity);
      return;
    }
    var value := StoredValue(row.value);
    assert Accept(row, unit) == Some(Accepted(entity, week, metricId, value));
    MirrorsWrite(seen, row, unit, metricIds, order, byEntity);
    var byWeek := if entity in byEntity then byEntity[entity] else map[];
    if entity !in byEntity {
      order := order + [entity];
    }
    var cell;
    if week in byWeek {
      cell := byWeek[week];
    } else {
      cell := ZeroMetrics(metricIds);
    }
    byEntity := byEntity[entity := byWeek[week := cell[metricId := value]]];
  }

  /** The first loop of mapHeatmapRows: group the rows by entity and week. */
  method GroupRows(rows: seq<Catalog.RollupRow>, unit: Catalog.Unit, metricIds: seq<string>)
    returns (order: seq<string>, byEntity: map<string, map<string, map<string, real>>>)
    ensures Mirrors(rows, unit, metricIds, order, byEntity)
  {
    order, byEntity := [], map[];
    var i := 0;
    while i < |rows|
      invariant 0 <= i <= |rows|
      invariant Mirrors(rows[..i], unit, metricIds, order, byEntity)
    {
      assert rows[..i + 1] == rows[..i] + [rows[i]];
      order, byEntity := GroupRow(rows[i], unit, metricIds, rows[..i], order, byEntity);
      i := i + 1;
    }
    assert rows[..i] == rows;
  }

  /** The inner loop of the second loop: one entity, every requested week. */
  method EmitEntity(ghost rows: seq<Catalog.RollupRow>, unit: Catalog.Unit, metricIds: seq<string>,
                    weeks: seq<string>, entity: string, byWeek: map<string, map<string, real>>)
    returns (out: seq<GridRow>)
    requires MirrorsEntity(rows, unit, metricIds, entity, byWeek)
    ensures out == EntityRows(rows, unit, metricIds, weeks, entity)
  {
    ghost var expected := EntityRows(rows, unit, metricIds, weeks, entity);
    out := [];
    var j := 0;
    while j < |weeks|
      invariant 0 <= j <= |weeks|
      invariant out == expected[..j]
    {
      var week := weeks[j];
      assert expected[..j + 1] == expected[..j] + [expected[j]];
      if week !in byWeek {
        var emptyMetrics := ZeroMetrics(metricIds);
        out := out + [GridRow(entity, week, emptyMetrics)];
      } else {
        out := out + [GridRow(entity, week, byWeek[week])];
      }
      j := j + 1;
    }
    assert expected[..j] == expected;
  }

  /** The second loop of mapHeatmapRows: every entity, every requested week. */
  method EmitGrid(rows: seq<Catalog.RollupRow>, unit: Catalog.Unit, metricIds: seq<string>, weeks: seq<string>,
                  order: seq<string>, byEntity: map<string, map<string, map<string, real>>>)
    returns (mapped: seq<GridRow>)
    requires Mirrors(rows, unit, metricIds, order, byEntity)
    ensures mapped == Unsorted(rows, unit, metricIds, weeks, order)
  {
    mapped := [];
    var k := 0;
    while k < |order|
      invariant 0 <= k <= |order|
      invariant mapped == Unsorted(rows, unit, metricIds, weeks, order[..k])
    {
      var entity := order[k];
      var part := EmitEntity(rows, unit, metricIds, weeks, entity, byEntity[entity]);
      mapped := mapped + part;
      assert order[..k + 1][..k] == order[..k];
      k := k + 1;
    }
    assert order[..k] == order;
  }

  /** mapHeatmapRows: group, emit densely, sort by entity and week position. */
  method MapHeatmapRows(rows: seq<Catalog.RollupRow>, unit: Catalog.Unit, metricIds: seq<string>, weeks: seq<string>)
    returns (sorted: seq<GridRow>)
    ensures sorted == Grid(rows, unit, metricIds, weeks)
  {
    var order, byEntity := GroupRows(rows, unit, metricIds);
    var mapped := EmitGrid(rows, unit, metricIds, weeks, order, byEntity);
    sorted := SortGrid(mapped, WeekIndex(weeks));
  }

  // ---------------------------------------------------------------------------
  // Properties of the grid

  lemma {:induction false} ZeroSpec(ids: seq<string>, m: string)
    ensures m in Zero(ids) <==> m in ids
    ensures m in Zero(ids) ==> Zero(ids)[m] == 0.0
  {
    if ids != [] {
      ZeroSpec(ids[..|ids| - 1], m);
      assert ids == ids[..|ids| - 1] + [ids[|ids| - 1]];
    }
  }

  lemma CellOfSomeStep(rows: seq<Catalog.RollupRow>, unit: Catalog.Unit, ids: seq<string>, e: string, w: string)
    requires rows != []
    ensures CellOf(rows, unit, ids, e, w).Some? <==>
      CellOf(rows[..|rows| - 1], unit, ids, e, w).Some? || Hits(rows[|rows| - 1], unit, e, w)
  {
  }

  /** A cell exists exactly when some accepted row hit it. */
  lemma {:induction false} CellExists(rows: seq<Catalog.RollupRow>, unit: Catalog.Unit, ids: seq<string>,
                                      e: string, w: string)
    ensures CellOf(rows, unit, ids, e, w).Some? <==> exists j :: 0 <= j < |rows| && Hits(rows[j], unit, e, w)
  {
    if rows != [] {
      var p := rows[..|rows| - 1];
      CellExists(p, unit, ids, e, w);
      CellOfSomeStep(rows, unit, ids, e, w);
      Text.ExistsSplit(rows, r => Hits(r, unit, e, w));
    }
  }

  lemma {:induction false} LastValueHits(rows: seq<Catalog.RollupRow>, unit: Catalog.Unit, ids: seq<string>,
                                         e: string, w: string, m: string)
    requires LastValue(rows, unit, e, w, m).Some?
    ensures CellOf(rows, unit, ids, e, w).Some?
  {
    var p := rows[..|rows| - 1];
    if !Hits(rows[|rows| - 1], unit, e, w) {
      LastValueHits(p, unit, ids, e, w, m);
    }
  }

  /** The last row either writes one metric of the cell or leaves it alone. */
  lemma CellOrZeroStep(rows: seq<Catalog.RollupRow>, unit: Catalog.Unit, ids: seq<string>, e: string, w: string)
    requires rows != []
    ensures var p := rows[..|rows| - 1]; var last := rows[|rows| - 1];
      CellOrZero(rows, unit, ids, e, w) ==
        if Hits(last, unit, e, w)
        then CellOrZero(p, unit, ids, e, w)[Accept(last, unit).value.metric := Accept(last, unit).value.value]
        else CellOrZero(p, unit, ids, e, w)
  {
  }

  /** A cell holds every requested metric and every metric a row wrote into
      it, each with the value of the last row that wrote it, or 0. */
  lemma {:induction false} CellValues(rows: seq<Catalog.RollupRow>, unit: Catalog.Unit, ids: seq<string>,
                                      e: string, w: string, m: string)
    ensures m in CellOrZero(rows, unit, ids, e, w) <==> m in ids || LastValue(rows, unit, e, w, m).Some?
    ensures m in CellOrZero(rows, unit, ids, e, w) ==>
      CellOrZero(rows, unit, ids, e, w)[m] == LastValue(rows, unit, e, w, m).GetOr(0.0)
  {
    ZeroSpec(ids, m);
    if rows != [] {
      var p := rows[..|rows| - 1];
      CellValues(p, unit, ids, e, w, m);
      CellOrZeroStep(rows, unit, ids, e, w);
      if LastValue(p, unit, e, w, m).Some? {
        LastValueHits(p, unit, ids, e, w, m);
      }
    }
  }

  /** Row `row` is accepted for entity `e`. */
  predicate Names(row: Catalog.RollupRow, unit: Catalog.Unit, e: string) {
    Accept(row, unit).Some? && Accept(row, unit).value.entity == e
  }

  lemma {:induction false} EntitiesNoDups(rows: seq<Catalog.RollupRow>, unit: Catalog.Unit)
    ensures Text.NoDups(Entities(rows, unit))
  {
    if rows != [] {
      EntitiesNoDups(rows[..|rows| - 1], unit);
    }
  }

  lemma {:induction false} EntitiesMembers(rows: seq<Catalog.RollupRow>, unit: Catalog.Unit, e: string)
    ensures e in Entities(rows, unit) <==> exists j :: 0 <= j < |rows| && Names(rows[j], unit, e)
  {
    if rows != [] {
      EntitiesMembers(rows[..|rows| - 1], unit, e);
      Text.ExistsSplit(rows, r => Names(r, unit, e));
    }
  }

  /** The entities are distinct and are exactly those of the accepted rows. */
  lemma EntitiesSpec(rows: seq<Catalog.RollupRow>, unit: Catalog.Unit, e: string)
    ensures Text.NoDups(Entities(rows, unit))
    ensures e in Entities(rows, unit) <==>
      exists j :: 0 <= j < |rows| && Accept(rows[j], unit).Some? && Accept(rows[j], unit).value.entity == e
  {
    EntitiesNoDups(rows, unit);
    EntitiesMembers(rows, unit, e);
  }

  lemma MulSucc(a: nat, b: nat)
    ensures (a + 1) * b == a * b + b
  {
  }

  lemma {:induction false} UnsortedLength(rows: seq<Catalog.RollupRow>, unit: Catalog.Unit, ids: seq<string>,
                                          weeks: seq<string>, es: seq<string>)
    ensures |Unsorted(rows, unit, ids, weeks, es)| == |es| * |weeks|
  {
    if es != [] {
      var p := es[..|es| - 1];
      UnsortedLength(rows, unit, ids, weeks, p);
      MulSucc(|p|, |weeks|);
    }
  }

  /** Every row of the unsorted grid is a requested week of a listed entity,
      with that cell's metrics. */
  lemma {:induction false} UnsortedRows(rows: seq<Catalog.RollupRow>, unit: Catalog.Unit, ids: seq<string>,
                                        weeks: seq<string>, es: seq<string>, r: GridRow)
    requires r in Unsorted(rows, unit, ids, weeks, es)
    ensures r.entity in es && r.week in weeks && r.metrics == CellOrZero(rows, unit, ids, r.entity, r.week)
  {
    var p := es[..|es| - 1];
    var u := Unsorted(rows, unit, ids, weeks, p);
    var er := EntityRows(rows, unit, ids, weeks, es[|es| - 1]);
    if r in u {
      UnsortedRows(rows, unit, ids, weeks, p, r);
      assert r.entity in p;
    } else {
      var j :| 0 <= j < |er| && er[j] == r;
    }
  }

  /** Every listed entity has a row for every requested week. */
  lemma {:induction false} UnsortedCovers(rows: seq<Catalog.RollupRow>, unit: Catalog.Unit, ids: seq<string>,
                                          weeks: seq<string>, es: seq<string>, k: int, j: int)
    requires 0 <= k < |es| && 0 <= j < |weeks|
    ensures GridRow(es[k], weeks[j], CellOrZero(rows, unit, ids, es[k], weeks[j])) in Unsorted(rows, unit, ids, weeks, es)
  {
    var p := es[..|es| - 1];
    var u := Unsorted(rows, unit, ids, weeks, p);
    var er := EntityRows(rows, unit, ids, weeks, es[|es| - 1]);
    if k < |p| {
      UnsortedCovers(rows, unit, ids, weeks, p, k, j);
      assert es[k] == p[k];
      assert u <= u + er;
    } else {
      assert er[j] in u + er;
    }
  }

  /** mapHeatmapRows returns a sorted permutation of the dense grid: one row
      per (entity seen, requested week), each carrying that cell's metrics,
      and no row for a week that was not requested. */
  lemma GridSpec(rows: seq<Catalog.RollupRow>, unit: Catalog.Unit, ids: seq<string>, weeks: seq<string>)
    ensures GridSorted(Grid(rows, unit, ids, weeks), WeekIndex(weeks))
    ensures multiset(Grid(rows, unit, ids, weeks)) == multiset(Unsorted(rows, unit, ids, weeks, Entities(rows, unit)))
    ensures |Grid(rows, unit, ids, weeks)| == |Entities(rows, unit)| * |weeks|
    ensures forall r :: r in Grid(rows, unit, ids, weeks) ==>
      r.entity in Entities(rows, unit) && r.week in weeks && r.metrics == CellOrZero(rows, unit, ids, r.entity, r.week)
    ensures forall e, j :: e in Entities(rows, unit) && 0 <= j < |weeks| ==>
      GridRow(e, weeks[j], CellOrZero(rows, unit, ids, e, weeks[j])) in Grid(rows, unit, ids, weeks)
  {
    var es := Entities(rows, unit);
    var u := Unsorted(rows, unit, ids, weeks, es);
    var g := Grid(rows, unit, ids, weeks);
    UnsortedLength(rows, unit, ids, weeks, es);
    assert |g| == |multiset(g)| == |multiset(u)| == |u|;
    forall r: GridRow | r in g
      ensures r.entity in es && r.week in weeks && r.metrics == CellOrZero(rows, unit, ids, r.entity, r.week)
    {
      assert r in multiset(g);
      UnsortedRows(rows, unit, ids, weeks, es, r);
    }
    forall e, j | e in es && 0 <= j < |weeks|
      ensures GridRow(e, weeks[j], CellOrZero(rows, unit, ids, e, weeks[j])) in g
    {
      var k :| 0 <= k < |es| && es[k] == e;
      UnsortedCovers(rows, unit, ids, weeks, es, k, j);
      assert GridRow(e, weeks[j], CellOrZero(rows, unit, ids, e, weeks[j])) in multiset(u);
    }
  }

  /** Every requested metric is present in every grid row. */
  lemma GridRowsHaveRequestedMetrics(rows: seq<Catalog.RollupRow>, unit: Catalog.Unit, ids: seq<string>,
                                     weeks: seq<string>, r: GridRow, m: string)
    requires r in Grid(rows, unit, ids, weeks) && m in ids
    ensures m in r.metrics
    ensures r.metrics[m] == LastValue(rows, unit, r.entity, r.week, m).GetOr(0.0)
  {
    GridSpec(rows, unit, ids, weeks);
    CellValues(rows, unit, ids, r.entity, r.week, m);
  }

  lemma {:induction false} WeekIndexSpec(weeks: seq<string>, w: string)
    ensures w in WeekIndex(weeks) <==> w in weeks
    ensures w in weeks ==> 0 <= WeekIndex(weeks)[w] < |weeks| && weeks[WeekIndex(weeks)[w]] == w
    ensures w in weeks ==> forall j :: WeekIndex(weeks)[w] < j < |weeks| ==> weeks[j] != w
  {
    if weeks != [] {
      var p := weeks[..|weeks| - 1];
      WeekIndexSpec(p, w);
      assert weeks == p + [weeks[|weeks| - 1]];
    }
  }

  /** Rows of one entity come out in the order of their weeks' positions in
      the request (the last position for a repeated week). */
  lemma GridWeekOrder(rows: seq<Catalog.RollupRow>, unit: Catalog.Unit, ids: seq<string>, weeks: seq<string>,
                      i: int, j: int)
    requires 0 <= i < j < |Grid(rows, unit, ids, weeks)|
    requires Grid(rows, unit, ids, weeks)[i].entity == Grid(rows, unit, ids, weeks)[j].entity
    ensures var g := Grid(rows, unit, ids, weeks);
      g[i].week in WeekIndex(weeks) && g[j].week in WeekIndex(weeks) &&
      WeekIndex(weeks)[g[i].week] <= WeekIndex(weeks)[g[j].week]
  {
    var g := Grid(rows, unit, ids, weeks);
    GridSpec(rows, unit, ids, weeks);
    assert g[i] in g && g[j] in g;
    WeekIndexSpec(weeks, g[i].week);
    WeekIndexSpec(weeks, g[j].week);
    Text.LessIrreflexive(g[i].entity);
  }

  // ---------------------------------------------------------------------------
  // getHeatmap

  /** `metrics?.filter((m) => !isBlank(m)).map((m) => m.trim()) ?? []`. */
  function Requested(metrics: Option<seq<string>>): (r: seq<string>)
  {
    if metrics.None? then [] else NonBlankTrimmed(metrics.value)
  }

  function NonBlankTrimmed(ms: seq<string>): (r: seq<string>)
    ensures forall i :: 0 <= i < |r| ==> r[i] != [] && Text.IsTrimmed(r[i])
  {
    if ms == [] then []
    else
      var rest := NonBlankTrimmed(ms[1..]);
      Text.TrimSpec(ms[0]);
      if Text.IsBlank(ms[0]) then rest else [Text.Trim(ms[0])] + rest
  }

  lemma {:induction false} NonBlankTrimmedMembers(ms: seq<string>, x: string)
    ensures x in NonBlankTrimmed(ms) <==> exists i :: 0 <= i < |ms| && !Text.IsBlank(ms[i]) && Text.Trim(ms[i]) == x
  {
    if ms != [] {
      NonBlankTrimmedMembers(ms[1..], x);
      assert forall i :: 1 <= i < |ms| ==> ms[i] == ms[1..][i - 1];
      if exists i :: 1 <= i < |ms| && !Text.IsBlank(ms[i]) && Text.Trim(ms[i]) == x {
        var i :| 1 <= i < |ms| && !Text.IsBlank(ms[i]) && Text.Trim(ms[i]) == x;
        assert !Text.IsBlank(ms[1..][i - 1]) && Text.Trim(ms[1..][i - 1]) == x;
      }
    }
  }

  /** `xs.filter((m) => allowed.has(m))`: the allowed entries, in input order,
      each as often as in the input. */
  function KeepAllowed(xs: seq<string>, allowed: seq<string>): (r: seq<string>)
    ensures forall x :: x in r <==> x in xs && x in allowed
    ensures |r| <= |xs|
    ensures Text.IsSubsequence(r, xs)
    ensures forall x :: multiset(r)[x] == if x in allowed then multiset(xs)[x] else 0
  {
    if xs == [] then []
    else
      var rest := KeepAllowed(xs[1..], allowed);
      assert xs == [xs[0]] + xs[1..];
      assert forall x :: x in xs <==> x == xs[0] || x in xs[1..];
      if xs[0] in allowed then
        assert ([xs[0]] + rest)[1..] == rest;
        [xs[0]] + rest
      else rest
  }

  lemma {:induction false} KeepAllowedAll(xs: seq<string>)
    ensures KeepAllowed(xs, xs) == xs
  {
    KeepAllowedWithin(xs, xs);
  }

  lemma {:induction false} KeepAllowedWithin(xs: seq<string>, allowed: seq<string>)
    requires forall i :: 0 <= i < |xs| ==> xs[i] in allowed
    ensures KeepAllowed(xs, allowed) == xs
  {
    if xs != [] {
      assert forall i :: 0 <= i < |xs[1..]| ==> xs[1..][i] == xs[i + 1];
      KeepAllowedWithin(xs[1..], allowed);
      assert [xs[0]] + xs[1..] == xs;
    }
  }

  /** Entry `m` of the request names metric `x`. */
  predicate RequestsMetric(m: string, x: string) {
    !Text.IsBlank(m) && Text.Trim(m) == x
  }

  /** The metric ids getHeatmap looks up. */
  function SelectMetricIds(metrics: Option<seq<string>>, supported: seq<string>): (r: seq<string>)
    ensures forall x :: x in r ==> x in supported
  {
    var requested := Requested(metrics);
    KeepAllowed(if |requested| > 0 then requested else supported, supported)
  }

  /** Only supported metrics are ever looked up; without a usable request all
      supported metrics are, in their order; with one, exactly the requested
      ones that are supported (trimmed, blank entries ignored). */
  lemma SelectMetricIdsSpec(metrics: Option<seq<string>>, supported: seq<string>, x: string)
    ensures x in SelectMetricIds(metrics, supported) ==> x in supported
    ensures Requested(metrics) == [] ==> SelectMetricIds(metrics, supported) == supported
    ensures metrics.Some? && Requested(metrics) != [] ==>
      (x in SelectMetricIds(metrics, supported) <==>
        x in supported && exists i :: 0 <= i < |metrics.value| && RequestsMetric(metrics.value[i], x))
  {
    KeepAllowedAll(supported);
    if metrics.Some? { NonBlankTrimmedMembers(metrics.value, x); }
  }

  /** The fallback runs only when it is switched on, the unit is not "all"
      and the rollup view returned nothing. */
  predicate ShouldFallback(allowBaseFallback: bool, unit: Catalog.Unit, primary: seq<Catalog.RollupRow>) {
    allowBaseFallback && unit != Catalog.All && primary == []
  }

  /** getHeatmap. The three store reads are inputs: the supported metric ids,
      the rollup view rows and the fact-table rows of the fallback query. */
  method GetHeatmap(unit: Catalog.Unit, weeks: seq<string>, metrics: Option<seq<string>>,
                    supported: Result<seq<string>>, primary: Result<seq<Catalog.RollupRow>>,
                    base: Result<seq<Fallback.BaseRow>>, allowBaseFallback: bool)
    returns (r: Result<seq<GridRow>>)
    ensures supported.Err? ==> r == Err(supported.message)
    ensures supported.Ok? && SelectMetricIds(metrics, supported.value) == [] ==> r == Ok([])
    ensures supported.Ok? && SelectMetricIds(metrics, supported.value) != [] ==>
      var ids := SelectMetricIds(metrics, supported.value);
      if primary.Err? then r == Err(primary.message)
      else if !ShouldFallback(allowBaseFallback, unit, primary.value) then
        r == Ok(Grid(primary.value, unit, ids, weeks))
      else if base.Err? then r == Err(base.message)
      else r == Ok(Grid(Fallback.FallbackRows(unit, ids, base.value), unit, ids, weeks))
  {
    if supported.Err? {
      return Err(supported.message);
    }
    var metricIds := SelectMetricIds(metrics, supported.value);
    if metricIds == [] {
      return Ok([]);
    }
    if primary.Err? {
      return Err(primary.message);
    }
    var rows := primary.value;
    if allowBaseFallback && unit != Catalog.All && |rows| == 0 {
      if base.Err? {
        return Err(base.message);
      }
      rows := Fallback.GetHeatmapFromBaseTable(unit, metricIds, base.value);
    }
    var sorted := MapHeatmapRows(rows, unit, metricIds, weeks);
    return Ok(sorted);
  }

  /** Every row the fallback builds passes the mapper's guards unchanged: its
      week and entity are kept as they are and its metric is the group's. */
  lemma FallbackRowsAccepted(unit: Catalog.Unit, ids: seq<string>, data: seq<Fallback.BaseRow>, i: int)
    requires unit != Catalog.All && 0 <= i < |Fallback.FallbackRows(unit, ids, data)|
    requires forall j :: 0 <= j < |ids| ==> ids[j] != [] && Text.IsTrimmed(ids[j])
    ensures var row := Fallback.FallbackRows(unit, ids, data)[i];
      && Accept(row, unit).Some?
      && Some(Accept(row, unit).value.entity) == row.filterValue
      && Some(Accept(row, unit).value.metric) == row.metricId
  {
    var k := Fallback.KeyOrder(Fallback.Samples(data, ids))[i];
    Fallback.KeyShape(ids, data, k);
    Text.TrimTrimmed(k.entity);
    Text.TrimTrimmed(k.metric);
  }
}
