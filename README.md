# Weekly match dashboard: a verified model of its data core

This project models the data core of a weekly sports-match dashboard in
Dafny:

- how the server reads the weekly rollup view (`weekly_agg_mv`) and the
  fact table, and turns them into a dense heatmap grid;
- how it falls back to aggregating the fact table itself when the rollup
  view is empty;
- how the page turns the grid into per-entity series, builds the summary
  context and keeps its error log;
- how the insights panel ranks anomalies and recommends drill-downs;
- how the control bar toggles metrics;
- how the mock cube builds its entity hierarchy;
- what the validator script does: it reloads `.env.local`, recomputes
  every rollup aggregate from the fact table and reconciles the result with
  the view.

Every store read, HTTP body and environment file is an input to the model,
as a `Result` that holds either the rows or the error message. The model is
one module per source file:

- `Catalog` and `Heatmap`: `app/lib/dataQueries.ts`, the pure part and
  `mapHeatmapRows`/`getHeatmap`.
- `Fallback`: `getHeatmapFromBaseTable` in the same file.
- `Series`: `app/page.tsx`.
- `HeatmapRoute`: `app/api/heatmap/route.ts`.
- `Insights`: `app/components/InsightsPanel.tsx`.
- `ControlBar`: `app/components/ControlBar.tsx`.
- `MockCube`: `app/data/mockCube.ts`.
- `Validator`: `scripts/validate-weekly-agg-mv.mjs`.
- Shared helpers: `Text` (JavaScript strings, trim, split, sorting),
  `Values` (JavaScript numbers and table cells), `Units` and `Wrappers`.

Loops that update state in the source are `method`s with loop invariants.
Each is proved equal to a specification function, and the properties are
proved about that function as lemmas. Pure code is functions and lemmas.

Some behaviour is modelled exactly as the code does it:

- **`.env.local` values.** The line pattern is
  `^\s*([A-Za-z_][A-Za-z0-9_]*)\s*=\s*(.*)\s*$`. Its `\s*` before the value
  is greedy, so leading white space of a value is dropped. Trailing white
  space is kept, because `(.*)` takes it before the final `\s*`
  (`Validator.ParseEnvLineComplete`).
- **NaN in the view.** A rollup value that reads as NaN is never reported
  as a mismatch, because `Math.abs(NaN - e) > eps` is false
  (`Validator.Differs`).
- **String order.** `Array.prototype.sort()` compares strings as
  sequences of UTF-16 code units. The model does the same: each character
  becomes one code unit, or a surrogate pair above U+FFFF, and the order is
  lexicographic on those units (`Text.Less`). So a character above U+FFFF
  sorts before U+FF01 (`Text.SurrogatesSortFirst`). `localeCompare` is
  modelled by the same order.
- **Fallback maximum.** The source starts a group's maximum at
  `-Infinity`. The model starts it at the first value, which gives the
  same maximum for every non-empty group.

## Model

| member | source | states |
|---|---|---|
| Text.TrimSpec | app/lib/dataQueries.ts:39 | `trim` removes white space from both ends and nothing else: the result is trimmed, not longer, and is the input without an all-white-space prefix and suffix |
| Text.BlankIffAllSpace | app/lib/dataQueries.ts:39 | a string is blank for `isBlank` exactly when it is made of white space only |
| Text.TrimTrimmed | app/lib/dataQueries.ts:108-111 | trimming a string with no white space at its ends leaves it unchanged |
| Text.Trim | app/lib/dataQueries.ts:39 | `trim` never makes a string longer |
| Text.Split | scripts/validate-weekly-agg-mv.mjs:110-111 | `split` on one character yields at least one piece and no piece holds the separator |
| Text.JoinSplit | scripts/validate-weekly-agg-mv.mjs:8 | joining the pieces of `split` with the separator gives back the string, so splitting loses no character |
| Text.JoinSeparators | app/lib/dataQueries.ts:189 | joining parts free of the separator puts exactly one separator between neighbours and no other |
| Text.SplitJoin | app/lib/dataQueries.ts:189-200 | splitting a joined key gives back the parts when no part holds the separator; the converse holds because no piece of `split` holds the separator (`Text.Split`) |
| Text.LessTotal | app/lib/dataQueries.ts:249 | the UTF-16 code-unit order of `sort()` is total: of two different strings one is less |
| Text.LessTransitive | app/lib/dataQueries.ts:249 | the UTF-16 code-unit order is transitive |
| Text.LessIrreflexive | app/lib/dataQueries.ts:249 | no string is less than itself |
| Text.CodeUnits | app/lib/dataQueries.ts:249 | a character below U+10000 is one code unit, itself; any other is a high surrogate followed by a low surrogate |
| Text.Utf16Injective | app/lib/dataQueries.ts:249 | different strings have different UTF-16 encodings |
| Text.SurrogatesSortFirst | app/lib/dataQueries.ts:249 | U+1F600 sorts before U+FF01, because its first code unit is a surrogate below U+FF01, although its scalar value is larger |
| Text.Reverse | app/lib/dataQueries.ts:220 | `slice().reverse()` puts element `i` at position `n-1-i` |
| Text.ReverseReverse | app/lib/dataQueries.ts:220 | reversing twice gives back the list |
| Text.Take | app/page.tsx:212 | `slice(0, n)` is the prefix of length `min(n, length)` |
| Text.Distinct | app/lib/dataQueries.ts:249 | `Array.from(new Set(xs))` has no duplicates and the same members as `xs`, and is no longer |
| Text.SortStrings | app/lib/dataQueries.ts:249 | `sort()` returns a sorted permutation of its input |
| Text.SortedUniqueSpec | app/lib/dataQueries.ts:249 | de-duplicating then sorting gives a strictly ascending list with exactly the input's members |
| Units.UnitIdInjective | app/page.tsx:13-22 | distinct measurement units have distinct wire names |
| Values.ToNumber | app/lib/dataQueries.ts:114 | `Number(v)` reads null and a blank string as 0, a number as itself and any other string as its parsed value |
| Catalog.UnitNamed | app/lib/dataQueries.ts:11 | a name denotes a query unit exactly when it is that unit's wire name |
| Catalog.EffectiveLimit | app/lib/dataQueries.ts:73 | the week limit is the given one when it is positive, else 104 |
| Catalog.AllEntries | app/lib/dataQueries.ts:85-88 | every week row is mapped, in order, to its trimmed label (or "") and start date |
| Catalog.WeekEntriesMembers | app/lib/dataQueries.ts:84-89 | exactly the rows whose trimmed label is non-empty become entries |
| Catalog.WeekEntries | app/lib/dataQueries.ts:84-89 | every entry's label is non-empty and trimmed; the entries are the mapped rows with a non-empty label, as a subsequence in store order, each as often as among the mapped rows |
| Catalog.BuildWeekEntries | app/lib/dataQueries.ts:72-90 | a failed read fails with its message; otherwise at most the effective limit of entries |
| Catalog.GetWeeksData | app/lib/dataQueries.ts:214-221 | a failed read fails with its message; the window holds at most the effective limit of entries |
| Catalog.AscIsReverseOfDesc | app/lib/dataQueries.ts:216-220 | the ascending window is the exact reverse of the descending one, and ascending is the default |
| Catalog.DescWindow | app/lib/dataQueries.ts:78-89 | the descending window lists the labelled rows among the first `limit` rows of the index, in store order |
| Catalog.GetWeeks | app/lib/dataQueries.ts:223-226 | `getWeeks` fails with the read's message exactly when the read fails; otherwise the labels are the `week` fields of the ascending window, in order: at most the limit of them, each non-empty |
| Catalog.GetLatestWeek | app/lib/dataQueries.ts:228-231 | `getLatestWeek` fails with the read's message exactly when the read fails, and a week it returns is non-empty |
| Catalog.LatestWeekIsFirstRow | app/lib/dataQueries.ts:228-231 | the latest week is null for an empty index, else the first row's trimmed label (null when that label is blank) |
| Catalog.NonBlacklisted | app/lib/dataQueries.ts:97 | the remaining columns are exactly the sampled columns that are not blacklisted |
| Catalog.BaseMetricColumns | app/lib/dataQueries.ts:92-98 | a failed sample fails; no sample row gives no columns; otherwise exactly the non-blacklisted columns |
| Catalog.KeepAvailable | app/lib/dataQueries.ts:246-248 | the dictionary ids kept are exactly those that are available columns |
| Catalog.SupportedMetricIdsSpec | app/lib/dataQueries.ts:233-252 | a failed sample, then a failed dictionary read, fails the call; supported ids are strictly ascending, free of duplicates, and are exactly the dictionary ids that are sampled non-blacklisted columns |
| Catalog.SupportedMetricIds | app/lib/dataQueries.ts:233-252 | a failed sample fails with its message, then a failed dictionary read with its own; the ids returned are strictly ascending |
| Catalog.SortRowsByMetric | app/lib/dataQueries.ts:269 | sorting by metric id returns a sorted permutation of the rows |
| Catalog.KeepSupportedRows | app/lib/dataQueries.ts:268 | the filter keeps the rows whose id is supported, in their order, each as often as given, and drops every other row |
| Catalog.MetricDictionary | app/lib/dataQueries.ts:254-272 | an error in the supported ids, then in the dictionary read, is passed on; otherwise the result is sorted by id and holds each row with a supported id exactly as often as the read returned it, and no other row |
| Catalog.NonBlankValues | app/lib/dataQueries.ts:281-283 | the values kept are exactly the non-null, non-blank column values |
| Catalog.FilterOptions | app/lib/dataQueries.ts:274-286 | "all" yields only the reserved label without a read; any other unit fails exactly when its read fails |
| Catalog.FilterOptionsSpec | app/lib/dataQueries.ts:281-285 | the options are strictly ascending and are exactly the distinct non-blank values of the column |
| Heatmap.StoredValue | app/lib/dataQueries.ts:114-127 | a null value, a non-finite number and a blank string store 0; a finite number stores itself; a non-blank string stores its parsed number when finite, else 0 |
| Heatmap.Accept | app/lib/dataQueries.ts:105-114 | a row is accepted exactly when its week is non-empty, its trimmed `filter_value` is non-empty (or the unit is "all") and its trimmed metric id is non-empty; an accepted row keeps the week as given, has entity "전체" for "all" and the trimmed `filter_value` otherwise, the trimmed metric id, and the stored value |
| Heatmap.SortGrid | app/lib/dataQueries.ts:145-148 | the grid sort returns a permutation of its input sorted by entity, then by week position |
| Heatmap.GridLeqTransitive | app/lib/dataQueries.ts:145-148 | the comparator's order is transitive |
| Heatmap.GridLeqTotal | app/lib/dataQueries.ts:145-148 | the comparator's order is total |
| Heatmap.ZeroMetrics | app/lib/dataQueries.ts:121-124 | the fresh metrics record sets every requested metric to 0 |
| Heatmap.ZeroSpec | app/lib/dataQueries.ts:121-124 | the zero record holds exactly the requested metrics, each 0 |
| Heatmap.GroupRow | app/lib/dataQueries.ts:105-127 | one row of the first loop keeps the entity and week maps equal to the cells the rows seen so far determine |
| Heatmap.GroupRows | app/lib/dataQueries.ts:101-128 | after the first loop, `byEntity` holds, for each entity in first-seen order, exactly the cells of the accepted rows |
| Heatmap.EmitEntity | app/lib/dataQueries.ts:132-142 | one entity's rows are one per requested week, in request order, with the hit cell or all zeros |
| Heatmap.EmitGrid | app/lib/dataQueries.ts:130-143 | the emission loops produce the unsorted dense grid of every entity and requested week |
| Heatmap.MapHeatmapRows | app/lib/dataQueries.ts:100-149 | `mapHeatmapRows` returns the sorted dense grid of the rows |
| Heatmap.CellExists | app/lib/dataQueries.ts:116-127 | a cell exists exactly when some accepted row hit it |
| Heatmap.CellValues | app/lib/dataQueries.ts:120-127 | a cell holds every requested metric and every metric a row wrote; the last write wins and unwritten metrics are 0 |
| Heatmap.EntitiesSpec | app/lib/dataQueries.ts:116-118 | the entities are distinct and are exactly those of accepted rows |
| Heatmap.GridSpec | app/lib/dataQueries.ts:100-149 | the grid is sorted, has entities × weeks rows, and is a permutation of one row per entity and requested week holding that cell's metrics |
| Heatmap.Grid | app/lib/dataQueries.ts:100-149 | the grid is sorted by entity, then week position, and is a permutation of the dense rows, one per entity and requested week |
| Heatmap.GridRowsHaveRequestedMetrics | app/lib/dataQueries.ts:121-137 | every grid row has every requested metric, valued by the last row that wrote it or 0 |
| Heatmap.WeekIndexSpec | app/lib/dataQueries.ts:101 | the week index holds exactly the requested weeks, each at its last position |
| Heatmap.GridWeekOrder | app/lib/dataQueries.ts:147 | rows of one entity come out in the order of their weeks' positions |
| Heatmap.NonBlankTrimmed | app/lib/dataQueries.ts:301 | every requested metric kept is non-empty and trimmed |
| Heatmap.NonBlankTrimmedMembers | app/lib/dataQueries.ts:301 | the requested ids are exactly the trimmed non-blank entries |
| Heatmap.KeepAllowed | app/lib/dataQueries.ts:302 | the filter keeps exactly the allowed members, as a subsequence of the input with each allowed id as often as in the input |
| Heatmap.SelectMetricIdsSpec | app/lib/dataQueries.ts:299-302 | only supported ids are looked up; without a usable request all supported ids are, in order; with one, exactly the requested supported ids |
| Heatmap.SelectMetricIds | app/lib/dataQueries.ts:299-302 | every id the query uses is a supported id |
| Heatmap.GetHeatmap | app/lib/dataQueries.ts:295-350 | errors of the supported-id read and the view read are passed on; no ids gives no rows; the fallback runs only when enabled, the unit is not "all" and the view is empty; the result is the grid of the rows used |
| Heatmap.FallbackRowsAccepted | app/lib/dataQueries.ts:105-209 | every fallback row passes the mapper's guards with its entity and metric unchanged |
| Fallback.SampleValue | app/lib/dataQueries.ts:185-187 | a missing or null cell and a non-finite number contribute nothing; a finite number itself; a blank string 0; a non-blank string its parsed number when finite, else nothing |
| Fallback.MaxOf | app/lib/dataQueries.ts:191 | the maximum is one of the values and at least every value |
| Fallback.MinOf | app/lib/dataQueries.ts:191 | the minimum is one of the values and at most every value |
| Fallback.KeyOrderSpec | app/lib/dataQueries.ts:178-194 | the groups are distinct and are exactly those with samples |
| Fallback.AddSample | app/lib/dataQueries.ts:189-194 | one sample updates its group's max, sum and count, creating the group at the end when new |
| Fallback.FoldRow | app/lib/dataQueries.ts:184-195 | the inner loop folds exactly the row's finite samples, in metric order |
| Fallback.Emit | app/lib/dataQueries.ts:198-209 | one row per group, in accumulator order, with the collapsed value |
| Fallback.GetHeatmapFromBaseTable | app/lib/dataQueries.ts:178-211 | the fold and emission return the rows of the groups of all finite samples |
| Fallback.SamplesOrigin | app/lib/dataQueries.ts:179-187 | every value folded into a group is the finite sample of a fact row with that trimmed week and entity, and every such sample is folded |
| Fallback.CollapseSpec | app/lib/dataQueries.ts:201 | a rate group's value is the mean of its samples, any other group's the maximum; either lies between the minimum and maximum |
| Fallback.MeanBounds | app/lib/dataQueries.ts:201 | the mean of a non-empty group lies between its minimum and its maximum |
| Fallback.FallbackRowsSpec | app/lib/dataQueries.ts:202-208 | every fallback row carries the requested unit, and no two rows share week, entity and metric |
| Fallback.FallbackRows | app/lib/dataQueries.ts:176-211 | one row per group of finite samples, each carrying the requested unit and a number |
| Fallback.KeyShape | app/lib/dataQueries.ts:180-184 | every group has a trimmed non-blank week and entity and a requested metric |
| Fallback.FallbackRowsCover | app/lib/dataQueries.ts:179-209 | a row is emitted for a group exactly when some fact row contributes a finite sample to it |
| Fallback.FallbackRowValue | app/lib/dataQueries.ts:199-207 | the value emitted for each group is its samples' mean (rate) or maximum |
| Fallback.AsWrittenAgreesWithoutPipe | app/lib/dataQueries.ts:189-200 | with no pipe character in week, entity or metric, the string key splits back into the group's own fields |
| Fallback.AsWrittenSplitsPipeEntity | app/lib/dataQueries.ts:189-200 | an entity `a` pipe `b` is emitted with entity `a` and metric `b` |
| Fallback.AsWrittenKeysCollide | app/lib/dataQueries.ts:189 | two different groups, (w, `a` pipe `b`, m) and (w, `a`, `b` pipe `m`), share one string key |
| Series.MetricFormat | app/page.tsx:24-131 | an id is a percentage exactly when it is one of the three rate ids; any other id is a plain number |
| Series.MapMetricRow | app/page.tsx:245-250 | the metric keeps the row's id, takes the Korean name or else the id, the description or "", and the id's format |
| Series.MapMetricRows | app/page.tsx:245-250 | every row is mapped, in order |
| Series.FallbackMetricsConsistent | app/page.tsx:24-70 | the fallback catalog has distinct ids, agrees with the format table, and its percentages are exactly the `_rate` ids |
| Series.LoadMetrics | app/page.tsx:239-268 | a response replaces the catalog and selects every id; a failure installs the fallback catalog when the catalog the request started from is empty, and otherwise keeps it |
| Series.LoadMetricsOnMount | app/page.tsx:172-268 | the effect reads the catalog of the first render, which is empty, so a failed request always installs the fallback catalog with every id selected |
| Series.SelectAllWhenEmpty | app/page.tsx:277-282 | an empty selection over a non-empty catalog becomes every id; anything else is left alone |
| Series.SelectAllWhenEmptyIdempotent | app/page.tsx:277-282 | applying the effect twice changes nothing more |
| Series.ByIdSpec | app/page.tsx:326 | the id map holds exactly the catalog's ids, each mapped to its last metric |
| Series.SelectedMetricsSpec | app/page.tsx:325-328 | the selected metrics keep the selection order, drop unknown ids, and each is the last catalog entry of its id |
| Series.SelectedMetrics | app/page.tsx:325-328 | the selected metrics are no more than the selected ids, and each is a catalog metric with a selected id |
| Series.MissingMetricIds | app/page.tsx:330-333 | nothing is missing while no metric is available; otherwise the unavailable selected ids, in selection order, each as often as selected |
| Series.Unavailable | app/page.tsx:332 | the ids kept are exactly the listed ids that are not available, and no more than listed |
| Series.UnavailableSpec | app/page.tsx:332 | the filter keeps the unavailable ids in order, each as often as listed, and drops the available ones |
| Series.UnavailableComplements | app/page.tsx:332 | the unavailable and the available selected ids split the selection: their counts and multisets add up to the selection's, and none is unavailable exactly when every selected id is available |
| Series.PushError | app/page.tsx:201-214 | the new item is first, then the previous ones, up to 50 |
| Series.PushAllSpec | app/page.tsx:201-214 | after any run of pushes the log is the newest 50 items, newest first |
| Series.EntityKey | app/page.tsx:347 | an empty entity is the whole-market entity; any other keeps its name |
| Series.ZeroSeries | app/page.tsx:350-353 | a new entity gets a zero array of the week count for every requested metric |
| Series.WriteRow | app/page.tsx:357-361 | one row writes each requested metric's value at its week position and changes nothing else |
| Series.SeriesRow | app/page.tsx:345-362 | one row keeps the entity list, the density and the cell values in step with the rows seen |
| Series.BuildSeriesMap | app/page.tsx:335-365 | the entity list is in first-appearance order, the map is dense, and every cell holds the value the rows leave in it |
| Series.SeriesEntitiesSpec | app/page.tsx:346-355 | the entity list has no duplicates and holds exactly the entities of rows within the week window |
| Series.WrittenLast | app/page.tsx:358-361 | the last row that hits a cell decides its value; a metric that row lacks writes 0 |
| Series.WrittenUntouched | app/page.tsx:352 | a cell no row hits keeps its 0 |
| Series.OutsideWindowIgnored | app/page.tsx:346 | rows whose week is outside the window change nothing |
| Series.WrittenOnlyAtLastIndex | app/page.tsx:341-360 | only the last position of a repeated week label is ever written |
| Series.ContextFilter | app/page.tsx:437 | the "all" option travels as the reserved label, any other value as itself |
| Series.SeriesFor | app/page.tsx:143-144 | the context reads its entity's series, else the whole market's, else none |
| Series.Summarize | app/page.tsx:147-153 | a summary keeps the metric's id, name and format; its latest value is the first value and its delta the first minus the second, when present |
| Series.BuildContext | app/page.tsx:133-162 | the context carries the unit's label, the filter, the weeks, the primary id or "", and one summary per metric in order |
| Series.ContextReadsSeries | app/page.tsx:143-361 | on a series map built from rows, a summary's latest value is what the rows left in the first week's cell |
| HeatmapRoute.UnitOf | app/api/heatmap/route.ts:4-18 | a unit is accepted exactly when it is one of the five allowed strings, and maps to the unit of that name |
| HeatmapRoute.NormaliseFilter | app/api/heatmap/route.ts:33 | an absent, null or blank filter value becomes null; any other string is forwarded untrimmed |
| HeatmapRoute.Validate | app/api/heatmap/route.ts:16-28 | a body is accepted exactly when its unit, weeks (1 to 104 entries) and filter value all pass |
| HeatmapRoute.ValidateOrder | app/api/heatmap/route.ts:18-28 | each check rejects with its own message exactly when it fails and all earlier checks pass |
| HeatmapRoute.Post | app/api/heatmap/route.ts:7-40 | non-JSON gives 400; a null body throws; a rejected body gives 400 with the check's message; an accepted body gives 200 with exactly the query's rows, or 500 with the query's error message, "Failed to load heatmap." when that is empty |
| HeatmapRoute.ForwardedRequest | app/api/heatmap/route.ts:30-35 | an accepted body is forwarded with its unit, every week, and the untrimmed filter value or null when it is blank |
| HeatmapRoute.OnlyThreeFieldsMatter | app/api/heatmap/route.ts:16-35 | bodies that agree on unit, weeks and filter value get the same reply |
| HeatmapRoute.NonObjectRejected | app/api/heatmap/route.ts:16-19 | a JSON body that is not an object is rejected as an invalid unit |
| Insights.GetLatestDelta | app/components/InsightsPanel.tsx:40-44 | the delta is 0 for fewer than two values, else the last value minus the one before |
| Insights.UnitNext | app/components/InsightsPanel.tsx:18-27 | the next unit is never "all" and never the unit itself, and there is none exactly for stadium and court |
| Insights.LatestDeltaSpec | app/components/InsightsPanel.tsx:40-115 | the delta reads only the last two values, and the trend is "rising" exactly when the last value is not below the one before |
| Insights.Depth | app/components/InsightsPanel.tsx:18-27 | the drill depth is at most 4 and is 0 exactly when there is no next unit |
| Insights.DepthStep | app/components/InsightsPanel.tsx:18-27 | each drill step lowers the depth by one |
| Insights.Chain | app/components/InsightsPanel.tsx:18-27 | following `unitNext` from a unit ends at a unit with no next after depth + 1 units |
| Insights.ChainSpec | app/components/InsightsPanel.tsx:18-27 | the drill chain has at most five units, visits none twice and never returns to "all" |
| Insights.NextIsNeverAll | app/components/InsightsPanel.tsx:18-110 | no drill-down recommendation names "all" |
| Insights.MetricDetails | app/components/InsightsPanel.tsx:66-73 | every point of a metric whose absolute score is at least 2 is kept, and every kept point has such a score |
| Insights.MetricDetailsFilter | app/components/InsightsPanel.tsx:66-73 | a metric's kept points are its mapped points filtered to absolute score at least 2: in index order, each as often as among the points |
| Insights.MetricDetailsSound | app/components/InsightsPanel.tsx:66-73 | each kept point is the detail, with its week, score and value or 0, of one flagged score |
| Insights.Candidates | app/components/InsightsPanel.tsx:62-74 | every flagged score of every listed metric gives a candidate, and every candidate has an absolute score of at least 2 and belongs to a listed metric |
| Insights.CandidatesFilter | app/components/InsightsPanel.tsx:62-74 | the candidates are the points of every metric, metric by metric and in index order within a metric, filtered to absolute score at least 2: a subsequence of those points holding each flagged point as often as they do |
| Insights.CandidatesSound | app/components/InsightsPanel.tsx:62-74 | each candidate is the detail of a flagged score of one of the listed metrics |
| Insights.SortByScore | app/components/InsightsPanel.tsx:75 | the sort returns a permutation ordered by absolute score, largest first |
| Insights.SortByScoreStable | app/components/InsightsPanel.tsx:75 | the sort is stable: for every absolute score, the details with that score come out in their input order, so ties at the cut of three keep the earliest candidates |
| Insights.AnomalyDetailsSpec | app/components/InsightsPanel.tsx:62-76 | at most three details, strongest first, each a candidate; fewer only when there are fewer candidates |
| Insights.AnomalyDetails | app/components/InsightsPanel.tsx:62-76 | at most three details, ordered by absolute score, largest first, drawn from the candidates |
| Insights.AnomalyDetailsStrongest | app/components/InsightsPanel.tsx:75-76 | no candidate left out is stronger than the weakest one kept |
| Insights.Recommendations | app/components/InsightsPanel.tsx:88-111 | the anomaly recommendation comes first when there is an anomaly and a next unit, then the next unit, then the way back to "all" below "all"; nothing else |
| ControlBar.WithoutSpec | app/components/ControlBar.tsx:43 | removing an id drops every occurrence of it and nothing else, in order |
| ControlBar.Without | app/components/ControlBar.tsx:43 | the remaining ids are exactly the other ids, and no more than given |
| ControlBar.ToggleAbsent | app/components/ControlBar.tsx:45 | toggling an unselected id appends it |
| ControlBar.TogglePresent | app/components/ControlBar.tsx:42-43 | toggling a selected id removes every occurrence and keeps the others in order |
| ControlBar.ToggleMetric | app/components/ControlBar.tsx:41-47 | after the toggle the id is selected exactly when it was not before |
| ControlBar.ToggleFlips | app/components/ControlBar.tsx:41-47 | toggling flips whether that id is selected and no other id's |
| ControlBar.ToggleTwice | app/components/ControlBar.tsx:41-47 | toggling an unselected id twice gives back the original selection |
| ControlBar.PrimaryOptionsSpec | app/components/ControlBar.tsx:49 | the primary options are exactly the selected catalog metrics, in catalog order, each as often as in the catalog |
| ControlBar.PrimaryOptions | app/components/ControlBar.tsx:49 | the options are exactly the catalog metrics whose id is selected |
| MockCube.IdInjective | app/data/mockCube.ts:150-182 | ids of one template are equal only for the same numbers |
| MockCube.BuildCube | app/data/mockCube.ts:137-196 | the generator loops build exactly the generated cube |
| MockCube.AddRegions | app/data/mockCube.ts:158-193 | one group's loop appends its five regions, their stadiums and their courts, in order |
| MockCube.AddStadiums | app/data/mockCube.ts:168-192 | one region's loop appends its three stadiums and their courts, in order |
| MockCube.AddCourts | app/data/mockCube.ts:179-191 | one stadium's loop appends its `(s % 3) + 1` courts, in order |
| MockCube.CubeCounts | app/data/mockCube.ts:147-196 | `k` region groups give one "all", `k` groups, `5k` regions, `15k` stadiums and `30k` courts |
| MockCube.ParentLinks | app/data/mockCube.ts:163-187 | every parent link names an entity of the parent unit, and the links agree up the hierarchy |
| MockCube.IdsUniquePerUnit | app/data/mockCube.ts:150-182 | ids are unique within each unit |
| MockCube.EntityKeyInjective | app/data/mockCube.ts:128 | two entities share a key exactly when they share unit and id |
| MockCube.EntityKeysDistinct | app/data/mockCube.ts:128-190 | every entity of the cube has its own key, so no series entry is overwritten |
| MockCube.EntitiesByUnit | app/data/mockCube.ts:137-206 | the list of a unit is missing exactly for the units the cube does not hold |
| MockCube.ListedUnderOwnUnit | app/data/mockCube.ts:154-189 | every entity is listed under its own unit |
| MockCube.WhereSpec | app/data/mockCube.ts:210-222 | a filter keeps exactly the entities that pass, in order |
| MockCube.GetChildEntities | app/data/mockCube.ts:208-219 | the result is missing exactly when the unit's list is; other units get their whole list |
| MockCube.ChildEntitiesSpec | app/data/mockCube.ts:209-217 | without the parent filter a unit gets its whole list; with it, exactly the entities under that parent |
| MockCube.CourtsByStadium | app/data/mockCube.ts:179-222 | a stadium's courts are its `(s % 3) + 1` courts, in order |
| MockCube.Clamp | app/data/mockCube.ts:84 | the clamped value lies in the range and is the value itself when already inside |
| Validator.SplitLines | scripts/validate-weekly-agg-mv.mjs:8 | one line per "\n"-separated piece, none holding "\n"; each line is its piece, less one "\r" at its end when a "\n" followed it |
| Validator.UnquoteSpec | scripts/validate-weekly-agg-mv.mjs:12-14 | one pair of matching quotes around a value is removed |
| Validator.Unquote | scripts/validate-weekly-agg-mv.mjs:12-14 | the value never grows, and it changes only when it starts and ends with the same quote character |
| Validator.ParseEnvLineComplete | scripts/validate-weekly-agg-mv.mjs:9-14 | every line of the `name = value` layout yields its name and unquoted value, with leading white space of the value dropped |
| Validator.ParseEnvLineSound | scripts/validate-weekly-agg-mv.mjs:9-14 | whatever the parser accepts has that layout |
| Validator.ParseEnvLine | scripts/validate-weekly-agg-mv.mjs:9-14 | an accepted line yields a name of the identifier pattern, and the name and value are shorter together than the line |
| Validator.SetUnset | scripts/validate-weekly-agg-mv.mjs:15 | a line adds its name, and only its name, to the environment |
| Validator.LoadEnv | scripts/validate-weekly-agg-mv.mjs:5-17 | without a file nothing changes; otherwise every line is applied in order |
| Validator.EnvKeepsSet | scripts/validate-weekly-agg-mv.mjs:15 | a variable with a non-empty value is never overwritten |
| Validator.EnvUntouched | scripts/validate-weekly-agg-mv.mjs:15 | a variable no line names keeps its state |
| Validator.EnvFirstNonEmptyWins | scripts/validate-weekly-agg-mv.mjs:15 | an unset or empty variable takes the value of the first line that sets it to something non-empty |
| Validator.ValidationMetricsSpec | scripts/validate-weekly-agg-mv.mjs:89-120 | the validated metrics are strictly ascending and supported; with a manual list, exactly the supported ones it names |
| Validator.KeepAllowedSorted | scripts/validate-weekly-agg-mv.mjs:114-116 | filtering a strictly ascending list keeps it strictly ascending |
| Validator.ValidationMetrics | scripts/validate-weekly-agg-mv.mjs:89-120 | the call fails exactly when reading the supported metrics fails, with that error; the metrics validated are supported ones |
| Validator.RoutingSpec | scripts/validate-weekly-agg-mv.mjs:55-160 | a row of dimension "all" or null feeds only "all", under the reserved label; any other row feeds only its own unit, under a non-empty column value |
| Validator.ExpectedValue | scripts/validate-weekly-agg-mv.mjs:81-83 | null, missing and "" are skipped, and so is a non-finite number; a finite number is kept; a blank non-empty string reads as 0; a non-blank string is its parsed number when finite, else skipped |
| Validator.ExpectedValueVersusFallback | scripts/validate-weekly-agg-mv.mjs:81-83 | the validator reads a cell as the dashboard fallback does, except that it skips "" |
| Validator.AddExpected | scripts/validate-weekly-agg-mv.mjs:80-87 | a usable value is appended to its key's list, creating the list at the end of the key order; nothing else changes |
| Validator.AddExpectedTracks | scripts/validate-weekly-agg-mv.mjs:80-87 | adding one value keeps the map equal to the contributions seen |
| Validator.KeyOrderSpec | scripts/validate-weekly-agg-mv.mjs:85 | the keys are distinct and are exactly those with values |
| Validator.BuildExpected | scripts/validate-weekly-agg-mv.mjs:136-166 | the first failed fetch ends the run; otherwise the map holds every routed usable cell under its key, and the fact-row count is right |
| Validator.BatchValuesOrigin | scripts/validate-weekly-agg-mv.mjs:155-164 | every value in a key's list comes from a row that feeds that key, and every such value is in the list |
| Validator.AggregateMetric | scripts/validate-weekly-agg-mv.mjs:72-78 | the aggregate is null exactly for an empty list |
| Validator.AggregateMetricSpec | scripts/validate-weekly-agg-mv.mjs:72-78 | the aggregate is the mean for a rate and the maximum otherwise, as the dashboard fallback computes it, and lies between the minimum and the maximum |
| Validator.Finalize | scripts/validate-weekly-agg-mv.mjs:168-172 | every key's list is aggregated under its metric, in key order |
| Validator.FinalizedPresent | scripts/validate-weekly-agg-mv.mjs:168-172 | on a tracked map no list is empty, so no aggregate is null |
| Validator.QueriesMembers | scripts/validate-weekly-agg-mv.mjs:177-187 | every (week, unit, metric) combination is queried, and nothing else |
| Validator.StoreSpec | scripts/validate-weekly-agg-mv.mjs:192-195 | a key is stored iff some row has it, and the last such row's value wins |
| Validator.Store | scripts/validate-weekly-agg-mv.mjs:192-195 | storing rows keeps every key already stored, and the last row's key holds that row's value |
| Validator.StoreRows | scripts/validate-weekly-agg-mv.mjs:192-195 | the loop over one query's rows stores them as `Store` does |
| Validator.FetchActual | scripts/validate-weekly-agg-mv.mjs:174-198 | the first failed query ends the run; otherwise every row is stored under its key, and the row count is right |
| Validator.TallySpec | scripts/validate-weekly-agg-mv.mjs:211-217 | a counter holds each key's number of occurrences; its keys are distinct, each counted at least once, and the counts add up |
| Validator.OutcomePartition | scripts/validate-weekly-agg-mv.mjs:206-230 | every entry is missing, mismatched or matched, and each discrepancy is reported once |
| Validator.ReportOfSpec | scripts/validate-weekly-agg-mv.mjs:207-215 | an entry is missing exactly when its key was never stored, and reported at all unless within the tolerance |
| Validator.Differs | scripts/validate-weekly-agg-mv.mjs:215 | a NaN view value never differs, an infinite one always does, and a finite one differs exactly when it is outside the tolerance around the expected value |
| Validator.ReportsSpec | scripts/validate-weekly-agg-mv.mjs:206-230 | the reports are exactly the discrepancies of the entries, in order |
| Validator.Reconcile | scripts/validate-weekly-agg-mv.mjs:200-230 | the counters equal the numbers of missing and mismatched entries, the tallies count them by unit and by metric, and the samples are the first twelve discrepancies |
| Validator.CheckedMetrics | scripts/validate-weekly-agg-mv.mjs:123-124 | no supported metric ends the run with its message; a read error is passed on |
| Validator.CheckedWeeks | scripts/validate-weekly-agg-mv.mjs:126-134 | a read error is passed on; no weeks ends the run; otherwise the first `limit` rows of the view |
| Validator.EntriesOf | scripts/validate-weekly-agg-mv.mjs:168-172 | one entry per key, in order, with the aggregate of its values |
| Validator.Validate | scripts/validate-weekly-agg-mv.mjs:122-250 | the first failure ends the run with its error; otherwise the run prints the summary of the expected and actual maps |
| Validator.SourceValuesOrigin | scripts/validate-weekly-agg-mv.mjs:139-166 | a key's values are exactly those the fetched fact rows feed it |
| Validator.EntriesSpec | scripts/validate-weekly-agg-mv.mjs:136-172 | each expected key appears once, is fed by some fetched row, and its value is the aggregate of what those rows feed it |
| Validator.SummarySpec | scripts/validate-weekly-agg-mv.mjs:200-247 | missing plus mismatched entries are at most the keys, the tallies add up to the counters, there are `min(discrepancies, 12)` samples, and missing means no view row had the key |
| Validator.FieldsAsWrittenAgree | scripts/validate-weekly-agg-mv.mjs:84-208 | with no pipe character in any field, splitting the key gives back every field |
| Validator.LastPartIsMetric | scripts/validate-weekly-agg-mv.mjs:170 | `.at(-1)` finds the metric id whatever the filter value holds |
| Validator.FieldsAsWrittenShiftPipeFilter | scripts/validate-weekly-agg-mv.mjs:84-208 | a filter value `a` pipe `b` is reported with filter value `a` and metric `b`, although it was aggregated under its own metric |

## Left out

- I/O is not modelled: store queries, HTTP requests and the `.env.local` file read. Each query's result is an input, a `Result` holding the rows or the error message. The store-side filters of each query (weeks, unit, filter value, `is null` tests, the 5000-row limit) are the store's behaviour and are not modelled.
- Clocks, timers and randomness are not modelled. These are the `timings` fields, `fetchJsonWithTimeout`, and the id and time of an error log item, which are parameters (`Series.PushError` takes the item).
- `makeSeries`, `injectAnomalies` and `createEntitySeries` in `app/data/mockCube.ts` compute with `Math.sin` and `Math.cos`. The model has no floating point, so the series values, `entitySeriesMap` and `getEntitySeries` are out. The cube's entities and their keys are modelled.
- The MockCube lemmas are stated for any number `k` of region groups, and `MockCube.BuildCube` proves that the generator builds the cube for the five listed groups.
- `getZScores` (`app/lib/anomaly.ts`) is not part of this model. `Insights.Candidates` takes it as a function parameter.
- The summary and chat routes are not part of this model, and neither are the metrics, weeks and filter-option routes. The rest of `app/page.tsx` is out too: the request sequence of `handleSearch`, the abort controller, the console hook, the rendering and the chat. Only the shaping functions they call are modelled.
- Display strings are modelled only as constants: the Korean summary lines, the anomaly summary `join`, the hypotheses and `slice(0, 5)` of the recommendation chips.
- `Number.parseInt`/`parseFloat` of `MV_VALIDATE_WEEKS` and `MV_VALIDATE_EPSILON` are not modelled. `Validator.Validate` takes the week limit and the tolerance as inputs. The defaults 8 and 0.000001 are constants.
- The `SUPABASE_URL` check and `process.exit` are out: `Validator.Validate` begins after the client exists. JSON printing of the summary is out too: the summary is the method's result.
- `Number(s)` of a non-blank string is decided by JavaScript's numeric grammar. The model does not parse it: a text cell carries its parsed value. A blank string reading as 0 is modelled.
- Validator.LoadEnv: `\r?\n` splitting is modelled as splitting at "\n" and dropping one "\r" before it. JavaScript's `\s` class is modelled as the characters `trim` removes.
- Text.Less: `localeCompare` is modelled by the code-unit order of `sort()`. Locale collation is not modelled.
- Strings are sequences of Unicode scalar values, so a JavaScript string holding a lone surrogate is not modelled.
- Numbers are exact reals, not IEEE doubles. Fallback.CollapseSpec and Validator.AggregateMetricSpec prove the mean lies between the minimum and maximum. After floating-point rounding that need not hold: (0.1 + 0.1 + 0.1) / 3 is above 0.1.
- Series.LoadMetrics: the `canceled` flag the effect sets on unmount is not modelled; the model applies every response. The `pushError` of a failed request and the `errorMessage`/`isLoadingBase` state are not modelled either.
- Heatmap.SortGrid: the sort is modelled as a stable insertion sort. JavaScript's `sort` is stable, so its result is the same.
- Validator.Differs: a NaN or infinite tolerance is not considered. The tolerance is a real number.
- MockCube.Clamp: NaN inputs are not considered.
- `getRegionGroups`, `getRegions`, `getStadiums` and `getEntitiesByUnit` return one list of the cube and have no logic beyond `MockCube.EntitiesByUnit`.
- The validator's nested loops over rows, units and metrics are modelled as loops over their flattened sequence (`Validator.Queries`), visited in the same order. The expected-map insertion is one method per loop level.
- Some loop bodies are modelled as methods of their own: `Heatmap.GroupRow`, `Heatmap.EmitEntity`, `Series.SeriesRow`, `Fallback.AddSample`, `Validator.AddCells`, `Validator.AddSourceRow` and `Validator.AddBatch`. They do the same steps in the same order.

## Findings

| source | as written | input that shows it | evidently intended | confidence | as-written member | corrected member |
|---|---|---|---|---|---|---|
| app/lib/dataQueries.ts:189-200 | the fallback keys each group by one string, its week, entity and metric id joined with a pipe character, and splits that string back | a fact row whose entity column is `a` pipe `b`: it is emitted with entity `a` and metric `b`, and groups (w, `a` pipe `b`, m) and (w, `a`, `b` pipe `m`) share one string key | groups keyed by the triple itself, so every row keeps its own week, entity and metric | not executed | Fallback.AsWrittenSplitsPipeEntity | Fallback.FallbackRowsCover |
| scripts/validate-weekly-agg-mv.mjs:208 | the reconciliation splits the key string (week, unit, filter value and metric id joined with a pipe character) to report and count an entry | a fact row whose unit column is `a` pipe `b`: the entry is reported with filter value `a` and metric `b`, and counted under `b` in `mismatchByMetric` | entries carry their fields as a tuple, so reports and counters use the entry's own filter value and metric | not executed | Validator.FieldsAsWrittenShiftPipeFilter | Validator.Reconcile |
