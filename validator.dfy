/** The rollup validator script: it loads `.env.local`, recomputes every
    (week, unit, filter value, metric) aggregate from the fact table, reads
    the materialised rollup, and reconciles the two. */
module Validator {
  import opened Wrappers
  import opened Values
  import Text
  import Catalog
  import Fallback
  import Heatmap

  // ---------------------------------------------------------------------------
  // The .env loader

  /** `raw.split(/\r?\n/)`: split at every "\n" and drop a "\r" right before it. */
  function SplitLines(raw: string): (lines: seq<string>)
    ensures |lines| == |Text.Split(raw, '\n')|
    ensures forall i :: 0 <= i < |lines| ==> '\n' !in lines[i]
    ensures var pieces := Text.Split(raw, '\n');
      forall i :: 0 <= i < |lines| ==>
        if i < |lines| - 1 && Text.EndsWith(pieces[i], "\r") then pieces[i] == lines[i] + "\r"
        else lines[i] == pieces[i]
  {
    var pieces := Text.Split(raw, '\n');
    seq(|pieces|, i requires 0 <= i < |pieces| =>
      var p := pieces[i];
      if i < |pieces| - 1 && p != [] && p[|p| - 1] == '\r' then p[..|p| - 1] else p)
  }

  predicate IsIdentStart(c: char) {
    ('A' <= c <= 'Z') || ('a' <= c <= 'z') || c == '_'
  }

  predicate IsIdentChar(c: char) {
    IsIdentStart(c) || ('0' <= c <= '9')
  }

  /** A name the pattern `[A-Za-z_][A-Za-z0-9_]*` matches in full. */
  predicate IsIdent(s: string) {
    s != [] && IsIdentStart(s[0]) && forall k :: 0 <= k < |s| ==> IsIdentChar(s[k])
  }

  predicate NoLineTerminator(s: string) {
    forall k :: 0 <= k < |s| ==> !Text.IsLineTerminator(s[k])
  }

  /** The length of the longest run of name characters at the start of `s`. */
  function IdentLength(s: string): (n: nat)
    ensures n <= |s|
  {
    if s == [] || !IsIdentChar(s[0]) then 0 else 1 + IdentLength(s[1..])
  }

  /** The run is made of name characters and stops at the first other one. */
  lemma {:induction false} IdentLengthSpec(s: string)
    ensures forall k :: 0 <= k < IdentLength(s) ==> IsIdentChar(s[k])
    ensures IdentLength(s) < |s| ==> !IsIdentChar(s[IdentLength(s)])
  {
    if s != [] && IsIdentChar(s[0]) {
      IdentLengthSpec(s[1..]);
      forall k | 0 <= k < IdentLength(s) ensures IsIdentChar(s[k]) {
        if k > 0 { assert s[k] == s[1..][k - 1]; }
      }
    }
  }

  /** How far `.` gets: the index of the first line terminator, or |s|. */
  function ValueLength(s: string): (n: nat)
    ensures n <= |s|
  {
    if s == [] || Text.IsLineTerminator(s[0]) then 0 else 1 + ValueLength(s[1..])
  }

  lemma {:induction false} ValueLengthSpec(s: string)
    ensures NoLineTerminator(s[..ValueLength(s)])
    ensures ValueLength(s) < |s| ==> Text.IsLineTerminator(s[ValueLength(s)])
  {
    if s != [] && !Text.IsLineTerminator(s[0]) {
      ValueLengthSpec(s[1..]);
      var n := ValueLength(s);
      forall k | 0 <= k < n ensures !Text.IsLineTerminator(s[..n][k]) {
        if k > 0 { assert s[..n][k] == s[1..][..n - 1][k - 1]; }
      }
    }
  }

  predicate IsQuote(c: char) { c == '"' || c == '\'' }

  /** One pair of matching double or single quotes around the value is
      removed; a lone quote character becomes "". */
  function Unquote(v: string): (r: string)
    ensures |r| <= |v|
    ensures r != v ==> v != [] && IsQuote(v[0]) && v[|v| - 1] == v[0]
  {
    if v != [] && IsQuote(v[0]) && v[|v| - 1] == v[0] then
      (if |v| >= 2 then v[1..|v| - 1] else [])
    else v
  }

  lemma UnquoteSpec(q: char, x: string)
    requires IsQuote(q)
    ensures Unquote([q] + x + [q]) == x
  {
    assert ([q] + x + [q])[1..|x| + 1] == x;
  }

  datatype EnvPair = EnvPair(name: string, value: string)

  /** The pattern `^\s*([A-Za-z_][A-Za-z0-9_]*)\s*=\s*(.*)\s*$` applied to one
      line, then one pair of quotes removed. Each `\s*` takes all the white
      space in front of it; `(.*)` runs up to the first line terminator, and
      the match exists only if nothing but white space follows it. */
  function ParseEnvLine(line: string): (r: Option<EnvPair>)
    ensures r.Some? ==> IsIdent(r.value.name) && |r.value.name| + |r.value.value| < |line|
  {
    Text.TrimStartSpec(line);
    ParseNameShape(Text.TrimStart(line));
    ParseName(Text.TrimStart(line))
  }

  lemma ParseNameShape(a: string)
    ensures ParseName(a).Some? ==> IsIdent(ParseName(a).value.name) && |ParseName(a).value.name| + |ParseName(a).value.value| < |a|
  {
    IdentLengthSpec(a);
    var n := IdentLength(a);
    if n > 0 && IsIdentStart(a[0]) {
      var b := Text.TrimStart(a[n..]);
      Text.TrimStartSpec(a[n..]);
      if b != [] && b[0] == '=' {
        Text.TrimStartSpec(b[1..]);
      }
    }
  }

  function ParseName(a: string): Option<EnvPair> {
    var n := IdentLength(a);
    if n == 0 || !IsIdentStart(a[0]) then None
    else ParseEquals(a[..n], Text.TrimStart(a[n..]))
  }

  function ParseEquals(name: string, b: string): Option<EnvPair> {
    if b == [] || b[0] != '=' then None
    else ParseValue(name, Text.TrimStart(b[1..]))
  }

  function ParseValue(name: string, c: string): Option<EnvPair> {
    var i := ValueLength(c);
    if !Text.AllSpace(c[i..]) then None
    else Some(EnvPair(name, Unquote(c[..i])))
  }

  /** The line consists of white space `s1`, a name, white space `s2`, "=",
      white space `s3`, the raw value and white space `s4`; the value does
      not start with white space and holds no line terminator. */
  predicate Layout(line: string, s1: string, name: string, s2: string, s3: string, raw: string, s4: string) {
    && line == s1 + (name + (s2 + ("=" + (s3 + (raw + s4)))))
    && Text.AllSpace(s1) && Text.AllSpace(s2) && Text.AllSpace(s3) && Text.AllSpace(s4)
    && IsIdent(name) && NoLineTerminator(raw) && (raw != [] ==> !Text.IsSpace(raw[0]))
  }

  lemma {:induction false} TrimStartSkips(s: string, x: string)
    requires Text.AllSpace(s) && (x != [] ==> !Text.IsSpace(x[0]))
    ensures Text.TrimStart(s + x) == x
  {
    if s != [] {
      assert (s + x)[1..] == s[1..] + x;
      assert Text.AllSpace(s[1..]) by {
        forall k | 0 <= k < |s[1..]| ensures Text.IsSpace(s[1..][k]) { assert s[1..][k] == s[k + 1]; }
      }
      TrimStartSkips(s[1..], x);
    } else {
      assert s + x == x;
    }
  }

  lemma {:induction false} IdentLengthOf(name: string, rest: string)
    requires forall k :: 0 <= k < |name| ==> IsIdentChar(name[k])
    requires rest != [] && !IsIdentChar(rest[0])
    ensures IdentLength(name + rest) == |name|
  {
    if name != [] {
      assert (name + rest)[1..] == name[1..] + rest;
      IdentLengthOf(name[1..], rest);
    } else {
      assert name + rest == rest;
    }
  }

  lemma {:induction false} ValueLengthOf(raw: string, rest: string)
    requires NoLineTerminator(raw)
    requires rest == [] || Text.IsLineTerminator(rest[0])
    ensures ValueLength(raw + rest) == |raw|
  {
    if raw != [] {
      assert (raw + rest)[1..] == raw[1..] + rest;
      ValueLengthOf(raw[1..], rest);
    } else {
      assert raw + rest == rest;
    }
  }

  lemma AllSpaceConcat(s: string, t: string)
    requires Text.AllSpace(s) && Text.AllSpace(t)
    ensures Text.AllSpace(s + t)
  {
    forall k | 0 <= k < |s + t| ensures Text.IsSpace((s + t)[k]) {
      if k >= |s| { assert (s + t)[k] == t[k - |s|]; }
    }
  }

  lemma ParseValueOf(name: string, raw: string, s4: string)
    requires NoLineTerminator(raw) && Text.AllSpace(s4) && (s4 == [] || Text.IsLineTerminator(s4[0]))
    ensures ParseValue(name, raw + s4) == Some(EnvPair(name, Unquote(raw)))
  {
    ValueLengthOf(raw, s4);
    assert (raw + s4)[..|raw|] == raw && (raw + s4)[|raw|..] == s4;
  }

  lemma ParseEqualsOf(name: string, s3: string, raw: string, s4: string)
    requires Text.AllSpace(s3) && NoLineTerminator(raw) && (raw != [] ==> !Text.IsSpace(raw[0]))
    requires Text.AllSpace(s4) && (s4 == [] || Text.IsLineTerminator(s4[0]))
    ensures ParseEquals(name, "=" + (s3 + (raw + s4))) == Some(EnvPair(name, Unquote(raw)))
  {
    assert ("=" + (s3 + (raw + s4)))[1..] == s3 + (raw + s4);
    if raw == [] {
      AllSpaceConcat(s3, s4);
      assert s3 + (raw + s4) == (s3 + s4) + [];
      TrimStartSkips(s3 + s4, []);
      ParseValueOf(name, [], []);
    } else {
      TrimStartSkips(s3, raw + s4);
      ParseValueOf(name, raw, s4);
    }
  }

  /** Every line of that layout whose trailing white space starts with a line
      terminator (or is empty) yields its name and its unquoted value; white
      space before the value is dropped, white space after it is kept. */
  lemma ParseEnvLineComplete(line: string, s1: string, name: string, s2: string, s3: string, raw: string, s4: string)
    requires Layout(line, s1, name, s2, s3, raw, s4)
    requires s4 == [] || Text.IsLineTerminator(s4[0])
    ensures ParseEnvLine(line) == Some(EnvPair(name, Unquote(raw)))
  {
    var tail := "=" + (s3 + (raw + s4));
    var a := name + (s2 + tail);
    TrimStartSkips(s1, a);
    assert s2 + tail != [] && !IsIdentChar((s2 + tail)[0]);
    IdentLengthOf(name, s2 + tail);
    assert a[..|name|] == name && a[|name|..] == s2 + tail;
    TrimStartSkips(s2, tail);
    ParseEqualsOf(name, s3, raw, s4);
  }

  lemma ParseValueSound(name: string, c: string) returns (raw: string, s4: string)
    requires ParseValue(name, c).Some?
    ensures c == raw + s4 && NoLineTerminator(raw) && Text.AllSpace(s4)
    ensures ParseValue(name, c).value == EnvPair(name, Unquote(raw))
  {
    var i := ValueLength(c);
    ValueLengthSpec(c);
    raw, s4 := c[..i], c[i..];
  }

  /** `s` is its leading white space followed by `TrimStart(s)`. */
  lemma SplitLeadingSpace(s: string) returns (space: string)
    ensures s == space + Text.TrimStart(s) && Text.AllSpace(space)
  {
    Text.TrimStartSpec(s);
    space := s[..|s| - |Text.TrimStart(s)|];
  }

  lemma ParseEqualsSound(name: string, b: string) returns (s3: string, raw: string, s4: string)
    requires ParseEquals(name, b).Some?
    ensures b == "=" + (s3 + (raw + s4)) && Text.AllSpace(s3) && Text.AllSpace(s4)
    ensures NoLineTerminator(raw) && (raw != [] ==> !Text.IsSpace(raw[0]))
    ensures ParseEquals(name, b).value == EnvPair(name, Unquote(raw))
  {
    var c := Text.TrimStart(b[1..]);
    s3 := SplitLeadingSpace(b[1..]);
    Text.TrimStartSpec(b[1..]);
    raw, s4 := ParseValueSound(name, c);
    assert b == [b[0]] + b[1..];
  }

  /** The name a line starts with is a name the pattern accepts. */
  lemma IdentPrefix(a: string)
    requires IdentLength(a) > 0 && IsIdentStart(a[0])
    ensures IsIdent(a[..IdentLength(a)]) && a == a[..IdentLength(a)] + a[IdentLength(a)..]
  {
    var n := IdentLength(a);
    IdentLengthSpec(a);
    IdentRun(a, n);
    Text.TakeDrop(a, n);
  }

  lemma IdentRun(a: string, n: nat)
    requires 0 < n <= |a| && IsIdentStart(a[0])
    requires forall k :: 0 <= k < n ==> IsIdentChar(a[k])
    ensures IsIdent(a[..n])
  {
    assert a[..n][0] == a[0];
    forall k | 0 <= k < n ensures IsIdentChar(a[..n][k]) { assert a[..n][k] == a[k]; }
  }

  lemma ParseNameSound(a: string) returns (name: string, s2: string, s3: string, raw: string, s4: string)
    requires ParseName(a).Some?
    ensures a == name + (s2 + ("=" + (s3 + (raw + s4)))) && IsIdent(name) && Text.AllSpace(s2)
    ensures Text.AllSpace(s3) && Text.AllSpace(s4)
    ensures NoLineTerminator(raw) && (raw != [] ==> !Text.IsSpace(raw[0]))
    ensures ParseName(a).value == EnvPair(name, Unquote(raw))
  {
    var n := IdentLength(a);
    IdentPrefix(a);
    name := a[..n];
    var rest := a[n..];
    s2 := SplitLeadingSpace(rest);
    s3, raw, s4 := ParseEqualsSound(name, Text.TrimStart(rest));
  }

  /** Conversely, whatever the parser accepts has that layout. */
  lemma ParseEnvLineSound(line: string) returns (s1: string, s2: string, s3: string, raw: string, s4: string)
    requires ParseEnvLine(line).Some?
    ensures Layout(line, s1, ParseEnvLine(line).value.name, s2, s3, raw, s4)
    ensures ParseEnvLine(line).value.value == Unquote(raw)
  {
    s1 := SplitLeadingSpace(line);
    var name;
    name, s2, s3, raw, s4 := ParseNameSound(Text.TrimStart(line));
  }

  /** `if (!process.env[name]) process.env[name] = value`: a variable that is
      already set to a non-empty value is left alone. */
  function SetUnset(env: map<string, string>, line: string): (e: map<string, string>)
    ensures forall k :: k in e <==> k in env || (ParseEnvLine(line).Some? && k == ParseEnvLine(line).value.name)
  {
    match ParseEnvLine(line)
    case None => env
    case Some(p) => if p.name !in env || env[p.name] == "" then env[p.name := p.value] else env
  }

  /** The environment after the lines, one after the other. */
  function EnvAfter(env: map<string, string>, lines: seq<string>): map<string, string>
    decreases |lines|
  {
    if lines == [] then env else EnvAfter(SetUnset(env, lines[0]), lines[1..])
  }

  /** The loader: without a file nothing changes; otherwise every line is
      applied in order. */
  method LoadEnv(env: map<string, string>, file: Option<string>) returns (r: map<string, string>)
    ensures file.None? ==> r == env
    ensures file.Some? ==> r == EnvAfter(env, SplitLines(file.value))
  {
    r := env;
    if file.Some? {
      var lines := SplitLines(file.value);
      var i := 0;
      while i < |lines|
        invariant 0 <= i <= |lines|
        invariant EnvAfter(r, lines[i..]) == EnvAfter(env, lines)
      {
        assert lines[i..][1..] == lines[i + 1..];
        var m := ParseEnvLine(lines[i]);
        if m.Some? {
          var p := m.value;
          if p.name !in r || r[p.name] == "" {
            r := r[p.name := p.value];
          }
        }
        i := i + 1;
      }
      assert lines[|lines|..] == [];
    }
  }

  /** The line sets variable `name` to a non-empty value. */
  predicate SetsNonEmpty(line: string, name: string) {
    ParseEnvLine(line).Some? && ParseEnvLine(line).value.name == name && ParseEnvLine(line).value.value != ""
  }

  /** A variable holding a non-empty value is never overwritten. */
  lemma {:induction false} EnvKeepsSet(env: map<string, string>, lines: seq<string>, name: string)
    requires name in env && env[name] != ""
    ensures name in EnvAfter(env, lines) && EnvAfter(env, lines)[name] == env[name]
    decreases |lines|
  {
    if lines != [] {
      EnvKeepsSet(SetUnset(env, lines[0]), lines[1..], name);
    }
  }

  /** A variable not named by any line keeps its state, present or absent. */
  lemma {:induction false} EnvUntouched(env: map<string, string>, lines: seq<string>, name: string)
    requires forall k :: 0 <= k < |lines| ==> ParseEnvLine(lines[k]).None? || ParseEnvLine(lines[k]).value.name != name
    ensures name in EnvAfter(env, lines) <==> name in env
    ensures name in env ==> EnvAfter(env, lines)[name] == env[name]
    decreases |lines|
  {
    if lines != [] {
      EnvUntouched(SetUnset(env, lines[0]), lines[1..], name);
    }
  }

  /** An unset or empty variable takes the value of the first line that sets
      it to something non-empty. */
  lemma {:induction false} EnvFirstNonEmptyWins(env: map<string, string>, lines: seq<string>, name: string, j: int)
    requires name !in env || env[name] == ""
    requires 0 <= j < |lines| && SetsNonEmpty(lines[j], name)
    requires forall k :: 0 <= k < j ==> !SetsNonEmpty(lines[k], name)
    ensures name in EnvAfter(env, lines) && EnvAfter(env, lines)[name] == ParseEnvLine(lines[j]).value.value
    decreases |lines|
  {
    var next := SetUnset(env, lines[0]);
    if j == 0 {
      EnvKeepsSet(next, lines[1..], name);
    } else {
      assert !SetsNonEmpty(lines[0], name);
      assert name !in next || next[name] == "";
      EnvFirstNonEmptyWins(next, lines[1..], name, j - 1);
    }
  }

  // ---------------------------------------------------------------------------
  // Settings and metrics

  /** The number of weeks checked unless `MV_VALIDATE_WEEKS` says otherwise. */
  const DefaultWeeks: nat := 8
  /** The tolerance unless `MV_VALIDATE_EPSILON` says otherwise. */
  const DefaultEpsilon: real := 0.000001
  /** At most this many discrepancies are reported in full. */
  const SampleLimit: nat := 12

  /** `UNITS`, in the order the loops visit them. */
  const Units: seq<Catalog.Unit> := [Catalog.All, Catalog.AreaGroup, Catalog.Area, Catalog.StadiumGroup, Catalog.Stadium]

  /** `MV_VALIDATE_METRICS` split on ",", trimmed, empties dropped. */
  function ManualMetrics(setting: Option<string>): seq<string> {
    Heatmap.NonBlankTrimmed(Text.Split(setting.GetOr(""), ','))
  }

  /** `getSupportedMetrics`: the supported ids (as the dashboard computes
      them), restricted to the manual list when that list is not empty. */
  function ValidationMetrics(dict: Result<seq<string>>, sample: Result<Option<seq<string>>>,
                             setting: Option<string>): (r: Result<seq<string>>)
    ensures r.Ok? <==> Catalog.SupportedMetricIds(dict, sample).Ok?
    ensures r.Err? ==> r == Catalog.SupportedMetricIds(dict, sample)
    ensures r.Ok? ==> forall x :: x in r.value ==> x in Catalog.SupportedMetricIds(dict, sample).value
  {
    var supported := Catalog.SupportedMetricIds(dict, sample);
    if supported.Err? then supported
    else
      var manual := ManualMetrics(setting);
      if |manual| > 0 then Ok(Heatmap.KeepAllowed(supported.value, manual)) else supported
  }

  lemma {:induction false} KeepAllowedSorted(xs: seq<string>, allowed: seq<string>)
    requires Text.StrictlySorted(xs)
    ensures Text.StrictlySorted(Heatmap.KeepAllowed(xs, allowed))
  {
    if xs != [] {
      var rest := Heatmap.KeepAllowed(xs[1..], allowed);
      TailStrictlySorted(xs);
      KeepAllowedSorted(xs[1..], allowed);
      if xs[0] in allowed {
        forall j | 0 <= j < |rest| ensures Text.Less(xs[0], rest[j]) {
          assert rest[j] in xs[1..];
          var k :| 0 <= k < |xs[1..]| && xs[1..][k] == rest[j];
          assert xs[k + 1] == rest[j];
        }
        ConsStrictlySorted(xs[0], rest);
      }
    }
  }

  lemma TailStrictlySorted(xs: seq<string>)
    requires xs != [] && Text.StrictlySorted(xs)
    ensures Text.StrictlySorted(xs[1..])
  {
    forall i, j | 0 <= i < j < |xs[1..]| ensures Text.Less(xs[1..][i], xs[1..][j]) {
      assert xs[1..][i] == xs[i + 1] && xs[1..][j] == xs[j + 1];
    }
  }

  lemma ConsStrictlySorted(x: string, rest: seq<string>)
    requires Text.StrictlySorted(rest)
    requires forall j :: 0 <= j < |rest| ==> Text.Less(x, rest[j])
    ensures Text.StrictlySorted([x] + rest)
  {
    forall i, j | 0 <= i < j < |[x] + rest|
      ensures Text.Less(([x] + rest)[i], ([x] + rest)[j])
    {
      if i > 0 { assert ([x] + rest)[i] == rest[i - 1]; }
      assert ([x] + rest)[j] == rest[j - 1];
    }
  }

  /** The validated metrics are strictly ascending, all supported, and with
      a manual list exactly the supported ones it names. */
  lemma ValidationMetricsSpec(dict: Result<seq<string>>, sample: Result<Option<seq<string>>>,
                              setting: Option<string>, m: string)
    ensures var r := ValidationMetrics(dict, sample, setting);
      var supported := Catalog.SupportedMetricIds(dict, sample);
      && (r.Ok? <==> supported.Ok?)
      && (r.Err? ==> r == supported)
      && (r.Ok? ==> Text.StrictlySorted(r.value))
      && (r.Ok? && m in r.value ==> m in supported.value)
      && (r.Ok? && |ManualMetrics(setting)| > 0 ==> (m in r.value <==> m in supported.value && m in ManualMetrics(setting)))
      && (r.Ok? && ManualMetrics(setting) == [] ==> r.value == supported.value)
  {
    Catalog.SupportedMetricIdsSpec(dict, sample);
    var supported := Catalog.SupportedMetricIds(dict, sample);
    if supported.Ok? {
      KeepAllowedSorted(supported.value, ManualMetrics(setting));
    }
  }

  // ---------------------------------------------------------------------------
  // Expected aggregates from the fact table

  /** A fact-table row: its week, dimension type, the four entity columns and
      the metric cells (a metric the row lacks is absent). */
  datatype SourceRow = SourceRow(week: string, dimensionType: Option<string>,
                                 areaGroup: Option<string>, area: Option<string>,
                                 stadiumGroup: Option<string>, stadium: Option<string>,
                                 cells: map<string, Cell>)

  /** `unitDimension[unit].includes(dim)`: the unit "all" takes the rows of
      dimension type "all" or null, every other unit only its own rows. */
  predicate Routes(unit: Catalog.Unit, dim: Option<string>) {
    if unit == Catalog.All then dim == None || dim == Some("all") else dim == Some(Catalog.UnitId(unit))
  }

  /** `unitFilterValue`: the reserved label for "all", else the unit's column. */
  function UnitFilterValue(unit: Catalog.Unit, row: SourceRow): Option<string> {
    match unit
    case All => Some(Catalog.AllLabel)
    case AreaGroup => row.areaGroup
    case Area => row.area
    case StadiumGroup => row.stadiumGroup
    case Stadium => row.stadium
  }

  /** The filter value under which the row feeds the unit: the row must be
      routed to the unit and the value must not be null or "" (it is not
      trimmed). */
  function FeedValue(unit: Catalog.Unit, row: SourceRow): Option<string> {
    var fv := UnitFilterValue(unit, row);
    if Routes(unit, row.dimensionType) && fv.Some? && fv.value != "" then fv else None
  }

  /** A row of dimension "all" or null feeds only "all", under the reserved
      label; any other row feeds only the unit its dimension names, under a
      non-empty column value. */
  lemma RoutingSpec(row: SourceRow, u: Catalog.Unit, v: Catalog.Unit)
    ensures FeedValue(Catalog.All, row).Some? <==> row.dimensionType == None || row.dimensionType == Some("all")
    ensures FeedValue(Catalog.All, row).Some? ==> FeedValue(Catalog.All, row).value == Catalog.AllLabel
    ensures u != Catalog.All ==>
      (FeedValue(u, row).Some? <==>
        row.dimensionType == Some(Catalog.UnitId(u)) && UnitFilterValue(u, row).Some? && UnitFilterValue(u, row).value != "")
    ensures FeedValue(u, row).Some? && FeedValue(v, row).Some? ==> u == v
  {
  }

  /** `addExpected`'s value: null, a missing cell and "" are skipped, and so
      is anything `Number` does not turn into a finite number (a blank but
      non-empty string reads as 0). */
  function ExpectedValue(raw: Option<Cell>): (r: Option<real>)
    ensures raw.None? || raw.value.Null? || (raw.value.Text? && raw.value.s == "") ==> r.None?
    ensures raw.Some? && raw.value.Number? ==> (r.Some? <==> raw.value.n.Finite?)
    ensures raw.Some? && raw.value.Number? && raw.value.n.Finite? ==> r == Some(raw.value.n.v)
    ensures raw.Some? && raw.value.Text? && raw.value.s != "" && Text.IsBlank(raw.value.s) ==> r == Some(0.0)
    ensures raw.Some? && raw.value.Text? && !Text.IsBlank(raw.value.s) ==>
      r == if raw.value.parsed.Finite? then Some(raw.value.parsed.v) else None
  {
    match raw
    case None => None
    case Some(c) =>
      if c.Null? || (c.Text? && c.s == "") then None
      else match ToNumber(c)
        case Finite(v) => Some(v)
        case _ => None
  }

  /** The validator reads a cell as the dashboard's fallback does, except
      that it skips the empty string, which the fallback reads as 0. */
  lemma ExpectedValueVersusFallback(raw: Option<Cell>)
    ensures !(raw.Some? && raw.value.Text? && raw.value.s == "") ==> ExpectedValue(raw) == Fallback.SampleValue(raw)
    ensures raw.Some? && raw.value.Text? && raw.value.s == "" ==>
      ExpectedValue(raw).None? && Fallback.SampleValue(raw) == Some(0.0)
  {
    if raw.Some? && raw.value.Text? && raw.value.s == "" {
      assert Text.IsBlank(raw.value.s) by { Text.BlankIffAllSpace(raw.value.s); }
    }
  }

  /** `week|unit|filterValue|metricId` as a tuple. */
  datatype ExpKey = ExpKey(week: string, unit: string, filterValue: string, metric: string)

  /** One value appended to the list of its key. */
  datatype Contribution = Contribution(key: ExpKey, value: real)

  /** The contributions of one row to one unit, in the order of `ids`. */
  function MetricContribs(week: string, unit: string, fv: string, cells: map<string, Cell>, ids: seq<string>): seq<Contribution> {
    if ids == [] then []
    else
      var m := ids[|ids| - 1];
      var p := MetricContribs(week, unit, fv, cells, ids[..|ids| - 1]);
      match ExpectedValue(Fallback.Lookup(cells, m))
      case Some(v) => p + [Contribution(ExpKey(week, unit, fv, m), v)]
      case None => p
  }

  /** The contributions of one row to the units `units`, in their order. */
  function UnitContribs(row: SourceRow, units: seq<Catalog.Unit>, ids: seq<string>): seq<Contribution> {
    if units == [] then []
    else
      var u := units[|units| - 1];
      var p := UnitContribs(row, units[..|units| - 1], ids);
      match FeedValue(u, row)
      case Some(fv) => p + MetricContribs(row.week, Catalog.UnitId(u), fv, row.cells, ids)
      case None => p
  }

  function RowContribs(row: SourceRow, ids: seq<string>): seq<Contribution> {
    UnitContribs(row, Units, ids)
  }

  function BatchContribs(rows: seq<SourceRow>, ids: seq<string>): seq<Contribution> {
    if rows == [] then [] else BatchContribs(rows[..|rows| - 1], ids) + RowContribs(rows[|rows| - 1], ids)
  }

  /** All contributions, one fetched batch per week, in week order. */
  function SourceContribs(weeks: seq<string>, fetch: string -> Result<seq<SourceRow>>, ids: seq<string>): seq<Contribution>
    decreases |weeks|
  {
    if weeks == [] then []
    else (match fetch(weeks[0]) case Ok(rows) => BatchContribs(rows, ids) case Err(_) => []) +
         SourceContribs(weeks[1..], fetch, ids)
  }

  /** The number of fact rows fetched. */
  function SourceRowCount(weeks: seq<string>, fetch: string -> Result<seq<SourceRow>>): nat
    decreases |weeks|
  {
    if weeks == [] then 0
    else (match fetch(weeks[0]) case Ok(rows) => |rows| case Err(_) => 0) + SourceRowCount(weeks[1..], fetch)
  }

  /** The first failed fetch, if any. */
  function FetchError<Q, R>(qs: seq<Q>, fetch: Q -> Result<seq<R>>): Option<string>
    decreases |qs|
  {
    if qs == [] then None
    else if fetch(qs[0]).Err? then Some(fetch(qs[0]).message)
    else FetchError(qs[1..], fetch)
  }

  /** The values appended to key `k`, in order. */
  function ValuesOf(cs: seq<Contribution>, k: ExpKey): seq<real> {
    if cs == [] then []
    else if cs[|cs| - 1].key == k then ValuesOf(cs[..|cs| - 1], k) + [cs[|cs| - 1].value]
    else ValuesOf(cs[..|cs| - 1], k)
  }

  /** The keys in the order a `Map` keeps them: by first contribution. */
  function KeyOrder(cs: seq<Contribution>): seq<ExpKey> {
    if cs == [] then []
    else
      var p := KeyOrder(cs[..|cs| - 1]);
      if cs[|cs| - 1].key in p then p else p + [cs[|cs| - 1].key]
  }

  /** The expected map: its keys in insertion order and their lists. */
  datatype Expected = Expected(keys: seq<ExpKey>, lists: map<ExpKey, seq<real>>)

  /** The map holds exactly the lists of the contributions `cs`. */
  ghost predicate Tracks(cs: seq<Contribution>, e: Expected) {
    && e.keys == KeyOrder(cs)
    && (forall k :: k in e.lists <==> k in e.keys)
    && (forall k :: k in e.lists ==> e.lists[k] == ValuesOf(cs, k))
  }

  /** The contribution `addExpected` makes, if any. */
  function ContributionOf(key: ExpKey, raw: Option<Cell>): seq<Contribution> {
    match ExpectedValue(raw)
    case Some(v) => [Contribution(key, v)]
    case None => []
  }

  /** `addExpected`: a usable value is appended to its key's list, creating
      the list (at the end of the key order) on first use; nothing else
      changes. */
  method AddExpected(e: Expected, key: ExpKey, raw: Option<Cell>) returns (r: Expected)
    ensures ExpectedValue(raw).None? ==> r == e
    ensures ExpectedValue(raw).Some? ==>
      r.keys == (if key in e.lists then e.keys else e.keys + [key]) &&
      r.lists == e.lists[key := (if key in e.lists then e.lists[key] else []) + [ExpectedValue(raw).value]]
  {
    r := e;
    var value := ExpectedValue(raw);
    if value.None? {
      return;
    }
    if key !in r.lists {
      r := Expected(r.keys + [key], r.lists[key := []]);
    }
    r := Expected(r.keys, r.lists[key := r.lists[key] + [value.value]]);
  }

  /** Adding one value keeps the map in step with the contributions. */
  lemma AddExpectedTracks(cs: seq<Contribution>, e: Expected, key: ExpKey, raw: Option<Cell>, r: Expected)
    requires Tracks(cs, e)
    requires ExpectedValue(raw).None? ==> r == e
    requires ExpectedValue(raw).Some? ==>
      r.keys == (if key in e.lists then e.keys else e.keys + [key]) &&
      r.lists == e.lists[key := (if key in e.lists then e.lists[key] else []) + [ExpectedValue(raw).value]]
    ensures Tracks(cs + ContributionOf(key, raw), r)
  {
    if ExpectedValue(raw).Some? {
      var c := Contribution(key, ExpectedValue(raw).value);
      var cs' := cs + [c];
      assert cs'[..|cs|] == cs;
      assert key !in e.lists ==> ValuesOf(cs, key) == [] by {
        if key !in e.lists && ValuesOf(cs, key) != [] {
          KeyOrderSpec(cs, key);
        }
      }
    } else {
      assert cs + [] == cs;
    }
  }

  /** The keys are distinct and are exactly those with values. */
  lemma {:induction false} KeyOrderSpec(cs: seq<Contribution>, k: ExpKey)
    ensures Text.NoDups(KeyOrder(cs))
    ensures k in KeyOrder(cs) <==> ValuesOf(cs, k) != []
  {
    if cs != [] {
      var p := cs[..|cs| - 1];
      KeyOrderSpec(p, k);
      KeyOrderSpec(p, cs[|cs| - 1].key);
    }
  }

  lemma MetricContribsStep(cs: seq<Contribution>, week: string, unit: string, fv: string,
                           cells: map<string, Cell>, ids: seq<string>, j: int)
    requires 0 <= j < |ids|
    ensures cs + MetricContribs(week, unit, fv, cells, ids[..j + 1]) ==
      (cs + MetricContribs(week, unit, fv, cells, ids[..j])) + ContributionOf(ExpKey(week, unit, fv, ids[j]), Fallback.Lookup(cells, ids[j]))
  {
    assert ids[..j + 1][..j] == ids[..j];
    var p := MetricContribs(week, unit, fv, cells, ids[..j]);
    var c := ContributionOf(ExpKey(week, unit, fv, ids[j]), Fallback.Lookup(cells, ids[j]));
    assert MetricContribs(week, unit, fv, cells, ids[..j + 1]) == p + c;
    AppendAssoc(cs, p, c);
  }

  lemma UnitContribsPrefixStep(cs: seq<Contribution>, row: SourceRow, ids: seq<string>, u: int)
    requires 0 <= u < |Units|
    ensures FeedValue(Units[u], row).None? ==>
      cs + UnitContribs(row, Units[..u + 1], ids) == cs + UnitContribs(row, Units[..u], ids)
    ensures FeedValue(Units[u], row).Some? ==>
      cs + UnitContribs(row, Units[..u + 1], ids) ==
        (cs + UnitContribs(row, Units[..u], ids)) +
        MetricContribs(row.week, Catalog.UnitId(Units[u]), FeedValue(Units[u], row).value, row.cells, ids)
  {
    assert Units[..u + 1][..u] == Units[..u];
    var p := UnitContribs(row, Units[..u], ids);
    if FeedValue(Units[u], row).Some? {
      AppendAssoc(cs, p, MetricContribs(row.week, Catalog.UnitId(Units[u]), FeedValue(Units[u], row).value, row.cells, ids));
    }
  }

  /** Before the first unit nothing is added; after the last, the row's contributions. */
  lemma UnitsEnds(cs: seq<Contribution>, row: SourceRow, ids: seq<string>)
    ensures cs + UnitContribs(row, Units[..0], ids) == cs
    ensures cs + UnitContribs(row, Units[..|Units|], ids) == cs + RowContribs(row, ids)
  {
    assert Units[..0] == [];
    assert cs + [] == cs;
    assert Units[..|Units|] == Units;
  }

  lemma BatchContribsStep(cs: seq<Contribution>, rows: seq<SourceRow>, ids: seq<string>, j: int)
    requires 0 <= j < |rows|
    ensures cs + BatchContribs(rows[..j + 1], ids) == (cs + BatchContribs(rows[..j], ids)) + RowContribs(rows[j], ids)
  {
    assert rows[..j + 1][..j] == rows[..j];
    AppendAssoc(cs, BatchContribs(rows[..j], ids), RowContribs(rows[j], ids));
  }

  lemma AppendAssoc<T>(a: seq<T>, b: seq<T>, c: seq<T>)
    ensures a + (b + c) == (a + b) + c
  {
  }

  /** The inner loop over the metrics of one row and unit. */
  method AddCells(e: Expected, ghost cs: seq<Contribution>, week: string, unit: string, fv: string,
                  cells: map<string, Cell>, ids: seq<string>) returns (r: Expected)
    requires Tracks(cs, e)
    ensures Tracks(cs + MetricContribs(week, unit, fv, cells, ids), r)
  {
    r := e;
    var j := 0;
    assert cs + MetricContribs(week, unit, fv, cells, ids[..0]) == cs;
    while j < |ids|
      invariant 0 <= j <= |ids|
      invariant Tracks(cs + MetricContribs(week, unit, fv, cells, ids[..j]), r)
    {
      var m := ids[j];
      ghost var before := cs + MetricContribs(week, unit, fv, cells, ids[..j]);
      var key := ExpKey(week, unit, fv, m);
      var raw := Fallback.Lookup(cells, m);
      var next := AddExpected(r, key, raw);
      AddExpectedTracks(before, r, key, raw, next);
      MetricContribsStep(cs, week, unit, fv, cells, ids, j);
      r := next;
      j := j + 1;
    }
    assert ids[..|ids|] == ids;
  }

  /** The loop over the units for one row. */
  method AddSourceRow(e: Expected, ghost cs: seq<Contribution>, row: SourceRow, ids: seq<string>) returns (r: Expected)
    requires Tracks(cs, e)
    ensures Tracks(cs + RowContribs(row, ids), r)
  {
    r := e;
    var u := 0;
    UnitsEnds(cs, row, ids);
    while u < |Units|
      invariant 0 <= u <= |Units|
      invariant Tracks(cs + UnitContribs(row, Units[..u], ids), r)
    {
      var unit := Units[u];
      ghost var before := cs + UnitContribs(row, Units[..u], ids);
      UnitContribsPrefixStep(cs, row, ids, u);
      var fv := FeedValue(unit, row);
      if fv.Some? {
        r := AddCells(r, before, row.week, Catalog.UnitId(unit), fv.value, row.cells, ids);
      }
      u := u + 1;
    }
  }

  /** The loop over the rows of one fetched batch. */
  method AddBatch(e: Expected, ghost cs: seq<Contribution>, rows: seq<SourceRow>, ids: seq<string>) returns (r: Expected)
    requires Tracks(cs, e)
    ensures Tracks(cs + BatchContribs(rows, ids), r)
  {
    r := e;
    var j := 0;
    assert cs + BatchContribs(rows[..0], ids) == cs;
    while j < |rows|
      invariant 0 <= j <= |rows|
      invariant Tracks(cs + BatchContribs(rows[..j], ids), r)
    {
      ghost var before := cs + BatchContribs(rows[..j], ids);
      r := AddSourceRow(r, before, rows[j], ids);
      BatchContribsStep(cs, rows, ids, j);
      j := j + 1;
    }
    assert rows[..|rows|] == rows;
  }

  /** One week of the first loop, unfolded. */
  lemma SourceStep(cs: seq<Contribution>, weeks: seq<string>, i: int, fetch: string -> Result<seq<SourceRow>>, ids: seq<string>)
    requires 0 <= i < |weeks| && fetch(weeks[i]).Ok?
    ensures cs + SourceContribs(weeks[i..], fetch, ids) ==
      (cs + BatchContribs(fetch(weeks[i]).value, ids)) + SourceContribs(weeks[i + 1..], fetch, ids)
    ensures SourceRowCount(weeks[i..], fetch) == |fetch(weeks[i]).value| + SourceRowCount(weeks[i + 1..], fetch)
    ensures FetchError(weeks[i..], fetch) == FetchError(weeks[i + 1..], fetch)
  {
    assert weeks[i..][1..] == weeks[i + 1..];
    AppendAssoc(cs, BatchContribs(fetch(weeks[i]).value, ids), SourceContribs(weeks[i + 1..], fetch, ids));
  }

  /** What is left after the last week. */
  lemma SourceDone(cs: seq<Contribution>, weeks: seq<string>, fetch: string -> Result<seq<SourceRow>>, ids: seq<string>)
    ensures cs + SourceContribs(weeks[|weeks|..], fetch, ids) == cs
    ensures SourceRowCount(weeks[|weeks|..], fetch) == 0
  {
    assert weeks[|weeks|..] == [];
    assert cs + [] == cs;
  }

  datatype ExpectedRun = ExpectedRun(expected: Expected, sourceRows: nat)

  /** The first loop of `main`: fetch each week's fact rows and add every
      routed, usable cell under its key. A failed fetch ends the run. */
  method BuildExpected(weeks: seq<string>, fetch: string -> Result<seq<SourceRow>>, ids: seq<string>)
    returns (r: Result<ExpectedRun>)
    ensures FetchError(weeks, fetch).Some? ==> r == Err(FetchError(weeks, fetch).value)
    ensures FetchError(weeks, fetch).None? ==> r.Ok? && Tracks(SourceContribs(weeks, fetch, ids), r.value.expected)
    ensures r.Ok? ==> r.value.sourceRows == SourceRowCount(weeks, fetch)
  {
    var e := Expected([], map[]);
    var sourceRows := 0;
    ghost var cs: seq<Contribution> := [];
    var i := 0;
    while i < |weeks|
      invariant 0 <= i <= |weeks|
      invariant FetchError(weeks[i..], fetch) == FetchError(weeks, fetch)
      invariant cs + SourceContribs(weeks[i..], fetch, ids) == SourceContribs(weeks, fetch, ids)
      invariant sourceRows + SourceRowCount(weeks[i..], fetch) == SourceRowCount(weeks, fetch)
      invariant Tracks(cs, e)
    {
      var res := fetch(weeks[i]);
      if res.Err? {
        assert FetchError(weeks[i..], fetch) == Some(res.message);
        return Err(res.message);
      }
      SourceStep(cs, weeks, i, fetch, ids);
      var rows := res.value;
      sourceRows := sourceRows + |rows|;
      e := AddBatch(e, cs, rows, ids);
      cs := cs + BatchContribs(rows, ids);
      i := i + 1;
    }
    SourceDone(cs, weeks, fetch, ids);
    r := Ok(ExpectedRun(e, sourceRows));
  }

  // ---------------------------------------------------------------------------
  // Properties of the expected aggregates

  /** Row `row` contributes `v` to key `k`: it is routed to a unit named
      `k.unit` under filter value `k.filterValue`, `k.metric` is a checked
      metric, and the cell reads as `v`. */
  predicate Feeds(row: SourceRow, ids: seq<string>, k: ExpKey, v: real) {
    && k.week == row.week && k.metric in ids
    && Catalog.UnitNamed(k.unit).Some? && FeedValue(Catalog.UnitNamed(k.unit).value, row) == Some(k.filterValue)
    && ExpectedValue(Fallback.Lookup(row.cells, k.metric)) == Some(v)
  }

  /** A row's own contributions to `k` are exactly the values it feeds it. */
  lemma RowValues(row: SourceRow, ids: seq<string>, k: ExpKey, v: real)
    ensures v in ValuesOf(RowContribs(row, ids), k) <==> Feeds(row, ids, k, v)
  {
    UnitContribsValues(row, Units, ids, k, v);
    var named := Catalog.UnitNamed(k.unit);
    if named.Some? {
      assert named.value in Units;
    }
  }

  /** The values a batch feeds `k` are those of all rows but the last, and
      then those of the last. */
  lemma BatchStepValues(rows: seq<SourceRow>, ids: seq<string>, k: ExpKey, v: real)
    requires rows != []
    ensures v in ValuesOf(BatchContribs(rows, ids), k) <==>
      v in ValuesOf(BatchContribs(rows[..|rows| - 1], ids), k) || Feeds(rows[|rows| - 1], ids, k, v)
  {
    ValuesOfConcat(BatchContribs(rows[..|rows| - 1], ids), RowContribs(rows[|rows| - 1], ids), k);
    RowValues(rows[|rows| - 1], ids, k, v);
  }

  lemma ValuesOfAppend(cs: seq<Contribution>, c: Contribution, k: ExpKey)
    ensures ValuesOf(cs + [c], k) == if c.key == k then ValuesOf(cs, k) + [c.value] else ValuesOf(cs, k)
  {
    assert (cs + [c])[..|cs|] == cs;
  }

  lemma {:induction false} ValuesOfConcat(a: seq<Contribution>, b: seq<Contribution>, k: ExpKey)
    ensures ValuesOf(a + b, k) == ValuesOf(a, k) + ValuesOf(b, k)
  {
    if b != [] {
      var b' := b[..|b| - 1];
      Text.ConcatLast(a, b);
      ValuesOfAppend(a + b', b[|b| - 1], k);
      ValuesOfAppend(b', b[|b| - 1], k);
      Text.LastSplit(b);
      ValuesOfConcat(a, b', k);
    } else {
      Text.ConcatEmpty(a);
    }
  }

  lemma {:induction false} MetricContribsValues(week: string, unit: string, fv: string, cells: map<string, Cell>,
                                                ids: seq<string>, k: ExpKey, v: real)
    ensures v in ValuesOf(MetricContribs(week, unit, fv, cells, ids), k) <==>
      k.week == week && k.unit == unit && k.filterValue == fv && k.metric in ids &&
      ExpectedValue(Fallback.Lookup(cells, k.metric)) == Some(v)
  {
    if ids != [] {
      var p := ids[..|ids| - 1];
      var m := ids[|ids| - 1];
      var q := MetricContribs(week, unit, fv, cells, p);
      if ExpectedValue(Fallback.Lookup(cells, m)).Some? {
        ValuesOfAppend(q, Contribution(ExpKey(week, unit, fv, m), ExpectedValue(Fallback.Lookup(cells, m)).value), k);
      }
      MetricContribsValues(week, unit, fv, cells, p, k, v);
      assert ids == p + [m];
    }
  }

  /** Unit `u` is the one `k` names and the row is routed to it under `k`'s filter value. */
  predicate UnitFeeds(u: Catalog.Unit, row: SourceRow, k: ExpKey) {
    Catalog.UnitId(u) == k.unit && FeedValue(u, row) == Some(k.filterValue)
  }

  lemma UnitContribsStep(row: SourceRow, units: seq<Catalog.Unit>, ids: seq<string>, k: ExpKey)
    requires units != []
    ensures var u := units[|units| - 1];
      ValuesOf(UnitContribs(row, units, ids), k) ==
        ValuesOf(UnitContribs(row, units[..|units| - 1], ids), k) +
        (match FeedValue(u, row)
         case Some(fv) => ValuesOf(MetricContribs(row.week, Catalog.UnitId(u), fv, row.cells, ids), k)
         case None => [])
  {
    var u := units[|units| - 1];
    var p := UnitContribs(row, units[..|units| - 1], ids);
    match FeedValue(u, row)
    case Some(fv) =>
      ValuesOfConcat(p, MetricContribs(row.week, Catalog.UnitId(u), fv, row.cells, ids), k);
    case None =>
      assert ValuesOf(p, k) + [] == ValuesOf(p, k);
  }

  lemma {:induction false} UnitContribsValues(row: SourceRow, units: seq<Catalog.Unit>, ids: seq<string>, k: ExpKey, v: real)
    ensures v in ValuesOf(UnitContribs(row, units, ids), k) <==>
      k.week == row.week && k.metric in ids &&
      (exists u :: u in units && UnitFeeds(u, row, k)) &&
      ExpectedValue(Fallback.Lookup(row.cells, k.metric)) == Some(v)
  {
    if units != [] {
      var u := units[|units| - 1];
      UnitContribsValues(row, units[..|units| - 1], ids, k, v);
      UnitContribsStep(row, units, ids, k);
      Text.ExistsInSplit(units, u' => UnitFeeds(u', row, k));
      if FeedValue(u, row).Some? {
        MetricContribsValues(row.week, Catalog.UnitId(u), FeedValue(u, row).value, row.cells, ids, k, v);
      }
    }
  }

  /** Every value in a key's list comes from a row that feeds that key with
      that value, and every such row's value is in the list. */
  lemma {:induction false} BatchValuesOrigin(rows: seq<SourceRow>, ids: seq<string>, k: ExpKey, v: real)
    ensures v in ValuesOf(BatchContribs(rows, ids), k) <==> exists j :: 0 <= j < |rows| && Feeds(rows[j], ids, k, v)
  {
    if rows != [] {
      var p := rows[..|rows| - 1];
      BatchStepValues(rows, ids, k, v);
      BatchValuesOrigin(p, ids, k, v);
      Text.ExistsSplit(rows, r => Feeds(r, ids, k, v));
    }
  }

  /** `aggregateMetric`: nothing for an empty list, the mean for a rate, the
      maximum otherwise. */
  function AggregateMetric(metricId: string, values: seq<real>): (r: Option<real>)
    ensures r.None? <==> values == []
  {
    if values == [] then None
    else if Catalog.IsRateMetric(metricId) then Some(Fallback.SumOf(values) / |values| as real)
    else Some(Fallback.MaxOf(values))
  }

  /** The validator's aggregate is the dashboard fallback's collapse of the
      same values, so it lies between their minimum and maximum. */
  lemma AggregateMetricSpec(metricId: string, values: seq<real>)
    requires values != []
    ensures AggregateMetric(metricId, values) == Some(Fallback.Collapse(metricId, Fallback.Summary(values)))
    ensures Fallback.MinOf(values) <= AggregateMetric(metricId, values).value <= Fallback.MaxOf(values)
  {
    Fallback.CollapseSpec(metricId, values);
  }

  /** One entry of `expectedFinal`. */
  datatype Entry = Entry(key: ExpKey, expected: Option<real>)

  /** The second loop of `main`: every key's list aggregated under its metric
      id, in the map's key order. */
  method Finalize(e: Expected) returns (entries: seq<Entry>)
    ensures |entries| == |e.keys|
    ensures forall i :: 0 <= i < |e.keys| ==>
      entries[i] == Entry(e.keys[i], AggregateMetric(e.keys[i].metric, if e.keys[i] in e.lists then e.lists[e.keys[i]] else []))
  {
    entries := [];
    var i := 0;
    while i < |e.keys|
      invariant 0 <= i <= |e.keys|
      invariant |entries| == i
      invariant forall j :: 0 <= j < i ==>
        entries[j] == Entry(e.keys[j], AggregateMetric(e.keys[j].metric, if e.keys[j] in e.lists then e.lists[e.keys[j]] else []))
    {
      var k := e.keys[i];
      var values := if k in e.lists then e.lists[k] else [];
      entries := entries + [Entry(k, AggregateMetric(k.metric, values))];
      i := i + 1;
    }
  }

  /** On a tracked map every entry is present: no list is empty. */
  lemma FinalizedPresent(cs: seq<Contribution>, e: Expected, i: int)
    requires Tracks(cs, e) && 0 <= i < |e.keys|
    ensures e.keys[i] in e.lists && e.lists[e.keys[i]] != []
    ensures AggregateMetric(e.keys[i].metric, e.lists[e.keys[i]]).Some?
  {
    KeyOrderSpec(cs, e.keys[i]);
  }

  // ---------------------------------------------------------------------------
  // Actual values from the rollup view

  /** One query of the third loop: a week, a unit and a metric id. */
  datatype MvQuery = MvQuery(week: string, unit: Catalog.Unit, metric: string)

  function MetricQueries(week: string, unit: Catalog.Unit, ids: seq<string>): (r: seq<MvQuery>)
    ensures |r| == |ids|
    ensures forall i :: 0 <= i < |ids| ==> r[i] == MvQuery(week, unit, ids[i])
  {
    if ids == [] then [] else [MvQuery(week, unit, ids[0])] + MetricQueries(week, unit, ids[1..])
  }

  function UnitQueries(week: string, units: seq<Catalog.Unit>, ids: seq<string>): (r: seq<MvQuery>)
    ensures |r| == |units| * |ids|
  {
    if units == [] then [] else MetricQueries(week, units[0], ids) + UnitQueries(week, units[1..], ids)
  }

  /** The queries of the nested loops over weeks, `UNITS` and the metrics,
      in the order they are issued. */
  function Queries(weeks: seq<string>, ids: seq<string>): (r: seq<MvQuery>)
    ensures |r| == |weeks| * |Units| * |ids|
  {
    if weeks == [] then [] else UnitQueries(weeks[0], Units, ids) + Queries(weeks[1..], ids)
  }

  lemma {:induction false} UnitQueriesMembers(week: string, units: seq<Catalog.Unit>, ids: seq<string>, q: MvQuery)
    ensures q in UnitQueries(week, units, ids) <==> q.week == week && q.unit in units && q.metric in ids
  {
    if units != [] {
      UnitQueriesMembers(week, units[1..], ids, q);
      if q.week == week && q.unit == units[0] && q.metric in ids {
        var i :| 0 <= i < |ids| && ids[i] == q.metric;
        assert MetricQueries(week, units[0], ids)[i] == q;
      }
    }
  }

  /** Every (week, unit, metric) combination is queried, and nothing else. */
  lemma {:induction false} QueriesMembers(weeks: seq<string>, ids: seq<string>, q: MvQuery)
    ensures q in Queries(weeks, ids) <==> q.week in weeks && q.unit in Units && q.metric in ids
  {
    if weeks != [] {
      QueriesMembers(weeks[1..], ids, q);
      UnitQueriesMembers(weeks[0], Units, ids, q);
      assert weeks == [weeks[0]] + weeks[1..];
    }
  }

  /** `${x}` for a column that may be null. */
  function Show(o: Option<string>): string {
    o.GetOr("null")
  }

  /** The key of a rollup row, `week|measure_unit|filter_value|metric_id`. */
  function ActualKey(row: Catalog.RollupRow): ExpKey {
    ExpKey(Show(row.week), Show(row.measureUnit), Show(row.filterValue), Show(row.metricId))
  }

  /** The rows of all successful queries, in query order. */
  function MvRows(qs: seq<MvQuery>, mv: MvQuery -> Result<seq<Catalog.RollupRow>>): seq<Catalog.RollupRow>
    decreases |qs|
  {
    if qs == [] then []
    else (match mv(qs[0]) case Ok(rows) => rows case Err(_) => []) + MvRows(qs[1..], mv)
  }

  /** `actual.set(key, Number(value))` for every row in turn. */
  function Store(m: map<ExpKey, JsNum>, rows: seq<Catalog.RollupRow>): (r: map<ExpKey, JsNum>)
    ensures m.Keys <= r.Keys
    ensures rows != [] ==> var last := rows[|rows| - 1];
      ActualKey(last) in r && r[ActualKey(last)] == ToNumber(last.value)
    decreases |rows|
  {
    if rows == [] then m else Store(m[ActualKey(rows[0]) := ToNumber(rows[0].value)], rows[1..])
  }

  lemma {:induction false} StoreConcat(m: map<ExpKey, JsNum>, a: seq<Catalog.RollupRow>, b: seq<Catalog.RollupRow>)
    ensures Store(m, a + b) == Store(Store(m, a), b)
    decreases |a|
  {
    if a == [] {
      assert a + b == b;
    } else {
      assert (a + b)[1..] == a[1..] + b;
      StoreConcat(m[ActualKey(a[0]) := ToNumber(a[0].value)], a[1..], b);
    }
  }

  /** The row indexes `j` of `rows` whose key is `k`, none after it. */
  predicate LastWithKey(rows: seq<Catalog.RollupRow>, j: int, k: ExpKey) {
    0 <= j < |rows| && ActualKey(rows[j]) == k &&
    forall l :: j < l < |rows| ==> ActualKey(rows[l]) != k
  }

  lemma {:induction false} StoreKeys(m: map<ExpKey, JsNum>, rows: seq<Catalog.RollupRow>, k: ExpKey)
    ensures k in Store(m, rows) <==> k in m || exists j :: 0 <= j < |rows| && ActualKey(rows[j]) == k
    decreases |rows|
  {
    if rows != [] {
      StoreKeys(m[ActualKey(rows[0]) := ToNumber(rows[0].value)], rows[1..], k);
      Text.ExistsSplitFront(rows, r => ActualKey(r) == k);
    }
  }

  lemma {:induction false} StoreUntouched(m: map<ExpKey, JsNum>, rows: seq<Catalog.RollupRow>, k: ExpKey)
    requires forall j :: 0 <= j < |rows| ==> ActualKey(rows[j]) != k
    requires k in m
    ensures k in Store(m, rows) && Store(m, rows)[k] == m[k]
    decreases |rows|
  {
    if rows != [] {
      assert forall j :: 0 <= j < |rows[1..]| ==> rows[1..][j] == rows[j + 1];
      StoreUntouched(m[ActualKey(rows[0]) := ToNumber(rows[0].value)], rows[1..], k);
    }
  }

  lemma {:induction false} StoreLast(m: map<ExpKey, JsNum>, rows: seq<Catalog.RollupRow>, k: ExpKey, j: int)
    requires LastWithKey(rows, j, k)
    ensures k in Store(m, rows) && Store(m, rows)[k] == ToNumber(rows[j].value)
    decreases |rows|
  {
    var m' := m[ActualKey(rows[0]) := ToNumber(rows[0].value)];
    if j > 0 {
      assert LastWithKey(rows[1..], j - 1, k) by {
        forall l | j - 1 < l < |rows[1..]| ensures ActualKey(rows[1..][l]) != k {
          assert rows[1..][l] == rows[l + 1];
        }
      }
      StoreLast(m', rows[1..], k, j - 1);
    } else {
      forall l | 0 <= l < |rows[1..]| ensures ActualKey(rows[1..][l]) != k {
        assert rows[1..][l] == rows[l + 1];
      }
      StoreUntouched(m', rows[1..], k);
    }
  }

  /** The last write wins: a key is stored iff it was stored before or some
      row has it, and its value is that of the last such row. */
  lemma StoreSpec(m: map<ExpKey, JsNum>, rows: seq<Catalog.RollupRow>, k: ExpKey)
    ensures k in Store(m, rows) <==> k in m || exists j :: 0 <= j < |rows| && ActualKey(rows[j]) == k
    ensures (forall j :: 0 <= j < |rows| ==> ActualKey(rows[j]) != k) && k in m ==> Store(m, rows)[k] == m[k]
    ensures forall j :: LastWithKey(rows, j, k) ==> Store(m, rows)[k] == ToNumber(rows[j].value)
  {
    StoreKeys(m, rows, k);
    if (forall j :: 0 <= j < |rows| ==> ActualKey(rows[j]) != k) && k in m {
      StoreUntouched(m, rows, k);
    }
    forall j | LastWithKey(rows, j, k) ensures Store(m, rows)[k] == ToNumber(rows[j].value) {
      StoreLast(m, rows, k, j);
    }
  }

  datatype ActualRun = ActualRun(actual: map<ExpKey, JsNum>, mvRows: nat)

  lemma ActualStep(qs: seq<MvQuery>, i: int, mv: MvQuery -> Result<seq<Catalog.RollupRow>>)
    requires 0 <= i < |qs| && mv(qs[i]).Ok?
    ensures MvRows(qs[i..], mv) == mv(qs[i]).value + MvRows(qs[i + 1..], mv)
    ensures FetchError(qs[i..], mv) == FetchError(qs[i + 1..], mv)
  {
    assert qs[i..][1..] == qs[i + 1..];
  }

  /** The inner loop over one query's rows: each row's value, as a number,
      is written under its key, a later row overwriting an earlier one. */
  method StoreRows(m: map<ExpKey, JsNum>, rows: seq<Catalog.RollupRow>) returns (r: map<ExpKey, JsNum>)
    ensures r == Store(m, rows)
  {
    r := m;
    var j := 0;
    while j < |rows|
      invariant 0 <= j <= |rows|
      invariant r == Store(m, rows[..j])
    {
      StoreConcat(m, rows[..j], [rows[j]]);
      assert rows[..j] + [rows[j]] == rows[..j + 1];
      r := r[ActualKey(rows[j]) := ToNumber(rows[j].value)];
      j := j + 1;
    }
    assert rows[..|rows|] == rows;
  }

  /** The third loop of `main`, over the queries in the order the nested
      loops issue them: every returned row is stored under its key, and a
      failed query ends the run. */
  method FetchActual(qs: seq<MvQuery>, mv: MvQuery -> Result<seq<Catalog.RollupRow>>) returns (r: Result<ActualRun>)
    ensures FetchError(qs, mv).Some? ==> r == Err(FetchError(qs, mv).value)
    ensures FetchError(qs, mv).None? ==>
      r == Ok(ActualRun(Store(map[], MvRows(qs, mv)), |MvRows(qs, mv)|))
  {
    var actual: map<ExpKey, JsNum> := map[];
    var mvRows := 0;
    ghost var seen: seq<Catalog.RollupRow> := [];
    var i := 0;
    while i < |qs|
      invariant 0 <= i <= |qs|
      invariant FetchError(qs[i..], mv) == FetchError(qs, mv)
      invariant seen + MvRows(qs[i..], mv) == MvRows(qs, mv)
      invariant actual == Store(map[], seen) && mvRows == |seen|
    {
      var res := mv(qs[i]);
      if res.Err? {
        assert FetchError(qs[i..], mv) == Some(res.message);
        return Err(res.message);
      }
      ActualStep(qs, i, mv);
      var rows := res.value;
      mvRows := mvRows + |rows|;
      actual := StoreRows(actual, rows);
      StoreConcat(map[], seen, rows);
      assert (seen + rows) + MvRows(qs[i + 1..], mv) == seen + MvRows(qs[i..], mv);
      seen := seen + rows;
      i := i + 1;
    }
    assert qs[|qs|..] == [];
    assert seen + [] == seen;
    r := Ok(ActualRun(actual, mvRows));
  }

  // ---------------------------------------------------------------------------
  // Counters keyed by strings

  /** One property of a counter object such as `missingByUnit`. */
  datatype Count = Count(key: string, n: nat)

  function CountOf(t: seq<Count>, k: string): nat {
    if t == [] then 0 else if t[0].key == k then t[0].n else CountOf(t[1..], k)
  }

  function TallyKeys(t: seq<Count>): (r: seq<string>)
    ensures |r| == |t| && forall i :: 0 <= i < |t| ==> r[i] == t[i].key
  {
    if t == [] then [] else [t[0].key] + TallyKeys(t[1..])
  }

  function Total(t: seq<Count>): nat {
    if t == [] then 0 else t[0].n + Total(t[1..])
  }

  /** `t[k] = (t[k] ?? 0) + 1`: an existing property keeps its place. */
  function Bump(t: seq<Count>, k: string): seq<Count> {
    if t == [] then [Count(k, 1)]
    else if t[0].key == k then [Count(k, t[0].n + 1)] + t[1..]
    else [t[0]] + Bump(t[1..], k)
  }

  /** The counter after bumping every key of `ks` in turn. */
  function TallyOf(ks: seq<string>): seq<Count> {
    if ks == [] then [] else Bump(TallyOf(ks[..|ks| - 1]), ks[|ks| - 1])
  }

  lemma {:induction false} BumpCount(t: seq<Count>, k: string, x: string)
    ensures CountOf(Bump(t, k), x) == CountOf(t, x) + (if x == k then 1 else 0)
    ensures Total(Bump(t, k)) == Total(t) + 1
  {
    if t != [] && t[0].key != k {
      BumpCount(t[1..], k, x);
      assert Bump(t, k)[1..] == Bump(t[1..], k);
    } else if t != [] {
      assert Bump(t, k)[1..] == t[1..];
    }
  }

  lemma {:induction false} BumpKeys(t: seq<Count>, k: string)
    ensures TallyKeys(Bump(t, k)) == if k in TallyKeys(t) then TallyKeys(t) else TallyKeys(t) + [k]
  {
    if t != [] && t[0].key != k {
      BumpKeys(t[1..], k);
      assert Bump(t, k) == [t[0]] + Bump(t[1..], k);
      assert TallyKeys(t) == [t[0].key] + TallyKeys(t[1..]);
      assert k in TallyKeys(t) <==> k in TallyKeys(t[1..]);
      if k !in TallyKeys(t) {
        assert TallyKeys(t) + [k] == [t[0].key] + (TallyKeys(t[1..]) + [k]);
      }
    } else if t != [] {
      assert Bump(t, k)[1..] == t[1..];
      assert TallyKeys(Bump(t, k)) == [k] + TallyKeys(t[1..]);
    }
  }

  /** Every count of the counter is at least one. */
  predicate Positive(t: seq<Count>) {
    forall i :: 0 <= i < |t| ==> t[i].n > 0
  }

  lemma ConsPositive(c: Count, t: seq<Count>)
    requires c.n > 0 && Positive(t)
    ensures Positive([c] + t)
  {
  }

  lemma TailPositive(t: seq<Count>)
    requires t != [] && Positive(t)
    ensures Positive(t[1..]) && t[0].n > 0
  {
  }

  lemma {:induction false} BumpPositive(t: seq<Count>, k: string)
    requires Positive(t)
    ensures Positive(Bump(t, k))
  {
    if t != [] {
      TailPositive(t);
      if t[0].key != k {
        BumpPositive(t[1..], k);
        ConsPositive(t[0], Bump(t[1..], k));
      } else {
        ConsPositive(Count(k, t[0].n + 1), t[1..]);
      }
    }
  }

  lemma NoDupsAppend(s: seq<string>, k: string)
    requires Text.NoDups(s) && k !in s
    ensures Text.NoDups(s + [k])
  {
  }

  /** The counter holds, for each key, the number of its occurrences; its
      keys are distinct and are exactly the keys counted, each at least
      once; the counts add up to the number of keys. */
  lemma {:induction false} TallySpec(ks: seq<string>, x: string)
    ensures CountOf(TallyOf(ks), x) == multiset(ks)[x]
    ensures Total(TallyOf(ks)) == |ks|
    ensures x in TallyKeys(TallyOf(ks)) <==> x in ks
    ensures Text.NoDups(TallyKeys(TallyOf(ks)))
    ensures forall i :: 0 <= i < |TallyOf(ks)| ==> TallyOf(ks)[i].n > 0
  {
    if ks != [] {
      var p := ks[..|ks| - 1];
      TallySpec(p, x);
      BumpCount(TallyOf(p), ks[|ks| - 1], x);
      BumpKeys(TallyOf(p), ks[|ks| - 1]);
      BumpPositive(TallyOf(p), ks[|ks| - 1]);
      if ks[|ks| - 1] !in TallyKeys(TallyOf(p)) {
        NoDupsAppend(TallyKeys(TallyOf(p)), ks[|ks| - 1]);
      }
      Text.LastSplit(ks);
    }
  }

  // ---------------------------------------------------------------------------
  // Reconciliation

  /** `Math.abs(actual - expected) > EPSILON`: NaN never exceeds the
      tolerance, an infinity always does. */
  function Differs(actual: JsNum, expected: real, eps: real): (r: bool)
    ensures actual.NaN? ==> !r
    ensures actual.Infinity? ==> r
    ensures actual.Finite? ==> (r <==> actual.v > expected + eps || actual.v < expected - eps)
  {
    match actual
    case Finite(v) => Abs(v - expected) > eps
    case NaN => false
    case Infinity(_) => true
  }

  /** A null expected value takes part in the subtraction as 0. */
  function Num(o: Option<real>): real {
    o.GetOr(0.0)
  }

  datatype Outcome = Missing | Mismatch(actual: JsNum) | Match

  function OutcomeOf(e: Entry, actual: map<ExpKey, JsNum>, eps: real): Outcome {
    if e.key !in actual then Missing
    else if Differs(actual[e.key], Num(e.expected), eps) then Mismatch(actual[e.key])
    else Match
  }

  datatype Report =
    | MissingReport(key: ExpKey, expected: Option<real>)
    | MismatchReport(key: ExpKey, expected: Option<real>, actual: JsNum)

  /** The units of the missing entries, in order. */
  function MissingUnits(es: seq<Entry>, actual: map<ExpKey, JsNum>, eps: real): seq<string> {
    if es == [] then []
    else
      var p := MissingUnits(es[..|es| - 1], actual, eps);
      if OutcomeOf(es[|es| - 1], actual, eps).Missing? then p + [es[|es| - 1].key.unit] else p
  }

  /** The metric ids of the mismatched entries, in order. */
  function MismatchMetrics(es: seq<Entry>, actual: map<ExpKey, JsNum>, eps: real): seq<string> {
    if es == [] then []
    else
      var p := MismatchMetrics(es[..|es| - 1], actual, eps);
      if OutcomeOf(es[|es| - 1], actual, eps).Mismatch? then p + [es[|es| - 1].key.metric] else p
  }

  /** The number of entries that agree. */
  function MatchCount(es: seq<Entry>, actual: map<ExpKey, JsNum>, eps: real): nat {
    if es == [] then 0
    else MatchCount(es[..|es| - 1], actual, eps) + (if OutcomeOf(es[|es| - 1], actual, eps).Match? then 1 else 0)
  }

  function ReportOf(e: Entry, actual: map<ExpKey, JsNum>, eps: real): seq<Report> {
    match OutcomeOf(e, actual, eps)
    case Missing => [MissingReport(e.key, e.expected)]
    case Mismatch(a) => [MismatchReport(e.key, e.expected, a)]
    case Match => []
  }

  /** Every discrepancy, in entry order. */
  function Reports(es: seq<Entry>, actual: map<ExpKey, JsNum>, eps: real): seq<Report> {
    if es == [] then [] else Reports(es[..|es| - 1], actual, eps) + ReportOf(es[|es| - 1], actual, eps)
  }

  /** Every entry is missing, mismatched or matched, and each discrepancy is
      reported once. */
  lemma {:induction false} OutcomePartition(es: seq<Entry>, actual: map<ExpKey, JsNum>, eps: real)
    ensures |MissingUnits(es, actual, eps)| + |MismatchMetrics(es, actual, eps)| + MatchCount(es, actual, eps) == |es|
    ensures |Reports(es, actual, eps)| == |MissingUnits(es, actual, eps)| + |MismatchMetrics(es, actual, eps)|
  {
    if es != [] {
      OutcomePartition(es[..|es| - 1], actual, eps);
    }
  }

  /** An entry is reported missing exactly when its key was never stored,
      and reported at all unless the stored value is within the tolerance. */
  lemma ReportOfSpec(e: Entry, actual: map<ExpKey, JsNum>, eps: real)
    ensures ReportOf(e, actual, eps) == [MissingReport(e.key, e.expected)] <==> e.key !in actual
    ensures ReportOf(e, actual, eps) == [] <==> e.key in actual && !Differs(actual[e.key], Num(e.expected), eps)
  {
  }

  /** The reports are exactly the discrepancies of the entries. */
  lemma {:induction false} ReportsSpec(es: seq<Entry>, actual: map<ExpKey, JsNum>, eps: real, r: Report)
    ensures r in Reports(es, actual, eps) <==>
      exists i :: 0 <= i < |es| && ReportOf(es[i], actual, eps) == [r]
  {
    if es != [] {
      var p := es[..|es| - 1];
      ReportsSpec(p, actual, eps, r);
      if r in Reports(es, actual, eps) && r !in Reports(p, actual, eps) {
        assert ReportOf(es[|es| - 1], actual, eps) == [r];
      }
      Text.ExistsSplit(es, x => ReportOf(x, actual, eps) == [r]);
    }
  }

  /** The counters and samples `main` prints about the entries. */
  datatype Reconciliation = Reconciliation(missingRows: nat, mismatchRows: nat,
                                           missingByUnit: seq<Count>, mismatchByMetric: seq<Count>,
                                           samples: seq<Report>)

  lemma TakeAppend<T>(r: seq<T>, x: T, n: nat)
    ensures Text.Take(r + [x], n) == if |Text.Take(r, n)| < n then Text.Take(r, n) + [x] else Text.Take(r, n)
  {
    if |r| >= n {
      assert (r + [x])[..n] == r[..n];
    }
  }

  lemma TallySnoc(ks: seq<string>, k: string)
    ensures TallyOf(ks + [k]) == Bump(TallyOf(ks), k)
  {
    assert (ks + [k])[..|ks|] == ks;
  }

  /** One entry of the fourth loop, unfolded. */
  lemma EntryStep(es: seq<Entry>, i: int, actual: map<ExpKey, JsNum>, eps: real)
    requires 0 <= i < |es|
    ensures var p := es[..i]; var q := es[..i + 1]; var e := es[i];
      && MissingUnits(q, actual, eps) == (if e.key !in actual then MissingUnits(p, actual, eps) + [e.key.unit] else MissingUnits(p, actual, eps))
      && MismatchMetrics(q, actual, eps) ==
           (if e.key in actual && Differs(actual[e.key], Num(e.expected), eps)
            then MismatchMetrics(p, actual, eps) + [e.key.metric] else MismatchMetrics(p, actual, eps))
      && Reports(q, actual, eps) == Reports(p, actual, eps) + ReportOf(e, actual, eps)
  {
    assert es[..i + 1][..i] == es[..i];
  }

  /** What one entry of the fourth loop does to the counters and samples. */
  lemma ReconcileStep(es: seq<Entry>, i: int, actual: map<ExpKey, JsNum>, eps: real)
    requires 0 <= i < |es|
    ensures var p := es[..i]; var q := es[..i + 1]; var e := es[i];
      var s := Text.Take(Reports(p, actual, eps), SampleLimit);
      if e.key !in actual then
        && |MissingUnits(q, actual, eps)| == |MissingUnits(p, actual, eps)| + 1
        && TallyOf(MissingUnits(q, actual, eps)) == Bump(TallyOf(MissingUnits(p, actual, eps)), e.key.unit)
        && MismatchMetrics(q, actual, eps) == MismatchMetrics(p, actual, eps)
        && Text.Take(Reports(q, actual, eps), SampleLimit) ==
             (if |s| < SampleLimit then s + [MissingReport(e.key, e.expected)] else s)
      else if Differs(actual[e.key], Num(e.expected), eps) then
        && MissingUnits(q, actual, eps) == MissingUnits(p, actual, eps)
        && |MismatchMetrics(q, actual, eps)| == |MismatchMetrics(p, actual, eps)| + 1
        && TallyOf(MismatchMetrics(q, actual, eps)) == Bump(TallyOf(MismatchMetrics(p, actual, eps)), e.key.metric)
        && Text.Take(Reports(q, actual, eps), SampleLimit) ==
             (if |s| < SampleLimit then s + [MismatchReport(e.key, e.expected, actual[e.key])] else s)
      else
        && MissingUnits(q, actual, eps) == MissingUnits(p, actual, eps)
        && MismatchMetrics(q, actual, eps) == MismatchMetrics(p, actual, eps)
        && Text.Take(Reports(q, actual, eps), SampleLimit) == s
  {
    var p := es[..i];
    var e := es[i];
    EntryStep(es, i, actual, eps);
    if e.key !in actual {
      TallySnoc(MissingUnits(p, actual, eps), e.key.unit);
      TakeAppend(Reports(p, actual, eps), MissingReport(e.key, e.expected), SampleLimit);
    } else if Differs(actual[e.key], Num(e.expected), eps) {
      TallySnoc(MismatchMetrics(p, actual, eps), e.key.metric);
      TakeAppend(Reports(p, actual, eps), MismatchReport(e.key, e.expected, actual[e.key]), SampleLimit);
    } else {
      assert Reports(p, actual, eps) + [] == Reports(p, actual, eps);
    }
  }

  /** The fourth loop of `main`: classify every entry, count the missing
      ones by unit and the mismatched ones by metric, and keep the first
      twelve discrepancies. */
  method Reconcile(es: seq<Entry>, actual: map<ExpKey, JsNum>, eps: real) returns (r: Reconciliation)
    ensures r.missingRows == |MissingUnits(es, actual, eps)|
    ensures r.mismatchRows == |MismatchMetrics(es, actual, eps)|
    ensures r.missingByUnit == TallyOf(MissingUnits(es, actual, eps))
    ensures r.mismatchByMetric == TallyOf(MismatchMetrics(es, actual, eps))
    ensures r.samples == Text.Take(Reports(es, actual, eps), SampleLimit)
  {
    var missingRows := 0;
    var mismatchRows := 0;
    var missingByUnit: seq<Count> := [];
    var mismatchByMetric: seq<Count> := [];
    var samples: seq<Report> := [];
    var i := 0;
    while i < |es|
      invariant 0 <= i <= |es|
      invariant missingRows == |MissingUnits(es[..i], actual, eps)|
      invariant mismatchRows == |MismatchMetrics(es[..i], actual, eps)|
      invariant missingByUnit == TallyOf(MissingUnits(es[..i], actual, eps))
      invariant mismatchByMetric == TallyOf(MismatchMetrics(es[..i], actual, eps))
      invariant samples == Text.Take(Reports(es[..i], actual, eps), SampleLimit)
    {
      var e := es[i];
      ReconcileStep(es, i, actual, eps);
      if e.key !in actual {
        missingRows := missingRows + 1;
        missingByUnit := Bump(missingByUnit, e.key.unit);
        if |samples| < SampleLimit {
          samples := samples + [MissingReport(e.key, e.expected)];
        }
      } else if Differs(actual[e.key], Num(e.expected), eps) {
        mismatchRows := mismatchRows + 1;
        mismatchByMetric := Bump(mismatchByMetric, e.key.metric);
        if |samples| < SampleLimit {
          samples := samples + [MismatchReport(e.key, e.expected, actual[e.key])];
        }
      }
      i := i + 1;
    }
    assert es[..|es|] == es;
    r := Reconciliation(missingRows, mismatchRows, missingByUnit, mismatchByMetric, samples);
  }

  // ---------------------------------------------------------------------------
  // The whole run

  /** The metrics to check, or why there are none. */
  function CheckedMetrics(dict: Result<seq<string>>, sample: Result<Option<seq<string>>>,
                          setting: Option<string>): (r: Result<seq<string>>)
    ensures r.Ok? ==> r.value != [] && r == ValidationMetrics(dict, sample, setting)
    ensures ValidationMetrics(dict, sample, setting) == Ok([]) ==> r == Err("No supported metrics found for validation.")
    ensures ValidationMetrics(dict, sample, setting).Err? ==> r == ValidationMetrics(dict, sample, setting)
  {
    var m := ValidationMetrics(dict, sample, setting);
    if m.Ok? && m.value == [] then Err("No supported metrics found for validation.") else m
  }

  /** The weeks to check: the first `limit` rows of the weeks view (the
      store orders them newest first), or why there are none. */
  function CheckedWeeks(view: Result<seq<string>>, limit: nat): (r: Result<seq<string>>)
    ensures view.Err? ==> r == view
    ensures view.Ok? && (view.value == [] || limit == 0) ==> r == Err("No weeks from weeks_view")
    ensures r.Ok? ==> view.Ok? && r.value != [] && |r.value| <= limit && |r.value| <= |view.value| && r.value == view.value[..|r.value|]
    ensures view.Ok? && view.value != [] && limit > 0 ==> r.Ok?
  {
    if view.Err? then view
    else
      var weeks := Text.Take(view.value, limit);
      if weeks == [] then Err("No weeks from weeks_view") else Ok(weeks)
  }

  /** `expectedFinal` as a list: every key of `cs`, in key order, with the
      aggregate of its values. */
  function EntriesOf(keys: seq<ExpKey>, cs: seq<Contribution>): (r: seq<Entry>)
    ensures |r| == |keys|
    ensures forall i :: 0 <= i < |keys| ==> r[i] == Entry(keys[i], AggregateMetric(keys[i].metric, ValuesOf(cs, keys[i])))
  {
    if keys == [] then [] else [Entry(keys[0], AggregateMetric(keys[0].metric, ValuesOf(cs, keys[0])))] + EntriesOf(keys[1..], cs)
  }

  /** The printed summary. */
  datatype Summary = Summary(checkedWeeks: nat, epsilon: real, metricsCount: nat, metrics: seq<string>,
                             units: seq<string>, sourceRows: nat, mvRows: nat, expectedKeys: nat,
                             actualKeys: nat, missingRows: nat, mismatchRows: nat,
                             missingByUnit: seq<Count>, mismatchByMetric: seq<Count>, samples: seq<Report>)

  function UnitNames(): (r: seq<string>)
    ensures r == ["all", "area_group", "area", "stadium_group", "stadium"]
  {
    seq(|Units|, i requires 0 <= i < |Units| => Catalog.UnitId(Units[i]))
  }

  /** What a run over the given weeks and metrics prints, when every fetch
      succeeds. */
  function SummaryOf(weeks: seq<string>, ids: seq<string>, fetch: string -> Result<seq<SourceRow>>,
                     mv: MvQuery -> Result<seq<Catalog.RollupRow>>, eps: real): Summary
  {
    var cs := SourceContribs(weeks, fetch, ids);
    var es := EntriesOf(KeyOrder(cs), cs);
    var rows := MvRows(Queries(weeks, ids), mv);
    var actual := Store(map[], rows);
    Summary(|weeks|, eps, |ids|, ids, UnitNames(), SourceRowCount(weeks, fetch), |rows|, |es|, |actual|,
            |MissingUnits(es, actual, eps)|, |MismatchMetrics(es, actual, eps)|,
            TallyOf(MissingUnits(es, actual, eps)), TallyOf(MismatchMetrics(es, actual, eps)),
            Text.Take(Reports(es, actual, eps), SampleLimit))
  }

  /** `main`: the metric list, the weeks, the expected and actual maps and
      their reconciliation; the first failure ends the run with its error. */
  method Validate(dict: Result<seq<string>>, sample: Result<Option<seq<string>>>, setting: Option<string>,
                  weekView: Result<seq<string>>, weeksLimit: nat,
                  fetch: string -> Result<seq<SourceRow>>, mv: MvQuery -> Result<seq<Catalog.RollupRow>>, eps: real)
    returns (r: Result<Summary>)
    ensures CheckedMetrics(dict, sample, setting).Err? ==> r == Err(CheckedMetrics(dict, sample, setting).message)
    ensures CheckedMetrics(dict, sample, setting).Ok? && CheckedWeeks(weekView, weeksLimit).Err? ==>
      r == Err(CheckedWeeks(weekView, weeksLimit).message)
    ensures CheckedMetrics(dict, sample, setting).Ok? && CheckedWeeks(weekView, weeksLimit).Ok? ==>
      var ids := CheckedMetrics(dict, sample, setting).value;
      var weeks := CheckedWeeks(weekView, weeksLimit).value;
      && (FetchError(weeks, fetch).Some? ==> r == Err(FetchError(weeks, fetch).value))
      && (FetchError(weeks, fetch).None? && FetchError(Queries(weeks, ids), mv).Some? ==>
            r == Err(FetchError(Queries(weeks, ids), mv).value))
      && (FetchError(weeks, fetch).None? && FetchError(Queries(weeks, ids), mv).None? ==>
            r == Ok(SummaryOf(weeks, ids, fetch, mv, eps)))
  {
    var metrics := CheckedMetrics(dict, sample, setting);
    if metrics.Err? {
      return Err(metrics.message);
    }
    var ids := metrics.value;
    var checkedWeeks := CheckedWeeks(weekView, weeksLimit);
    if checkedWeeks.Err? {
      return Err(checkedWeeks.message);
    }
    var weeks := checkedWeeks.value;
    var expected := BuildExpected(weeks, fetch, ids);
    if expected.Err? {
      return Err(expected.message);
    }
    ghost var cs := SourceContribs(weeks, fetch, ids);
    var entries := Finalize(expected.value.expected);
    assert entries == EntriesOf(KeyOrder(cs), cs);
    var actual := FetchActual(Queries(weeks, ids), mv);
    if actual.Err? {
      return Err(actual.message);
    }
    var rec := Reconcile(entries, actual.value.actual, eps);
    r := Ok(Summary(|weeks|, eps, |ids|, ids, UnitNames(), expected.value.sourceRows, actual.value.mvRows,
                    |entries|, |actual.value.actual|, rec.missingRows, rec.mismatchRows,
                    rec.missingByUnit, rec.mismatchByMetric, rec.samples));
  }

  // ---------------------------------------------------------------------------
  // Properties of a run

  /** Some row of a successful fetch contributes `v` to `k`. */
  predicate BatchFeeds(res: Result<seq<SourceRow>>, ids: seq<string>, k: ExpKey, v: real) {
    res.Ok? && exists j :: 0 <= j < |res.value| && Feeds(res.value[j], ids, k, v)
  }

  /** The values of a key are exactly those the fetched fact rows feed it. */
  lemma {:induction false} SourceValuesOrigin(weeks: seq<string>, fetch: string -> Result<seq<SourceRow>>,
                                              ids: seq<string>, k: ExpKey, v: real)
    ensures v in ValuesOf(SourceContribs(weeks, fetch, ids), k) <==>
      exists i :: 0 <= i < |weeks| && BatchFeeds(fetch(weeks[i]), ids, k, v)
    decreases |weeks|
  {
    if weeks != [] {
      var head := match fetch(weeks[0]) case Ok(rows) => BatchContribs(rows, ids) case Err(_) => [];
      ValuesOfConcat(head, SourceContribs(weeks[1..], fetch, ids), k);
      SourceValuesOrigin(weeks[1..], fetch, ids, k, v);
      if fetch(weeks[0]).Ok? {
        BatchValuesOrigin(fetch(weeks[0]).value, ids, k, v);
      }
      Text.ExistsSplitFront(weeks, w => BatchFeeds(fetch(w), ids, k, v));
    }
  }

  /** Each expected key appears once, is fed by some fetched fact row, and
      its expected value is the aggregate of what those rows feed it, lying
      between their minimum and maximum. */
  lemma EntriesSpec(weeks: seq<string>, fetch: string -> Result<seq<SourceRow>>, ids: seq<string>, i: int)
    requires 0 <= i < |KeyOrder(SourceContribs(weeks, fetch, ids))|
    ensures var cs := SourceContribs(weeks, fetch, ids);
      var es := EntriesOf(KeyOrder(cs), cs);
      var k := es[i].key;
      && Text.NoDups(KeyOrder(cs))
      && ValuesOf(cs, k) != []
      && (forall v :: v in ValuesOf(cs, k) <==> exists w :: 0 <= w < |weeks| && BatchFeeds(fetch(weeks[w]), ids, k, v))
      && es[i].expected == Some(Fallback.Collapse(k.metric, Fallback.Summary(ValuesOf(cs, k))))
      && Fallback.MinOf(ValuesOf(cs, k)) <= es[i].expected.value <= Fallback.MaxOf(ValuesOf(cs, k))
  {
    var cs := SourceContribs(weeks, fetch, ids);
    var k := KeyOrder(cs)[i];
    KeyOrderSpec(cs, k);
    forall v ensures v in ValuesOf(cs, k) <==> exists w :: 0 <= w < |weeks| && BatchFeeds(fetch(weeks[w]), ids, k, v) {
      SourceValuesOrigin(weeks, fetch, ids, k, v);
    }
    AggregateMetricSpec(k.metric, ValuesOf(cs, k));
  }

  /** In the summary, the missing entries are exactly those whose key no
      rollup row carries, the counters add up to the row counts, and the
      samples are the first discrepancies, at most twelve. */
  lemma SummarySpec(weeks: seq<string>, ids: seq<string>, fetch: string -> Result<seq<SourceRow>>,
                    mv: MvQuery -> Result<seq<Catalog.RollupRow>>, eps: real, k: ExpKey)
    ensures var s := SummaryOf(weeks, ids, fetch, mv, eps);
      var rows := MvRows(Queries(weeks, ids), mv);
      && s.missingRows + s.mismatchRows <= s.expectedKeys
      && Total(s.missingByUnit) == s.missingRows
      && Total(s.mismatchByMetric) == s.mismatchRows
      && |s.samples| == (if s.missingRows + s.mismatchRows < SampleLimit then s.missingRows + s.mismatchRows else SampleLimit)
      && (k in Store(map[], rows) <==> exists j :: 0 <= j < |rows| && ActualKey(rows[j]) == k)
  {
    var cs := SourceContribs(weeks, fetch, ids);
    var es := EntriesOf(KeyOrder(cs), cs);
    var rows := MvRows(Queries(weeks, ids), mv);
    var actual := Store(map[], rows);
    OutcomePartition(es, actual, eps);
    TallySpec(MissingUnits(es, actual, eps), "");
    TallySpec(MismatchMetrics(es, actual, eps), "");
    StoreSpec(map[], rows, k);
  }

  // ---------------------------------------------------------------------------
  // The string key as written

  /** `${week}|${unit}|${filterValue}|${metricId}`. */
  function KeyString(k: ExpKey): string {
    Text.Join([k.week, k.unit, k.filterValue, k.metric], '|')
  }

  /** `key.split("|").at(-1)`, the metric id `expectedFinal` aggregates by. */
  function LastPart(key: string): string {
    var parts := Text.Split(key, '|');
    parts[|parts| - 1]
  }

  /** `const [week, unit, filterValue, metricId] = key.split("|")`, the
      fields the reconciliation reports and counts by. */
  function FieldsAsWritten(key: string): (Option<string>, Option<string>, Option<string>, Option<string>) {
    var parts := Text.Split(key, '|');
    (Fallback.Part(parts, 0), Fallback.Part(parts, 1), Fallback.Part(parts, 2), Fallback.Part(parts, 3))
  }

  lemma SplitKey(k: ExpKey)
    requires '|' !in k.week && '|' !in k.unit && '|' !in k.metric
    ensures k.filterValue == [] || '|' !in k.filterValue ==>
      Text.Split(KeyString(k), '|') == [k.week, k.unit, k.filterValue, k.metric]
  {
    if '|' !in k.filterValue {
      Text.SplitJoin([k.week, k.unit, k.filterValue, k.metric], '|');
    }
  }

  /** Without '|' in any field, splitting the key gives back every field. */
  lemma FieldsAsWrittenAgree(k: ExpKey)
    requires '|' !in k.week && '|' !in k.unit && '|' !in k.filterValue && '|' !in k.metric
    ensures FieldsAsWritten(KeyString(k)) == (Some(k.week), Some(k.unit), Some(k.filterValue), Some(k.metric))
    ensures LastPart(KeyString(k)) == k.metric
  {
    SplitKey(k);
  }

  /** `.at(-1)` finds the metric id whatever the filter value holds. */
  lemma {:induction false} LastPartIsMetric(k: ExpKey)
    requires '|' !in k.metric
    ensures LastPart(KeyString(k)) == k.metric
  {
    var ps := [k.week, k.unit, k.filterValue, k.metric];
    assert ps[1..] == [k.unit, k.filterValue, k.metric];
    assert ps[1..][1..] == [k.filterValue, k.metric];
    assert ps[1..][1..][1..] == [k.metric];
    assert Text.Join(ps[1..][1..], '|') == k.filterValue + ['|'] + k.metric;
    assert Text.Join(ps[1..], '|') == k.unit + ['|'] + (k.filterValue + ['|'] + k.metric);
    assert KeyString(k) == k.week + ['|'] + (k.unit + ['|'] + (k.filterValue + ['|'] + k.metric));
    LastPieceAfterSep(k.week + ['|'] + (k.unit + ['|'] + k.filterValue), k.metric);
    assert k.week + ['|'] + (k.unit + ['|'] + (k.filterValue + ['|'] + k.metric)) ==
      (k.week + ['|'] + (k.unit + ['|'] + k.filterValue)) + ['|'] + k.metric;
  }

  /** The last piece of `p + "|" + m` is `m` when `m` has no '|'. */
  lemma {:induction false} LastPieceAfterSep(p: string, m: string)
    requires '|' !in m
    ensures var parts := Text.Split(p + ['|'] + m, '|'); |parts| >= 2 && parts[|parts| - 1] == m
    decreases |p|
  {
    if p == [] {
      assert p + ['|'] + m == ['|'] + m;
      assert (['|'] + m)[1..] == m;
      Text.SplitWhole(m, '|');
    } else {
      assert (p + ['|'] + m)[1..] == p[1..] + ['|'] + m;
      LastPieceAfterSep(p[1..], m);
    }
  }

  /** A filter value holding '|' shifts every later field: the entry of
      (week, unit, a + "|" + b, metric) is reported with filter value `a`
      and metric `b`, and counted under `b` in `mismatchByMetric`, although
      `expectedFinal` aggregated it under `metric`. */
  lemma FieldsAsWrittenShiftPipeFilter(week: string, unit: string, a: string, b: string, metric: string)
    requires '|' !in week && '|' !in unit && '|' !in a && '|' !in b && '|' !in metric
    ensures var key := KeyString(ExpKey(week, unit, a + "|" + b, metric));
      && FieldsAsWritten(key) == (Some(week), Some(unit), Some(a), Some(b))
      && LastPart(key) == metric
  {
    var parts := [week, unit, a, b, metric];
    var key := KeyString(ExpKey(week, unit, a + "|" + b, metric));
    JoinPipeFilter(week, unit, a, b, metric);
    forall i | 0 <= i < |parts| ensures '|' !in parts[i] { }
    Text.SplitJoin(parts, '|');
  }

  /** The key of a filter value `a + "|" + b` is the key of five fields. */
  lemma JoinPipeFilter(week: string, unit: string, a: string, b: string, metric: string)
    ensures KeyString(ExpKey(week, unit, a + "|" + b, metric)) == Text.Join([week, unit, a, b, metric], '|')
  {
    var f := a + "|" + b;
    var tail := b + ['|'] + metric;
    assert [b, metric][1..] == [metric];
    assert Text.Join([b, metric], '|') == tail;
    assert [a, b, metric][1..] == [b, metric];
    assert Text.Join([a, b, metric], '|') == a + ['|'] + tail;
    assert [f, metric][1..] == [metric];
    assert Text.Join([f, metric], '|') == f + ['|'] + metric;
    assert f + ['|'] + metric == a + ['|'] + tail;
    assert [unit, a, b, metric][1..] == [a, b, metric];
    assert [unit, f, metric][1..] == [f, metric];
    assert Text.Join([unit, a, b, metric], '|') == Text.Join([unit, f, metric], '|');
    assert [week, unit, a, b, metric][1..] == [unit, a, b, metric];
    assert [week, unit, f, metric][1..] == [unit, f, metric];
  }

}
