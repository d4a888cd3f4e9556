/** The `POST` handler of the heatmap route: it checks the JSON body field
    by field, in a fixed order, and forwards the unit, the normalised filter
    value and the weeks to the heatmap query. */
module HeatmapRoute {
  import opened Wrappers
  import Text
  import Catalog
  import Heatmap

  /** A parsed JSON value. An object is its property table; `JSON.parse`
      keeps the last of repeated names, which a map already does. */
  datatype Json =
    | JNull
    | JBool(b: bool)
    | JNumber(n: real)
    | JString(s: string)
    | JArray(items: seq<Json>)
    | JObject(fields: map<string, Json>)

  /** `MAX_WEEKS`. */
  const MaxWeeks: nat := 104

  /** What the handler forwards: the unit, the filter value, the weeks. The
      elements of `weeks` are not checked and are passed on as they are. */
  datatype HeatmapRequest = HeatmapRequest(unit: Catalog.Unit, filterValue: Option<string>, weeks: seq<Json>)

  datatype ReplyBody = ErrorBody(error: string) | RowsBody(rows: seq<Heatmap.GridRow>)

  /** A response, or the exception destructuring a `null` body throws
      before any check runs. */
  datatype Reply = Respond(status: int, body: ReplyBody) | Throws

  /** `payload.name`: a property of an object; every other value (a string,
      a number, an array) has none of the three names. */
  function Field(payload: Json, name: string): Option<Json> {
    if payload.JObject? && name in payload.fields then Some(payload.fields[name]) else None
  }

  /** `allowedUnits.includes(measureUnit)`, which also rules out every value
      `!measureUnit` rejects. */
  function UnitOf(v: Option<Json>): (r: Option<Catalog.Unit>)
    ensures r.Some? <==> (v.Some? && v.value.JString? &&
                          v.value.s in ["all", "area_group", "area", "stadium_group", "stadium"])
    ensures r.Some? ==> v == Some(JString(Catalog.UnitId(r.value)))
  {
    match v
    case Some(JString(s)) =>
      if s == "all" then Some(Catalog.All)
      else if s == "area_group" then Some(Catalog.AreaGroup)
      else if s == "area" then Some(Catalog.Area)
      else if s == "stadium_group" then Some(Catalog.StadiumGroup)
      else if s == "stadium" then Some(Catalog.Stadium)
      else None
    case _ => None
  }

  /** `Array.isArray(weeks)` with 1 to `MAX_WEEKS` entries. */
  predicate WeeksValid(v: Option<Json>) {
    v.Some? && v.value.JArray? && 0 < |v.value.items| <= MaxWeeks
  }

  /** A `filterValue` that is absent, `null` or a string passes. */
  predicate FilterValid(v: Option<Json>) {
    v.None? || v.value.JNull? || v.value.JString?
  }

  /** `filterValue && filterValue.trim() !== "" ? filterValue : null`. */
  function NormaliseFilter(v: Option<Json>): (r: Option<string>)
    requires FilterValid(v)
    ensures r.None? <==> v.None? || v.value.JNull? || Text.IsBlank(v.value.s)
    ensures r.Some? ==> v == Some(JString(r.value))
  {
    match v
    case Some(JString(s)) => if s != [] && !Text.IsBlank(s) then Some(s) else None
    case _ => None
  }

  /** The checks, in order: the unit, then the weeks, then the filter
      value; the first that fails decides the message. */
  function Validate(payload: Json): (r: Result<HeatmapRequest>)
    ensures r.Ok? <==> (UnitOf(Field(payload, "measureUnit")).Some? &&
                        WeeksValid(Field(payload, "weeks")) && FilterValid(Field(payload, "filterValue")))
  {
    var unit := UnitOf(Field(payload, "measureUnit"));
    var weeks := Field(payload, "weeks");
    var filterValue := Field(payload, "filterValue");
    if unit.None? then Err("Invalid measureUnit.")
    else if !WeeksValid(weeks) then Err("Invalid weeks.")
    else if !FilterValid(filterValue) then Err("Invalid filterValue.")
    else Ok(HeatmapRequest(unit.value, NormaliseFilter(filterValue), weeks.value.items))
  }

  /** `POST`: `body` is the parsed body, `None` when it is not JSON; `load`
      is the heatmap query. A failed query answers 500 with its message, or
      a default one when the message is empty. */
  function Post(body: Option<Json>, load: HeatmapRequest -> Result<seq<Heatmap.GridRow>>): (r: Reply)
    ensures body.None? ==> r == Respond(400, ErrorBody("Invalid JSON body."))
    ensures r == Throws <==> body == Some(JNull)
    ensures body.Some? && body.value != JNull && Validate(body.value).Err? ==>
      r == Respond(400, ErrorBody(Validate(body.value).message))
    ensures r.Respond? && r.status == 200 ==>
      r.body.RowsBody? && body.Some? && Validate(body.value).Ok? && load(Validate(body.value).value) == Ok(r.body.rows)
    ensures r.Respond? && r.status == 500 ==>
      body.Some? && Validate(body.value).Ok? && load(Validate(body.value).value).Err? && r.body.ErrorBody? && r.body.error != ""
    ensures body.Some? && body.value != JNull && Validate(body.value).Ok? ==>
      var outcome := load(Validate(body.value).value);
      && (outcome.Ok? ==> r == Respond(200, RowsBody(outcome.value)))
      && (outcome.Err? && outcome.message != "" ==> r == Respond(500, ErrorBody(outcome.message)))
      && (outcome.Err? && outcome.message == "" ==> r == Respond(500, ErrorBody("Failed to load heatmap.")))
  {
    match body
    case None => Respond(400, ErrorBody("Invalid JSON body."))
    case Some(payload) =>
      if payload.JNull? then Throws
      else match Validate(payload)
        case Err(message) => Respond(400, ErrorBody(message))
        case Ok(request) =>
          match load(request)
          case Ok(rows) => Respond(200, RowsBody(rows))
          case Err(message) => Respond(500, ErrorBody(if message == "" then "Failed to load heatmap." else message))
  }

  /** Each check rejects with its own message exactly when it fails and all
      earlier checks pass. */
  lemma ValidateOrder(payload: Json)
    ensures UnitOf(Field(payload, "measureUnit")).None? <==> Validate(payload) == Err("Invalid measureUnit.")
    ensures (UnitOf(Field(payload, "measureUnit")).Some? && !WeeksValid(Field(payload, "weeks"))) <==>
      Validate(payload) == Err("Invalid weeks.")
    ensures (UnitOf(Field(payload, "measureUnit")).Some? && WeeksValid(Field(payload, "weeks")) &&
             !FilterValid(Field(payload, "filterValue"))) <==> Validate(payload) == Err("Invalid filterValue.")
  {
  }

  /** An accepted body is forwarded as it is: the unit named, every week,
      and the filter value untrimmed, or null when it is blank. */
  lemma ForwardedRequest(payload: Json)
    requires Validate(payload).Ok?
    ensures var q := Validate(payload).value;
      && Field(payload, "measureUnit") == Some(JString(Catalog.UnitId(q.unit)))
      && Field(payload, "weeks") == Some(JArray(q.weeks))
      && 1 <= |q.weeks| <= MaxWeeks
      && (q.filterValue.Some? ==> Field(payload, "filterValue") == Some(JString(q.filterValue.value)) &&
                                  !Text.IsBlank(q.filterValue.value))
      && (q.filterValue.None? ==> Field(payload, "filterValue").None? || Field(payload, "filterValue") == Some(JNull) ||
                                  Text.IsBlank(Field(payload, "filterValue").value.s))
  {
  }

  /** Only the three fields matter: two bodies that agree on them get the
      same reply, so a `metrics` field, for one, is never forwarded. */
  lemma OnlyThreeFieldsMatter(a: map<string, Json>, b: map<string, Json>,
                              load: HeatmapRequest -> Result<seq<Heatmap.GridRow>>)
    requires forall name :: name in ["measureUnit", "weeks", "filterValue"] ==>
      (name in a <==> name in b) && (name in a ==> a[name] == b[name])
    ensures Post(Some(JObject(a)), load) == Post(Some(JObject(b)), load)
  {
    assert Field(JObject(a), "measureUnit") == Field(JObject(b), "measureUnit");
    assert Field(JObject(a), "weeks") == Field(JObject(b), "weeks");
    assert Field(JObject(a), "filterValue") == Field(JObject(b), "filterValue");
  }

  /** A body that is JSON but not an object (a string, a number, an array)
      has no unit and is rejected by the first check. */
  lemma NonObjectRejected(payload: Json, load: HeatmapRequest -> Result<seq<Heatmap.GridRow>>)
    requires !payload.JObject? && !payload.JNull?
    ensures Post(Some(payload), load) == Respond(400, ErrorBody("Invalid measureUnit."))
  {
  }
}
