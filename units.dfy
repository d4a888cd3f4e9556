/** The measurement units the client knows (`MeasurementUnit` in the shared
    types) and the labels the page shows for them. */
module Units {
  datatype MeasurementUnit =
    | All | AreaGroup | Area | StadiumGroup | Stadium | RegionGroup | Region | Court

  /** The wire name of a unit. */
  function UnitId(u: MeasurementUnit): string {
    match u
    case All => "all"
    case AreaGroup => "area_group"
    case Area => "area"
    case StadiumGroup => "stadium_group"
    case Stadium => "stadium"
    case RegionGroup => "region_group"
    case Region => "region"
    case Court => "court"
  }

  /** Distinct units have distinct wire names. */
  lemma UnitIdInjective(u: MeasurementUnit, v: MeasurementUnit)
    ensures UnitId(u) == UnitId(v) <==> u == v
  {
  }

  /** The page's `unitLabel` table. */
  function UnitLabel(u: MeasurementUnit): string {
    match u
    case All => "전체"
    case AreaGroup => "지역 그룹"
    case Area => "지역"
    case StadiumGroup => "구장 그룹"
    case Stadium => "구장"
    case RegionGroup => "권역 그룹"
    case Region => "권역"
    case Court => "면"
  }
}
