/** The mock cube: the entity hierarchy the generator builds (one "all",
    five region groups, five regions in each, three stadiums in each region,
    one to three courts per stadium) and the lookups over it. */
module MockCube {
  import opened Wrappers
  import Text
  import Units

  /** An entity with the parent links the generator fills in. */
  datatype Entity = Entity(id: string, name: string, unit: Units.MeasurementUnit,
                           regionGroupId: Option<string>, regionId: Option<string>, stadiumId: Option<string>)

  const GroupCount: nat := 5
  const RegionsPerGroup: nat := 5
  const StadiumsPerRegion: nat := 3

  /** `regionGroups`. */
  const RegionGroupNames: seq<string> := ["수도권", "충청", "호남", "영남", "강원/제주"]

  /** `regionsByGroup`, in the order of `regionGroups`. */
  const RegionNames: seq<seq<string>> := [
    ["서울", "경기북부", "경기남부", "인천", "수원"],
    ["대전", "세종", "청주", "천안", "충주"],
    ["광주", "전주", "여수", "목포", "순천"],
    ["부산", "대구", "울산", "포항", "창원"],
    ["춘천", "강릉", "원주", "속초", "제주"]
  ]

  // ---------------------------------------------------------------------------
  // Decimal numerals and ids

  function Digit(d: nat): (c: char)
    requires d < 10
    ensures '0' <= c <= '9'
  {
    (48 + d) as char
  }

  /** `${n}` for a natural number. */
  function Num(n: nat): string {
    if n < 10 then [Digit(n)] else Num(n / 10) + [Digit(n % 10)]
  }

  /** A numeral is one digit below ten and more from ten on, and holds
      nothing but digits. */
  lemma {:induction false} NumShape(n: nat)
    ensures 1 <= |Num(n)| && (n >= 10 ==> |Num(n)| >= 2) && (n < 10 ==> |Num(n)| == 1)
    ensures forall i :: 0 <= i < |Num(n)| ==> '0' <= Num(n)[i] <= '9'
  {
    if n >= 10 { NumShape(n / 10); }
  }

  /** Different numbers are written differently. */
  lemma {:induction false} NumInjective(a: nat, b: nat)
    requires Num(a) == Num(b)
    ensures a == b
    decreases a
  {
    NumShape(a);
    NumShape(b);
    if a >= 10 && b >= 10 {
      var na := Num(a);
      assert na[..|na| - 1] == Num(a / 10) && na[|na| - 1] == Digit(a % 10);
      var nb := Num(b);
      assert nb[..|nb| - 1] == Num(b / 10) && nb[|nb| - 1] == Digit(b % 10);
      NumInjective(a / 10, b / 10);
      assert (48 + a % 10) as char == (48 + b % 10) as char;
    } else if a < 10 && b < 10 {
      assert (48 + a) as char == (48 + b) as char;
    }
  }

  /** The numbers of an id, as they are written. */
  function Numerals(xs: seq<nat>): seq<string> {
    if xs == [] then [] else [Num(xs[0])] + Numerals(xs[1..])
  }

  lemma {:induction false} NumeralsShape(xs: seq<nat>)
    ensures |Numerals(xs)| == |xs|
    ensures forall i :: 0 <= i < |xs| ==> '-' !in Numerals(xs)[i]
  {
    if xs != [] {
      NumeralsShape(xs[1..]);
      NumShape(xs[0]);
      assert forall i :: 0 < i < |xs| ==> Numerals(xs)[i] == Numerals(xs[1..])[i - 1];
    }
  }

  lemma {:induction false} NumeralsInjective(xs: seq<nat>, ys: seq<nat>)
    requires Numerals(xs) == Numerals(ys)
    ensures xs == ys
  {
    NumeralsShape(xs);
    NumeralsShape(ys);
    if xs != [] {
      assert Numerals(xs)[0] == Numerals(ys)[0];
      NumInjective(xs[0], ys[0]);
      assert Numerals(xs)[1..] == Numerals(xs[1..]);
      assert Numerals(ys)[1..] == Numerals(ys[1..]);
      NumeralsInjective(xs[1..], ys[1..]);
    }
  }

  /** An id template: a prefix and numbers, joined by `-`. */
  function Id(prefix: string, xs: seq<nat>): string {
    Text.Join([prefix] + Numerals(xs), '-')
  }

  /** Ids with the same prefix are equal only when they hold the same
      numbers. */
  lemma IdInjective(prefix: string, xs: seq<nat>, ys: seq<nat>)
    requires '-' !in prefix
    requires Id(prefix, xs) == Id(prefix, ys)
    ensures xs == ys
  {
    NumeralsShape(xs);
    NumeralsShape(ys);
    var a, b := [prefix] + Numerals(xs), [prefix] + Numerals(ys);
    assert forall i :: 0 < i < |a| ==> a[i] == Numerals(xs)[i - 1];
    assert forall i :: 0 < i < |b| ==> b[i] == Numerals(ys)[i - 1];
    Text.SplitJoin(a, '-');
    Text.SplitJoin(b, '-');
    assert a[1..] == Numerals(xs) && b[1..] == Numerals(ys);
    NumeralsInjective(xs, ys);
  }

  /** `rg-${seedCounter}`, where `seedCounter` is one more than the group's
      position. */
  function GroupId(g: nat): string { Id("rg", [g + 1]) }
  /** `r-${seedCounter}-${regionIndex + 1}`. */
  function RegionId(g: nat, r: nat): string { Id("r", [g + 1, r + 1]) }
  /** `st-${seedCounter}-${regionIndex + 1}-${sIndex + 1}`. */
  function StadiumId(g: nat, r: nat, s: nat): string { Id("st", [g + 1, r + 1, s + 1]) }
  /** `c-${seedCounter}-${regionIndex + 1}-${sIndex + 1}-${cIndex + 1}`. */
  function CourtId(g: nat, r: nat, s: nat, c: nat): string { Id("c", [g + 1, r + 1, s + 1, c + 1]) }

  lemma GroupIdInjective(g: nat, g2: nat)
    requires GroupId(g) == GroupId(g2)
    ensures g == g2
  {
    var xs, ys := [g + 1], [g2 + 1];
    IdInjective("rg", xs, ys);
    assert xs[0] == ys[0];
  }

  lemma RegionIdInjective(g: nat, r: nat, g2: nat, r2: nat)
    requires RegionId(g, r) == RegionId(g2, r2)
    ensures g == g2 && r == r2
  {
    var xs, ys := [g + 1, r + 1], [g2 + 1, r2 + 1];
    IdInjective("r", xs, ys);
    assert xs[0] == ys[0] && xs[1] == ys[1];
  }

  lemma StadiumIdInjective(g: nat, r: nat, s: nat, g2: nat, r2: nat, s2: nat)
    requires StadiumId(g, r, s) == StadiumId(g2, r2, s2)
    ensures g == g2 && r == r2 && s == s2
  {
    var xs, ys := [g + 1, r + 1, s + 1], [g2 + 1, r2 + 1, s2 + 1];
    IdInjective("st", xs, ys);
    assert xs[0] == ys[0] && xs[1] == ys[1] && xs[2] == ys[2];
  }

  lemma CourtIdInjective(g: nat, r: nat, s: nat, c: nat, g2: nat, r2: nat, s2: nat, c2: nat)
    requires CourtId(g, r, s, c) == CourtId(g2, r2, s2, c2)
    ensures g == g2 && r == r2 && s == s2 && c == c2
  {
    var xs, ys := [g + 1, r + 1, s + 1, c + 1], [g2 + 1, r2 + 1, s2 + 1, c2 + 1];
    IdInjective("c", xs, ys);
    assert xs[0] == ys[0] && xs[1] == ys[1] && xs[2] == ys[2] && xs[3] == ys[3];
  }

  // ---------------------------------------------------------------------------
  // The entities, by position

  function GroupName(g: nat): string {
    if g < |RegionGroupNames| then RegionGroupNames[g] else ""
  }

  function RegionName(g: nat, r: nat): string {
    if g < |RegionNames| && r < |RegionNames[g]| then RegionNames[g][r] else ""
  }

  function StadiumName(g: nat, r: nat, s: nat): string {
    RegionName(g, r) + " " + Num(s + 1) + "구장"
  }

  /** Where a region, stadium or court sits: the index of its group, of its
      region in the group, of its stadium in the region and of the court in
      the stadium, each counted from 0 in creation order. A group's
      position is its index alone. */
  datatype RegionPos = RegionPos(g: nat, r: nat)
  datatype StadiumPos = StadiumPos(g: nat, r: nat, s: nat)
  datatype CourtPos = CourtPos(g: nat, r: nat, s: nat, c: nat)

  /** `allEntity`. */
  const AllEntity: Entity := Entity("all", "전체", Units.All, None, None, None)

  function GroupEntity(g: nat): Entity {
    Entity(GroupId(g), GroupName(g), Units.RegionGroup, None, None, None)
  }

  function RegionEntity(p: RegionPos): Entity {
    Entity(RegionId(p.g, p.r), RegionName(p.g, p.r), Units.Region, Some(GroupId(p.g)), None, None)
  }

  function StadiumEntity(p: StadiumPos): Entity {
    Entity(StadiumId(p.g, p.r, p.s), StadiumName(p.g, p.r, p.s), Units.Stadium,
           Some(GroupId(p.g)), Some(RegionId(p.g, p.r)), None)
  }

  function CourtEntity(p: CourtPos): Entity {
    Entity(CourtId(p.g, p.r, p.s, p.c), StadiumName(p.g, p.r, p.s) + " " + Num(p.c + 1) + "면", Units.Court,
           Some(GroupId(p.g)), Some(RegionId(p.g, p.r)), Some(StadiumId(p.g, p.r, p.s)))
  }

  /** `(sIndex % 3) + 1`. */
  function CourtCount(s: nat): nat {
    s % 3 + 1
  }

  // ---------------------------------------------------------------------------
  // Creation order: the positions as the loops visit them, the first `k` of
  // each level

  function GroupPositions(k: nat): seq<nat> {
    seq(k, g requires 0 <= g => g)
  }

  function RegionPositionsOfGroup(g: nat, k: nat): seq<RegionPos> {
    seq(k, r requires 0 <= r => RegionPos(g, r))
  }

  /** The blocks of `blocks` one after another. */
  function Flatten<P>(blocks: seq<seq<P>>): seq<P> {
    if blocks == [] then [] else Flatten(blocks[..|blocks| - 1]) + blocks[|blocks| - 1]
  }

  function RegionPositions(k: nat): seq<RegionPos> {
    Flatten(seq(k, g requires 0 <= g => RegionPositionsOfGroup(g, RegionsPerGroup)))
  }

  function StadiumPositionsOfRegion(g: nat, r: nat, k: nat): seq<StadiumPos> {
    seq(k, s requires 0 <= s => StadiumPos(g, r, s))
  }

  function StadiumPositionsOfGroup(g: nat, k: nat): seq<StadiumPos> {
    Flatten(seq(k, r requires 0 <= r => StadiumPositionsOfRegion(g, r, StadiumsPerRegion)))
  }

  function StadiumPositions(k: nat): seq<StadiumPos> {
    Flatten(seq(k, g requires 0 <= g => StadiumPositionsOfGroup(g, RegionsPerGroup)))
  }

  function CourtPositionsOfStadium(g: nat, r: nat, s: nat, k: nat): seq<CourtPos> {
    seq(k, c requires 0 <= c => CourtPos(g, r, s, c))
  }

  /** The stadium with index `s` contributes `CourtCount(s)` courts. */
  function CourtPositionsOfRegion(g: nat, r: nat, k: nat): seq<CourtPos> {
    Flatten(seq(k, s requires 0 <= s => CourtPositionsOfStadium(g, r, s, CourtCount(s))))
  }

  function CourtPositionsOfGroup(g: nat, k: nat): seq<CourtPos> {
    Flatten(seq(k, r requires 0 <= r => CourtPositionsOfRegion(g, r, StadiumsPerRegion)))
  }

  function CourtPositions(k: nat): seq<CourtPos> {
    Flatten(seq(k, g requires 0 <= g => CourtPositionsOfGroup(g, RegionsPerGroup)))
  }

  // Each list of the first `k` blocks is the list of the first `k - 1` with
  // block `k - 1` after it.

  lemma RegionsStep(k: nat)
    ensures RegionPositions(k) == if k == 0 then [] else RegionPositions(k - 1) + RegionPositionsOfGroup(k - 1, RegionsPerGroup)
  {
    if k > 0 {
      var blocks := seq(k, g requires 0 <= g => RegionPositionsOfGroup(g, RegionsPerGroup));
      assert blocks[..k - 1] == seq(k - 1, g requires 0 <= g => RegionPositionsOfGroup(g, RegionsPerGroup));
    }
  }

  lemma StadiumsOfGroupStep(g: nat, k: nat)
    ensures StadiumPositionsOfGroup(g, k) ==
      if k == 0 then [] else StadiumPositionsOfGroup(g, k - 1) + StadiumPositionsOfRegion(g, k - 1, StadiumsPerRegion)
  {
    if k > 0 {
      var blocks := seq(k, r requires 0 <= r => StadiumPositionsOfRegion(g, r, StadiumsPerRegion));
      assert blocks[..k - 1] == seq(k - 1, r requires 0 <= r => StadiumPositionsOfRegion(g, r, StadiumsPerRegion));
    }
  }

  lemma StadiumsStep(k: nat)
    ensures StadiumPositions(k) == if k == 0 then [] else StadiumPositions(k - 1) + StadiumPositionsOfGroup(k - 1, RegionsPerGroup)
  {
    if k > 0 {
      var blocks := seq(k, g requires 0 <= g => StadiumPositionsOfGroup(g, RegionsPerGroup));
      assert blocks[..k - 1] == seq(k - 1, g requires 0 <= g => StadiumPositionsOfGroup(g, RegionsPerGroup));
    }
  }

  lemma CourtsOfRegionStep(g: nat, r: nat, k: nat)
    ensures CourtPositionsOfRegion(g, r, k) ==
      if k == 0 then [] else CourtPositionsOfRegion(g, r, k - 1) + CourtPositionsOfStadium(g, r, k - 1, CourtCount(k - 1))
  {
    if k > 0 {
      var blocks := seq(k, s requires 0 <= s => CourtPositionsOfStadium(g, r, s, CourtCount(s)));
      assert blocks[..k - 1] == seq(k - 1, s requires 0 <= s => CourtPositionsOfStadium(g, r, s, CourtCount(s)));
    }
  }

  lemma CourtsOfGroupStep(g: nat, k: nat)
    ensures CourtPositionsOfGroup(g, k) ==
      if k == 0 then [] else CourtPositionsOfGroup(g, k - 1) + CourtPositionsOfRegion(g, k - 1, StadiumsPerRegion)
  {
    if k > 0 {
      var blocks := seq(k, r requires 0 <= r => CourtPositionsOfRegion(g, r, StadiumsPerRegion));
      assert blocks[..k - 1] == seq(k - 1, r requires 0 <= r => CourtPositionsOfRegion(g, r, StadiumsPerRegion));
    }
  }

  lemma CourtsStep(k: nat)
    ensures CourtPositions(k) == if k == 0 then [] else CourtPositions(k - 1) + CourtPositionsOfGroup(k - 1, RegionsPerGroup)
  {
    if k > 0 {
      var blocks := seq(k, g requires 0 <= g => CourtPositionsOfGroup(g, RegionsPerGroup));
      assert blocks[..k - 1] == seq(k - 1, g requires 0 <= g => CourtPositionsOfGroup(g, RegionsPerGroup));
    }
  }

  // The same for the lists built one position at a time.

  lemma GroupsSnoc(k: nat)
    ensures GroupPositions(k + 1) == GroupPositions(k) + [k]
  {
  }

  lemma RegionsOfGroupSnoc(g: nat, k: nat)
    ensures RegionPositionsOfGroup(g, k + 1) == RegionPositionsOfGroup(g, k) + [RegionPos(g, k)]
  {
  }

  lemma StadiumsOfRegionSnoc(g: nat, r: nat, k: nat)
    ensures StadiumPositionsOfRegion(g, r, k + 1) == StadiumPositionsOfRegion(g, r, k) + [StadiumPos(g, r, k)]
  {
  }

  lemma CourtsOfStadiumSnoc(g: nat, r: nat, s: nat, k: nat)
    ensures CourtPositionsOfStadium(g, r, s, k + 1) == CourtPositionsOfStadium(g, r, s, k) + [CourtPos(g, r, s, k)]
  {
  }

  /** The entities at the positions `ps`, in their order. */
  function EntitiesAt<P>(make: P -> Entity, ps: seq<P>): seq<Entity> {
    seq(|ps|, i requires 0 <= i < |ps| => make(ps[i]))
  }

  /** `entitiesByUnit` after the generator has run. */
  datatype Cube = Cube(all: seq<Entity>, regionGroups: seq<Entity>, regions: seq<Entity>,
                       stadiums: seq<Entity>, courts: seq<Entity>)

  /** The cube the loops build over the first `k` region groups. */
  function CubeOf(k: nat): Cube {
    Cube([AllEntity], EntitiesAt(GroupEntity, GroupPositions(k)),
         EntitiesAt(RegionEntity, RegionPositions(k)), EntitiesAt(StadiumEntity, StadiumPositions(k)),
         EntitiesAt(CourtEntity, CourtPositions(k)))
  }

  /** The cube the generator builds. */
  function Generated(): Cube {
    CubeOf(GroupCount)
  }

  // ---------------------------------------------------------------------------
  // Lists of entities by position

  lemma EntitiesAtConcat<P>(make: P -> Entity, a: seq<P>, b: seq<P>)
    ensures EntitiesAt(make, a + b) == EntitiesAt(make, a) + EntitiesAt(make, b)
  {
    var l, m := EntitiesAt(make, a + b), EntitiesAt(make, a) + EntitiesAt(make, b);
    forall i | 0 <= i < |l|
      ensures l[i] == m[i]
    {
      if i < |a| { assert (a + b)[i] == a[i]; } else { assert (a + b)[i] == b[i - |a|]; }
    }
  }

  lemma EntitiesAtSnoc<P>(make: P -> Entity, ps: seq<P>, p: P)
    ensures EntitiesAt(make, ps + [p]) == EntitiesAt(make, ps) + [make(p)]
  {
    EntitiesAtConcat(make, ps, [p]);
    assert EntitiesAt(make, [p]) == [make(p)];
  }

  /** Every entity of the list is made from one of the positions... */
  lemma EntitiesAtMember<P>(make: P -> Entity, ps: seq<P>, e: Entity) returns (p: P)
    requires e in EntitiesAt(make, ps)
    ensures p in ps && e == make(p)
  {
    var i :| 0 <= i < |EntitiesAt(make, ps)| && EntitiesAt(make, ps)[i] == e;
    p := ps[i];
  }

  /** ... and every position gives one. */
  lemma EntitiesAtHas<P>(make: P -> Entity, ps: seq<P>, p: P)
    requires p in ps
    ensures make(p) in EntitiesAt(make, ps)
  {
    var i :| 0 <= i < |ps| && ps[i] == p;
    assert EntitiesAt(make, ps)[i] == make(p);
  }

  // ---------------------------------------------------------------------------
  // Which positions each list holds

  lemma GroupIn(k: nat, g: nat)
    ensures g in GroupPositions(k) <==> g < k
  {
    if g < k { assert GroupPositions(k)[g] == g; }
  }

  lemma RegionInGroup(g: nat, k: nat, p: RegionPos)
    ensures p in RegionPositionsOfGroup(g, k) <==> p.g == g && p.r < k
  {
    if p.g == g && p.r < k { assert RegionPositionsOfGroup(g, k)[p.r] == p; }
  }

  lemma {:induction false} RegionIn(k: nat, p: RegionPos)
    ensures p in RegionPositions(k) <==> p.g < k && p.r < RegionsPerGroup
  {
    RegionsStep(k);
    if k > 0 {
      RegionIn(k - 1, p);
      RegionInGroup(k - 1, RegionsPerGroup, p);
      Text.InConcat(RegionPositions(k - 1), RegionPositionsOfGroup(k - 1, RegionsPerGroup), p);
    }
  }

  lemma StadiumInRegion(g: nat, r: nat, k: nat, p: StadiumPos)
    ensures p in StadiumPositionsOfRegion(g, r, k) <==> p.g == g && p.r == r && p.s < k
  {
    if p.g == g && p.r == r && p.s < k { assert StadiumPositionsOfRegion(g, r, k)[p.s] == p; }
  }

  lemma {:induction false} StadiumInGroup(g: nat, k: nat, p: StadiumPos)
    ensures p in StadiumPositionsOfGroup(g, k) <==> p.g == g && p.r < k && p.s < StadiumsPerRegion
  {
    StadiumsOfGroupStep(g, k);
    if k > 0 {
      StadiumInGroup(g, k - 1, p);
      StadiumInRegion(g, k - 1, StadiumsPerRegion, p);
      Text.InConcat(StadiumPositionsOfGroup(g, k - 1), StadiumPositionsOfRegion(g, k - 1, StadiumsPerRegion), p);
    }
  }

  lemma {:induction false} StadiumIn(k: nat, p: StadiumPos)
    ensures p in StadiumPositions(k) <==> p.g < k && p.r < RegionsPerGroup && p.s < StadiumsPerRegion
  {
    StadiumsStep(k);
    if k > 0 {
      StadiumIn(k - 1, p);
      StadiumInGroup(k - 1, RegionsPerGroup, p);
      Text.InConcat(StadiumPositions(k - 1), StadiumPositionsOfGroup(k - 1, RegionsPerGroup), p);
    }
  }

  lemma CourtInStadium(g: nat, r: nat, s: nat, k: nat, p: CourtPos)
    ensures p in CourtPositionsOfStadium(g, r, s, k) <==> p.g == g && p.r == r && p.s == s && p.c < k
  {
    if p.g == g && p.r == r && p.s == s && p.c < k { assert CourtPositionsOfStadium(g, r, s, k)[p.c] == p; }
  }

  lemma {:induction false} CourtInRegion(g: nat, r: nat, k: nat, p: CourtPos)
    ensures p in CourtPositionsOfRegion(g, r, k) <==> p.g == g && p.r == r && p.s < k && p.c < CourtCount(p.s)
  {
    CourtsOfRegionStep(g, r, k);
    if k > 0 {
      CourtInRegion(g, r, k - 1, p);
      CourtInStadium(g, r, k - 1, CourtCount(k - 1), p);
      Text.InConcat(CourtPositionsOfRegion(g, r, k - 1), CourtPositionsOfStadium(g, r, k - 1, CourtCount(k - 1)), p);
    }
  }

  lemma {:induction false} CourtInGroup(g: nat, k: nat, p: CourtPos)
    ensures p in CourtPositionsOfGroup(g, k) <==>
      p.g == g && p.r < k && p.s < StadiumsPerRegion && p.c < CourtCount(p.s)
  {
    CourtsOfGroupStep(g, k);
    if k > 0 {
      CourtInGroup(g, k - 1, p);
      CourtInRegion(g, k - 1, StadiumsPerRegion, p);
      Text.InConcat(CourtPositionsOfGroup(g, k - 1), CourtPositionsOfRegion(g, k - 1, StadiumsPerRegion), p);
    }
  }

  /** The courts are those of every stadium of every region of the first `k`
      groups: a stadium with index `s` has courts `0 .. s % 3`. */
  lemma {:induction false} CourtIn(k: nat, p: CourtPos)
    ensures p in CourtPositions(k) <==>
      p.g < k && p.r < RegionsPerGroup && p.s < StadiumsPerRegion && p.c < CourtCount(p.s)
  {
    CourtsStep(k);
    if k > 0 {
      CourtIn(k - 1, p);
      CourtInGroup(k - 1, RegionsPerGroup, p);
      Text.InConcat(CourtPositions(k - 1), CourtPositionsOfGroup(k - 1, RegionsPerGroup), p);
    }
  }


  // ---------------------------------------------------------------------------
  // Counts


  /** A region has three stadiums, with one, two and three courts: six in all. */
  lemma RegionBlockLengths(g: nat, r: nat)
    ensures |StadiumPositionsOfRegion(g, r, StadiumsPerRegion)| == 3
    ensures |CourtPositionsOfRegion(g, r, StadiumsPerRegion)| == 6
  {
    CourtsOfRegionStep(g, r, 3);
    CourtsOfRegionStep(g, r, 2);
    CourtsOfRegionStep(g, r, 1);
    CourtsOfRegionStep(g, r, 0);
  }

  lemma {:induction false} GroupBlockLengths(g: nat, k: nat)
    ensures |RegionPositionsOfGroup(g, k)| == k
    ensures |StadiumPositionsOfGroup(g, k)| == 3 * k
    ensures |CourtPositionsOfGroup(g, k)| == 6 * k
  {
    StadiumsOfGroupStep(g, k);
    CourtsOfGroupStep(g, k);
    if k > 0 {
      GroupBlockLengths(g, k - 1);
      RegionBlockLengths(g, k - 1);
    }
  }

  lemma {:induction false} PositionCounts(k: nat)
    ensures |GroupPositions(k)| == k
    ensures |RegionPositions(k)| == 5 * k
    ensures |StadiumPositions(k)| == 15 * k
    ensures |CourtPositions(k)| == 30 * k
  {
    RegionsStep(k);
    StadiumsStep(k);
    CourtsStep(k);
    if k > 0 {
      PositionCounts(k - 1);
      GroupBlockLengths(k - 1, RegionsPerGroup);
    }
  }

  /** The cube built from `k` region groups has one "all" entity, `k` region
      groups, `5k` regions, `15k` stadiums and `30k` courts: with the five
      groups generated, 5, 25, 75 and 150. */
  lemma CubeCounts(k: nat)
    ensures |CubeOf(k).all| == 1 && |CubeOf(k).regionGroups| == k && |CubeOf(k).regions| == 5 * k
    ensures |CubeOf(k).stadiums| == 15 * k && |CubeOf(k).courts| == 30 * k
  {
    PositionCounts(k);
  }

  // ---------------------------------------------------------------------------
  // The generator

  /** The court loop of one stadium. */
  method AddCourts(courts: seq<Entity>, seedCounter: nat, regionIndex: nat, sIndex: nat) returns (r: seq<Entity>)
    requires seedCounter >= 1
    ensures r == courts + EntitiesAt(CourtEntity, CourtPositionsOfStadium(seedCounter - 1, regionIndex, sIndex, CourtCount(sIndex)))
  {
    ghost var g := seedCounter - 1;
    r := courts;
    var courtCount := (sIndex % 3) + 1;
    var cIndex := 0;
    while cIndex < courtCount
      invariant 0 <= cIndex <= courtCount
      invariant r == courts + EntitiesAt(CourtEntity, CourtPositionsOfStadium(g, regionIndex, sIndex, cIndex))
    {
      var stadiumId := StadiumId(seedCounter - 1, regionIndex, sIndex);
      var regionId := RegionId(seedCounter - 1, regionIndex);
      var groupId := GroupId(seedCounter - 1);
      var stadiumName := RegionName(seedCounter - 1, regionIndex) + " " + Num(sIndex + 1) + "구장";
      var court := Entity(CourtId(seedCounter - 1, regionIndex, sIndex, cIndex),
                          stadiumName + " " + Num(cIndex + 1) + "면", Units.Court,
                          Some(groupId), Some(regionId), Some(stadiumId));
      ghost var p := CourtPos(g, regionIndex, sIndex, cIndex);
      assert court == CourtEntity(p);
      ghost var done := CourtPositionsOfStadium(g, regionIndex, sIndex, cIndex);
      EntitiesAtSnoc(CourtEntity, done, p);
      CourtsOfStadiumSnoc(g, regionIndex, sIndex, cIndex);
      AppendAssoc(courts, EntitiesAt(CourtEntity, done), [court]);
      r := r + [court];
      cIndex := cIndex + 1;
    }
  }

  /** The stadium loop of one region. */
  method AddStadiums(stadiums: seq<Entity>, courts: seq<Entity>, seedCounter: nat, regionIndex: nat)
    returns (st: seq<Entity>, co: seq<Entity>)
    requires seedCounter >= 1
    ensures st == stadiums + EntitiesAt(StadiumEntity, StadiumPositionsOfRegion(seedCounter - 1, regionIndex, StadiumsPerRegion))
    ensures co == courts + EntitiesAt(CourtEntity, CourtPositionsOfRegion(seedCounter - 1, regionIndex, StadiumsPerRegion))
  {
    ghost var g := seedCounter - 1;
    st, co := stadiums, courts;
    var sIndex := 0;
    while sIndex < 3
      invariant 0 <= sIndex <= 3
      invariant st == stadiums + EntitiesAt(StadiumEntity, StadiumPositionsOfRegion(g, regionIndex, sIndex))
      invariant co == courts + EntitiesAt(CourtEntity, CourtPositionsOfRegion(g, regionIndex, sIndex))
    {
      var stadium := Entity(StadiumId(seedCounter - 1, regionIndex, sIndex),
                            RegionName(seedCounter - 1, regionIndex) + " " + Num(sIndex + 1) + "구장", Units.Stadium,
                            Some(GroupId(seedCounter - 1)),
                            Some(RegionId(seedCounter - 1, regionIndex)), None);
      ghost var p := StadiumPos(g, regionIndex, sIndex);
      assert stadium == StadiumEntity(p);
      ghost var doneStadiums := StadiumPositionsOfRegion(g, regionIndex, sIndex);
      EntitiesAtSnoc(StadiumEntity, doneStadiums, p);
      StadiumsOfRegionSnoc(g, regionIndex, sIndex);
      AppendAssoc(stadiums, EntitiesAt(StadiumEntity, doneStadiums), [stadium]);
      st := st + [stadium];
      co := AddCourts(co, seedCounter, regionIndex, sIndex);
      ghost var doneCourts := CourtPositionsOfRegion(g, regionIndex, sIndex);
      ghost var added := CourtPositionsOfStadium(g, regionIndex, sIndex, CourtCount(sIndex));
      EntitiesAtConcat(CourtEntity, doneCourts, added);
      AppendAssoc(courts, EntitiesAt(CourtEntity, doneCourts), EntitiesAt(CourtEntity, added));
      CourtsOfRegionStep(g, regionIndex, sIndex + 1);
      sIndex := sIndex + 1;
    }
  }

  /** The region loop of one group. */
  method AddRegions(regions: seq<Entity>, stadiums: seq<Entity>, courts: seq<Entity>, seedCounter: nat)
    returns (re: seq<Entity>, st: seq<Entity>, co: seq<Entity>)
    requires seedCounter >= 1
    ensures re == regions + EntitiesAt(RegionEntity, RegionPositionsOfGroup(seedCounter - 1, RegionsPerGroup))
    ensures st == stadiums + EntitiesAt(StadiumEntity, StadiumPositionsOfGroup(seedCounter - 1, RegionsPerGroup))
    ensures co == courts + EntitiesAt(CourtEntity, CourtPositionsOfGroup(seedCounter - 1, RegionsPerGroup))
  {
    ghost var g := seedCounter - 1;
    re, st, co := regions, stadiums, courts;
    var regionIndex := 0;
    while regionIndex < RegionsPerGroup
      invariant 0 <= regionIndex <= RegionsPerGroup
      invariant re == regions + EntitiesAt(RegionEntity, RegionPositionsOfGroup(g, regionIndex))
      invariant st == stadiums + EntitiesAt(StadiumEntity, StadiumPositionsOfGroup(g, regionIndex))
      invariant co == courts + EntitiesAt(CourtEntity, CourtPositionsOfGroup(g, regionIndex))
    {
      var region := Entity(RegionId(seedCounter - 1, regionIndex),
                           RegionName(seedCounter - 1, regionIndex), Units.Region,
                           Some(GroupId(seedCounter - 1)), None, None);
      ghost var p := RegionPos(g, regionIndex);
      assert region == RegionEntity(p);
      ghost var doneRegions := RegionPositionsOfGroup(g, regionIndex);
      EntitiesAtSnoc(RegionEntity, doneRegions, p);
      RegionsOfGroupSnoc(g, regionIndex);
      AppendAssoc(regions, EntitiesAt(RegionEntity, doneRegions), [region]);
      re := re + [region];
      st, co := AddStadiums(st, co, seedCounter, regionIndex);
      ghost var doneStadiums := StadiumPositionsOfGroup(g, regionIndex);
      ghost var addedStadiums := StadiumPositionsOfRegion(g, regionIndex, StadiumsPerRegion);
      EntitiesAtConcat(StadiumEntity, doneStadiums, addedStadiums);
      AppendAssoc(stadiums, EntitiesAt(StadiumEntity, doneStadiums), EntitiesAt(StadiumEntity, addedStadiums));
      ghost var doneCourts := CourtPositionsOfGroup(g, regionIndex);
      ghost var addedCourts := CourtPositionsOfRegion(g, regionIndex, StadiumsPerRegion);
      EntitiesAtConcat(CourtEntity, doneCourts, addedCourts);
      AppendAssoc(courts, EntitiesAt(CourtEntity, doneCourts), EntitiesAt(CourtEntity, addedCourts));
      StadiumsOfGroupStep(g, regionIndex + 1);
      CourtsOfGroupStep(g, regionIndex + 1);
      regionIndex := regionIndex + 1;
    }
  }

  /** The generator's top-level loop over the region groups; `seedCounter`
      numbers the groups from 1. */
  method BuildCube() returns (cube: Cube)
    ensures cube == Generated()
  {
    var groups: seq<Entity> := [];
    var regions: seq<Entity> := [];
    var stadiums: seq<Entity> := [];
    var courts: seq<Entity> := [];
    var seedCounter := 1;
    var g := 0;
    while g < |RegionGroupNames|
      invariant 0 <= g <= |RegionGroupNames| && seedCounter == g + 1
      invariant groups == EntitiesAt(GroupEntity, GroupPositions(g))
      invariant regions == EntitiesAt(RegionEntity, RegionPositions(g))
      invariant stadiums == EntitiesAt(StadiumEntity, StadiumPositions(g))
      invariant courts == EntitiesAt(CourtEntity, CourtPositions(g))
    {
      var groupEntity := Entity(GroupId(seedCounter - 1), RegionGroupNames[g], Units.RegionGroup,
                                None, None, None);
      assert groupEntity == GroupEntity(g);
      EntitiesAtSnoc<nat>(GroupEntity, GroupPositions(g), g);
      GroupsSnoc(g);
      groups := groups + [groupEntity];
      regions, stadiums, courts := AddRegions(regions, stadiums, courts, seedCounter);
      EntitiesAtConcat(RegionEntity, RegionPositions(g), RegionPositionsOfGroup(g, RegionsPerGroup));
      EntitiesAtConcat(StadiumEntity, StadiumPositions(g), StadiumPositionsOfGroup(g, RegionsPerGroup));
      EntitiesAtConcat(CourtEntity, CourtPositions(g), CourtPositionsOfGroup(g, RegionsPerGroup));
      RegionsStep(g + 1);
      StadiumsStep(g + 1);
      CourtsStep(g + 1);
      seedCounter := seedCounter + 1;
      g := g + 1;
    }
    cube := Cube([AllEntity], groups, regions, stadiums, courts);
  }

  // ---------------------------------------------------------------------------
  // Parent links

  /** Every parent link names an entity of the parent unit, and that parent's
      own links agree with the child's: a stadium's region lies in the
      stadium's group, a court's stadium in the court's region and group. */
  lemma ParentLinks(k: nat)
    ensures forall e :: e in CubeOf(k).regions ==>
      exists q :: q in CubeOf(k).regionGroups && e.regionGroupId == Some(q.id)
    ensures forall e :: e in CubeOf(k).stadiums ==>
      exists q :: q in CubeOf(k).regions && e.regionId == Some(q.id) && q.regionGroupId == e.regionGroupId
    ensures forall e :: e in CubeOf(k).courts ==>
      exists q :: q in CubeOf(k).stadiums && e.stadiumId == Some(q.id) && q.regionId == e.regionId &&
                  q.regionGroupId == e.regionGroupId
  {
    var cube := CubeOf(k);
    forall e | e in cube.regions
      ensures exists q :: q in cube.regionGroups && e.regionGroupId == Some(q.id)
    {
      var p := EntitiesAtMember(RegionEntity, RegionPositions(k), e);
      RegionIn(k, p);
      GroupIn(k, p.g);
      EntitiesAtHas(GroupEntity, GroupPositions(k), p.g);
      assert GroupEntity(p.g) in cube.regionGroups && e.regionGroupId == Some(GroupEntity(p.g).id);
    }
    forall e | e in cube.stadiums
      ensures exists q :: q in cube.regions && e.regionId == Some(q.id) && q.regionGroupId == e.regionGroupId
    {
      var p := EntitiesAtMember(StadiumEntity, StadiumPositions(k), e);
      var parent := RegionPos(p.g, p.r);
      StadiumIn(k, p);
      RegionIn(k, parent);
      EntitiesAtHas(RegionEntity, RegionPositions(k), parent);
      assert RegionEntity(parent) in cube.regions && e.regionId == Some(RegionEntity(parent).id);
    }
    forall e | e in cube.courts
      ensures exists q :: q in cube.stadiums && e.stadiumId == Some(q.id) && q.regionId == e.regionId &&
                          q.regionGroupId == e.regionGroupId
    {
      var p := EntitiesAtMember(CourtEntity, CourtPositions(k), e);
      var parent := StadiumPos(p.g, p.r, p.s);
      CourtIn(k, p);
      StadiumIn(k, parent);
      EntitiesAtHas(StadiumEntity, StadiumPositions(k), parent);
      assert StadiumEntity(parent) in cube.stadiums && e.stadiumId == Some(StadiumEntity(parent).id);
    }
  }

  // ---------------------------------------------------------------------------
  // Unique ids

  /** No position occurs twice in `ps`. */
  predicate Distinct<P(==)>(ps: seq<P>) {
    forall i, j :: 0 <= i < j < |ps| ==> ps[i] != ps[j]
  }

  lemma DistinctConcat<P>(a: seq<P>, b: seq<P>)
    requires Distinct(a) && Distinct(b)
    requires forall p :: p in a ==> p !in b
    ensures Distinct(a + b)
  {
    forall i, j | 0 <= i < j < |a + b|
      ensures (a + b)[i] != (a + b)[j]
    {
      if j < |a| {
        assert (a + b)[i] == a[i] && (a + b)[j] == a[j];
      } else if i >= |a| {
        assert (a + b)[i] == b[i - |a|] && (a + b)[j] == b[j - |a|];
      } else {
        assert (a + b)[i] in a && (a + b)[j] in b;
      }
    }
  }

  lemma GroupPositionsDistinct(k: nat)
    ensures Distinct(GroupPositions(k))
  {
  }


  lemma RegionPositionsOfGroupDistinct(g: nat, k: nat)
    ensures Distinct(RegionPositionsOfGroup(g, k))
  {
  }


  lemma RegionGroupsApart(j: nat)
    ensures forall p :: p in RegionPositions(j) ==> p !in RegionPositionsOfGroup(j, RegionsPerGroup)
  {
    forall p | p in RegionPositions(j) ensures p !in RegionPositionsOfGroup(j, RegionsPerGroup) {
      RegionIn(j, p);
      RegionInGroup(j, RegionsPerGroup, p);
    }
  }

  lemma {:induction false} RegionPositionsDistinct(k: nat)
    ensures Distinct(RegionPositions(k))
  {
    RegionsStep(k);
    if k > 0 {
      var before, last := RegionPositions(k - 1), RegionPositionsOfGroup(k - 1, RegionsPerGroup);
      RegionPositionsDistinct(k - 1);
      RegionPositionsOfGroupDistinct(k - 1, RegionsPerGroup);
      RegionGroupsApart(k - 1);
      DistinctConcat(before, last);
    }
  }

  lemma StadiumPositionsOfRegionDistinct(g: nat, r: nat, k: nat)
    ensures Distinct(StadiumPositionsOfRegion(g, r, k))
  {
  }


  lemma StadiumRegionsApart(g: nat, j: nat)
    ensures forall p :: p in StadiumPositionsOfGroup(g, j) ==> p !in StadiumPositionsOfRegion(g, j, StadiumsPerRegion)
  {
    forall p | p in StadiumPositionsOfGroup(g, j) ensures p !in StadiumPositionsOfRegion(g, j, StadiumsPerRegion) {
      StadiumInGroup(g, j, p);
      StadiumInRegion(g, j, StadiumsPerRegion, p);
    }
  }

  lemma {:induction false} StadiumPositionsOfGroupDistinct(g: nat, k: nat)
    ensures Distinct(StadiumPositionsOfGroup(g, k))
  {
    StadiumsOfGroupStep(g, k);
    if k > 0 {
      var before, last := StadiumPositionsOfGroup(g, k - 1), StadiumPositionsOfRegion(g, k - 1, StadiumsPerRegion);
      StadiumPositionsOfGroupDistinct(g, k - 1);
      StadiumPositionsOfRegionDistinct(g, k - 1, StadiumsPerRegion);
      StadiumRegionsApart(g, k - 1);
      DistinctConcat(before, last);
    }
  }

  lemma StadiumGroupsApart(j: nat)
    ensures forall p :: p in StadiumPositions(j) ==> p !in StadiumPositionsOfGroup(j, RegionsPerGroup)
  {
    forall p | p in StadiumPositions(j) ensures p !in StadiumPositionsOfGroup(j, RegionsPerGroup) {
      StadiumIn(j, p);
      StadiumInGroup(j, RegionsPerGroup, p);
    }
  }

  lemma {:induction false} StadiumPositionsDistinct(k: nat)
    ensures Distinct(StadiumPositions(k))
  {
    StadiumsStep(k);
    if k > 0 {
      var before, last := StadiumPositions(k - 1), StadiumPositionsOfGroup(k - 1, RegionsPerGroup);
      StadiumPositionsDistinct(k - 1);
      StadiumPositionsOfGroupDistinct(k - 1, RegionsPerGroup);
      StadiumGroupsApart(k - 1);
      DistinctConcat(before, last);
    }
  }

  lemma CourtPositionsOfStadiumDistinct(g: nat, r: nat, s: nat, k: nat)
    ensures Distinct(CourtPositionsOfStadium(g, r, s, k))
  {
  }


  lemma CourtStadiumsApart(g: nat, r: nat, j: nat)
    ensures forall p :: p in CourtPositionsOfRegion(g, r, j) ==> p !in CourtPositionsOfStadium(g, r, j, CourtCount(j))
  {
    forall p | p in CourtPositionsOfRegion(g, r, j) ensures p !in CourtPositionsOfStadium(g, r, j, CourtCount(j)) {
      CourtInRegion(g, r, j, p);
      CourtInStadium(g, r, j, CourtCount(j), p);
    }
  }

  lemma {:induction false} CourtPositionsOfRegionDistinct(g: nat, r: nat, k: nat)
    ensures Distinct(CourtPositionsOfRegion(g, r, k))
  {
    CourtsOfRegionStep(g, r, k);
    if k > 0 {
      var before, last := CourtPositionsOfRegion(g, r, k - 1), CourtPositionsOfStadium(g, r, k - 1, CourtCount(k - 1));
      CourtPositionsOfRegionDistinct(g, r, k - 1);
      CourtPositionsOfStadiumDistinct(g, r, k - 1, CourtCount(k - 1));
      CourtStadiumsApart(g, r, k - 1);
      DistinctConcat(before, last);
    }
  }

  lemma CourtRegionsApart(g: nat, j: nat)
    ensures forall p :: p in CourtPositionsOfGroup(g, j) ==> p !in CourtPositionsOfRegion(g, j, StadiumsPerRegion)
  {
    forall p | p in CourtPositionsOfGroup(g, j) ensures p !in CourtPositionsOfRegion(g, j, StadiumsPerRegion) {
      CourtInGroup(g, j, p);
      CourtInRegion(g, j, StadiumsPerRegion, p);
    }
  }

  lemma {:induction false} CourtPositionsOfGroupDistinct(g: nat, k: nat)
    ensures Distinct(CourtPositionsOfGroup(g, k))
  {
    CourtsOfGroupStep(g, k);
    if k > 0 {
      var before, last := CourtPositionsOfGroup(g, k - 1), CourtPositionsOfRegion(g, k - 1, StadiumsPerRegion);
      CourtPositionsOfGroupDistinct(g, k - 1);
      CourtPositionsOfRegionDistinct(g, k - 1, StadiumsPerRegion);
      CourtRegionsApart(g, k - 1);
      DistinctConcat(before, last);
    }
  }

  lemma CourtGroupsApart(j: nat)
    ensures forall p :: p in CourtPositions(j) ==> p !in CourtPositionsOfGroup(j, RegionsPerGroup)
  {
    forall p | p in CourtPositions(j) ensures p !in CourtPositionsOfGroup(j, RegionsPerGroup) {
      CourtIn(j, p);
      CourtInGroup(j, RegionsPerGroup, p);
    }
  }

  lemma {:induction false} CourtPositionsDistinct(k: nat)
    ensures Distinct(CourtPositions(k))
  {
    CourtsStep(k);
    if k > 0 {
      var before, last := CourtPositions(k - 1), CourtPositionsOfGroup(k - 1, RegionsPerGroup);
      CourtPositionsDistinct(k - 1);
      CourtPositionsOfGroupDistinct(k - 1, RegionsPerGroup);
      CourtGroupsApart(k - 1);
      DistinctConcat(before, last);
    }
  }

  /** No two positions of `l` hold the same id. */
  predicate UniqueIds(l: seq<Entity>) {
    forall i, j :: 0 <= i < j < |l| ==> l[i].id != l[j].id
  }

  /** Distinct positions whose entities' ids tell them apart give a list
      without a repeated id. */
  lemma UniqueIdsAt<P>(make: P -> Entity, ps: seq<P>)
    requires Distinct(ps)
    requires forall p, q :: p in ps && q in ps && make(p).id == make(q).id ==> p == q
    ensures UniqueIds(EntitiesAt(make, ps))
  {
    var l := EntitiesAt(make, ps);
    forall i, j | 0 <= i < j < |l|
      ensures l[i].id != l[j].id
    {
      assert ps[i] in ps && ps[j] in ps && ps[i] != ps[j];
    }
  }

  lemma GroupsUnique(k: nat)
    ensures UniqueIds(CubeOf(k).regionGroups)
  {
    GroupPositionsDistinct(k);
    forall g, g2 | g in GroupPositions(k) && g2 in GroupPositions(k) && GroupEntity(g).id == GroupEntity(g2).id
      ensures g == g2
    {
      GroupIdInjective(g, g2);
    }
    UniqueIdsAt(GroupEntity, GroupPositions(k));
  }

  lemma RegionsUnique(k: nat)
    ensures UniqueIds(CubeOf(k).regions)
  {
    RegionPositionsDistinct(k);
    forall p, q | p in RegionPositions(k) && q in RegionPositions(k) && RegionEntity(p).id == RegionEntity(q).id
      ensures p == q
    {
      RegionIdInjective(p.g, p.r, q.g, q.r);
    }
    UniqueIdsAt(RegionEntity, RegionPositions(k));
  }

  lemma StadiumsUnique(k: nat)
    ensures UniqueIds(CubeOf(k).stadiums)
  {
    StadiumPositionsDistinct(k);
    forall p, q | p in StadiumPositions(k) && q in StadiumPositions(k) && StadiumEntity(p).id == StadiumEntity(q).id
      ensures p == q
    {
      StadiumIdInjective(p.g, p.r, p.s, q.g, q.r, q.s);
    }
    UniqueIdsAt(StadiumEntity, StadiumPositions(k));
  }

  lemma CourtsUnique(k: nat)
    ensures UniqueIds(CubeOf(k).courts)
  {
    CourtPositionsDistinct(k);
    forall p, q | p in CourtPositions(k) && q in CourtPositions(k) && CourtEntity(p).id == CourtEntity(q).id
      ensures p == q
    {
      CourtIdInjective(p.g, p.r, p.s, p.c, q.g, q.r, q.s, q.c);
    }
    UniqueIdsAt(CourtEntity, CourtPositions(k));
  }

  // ---------------------------------------------------------------------------
  // Entity keys

  /** `entityKey`: `${unit}:${id}`. */
  function EntityKey(e: Entity): string {
    Units.UnitId(e.unit) + ":" + e.id
  }

  lemma ColonSplit(p1: string, s1: string, p2: string, s2: string)
    requires ':' !in p1 && ':' !in p2
    requires p1 + ":" + s1 == p2 + ":" + s2
    ensures p1 == p2 && s1 == s2
  {
    var x := p1 + ":" + s1;
    assert x[|p1|] == ':' && x == p2 + ":" + s2 && x[|p2|] == ':';
    assert forall i :: 0 <= i < |p1| ==> x[i] == p1[i];
    assert forall i :: 0 <= i < |p2| ==> x[i] == p2[i];
    assert |p1| == |p2|;
    assert p1 == x[..|p1|] == p2;
    assert s1 == x[|p1| + 1..] == s2;
  }

  /** Two entities share a key exactly when they share unit and id. */
  lemma EntityKeyInjective(a: Entity, b: Entity)
    ensures EntityKey(a) == EntityKey(b) <==> (a.unit == b.unit && a.id == b.id)
  {
    if EntityKey(a) == EntityKey(b) {
      assert ':' !in Units.UnitId(a.unit) && ':' !in Units.UnitId(b.unit);
      ColonSplit(Units.UnitId(a.unit), a.id, Units.UnitId(b.unit), b.id);
      Units.UnitIdInjective(a.unit, b.unit);
    }
  }

  /** `entitiesByUnit[unit]`: the three units of the store's own hierarchy
      (`area_group`, `area`, `stadium_group`) have no list. */
  function EntitiesByUnit(cube: Cube, unit: Units.MeasurementUnit): (r: Option<seq<Entity>>)
    ensures r.None? <==> unit in {Units.AreaGroup, Units.Area, Units.StadiumGroup}
  {
    match unit
    case All => Some(cube.all)
    case RegionGroup => Some(cube.regionGroups)
    case Region => Some(cube.regions)
    case Stadium => Some(cube.stadiums)
    case Court => Some(cube.courts)
    case _ => None
  }

  function Entities(cube: Cube): seq<Entity> {
    cube.all + cube.regionGroups + cube.regions + cube.stadiums + cube.courts
  }

  lemma InEntities(cube: Cube, e: Entity)
    requires e in Entities(cube)
    ensures e in cube.all || e in cube.regionGroups || e in cube.regions || e in cube.stadiums || e in cube.courts
  {
  }

  /** Each list holds entities of its own unit only. */
  lemma ListedUnderOwnUnit(k: nat, e: Entity)
    requires e in Entities(CubeOf(k))
    ensures EntitiesByUnit(CubeOf(k), e.unit).Some? && e in EntitiesByUnit(CubeOf(k), e.unit).value
  {
    var cube := CubeOf(k);
    InEntities(cube, e);
    if e in cube.regionGroups {
      var g := EntitiesAtMember(GroupEntity, GroupPositions(k), e);
    } else if e in cube.regions {
      var p := EntitiesAtMember(RegionEntity, RegionPositions(k), e);
    } else if e in cube.stadiums {
      var p := EntitiesAtMember(StadiumEntity, StadiumPositions(k), e);
    } else if e in cube.courts {
      var p := EntitiesAtMember(CourtEntity, CourtPositions(k), e);
    }
  }

  /** Ids are unique within each unit. */
  lemma IdsUniquePerUnit(k: nat, unit: Units.MeasurementUnit)
    requires EntitiesByUnit(CubeOf(k), unit).Some?
    ensures UniqueIds(EntitiesByUnit(CubeOf(k), unit).value)
  {
    match unit
    case RegionGroup => GroupsUnique(k);
    case Region => RegionsUnique(k);
    case Stadium => StadiumsUnique(k);
    case Court => CourtsUnique(k);
    case _ =>
  }

  /** So `entityKey` tells every entity of the cube apart, and the series
      map it indexes has one slot per entity. */
  lemma EntityKeysDistinct(k: nat, a: Entity, b: Entity)
    requires a in Entities(CubeOf(k)) && b in Entities(CubeOf(k))
    requires EntityKey(a) == EntityKey(b)
    ensures a == b
  {
    EntityKeyInjective(a, b);
    ListedUnderOwnUnit(k, a);
    ListedUnderOwnUnit(k, b);
    var l := EntitiesByUnit(CubeOf(k), a.unit).value;
    IdsUniquePerUnit(k, a.unit);
    var i, j :| 0 <= i < |l| && 0 <= j < |l| && l[i] == a && l[j] == b;
    assert l[i].id == l[j].id;
  }

  // ---------------------------------------------------------------------------
  // Filters

  /** `l.filter(keep)`. */
  function Where(l: seq<Entity>, keep: Entity -> bool): (r: seq<Entity>)
    ensures |r| <= |l|
  {
    if l == [] then [] else (if keep(l[0]) then [l[0]] else []) + Where(l[1..], keep)
  }

  /** A filter keeps exactly the entities that pass, in their order. */
  lemma {:induction false} WhereSpec(l: seq<Entity>, keep: Entity -> bool)
    ensures Text.IsSubsequence(Where(l, keep), l)
    ensures forall e :: e in Where(l, keep) <==> e in l && keep(e)
  {
    if l != [] {
      WhereSpec(l[1..], keep);
      assert l == [l[0]] + l[1..];
      var rest := Where(l[1..], keep);
      if keep(l[0]) {
        var r := [l[0]] + rest;
        assert r[1..] == rest;
      } else {
        assert Where(l, keep) == rest;
        assert rest == [] || Text.IsSubsequence(rest, l[1..]);
      }
    }
  }

  lemma {:induction false} WhereConcat(a: seq<Entity>, b: seq<Entity>, keep: Entity -> bool)
    ensures Where(a + b, keep) == Where(a, keep) + Where(b, keep)
  {
    if a != [] {
      assert (a + b)[1..] == a[1..] + b;
      WhereConcat(a[1..], b, keep);
    } else {
      assert a + b == b;
    }
  }

  lemma {:induction false} WhereAll(l: seq<Entity>, keep: Entity -> bool)
    requires forall e :: e in l ==> keep(e)
    ensures Where(l, keep) == l
  {
    if l != [] {
      assert forall e :: e in l[1..] ==> e in l;
      WhereAll(l[1..], keep);
    }
  }

  lemma {:induction false} WhereNone(l: seq<Entity>, keep: Entity -> bool)
    requires forall e :: e in l ==> !keep(e)
    ensures Where(l, keep) == []
  {
    if l != [] {
      assert forall e :: e in l[1..] ==> e in l;
      WhereNone(l[1..], keep);
    }
  }

  /** The parent ids `getChildEntities` may be given. */
  datatype Filters = Filters(regionGroupId: Option<string>, regionId: Option<string>)

  /** `!filters.x` is false only for a non-empty string. */
  predicate Given(id: Option<string>) {
    id.Some? && id.value != ""
  }

  /** `!filters.regionGroupId || item.regionGroupId === filters.regionGroupId`. */
  function InGroupFilter(filters: Filters): Entity -> bool {
    (e: Entity) => !Given(filters.regionGroupId) || e.regionGroupId == filters.regionGroupId
  }

  /** `!filters.regionId || item.regionId === filters.regionId`. */
  function InRegionFilter(filters: Filters): Entity -> bool {
    (e: Entity) => !Given(filters.regionId) || e.regionId == filters.regionId
  }

  /** `getChildEntities`: regions are filtered by their group, stadiums and
      courts by their region; every other unit gets its whole list. */
  function GetChildEntities(cube: Cube, unit: Units.MeasurementUnit, filters: Filters): (r: Option<seq<Entity>>)
    ensures r.None? <==> EntitiesByUnit(cube, unit).None?
    ensures unit !in {Units.Region, Units.Stadium, Units.Court} ==> r == EntitiesByUnit(cube, unit)
  {
    match unit
    case Region => Some(Where(cube.regions, InGroupFilter(filters)))
    case Stadium => Some(Where(cube.stadiums, InRegionFilter(filters)))
    case Court => Some(Where(cube.courts, InRegionFilter(filters)))
    case _ => EntitiesByUnit(cube, unit)
  }

  /** Without the parent filter a unit gets its whole list; with it, exactly
      the entities whose parent matches, in the order they were created. */
  lemma ChildEntitiesSpec(cube: Cube, unit: Units.MeasurementUnit, filters: Filters)
    requires unit in {Units.Region, Units.Stadium, Units.Court}
    ensures var all := EntitiesByUnit(cube, unit).value;
      var parent := if unit == Units.Region then filters.regionGroupId else filters.regionId;
      var r := GetChildEntities(cube, unit, filters).value;
      && (!Given(parent) ==> r == all)
      && Text.IsSubsequence(r, all)
      && (Given(parent) ==> forall e :: e in r <==>
            (e in all && (if unit == Units.Region then e.regionGroupId else e.regionId) == parent))
  {
    var all := EntitiesByUnit(cube, unit).value;
    var keep := if unit == Units.Region then InGroupFilter(filters) else InRegionFilter(filters);
    assert GetChildEntities(cube, unit, filters).value == Where(all, keep);
    WhereSpec(all, keep);
    var parent := if unit == Units.Region then filters.regionGroupId else filters.regionId;
    if !Given(parent) {
      WhereAll(all, keep);
    }
  }

  /** `item.stadiumId === stadiumId`. */
  function AtStadium(stadiumId: string): Entity -> bool {
    (e: Entity) => e.stadiumId == Some(stadiumId)
  }

  /** `getCourtsByStadium`. */
  function GetCourtsByStadium(cube: Cube, stadiumId: string): (r: seq<Entity>)
    ensures |r| <= |cube.courts|
  {
    Where(cube.courts, AtStadium(stadiumId))
  }

  /** The courts of stadium `(g, r, s)`. */
  function CourtsOfStadium(g: nat, r: nat, s: nat): seq<Entity> {
    EntitiesAt(CourtEntity, CourtPositionsOfStadium(g, r, s, CourtCount(s)))
  }

  predicate InStadium(p: CourtPos, g: nat, r: nat, s: nat) {
    p.g == g && p.r == r && p.s == s
  }

  /** No position of `ps` lies in stadium `(g, r, s)`. */
  predicate Outside(ps: seq<CourtPos>, g: nat, r: nat, s: nat) {
    forall p :: p in ps ==> !InStadium(p, g, r, s)
  }

  lemma AppendAssoc<T>(a: seq<T>, b: seq<T>, c: seq<T>)
    ensures (a + b) + c == a + (b + c)
  {
  }

  lemma OutsideConcat(a: seq<CourtPos>, b: seq<CourtPos>, g: nat, r: nat, s: nat)
    requires Outside(a, g, r, s) && Outside(b, g, r, s)
    ensures Outside(a + b, g, r, s)
  {
  }

  /** The first `k` stadiums of a region lie outside any later stadium of it,
      and another stadium's courts lie outside this one. */
  lemma OutsideStadiums(g: nat, r: nat, k: nat, s: nat)
    requires k <= s
    ensures Outside(CourtPositionsOfRegion(g, r, k), g, r, s)
  {
    forall p | p in CourtPositionsOfRegion(g, r, k) ensures !InStadium(p, g, r, s) { CourtInRegion(g, r, k, p); }
  }

  lemma OutsideOtherStadium(g: nat, r: nat, s2: nat, n: nat, s: nat)
    requires s2 != s
    ensures Outside(CourtPositionsOfStadium(g, r, s2, n), g, r, s)
  {
    forall p | p in CourtPositionsOfStadium(g, r, s2, n) ensures !InStadium(p, g, r, s) { CourtInStadium(g, r, s2, n, p); }
  }

  lemma OutsideRegions(g: nat, k: nat, r: nat, s: nat)
    requires k <= r
    ensures Outside(CourtPositionsOfGroup(g, k), g, r, s)
  {
    forall p | p in CourtPositionsOfGroup(g, k) ensures !InStadium(p, g, r, s) { CourtInGroup(g, k, p); }
  }

  lemma OutsideOtherRegion(g: nat, r2: nat, n: nat, r: nat, s: nat)
    requires r2 != r
    ensures Outside(CourtPositionsOfRegion(g, r2, n), g, r, s)
  {
    forall p | p in CourtPositionsOfRegion(g, r2, n) ensures !InStadium(p, g, r, s) { CourtInRegion(g, r2, n, p); }
  }

  lemma OutsideGroups(k: nat, g: nat, r: nat, s: nat)
    requires k <= g
    ensures Outside(CourtPositions(k), g, r, s)
  {
    forall p | p in CourtPositions(k) ensures !InStadium(p, g, r, s) { CourtIn(k, p); }
  }

  lemma OutsideOtherGroup(g2: nat, n: nat, g: nat, r: nat, s: nat)
    requires g2 != g
    ensures Outside(CourtPositionsOfGroup(g2, n), g, r, s)
  {
    forall p | p in CourtPositionsOfGroup(g2, n) ensures !InStadium(p, g, r, s) { CourtInGroup(g2, n, p); }
  }

  /** A region's courts are those of stadium `s`, with only other stadiums'
      courts before and after them. */
  lemma {:induction false} SplitRegion(g: nat, r: nat, s: nat, k: nat) returns (before: seq<CourtPos>, after: seq<CourtPos>)
    requires s < k
    ensures CourtPositionsOfRegion(g, r, k) == before + CourtPositionsOfStadium(g, r, s, CourtCount(s)) + after
    ensures Outside(before, g, r, s) && Outside(after, g, r, s)
  {
    var own := CourtPositionsOfStadium(g, r, s, CourtCount(s));
    var rest, last := CourtPositionsOfRegion(g, r, k - 1), CourtPositionsOfStadium(g, r, k - 1, CourtCount(k - 1));
    CourtsOfRegionStep(g, r, k);
    if s == k - 1 {
      before, after := rest, [];
      OutsideStadiums(g, r, k - 1, s);
    } else {
      var b, a := SplitRegion(g, r, s, k - 1);
      before, after := b, a + last;
      OutsideOtherStadium(g, r, k - 1, CourtCount(k - 1), s);
      OutsideConcat(a, last, g, r, s);
      AppendAssoc(b + own, a, last);
    }
  }

  lemma {:induction false} SplitGroup(g: nat, r: nat, s: nat, k: nat) returns (before: seq<CourtPos>, after: seq<CourtPos>)
    requires r < k && s < StadiumsPerRegion
    ensures CourtPositionsOfGroup(g, k) == before + CourtPositionsOfStadium(g, r, s, CourtCount(s)) + after
    ensures Outside(before, g, r, s) && Outside(after, g, r, s)
  {
    var own := CourtPositionsOfStadium(g, r, s, CourtCount(s));
    var rest, last := CourtPositionsOfGroup(g, k - 1), CourtPositionsOfRegion(g, k - 1, StadiumsPerRegion);
    CourtsOfGroupStep(g, k);
    if r == k - 1 {
      var b, a := SplitRegion(g, r, s, StadiumsPerRegion);
      before, after := rest + b, a;
      OutsideRegions(g, k - 1, r, s);
      OutsideConcat(rest, b, g, r, s);
      AppendAssoc(rest, b, own);
      AppendAssoc(rest, b + own, a);
    } else {
      var b, a := SplitGroup(g, r, s, k - 1);
      before, after := b, a + last;
      OutsideOtherRegion(g, k - 1, StadiumsPerRegion, r, s);
      OutsideConcat(a, last, g, r, s);
      AppendAssoc(b + own, a, last);
    }
  }

  lemma {:induction false} SplitAll(g: nat, r: nat, s: nat, k: nat) returns (before: seq<CourtPos>, after: seq<CourtPos>)
    requires g < k && r < RegionsPerGroup && s < StadiumsPerRegion
    ensures CourtPositions(k) == before + CourtPositionsOfStadium(g, r, s, CourtCount(s)) + after
    ensures Outside(before, g, r, s) && Outside(after, g, r, s)
  {
    var own := CourtPositionsOfStadium(g, r, s, CourtCount(s));
    var rest, last := CourtPositions(k - 1), CourtPositionsOfGroup(k - 1, RegionsPerGroup);
    CourtsStep(k);
    if g == k - 1 {
      var b, a := SplitGroup(g, r, s, RegionsPerGroup);
      before, after := rest + b, a;
      OutsideGroups(k - 1, g, r, s);
      OutsideConcat(rest, b, g, r, s);
      AppendAssoc(rest, b, own);
      AppendAssoc(rest, b + own, a);
    } else {
      var b, a := SplitAll(g, r, s, k - 1);
      before, after := b, a + last;
      OutsideOtherGroup(k - 1, RegionsPerGroup, g, r, s);
      OutsideConcat(a, last, g, r, s);
      AppendAssoc(b + own, a, last);
    }
  }

  /** A court passes the stadium filter exactly when it sits in that
      stadium, since stadium ids tell stadiums apart. */
  lemma AtStadiumCourt(g: nat, r: nat, s: nat, p: CourtPos)
    ensures AtStadium(StadiumId(g, r, s))(CourtEntity(p)) <==> InStadium(p, g, r, s)
  {
    if AtStadium(StadiumId(g, r, s))(CourtEntity(p)) { StadiumIdInjective(p.g, p.r, p.s, g, r, s); }
  }

  lemma OutsideDropped(ps: seq<CourtPos>, g: nat, r: nat, s: nat)
    requires Outside(ps, g, r, s)
    ensures forall e :: e in EntitiesAt(CourtEntity, ps) ==> !AtStadium(StadiumId(g, r, s))(e)
  {
    forall e | e in EntitiesAt(CourtEntity, ps)
      ensures !AtStadium(StadiumId(g, r, s))(e)
    {
      var p := EntitiesAtMember(CourtEntity, ps, e);
      AtStadiumCourt(g, r, s, p);
    }
  }

  /** A filter that drops everything around a block and keeps the block
      returns the block. */
  lemma WhereSandwich(a: seq<Entity>, x: seq<Entity>, b: seq<Entity>, keep: Entity -> bool)
    requires forall e :: e in a ==> !keep(e)
    requires forall e :: e in x ==> keep(e)
    requires forall e :: e in b ==> !keep(e)
    ensures Where(a + x + b, keep) == x
  {
    WhereConcat(a + x, b, keep);
    WhereConcat(a, x, keep);
    WhereNone(a, keep);
    WhereAll(x, keep);
    WhereNone(b, keep);
    assert [] + x + [] == x;
  }

  /** The stadium with index `s` of its region has `(s % 3) + 1` courts, and
      `getCourtsByStadium` returns exactly those, in creation order. */
  lemma CourtsByStadium(k: nat, g: nat, r: nat, s: nat)
    requires g < k && r < RegionsPerGroup && s < StadiumsPerRegion
    ensures GetCourtsByStadium(CubeOf(k), StadiumId(g, r, s)) == CourtsOfStadium(g, r, s)
    ensures |GetCourtsByStadium(CubeOf(k), StadiumId(g, r, s))| == s % 3 + 1
    ensures forall c :: 0 <= c < s % 3 + 1 ==>
      GetCourtsByStadium(CubeOf(k), StadiumId(g, r, s))[c] == CourtEntity(CourtPos(g, r, s, c))
  {
    var keep := AtStadium(StadiumId(g, r, s));
    var own := CourtPositionsOfStadium(g, r, s, CourtCount(s));
    var before, after := SplitAll(g, r, s, k);
    EntitiesAtConcat(CourtEntity, before + own, after);
    EntitiesAtConcat(CourtEntity, before, own);
    OutsideDropped(before, g, r, s);
    OutsideDropped(after, g, r, s);
    forall e | e in CourtsOfStadium(g, r, s)
      ensures keep(e)
    {
      var p := EntitiesAtMember(CourtEntity, own, e);
      CourtInStadium(g, r, s, CourtCount(s), p);
      AtStadiumCourt(g, r, s, p);
    }
    WhereSandwich(EntitiesAt(CourtEntity, before), CourtsOfStadium(g, r, s), EntitiesAt(CourtEntity, after), keep);
  }

  // ---------------------------------------------------------------------------
  // Series bounds

  /** `clamp`: `Math.min(max, Math.max(min, value))`. */
  function Clamp(value: real, min: real, max: real): (r: real)
    ensures min <= max ==> min <= r <= max
    ensures min <= value <= max ==> r == value
    ensures r == value || r == min || r == max
  {
    var low := if min > value then min else value;
    if max < low then max else low
  }
}
