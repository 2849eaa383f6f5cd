// Evaluating the zones at a point (zone_catalog.cpp) and rasterising them into the keepout
// and speed masks of a map (zone_filter_masks.cpp).
module ZoneMasks {
  import opened Common
  import opened Zones

  // ---------------------------------------------------------------- zone kinds

  function LowerChar(c: char): char {
    if 'A' <= c <= 'Z' then (c as int - 'A' as int + 'a' as int) as char else c
  }

  function ToLower(s: string): string {
    seq(|s|, i requires 0 <= i < |s| => LowerChar(s[i]))
  }

  datatype Kind = Keepout | SpeedLimit | PreferredLane | DangerZone | Unsupported

  function KindOf(zone: Zone): Kind {
    var kind := ToLower(zone.kind);
    if kind == "keepout" then Keepout
    else if kind == "speed_limit" then SpeedLimit
    else if kind == "preferred_lane" then PreferredLane
    else if kind == "danger_zone" then DangerZone
    else Unsupported
  }

  datatype ZoneError = NoId | NoMap | NoKind | NoFrame | TooFewPoints | NonFinitePoint | BadKind | BadSpeedLimit

  function ValidateZone(zone: Zone): Option<ZoneError> {
    if zone.zoneId == "" then Some(NoId)
    else if zone.mapName == "" then Some(NoMap)
    else if zone.kind == "" then Some(NoKind)
    else if zone.frameId == "" then Some(NoFrame)
    else if |zone.xs| != |zone.ys| || |zone.xs| < 3 then Some(TooFewPoints)
    else if !AllFinite(zone) then Some(NonFinitePoint)
    else if KindOf(zone) == Unsupported then Some(BadKind)
    else if KindOf(zone) == SpeedLimit && zone.speedLimit <= 0.0 then Some(BadSpeedLimit)
    else None
  }

  /** A zone that loads is a polygon, so the even-odd rule decides it, and its limit, if it is one, applies. */
  lemma ValidZonesArePolygons(zone: Zone)
    requires ValidateZone(zone).None?
    ensures IsPolygon(zone) && KindOf(zone) != Unsupported
    ensures KindOf(zone) == SpeedLimit <==> Limits(zone)
  {
  }

  /** A zone loads exactly if it is named, mapped and framed, outlines a polygon, and is of a kind there is, with a limit if it needs one. */
  lemma ZonesLoadExactly(zone: Zone)
    ensures ValidateZone(zone).None? <==>
            && zone.zoneId != "" && zone.mapName != "" && zone.frameId != "" && IsPolygon(zone) && KindOf(zone) != Unsupported
            && (KindOf(zone) == SpeedLimit ==> zone.speedLimit > 0.0)
  {
    if zone.kind == "" {
      assert ToLower(zone.kind) == "";
    }
  }

  /** The kinds there are, in whatever mixture of upper and lower case they are spelt. */
  lemma KindsIgnoreCase(zone: Zone, name: string)
    requires |name| == |zone.kind| && forall i | 0 <= i < |name| :: name[i] == LowerChar(zone.kind[i])
    ensures KindOf(zone) ==
            if name == "keepout" then Keepout else if name == "speed_limit" then SpeedLimit
            else if name == "preferred_lane" then PreferredLane else if name == "danger_zone" then DangerZone else Unsupported
  {
    assert ToLower(zone.kind) == name;
  }

  // ---------------------------------------------------------------- evaluating a point

  predicate Matches(zone: Zone, mapName: string, x: Double, y: Double) {
    zone.enabled && zone.mapName == mapName && ContainsPoint(zone, x, y)
  }

  predicate Limits(zone: Zone) {
    KindOf(zone) == SpeedLimit && zone.speedLimit > 0.0
  }

  datatype ZoneEvaluation = ZoneEvaluation(allowed: bool, speedLimit: real, matched: seq<Zone>)

  function Evaluated(e: ZoneEvaluation, zone: Zone, mapName: string, x: Double, y: Double): ZoneEvaluation {
    if !Matches(zone, mapName, x, y) then e
    else ZoneEvaluation(
      e.allowed && KindOf(zone) != Keepout,
      if Limits(zone) then Min(e.speedLimit, zone.speedLimit) else e.speedLimit,
      e.matched + [zone])
  }

  function EvaluateFrom(e: ZoneEvaluation, zones: seq<Zone>, mapName: string, x: Double, y: Double): ZoneEvaluation
    decreases |zones|
  {
    if zones == [] then e
    else EvaluateFrom(Evaluated(e, zones[0], mapName, x, y), zones[1..], mapName, x, y)
  }

  function EvaluatePoint(zones: seq<Zone>, mapName: string, x: Double, y: Double, default: real): ZoneEvaluation {
    EvaluateFrom(ZoneEvaluation(true, default, []), zones, mapName, x, y)
  }

  /** ForMap: the enabled zones of one map. */
  method ForMap(zones: seq<Zone>, mapName: string) returns (found: seq<Zone>)
    ensures found == Filter(zones, (z: Zone) => z.enabled && z.mapName == mapName)
  {
    found := [];
    var keep := (z: Zone) => z.enabled && z.mapName == mapName;
    for i := 0 to |zones|
      invariant found + Filter(zones[i..], keep) == Filter(zones, keep)
    {
      assert zones[i..][1..] == zones[i + 1..];
      if zones[i].enabled && zones[i].mapName == mapName {
        found := found + [zones[i]];
      }
    }
    assert zones[|zones|..] == [];
  }

  method ComputeEvaluatePoint(zones: seq<Zone>, mapName: string, x: Double, y: Double, default: real)
    returns (e: ZoneEvaluation)
    ensures e == EvaluatePoint(zones, mapName, x, y, default)
  {
    hide EvaluateFrom, KindOf;
    var found := ForMap(zones, mapName);
    FilterKeeps(zones, (z: Zone) => z.enabled && z.mapName == mapName);
    e := ZoneEvaluation(true, default, []);
    for i := 0 to |found|
      invariant EvaluateFrom(e, found[i..], mapName, x, y) ==
                EvaluateFrom(ZoneEvaluation(true, default, []), found, mapName, x, y)
      invariant forall z | z in found :: z.enabled && z.mapName == mapName
    {
      EvaluateNext(e, found, i, mapName, x, y);
      assert found[i] in found;
      var contains := ComputeContainsPoint(found[i], x, y);
      if !contains {
        continue;
      }
      e := e.(matched := e.matched + [found[i]]);
      var kind := KindOf(found[i]);
      if kind == Keepout {
        e := e.(allowed := false);
      } else if kind == SpeedLimit && found[i].speedLimit > 0.0 {
        e := e.(speedLimit := Min(e.speedLimit, found[i].speedLimit));
      }
    }
    EvaluateEnd(e, found, mapName, x, y);
    EvaluateFiltered(ZoneEvaluation(true, default, []), zones, mapName, x, y);
  }

  lemma EvaluateNext(e: ZoneEvaluation, zones: seq<Zone>, i: nat, mapName: string, x: Double, y: Double)
    requires i < |zones|
    ensures EvaluateFrom(e, zones[i..], mapName, x, y) ==
            EvaluateFrom(Evaluated(e, zones[i], mapName, x, y), zones[i + 1..], mapName, x, y)
  {
    assert zones[i..][1..] == zones[i + 1..];
  }

  lemma EvaluateEnd(e: ZoneEvaluation, zones: seq<Zone>, mapName: string, x: Double, y: Double)
    ensures EvaluateFrom(e, zones[|zones|..], mapName, x, y) == e
  {
  }

  lemma {:induction false} EvaluateFiltered(e: ZoneEvaluation, zones: seq<Zone>, mapName: string, x: Double, y: Double)
    ensures EvaluateFrom(e, Filter(zones, (z: Zone) => z.enabled && z.mapName == mapName), mapName, x, y) ==
            EvaluateFrom(e, zones, mapName, x, y)
    decreases |zones|
  {
    hide KindOf, ContainsPoint;
    if zones != [] {
      EvaluateFiltered(Evaluated(e, zones[0], mapName, x, y), zones[1..], mapName, x, y);
    }
  }

  // ---------------------------------------------------------------- what the zones say at a point

  ghost predicate Forbidden(zones: seq<Zone>, mapName: string, x: Double, y: Double) {
    exists i | 0 <= i < |zones| :: Matches(zones[i], mapName, x, y) && KindOf(zones[i]) == Keepout
  }

  predicate LimitsHere(zone: Zone, mapName: string, x: Double, y: Double) {
    Matches(zone, mapName, x, y) && Limits(zone)
  }

  /** `v` is the least of the positive limits that apply, or there is none. */
  ghost predicate IsLowest(zones: seq<Zone>, mapName: string, x: Double, y: Double, v: Option<real>) {
    match v
    case None => forall i | 0 <= i < |zones| :: !LimitsHere(zones[i], mapName, x, y)
    case Some(low) =>
      && (forall i | 0 <= i < |zones| && LimitsHere(zones[i], mapName, x, y) :: low <= zones[i].speedLimit)
      && exists i | 0 <= i < |zones| :: LimitsHere(zones[i], mapName, x, y) && zones[i].speedLimit == low
  }

  function Lower(v: Option<real>, zone: Zone): Option<real> {
    Some(if v.None? then zone.speedLimit else Min(v.value, zone.speedLimit))
  }

  /** The least positive limit at a point. */
  function LowestLimit(zones: seq<Zone>, mapName: string, x: Double, y: Double): Option<real> {
    if zones == [] then None
    else
      var n := |zones| - 1;
      var v := LowestLimit(zones[..n], mapName, x, y);
      if LimitsHere(zones[n], mapName, x, y) then Lower(v, zones[n]) else v
  }

  lemma LowestNext(init: seq<Zone>, zone: Zone, mapName: string, x: Double, y: Double, v: Option<real>)
    requires IsLowest(init, mapName, x, y, v)
    ensures IsLowest(init + [zone], mapName, x, y, if LimitsHere(zone, mapName, x, y) then Lower(v, zone) else v)
  {
    hide LimitsHere;
    var all := init + [zone];
    assert all[|init|] == zone && forall i | 0 <= i < |init| :: all[i] == init[i];
    if v.Some? {
      var i :| 0 <= i < |init| && LimitsHere(init[i], mapName, x, y) && init[i].speedLimit == v.value;
      assert LimitsHere(all[i], mapName, x, y);
    }
  }

  lemma {:induction false} LowestIsLowest(zones: seq<Zone>, mapName: string, x: Double, y: Double)
    ensures IsLowest(zones, mapName, x, y, LowestLimit(zones, mapName, x, y))
  {
    if zones != [] {
      hide LimitsHere, IsLowest, Lower;
      var n := |zones| - 1;
      LowestIsLowest(zones[..n], mapName, x, y);
      LowestNext(zones[..n], zones[n], mapName, x, y, LowestLimit(zones[..n], mapName, x, y));
      assert zones[..n] + [zones[n]] == zones;
    }
  }

  lemma LowestIsUnique(zones: seq<Zone>, mapName: string, x: Double, y: Double, v: Option<real>, w: Option<real>)
    requires IsLowest(zones, mapName, x, y, v) && IsLowest(zones, mapName, x, y, w)
    ensures v == w
  {
    hide LimitsHere;
  }

  function Capped(default: real, v: Option<real>): real {
    if v.Some? then Min(default, v.value) else default
  }

  lemma {:induction false} EvaluateMeaning(e: ZoneEvaluation, zones: seq<Zone>, mapName: string, x: Double, y: Double)
    ensures var r := EvaluateFrom(e, zones, mapName, x, y);
      && (r.allowed <==> e.allowed && !Forbidden(zones, mapName, x, y))
      && r.speedLimit == Capped(e.speedLimit, LowestLimit(zones, mapName, x, y))
    decreases |zones|
  {
    hide KindOf, ContainsPoint, Limits;
    if zones != [] {
      var n := |zones| - 1;
      EvaluateMeaning(e, zones[..n], mapName, x, y);
      EvaluateLast(e, zones, mapName, x, y);
      assert forall i | 0 <= i < n :: zones[..n][i] == zones[i];
      ForbiddenLast(zones, mapName, x, y);
    }
  }

  lemma ForbiddenLast(zones: seq<Zone>, mapName: string, x: Double, y: Double)
    requires zones != []
    ensures var n := |zones| - 1;
      Forbidden(zones, mapName, x, y) <==>
      Forbidden(zones[..n], mapName, x, y) || (Matches(zones[n], mapName, x, y) && KindOf(zones[n]) == Keepout)
  {
    hide KindOf, Matches;
    var n := |zones| - 1;
    if Forbidden(zones[..n], mapName, x, y) {
      var i :| 0 <= i < n && Matches(zones[..n][i], mapName, x, y) && KindOf(zones[..n][i]) == Keepout;
      assert Matches(zones[i], mapName, x, y);
    }
    if Forbidden(zones, mapName, x, y) && !(Matches(zones[n], mapName, x, y) && KindOf(zones[n]) == Keepout) {
      var i :| 0 <= i < |zones| && Matches(zones[i], mapName, x, y) && KindOf(zones[i]) == Keepout;
      assert zones[..n][i] == zones[i];
    }
  }

  lemma {:induction false} EvaluateLast(e: ZoneEvaluation, zones: seq<Zone>, mapName: string, x: Double, y: Double)
    requires zones != []
    ensures var n := |zones| - 1;
      EvaluateFrom(e, zones, mapName, x, y) ==
      Evaluated(EvaluateFrom(e, zones[..n], mapName, x, y), zones[n], mapName, x, y)
    decreases |zones|
  {
    hide Evaluated;
    var n := |zones| - 1;
    if n > 0 {
      EvaluateLast(Evaluated(e, zones[0], mapName, x, y), zones[1..], mapName, x, y);
      assert zones[1..][..n - 1] == zones[..n][1..];
    }
  }

  /** EvaluatePoint allows a point unless a keepout zone matches, and caps the default by the least limit. */
  lemma EvaluatePointMeaning(zones: seq<Zone>, mapName: string, x: Double, y: Double, default: real, low: Option<real>)
    requires IsLowest(zones, mapName, x, y, low)
    ensures EvaluatePoint(zones, mapName, x, y, default).allowed <==> !Forbidden(zones, mapName, x, y)
    ensures EvaluatePoint(zones, mapName, x, y, default).speedLimit == Capped(default, low)
  {
    hide Forbidden, IsLowest;
    EvaluateMeaning(ZoneEvaluation(true, default, []), zones, mapName, x, y);
    LowestIsLowest(zones, mapName, x, y);
    LowestIsUnique(zones, mapName, x, y, low, LowestLimit(zones, mapName, x, y));
  }

  lemma {:induction false} MatchedFrom(e: ZoneEvaluation, zones: seq<Zone>, mapName: string, x: Double, y: Double)
    ensures EvaluateFrom(e, zones, mapName, x, y).matched ==
            e.matched + Filter(zones, (z: Zone) => z.enabled && z.mapName == mapName && ContainsPoint(z, x, y))
    decreases |zones|
  {
    hide KindOf, ContainsPoint, Limits;
    if zones != [] {
      MatchedFrom(Evaluated(e, zones[0], mapName, x, y), zones[1..], mapName, x, y);
    }
  }

  /** EvaluatePoint reports exactly the enabled zones of the map around the point, in their order. */
  lemma MatchedAre(zones: seq<Zone>, mapName: string, x: Double, y: Double, default: real)
    ensures EvaluatePoint(zones, mapName, x, y, default).matched ==
            Filter(zones, (z: Zone) => z.enabled && z.mapName == mapName && ContainsPoint(z, x, y))
  {
    hide EvaluateFrom, Filter;
    MatchedFrom(ZoneEvaluation(true, default, []), zones, mapName, x, y);
  }

  // ---------------------------------------------------------------- the masks

  datatype MapInfo = MapInfo(mapName: string, width: int, height: int, resolution: real, originX: real, originY: real) {
    predicate Valid() {
      width > 0 && height > 0 && resolution > 0.0
    }
  }

  function CellCenterX(info: MapInfo, col: int): real {
    info.originX + (col as real + 0.5) * info.resolution
  }

  function CellCenterY(info: MapInfo, row: int): real {
    info.originY + ((info.height - row) as real - 0.5) * info.resolution
  }

  /** The square of a cell, without its right and its lower side. */
  predicate InCell(info: MapInfo, row: int, col: int, x: real, y: real) {
    && CellCenterX(info, col) - info.resolution / 2.0 <= x < CellCenterX(info, col) + info.resolution / 2.0
    && CellCenterY(info, row) - info.resolution / 2.0 < y <= CellCenterY(info, row) + info.resolution / 2.0
  }

  /** The area of the map, from its origin in the lower left corner, without its right and its lower side. */
  predicate OnMap(info: MapInfo, x: real, y: real) {
    && info.originX <= x < info.originX + info.width as real * info.resolution
    && info.originY < y <= info.originY + info.height as real * info.resolution
  }

  /** Columns run to the right from the left side of the map, rows downward from its top, each one resolution further. */
  lemma CellSides(info: MapInfo, row: int, col: int)
    ensures CellCenterX(info, col) - info.resolution / 2.0 == info.originX + col as real * info.resolution
    ensures CellCenterX(info, col) + info.resolution / 2.0 == info.originX + (col + 1) as real * info.resolution
    ensures CellCenterY(info, row) + info.resolution / 2.0 ==
            info.originY + info.height as real * info.resolution - row as real * info.resolution
    ensures CellCenterY(info, row) - info.resolution / 2.0 ==
            info.originY + info.height as real * info.resolution - (row + 1) as real * info.resolution
  {
    var h, r, c, k := info.height as real, row as real, col as real, info.resolution;
    assert (info.height - row) as real == h - r && (row + 1) as real == r + 1.0 && (col + 1) as real == c + 1.0;
    assert (h - r - 0.5) * k == h * k - r * k - k / 2.0 && (r + 1.0) * k == r * k + k;
    assert (c + 0.5) * k == c * k + k / 2.0 && (c + 1.0) * k == c * k + k;
  }

  /** `n` steps of length `k`. */
  function Steps(n: int, k: real): real {
    n as real * k
  }

  /** `v` is at or past `n` steps, and not yet at one more. */
  predicate IsStep(v: real, k: real, n: int) {
    Steps(n, k) <= v < Steps(n + 1, k)
  }

  lemma StepsOf(v: real, k: real) returns (n: int)
    requires k > 0.0
    ensures IsStep(v, k, n)
  {
    var q := v / k;
    n := q.Floor;
    assert q * k == v;
    hide Steps;
    StepsAgainst(n, q, k);
    StepsAgainst(n + 1, q, k);
  }

  lemma StepsAgainst(n: int, q: real, k: real)
    requires k > 0.0
    ensures n as real <= q <==> Steps(n, k) <= q * k
  {
    Scaled(n as real, q, k);
  }

  lemma Scaled(a: real, b: real, k: real)
    requires k > 0.0
    ensures a <= b <==> a * k <= b * k
  {
    var d := b - a;
    assert d * k == b * k - a * k;
    assert d >= 0.0 ==> d * k >= 0.0;
    assert d < 0.0 ==> -d * k > 0.0;
  }

  lemma StepsOrder(a: int, b: int, k: real)
    requires k > 0.0
    ensures a <= b <==> Steps(a, k) <= Steps(b, k)
  {
    Scaled(a as real, b as real, k);
  }

  /** Every point of the map lies in exactly one cell of the grid, and every point of a cell of the grid on the map. */
  lemma EachPointHasItsCell(info: MapInfo, x: real, y: real) returns (row: int, col: int)
    requires info.Valid()
    ensures OnMap(info, x, y) <==> 0 <= row < info.height && 0 <= col < info.width
    ensures forall r, c :: InCell(info, r, c, x, y) <==> r == row && c == col
  {
    var k, top := info.resolution, info.originY + info.height as real * info.resolution;
    col := StepsOf(x - info.originX, k);
    row := StepsOf(top - y, k);
    hide CellCenterX, CellCenterY, InCell;
    forall r, c ensures InCell(info, r, c, x, y) <==> r == row && c == col {
      CellSteps(info, r, c, x, y);
      SameStep(x - info.originX, k, c, col);
      SameStep(top - y, k, r, row);
    }
    BoundedSteps(x - info.originX, k, col, info.width);
    BoundedSteps(top - y, k, row, info.height);
  }

  lemma CellSteps(info: MapInfo, row: int, col: int, x: real, y: real)
    ensures InCell(info, row, col, x, y) <==>
            && IsStep(x - info.originX, info.resolution, col)
            && IsStep(info.originY + info.height as real * info.resolution - y, info.resolution, row)
  {
    CellSides(info, row, col);
    hide CellCenterX, CellCenterY;
  }

  lemma SameStep(v: real, k: real, n: int, m: int)
    requires k > 0.0 && IsStep(v, k, m)
    ensures IsStep(v, k, n) <==> n == m
  {
    hide Steps;
    StepsOrder(m + 1, n, k);
    StepsOrder(n + 1, m, k);
  }

  lemma BoundedSteps(v: real, k: real, n: int, size: int)
    requires k > 0.0 && IsStep(v, k, n)
    ensures 0.0 <= v < size as real * k <==> 0 <= n < size
  {
    assert Steps(0, k) == 0.0 && Steps(size, k) == size as real * k;
    hide Steps;
    StepsOrder(0, n, k);
    StepsOrder(n + 1, 0, k);
    StepsOrder(size, n, k);
    StepsOrder(n + 1, size, k);
  }

  /** Narrowing to a 32-bit int keeps the low bits. */
  function ToInt32(v: int): int {
    var u := v % 0x1_0000_0000;
    if u < 0x8000_0000 then u else u - 0x1_0000_0000
  }

  function SpeedLimitToMaskValue(limit: real): int {
    if limit <= 0.0 then 0
    else
      var v := ToInt32(LRound(limit * 100.0));
      if v < 1 then 1 else if v > 100 then 100 else v
  }

  /** The inner zone loop for one cell; `limit` stays 0 while no limit applies. */
  method RasteriseCell(info: MapInfo, zones: seq<Zone>, x: Double, y: Double) returns (keepout: bool, limit: real)
    ensures keepout <==> Forbidden(zones, info.mapName, x, y)
    ensures var low := LowestLimit(zones, info.mapName, x, y);
      limit == (if low.Some? then low.value else 0.0) && (low.Some? ==> low.value > 0.0)
  {
    hide KindOf, ContainsPoint, Forbidden;
    keepout, limit := false, 0.0;
    NothingForbidden(info.mapName, x, y);
    for i := 0 to |zones|
      invariant keepout <==> Forbidden(zones[..i], info.mapName, x, y)
      invariant var low := LowestLimit(zones[..i], info.mapName, x, y);
        limit == (if low.Some? then low.value else 0.0) && (low.Some? ==> low.value > 0.0)
    {
      assert zones[..i + 1][..i] == zones[..i] && zones[..i + 1][i] == zones[i];
      ForbiddenLast(zones[..i + 1], info.mapName, x, y);
      var contains := ComputeContainsPoint(zones[i], x, y);
      if !zones[i].enabled || zones[i].mapName != info.mapName || !contains {
        continue;
      }
      var kind := KindOf(zones[i]);
      if kind == Keepout {
        keepout := true;
      } else if kind == SpeedLimit && zones[i].speedLimit > 0.0 {
        limit := if limit <= 0.0 then zones[i].speedLimit else Min(limit, zones[i].speedLimit);
      }
    }
    assert zones[..|zones|] == zones;
  }

  lemma NothingForbidden(mapName: string, x: Double, y: Double)
    ensures !Forbidden([], mapName, x, y) && LowestLimit([], mapName, x, y) == None
  {
  }

  function MaskOf(low: Option<real>): int {
    if low.Some? then SpeedLimitToMaskValue(low.value) else 0
  }

  /** The keepout value the zones call for in a cell, counted row by row. */
  ghost function KeepoutValue(info: MapInfo, zones: seq<Zone>, row: int, col: int): int {
    if Forbidden(zones, info.mapName, Finite(CellCenterX(info, col)), Finite(CellCenterY(info, row))) then 100 else 0
  }

  ghost function SpeedValue(info: MapInfo, zones: seq<Zone>, row: int, col: int): int {
    MaskOf(LowestLimit(zones, info.mapName, Finite(CellCenterX(info, col)), Finite(CellCenterY(info, row))))
  }

  function NonZero(s: seq<int>): nat {
    if s == [] then 0 else NonZero(s[..|s| - 1]) + if s[|s| - 1] != 0 then 1 else 0
  }

  datatype MaskGrid = MaskGrid(width: int, height: int, keepout: seq<int>, speed: seq<int>, keepoutCells: int, speedLimitCells: int)

  ghost predicate RightSoFar(info: MapInfo, zones: seq<Zone>, keepout: seq<int>, speed: seq<int>, n: nat)
    requires info.Valid()
  {
    && n <= |keepout| == |speed|
    && (forall k | 0 <= k < n ::
          keepout[k] == KeepoutValue(info, zones, k / info.width, k % info.width)
          && speed[k] == SpeedValue(info, zones, k / info.width, k % info.width))
    && (forall k | n <= k < |keepout| :: keepout[k] == 0 && speed[k] == 0)
  }

  lemma MultipleIsFar(d: int, w: int)
    requires w > 0
    ensures d >= 1 ==> d * w >= w
    ensures d <= -1 ==> d * w <= -w
  {
  }

  lemma RowAndColumn(row: nat, col: nat, width: nat)
    requires col < width
    ensures (row * width + col) / width == row && (row * width + col) % width == col
  {
    var n := row * width + col;
    var q, r := n / width, n % width;
    assert q * width + r == n;
    assert (q - row) * width == q * width - row * width;
    MultipleIsFar(q - row, width);
  }

  /** None stands for the exception thrown on invalid map metadata. */
  method BuildZoneFilterMaskGrid(info: MapInfo, zones: seq<Zone>) returns (grid: Option<MaskGrid>)
    ensures grid.Some? <==> info.Valid()
    ensures grid.Some? ==>
              var g := grid.value;
              && g.width == info.width && g.height == info.height && |g.keepout| == info.width * info.height
              && RightSoFar(info, zones, g.keepout, g.speed, |g.keepout|)
              && g.keepoutCells == NonZero(g.keepout) && g.speedLimitCells == NonZero(g.speed)
  {
    hide KeepoutValue, SpeedValue, RightSoFar, NonZero;
    if info.width <= 0 || info.height <= 0 || info.resolution <= 0.0 {
      return None;
    }
    SizeIsNatural(info.width, info.height);
    var size: nat := info.width * info.height;
    var keepout, speed := seq(size, _ => 0), seq(size, _ => 0);
    var keepoutCells, speedCells := 0, 0;
    BlankMask(info, zones, keepout, speed);
    ghost var start: nat := 0;
    for row := 0 to info.height
      invariant start == row * info.width && |keepout| == |speed| == size
      invariant row < info.height ==> start + info.width <= size
      invariant row == info.height ==> start == size
      invariant FilledTo(info, zones, keepout, speed, keepoutCells, speedCells, start)
    {
      for col := 0 to info.width
        invariant |keepout| == |speed| == size
        invariant FilledTo(info, zones, keepout, speed, keepoutCells, speedCells, start + col)
      {
        keepout, speed, keepoutCells, speedCells :=
          FillCell(info, zones, row, col, keepout, speed, keepoutCells, speedCells, start + col);
      }
      NextRow(row, info.width, info.height);
      start := start + info.width;
    }
    assert keepout[..size] == keepout && speed[..size] == speed;
    grid := Some(MaskGrid(info.width, info.height, keepout, speed, keepoutCells, speedCells));
  }

  ghost predicate FilledTo(info: MapInfo, zones: seq<Zone>, keepout: seq<int>, speed: seq<int>,
                           keepoutCells: int, speedCells: int, n: nat)
    requires info.Valid()
  {
    && RightSoFar(info, zones, keepout, speed, n)
    && keepoutCells == NonZero(keepout[..n]) && speedCells == NonZero(speed[..n])
  }

  lemma BlankMask(info: MapInfo, zones: seq<Zone>, keepout: seq<int>, speed: seq<int>)
    requires info.Valid() && |keepout| == |speed|
    requires forall k | 0 <= k < |keepout| :: keepout[k] == 0 && speed[k] == 0
    ensures FilledTo(info, zones, keepout, speed, 0, 0, 0)
  {
  }

  lemma SizeIsNatural(width: int, height: int)
    requires width > 0 && height > 0
    ensures width * height >= width
  {
    assert width * height == width + width * (height - 1);
  }

  lemma NextRow(row: nat, width: nat, height: nat)
    requires row < height
    ensures row * width + width == (row + 1) * width
    ensures row + 1 < height ==> (row + 1) * width + width <= width * height
    ensures row + 1 == height ==> (row + 1) * width == width * height
  {
    if row + 1 < height {
      var k := height - row - 2;
      assert width * height == (row + 1) * width + width + k * width;
    }
  }

  /** The body of the cell loop. */
  method FillCell(info: MapInfo, zones: seq<Zone>, row: nat, col: nat, keepout: seq<int>, speed: seq<int>,
                  keepoutCells: int, speedCells: int, ghost n: nat)
    returns (keepout': seq<int>, speed': seq<int>, keepoutCells': int, speedCells': int)
    requires info.Valid() && col < info.width && n == row * info.width + col && n < |keepout| == |speed|
    requires FilledTo(info, zones, keepout, speed, keepoutCells, speedCells, n)
    ensures |keepout'| == |keepout| == |speed'|
    ensures FilledTo(info, zones, keepout', speed', keepoutCells', speedCells', n + 1)
  {
    hide RightSoFar, NonZero;
    keepout', speed', keepoutCells', speedCells' := keepout, speed, keepoutCells, speedCells;
    var x, y := Finite(CellCenterX(info, col)), Finite(CellCenterY(info, row));
    var forbidden, limit := RasteriseCell(info, zones, x, y);
    hide Forbidden, LowestLimit, CellCenterX, CellCenterY;
    var index := row * info.width + col;
    var value := SpeedLimitToMaskValue(limit);
    MaskNotNegative(limit);
    UnfilledIsZero(info, zones, keepout, speed, n);
    if forbidden {
      keepout' := keepout'[index := 100];
      keepoutCells' := keepoutCells' + 1;
    }
    if value > 0 {
      speed' := speed'[index := value];
      speedCells' := speedCells' + 1;
    }
    assert keepout'[n] == KeepoutValue(info, zones, row, col) && speed'[n] == SpeedValue(info, zones, row, col);
    hide SpeedLimitToMaskValue, KeepoutValue, SpeedValue;
    RowAndColumn(row, col, info.width);
    NonZeroNext(keepout, keepout', n);
    NonZeroNext(speed, speed', n);
    OneMoreRight(info, zones, keepout, speed, keepout', speed', n);
  }

  lemma UnfilledIsZero(info: MapInfo, zones: seq<Zone>, keepout: seq<int>, speed: seq<int>, n: nat)
    requires info.Valid() && RightSoFar(info, zones, keepout, speed, n) && n < |keepout|
    ensures keepout[n] == 0 && speed[n] == 0
  {
  }

  lemma MaskNotNegative(limit: real)
    ensures SpeedLimitToMaskValue(limit) >= 0
  {
  }

  lemma NonZeroNext(before: seq<int>, after: seq<int>, n: nat)
    requires n < |before| == |after| && forall k | 0 <= k < n :: after[k] == before[k]
    ensures NonZero(after[..n + 1]) == NonZero(before[..n]) + if after[n] != 0 then 1 else 0
  {
    assert after[..n + 1][..n] == before[..n];
  }

  lemma OneMoreRight(info: MapInfo, zones: seq<Zone>, keepout: seq<int>, speed: seq<int>, keepout': seq<int>, speed': seq<int>, n: nat)
    requires info.Valid() && n < |keepout| == |keepout'| == |speed'| && RightSoFar(info, zones, keepout, speed, n)
    requires forall k | 0 <= k < |keepout| && k != n :: keepout'[k] == keepout[k] && speed'[k] == speed[k]
    requires keepout'[n] == KeepoutValue(info, zones, n / info.width, n % info.width)
    requires speed'[n] == SpeedValue(info, zones, n / info.width, n % info.width)
    ensures RightSoFar(info, zones, keepout', speed', n + 1)
  {
    hide KeepoutValue, SpeedValue;
  }

  // ---------------------------------------------------------------- the masks against the point query

  /**
   * In every cell the keepout mask is 100 exactly when EvaluatePoint forbids the cell centre, and the
   * speed mask is the quantised least limit that caps EvaluatePoint's speed, or 0 if there is none.
   */
  lemma MasksAgreeWithEvaluatePoint(info: MapInfo, zones: seq<Zone>, row: int, col: int, default: real, low: Option<real>)
    requires IsLowest(zones, info.mapName, Finite(CellCenterX(info, col)), Finite(CellCenterY(info, row)), low)
    ensures var e := EvaluatePoint(zones, info.mapName, Finite(CellCenterX(info, col)), Finite(CellCenterY(info, row)), default);
      && KeepoutValue(info, zones, row, col) == (if e.allowed then 0 else 100)
      && SpeedValue(info, zones, row, col) == MaskOf(low)
      && e.speedLimit == Capped(default, low)
  {
    hide Forbidden, IsLowest, MaskOf, CellCenterX, CellCenterY;
    var x, y := Finite(CellCenterX(info, col)), Finite(CellCenterY(info, row));
    EvaluatePointMeaning(zones, info.mapName, x, y, default, low);
    LowestIsLowest(zones, info.mapName, x, y);
    LowestIsUnique(zones, info.mapName, x, y, low, LowestLimit(zones, info.mapName, x, y));
  }

  ghost predicate SameZones(a: seq<Zone>, b: seq<Zone>) {
    forall z :: z in a <==> z in b
  }

  lemma ForbiddenIgnoresOrder(a: seq<Zone>, b: seq<Zone>, mapName: string, x: Double, y: Double)
    requires SameZones(a, b) && Forbidden(a, mapName, x, y)
    ensures Forbidden(b, mapName, x, y)
  {
    hide Matches, KindOf;
    var i :| 0 <= i < |a| && Matches(a[i], mapName, x, y) && KindOf(a[i]) == Keepout;
    assert a[i] in b;
    var j :| 0 <= j < |b| && b[j] == a[i];
  }

  lemma LowestIgnoresOrder(a: seq<Zone>, b: seq<Zone>, mapName: string, x: Double, y: Double, v: Option<real>)
    requires SameZones(a, b) && IsLowest(a, mapName, x, y, v)
    ensures IsLowest(b, mapName, x, y, v)
  {
    hide LimitsHere;
    forall j | 0 <= j < |b|
      ensures b[j] in a
    {
    }
    if v.Some? {
      var i :| 0 <= i < |a| && LimitsHere(a[i], mapName, x, y) && a[i].speedLimit == v.value;
      assert a[i] in b;
      var j :| 0 <= j < |b| && b[j] == a[i];
    }
  }

  /** The masks depend on which zones there are, not on their order. */
  lemma MasksIgnoreZoneOrder(info: MapInfo, a: seq<Zone>, b: seq<Zone>, row: int, col: int)
    requires SameZones(a, b)
    ensures KeepoutValue(info, a, row, col) == KeepoutValue(info, b, row, col)
    ensures SpeedValue(info, a, row, col) == SpeedValue(info, b, row, col)
  {
    hide Forbidden, IsLowest, MaskOf, CellCenterX, CellCenterY;
    var x, y := Finite(CellCenterX(info, col)), Finite(CellCenterY(info, row));
    if Forbidden(a, info.mapName, x, y) {
      ForbiddenIgnoresOrder(a, b, info.mapName, x, y);
    }
    if Forbidden(b, info.mapName, x, y) {
      ForbiddenIgnoresOrder(b, a, info.mapName, x, y);
    }
    LowestIsLowest(a, info.mapName, x, y);
    LowestIsLowest(b, info.mapName, x, y);
    LowestIgnoresOrder(a, b, info.mapName, x, y, LowestLimit(a, info.mapName, x, y));
    LowestIsUnique(b, info.mapName, x, y, LowestLimit(a, info.mapName, x, y), LowestLimit(b, info.mapName, x, y));
  }

  // ---------------------------------------------------------------- quantisation

  /** The mask value meant: the limit in hundredths of m/s, kept between 1 and 100. */
  function Quantised(limit: real): int {
    var v := LRound(limit * 100.0);
    if v < 1 then 1 else if v > 100 then 100 else v
  }

  /** The narrowing does no harm: the hundredths are below 100, or their low 32 bits are a signed int of at least 100. */
  predicate Survives(limit: real) {
    var v := LRound(limit * 100.0);
    v < 100 || 100 <= v % 0x1_0000_0000 < 0x8000_0000
  }

  /** A positive limit gets the mask value meant exactly when it survives the narrowing. */
  lemma MaskValueExactly(limit: real)
    requires limit > 0.0
    ensures SpeedLimitToMaskValue(limit) == Quantised(limit) <==> Survives(limit)
    ensures 1 <= SpeedLimitToMaskValue(limit) <= 100
  {
    assert LRound(limit * 100.0) >= 0;
  }

  /** The mask value meant is the nearest hundredth. */
  lemma QuantisedMeaning(limit: real)
    requires limit > 0.0
    ensures var v := Quantised(limit);
      && (limit >= 1.0 ==> v == 100)
      && (limit <= 0.01 ==> v == 1)
      && (0.01 <= limit <= 1.0 ==> -0.005 <= v as real / 100.0 - limit <= 0.005)
  {
  }

  lemma QuantisedMonotone(a: real, b: real)
    requires a <= b
    ensures Quantised(a) <= Quantised(b)
  {
  }

  lemma MaskValueMonotone(a: real, b: real)
    requires 0.0 < a <= b && Survives(b)
    ensures SpeedLimitToMaskValue(a) <= SpeedLimitToMaskValue(b)
  {
    hide Survives, Quantised;
    MaskAtMostQuantised(a);
    MaskValueExactly(b);
    QuantisedMonotone(a, b);
  }

  lemma MaskAtMostQuantised(limit: real)
    requires limit > 0.0
    ensures SpeedLimitToMaskValue(limit) <= Quantised(limit)
  {
    assert LRound(limit * 100.0) >= 0;
  }

  lemma HugeIsBelowOne(b: real)
    requires b > 0.0 && !Survives(b)
    ensures b >= 1.0 && SpeedLimitToMaskValue(b) < 100 && SpeedLimitToMaskValue(1.0) == 100
  {
    assert LRound(b * 100.0) >= 100;
    assert LRound(100.0) == 100;
  }

  ghost predicate MaskedAboveAllBelow(b: real) {
    forall a | 0.0 < a <= b :: SpeedLimitToMaskValue(a) <= SpeedLimitToMaskValue(b)
  }

  /** A limit is masked no lower than every smaller limit exactly when it survives the narrowing. */
  lemma MonotoneExactly(b: real)
    requires b > 0.0
    ensures MaskedAboveAllBelow(b) <==> Survives(b)
  {
    hide Survives, SpeedLimitToMaskValue;
    if Survives(b) {
      forall a | 0.0 < a <= b ensures SpeedLimitToMaskValue(a) <= SpeedLimitToMaskValue(b) {
        MaskValueMonotone(a, b);
      }
    } else {
      HugeIsBelowOne(b);
    }
  }

  /** The int the cast leaves of the hundredths. */
  function Narrowed(limit: real): int {
    ToInt32(LRound(limit * 100.0))
  }

  /** The narrowed hundredths of two limits order their mask values: as they are, or both ends clamped. */
  predicate KeepsOrder(a: real, b: real) {
    Narrowed(a) <= Narrowed(b) || Narrowed(b) >= 100 || Narrowed(a) <= 1
  }

  lemma MasksOrderedExactly(a: real, b: real)
    requires a > 0.0 && b > 0.0
    ensures SpeedLimitToMaskValue(a) <= SpeedLimitToMaskValue(b) <==> KeepsOrder(a, b)
  {
    hide LRound, ToInt32;
  }

  /** The quantised minimum of two limits is the minimum of the quantised ones exactly when their narrowed hundredths keep order. */
  lemma QuantisedMinimum(a: real, b: real)
    requires a > 0.0 && b > 0.0
    ensures SpeedLimitToMaskValue(Min(a, b)) ==
            (if SpeedLimitToMaskValue(b) < SpeedLimitToMaskValue(a) then SpeedLimitToMaskValue(b) else SpeedLimitToMaskValue(a))
            <==> KeepsOrder(Min(a, b), Max(a, b))
  {
    hide SpeedLimitToMaskValue, KeepsOrder;
    MasksOrderedExactly(Min(a, b), Max(a, b));
  }

  /** A surviving limit keeps the order of every smaller one. */
  lemma SurvivingKeepsOrder(a: real, b: real)
    requires 0.0 < a <= b && Survives(b)
    ensures KeepsOrder(a, b)
  {
    hide Survives, SpeedLimitToMaskValue, KeepsOrder;
    MaskValueMonotone(a, b);
    MasksOrderedExactly(a, b);
  }

  /** A speed mask is the value of a limit that applies, and the least such value exactly when the least limit keeps order with the others. */
  lemma MaskIsLeastQuantisedLimit(zones: seq<Zone>, mapName: string, x: Double, y: Double, low: real)
    requires IsLowest(zones, mapName, x, y, Some(low))
    ensures exists i | 0 <= i < |zones| :: LimitsHere(zones[i], mapName, x, y)
              && MaskOf(Some(low)) == SpeedLimitToMaskValue(zones[i].speedLimit)
    ensures (forall i | 0 <= i < |zones| && LimitsHere(zones[i], mapName, x, y) ::
               MaskOf(Some(low)) <= SpeedLimitToMaskValue(zones[i].speedLimit)) <==>
            (forall i | 0 <= i < |zones| && LimitsHere(zones[i], mapName, x, y) :: KeepsOrder(low, zones[i].speedLimit))
  {
    hide SpeedLimitToMaskValue, KeepsOrder, Matches, KindOf;
    var k :| 0 <= k < |zones| && LimitsHere(zones[k], mapName, x, y) && zones[k].speedLimit == low;
    forall i | 0 <= i < |zones| && LimitsHere(zones[i], mapName, x, y)
      ensures MaskOf(Some(low)) <= SpeedLimitToMaskValue(zones[i].speedLimit) <==> KeepsOrder(low, zones[i].speedLimit)
    {
      MasksOrderedExactly(low, zones[i].speedLimit);
    }
  }

  /** Beyond that range the narrowing shows: a limit of 42949672.97 m/s is masked like one of 0.01 m/s. */
  lemma HugeLimitsWrap()
    ensures SpeedLimitToMaskValue(42949672.97) == 1 && SpeedLimitToMaskValue(42.0) == 100
  {
    assert LRound(42949672.97 * 100.0) == 4294967297;
    assert LRound(42.0 * 100.0) == 4200;
  }
}
