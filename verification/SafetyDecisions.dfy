// What the person-safety policy decides in terms of the people around the robot: which
// distances and zones call for which level, who is named in the decision, and that a
// person too close always stops the robot.
module SafetyDecisions {
  import opened Common
  import Zones
  import opened TargetTracking
  import opened SafetyPolicy
  import opened SafetyRuns

  // ---------------------------------------------------------------- the people that count

  /** A confirmed or processed person, seen in the last update and not longer ago than the maximum age. */
  ghost predicate IsPresent(cfg: SafetyConfig, t: SafetyTarget, now: int) {
    && t.className == cfg.personClass && (t.state == Confirmed || t.state == Processed) && t.missed == 0
    && t.depthValid && t.positionFinite && 0 <= t.lastNs <= now
    && (now - t.lastNs) as real / 1000000000.0 <= cfg.maxAgeSec
  }

  /** A confirmed or processed person seen in the last update, whose record cannot be relied on. */
  ghost predicate IsUnreadable(cfg: SafetyConfig, t: SafetyTarget, now: int) {
    && t.className == cfg.personClass && (t.state == Confirmed || t.state == Processed) && t.missed == 0
    && !(t.depthValid && t.positionFinite && 0 <= t.lastNs <= now)
  }

  lemma ConsideredArePresent(cfg: SafetyConfig, t: SafetyTarget, now: int)
    ensures Considered(cfg, t, now) <==> IsPresent(cfg, t, now)
  {
    var limit := cfg.maxAgeSec * 1000000000.0;
    assert now - t.lastNs <= limit.Floor <==> (now - t.lastNs) as real <= limit;
  }

  lemma MalformedAreUnreadable(cfg: SafetyConfig, targets: seq<SafetyTarget>, now: int)
    ensures MalformedPerson(cfg, targets, now) <==> exists t | t in targets :: IsUnreadable(cfg, t, now)
  {
    if MalformedPerson(cfg, targets, now) {
      var i :| 0 <= i < |targets| && TrackedPerson(cfg, targets[i]) && MalformedTarget(targets[i], now);
      assert targets[i] in targets && IsUnreadable(cfg, targets[i], now);
    }
    if t :| t in targets && IsUnreadable(cfg, t, now) {
      var i :| 0 <= i < |targets| && targets[i] == t;
      assert TrackedPerson(cfg, targets[i]) && MalformedTarget(targets[i], now);
    }
  }

  // ---------------------------------------------------------------- one person

  /** The squared distance over ground. */
  function GroundSq(a: Position, b: Position): real {
    var dx, dy := a.x - b.x, a.y - b.y;
    dx * dx + dy * dy
  }

  ghost predicate CloserThan(robot: Position, p: Position, r: real) {
    GroundSq(robot, p) < r * r
  }

  ghost predicate NotBeyond(robot: Position, p: Position, r: real) {
    GroundSq(robot, p) <= r * r
  }

  ghost predicate InSomeDangerZone(zones: seq<Zones.Zone>, p: Position) {
    exists z | z in zones :: z.enabled && z.kind == "danger_zone" && Zones.ContainsPoint(z, Finite(p.x), Finite(p.y))
  }

  /** What a person calls for where `stop` and `slow` are the distances that count, and why. */
  ghost function CallsFor(t: SafetyTarget, input: Input, stop: real, slow: real): (Level, Reason) {
    if InSomeDangerZone(input.zones, t.position) then (Stop, PersonInDangerZone)
    else if CloserThan(input.robot, t.position, stop) then (Stop, PersonTooClose)
    else if NotBeyond(input.robot, t.position, slow) then (SpeedLimited, PersonNear)
    else (Clear, NoReason)
  }

  /** The distances that count at a level: both hystereses hold a STOP, the slow one any speed limit. */
  ghost predicate DistancesAt(cfg: SafetyConfig, level: Level, stop: real, slow: real) {
    match level
    case Clear => stop == cfg.stopDistance && slow == cfg.slowDistance
    case SpeedLimited => stop == cfg.stopDistance && slow == cfg.slowDistance + cfg.slowHysteresis
    case Stop => stop == cfg.stopDistance + cfg.stopHysteresis && slow == cfg.slowDistance + cfg.slowHysteresis
  }

  ghost predicate IsFirstDangerZone(zones: seq<Zones.Zone>, p: Position, i: nat)
    requires i < |zones|
  {
    InDangerZone(zones[i], p) && forall k | 0 <= k < i :: !InDangerZone(zones[k], p)
  }

  lemma {:induction false} FirstDangerZone(zones: seq<Zones.Zone>, p: Position)
    ensures var zone := DangerZoneAt(zones, p);
      zone.Some? ==> exists i | 0 <= i < |zones| :: IsFirstDangerZone(zones, p, i) && zones[i] == zone.value
  {
    hide InDangerZone;
    if zones != [] && !InDangerZone(zones[0], p) {
      FirstDangerZone(zones[1..], p);
      if DangerZoneAt(zones[1..], p).Some? {
        var i :| 0 <= i < |zones[1..]| && IsFirstDangerZone(zones[1..], p, i) && zones[1..][i] == DangerZoneAt(zones[1..], p).value;
        assert IsFirstDangerZone(zones, p, i + 1);
      }
    }
  }

  lemma DangerZoneMeans(zones: seq<Zones.Zone>, p: Position)
    ensures DangerZoneAt(zones, p).Some? <==> InSomeDangerZone(zones, p)
  {
    NoDangerZone(zones, p);
    hide Zones.ContainsPoint;
  }

  /** One person's assessment: what it calls for, and whom and where it names. */
  lemma AssessedAs(cfg: SafetyConfig, level: Level, t: SafetyTarget, input: Input, stop: real, slow: real)
    requires DistancesAt(cfg, level, stop, slow)
    ensures var d := Assess(cfg, level, t, input);
      && (d.level, d.reason) == CallsFor(t, input, stop, slow)
      && d.targetId == t.id && d.className == t.className && d.position == t.position && d.inputValid
      && d.distanceSq == GroundSq(input.robot, t.position)
      && (if d.reason == PersonInDangerZone
          then exists i | 0 <= i < |input.zones| :: IsFirstDangerZone(input.zones, t.position, i) && d.zoneId == input.zones[i].zoneId
          else d.zoneId == "")
  {
    FirstDangerZone(input.zones, t.position);
    DangerZoneMeans(input.zones, t.position);
    DistanceIsGround(input.robot, t.position);
    ThresholdsAre(cfg, level, stop, slow);
    hide PlanarDistanceSq, GroundSq, StopThreshold, SlowThreshold, InSomeDangerZone, DangerZoneAt, DistancesAt, IsFirstDangerZone;
  }

  lemma DistanceIsGround(a: Position, b: Position)
    ensures PlanarDistanceSq(a, b) == GroundSq(a, b)
  {
  }

  lemma ThresholdsAre(cfg: SafetyConfig, level: Level, stop: real, slow: real)
    requires DistancesAt(cfg, level, stop, slow)
    ensures StopThreshold(cfg, level) == stop && SlowThreshold(cfg, level) == slow
  {
  }

  // ---------------------------------------------------------------- the decision among all

  ghost predicate Readable(cfg: SafetyConfig, input: Input) {
    cfg.enabled && input.now >= 0 && input.robotFinite
  }

  function Severity(reason: Reason): nat {
    match reason case PersonInDangerZone => 3 case PersonTooClose => 2 case PersonNear => 1 case NoReason => 0
  }

  /** Person `t` is named: nobody present has a graver reason, nor the same reason and is nearer, nor as near with a lower id. */
  ghost predicate IsNamed(cfg: SafetyConfig, input: Input, stop: real, slow: real, t: SafetyTarget) {
    && t in input.targets && IsPresent(cfg, t, input.now)
    && forall u | u in input.targets && IsPresent(cfg, u, input.now) ::
         NoGraver(input, CallsFor(u, input, stop, slow).1, u, CallsFor(t, input, stop, slow).1, t)
  }

  ghost predicate NoGraver(input: Input, a: Reason, u: SafetyTarget, b: Reason, t: SafetyTarget) {
    var d, e := GroundSq(input.robot, u.position), GroundSq(input.robot, t.position);
    Severity(a) < Severity(b) || (a == b && (e < d || (e == d && t.id <= u.id)))
  }

  lemma NotMoreRestrictive(cfg: SafetyConfig, level: Level, input: Input, stop: real, slow: real, u: SafetyTarget, t: SafetyTarget)
    requires DistancesAt(cfg, level, stop, slow)
    requires !MoreRestrictive(Assess(cfg, level, u, input), Assess(cfg, level, t, input))
    ensures NoGraver(input, CallsFor(u, input, stop, slow).1, u, CallsFor(t, input, stop, slow).1, t)
  {
    AssessedAs(cfg, level, u, input, stop, slow);
    AssessedAs(cfg, level, t, input, stop, slow);
    hide Assess, GroundSq, InSomeDangerZone, CloserThan, NotBeyond, DistancesAt;
  }

  /**
   * A readable input is decided by the person with the gravest reason (danger zone, too close, near, none), the
   * nearest of these, the lowest id of those; the decision names that person and what that person calls for.
   */
  lemma DecisionNamesTheGravest(cfg: SafetyConfig, level: Level, input: Input, stop: real, slow: real)
    requires Readable(cfg, input) && DistancesAt(cfg, level, stop, slow)
    ensures var d := Classify(cfg, level, input).decision;
      if exists t | t in input.targets :: IsPresent(cfg, t, input.now) then
        exists t | IsNamed(cfg, input, stop, slow, t) ::
          && (d.level, d.reason) == CallsFor(t, input, stop, slow)
          && d.targetId == t.id && d.className == t.className && d.position == t.position
          && d.distanceSq == GroundSq(input.robot, t.position)
      else d == NoPerson(cfg)
  {
    hide Assess, Considered, MoreRestrictive, Select, IsPresent, CallsFor, MalformedPerson, DistancesAt, NoGraver, GroundSq;
    SelectChooses(cfg, level, input.targets, input);
    forall t | t in input.targets ensures Considered(cfg, t, input.now) <==> IsPresent(cfg, t, input.now) {
      ConsideredArePresent(cfg, t, input.now);
    }
    var best := Select(cfg, level, input.targets, input);
    if best.Some? {
      var t :| IsMostRestrictive(cfg, level, input.targets, input, t) && best.value == Assess(cfg, level, t, input);
      AssessedAs(cfg, level, t, input, stop, slow);
      forall u | u in input.targets && IsPresent(cfg, u, input.now)
        ensures NoGraver(input, CallsFor(u, input, stop, slow).1, u, CallsFor(t, input, stop, slow).1, t)
      {
        NotMoreRestrictive(cfg, level, input, stop, slow, u, t);
      }
      assert IsNamed(cfg, input, stop, slow, t);
    }
  }

  // ---------------------------------------------------------------- the level called for

  /** Somebody present is in a danger zone or closer than `stop`. */
  ghost predicate SomebodyStops(cfg: SafetyConfig, input: Input, stop: real) {
    exists t | t in input.targets && IsPresent(cfg, t, input.now) ::
      InSomeDangerZone(input.zones, t.position) || CloserThan(input.robot, t.position, stop)
  }

  /** Somebody present is in a danger zone or not beyond `slow`. */
  ghost predicate SomebodySlows(cfg: SafetyConfig, input: Input, slow: real) {
    exists t | t in input.targets && IsPresent(cfg, t, input.now) ::
      InSomeDangerZone(input.zones, t.position) || NotBeyond(input.robot, t.position, slow)
  }

  /** Grave reasons are the ones that stop, and any reason at all is one that slows. */
  lemma ReasonsOf(t: SafetyTarget, input: Input, stop: real, slow: real)
    ensures var (level, reason) := CallsFor(t, input, stop, slow);
      && (level == Stop <==> Severity(reason) >= 2) && (level == Clear <==> Severity(reason) == 0)
      && (level == Stop <==> InSomeDangerZone(input.zones, t.position) || CloserThan(input.robot, t.position, stop))
      && (level != Stop ==>
            (level != Clear <==> InSomeDangerZone(input.zones, t.position) || NotBeyond(input.robot, t.position, slow)))
  {
    hide GroundSq, InSomeDangerZone;
  }

  lemma LevelOfTheGravest(cfg: SafetyConfig, input: Input, stop: real, slow: real, t: SafetyTarget)
    requires IsNamed(cfg, input, stop, slow, t)
    ensures CallsFor(t, input, stop, slow).0 ==
            if SomebodyStops(cfg, input, stop) then Stop else if SomebodySlows(cfg, input, slow) then SpeedLimited else Clear
  {
    hide IsPresent, CallsFor, InSomeDangerZone, CloserThan, NotBeyond, GroundSq;
    ReasonsOf(t, input, stop, slow);
    forall u | u in input.targets && IsPresent(cfg, u, input.now)
      ensures Severity(CallsFor(u, input, stop, slow).1) <= Severity(CallsFor(t, input, stop, slow).1)
    {
    }
    if SomebodyStops(cfg, input, stop) {
      var u :| u in input.targets && IsPresent(cfg, u, input.now)
               && (InSomeDangerZone(input.zones, u.position) || CloserThan(input.robot, u.position, stop));
      ReasonsOf(u, input, stop, slow);
    } else if SomebodySlows(cfg, input, slow) {
      var u :| u in input.targets && IsPresent(cfg, u, input.now)
               && (InSomeDangerZone(input.zones, u.position) || NotBeyond(input.robot, u.position, slow));
      ReasonsOf(u, input, stop, slow);
    }
  }

  lemma LevelAt(cfg: SafetyConfig, level: Level, input: Input, stop: real, slow: real)
    requires Readable(cfg, input) && DistancesAt(cfg, level, stop, slow)
    ensures Classify(cfg, level, input).decision.level ==
            if SomebodyStops(cfg, input, stop) then Stop else if SomebodySlows(cfg, input, slow) then SpeedLimited else Clear
  {
    hide IsPresent, CallsFor, InSomeDangerZone, CloserThan, NotBeyond, Classify, DistancesAt, IsNamed, GroundSq;
    DecisionNamesTheGravest(cfg, level, input, stop, slow);
    if exists t | t in input.targets :: IsPresent(cfg, t, input.now) {
      var t :| IsNamed(cfg, input, stop, slow, t) && Classify(cfg, level, input).decision.level == CallsFor(t, input, stop, slow).0;
      LevelOfTheGravest(cfg, input, stop, slow, t);
    }
  }

  /**
   * The level a readable input calls for: STOP exactly if somebody present is in a danger zone or closer than the
   * stop distance (at STOP, plus its hysteresis), else SPEED_LIMITED exactly if somebody is not beyond the slow
   * distance (at SPEED_LIMITED and STOP, plus its hysteresis), else CLEAR.
   */
  lemma LevelCalledExactly(cfg: SafetyConfig, input: Input)
    requires Readable(cfg, input)
    ensures Classify(cfg, Clear, input).decision.level ==
            if SomebodyStops(cfg, input, cfg.stopDistance) then Stop
            else if SomebodySlows(cfg, input, cfg.slowDistance) then SpeedLimited else Clear
    ensures Classify(cfg, SpeedLimited, input).decision.level ==
            if SomebodyStops(cfg, input, cfg.stopDistance) then Stop
            else if SomebodySlows(cfg, input, cfg.slowDistance + cfg.slowHysteresis) then SpeedLimited else Clear
    ensures Classify(cfg, Stop, input).decision.level ==
            if SomebodyStops(cfg, input, cfg.stopDistance + cfg.stopHysteresis) then Stop
            else if SomebodySlows(cfg, input, cfg.slowDistance + cfg.slowHysteresis) then SpeedLimited else Clear
  {
    hide Classify, SomebodyStops, SomebodySlows, Readable;
    LevelAt(cfg, Clear, input, cfg.stopDistance, cfg.slowDistance);
    LevelAt(cfg, SpeedLimited, input, cfg.stopDistance, cfg.slowDistance + cfg.slowHysteresis);
    LevelAt(cfg, Stop, input, cfg.stopDistance + cfg.stopHysteresis, cfg.slowDistance + cfg.slowHysteresis);
  }

  // ---------------------------------------------------------------- what an evaluation ends at

  lemma FartherCounts(robot: Position, p: Position, r: real, more: real)
    requires r >= 0.0 && more >= 0.0
    ensures CloserThan(robot, p, r) ==> CloserThan(robot, p, r + more)
    ensures NotBeyond(robot, p, r) ==> NotBeyond(robot, p, r + more)
  {
    hide GroundSq;
    assert r * r <= (r + more) * (r + more);
  }

  /** A readable evaluation ends at the level it calls for or above, valid or not. */
  lemma NeverBelowCalled(cfg: SafetyConfig, s: PolicyState, input: Input)
    requires Readable(cfg, input)
    ensures Rank(AfterInput(cfg, s, input).decision.level) >= Rank(Classify(cfg, s.decision.level, input).decision.level)
  {
    hide Select, MalformedPerson, MoreRestrictive;
    SelectIsValid(cfg, s.decision.level, input.targets, input);
  }

  /** Whatever the policy decided before, a person who is too close or in a danger zone stops the robot at once. */
  lemma PersonTooCloseStops(cfg: SafetyConfig, s: PolicyState, input: Input, t: SafetyTarget)
    requires cfg.Valid() && Readable(cfg, input) && t in input.targets && IsPresent(cfg, t, input.now)
    requires InSomeDangerZone(input.zones, t.position) || CloserThan(input.robot, t.position, cfg.stopDistance)
    ensures AfterInput(cfg, s, input).decision.level == Stop
  {
    hide AfterInput, Classify, IsPresent, InSomeDangerZone, Readable, CloserThan;
    LevelCalledExactly(cfg, input);
    NeverBelowCalled(cfg, s, input);
    FartherCounts(input.robot, t.position, cfg.stopDistance, cfg.stopHysteresis);
    RankOfStop(AfterInput(cfg, s, input).decision.level);
    match s.decision.level
    case Clear =>
    case SpeedLimited =>
    case Stop =>
  }

  /** Likewise a person who is near lets no evaluation end CLEAR. */
  lemma PersonNearSlows(cfg: SafetyConfig, s: PolicyState, input: Input, t: SafetyTarget)
    requires cfg.Valid() && Readable(cfg, input) && t in input.targets && IsPresent(cfg, t, input.now)
    requires NotBeyond(input.robot, t.position, cfg.slowDistance)
    ensures AfterInput(cfg, s, input).decision.level != Clear
  {
    hide AfterInput, Classify, IsPresent, InSomeDangerZone, Readable, NotBeyond;
    LevelCalledExactly(cfg, input);
    NeverBelowCalled(cfg, s, input);
    FartherCounts(input.robot, t.position, cfg.slowDistance, cfg.slowHysteresis);
    match s.decision.level
    case Clear =>
    case SpeedLimited =>
    case Stop =>
  }

  /** The decision is about person `t`, who calls for it by the distances that count at `level`. */
  ghost predicate IsAbout(cfg: SafetyConfig, level: Level, input: Input, d: Decision, t: SafetyTarget) {
    exists stop, slow | DistancesAt(cfg, level, stop, slow) ::
      && IsNamed(cfg, input, stop, slow, t) && (d.level, d.reason) == CallsFor(t, input, stop, slow)
      && d.targetId == t.id && d.className == t.className && d.position == t.position
      && d.distanceSq == GroundSq(input.robot, t.position)
  }

  /**
   * An evaluation with somebody present ends with the decision it started from, or with one about the person this
   * input is decided by: with the latter whenever it is used and calls for no less than the level it started at.
   */
  lemma EvaluationNamesTheGravest(cfg: SafetyConfig, s: PolicyState, input: Input, p: SafetyTarget)
    requires Readable(cfg, input) && p in input.targets && IsPresent(cfg, p, input.now)
    ensures var after := AfterInput(cfg, s, input).decision;
      var called := Classify(cfg, s.decision.level, input).decision.level;
      && (after == s.decision.(inputValid := after.inputValid)
          || exists t | t in input.targets :: IsAbout(cfg, s.decision.level, input, after, t))
      && (ValidInput(cfg, s, input) && Rank(called) >= Rank(s.decision.level) ==>
            exists t | t in input.targets :: IsAbout(cfg, s.decision.level, input, after, t))
  {
    hide IsPresent, CallsFor, Classify, IsNamed, GroundSq, DistancesAt, ValidInput;
    var stop, slow := Distances(cfg, s.decision.level);
    DecisionNamesTheGravest(cfg, s.decision.level, input, stop, slow);
    var d := Classify(cfg, s.decision.level, input).decision;
    var t :| IsNamed(cfg, input, stop, slow, t) && (d.level, d.reason) == CallsFor(t, input, stop, slow)
             && d.targetId == t.id && d.className == t.className && d.position == t.position
             && d.distanceSq == GroundSq(input.robot, t.position);
    NamedIsThere(cfg, input, stop, slow, t);
    assert IsAbout(cfg, s.decision.level, input, d.(inputValid := true), t);
  }

  lemma Distances(cfg: SafetyConfig, level: Level) returns (stop: real, slow: real)
    ensures DistancesAt(cfg, level, stop, slow)
  {
    stop := if level == Stop then cfg.stopDistance + cfg.stopHysteresis else cfg.stopDistance;
    slow := if level == Clear then cfg.slowDistance else cfg.slowDistance + cfg.slowHysteresis;
  }

  lemma NamedIsThere(cfg: SafetyConfig, input: Input, stop: real, slow: real, t: SafetyTarget)
    requires IsNamed(cfg, input, stop, slow, t)
    ensures t in input.targets
  {
  }

  /**
   * An input is used exactly when the policy is off, or the input is readable and no person in it is unreadable
   * unless the others already call for a higher level than the policy is at.
   */
  lemma InputIsUsedExactly(cfg: SafetyConfig, s: PolicyState, input: Input)
    ensures ValidInput(cfg, s, input) <==>
            || !cfg.enabled
            || (Readable(cfg, input) &&
                ((exists t | t in input.targets :: IsUnreadable(cfg, t, input.now)) ==>
                   Rank(Classify(cfg, s.decision.level, input).decision.level) > Rank(s.decision.level)))
  {
    hide Select, MalformedPerson, IsUnreadable;
    SelectIsValid(cfg, s.decision.level, input.targets, input);
    MalformedAreUnreadable(cfg, input.targets, input.now);
  }

  /** A concrete case: with a stop distance of 0.8 m, one confirmed person 0.3 m away stops a policy at CLEAR. */
  lemma CloseIsTooClose(cfg: SafetyConfig)
    requires cfg.Valid() && cfg.enabled && cfg.stopDistance == 0.8
    ensures var t := SafetyTarget(1, cfg.personClass, Position(0.3, 0.0, 0.0), true, Confirmed, 5, 0, true);
      AfterInput(cfg, SafetyPolicy.Initial(cfg), Input([t], NOWHERE, true, [], 5)).decision.level == Stop
  {
    var t := SafetyTarget(1, cfg.personClass, Position(0.3, 0.0, 0.0), true, Confirmed, 5, 0, true);
    var input := Input([t], NOWHERE, true, [], 5);
    hide AfterInput;
    assert CloserThan(input.robot, t.position, cfg.stopDistance);
    PersonTooCloseStops(cfg, SafetyPolicy.Initial(cfg), input, t);
  }
}
