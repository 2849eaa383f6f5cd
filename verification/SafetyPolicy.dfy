// The person-safety policy of perception_safety_policy.cpp.  Distances are compared
// squared; a position that is not finite is flagged.
module SafetyPolicy {
  import opened Common
  import Zones
  import opened TargetTracking

  datatype Level = Clear | SpeedLimited | Stop

  datatype Reason = NoReason | PersonNear | PersonTooClose | PersonInDangerZone

  function Rank(level: Level): nat {
    match level case Clear => 0 case SpeedLimited => 1 case Stop => 2
  }

  function ReasonRank(reason: Reason): nat {
    match reason case NoReason => 0 case PersonNear => 1 case PersonTooClose => 2 case PersonInDangerZone => 3
  }

  // ---------------------------------------------------------------- configuration

  datatype RawSafetyConfig = RawSafetyConfig(
    enabled: bool, personClass: string, slowDistance: Double, stopDistance: Double,
    clearObservations: nat, stopHysteresis: Double, slowHysteresis: Double, maxAgeSec: Double)
  {
    predicate Finite() {
      && slowDistance.Finite? && stopDistance.Finite? && stopHysteresis.Finite? && slowHysteresis.Finite?
      && maxAgeSec.Finite?
    }

    function Plain(): SafetyConfig
      requires Finite()
    {
      SafetyConfig(enabled, personClass, slowDistance.value, stopDistance.value, clearObservations,
                   stopHysteresis.value, slowHysteresis.value, maxAgeSec.value)
    }
  }

  datatype SafetyConfig = SafetyConfig(
    enabled: bool, personClass: string, slowDistance: real, stopDistance: real,
    clearObservations: nat, stopHysteresis: real, slowHysteresis: real, maxAgeSec: real)
  {
    predicate Valid() {
      && personClass != "" && 0.0 < stopDistance < slowDistance && clearObservations > 0
      && stopHysteresis >= 0.0 && slowHysteresis >= 0.0 && maxAgeSec > 0.0
    }
  }

  /** The constructor's checks; None is the thrown invalid_argument. */
  function AcceptSafety(raw: RawSafetyConfig): (cfg: Option<SafetyConfig>)
    ensures cfg.Some? <==> raw.Finite() && raw.Plain().Valid()
    ensures cfg.Some? ==> cfg.value == raw.Plain()
  {
    if raw.personClass == "" then None
    else if raw.stopDistance.NonFinite? || raw.stopDistance.value <= 0.0 then None
    else if raw.slowDistance.NonFinite? || raw.slowDistance.value <= raw.stopDistance.value then None
    else if raw.clearObservations == 0 then None
    else if raw.stopHysteresis.NonFinite? || raw.stopHysteresis.value < 0.0 then None
    else if raw.slowHysteresis.NonFinite? || raw.slowHysteresis.value < 0.0 then None
    else if raw.maxAgeSec.NonFinite? || raw.maxAgeSec.value <= 0.0 then None
    else Some(SafetyConfig(raw.enabled, raw.personClass, raw.slowDistance.value, raw.stopDistance.value,
                           raw.clearObservations, raw.stopHysteresis.value, raw.slowHysteresis.value, raw.maxAgeSec.value))
  }

  // ---------------------------------------------------------------- one target

  datatype SafetyTarget = SafetyTarget(
    id: nat, className: string, position: Position, positionFinite: bool,
    state: TrackingState, lastNs: int, missed: nat, depthValid: bool)

  datatype Decision = Decision(
    level: Level, reason: Reason, targetId: nat, className: string, position: Position,
    distanceSq: real, zoneId: string, inputValid: bool)

  const NOWHERE := Position(0.0, 0.0, 0.0)

  /** The decision when nobody is near; its distance is the sentinel -1. */
  function NoPerson(cfg: SafetyConfig): Decision {
    Decision(Clear, NoReason, 0, cfg.personClass, NOWHERE, -1.0, "", true)
  }

  datatype Input = Input(
    targets: seq<SafetyTarget>, robot: Position, robotFinite: bool, zones: seq<Zones.Zone>, now: int)

  predicate TrackedPerson(cfg: SafetyConfig, t: SafetyTarget) {
    t.className == cfg.personClass && (t.state == Confirmed || t.state == Processed) && t.missed == 0
  }

  predicate MalformedTarget(t: SafetyTarget, now: int) {
    !t.depthValid || !t.positionFinite || t.lastNs < 0 || t.lastNs > now
  }

  predicate Fresh(cfg: SafetyConfig, t: SafetyTarget, now: int) {
    now - t.lastNs <= (cfg.maxAgeSec * 1000000000.0).Floor
  }

  predicate Considered(cfg: SafetyConfig, t: SafetyTarget, now: int) {
    TrackedPerson(cfg, t) && !MalformedTarget(t, now) && Fresh(cfg, t, now)
  }

  function PlanarDistanceSq(a: Position, b: Position): real {
    (a.x - b.x) * (a.x - b.x) + (a.y - b.y) * (a.y - b.y)
  }

  predicate InDangerZone(zone: Zones.Zone, p: Position) {
    zone.enabled && zone.kind == "danger_zone" && Zones.ContainsPoint(zone, Finite(p.x), Finite(p.y))
  }

  /** The first enabled danger zone around a point. */
  function DangerZoneAt(zones: seq<Zones.Zone>, p: Position): Option<Zones.Zone> {
    if zones == [] then None
    else if InDangerZone(zones[0], p) then Some(zones[0])
    else DangerZoneAt(zones[1..], p)
  }

  function StopThreshold(cfg: SafetyConfig, level: Level): real {
    cfg.stopDistance + if level == Stop then cfg.stopHysteresis else 0.0
  }

  function SlowThreshold(cfg: SafetyConfig, level: Level): real {
    cfg.slowDistance + if level != Clear then cfg.slowHysteresis else 0.0
  }

  /** What one considered person calls for while the policy is at `level`. */
  function Assess(cfg: SafetyConfig, level: Level, t: SafetyTarget, input: Input): Decision {
    var d := PlanarDistanceSq(input.robot, t.position);
    var zone := DangerZoneAt(input.zones, t.position);
    var stop, slow := StopThreshold(cfg, level), SlowThreshold(cfg, level);
    if zone.Some? then
      Decision(Stop, PersonInDangerZone, t.id, t.className, t.position, d, zone.value.zoneId, true)
    else if d < stop * stop then
      Decision(Stop, PersonTooClose, t.id, t.className, t.position, d, "", true)
    else if d <= slow * slow then
      Decision(SpeedLimited, PersonNear, t.id, t.className, t.position, d, "", true)
    else
      Decision(Clear, NoReason, t.id, t.className, t.position, d, "", true)
  }

  predicate MoreRestrictive(a: Decision, b: Decision) {
    if a.level != b.level then Rank(a.level) > Rank(b.level)
    else if a.reason != b.reason then ReasonRank(a.reason) > ReasonRank(b.reason)
    else if a.distanceSq != b.distanceSq then a.distanceSq < b.distanceSq
    else a.targetId < b.targetId
  }

  // ---------------------------------------------------------------- classification

  function Better(best: Option<Decision>, d: Decision): Option<Decision> {
    if best.None? || MoreRestrictive(d, best.value) then Some(d) else best
  }

  /** The most restrictive assessment, in a left-to-right fold. */
  function Select(cfg: SafetyConfig, level: Level, targets: seq<SafetyTarget>, input: Input): Option<Decision> {
    if targets == [] then None
    else
      var n := |targets| - 1;
      var best := Select(cfg, level, targets[..n], input);
      if Considered(cfg, targets[n], input.now) then Better(best, Assess(cfg, level, targets[n], input)) else best
  }

  predicate MalformedPerson(cfg: SafetyConfig, targets: seq<SafetyTarget>, now: int) {
    exists i | 0 <= i < |targets| :: TrackedPerson(cfg, targets[i]) && MalformedTarget(targets[i], now)
  }

  datatype Classified = Classified(decision: Decision, malformed: bool)

  function Classify(cfg: SafetyConfig, level: Level, input: Input): Classified {
    if !cfg.enabled then Classified(NoPerson(cfg), false)
    else if input.now < 0 || !input.robotFinite then Classified(NoPerson(cfg).(inputValid := false), false)
    else
      var best := Select(cfg, level, input.targets, input);
      Classified(if best.Some? then best.value else NoPerson(cfg), MalformedPerson(cfg, input.targets, input.now))
  }

  // ---------------------------------------------------------------- evaluation

  datatype PolicyState = PolicyState(decision: Decision, lessRestrictive: nat)

  function Initial(cfg: SafetyConfig): PolicyState {
    PolicyState(NoPerson(cfg), 0)
  }

  /** The input is usable: not invalid, and no malformed person unless the rest already raises the level. */
  predicate ValidInput(cfg: SafetyConfig, s: PolicyState, input: Input) {
    var c := Classify(cfg, s.decision.level, input);
    c.decision.inputValid && !(c.malformed && Rank(c.decision.level) <= Rank(s.decision.level))
  }

  function AfterInput(cfg: SafetyConfig, s: PolicyState, input: Input): PolicyState {
    var c := Classify(cfg, s.decision.level, input);
    if !ValidInput(cfg, s, input) then s.(decision := s.decision.(inputValid := false))
    else if Rank(c.decision.level) >= Rank(s.decision.level) then PolicyState(c.decision.(inputValid := true), 0)
    else if s.lessRestrictive + 1 >= cfg.clearObservations then PolicyState(c.decision.(inputValid := true), 0)
    else PolicyState(s.decision.(inputValid := true), s.lessRestrictive + 1)
  }

  class PerceptionSafetyPolicy {
    const cfg: SafetyConfig
    var decision: Decision
    var lessRestrictive: nat

    ghost function Abstract(): PolicyState
      reads this
    {
      PolicyState(decision, lessRestrictive)
    }

    constructor (cfg: SafetyConfig)
      requires cfg.Valid()
      ensures this.cfg == cfg && Abstract() == Initial(cfg)
    {
      this.cfg := cfg;
      decision, lessRestrictive := NoPerson(cfg), 0;
    }

    method FindDangerZone(zones: seq<Zones.Zone>, p: Position) returns (zone: Option<Zones.Zone>)
      ensures zone == DangerZoneAt(zones, p)
    {
      for i := 0 to |zones|
        invariant DangerZoneAt(zones, p) == DangerZoneAt(zones[i..], p)
      {
        assert zones[i..][1..] == zones[i + 1..];
        var contains := Zones.ComputeContainsPoint(zones[i], Finite(p.x), Finite(p.y));
        if zones[i].enabled && zones[i].kind == "danger_zone" && contains {
          return Some(zones[i]);
        }
      }
      zone := None;
    }

    method AssessTarget(t: SafetyTarget, input: Input) returns (candidate: Decision)
      ensures candidate == Assess(cfg, decision.level, t, input)
    {
      candidate := Decision(Clear, NoReason, t.id, t.className, t.position,
                            PlanarDistanceSq(input.robot, t.position), "", true);
      var zone := FindDangerZone(input.zones, t.position);
      if zone.Some? {
        candidate := candidate.(level := Stop, reason := PersonInDangerZone, zoneId := zone.value.zoneId);
      }
      if candidate.reason != PersonInDangerZone {
        var stop, slow := cfg.stopDistance, cfg.slowDistance;
        if decision.level == Stop {
          stop := stop + cfg.stopHysteresis;
        }
        if decision.level != Clear {
          slow := slow + cfg.slowHysteresis;
        }
        if candidate.distanceSq < stop * stop {
          candidate := candidate.(level := Stop, reason := PersonTooClose);
        } else if candidate.distanceSq <= slow * slow {
          candidate := candidate.(level := SpeedLimited, reason := PersonNear);
        }
      }
    }

    method ClassifyInput(input: Input) returns (selected: Decision, malformed: bool)
      ensures Classified(selected, malformed) == Classify(cfg, decision.level, input)
    {
      hide Assess, Considered, MoreRestrictive, TrackedPerson, MalformedTarget;
      selected, malformed := NoPerson(cfg), false;
      if !cfg.enabled {
        return;
      }
      if input.now < 0 || !input.robotFinite {
        return selected.(inputValid := false), false;
      }
      var selectedPerson := false;
      for i := 0 to |input.targets|
        invariant selectedPerson == Select(cfg, decision.level, input.targets[..i], input).Some?
        invariant selected == if selectedPerson then Select(cfg, decision.level, input.targets[..i], input).value else NoPerson(cfg)
        invariant malformed == MalformedPerson(cfg, input.targets[..i], input.now)
      {
        var t := input.targets[i];
        assert input.targets[..i + 1][..i] == input.targets[..i];
        MalformedNext(cfg, input.targets, i, input.now);
        ConsideredIs(cfg, t, input.now);
        if !TrackedPerson(cfg, t) {
          continue;
        }
        if MalformedTarget(t, input.now) {
          malformed := true;
          continue;
        }
        if !Fresh(cfg, t, input.now) {
          continue;
        }
        var candidate := AssessTarget(t, input);
        if !selectedPerson || MoreRestrictive(candidate, selected) {
          selected, selectedPerson := candidate, true;
        }
      }
      assert input.targets[..|input.targets|] == input.targets;
    }

    method Evaluate(input: Input) returns (result: Decision)
      modifies this
      ensures Abstract() == AfterInput(cfg, old(Abstract()), input) && result == decision
    {
      hide Classify;
      var candidate, malformed := ClassifyInput(input);
      if !candidate.inputValid || (malformed && Rank(candidate.level) <= Rank(decision.level)) {
        decision := decision.(inputValid := false);
        return decision;
      }
      candidate := candidate.(inputValid := true);
      if Rank(candidate.level) >= Rank(decision.level) {
        decision := candidate;
        lessRestrictive := 0;
        return decision;
      }
      lessRestrictive := lessRestrictive + 1;
      if lessRestrictive >= cfg.clearObservations {
        decision := candidate;
        lessRestrictive := 0;
      } else {
        decision := decision.(inputValid := true);
      }
      result := decision;
    }
  }

  lemma MalformedNext(cfg: SafetyConfig, targets: seq<SafetyTarget>, i: nat, now: int)
    requires i < |targets|
    ensures MalformedPerson(cfg, targets[..i + 1], now) <==>
            MalformedPerson(cfg, targets[..i], now) || (TrackedPerson(cfg, targets[i]) && MalformedTarget(targets[i], now))
  {
    hide TrackedPerson, MalformedTarget;
    var a, b := targets[..i], targets[..i + 1];
    if MalformedPerson(cfg, a, now) {
      var k :| 0 <= k < |a| && TrackedPerson(cfg, a[k]) && MalformedTarget(a[k], now);
      assert b[k] == a[k];
    }
    if MalformedPerson(cfg, b, now) && !(TrackedPerson(cfg, targets[i]) && MalformedTarget(targets[i], now)) {
      var k :| 0 <= k < |b| && TrackedPerson(cfg, b[k]) && MalformedTarget(b[k], now);
      assert a[k] == b[k];
    }
    assert b[i] == targets[i];
  }

  lemma ConsideredIs(cfg: SafetyConfig, t: SafetyTarget, now: int)
    ensures Considered(cfg, t, now) <==> TrackedPerson(cfg, t) && !MalformedTarget(t, now) && Fresh(cfg, t, now)
  {
  }
}
