// What the person-safety policy guarantees: its choice among several persons, one step,
// and whole runs with hysteresis and debouncing.
module SafetyRuns {
  import opened Common
  import Zones
  import ZoneMasks
  import opened TargetTracking
  import opened SafetyPolicy

  // ---------------------------------------------------------------- the choice among persons

  /** `t` is considered, and no considered target calls for something more restrictive. */
  ghost predicate IsMostRestrictive(cfg: SafetyConfig, level: Level, targets: seq<SafetyTarget>, input: Input, t: SafetyTarget) {
    && t in targets && Considered(cfg, t, input.now)
    && forall u | u in targets && Considered(cfg, u, input.now) ::
         !MoreRestrictive(Assess(cfg, level, u, input), Assess(cfg, level, t, input))
  }

  ghost predicate Chosen(cfg: SafetyConfig, level: Level, targets: seq<SafetyTarget>, input: Input, best: Option<Decision>) {
    match best
    case None => forall u | u in targets :: !Considered(cfg, u, input.now)
    case Some(d) => exists t | IsMostRestrictive(cfg, level, targets, input, t) :: d == Assess(cfg, level, t, input)
  }

  lemma OrderIsTransitive(a: Decision, b: Decision, c: Decision)
    requires !MoreRestrictive(a, b) && !MoreRestrictive(b, c)
    ensures !MoreRestrictive(a, c)
  {
  }

  lemma OrderIsAsymmetric(a: Decision, b: Decision)
    requires MoreRestrictive(a, b)
    ensures !MoreRestrictive(b, a) && !MoreRestrictive(a, a)
  {
  }

  lemma {:induction false} SelectChooses(cfg: SafetyConfig, level: Level, targets: seq<SafetyTarget>, input: Input)
    ensures Chosen(cfg, level, targets, input, Select(cfg, level, targets, input))
  {
    hide Assess, Considered, MoreRestrictive;
    if targets != [] {
      var n := |targets| - 1;
      SelectChooses(cfg, level, targets[..n], input);
      ChooseNext(cfg, level, targets[..n], targets[n], input, Select(cfg, level, targets[..n], input));
      assert targets[..n] + [targets[n]] == targets;
    }
  }

  lemma ChooseNext(cfg: SafetyConfig, level: Level, init: seq<SafetyTarget>, u: SafetyTarget, input: Input, best: Option<Decision>)
    requires Chosen(cfg, level, init, input, best)
    ensures Chosen(cfg, level, init + [u], input,
                   if Considered(cfg, u, input.now) then Better(best, Assess(cfg, level, u, input)) else best)
  {
    hide Assess, Considered, MoreRestrictive;
    var all := init + [u];
    assert forall x :: x in all <==> x in init || x == u;
    if best.None? {
      if Considered(cfg, u, input.now) {
        SelfNotBetter(Assess(cfg, level, u, input));
        assert IsMostRestrictive(cfg, level, all, input, u);
      }
    } else {
      var t :| IsMostRestrictive(cfg, level, init, input, t) && best.value == Assess(cfg, level, t, input);
      if Considered(cfg, u, input.now) && MoreRestrictive(Assess(cfg, level, u, input), best.value) {
        OvertakesAll(cfg, level, init, t, u, input);
      } else {
        assert IsMostRestrictive(cfg, level, all, input, t);
      }
    }
  }

  lemma SelfNotBetter(d: Decision)
    ensures !MoreRestrictive(d, d)
  {
  }

  lemma OvertakesAll(cfg: SafetyConfig, level: Level, init: seq<SafetyTarget>, t: SafetyTarget, u: SafetyTarget, input: Input)
    requires IsMostRestrictive(cfg, level, init, input, t) && Considered(cfg, u, input.now)
    requires MoreRestrictive(Assess(cfg, level, u, input), Assess(cfg, level, t, input))
    ensures IsMostRestrictive(cfg, level, init + [u], input, u)
  {
    hide Assess, Considered, MoreRestrictive;
    var du, dt := Assess(cfg, level, u, input), Assess(cfg, level, t, input);
    OrderIsAsymmetric(du, dt);
    forall v | v in init + [u] && Considered(cfg, v, input.now)
      ensures !MoreRestrictive(Assess(cfg, level, v, input), du)
    {
      if v != u {
        assert v in init;
        OrderIsTransitive(Assess(cfg, level, v, input), dt, du);
      }
    }
  }

  ghost predicate DistinctIds(targets: seq<SafetyTarget>) {
    forall t, u | t in targets && u in targets && t.id == u.id :: t == u
  }

  lemma TieMeansSameId(cfg: SafetyConfig, level: Level, t: SafetyTarget, u: SafetyTarget, input: Input)
    requires !MoreRestrictive(Assess(cfg, level, t, input), Assess(cfg, level, u, input))
    requires !MoreRestrictive(Assess(cfg, level, u, input), Assess(cfg, level, t, input))
    ensures t.id == u.id
  {
  }

  ghost predicate SameTargets(a: seq<SafetyTarget>, b: seq<SafetyTarget>) {
    forall t :: t in a <==> t in b
  }

  lemma ChoiceIsUnique(cfg: SafetyConfig, level: Level, a: seq<SafetyTarget>, b: seq<SafetyTarget>, input: Input,
                       best: Option<Decision>, other: Option<Decision>)
    requires DistinctIds(a) && SameTargets(a, b)
    requires Chosen(cfg, level, a, input, best) && Chosen(cfg, level, b, input, other)
    ensures best == other
  {
    hide Assess, Considered, MoreRestrictive;
    if best.Some? && other.Some? {
      var t :| IsMostRestrictive(cfg, level, a, input, t) && best.value == Assess(cfg, level, t, input);
      var u :| IsMostRestrictive(cfg, level, b, input, u) && other.value == Assess(cfg, level, u, input);
      TieMeansSameId(cfg, level, t, u, input);
    }
  }

  lemma MalformedIgnoresOrder(cfg: SafetyConfig, a: seq<SafetyTarget>, b: seq<SafetyTarget>, now: int)
    requires SameTargets(a, b) && MalformedPerson(cfg, a, now)
    ensures MalformedPerson(cfg, b, now)
  {
    hide TrackedPerson, MalformedTarget;
    var i :| 0 <= i < |a| && TrackedPerson(cfg, a[i]) && MalformedTarget(a[i], now);
    assert a[i] in b;
    var j :| 0 <= j < |b| && b[j] == a[i];
  }

  lemma SelectReadsTargetsOnly(cfg: SafetyConfig, level: Level, targets: seq<SafetyTarget>, input: Input, shuffled: seq<SafetyTarget>)
    ensures Select(cfg, level, targets, input.(targets := shuffled)) == Select(cfg, level, targets, input)
  {
    if targets != [] {
      SelectReadsTargetsOnly(cfg, level, targets[..|targets| - 1], input, shuffled);
    }
  }

  /** With distinct ids, the decision does not depend on the order of the targets. */
  lemma TargetOrderDoesNotMatter(cfg: SafetyConfig, s: PolicyState, input: Input, shuffled: seq<SafetyTarget>)
    requires DistinctIds(input.targets) && SameTargets(input.targets, shuffled)
    ensures AfterInput(cfg, s, input.(targets := shuffled)) == AfterInput(cfg, s, input)
  {
    hide Select, MalformedPerson, DistinctIds, SameTargets;
    var level := s.decision.level;
    var other := input.(targets := shuffled);
    SelectReadsTargetsOnly(cfg, level, shuffled, input, shuffled);
    SelectChooses(cfg, level, input.targets, input);
    SelectChooses(cfg, level, shuffled, input);
    ChoiceIsUnique(cfg, level, input.targets, shuffled, input,
                   Select(cfg, level, input.targets, input), Select(cfg, level, shuffled, input));
    MalformedSame(cfg, input.targets, shuffled, input.now);
    assert Classify(cfg, level, other) == Classify(cfg, level, input);
  }

  lemma MalformedSame(cfg: SafetyConfig, a: seq<SafetyTarget>, b: seq<SafetyTarget>, now: int)
    requires SameTargets(a, b)
    ensures MalformedPerson(cfg, a, now) == MalformedPerson(cfg, b, now)
  {
    if MalformedPerson(cfg, a, now) {
      MalformedIgnoresOrder(cfg, a, b, now);
    }
    if MalformedPerson(cfg, b, now) {
      MalformedIgnoresOrder(cfg, b, a, now);
    }
  }

  // ---------------------------------------------------------------- one evaluation

  /** A valid evaluation never ends below the level of its own input; an invalid one changes no level. */
  lemma LevelNeverBelowInput(cfg: SafetyConfig, s: PolicyState, input: Input)
    ensures var after := AfterInput(cfg, s, input);
      var called := Classify(cfg, s.decision.level, input).decision.level;
      && (ValidInput(cfg, s, input) ==> Rank(after.decision.level) >= Rank(called))
      && (ValidInput(cfg, s, input) && Rank(called) >= Rank(s.decision.level) ==> after.decision.level == called)
      && (!ValidInput(cfg, s, input) ==>
            after == s.(decision := s.decision.(inputValid := false)))
      && (after.decision.inputValid <==> ValidInput(cfg, s, input))
  {
    hide Classify;
  }

  /** Beyond the stop distance plus hysteresis, and outside every danger zone. */
  ghost predicate ClearOfStop(cfg: SafetyConfig, t: SafetyTarget, input: Input) {
    var stop := cfg.stopDistance + cfg.stopHysteresis;
    && PlanarDistanceSq(input.robot, t.position) >= stop * stop
    && forall z | z in input.zones :: !InDangerZone(z, t.position)
  }

  /** Nobody calls for a stop: no malformed person, and every considered person is clear. */
  ghost predicate AllClearOfStop(cfg: SafetyConfig, input: Input) {
    && !MalformedPerson(cfg, input.targets, input.now)
    && forall t | t in input.targets && Considered(cfg, t, input.now) :: ClearOfStop(cfg, t, input)
  }

  lemma {:induction false} NoDangerZone(zones: seq<Zones.Zone>, p: Position)
    ensures DangerZoneAt(zones, p).None? <==> forall z | z in zones :: !InDangerZone(z, p)
  {
    hide InDangerZone;
    if zones != [] {
      NoDangerZone(zones[1..], p);
      assert zones == [zones[0]] + zones[1..];
    }
  }

  lemma StopMeansNotClear(cfg: SafetyConfig, t: SafetyTarget, input: Input)
    ensures Assess(cfg, Stop, t, input).level == Stop <==> !ClearOfStop(cfg, t, input)
  {
    hide PlanarDistanceSq, InDangerZone;
    NoDangerZone(input.zones, t.position);
  }

  /** The choice is a stop exactly when some considered person is not clear. */
  lemma StopIsChosen(cfg: SafetyConfig, targets: seq<SafetyTarget>, input: Input, best: Option<Decision>)
    requires Chosen(cfg, Stop, targets, input, best)
    ensures (best.Some? && best.value.level == Stop) <==>
            exists t | t in targets && Considered(cfg, t, input.now) :: !ClearOfStop(cfg, t, input)
  {
    hide Assess, Considered, ClearOfStop;
    forall t | t in targets
      ensures Assess(cfg, Stop, t, input).level == Stop <==> !ClearOfStop(cfg, t, input)
    {
      StopMeansNotClear(cfg, t, input);
    }
    if best.Some? {
      var u :| IsMostRestrictive(cfg, Stop, targets, input, u) && best.value == Assess(cfg, Stop, u, input);
      forall t | t in targets && Considered(cfg, t, input.now) && Assess(cfg, Stop, t, input).level == Stop
        ensures best.value.level == Stop
      {
        StopIsTop(Assess(cfg, Stop, t, input), best.value);
      }
    }
  }

  lemma StopIsTop(a: Decision, b: Decision)
    requires a.level == Stop && !MoreRestrictive(a, b)
    ensures b.level == Stop
  {
  }

  /** At STOP, an evaluation is valid and calls for less exactly when everyone is clear of the stop conditions. */
  lemma LessThanStopMeansClear(cfg: SafetyConfig, s: PolicyState, input: Input)
    requires cfg.enabled && s.decision.level == Stop && input.now >= 0 && input.robotFinite
    ensures (ValidInput(cfg, s, input) && Classify(cfg, Stop, input).decision.level != Stop) <==> AllClearOfStop(cfg, input)
  {
    hide Assess, Considered, MalformedPerson, Select, ClearOfStop, Chosen;
    var best := Select(cfg, Stop, input.targets, input);
    SelectChooses(cfg, Stop, input.targets, input);
    StopIsChosen(cfg, input.targets, input, best);
    SelectIsValid(cfg, Stop, input.targets, input);
    RankOfStop(Classify(cfg, Stop, input).decision.level);
  }

  lemma ValidMeansReadable(cfg: SafetyConfig, s: PolicyState, input: Input)
    requires cfg.enabled && ValidInput(cfg, s, input)
    ensures input.now >= 0 && input.robotFinite
  {
    hide Select, MalformedPerson;
  }

  lemma RankOfStop(level: Level)
    ensures Rank(level) <= Rank(Stop)
  {
  }

  lemma {:induction false} SelectIsValid(cfg: SafetyConfig, level: Level, targets: seq<SafetyTarget>, input: Input)
    ensures var best := Select(cfg, level, targets, input); best.Some? ==> best.value.inputValid
  {
    hide Considered, MoreRestrictive, DangerZoneAt, PlanarDistanceSq;
    if targets != [] {
      SelectIsValid(cfg, level, targets[..|targets| - 1], input);
    }
  }

  // ---------------------------------------------------------------- which danger zones stop the robot

  /** The policy stops for a person exactly where the zone is an enabled danger zone around the person. */
  ghost predicate StopsWhereItShould(zone: Zones.Zone) {
    forall p: Position ::
      InDangerZone(zone, p) <==>
      zone.enabled && ZoneMasks.KindOf(zone) == ZoneMasks.DangerZone && Zones.ContainsPoint(zone, Finite(p.x), Finite(p.y))
  }

  lemma LowerCaseStays()
    ensures ZoneMasks.ToLower("danger_zone") == "danger_zone"
  {
  }

  /** A polygon contains its first vertex, which lies on an edge. */
  lemma FirstVertexIsInside(zone: Zones.Zone)
    requires Zones.IsPolygon(zone)
    ensures var v := Zones.Vertices(zone)[0]; Zones.ContainsPoint(zone, Finite(v.x), Finite(v.y))
  {
    hide Zones.ContainsPoint, Zones.Crossings;
    var vs := Zones.Vertices(zone);
    var v, es := vs[0], Zones.Edges(vs);
    Zones.ContainsPointIsEvenOdd(zone, v);
    VertexOnEdge(es[0]);
    assert es[0].a == v && Zones.OnEdge(es[0], v);
  }

  lemma VertexOnEdge(e: Zones.Edge)
    ensures Zones.OnEdge(e, e.a)
  {
    var u, w := e.a.x - e.b.x, e.a.y - e.b.y;
    assert Zones.Cross(e, e.a) == u * w - w * u == 0.0;
    assert Zones.Scale(e) >= 1.0;
    hide Zones.Cross, Zones.Scale;
  }

  /**
   * A valid zone stops the robot where it should if and only if it is disabled, not a danger zone, or has its
   * kind spelt in lower case.
   */
  lemma DangerZonesStopExactly(zone: Zones.Zone)
    requires ZoneMasks.ValidateZone(zone).None?
    ensures StopsWhereItShould(zone) <==>
            !zone.enabled || ZoneMasks.KindOf(zone) != ZoneMasks.DangerZone || zone.kind == "danger_zone"
  {
    ZoneMasks.ValidZonesArePolygons(zone);
    LowerCaseStays();
    hide Zones.ContainsPoint, Zones.IsPolygon, Zones.Vertices;
    if zone.enabled && ZoneMasks.KindOf(zone) == ZoneMasks.DangerZone && zone.kind != "danger_zone" {
      FirstVertexIsInside(zone);
      var v := Zones.Vertices(zone)[0];
      assert !InDangerZone(zone, Position(v.x, v.y, 0.0));
    }
  }

  /** A concrete case: an enabled, valid zone of kind "Danger_Zone" around the origin, where nobody is ever stopped. */
  lemma CapitalisedDangerZone(p: Position)
    ensures var zone := Zones.Zone("z", "m", "Danger_Zone", "map", true, 0.0,
                                   [Finite(-1.0), Finite(1.0), Finite(0.0)], [Finite(-1.0), Finite(-1.0), Finite(1.0)]);
      && ZoneMasks.ValidateZone(zone).None? && ZoneMasks.KindOf(zone) == ZoneMasks.DangerZone
      && !InDangerZone(zone, p) && !StopsWhereItShould(zone)
  {
    var zone := Zones.Zone("z", "m", "Danger_Zone", "map", true, 0.0,
                           [Finite(-1.0), Finite(1.0), Finite(0.0)], [Finite(-1.0), Finite(-1.0), Finite(1.0)]);
    assert ZoneMasks.ToLower("Danger_Zone") == "danger_zone";
    assert "Danger_Zone"[0] != "danger_zone"[0];
    DangerZonesStopExactly(zone);
  }

  // ---------------------------------------------------------------- runs

  ghost predicate IsPolicyRun(cfg: SafetyConfig, states: seq<PolicyState>, inputs: seq<Input>) {
    && cfg.Valid() && |states| == |inputs| + 1 && states[0] == Initial(cfg)
    && forall k | 0 <= k < |inputs| :: states[k + 1] == AfterInput(cfg, states[k], inputs[k])
  }

  method RunPolicy(policy: PerceptionSafetyPolicy, inputs: seq<Input>) returns (ghost states: seq<PolicyState>)
    requires policy.cfg.Valid() && policy.Abstract() == Initial(policy.cfg)
    modifies policy
    ensures IsPolicyRun(policy.cfg, states, inputs) && policy.Abstract() == states[|inputs|]
  {
    hide AfterInput;
    states := [policy.Abstract()];
    for k := 0 to |inputs|
      invariant |states| == k + 1 && states[0] == Initial(policy.cfg) && states[k] == policy.Abstract()
      invariant forall i | 0 <= i < k :: states[i + 1] == AfterInput(policy.cfg, states[i], inputs[i])
    {
      var result := policy.Evaluate(inputs[k]);
      states := states + [policy.Abstract()];
    }
  }

  /** The number of valid evaluations among steps i to j - 1. */
  ghost function ValidCount(cfg: SafetyConfig, states: seq<PolicyState>, inputs: seq<Input>, i: nat, j: nat): nat
    requires i <= j <= |inputs| < |states|
    decreases j - i
  {
    if i == j then 0
    else ValidCount(cfg, states, inputs, i, j - 1) + if ValidInput(cfg, states[j - 1], inputs[j - 1]) then 1 else 0
  }

  ghost predicate HeldAt(states: seq<PolicyState>, level: Level, i: nat, j: nat)
    requires j < |states|
  {
    forall k | i <= k <= j :: states[k].decision.level == level
  }

  /** Every valid evaluation among steps i to j - 1 called for less than `level`. */
  ghost predicate CalledForLess(cfg: SafetyConfig, states: seq<PolicyState>, inputs: seq<Input>, level: Level, i: nat, j: nat)
    requires j <= |inputs| < |states|
  {
    forall k | i <= k < j && ValidInput(cfg, states[k], inputs[k]) ::
      Rank(Classify(cfg, states[k].decision.level, inputs[k]).decision.level) < Rank(level)
  }

  /** The debounce counter counts the valid, less restrictive evaluations of a window held at one level. */
  ghost predicate CounterWindow(cfg: SafetyConfig, states: seq<PolicyState>, inputs: seq<Input>, w: nat, k: nat)
    requires w <= k <= |inputs| < |states|
  {
    && HeldAt(states, states[k].decision.level, w, k)
    && CalledForLess(cfg, states, inputs, states[k].decision.level, w, k)
    && ValidCount(cfg, states, inputs, w, k) == states[k].lessRestrictive
  }

  lemma {:induction false} CounterStaysLow(cfg: SafetyConfig, states: seq<PolicyState>, inputs: seq<Input>, k: nat)
    requires IsPolicyRun(cfg, states, inputs) && k <= |inputs|
    ensures states[k].lessRestrictive < cfg.clearObservations
  {
    hide Classify;
    if k > 0 {
      CounterStaysLow(cfg, states, inputs, k - 1);
      assert states[k] == AfterInput(cfg, states[k - 1], inputs[k - 1]);
    }
  }

  lemma {:induction false} CounterHasWindow(cfg: SafetyConfig, states: seq<PolicyState>, inputs: seq<Input>, k: nat) returns (w: nat)
    requires IsPolicyRun(cfg, states, inputs) && k <= |inputs|
    ensures w <= k && CounterWindow(cfg, states, inputs, w, k)
  {
    hide Classify, ValidInput;
    w := k;
    if k > 0 {
      var s, input := states[k - 1], inputs[k - 1];
      assert states[k] == AfterInput(cfg, s, input);
      StepOfPolicy(cfg, s, input);
      if states[k].decision.level == s.decision.level && states[k].lessRestrictive != 0 {
        w := CounterHasWindow(cfg, states, inputs, k - 1);
      } else if !ValidInput(cfg, s, input) {
        w := CounterHasWindow(cfg, states, inputs, k - 1);
      }
    }
  }

  /** One evaluation either keeps level and counter, counts one more at the same level, or resets the counter. */
  lemma StepOfPolicy(cfg: SafetyConfig, s: PolicyState, input: Input)
    ensures var after := AfterInput(cfg, s, input);
      var called := Classify(cfg, s.decision.level, input).decision.level;
      if !ValidInput(cfg, s, input) then
        after.decision.level == s.decision.level && after.lessRestrictive == s.lessRestrictive
      else if Rank(called) >= Rank(s.decision.level) || s.lessRestrictive + 1 >= cfg.clearObservations then
        after.decision.level == called && after.lessRestrictive == 0
      else
        after.decision.level == s.decision.level && after.lessRestrictive == s.lessRestrictive + 1
  {
    hide Classify;
  }

  /**
   * The level leaves STOP only after exactly `clearObservations` valid evaluations, all held at STOP, in
   * each of which nobody called for a stop.
   */
  lemma LeavingStop(cfg: SafetyConfig, states: seq<PolicyState>, inputs: seq<Input>, k: nat)
    requires IsPolicyRun(cfg, states, inputs) && cfg.enabled && k < |inputs|
    requires states[k].decision.level == Stop && states[k + 1].decision.level != Stop
    ensures exists w | 0 <= w <= k ::
      && HeldAt(states, Stop, w, k)
      && ValidCount(cfg, states, inputs, w, k + 1) == cfg.clearObservations
      && forall i | w <= i <= k && ValidInput(cfg, states[i], inputs[i]) :: AllClearOfStop(cfg, inputs[i])
  {
    hide Classify, ValidInput, AllClearOfStop;
    var w := CounterHasWindow(cfg, states, inputs, k);
    CounterStaysLow(cfg, states, inputs, k);
    assert states[k + 1] == AfterInput(cfg, states[k], inputs[k]);
    StepOfPolicy(cfg, states[k], inputs[k]);
    assert ValidCount(cfg, states, inputs, w, k + 1) == states[k].lessRestrictive + 1;
    forall i | w <= i <= k && ValidInput(cfg, states[i], inputs[i])
      ensures AllClearOfStop(cfg, inputs[i])
    {
      assert states[i].decision.level == Stop;
      ValidMeansReadable(cfg, states[i], inputs[i]);
      LessThanStopMeansClear(cfg, states[i], inputs[i]);
    }
  }

  /** Every valid evaluation among steps i to j - 1 is classified at or below `level`. */
  ghost predicate CalledForAtMost(cfg: SafetyConfig, states: seq<PolicyState>, inputs: seq<Input>, level: Level, i: nat, j: nat)
    requires j <= |inputs| < |states|
  {
    forall k | i <= k < j && ValidInput(cfg, states[k], inputs[k]) ::
      Rank(Classify(cfg, states[k].decision.level, inputs[k]).decision.level) <= Rank(level)
  }

  lemma {:induction false} Descends(cfg: SafetyConfig, states: seq<PolicyState>, inputs: seq<Input>, level: Level, i: nat, j: nat)
    requires IsPolicyRun(cfg, states, inputs) && i <= j <= |inputs|
    requires CalledForAtMost(cfg, states, inputs, level, i, j)
    ensures || Rank(states[j].decision.level) <= Rank(level)
            || states[j].lessRestrictive >= ValidCount(cfg, states, inputs, i, j)
    decreases j - i
  {
    hide Classify, ValidInput;
    if i < j {
      Descends(cfg, states, inputs, level, i, j - 1);
      assert states[j] == AfterInput(cfg, states[j - 1], inputs[j - 1]);
      StepOfPolicy(cfg, states[j - 1], inputs[j - 1]);
    }
  }

  /** After `clearObservations` valid evaluations, all classified at or below a level, the policy is at or below it. */
  lemma ClearsAfterEnoughObservations(cfg: SafetyConfig, states: seq<PolicyState>, inputs: seq<Input>, level: Level, i: nat, j: nat)
    requires IsPolicyRun(cfg, states, inputs) && i <= j <= |inputs|
    requires CalledForAtMost(cfg, states, inputs, level, i, j)
    requires ValidCount(cfg, states, inputs, i, j) >= cfg.clearObservations
    ensures Rank(states[j].decision.level) <= Rank(level)
  {
    hide CalledForAtMost, ValidCount;
    Descends(cfg, states, inputs, level, i, j);
    CounterStaysLow(cfg, states, inputs, j);
  }
}
