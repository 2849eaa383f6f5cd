// TargetManager of target_manager.cpp.  Positions are reals, so distances are compared
// squared; an observation carries whether its position was finite.
module TargetTracking {
  import opened Common
  import opened Association

  datatype Position = Position(x: real, y: real, z: real)

  datatype TrackingState = Tentative | Confirmed | Lost | Processed

  datatype Observation = Observation(
    className: string, confidence: Double, position: Position, positionFinite: bool,
    timestampNs: int, depthValid: bool)

  datatype Target = Target(
    id: nat, className: string, confidence: real, raw: Position, filtered: Position,
    firstNs: int, lastNs: int, hits: nat, missed: nat, depthValid: bool,
    state: TrackingState, processedAtNs: int)

  // ---------------------------------------------------------------- configuration

  datatype RawConfig = RawConfig(
    confirmFrames: nat, lostFrames: nat, lostRetirementFrames: nat,
    maxMatchDistance: Double, emaAlpha: Double, processedCooldownSec: Double)
  {
    predicate Finite() {
      maxMatchDistance.Finite? && emaAlpha.Finite? && processedCooldownSec.Finite?
    }

    /** The configuration as the rest of the manager reads it: a retirement of 0 means twice the lost frames. */
    function Plain(): Config
      requires Finite()
    {
      Config(confirmFrames, lostFrames, if lostRetirementFrames == 0 then lostFrames * 2 else lostRetirementFrames,
             maxMatchDistance.value, emaAlpha.value, processedCooldownSec.value)
    }
  }

  datatype Config = Config(
    confirmFrames: nat, lostFrames: nat, retirement: nat,
    maxMatchDistance: real, emaAlpha: real, cooldownSec: real)
  {
    predicate Valid() {
      && confirmFrames > 0 && 0 < lostFrames <= retirement
      && maxMatchDistance > 0.0 && 0.0 < emaAlpha <= 1.0 && cooldownSec >= 0.0
    }
  }

  /** The constructor's checks; None is the thrown invalid_argument. */
  function Accept(raw: RawConfig): (cfg: Option<Config>)
    ensures cfg.Some? <==> raw.Finite() && raw.Plain().Valid()
    ensures cfg.Some? ==> cfg.value == raw.Plain()
  {
    var retirement := if raw.lostRetirementFrames == 0 then raw.lostFrames * 2 else raw.lostRetirementFrames;
    if raw.confirmFrames == 0 || raw.lostFrames == 0 || retirement < raw.lostFrames then None
    else if raw.maxMatchDistance.NonFinite? || raw.maxMatchDistance.value <= 0.0 then None
    else if raw.emaAlpha.NonFinite? || raw.emaAlpha.value <= 0.0 || raw.emaAlpha.value > 1.0 then None
    else if raw.processedCooldownSec.NonFinite? || raw.processedCooldownSec.value < 0.0 then None
    else Some(Config(raw.confirmFrames, raw.lostFrames, retirement, raw.maxMatchDistance.value,
                     raw.emaAlpha.value, raw.processedCooldownSec.value))
  }

  // ---------------------------------------------------------------- one target

  function DistanceSq(a: Position, b: Position): real {
    (a.x - b.x) * (a.x - b.x) + (a.y - b.y) * (a.y - b.y) + (a.z - b.z) * (a.z - b.z)
  }

  predicate Near(cfg: Config, a: Position, b: Position) {
    DistanceSq(a, b) <= cfg.maxMatchDistance * cfg.maxMatchDistance
  }

  function Filtered(previous: Position, current: Position, alpha: real): Position {
    Position(alpha * current.x + (1.0 - alpha) * previous.x,
             alpha * current.y + (1.0 - alpha) * previous.y,
             alpha * current.z + (1.0 - alpha) * previous.z)
  }

  function Square(x: real): real {
    x * x
  }

  /** Filtering moves the estimate toward the observation along their segment, by the share alpha. */
  lemma FilterContracts(previous: Position, current: Position, alpha: real)
    ensures var f := Filtered(previous, current, alpha);
      && DistanceSq(f, current) == Square(1.0 - alpha) * DistanceSq(previous, current)
      && DistanceSq(previous, f) == Square(alpha) * DistanceSq(previous, current)
  {
    hide Square, DistanceSq;
    var f := Filtered(previous, current, alpha);
    AxisContracts(previous.x, current.x, alpha, f.x);
    AxisContracts(previous.y, current.y, alpha, f.y);
    AxisContracts(previous.z, current.z, alpha, f.z);
    hide Filtered;
    ScaledDistance(f, current, previous, current, Square(1.0 - alpha));
    ScaledDistance(previous, f, previous, current, Square(alpha));
  }

  lemma ScaledDistance(a: Position, b: Position, p: Position, c: Position, k: real)
    requires Square(a.x - b.x) == k * Square(p.x - c.x)
    requires Square(a.y - b.y) == k * Square(p.y - c.y)
    requires Square(a.z - b.z) == k * Square(p.z - c.z)
    ensures DistanceSq(a, b) == k * DistanceSq(p, c)
  {
    assert DistanceSq(a, b) == Square(a.x - b.x) + Square(a.y - b.y) + Square(a.z - b.z);
    assert DistanceSq(p, c) == Square(p.x - c.x) + Square(p.y - c.y) + Square(p.z - c.z);
    hide Square, DistanceSq;
  }

  lemma AxisContracts(p: real, c: real, alpha: real, f: real)
    requires f == alpha * c + (1.0 - alpha) * p
    ensures Square(f - c) == Square(1.0 - alpha) * Square(p - c) && Square(p - f) == Square(alpha) * Square(p - c)
  {
    assert f - c == (1.0 - alpha) * (p - c) && p - f == alpha * (p - c);
    SquareOfProduct(1.0 - alpha, p - c);
    SquareOfProduct(alpha, p - c);
    hide Square;
  }

  lemma SquareOfProduct(a: real, b: real)
    ensures Square(a * b) == Square(a) * Square(b)
  {
  }

  predicate IsValidObservation(o: Observation) {
    && o.className != "" && o.depthValid && o.timestampNs >= 0
    && o.confidence.Finite? && 0.0 <= o.confidence.value <= 1.0
    && o.positionFinite
  }

  predicate CooldownExpired(cfg: Config, t: Target, ts: int) {
    && t.state == Processed && ts >= t.processedAtNs
    && (ts - t.processedAtNs) as real / 1000000000.0 >= cfg.cooldownSec
  }

  function Seen(cfg: Config, t: Target, o: Observation): Target
    requires IsValidObservation(o)
  {
    t.(raw := o.position, filtered := Filtered(t.filtered, o.position, cfg.emaAlpha),
       confidence := o.confidence.value, lastNs := o.timestampNs, depthValid := o.depthValid, missed := 0)
  }

  function AfterMatch(cfg: Config, t: Target, o: Observation, ts: int): Target
    requires IsValidObservation(o)
  {
    var s := Seen(cfg, t, o);
    if t.state == Processed then
      if CooldownExpired(cfg, t, ts) then s.(state := Tentative, hits := 1, processedAtNs := 0) else s
    else if t.state == Lost then
      s.(hits := t.hits + 1, state := if t.hits + 1 >= cfg.confirmFrames then Confirmed else Tentative)
    else if t.state == Tentative && t.hits + 1 >= cfg.confirmFrames then
      s.(hits := t.hits + 1, state := Confirmed)
    else
      s.(hits := t.hits + 1)
  }

  function Age(cfg: Config, t: Target, ts: int): Target {
    var a := t.(missed := t.missed + 1);
    if (t.state == Tentative || t.state == Confirmed) && a.missed >= cfg.lostFrames then a.(state := Lost)
    else if CooldownExpired(cfg, t, ts) && a.missed >= cfg.lostFrames then a.(state := Lost)
    else a
  }

  predicate Retired(cfg: Config, t: Target, ts: int) {
    if t.state == Lost then t.missed > cfg.retirement
    else CooldownExpired(cfg, t, ts) && t.missed > cfg.retirement
  }

  function NewTarget(cfg: Config, id: nat, o: Observation): Target
    requires IsValidObservation(o)
  {
    Target(id, o.className, o.confidence.value, o.position, o.position, o.timestampNs, o.timestampNs, 1, 0,
           o.depthValid, if cfg.confirmFrames == 1 then Confirmed else Tentative, 0)
  }

  // ---------------------------------------------------------------- one update

  predicate Usable(o: Observation, ts: int) {
    IsValidObservation(o) && o.timestampNs <= ts
  }

  function UsableAt(observations: seq<Observation>, ts: int): (usable: seq<Observation>)
    ensures forall o | o in usable :: Usable(o, ts)
  {
    if observations == [] then []
    else if Usable(observations[0], ts) then [observations[0]] + UsableAt(observations[1..], ts)
    else UsableAt(observations[1..], ts)
  }

  predicate Eligible(cfg: Config, t: Target, o: Observation) {
    t.className == o.className && Near(cfg, t.filtered, o.position)
  }

  function PairUp(t: Target, i: nat, o: Observation, j: nat): Candidate {
    Candidate(DistanceSq(t.filtered, o.position), i, j, t.id)
  }

  /** The candidates of target `i` with observations `j` onward, as the inner loop pushes them. */
  function CandidatesOf(cfg: Config, t: Target, i: nat, obs: seq<Observation>, j: nat): seq<Candidate>
    decreases |obs| - j
  {
    if j >= |obs| then []
    else if Eligible(cfg, t, obs[j]) then [PairUp(t, i, obs[j], j)] + CandidatesOf(cfg, t, i, obs, j + 1)
    else CandidatesOf(cfg, t, i, obs, j + 1)
  }

  function Candidates(cfg: Config, targets: seq<Target>, obs: seq<Observation>, i: nat): seq<Candidate>
    decreases |targets| - i
  {
    if i >= |targets| then []
    else CandidatesOf(cfg, targets[i], i, obs, 0) + Candidates(cfg, targets, obs, i + 1)
  }

  function Associate(cfg: Config, targets: seq<Target>, obs: seq<Observation>): seq<Candidate> {
    Greedy(SortCandidates(Candidates(cfg, targets, obs, 0)), [])
  }

  function PartnerOf(pairs: seq<Candidate>, i: nat): Option<nat> {
    if pairs == [] then None
    else if pairs[0].target == i then Some(pairs[0].observation)
    else PartnerOf(pairs[1..], i)
  }

  predicate InRange(pairs: seq<Candidate>, targets: nat, observations: nat) {
    forall k | 0 <= k < |pairs| :: pairs[k].target < targets && pairs[k].observation < observations
  }

  predicate AllUsable(obs: seq<Observation>, ts: int) {
    forall k | 0 <= k < |obs| :: Usable(obs[k], ts)
  }

  function Matched(cfg: Config, t: Target, partner: Option<nat>, obs: seq<Observation>, ts: int): Target
    requires AllUsable(obs, ts)
  {
    if partner.Some? && partner.value < |obs| then AfterMatch(cfg, t, obs[partner.value], ts) else t
  }

  /** A target after this update's association and ageing. */
  function Next(cfg: Config, t: Target, partner: Option<nat>, obs: seq<Observation>, ts: int): Target
    requires AllUsable(obs, ts)
  {
    if partner.Some? && partner.value < |obs| then AfterMatch(cfg, t, obs[partner.value], ts)
    else Age(cfg, t, ts)
  }

  predicate Takes(pairs: seq<Candidate>, j: nat) {
    exists k | 0 <= k < |pairs| :: pairs[k].observation == j
  }

  function Observations(pairs: seq<Candidate>): seq<nat> {
    if pairs == [] then [] else [pairs[0].observation] + Observations(pairs[1..])
  }

  predicate SameObject(cfg: Config, a: Observation, b: Observation) {
    a.className == b.className && Near(cfg, a.position, b.position)
  }

  /** Observation `j` lies near an accepted one of its class. */
  predicate Duplicate(cfg: Config, obs: seq<Observation>, accepted: seq<nat>, j: nat) {
    j < |obs| && exists a | a in accepted :: a < |obs| && SameObject(cfg, obs[j], obs[a])
  }

  predicate Within(starters: seq<nat>, n: nat) {
    forall k | 0 <= k < |starters| :: starters[k] < n
  }

  /** The observations from `j` on that start a new target. */
  function Starters(cfg: Config, obs: seq<Observation>, pairs: seq<Candidate>, accepted: seq<nat>, j: nat): (starters: seq<nat>)
    ensures Within(starters, |obs|)
    ensures forall k | 0 <= k < |starters| :: j <= starters[k]
    decreases |obs| - j
  {
    if j >= |obs| then []
    else if Takes(pairs, j) || Duplicate(cfg, obs, accepted, j) then Starters(cfg, obs, pairs, accepted, j + 1)
    else [j] + Starters(cfg, obs, pairs, accepted + [j], j + 1)
  }

  function NewTargets(cfg: Config, obs: seq<Observation>, starters: seq<nat>, nextId: nat, ts: int): (news: seq<Target>)
    requires AllUsable(obs, ts) && Within(starters, |obs|)
    ensures |news| == |starters|
  {
    if starters == [] then []
    else [NewTarget(cfg, nextId, obs[starters[0]])] + NewTargets(cfg, obs, starters[1..], nextId + 1, ts)
  }

  function Kept(cfg: Config, targets: seq<Target>, ts: int): seq<Target> {
    if targets == [] then []
    else if Retired(cfg, targets[0], ts) then Kept(cfg, targets[1..], ts)
    else [targets[0]] + Kept(cfg, targets[1..], ts)
  }

  const MAX_ID: nat := 0xFFFF_FFFF

  datatype Manager = Manager(targets: seq<Target>, nextId: nat, lastUpdateNs: int)

  const EMPTY := Manager([], 1, -1)

  predicate Accepts(m: Manager, ts: int) {
    ts >= 0 && (m.lastUpdateNs >= 0 ==> ts >= m.lastUpdateNs)
  }

  function Survivors(cfg: Config, m: Manager, obs: seq<Observation>, pairs: seq<Candidate>, ts: int): seq<Target>
    requires AllUsable(obs, ts)
  {
    seq(|m.targets|, i requires 0 <= i < |m.targets| => Next(cfg, m.targets[i], PartnerOf(pairs, i), obs, ts))
  }

  /** The result of an update; `threw` is the overflow_error raised when 32-bit ids run out. */
  datatype Outcome = Outcome(manager: Manager, threw: bool)

  function Finish(cfg: Config, m: Manager, obs: seq<Observation>, aged: seq<Target>, starters: seq<nat>, ts: int): Outcome
    requires AllUsable(obs, ts) && Within(starters, |obs|)
  {
    if starters != [] && m.nextId + |starters| > MAX_ID + 1 then
      var room := if m.nextId <= MAX_ID + 1 then MAX_ID + 1 - m.nextId else 0;
      Outcome(Manager(aged + NewTargets(cfg, obs, starters[..room], m.nextId, ts), m.nextId + room, ts), true)
    else
      Outcome(Manager(Kept(cfg, aged + NewTargets(cfg, obs, starters, m.nextId, ts), ts), m.nextId + |starters|, ts), false)
  }

  function AfterUpdate(cfg: Config, m: Manager, observations: seq<Observation>, ts: int): Outcome {
    if !Accepts(m, ts) then Outcome(m, false)
    else
      var obs := UsableAt(observations, ts);
      var pairs := Associate(cfg, m.targets, obs);
      Finish(cfg, m, obs, Survivors(cfg, m, obs, pairs, ts), Starters(cfg, obs, pairs, Observations(pairs), 0), ts)
  }

  // ---------------------------------------------------------------- marking

  /** std::find_if by id: the first position, if any. */
  function Find(targets: seq<Target>, id: nat): (at: Option<nat>)
    ensures at.Some? ==> at.value < |targets| && targets[at.value].id == id
    ensures at.None? ==> forall k | 0 <= k < |targets| :: targets[k].id != id
  {
    if targets == [] then None
    else if targets[0].id == id then Some(0)
    else
      var later := Find(targets[1..], id);
      assert later.None? ==> forall k | 1 <= k < |targets| :: targets[k] == targets[1..][k - 1];
      if later.None? then None else Some(later.value + 1)
  }

  /** MarkProcessed refuses negative times, unknown targets, lost ones unless allowed, and times before the last sighting. */
  predicate CanMark(m: Manager, id: nat, ts: int, allowLost: bool) {
    ts >= 0 &&
    match Find(m.targets, id)
    case None => false
    case Some(i) => (m.targets[i].state == Lost ==> allowLost) && ts >= m.targets[i].lastNs
  }

  function Mark(t: Target, ts: int): Target {
    t.(state := Processed, processedAtNs := ts, missed := 0)
  }

  function AfterMark(m: Manager, id: nat, ts: int, allowLost: bool): Manager {
    if CanMark(m, id, ts, allowLost) then
      var i := Find(m.targets, id).value;
      m.(targets := m.targets[i := Mark(m.targets[i], ts)])
    else m
  }

  // ---------------------------------------------------------------- the class

  class TargetManager {
    const cfg: Config
    var targets: seq<Target>
    var nextId: nat
    var lastUpdateNs: int

    ghost function Abstract(): Manager
      reads this
    {
      Manager(targets, nextId, lastUpdateNs)
    }

    constructor (cfg: Config)
      requires cfg.Valid()
      ensures this.cfg == cfg && Abstract() == EMPTY
    {
      this.cfg := cfg;
      targets, nextId, lastUpdateNs := [], 1, -1;
    }

    static method Create(raw: RawConfig) returns (manager: Option<TargetManager>)
      ensures manager.Some? <==> Accept(raw).Some?
      ensures manager.Some? ==> fresh(manager.value)
      ensures manager.Some? ==> manager.value.cfg == Accept(raw).value && manager.value.Abstract() == EMPTY
    {
      var cfg := Accept(raw);
      if cfg.None? {
        return None;
      }
      var m := new TargetManager(cfg.value);
      manager := Some(m);
    }

    method FilterObservations(observations: seq<Observation>, ts: int) returns (valid: seq<Observation>)
      ensures valid == UsableAt(observations, ts) && AllUsable(valid, ts)
    {
      valid := [];
      for i := 0 to |observations|
        invariant valid + UsableAt(observations[i..], ts) == UsableAt(observations, ts)
      {
        assert observations[i..][0] == observations[i] && observations[i..][1..] == observations[i + 1..];
        if IsValidObservation(observations[i]) && observations[i].timestampNs <= ts {
          valid := valid + [observations[i]];
        }
      }
      assert observations[|observations|..] == [];
    }

    method CollectCandidates(obs: seq<Observation>) returns (candidates: seq<Candidate>)
      ensures candidates == Candidates(cfg, targets, obs, 0)
    {
      candidates := [];
      for i := 0 to |targets|
        invariant candidates + Candidates(cfg, targets, obs, i) == Candidates(cfg, targets, obs, 0)
      {
        ghost var before := candidates;
        assert before + Candidates(cfg, targets, obs, i) ==
               (before + CandidatesOf(cfg, targets[i], i, obs, 0)) + Candidates(cfg, targets, obs, i + 1);
        for j := 0 to |obs|
          invariant candidates + CandidatesOf(cfg, targets[i], i, obs, j) == before + CandidatesOf(cfg, targets[i], i, obs, 0)
        {
          if targets[i].className != obs[j].className {
            continue;
          }
          var distance := DistanceSq(targets[i].filtered, obs[j].position);
          if distance <= cfg.maxMatchDistance * cfg.maxMatchDistance {
            candidates := candidates + [Candidate(distance, i, j, targets[i].id)];
          }
        }
      }
    }

    /** One matched target, field by field. */
    method UpdateMatchedTarget(i: nat, o: Observation, ts: int)
      requires i < |targets| && IsValidObservation(o)
      modifies this`targets
      ensures targets == old(targets)[i := AfterMatch(cfg, old(targets)[i], o, ts)]
    {
      var t := targets[i];
      var reactivate := CooldownExpired(cfg, t, ts);
      t := t.(raw := o.position, filtered := Filtered(t.filtered, o.position, cfg.emaAlpha));
      t := t.(confidence := o.confidence.value, lastNs := o.timestampNs, depthValid := o.depthValid);
      t := t.(missed := 0);
      if t.state == Processed && !reactivate {
        targets := targets[i := t];
        return;
      }
      if reactivate {
        t := t.(state := Tentative, hits := 1, processedAtNs := 0);
        targets := targets[i := t];
        return;
      }
      t := t.(hits := t.hits + 1);
      if t.state == Lost {
        t := t.(state := if t.hits >= cfg.confirmFrames then Confirmed else Tentative);
      } else if t.state == Tentative && t.hits >= cfg.confirmFrames {
        t := t.(state := Confirmed);
      }
      targets := targets[i := t];
    }

    /** The loop over the sorted candidates: each free pair updates its target and takes its observation. */
    method MatchTargets(sorted: seq<Candidate>, obs: seq<Observation>, ts: int)
      returns (matchedTargets: seq<bool>, matchedObservations: seq<bool>, accepted: seq<nat>, ghost pairs: seq<Candidate>)
      requires AllUsable(obs, ts) && InRange(sorted, |targets|, |obs|)
      modifies this`targets
      ensures pairs == Greedy(sorted, []) && accepted == Observations(pairs)
      ensures |targets| == |old(targets)| == |matchedTargets| && |matchedObservations| == |obs|
      ensures forall i | 0 <= i < |targets| :: matchedTargets[i] == PartnerOf(pairs, i).Some?
      ensures forall i | 0 <= i < |targets| :: targets[i] == Matched(cfg, old(targets)[i], PartnerOf(pairs, i), obs, ts)
      ensures forall j | 0 <= j < |obs| :: matchedObservations[j] == Takes(pairs, j)
    {
      hide Greedy, AfterMatch, PartnerOf, Takes, ClashesAny, Observations;
      matchedTargets := seq(|targets|, _ => false);
      matchedObservations := seq(|obs|, _ => false);
      accepted := [];
      pairs := [];
      NoPairs();
      for k := 0 to |sorted|
        invariant |targets| == |old(targets)| == |matchedTargets| && |matchedObservations| == |obs|
        invariant Greedy(sorted[k..], pairs) == Greedy(sorted, []) && accepted == Observations(pairs)
        invariant forall i | 0 <= i < |targets| :: matchedTargets[i] == PartnerOf(pairs, i).Some?
        invariant forall i | 0 <= i < |targets| :: targets[i] == Matched(cfg, old(targets)[i], PartnerOf(pairs, i), obs, ts)
        invariant forall j | 0 <= j < |obs| :: matchedObservations[j] == Takes(pairs, j)
      {
        var c := sorted[k];
        GreedyNext(sorted, k, pairs);
        ClashMeansTaken(pairs, c);
        if matchedTargets[c.target] || matchedObservations[c.observation] {
          continue;
        }
        AddPair(pairs, c);
        UpdateMatchedTarget(c.target, obs[c.observation], ts);
        matchedTargets := matchedTargets[c.target := true];
        matchedObservations := matchedObservations[c.observation := true];
        accepted := accepted + [c.observation];
        pairs := pairs + [c];
      }
      GreedyEnd(sorted, pairs);
    }

    method AgeUnmatchedTargets(matchedTargets: seq<bool>, ts: int)
      requires |matchedTargets| == |targets|
      modifies this`targets
      ensures |targets| == |old(targets)|
      ensures forall i | 0 <= i < |targets| ::
        targets[i] == if matchedTargets[i] then old(targets)[i] else Age(cfg, old(targets)[i], ts)
    {
      for i := 0 to |targets|
        invariant |targets| == |old(targets)|
        invariant forall k | 0 <= k < |targets| ::
          targets[k] == if k < i && !matchedTargets[k] then Age(cfg, old(targets)[k], ts) else old(targets)[k]
      {
        if matchedTargets[i] {
          continue;
        }
        var t := targets[i];
        var aged := t.(missed := t.missed + 1);
        if (aged.state == Tentative || aged.state == Confirmed) && aged.missed >= cfg.lostFrames {
          aged := aged.(state := Lost);
        }
        if aged.state == Processed && CooldownExpired(cfg, aged, ts) && aged.missed >= cfg.lostFrames {
          aged := aged.(state := Lost);
        }
        targets := targets[i := aged];
      }
    }

    method CreateTarget(o: Observation) returns (threw: bool)
      requires IsValidObservation(o)
      modifies this`targets, this`nextId
      ensures threw == (old(nextId) > MAX_ID)
      ensures threw ==> targets == old(targets) && nextId == old(nextId)
      ensures !threw ==> targets == old(targets) + [NewTarget(cfg, old(nextId), o)] && nextId == old(nextId) + 1
    {
      if nextId > MAX_ID {
        return true;
      }
      var t := NewTarget(cfg, nextId, o);
      nextId := nextId + 1;
      targets := targets + [t];
      threw := false;
    }

    /** One target per unmatched observation that is no duplicate; `threw` when the 32-bit ids run out. */
    method CreateTargets(obs: seq<Observation>, matchedObservations: seq<bool>, accepted: seq<nat>, ts: int,
                         ghost pairs: seq<Candidate>) returns (threw: bool, ghost made: seq<nat>)
      requires AllUsable(obs, ts) && |matchedObservations| == |obs|
      requires forall j | 0 <= j < |obs| :: matchedObservations[j] == Takes(pairs, j)
      modifies this`targets, this`nextId
      ensures Within(made, |obs|) && targets == old(targets) + NewTargets(cfg, obs, made, old(nextId), ts)
      ensures nextId == old(nextId) + |made|
      ensures var starters := Starters(cfg, obs, pairs, accepted, 0);
        if threw then made < starters && nextId > MAX_ID else made == starters
      ensures made == [] || nextId <= MAX_ID + 1
    {
      hide Starters, NewTargets, NewTarget, Duplicate, Takes, StartedSoFar;
      threw, made := false, [];
      var all: seq<nat> := accepted;
      NothingStarted(cfg, obs, pairs, accepted, ts, targets, nextId);
      for j := 0 to |obs|
        invariant StartedSoFar(cfg, obs, pairs, accepted, ts, old(targets), old(nextId), targets, nextId, made, all, j)
      {
        StartedNext(cfg, obs, pairs, accepted, ts, old(targets), old(nextId), targets, nextId, made, all, j);
        if matchedObservations[j] {
          continue;
        }
        var duplicate := Duplicate(cfg, obs, all, j);
        if duplicate {
          continue;
        }
        threw := CreateTarget(obs[j]);
        if threw {
          return;
        }
        made := made + [j];
        all := all + [j];
      }
      AllStarted(cfg, obs, pairs, accepted, ts, old(targets), old(nextId), targets, nextId, made, all);
    }

    method RemoveExpiredTargets(ts: int)
      modifies this`targets
      ensures targets == Kept(cfg, old(targets), ts)
    {
      var kept := [];
      for i := 0 to |targets|
        invariant targets == old(targets) && kept + Kept(cfg, targets[i..], ts) == Kept(cfg, targets, ts)
      {
        assert targets[i..][1..] == targets[i + 1..];
        if !Retired(cfg, targets[i], ts) {
          kept := kept + [targets[i]];
        }
      }
      assert targets[|targets|..] == [];
      targets := kept;
    }

    method Update(observations: seq<Observation>, ts: int) returns (threw: bool)
      modifies this
      ensures Outcome(Abstract(), threw) == AfterUpdate(cfg, old(Abstract()), observations, ts)
    {
      hide Associate, Starters, NewTargets, Kept, UsableAt, Observations, SortCandidates, Candidates, Greedy, PartnerOf;
      if ts < 0 || (lastUpdateNs >= 0 && ts < lastUpdateNs) {
        return false;
      }
      ghost var before := Abstract();
      lastUpdateNs := ts;
      var obs := FilterObservations(observations, ts);
      var candidates := CollectCandidates(obs);
      var sorted := SortCandidates(candidates);
      SortedInRange(cfg, targets, obs);
      var matchedTargets, matchedObservations, accepted, pairs := MatchTargets(sorted, obs, ts);
      assert pairs == Associate(cfg, before.targets, obs) by {
        AssociateIs(cfg, before.targets, obs);
      }
      AgeUnmatchedTargets(matchedTargets, ts);
      PartnersInRange(cfg, before.targets, obs);
      assert targets == Survivors(cfg, before, obs, pairs, ts);
      ghost var aged := targets;
      ghost var made;
      threw, made := CreateTargets(obs, matchedObservations, accepted, ts, pairs);
      FinishIs(cfg, before, obs, aged, Starters(cfg, obs, pairs, accepted, 0), ts, threw, made);
      if threw {
        return;
      }
      RemoveExpiredTargets(ts);
    }

    method MarkProcessed(id: nat, ts: int, allowLost: bool) returns (marked: bool)
      modifies this`targets
      ensures marked == CanMark(old(Abstract()), id, ts, allowLost)
      ensures Abstract() == AfterMark(old(Abstract()), id, ts, allowLost)
    {
      if ts < 0 {
        return false;
      }
      var at := Find(targets, id);
      if at.None? || (targets[at.value].state == Lost && !allowLost) || ts < targets[at.value].lastNs {
        return false;
      }
      var t := targets[at.value];
      targets := targets[at.value := t.(state := Processed, processedAtNs := ts, missed := 0)];
      marked := true;
    }
  }

  // ---------------------------------------------------------------- bookkeeping of the matching loop

  lemma NoPairs()
    ensures Observations([]) == []
    ensures forall i :: PartnerOf([], i) == None
    ensures forall j :: !Takes([], j)
  {
  }

  lemma GreedyNext(sorted: seq<Candidate>, k: nat, pairs: seq<Candidate>)
    requires k < |sorted|
    ensures Greedy(sorted[k..], pairs) ==
            Greedy(sorted[k + 1..], if ClashesAny(pairs, sorted[k]) then pairs else pairs + [sorted[k]])
  {
    assert sorted[k..][1..] == sorted[k + 1..];
  }

  lemma GreedyEnd(sorted: seq<Candidate>, pairs: seq<Candidate>)
    ensures Greedy(sorted[|sorted|..], pairs) == pairs
    ensures sorted[0..] == sorted
  {
  }

  lemma {:induction false} PartnerFound(pairs: seq<Candidate>, i: nat)
    ensures PartnerOf(pairs, i).Some? <==> exists k | 0 <= k < |pairs| :: pairs[k].target == i
  {
    if pairs != [] {
      PartnerFound(pairs[1..], i);
      if exists k | 0 <= k < |pairs| :: pairs[k].target == i {
        var k :| 0 <= k < |pairs| && pairs[k].target == i;
        assert k == 0 || pairs[1..][k - 1].target == i;
      }
    }
  }

  lemma ClashMeansTaken(pairs: seq<Candidate>, c: Candidate)
    ensures ClashesAny(pairs, c) <==> PartnerOf(pairs, c.target).Some? || Takes(pairs, c.observation)
  {
    PartnerFound(pairs, c.target);
    forall k | 0 <= k < |pairs|
      ensures pairs[k] in pairs
    {
    }
  }

  lemma {:induction false} PartnerAppend(pairs: seq<Candidate>, c: Candidate, i: nat)
    ensures PartnerOf(pairs + [c], i) ==
            if PartnerOf(pairs, i).Some? then PartnerOf(pairs, i) else if c.target == i then Some(c.observation) else None
  {
    if pairs == [] {
      assert pairs + [c] == [c];
    } else {
      assert (pairs + [c])[1..] == pairs[1..] + [c];
      PartnerAppend(pairs[1..], c, i);
    }
  }

  lemma {:induction false} ObservationsAppend(pairs: seq<Candidate>, c: Candidate)
    ensures Observations(pairs + [c]) == Observations(pairs) + [c.observation]
  {
    if pairs == [] {
      assert pairs + [c] == [c];
    } else {
      assert (pairs + [c])[1..] == pairs[1..] + [c];
      ObservationsAppend(pairs[1..], c);
    }
  }

  lemma TakesAppend(pairs: seq<Candidate>, c: Candidate, j: nat)
    ensures Takes(pairs + [c], j) <==> Takes(pairs, j) || j == c.observation
  {
    var more := pairs + [c];
    if Takes(pairs, j) {
      var k :| 0 <= k < |pairs| && pairs[k].observation == j;
      assert more[k].observation == j;
    }
    assert more[|pairs|] == c;
  }

  lemma AddPair(pairs: seq<Candidate>, c: Candidate)
    ensures Observations(pairs + [c]) == Observations(pairs) + [c.observation]
    ensures forall i | i != c.target || PartnerOf(pairs, i).Some? :: PartnerOf(pairs + [c], i) == PartnerOf(pairs, i)
    ensures PartnerOf(pairs, c.target).None? ==> PartnerOf(pairs + [c], c.target) == Some(c.observation)
    ensures forall j :: Takes(pairs + [c], j) <==> Takes(pairs, j) || j == c.observation
  {
    ObservationsAppend(pairs, c);
    forall i
      ensures PartnerOf(pairs + [c], i) ==
              if PartnerOf(pairs, i).Some? then PartnerOf(pairs, i) else if c.target == i then Some(c.observation) else None
    {
      PartnerAppend(pairs, c, i);
    }
    forall j
      ensures Takes(pairs + [c], j) <==> Takes(pairs, j) || j == c.observation
    {
      TakesAppend(pairs, c, j);
    }
  }

  // ---------------------------------------------------------------- bookkeeping of the other loops

  lemma FinishIs(cfg: Config, m: Manager, obs: seq<Observation>, aged: seq<Target>, starters: seq<nat>, ts: int,
                 threw: bool, made: seq<nat>)
    requires AllUsable(obs, ts) && Within(starters, |obs|) && Within(made, |obs|)
    requires if threw then made < starters && m.nextId + |made| > MAX_ID else made == starters
    requires made == [] || m.nextId + |made| <= MAX_ID + 1
    ensures var all := aged + NewTargets(cfg, obs, made, m.nextId, ts);
      Finish(cfg, m, obs, aged, starters, ts) ==
      Outcome(Manager(if threw then all else Kept(cfg, all, ts), m.nextId + |made|, ts), threw)
  {
    hide NewTargets, Kept;
    if threw {
      assert made == starters[..|made|];
    }
  }

  /** The targets made for the starters among the first `j` observations, `all` being the observations taken by then. */
  ghost predicate StartedSoFar(cfg: Config, obs: seq<Observation>, pairs: seq<Candidate>, accepted: seq<nat>, ts: int,
                               before: seq<Target>, first: nat, targets: seq<Target>, nextId: nat,
                               made: seq<nat>, all: seq<nat>, j: nat)
    requires AllUsable(obs, ts)
  {
    && Within(made, |obs|) && targets == before + NewTargets(cfg, obs, made, first, ts)
    && nextId == first + |made| && (made == [] || nextId <= MAX_ID + 1)
    && Starters(cfg, obs, pairs, accepted, 0) == made + Starters(cfg, obs, pairs, all, j)
  }

  lemma NothingStarted(cfg: Config, obs: seq<Observation>, pairs: seq<Candidate>, accepted: seq<nat>, ts: int,
                       targets: seq<Target>, nextId: nat)
    requires AllUsable(obs, ts)
    ensures StartedSoFar(cfg, obs, pairs, accepted, ts, targets, nextId, targets, nextId, [], accepted, 0)
  {
    hide Starters, NewTargets;
    NothingMade(cfg, obs, nextId, ts);
  }

  lemma StartedNext(cfg: Config, obs: seq<Observation>, pairs: seq<Candidate>, accepted: seq<nat>, ts: int,
                    before: seq<Target>, first: nat, targets: seq<Target>, nextId: nat,
                    made: seq<nat>, all: seq<nat>, j: nat)
    requires AllUsable(obs, ts) && j < |obs|
    requires StartedSoFar(cfg, obs, pairs, accepted, ts, before, first, targets, nextId, made, all, j)
    ensures Within(made, |obs|) && targets == before + NewTargets(cfg, obs, made, first, ts)
    ensures nextId == first + |made| && (made == [] || nextId <= MAX_ID + 1)
    ensures if Takes(pairs, j) || Duplicate(cfg, obs, all, j) then
              StartedSoFar(cfg, obs, pairs, accepted, ts, before, first, targets, nextId, made, all, j + 1)
            else
              && made < Starters(cfg, obs, pairs, accepted, 0)
              && (nextId <= MAX_ID ==>
                    StartedSoFar(cfg, obs, pairs, accepted, ts, before, first,
                                 targets + [NewTarget(cfg, nextId, obs[j])], nextId + 1, made + [j], all + [j], j + 1))
  {
    hide Starters, NewTargets, NewTarget, Duplicate, Takes, AllUsable, IsValidObservation;
    StartersNext(cfg, obs, pairs, all, j);
    if !Takes(pairs, j) && !Duplicate(cfg, obs, all, j) {
      PrefixOfStarters(made, j, Starters(cfg, obs, pairs, all + [j], j + 1));
      if nextId <= MAX_ID {
        OneMoreStarted(cfg, obs, pairs, accepted, ts, before, first, targets, nextId, made, all, j);
      }
    }
  }

  lemma OneMoreStarted(cfg: Config, obs: seq<Observation>, pairs: seq<Candidate>, accepted: seq<nat>, ts: int,
                       before: seq<Target>, first: nat, targets: seq<Target>, nextId: nat,
                       made: seq<nat>, all: seq<nat>, j: nat)
    requires AllUsable(obs, ts) && j < |obs| && nextId <= MAX_ID
    requires StartedSoFar(cfg, obs, pairs, accepted, ts, before, first, targets, nextId, made, all, j)
    requires Starters(cfg, obs, pairs, all, j) == [j] + Starters(cfg, obs, pairs, all + [j], j + 1)
    ensures StartedSoFar(cfg, obs, pairs, accepted, ts, before, first,
                         targets + [NewTarget(cfg, nextId, obs[j])], nextId + 1, made + [j], all + [j], j + 1)
  {
    hide Starters, NewTargets, NewTarget, AllUsable, IsValidObservation, Within;
    var later := Starters(cfg, obs, pairs, all + [j], j + 1);
    OneMoreMade(cfg, obs, made, j, first, ts);
    assert made + ([j] + later) == (made + [j]) + later;
  }

  lemma AllStarted(cfg: Config, obs: seq<Observation>, pairs: seq<Candidate>, accepted: seq<nat>, ts: int,
                   before: seq<Target>, first: nat, targets: seq<Target>, nextId: nat, made: seq<nat>, all: seq<nat>)
    requires AllUsable(obs, ts)
    requires StartedSoFar(cfg, obs, pairs, accepted, ts, before, first, targets, nextId, made, all, |obs|)
    ensures Within(made, |obs|) && targets == before + NewTargets(cfg, obs, made, first, ts)
    ensures nextId == first + |made| && (made == [] || nextId <= MAX_ID + 1)
    ensures made == Starters(cfg, obs, pairs, accepted, 0)
  {
    hide Starters, NewTargets;
    NoStartersLeft(cfg, obs, pairs, all);
  }

  lemma NothingMade(cfg: Config, obs: seq<Observation>, nextId: nat, ts: int)
    requires AllUsable(obs, ts)
    ensures NewTargets(cfg, obs, [], nextId, ts) == []
  {
  }

  lemma StartersNext(cfg: Config, obs: seq<Observation>, pairs: seq<Candidate>, accepted: seq<nat>, j: nat)
    requires j < |obs|
    ensures Starters(cfg, obs, pairs, accepted, j) ==
            if Takes(pairs, j) || Duplicate(cfg, obs, accepted, j) then Starters(cfg, obs, pairs, accepted, j + 1)
            else [j] + Starters(cfg, obs, pairs, accepted + [j], j + 1)
  {
  }

  lemma NoStartersLeft(cfg: Config, obs: seq<Observation>, pairs: seq<Candidate>, accepted: seq<nat>)
    ensures Starters(cfg, obs, pairs, accepted, |obs|) == []
  {
  }

  lemma PrefixOfStarters(made: seq<nat>, j: nat, more: seq<nat>)
    ensures made < made + ([j] + more)
  {
  }

  lemma {:induction false} OneMoreMade(cfg: Config, obs: seq<Observation>, made: seq<nat>, j: nat, nextId: nat, ts: int)
    requires AllUsable(obs, ts) && Within(made, |obs|) && j < |obs|
    ensures Within(made + [j], |obs|)
    ensures NewTargets(cfg, obs, made + [j], nextId, ts) ==
            NewTargets(cfg, obs, made, nextId, ts) + [NewTarget(cfg, nextId + |made|, obs[j])]
  {
    if made == [] {
      assert made + [j] == [j];
      assert [j][1..] == [];
    } else {
      assert (made + [j])[1..] == made[1..] + [j];
      OneMoreMade(cfg, obs, made[1..], j, nextId + 1, ts);
    }
  }

  lemma {:induction false} CandidatesOfInRange(cfg: Config, t: Target, i: nat, obs: seq<Observation>, j: nat)
    ensures forall c | c in CandidatesOf(cfg, t, i, obs, j) ::
      c.target == i && j <= c.observation < |obs| && Eligible(cfg, t, obs[c.observation])
      && c == PairUp(t, i, obs[c.observation], c.observation)
    decreases |obs| - j
  {
    if j < |obs| {
      CandidatesOfInRange(cfg, t, i, obs, j + 1);
    }
  }

  /** A genuine candidate: a target and a same-class observation within the matching distance. */
  ghost predicate IsCandidate(cfg: Config, targets: seq<Target>, obs: seq<Observation>, c: Candidate) {
    && c.target < |targets| && c.observation < |obs|
    && Eligible(cfg, targets[c.target], obs[c.observation])
    && c == PairUp(targets[c.target], c.target, obs[c.observation], c.observation)
  }

  lemma {:induction false} CandidatesInRange(cfg: Config, targets: seq<Target>, obs: seq<Observation>, i: nat)
    ensures forall c | c in Candidates(cfg, targets, obs, i) :: c.target >= i && IsCandidate(cfg, targets, obs, c)
    decreases |targets| - i
  {
    if i < |targets| {
      CandidatesOfInRange(cfg, targets[i], i, obs, 0);
      CandidatesInRange(cfg, targets, obs, i + 1);
    }
  }

  lemma SortedInRange(cfg: Config, targets: seq<Target>, obs: seq<Observation>)
    ensures InRange(SortCandidates(Candidates(cfg, targets, obs, 0)), |targets|, |obs|)
  {
    var cs := Candidates(cfg, targets, obs, 0);
    SortElements(cs);
    CandidatesInRange(cfg, targets, obs, 0);
    forall k | 0 <= k < |SortCandidates(cs)|
      ensures IsCandidate(cfg, targets, obs, SortCandidates(cs)[k])
    {
      assert SortCandidates(cs)[k] in SortCandidates(cs);
    }
  }

  lemma AssociateIs(cfg: Config, targets: seq<Target>, obs: seq<Observation>)
    ensures Associate(cfg, targets, obs) == Greedy(SortCandidates(Candidates(cfg, targets, obs, 0)), [])
  {
  }

  lemma {:induction false} GreedyTakesFrom(sorted: seq<Candidate>, chosen: seq<Candidate>)
    ensures forall c | c in Greedy(sorted, chosen) :: c in sorted || c in chosen
    decreases |sorted|
  {
    if sorted != [] {
      GreedyTakesFrom(sorted[1..], if ClashesAny(chosen, sorted[0]) then chosen else chosen + [sorted[0]]);
    }
  }

  lemma AssociatedAreCandidates(cfg: Config, targets: seq<Target>, obs: seq<Observation>)
    ensures forall c | c in Associate(cfg, targets, obs) :: IsCandidate(cfg, targets, obs, c)
  {
    var cs := Candidates(cfg, targets, obs, 0);
    GreedyTakesFrom(SortCandidates(cs), []);
    SortElements(cs);
    CandidatesInRange(cfg, targets, obs, 0);
  }

  lemma {:induction false} PartnerAmong(pairs: seq<Candidate>, i: nat)
    requires PartnerOf(pairs, i).Some?
    ensures exists c | c in pairs :: c.target == i && c.observation == PartnerOf(pairs, i).value
  {
    if pairs[0].target != i {
      PartnerAmong(pairs[1..], i);
    }
  }

  lemma PartnersInRange(cfg: Config, targets: seq<Target>, obs: seq<Observation>)
    ensures forall i | PartnerOf(Associate(cfg, targets, obs), i).Some? ::
      PartnerOf(Associate(cfg, targets, obs), i).value < |obs|
  {
    var pairs := Associate(cfg, targets, obs);
    AssociatedAreCandidates(cfg, targets, obs);
    forall i | PartnerOf(pairs, i).Some?
      ensures PartnerOf(pairs, i).value < |obs|
    {
      PartnerAmong(pairs, i);
    }
  }
}
