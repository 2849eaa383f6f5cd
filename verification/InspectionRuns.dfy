// The inspection run of geometry_validation_node.cpp: every detection batch updates the
// target manager and then offers each target to the event policy of
// inspection_event_policy.cpp; a completed inspection marks its target processed.
module InspectionRuns {
  import opened Common
  import opened TargetTracking
  import opened TargetAssociation
  import opened TargetLifecycle

  // ---------------------------------------------------------------- the policy

  datatype RawPolicyConfig = RawPolicyConfig(enabled: bool, allowedClasses: seq<string>, minConfidence: Double)

  datatype PolicyConfig = PolicyConfig(enabled: bool, allowedClasses: seq<string>, minConfidence: real)

  function NonEmpty(names: seq<string>): (kept: seq<string>)
    ensures forall n :: n in kept <==> n in names && n != ""
  {
    if names == [] then []
    else if names[0] == "" then NonEmpty(names[1..])
    else [names[0]] + NonEmpty(names[1..])
  }

  /** The constructor: the threshold must lie in [0, 1], empty class names are dropped. */
  function AcceptPolicy(raw: RawPolicyConfig): (pc: Option<PolicyConfig>)
    ensures pc.Some? <==> raw.minConfidence.Finite? && 0.0 <= raw.minConfidence.value <= 1.0
    ensures pc.Some? ==>
              && pc.value.enabled == raw.enabled && pc.value.minConfidence == raw.minConfidence.value
              && forall n :: n in pc.value.allowedClasses <==> n in raw.allowedClasses && n != ""
  {
    if raw.minConfidence.NonFinite? || raw.minConfidence.value < 0.0 || raw.minConfidence.value > 1.0 then None
    else Some(PolicyConfig(raw.enabled, NonEmpty(raw.allowedClasses), raw.minConfidence.value))
  }

  /** The target may raise an inspection, apart from having raised one already. */
  predicate Actionable(pc: PolicyConfig, t: Target) {
    && pc.enabled && t.id != 0 && t.state == Confirmed && t.depthValid
    && t.confidence >= pc.minConfidence && t.className in pc.allowedClasses
  }

  function Rearmed(emitted: set<nat>, t: Target): set<nat> {
    if t.state == Tentative then emitted - {t.id} else emitted
  }

  predicate Emits(pc: PolicyConfig, emitted: set<nat>, t: Target) {
    Actionable(pc, t) && t.id !in emitted
  }

  class InspectionEventPolicy {
    const pc: PolicyConfig
    var emitted: set<nat>

    constructor (pc: PolicyConfig)
      ensures this.pc == pc && emitted == {}
    {
      this.pc := pc;
      emitted := {};
    }

    static method Create(raw: RawPolicyConfig) returns (policy: Option<InspectionEventPolicy>)
      ensures policy.Some? <==> AcceptPolicy(raw).Some?
      ensures policy.Some? ==> fresh(policy.value)
      ensures policy.Some? ==> policy.value.pc == AcceptPolicy(raw).value && policy.value.emitted == {}
    {
      var pc := AcceptPolicy(raw);
      match pc {
        case None => policy := None;
        case Some(accepted) =>
          var p := new InspectionEventPolicy(accepted);
          policy := Some(p);
      }
    }

    method ShouldEmit(t: Target) returns (emit: bool)
      modifies this
      ensures emit == Emits(pc, old(emitted), t)
      ensures emitted == Rearmed(old(emitted), t) + if emit then {t.id} else {}
    {
      if t.state == Tentative && t.id in emitted {
        emitted := emitted - {t.id};
      }
      if !pc.enabled || t.id == 0 || t.state != Confirmed || !t.depthValid
         || t.confidence < pc.minConfidence || t.id in emitted {
        return false;
      }
      if t.className !in pc.allowedClasses {
        return false;
      }
      emitted := emitted + {t.id};
      emit := true;
    }
  }

  // ---------------------------------------------------------------- publishing all targets

  datatype Published = Published(emitted: set<nat>, ids: seq<nat>)

  /** ShouldEmit on each target in turn. */
  function Publish(pc: PolicyConfig, emitted: set<nat>, targets: seq<Target>): Published
    decreases |targets|
  {
    if targets == [] then Published(emitted, [])
    else
      var t := targets[0];
      var emits := Emits(pc, emitted, t);
      var rest := Publish(pc, Rearmed(emitted, t) + if emits then {t.id} else {}, targets[1..]);
      Published(rest.emitted, (if emits then [t.id] else []) + rest.ids)
  }

  method PublishManagedTargets(policy: InspectionEventPolicy, targets: seq<Target>) returns (ids: seq<nat>)
    modifies policy
    ensures Published(policy.emitted, ids) == Publish(policy.pc, old(policy.emitted), targets)
  {
    ids := [];
    ghost var start := policy.emitted;
    for i := 0 to |targets|
      invariant Publish(policy.pc, start, targets) ==
                var rest := Publish(policy.pc, policy.emitted, targets[i..]);
                Published(rest.emitted, ids + rest.ids)
    {
      assert targets[i..][1..] == targets[i + 1..];
      ghost var before := policy.emitted;
      var emit := policy.ShouldEmit(targets[i]);
      ghost var rest := Publish(policy.pc, policy.emitted, targets[i + 1..]);
      assert Publish(policy.pc, before, targets[i..]).ids == (if emit then [targets[i].id] else []) + rest.ids;
      if emit {
        assert ids + ([targets[i].id] + rest.ids) == (ids + [targets[i].id]) + rest.ids;
        ids := ids + [targets[i].id];
      } else {
        assert [] + rest.ids == rest.ids;
      }
    }
    assert targets[|targets|..] == [];
  }

  /** What publishing does for one id: it depends on that id's target and its own emitted mark alone. */
  lemma {:induction false} PublishIs(pc: PolicyConfig, emitted: set<nat>, targets: seq<Target>, id: nat)
    requires IdsAscend(targets)
    ensures var p := Publish(pc, emitted, targets);
      match Lookup(targets, id)
      case None => id !in p.ids && (id in p.emitted <==> id in emitted)
      case Some(t) =>
        && (id in p.ids <==> Emits(pc, emitted, t))
        && (id in p.emitted <==> id in Rearmed(emitted, t) || Emits(pc, emitted, t))
    decreases |targets|
  {
    hide Actionable;
    if targets != [] {
      var t := targets[0];
      var emits := Emits(pc, emitted, t);
      var next := Rearmed(emitted, t) + if emits then {t.id} else {};
      PublishIs(pc, next, targets[1..], id);
      if t.id == id {
        LookupTailNone(targets);
      } else if Lookup(targets[1..], id).Some? {
        var i := LookupIndex(targets[1..], id);
      }
    }
  }

  lemma LookupTailNone(targets: seq<Target>)
    requires IdsAscend(targets) && targets != []
    ensures Lookup(targets[1..], targets[0].id).None?
  {
    forall i | 0 <= i < |targets[1..]|
      ensures targets[1..][i].id != targets[0].id
    {
      assert targets[0].id < targets[i + 1].id;
    }
    LookupMissing(targets[1..], targets[0].id);
  }

  // ---------------------------------------------------------------- the node's steps

  datatype NodeEvent =
    | Detections(observations: seq<Observation>, ts: int)
    | InspectionCompleted(id: nat, stamp: int)

  datatype Node = Node(manager: Manager, emitted: set<nat>)

  const FRESH := Node(EMPTY, {})

  /** A completion is never dated before the last sighting of its target. */
  function CompletionTime(m: Manager, id: nat, stamp: int): int {
    match Find(m.targets, id)
    case None => stamp
    case Some(i) => if m.targets[i].lastNs > stamp then m.targets[i].lastNs else stamp
  }

  function ManagerEvent(m: Manager, e: NodeEvent): Event {
    match e
    case Detections(observations, ts) => Observe(observations, ts)
    case InspectionCompleted(id, stamp) => Complete(id, CompletionTime(m, id, stamp), true)
  }

  datatype NodeStep = NodeStep(node: Node, ids: seq<nat>, threw: bool)

  function After(cfg: Config, pc: PolicyConfig, n: Node, e: NodeEvent): NodeStep {
    var o := Step(cfg, n.manager, ManagerEvent(n.manager, e));
    if e.Detections? && !o.threw then
      var p := Publish(pc, n.emitted, o.manager.targets);
      NodeStep(Node(o.manager, p.emitted), p.ids, false)
    else NodeStep(Node(o.manager, n.emitted), [], o.threw)
  }

  method HandleDetections(manager: TargetManager, policy: InspectionEventPolicy, observations: seq<Observation>, ts: int)
    returns (ids: seq<nat>, threw: bool)
    modifies manager, policy
    ensures NodeStep(Node(manager.Abstract(), policy.emitted), ids, threw) ==
            After(manager.cfg, policy.pc, old(Node(manager.Abstract(), policy.emitted)), Detections(observations, ts))
  {
    hide AfterUpdate, Publish;
    threw := manager.Update(observations, ts);
    if threw {
      return [], true;
    }
    ids := PublishManagedTargets(policy, manager.targets);
  }

  method HandlePerceptionEvent(manager: TargetManager, ghost policy: InspectionEventPolicy, id: nat, stamp: int)
    modifies manager
    ensures NodeStep(Node(manager.Abstract(), policy.emitted), [], false) ==
            After(manager.cfg, policy.pc, old(Node(manager.Abstract(), policy.emitted)), InspectionCompleted(id, stamp))
  {
    hide AfterMark, Publish;
    var timestamp := stamp;
    var at := Find(manager.targets, id);
    if at.Some? && manager.targets[at.value].lastNs > timestamp {
      timestamp := manager.targets[at.value].lastNs;
    }
    var marked := manager.MarkProcessed(id, timestamp, true);
  }

  // ---------------------------------------------------------------- runs

  /** A run of the node: its states, its events, and the ids for which each event raised INSPECTION_REQUIRED. */
  ghost predicate IsNodeRun(cfg: Config, pc: PolicyConfig, nodes: seq<Node>, events: seq<NodeEvent>, raised: seq<seq<nat>>) {
    && cfg.Valid() && |nodes| == |events| + 1 == |raised| + 1 && nodes[0] == FRESH
    && forall k | 0 <= k < |events| :: After(cfg, pc, nodes[k], events[k]) == NodeStep(nodes[k + 1], raised[k], false)
  }

  ghost function Managers(nodes: seq<Node>): seq<Manager> {
    seq(|nodes|, i requires 0 <= i < |nodes| => nodes[i].manager)
  }

  ghost function ManagerEvents(nodes: seq<Node>, events: seq<NodeEvent>): seq<Event>
    requires |nodes| > |events|
  {
    seq(|events|, i requires 0 <= i < |events| => ManagerEvent(nodes[i].manager, events[i]))
  }

  lemma ManagerRun(cfg: Config, pc: PolicyConfig, nodes: seq<Node>, events: seq<NodeEvent>, raised: seq<seq<nat>>)
    requires IsNodeRun(cfg, pc, nodes, events, raised)
    ensures IsRun(cfg, Managers(nodes), ManagerEvents(nodes, events))
  {
    hide Step, Publish, ManagerEvent;
    forall k | 0 <= k < |events|
      ensures Step(cfg, Managers(nodes)[k], ManagerEvents(nodes, events)[k]) == Outcome(Managers(nodes)[k + 1], false)
    {
      assert After(cfg, pc, nodes[k], events[k]) == NodeStep(nodes[k + 1], raised[k], false);
    }
  }

  /** Step `k` of a node run, with all that is known about it. */
  lemma NodeStepIs(cfg: Config, pc: PolicyConfig, nodes: seq<Node>, events: seq<NodeEvent>, raised: seq<seq<nat>>, k: nat)
    requires IsNodeRun(cfg, pc, nodes, events, raised) && k < |events|
    ensures Inv(cfg, nodes[k].manager) && Inv(cfg, nodes[k + 1].manager)
    ensures nodes[k].manager.nextId <= nodes[k + 1].manager.nextId
    ensures After(cfg, pc, nodes[k], events[k]) == NodeStep(nodes[k + 1], raised[k], false)
    ensures Step(cfg, nodes[k].manager, ManagerEvent(nodes[k].manager, events[k])) == Outcome(nodes[k + 1].manager, false)
  {
    hide Step, Publish, Inv, ManagerEvent;
    ManagerRun(cfg, pc, nodes, events, raised);
    ReachableStatesAreSound(cfg, Managers(nodes), ManagerEvents(nodes, events), k);
    ReachableStatesAreSound(cfg, Managers(nodes), ManagerEvents(nodes, events), k + 1);
    StepKeepsInv(cfg, nodes[k].manager, ManagerEvent(nodes[k].manager, events[k]));
  }

  /** An id that has raised an inspection and is still armed belongs to a target that has been confirmed since it was last rearmed. */
  predicate Settled(cfg: Config, n: Node, id: nat) {
    id in n.emitted ==>
      id < n.manager.nextId
      && match Lookup(n.manager.targets, id)
         case None => true
         case Some(t) => t.hits >= cfg.confirmFrames && t.state != Tentative
  }

  lemma HitsGrow(cfg: Config, t: Target, o: Option<Observation>, ts: int)
    requires t.hits >= cfg.confirmFrames && t.state != Tentative && (o.Some? ==> IsValidObservation(o.value))
    ensures var a := Evolve(cfg, t, o, ts);
      if a.state == Tentative then t.state == Processed && CooldownExpired(cfg, t, ts)
      else a.hits >= cfg.confirmFrames
  {
  }

  /** From settled to settled, a target turns TENTATIVE only by an update after its cooldown. */
  lemma FateOfSettled(cfg: Config, m: Manager, e: Event, t: Target)
    requires t.hits >= cfg.confirmFrames && t.state != Tentative
    ensures var f := Fate(cfg, m, e, t);
      f.Some? ==>
        if f.value.state == Tentative then AcceptedUpdate(m, e) && t.state == Processed && CooldownExpired(cfg, t, e.ts)
        else f.value.hits >= cfg.confirmFrames
  {
    hide Sighting, CanMark, Accepts, Evolve, CooldownExpired;
    if e.Observe? {
      HitsGrow(cfg, t, Sighting(cfg, m, e.observations, e.ts, t.id), e.ts);
    }
  }

  lemma PublishSettles(cfg: Config, pc: PolicyConfig, m: Manager, emitted: set<nat>, id: nat)
    requires Inv(cfg, m)
    requires id in emitted ==> id < m.nextId
    requires id in emitted && Lookup(m.targets, id).Some? ==>
               Lookup(m.targets, id).value.state == Tentative || Lookup(m.targets, id).value.hits >= cfg.confirmFrames
    ensures Settled(cfg, Node(m, Publish(pc, emitted, m.targets).emitted), id)
  {
    hide Publish, TargetOk;
    PublishIs(pc, emitted, m.targets, id);
    if Lookup(m.targets, id).Some? {
      var i := LookupIndex(m.targets, id);
      ConfirmedHits(cfg, m.targets[i]);
    }
  }

  lemma ConfirmedHits(cfg: Config, t: Target)
    requires TargetOk(cfg, t)
    ensures t.id >= 1 && (t.state == Confirmed ==> t.hits >= cfg.confirmFrames)
  {
  }

  lemma SettledStep(cfg: Config, pc: PolicyConfig, n: Node, e: NodeEvent, id: nat)
    requires Inv(cfg, n.manager) && Settled(cfg, n, id) && !After(cfg, pc, n, e).threw
    requires Inv(cfg, After(cfg, pc, n, e).node.manager)
    requires n.manager.nextId <= After(cfg, pc, n, e).node.manager.nextId
    ensures Settled(cfg, After(cfg, pc, n, e).node, id)
  {
    hide Step, Publish, Fate, Inv, Lookup, CompletionTime;
    var me := ManagerEvent(n.manager, e);
    var m := Step(cfg, n.manager, me).manager;
    if id in n.emitted {
      StepOf(cfg, n.manager, me, id);
      if Lookup(n.manager.targets, id).Some? {
        FateOfSettled(cfg, n.manager, me, Lookup(n.manager.targets, id).value);
      }
    }
    if e.Detections? {
      PublishSettles(cfg, pc, m, n.emitted, id);
    }
  }

  lemma {:induction false} AlwaysSettled(cfg: Config, pc: PolicyConfig, nodes: seq<Node>, events: seq<NodeEvent>,
                                         raised: seq<seq<nat>>, k: nat, id: nat)
    requires IsNodeRun(cfg, pc, nodes, events, raised) && k <= |events|
    ensures Settled(cfg, nodes[k], id)
  {
    hide After, Inv;
    if k > 0 {
      AlwaysSettled(cfg, pc, nodes, events, raised, k - 1, id);
      NodeStepIs(cfg, pc, nodes, events, raised, k - 1);
      SettledStep(cfg, pc, nodes[k - 1], events[k - 1], id);
    }
  }

  // ---------------------------------------------------------------- one inspection per activation

  /** Event `k` successfully marks target `id` processed. */
  predicate Marks(nodes: seq<Node>, events: seq<NodeEvent>, k: nat, id: nat)
    requires |nodes| > |events| > k
  {
    && events[k].InspectionCompleted? && events[k].id == id
    && CanMark(nodes[k].manager, id, CompletionTime(nodes[k].manager, id, events[k].stamp), true)
  }

  /** Event `l` is an accepted update at least the cooldown after the completion time of event `k`. */
  predicate CooledSince(cfg: Config, nodes: seq<Node>, events: seq<NodeEvent>, k: nat, l: nat, id: nat)
    requires |nodes| > |events| && k < |events| && l < |events|
  {
    && events[k].InspectionCompleted? && events[l].Detections? && Accepts(nodes[l].manager, events[l].ts)
    && var at := CompletionTime(nodes[k].manager, id, events[k].stamp);
       (events[l].ts - at) as real / 1000000000.0 >= cfg.cooldownSec
  }

  ghost predicate HeldSince(nodes: seq<Node>, k: nat, id: nat, at: int)
    requires k < |nodes|
  {
    var t := Lookup(nodes[k].manager.targets, id);
    t.Some? && t.value.state == Processed && t.value.processedAtNs == at
  }

  lemma RaisedMeans(cfg: Config, pc: PolicyConfig, nodes: seq<Node>, events: seq<NodeEvent>, raised: seq<seq<nat>>, k: nat, id: nat)
    requires IsNodeRun(cfg, pc, nodes, events, raised) && k < |events| && id in raised[k]
    ensures id !in nodes[k].emitted && id in nodes[k + 1].emitted && id < nodes[k + 1].manager.nextId
    ensures var t := Lookup(nodes[k + 1].manager.targets, id); t.Some? && t.value.state == Confirmed
  {
    hide Step, Publish;
    NodeStepIs(cfg, pc, nodes, events, raised, k);
    var m := nodes[k + 1].manager;
    PublishIs(pc, nodes[k].emitted, m.targets, id);
    var i := LookupIndex(m.targets, id);
  }

  /** The step that rearms an id is an update after the cooldown of its processed target. */
  lemma RearmingStep(cfg: Config, pc: PolicyConfig, nodes: seq<Node>, events: seq<NodeEvent>, raised: seq<seq<nat>>, l: nat, id: nat)
    requires IsNodeRun(cfg, pc, nodes, events, raised) && l < |events|
    requires id in nodes[l].emitted && id !in nodes[l + 1].emitted
    ensures events[l].Detections? && Accepts(nodes[l].manager, events[l].ts) && id < nodes[l].manager.nextId
    ensures var t := Lookup(nodes[l].manager.targets, id);
      t.Some? && t.value.state == Processed && CooldownExpired(cfg, t.value, events[l].ts)
  {
    hide Step, Publish, Fate, TargetOk, CooldownExpired, Accepts;
    NodeStepIs(cfg, pc, nodes, events, raised, l);
    AlwaysSettled(cfg, pc, nodes, events, raised, l, id);
    var before, after := nodes[l].manager, nodes[l + 1].manager;
    var me := ManagerEvent(before, events[l]);
    PublishIs(pc, nodes[l].emitted, after.targets, id);
    StepOf(cfg, before, me, id);
    FateOfSettled(cfg, before, me, Lookup(before.targets, id).value);
  }

  /** A target confirmed after event `i` and processed before event `l` was marked in between, at the time it carries. */
  lemma {:induction false} MarkedInBetween(cfg: Config, pc: PolicyConfig, nodes: seq<Node>, events: seq<NodeEvent>,
                                           raised: seq<seq<nat>>, i: nat, l: nat, id: nat, at: int) returns (k: nat)
    requires IsNodeRun(cfg, pc, nodes, events, raised) && i <= l <= |events|
    requires id < nodes[i].manager.nextId
    requires var t := Lookup(nodes[i].manager.targets, id); t.Some? && t.value.state == Confirmed
    requires HeldSince(nodes, l, id, at)
    ensures i <= k < l && Marks(nodes, events, k, id)
    ensures CompletionTime(nodes[k].manager, id, events[k].stamp) == at
    decreases l - i
  {
    hide Step, After, Inv, CanMark, CompletionTime, Fate;
    assert i < l;
    NodeStepIs(cfg, pc, nodes, events, raised, l - 1);
    StillKnown(cfg, pc, nodes, events, raised, i, l - 1, id);
    var m, e := nodes[l - 1].manager, events[l - 1];
    StepOf(cfg, m, ManagerEvent(m, e), id);
    if HeldSince(nodes, l - 1, id, at) {
      k := MarkedInBetween(cfg, pc, nodes, events, raised, i, l - 1, id, at);
    } else {
      k := l - 1;
      BecomesProcessed(cfg, m, ManagerEvent(m, e), Lookup(m.targets, id).value);
    }
  }

  lemma BecomesProcessed(cfg: Config, m: Manager, e: Event, t: Target)
    requires Fate(cfg, m, e, t).Some? && Fate(cfg, m, e, t).value.state == Processed
    ensures || (t.state == Processed && t.processedAtNs == Fate(cfg, m, e, t).value.processedAtNs)
            || (e.Complete? && e.id == t.id && CanMark(m, e.id, e.at, e.allowLost) && Fate(cfg, m, e, t).value.processedAtNs == e.at)
  {
    hide Sighting, CanMark, Accepts;
  }

  lemma {:induction false} StillKnown(cfg: Config, pc: PolicyConfig, nodes: seq<Node>, events: seq<NodeEvent>,
                                      raised: seq<seq<nat>>, i: nat, j: nat, id: nat)
    requires IsNodeRun(cfg, pc, nodes, events, raised) && i <= j <= |events|
    requires id < nodes[i].manager.nextId
    ensures id < nodes[j].manager.nextId
    decreases j - i
  {
    hide After, Inv, Step;
    if i < j {
      StillKnown(cfg, pc, nodes, events, raised, i, j - 1, id);
      NodeStepIs(cfg, pc, nodes, events, raised, j - 1);
    }
  }

  /** Between a state where the id is armed and one where it is not, some step rearms it. */
  lemma {:induction false} SomeStepRearms(nodes: seq<Node>, i: nat, j: nat, id: nat) returns (l: nat)
    requires i <= j < |nodes| && id in nodes[i].emitted && id !in nodes[j].emitted
    ensures i <= l < j && id in nodes[l].emitted && id !in nodes[l + 1].emitted
    decreases j - i
  {
    if id in nodes[j - 1].emitted {
      l := j - 1;
    } else {
      l := SomeStepRearms(nodes, i, j - 1, id);
    }
  }

  /**
   * Over every run: between two INSPECTION_REQUIRED events for the same target there is a successful
   * completion of that target, followed by an accepted update at least the cooldown after it.
   */
  lemma OneInspectionPerActivation(cfg: Config, pc: PolicyConfig, nodes: seq<Node>, events: seq<NodeEvent>,
                                   raised: seq<seq<nat>>, i: nat, j: nat, id: nat)
    requires IsNodeRun(cfg, pc, nodes, events, raised) && i < j < |events| && id in raised[i] && id in raised[j]
    ensures exists k, l | i < k < l < j :: Marks(nodes, events, k, id) && CooledSince(cfg, nodes, events, k, l, id)
  {
    hide After, Inv, Step, Marks, Accepts, CompletionTime;
    RaisedMeans(cfg, pc, nodes, events, raised, i, id);
    RaisedMeans(cfg, pc, nodes, events, raised, j, id);
    var l := SomeStepRearms(nodes, i + 1, j, id);
    RearmingStep(cfg, pc, nodes, events, raised, l, id);
    var at := Lookup(nodes[l].manager.targets, id).value.processedAtNs;
    var k := MarkedInBetween(cfg, pc, nodes, events, raised, i + 1, l, id, at);
    MarksCompletion(nodes, events, k, id);
    assert CooledSince(cfg, nodes, events, k, l, id);
  }

  lemma MarksCompletion(nodes: seq<Node>, events: seq<NodeEvent>, k: nat, id: nat)
    requires |nodes| > |events| > k && Marks(nodes, events, k, id)
    ensures events[k].InspectionCompleted?
  {
  }

  /** Losing and re-finding a target never raises it again: without a completion it is raised at most once. */
  lemma NoCompletionNoRepeat(cfg: Config, pc: PolicyConfig, nodes: seq<Node>, events: seq<NodeEvent>,
                             raised: seq<seq<nat>>, i: nat, j: nat, id: nat)
    requires IsNodeRun(cfg, pc, nodes, events, raised) && i < j < |events| && id in raised[i]
    requires forall k | i < k < j :: !(events[k].InspectionCompleted? && events[k].id == id)
    ensures id !in raised[j]
  {
    hide After, CanMark, CooledSince;
    if id in raised[j] {
      OneInspectionPerActivation(cfg, pc, nodes, events, raised, i, j, id);
    }
  }

  ghost predicate Distinct(ids: seq<nat>) {
    forall a, b | 0 <= a < b < |ids| :: ids[a] != ids[b]
  }

  /** One event raises each id at most once. */
  lemma {:induction false} PublishedOnce(pc: PolicyConfig, emitted: set<nat>, targets: seq<Target>)
    requires IdsAscend(targets)
    ensures Distinct(Publish(pc, emitted, targets).ids)
    decreases |targets|
  {
    hide Emits;
    if targets != [] {
      var t := targets[0];
      var next := Rearmed(emitted, t) + if Emits(pc, emitted, t) then {t.id} else {};
      PublishedOnce(pc, next, targets[1..]);
      LookupTailNone(targets);
      PublishIs(pc, next, targets[1..], t.id);
    }
  }

  /** A confirmed, eligible target whose id is not marked emitted does raise an inspection. */
  lemma EligibleTargetsAreRaised(cfg: Config, pc: PolicyConfig, nodes: seq<Node>, events: seq<NodeEvent>,
                                 raised: seq<seq<nat>>, k: nat, id: nat)
    requires IsNodeRun(cfg, pc, nodes, events, raised) && k < |events| && events[k].Detections?
    ensures var t := Lookup(nodes[k + 1].manager.targets, id);
      id in raised[k] <==> t.Some? && Actionable(pc, t.value) && id !in nodes[k].emitted
    ensures Distinct(raised[k])
  {
    hide Step, Publish, Actionable;
    NodeStepIs(cfg, pc, nodes, events, raised, k);
    var m := nodes[k + 1].manager;
    PublishIs(pc, nodes[k].emitted, m.targets, id);
    PublishedOnce(pc, nodes[k].emitted, m.targets);
    if Lookup(m.targets, id).Some? {
      var i := LookupIndex(m.targets, id);
    }
  }

  /** Detections in step `l` show the target TENTATIVE. */
  ghost predicate ShownTentative(nodes: seq<Node>, events: seq<NodeEvent>, l: nat, id: nat)
    requires l < |events| < |nodes|
  {
    var t := Lookup(nodes[l + 1].manager.targets, id);
    events[l].Detections? && t.Some? && t.value.state == Tentative
  }

  /** Step `i` raised the id, and no step after it and before `k` has shown its target TENTATIVE. */
  ghost predicate RaisedSince(nodes: seq<Node>, events: seq<NodeEvent>, raised: seq<seq<nat>>, i: nat, k: nat, id: nat)
    requires |raised| == |events| < |nodes| && i < k <= |events|
  {
    id in raised[i] && forall l: nat | i < l < k :: !ShownTentative(nodes, events, l, id)
  }

  ghost predicate StillRaised(nodes: seq<Node>, events: seq<NodeEvent>, raised: seq<seq<nat>>, k: nat, id: nat)
    requires |raised| == |events| < |nodes| && k <= |events|
  {
    exists i: nat | i < k :: RaisedSince(nodes, events, raised, i, k, id)
  }

  /** One step of the policy, seen from one id. */
  lemma EmittedStep(cfg: Config, pc: PolicyConfig, nodes: seq<Node>, events: seq<NodeEvent>, raised: seq<seq<nat>>, k: nat, id: nat)
    requires IsNodeRun(cfg, pc, nodes, events, raised) && k < |events|
    ensures id in nodes[k + 1].emitted <==>
            id in raised[k] || (id in nodes[k].emitted && !ShownTentative(nodes, events, k, id))
    ensures id in raised[k] ==> !ShownTentative(nodes, events, k, id)
  {
    hide Step, Publish;
    NodeStepIs(cfg, pc, nodes, events, raised, k);
    PublishIs(pc, nodes[k].emitted, nodes[k + 1].manager.targets, id);
  }

  lemma StillRaisedStep(nodes: seq<Node>, events: seq<NodeEvent>, raised: seq<seq<nat>>, k: nat, id: nat)
    requires |raised| == |events| < |nodes| && k < |events|
    ensures StillRaised(nodes, events, raised, k + 1, id) <==>
            id in raised[k] || (StillRaised(nodes, events, raised, k, id) && !ShownTentative(nodes, events, k, id))
  {
    hide ShownTentative;
    if id in raised[k] {
      assert RaisedSince(nodes, events, raised, k, k + 1, id);
    }
    if StillRaised(nodes, events, raised, k, id) && !ShownTentative(nodes, events, k, id) {
      var i: nat :| i < k && RaisedSince(nodes, events, raised, i, k, id);
      assert RaisedSince(nodes, events, raised, i, k + 1, id);
    }
    if StillRaised(nodes, events, raised, k + 1, id) && id !in raised[k] {
      var i: nat :| i < k + 1 && RaisedSince(nodes, events, raised, i, k + 1, id);
      assert RaisedSince(nodes, events, raised, i, k, id);
    }
  }

  /** The policy holds an id back exactly while it has been raised and its target has not been shown TENTATIVE since. */
  lemma {:induction false} HeldBackExactly(cfg: Config, pc: PolicyConfig, nodes: seq<Node>, events: seq<NodeEvent>,
                                           raised: seq<seq<nat>>, k: nat, id: nat)
    requires IsNodeRun(cfg, pc, nodes, events, raised) && k <= |events|
    ensures id in nodes[k].emitted <==> StillRaised(nodes, events, raised, k, id)
  {
    hide After, StillRaised, ShownTentative;
    if k > 0 {
      HeldBackExactly(cfg, pc, nodes, events, raised, k - 1, id);
      EmittedStep(cfg, pc, nodes, events, raised, k - 1, id);
      StillRaisedStep(nodes, events, raised, k - 1, id);
    } else {
      NothingRaisedYet(nodes, events, raised, id);
    }
  }

  lemma NothingRaisedYet(nodes: seq<Node>, events: seq<NodeEvent>, raised: seq<seq<nat>>, id: nat)
    requires |raised| == |events| < |nodes|
    ensures !StillRaised(nodes, events, raised, 0, id)
  {
  }

  /**
   * Detections raise an id exactly when inspections are enabled, its target is CONFIRMED with a valid depth, of an
   * allowed class and sure enough, and the id has not been raised since its target was last shown TENTATIVE.
   */
  lemma RaisedExactly(cfg: Config, raw: RawPolicyConfig, nodes: seq<Node>, events: seq<NodeEvent>,
                      raised: seq<seq<nat>>, k: nat, id: nat)
    requires AcceptPolicy(raw).Some? && IsNodeRun(cfg, AcceptPolicy(raw).value, nodes, events, raised)
    requires k < |events| && events[k].Detections?
    ensures var t := Lookup(nodes[k + 1].manager.targets, id);
      id in raised[k] <==>
      && raw.enabled && t.Some? && t.value.state == Confirmed && t.value.depthValid
      && t.value.confidence >= raw.minConfidence.value && t.value.className != "" && t.value.className in raw.allowedClasses
      && !StillRaised(nodes, events, raised, k, id)
  {
    hide After, StillRaised, Distinct;
    var pc := AcceptPolicy(raw).value;
    EligibleTargetsAreRaised(cfg, pc, nodes, events, raised, k, id);
    HeldBackExactly(cfg, pc, nodes, events, raised, k, id);
    NodeStepIs(cfg, pc, nodes, events, raised, k);
    var t := Lookup(nodes[k + 1].manager.targets, id);
    if t.Some? {
      var i := LookupIndex(nodes[k + 1].manager.targets, id);
    }
  }

  /**
   * The completion of an inspection marks its target, even a lost one and even if it is stamped before the last
   * sighting, exactly when the target is known and one of the two times is not negative; the mark carries the later one.
   */
  lemma CompletionsMarkExactly(cfg: Config, pc: PolicyConfig, nodes: seq<Node>, events: seq<NodeEvent>,
                               raised: seq<seq<nat>>, k: nat, id: nat)
    requires IsNodeRun(cfg, pc, nodes, events, raised) && k < |events|
    requires events[k].InspectionCompleted? && events[k].id == id && Lookup(nodes[k].manager.targets, id).Some?
    ensures var t, stamp := Lookup(nodes[k].manager.targets, id).value, events[k].stamp;
      var at := if t.lastNs > stamp then t.lastNs else stamp;
      && (Marks(nodes, events, k, id) <==> at >= 0)
      && Lookup(nodes[k + 1].manager.targets, id) ==
         Some(if at < 0 then t else t.(state := Processed, processedAtNs := at, missed := 0))
  {
    hide Inv, Publish;
    NodeStepIs(cfg, pc, nodes, events, raised, k);
    var m, at := nodes[k].manager, CompletionTime(nodes[k].manager, id, events[k].stamp);
    MarkIs(cfg, m, id, at, true, id);
    var i := LookupIndex(m.targets, id);
  }
}
