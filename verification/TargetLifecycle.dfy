// The life of a target over whole runs of the manager: what every reachable state keeps,
// how one target evolves, when it is retired.
module TargetLifecycle {
  import opened Common
  import opened Association
  import opened TargetTracking
  import opened TargetAssociation

  // ---------------------------------------------------------------- looking a target up

  /** The target with this id, if it is known. */
  function Lookup(targets: seq<Target>, id: nat): Option<Target> {
    match Find(targets, id)
    case None => None
    case Some(i) => Some(targets[i])
  }

  lemma LookupStep(targets: seq<Target>, id: nat)
    requires targets != []
    ensures Lookup(targets, id) == if targets[0].id == id then Some(targets[0]) else Lookup(targets[1..], id)
  {
  }

  lemma {:induction false} LookupAppend(a: seq<Target>, b: seq<Target>, id: nat)
    ensures Lookup(a + b, id) == if Lookup(a, id).Some? then Lookup(a, id) else Lookup(b, id)
  {
    if a == [] {
      assert a + b == b;
    } else {
      assert (a + b)[1..] == a[1..] + b;
      LookupStep(a, id);
      LookupStep(a + b, id);
      LookupAppend(a[1..], b, id);
    }
  }

  lemma LookupAt(targets: seq<Target>, i: nat)
    requires IdsAscend(targets) && i < |targets|
    ensures Lookup(targets, targets[i].id) == Some(targets[i])
  {
    FoundAt(targets, i);
  }

  lemma LookupIndex(targets: seq<Target>, id: nat) returns (i: nat)
    requires Lookup(targets, id).Some?
    ensures i < |targets| && targets[i] == Lookup(targets, id).value && targets[i].id == id
  {
    i := Find(targets, id).value;
  }

  lemma LookupMissing(targets: seq<Target>, id: nat)
    requires forall i | 0 <= i < |targets| :: targets[i].id != id
    ensures Lookup(targets, id).None?
  {
  }

  // ---------------------------------------------------------------- what every reachable state keeps

  predicate TargetOk(cfg: Config, t: Target) {
    && t.hits >= 1 && t.id >= 1
    && (t.state == Confirmed ==> t.hits >= cfg.confirmFrames)
    && (t.state == Tentative || t.state == Confirmed ==> t.missed < cfg.lostFrames)
    && (t.state == Lost ==> cfg.lostFrames <= t.missed <= cfg.retirement)
  }

  ghost predicate Inv(cfg: Config, m: Manager) {
    && cfg.Valid() && 1 <= m.nextId <= MAX_ID + 1
    && IdsAscend(m.targets)
    && forall i | 0 <= i < |m.targets| :: m.targets[i].id < m.nextId && TargetOk(cfg, m.targets[i])
  }

  /** Between ageing and removal a lost target may be past its retirement, and nothing else is out of order. */
  predicate AgedOk(cfg: Config, t: Target, ts: int) {
    && t.hits >= 1 && t.id >= 1
    && (t.state == Confirmed ==> t.hits >= cfg.confirmFrames)
    && (t.state == Tentative || t.state == Confirmed ==> t.missed < cfg.lostFrames)
    && (t.state == Lost ==> cfg.lostFrames <= t.missed)
    && (CooldownExpired(cfg, t, ts) ==> t.missed < cfg.lostFrames)
  }

  /** One target through an update, with the observation it was matched to, if any. */
  function Evolve(cfg: Config, t: Target, o: Option<Observation>, ts: int): Target
    requires o.Some? ==> IsValidObservation(o.value)
  {
    if o.Some? then AfterMatch(cfg, t, o.value, ts) else Age(cfg, t, ts)
  }

  lemma EvolveOk(cfg: Config, t: Target, o: Option<Observation>, ts: int)
    requires cfg.Valid() && TargetOk(cfg, t) && (o.Some? ==> IsValidObservation(o.value))
    ensures AgedOk(cfg, Evolve(cfg, t, o, ts), ts) && Evolve(cfg, t, o, ts).id == t.id
  {
  }

  /** The PROCESSED arm of the removal test never fires: such a target was turned LOST just before. */
  lemma ProcessedArmIsUnreachable(cfg: Config, t: Target, o: Option<Observation>, ts: int)
    requires cfg.Valid() && TargetOk(cfg, t) && (o.Some? ==> IsValidObservation(o.value))
    ensures var a := Evolve(cfg, t, o, ts);
      Retired(cfg, a, ts) <==> a.state == Lost && a.missed > cfg.retirement
  {
    EvolveOk(cfg, t, o, ts);
  }

  lemma NewOk(cfg: Config, id: nat, o: Observation, ts: int)
    requires cfg.Valid() && id >= 1 && IsValidObservation(o)
    ensures AgedOk(cfg, NewTarget(cfg, id, o), ts) && !Retired(cfg, NewTarget(cfg, id, o), ts)
  {
  }

  lemma KeptOk(cfg: Config, t: Target, ts: int)
    requires cfg.Valid() && AgedOk(cfg, t, ts) && !Retired(cfg, t, ts)
    ensures TargetOk(cfg, t)
  {
  }

  /** The observation the target with this id is matched to in this update. */
  function Sighting(cfg: Config, m: Manager, observations: seq<Observation>, ts: int, id: nat): (o: Option<Observation>)
    ensures o.Some? ==> Usable(o.value, ts)
  {
    var obs := UsableAt(observations, ts);
    match Find(m.targets, id)
    case None => None
    case Some(i) =>
      match PartnerOf(Associate(cfg, m.targets, obs), i)
      case Some(j) => if j < |obs| then Some(obs[j]) else None
      case None => None
  }

  lemma FoundAt(targets: seq<Target>, i: nat)
    requires IdsAscend(targets) && i < |targets|
    ensures Find(targets, targets[i].id) == Some(i)
  {
    var at := Find(targets, targets[i].id);
    assert at.Some? ==> targets[at.value].id == targets[i].id;
  }

  ghost predicate AllAged(cfg: Config, targets: seq<Target>, below: nat, ts: int) {
    IdsAscend(targets) && forall i | 0 <= i < |targets| :: targets[i].id < below && AgedOk(cfg, targets[i], ts)
  }

  lemma SurvivorsAre(cfg: Config, m: Manager, observations: seq<Observation>, ts: int)
    requires Inv(cfg, m)
    ensures var obs := UsableAt(observations, ts);
      var aged := Survivors(cfg, m, obs, Associate(cfg, m.targets, obs), ts);
      && |aged| == |m.targets|
      && AllAged(cfg, aged, m.nextId, ts)
      && forall i | 0 <= i < |aged| ::
           aged[i].id == m.targets[i].id
           && aged[i] == Evolve(cfg, m.targets[i], Sighting(cfg, m, observations, ts, m.targets[i].id), ts)
  {
    hide Associate, UsableAt, AfterMatch, Age, TargetOk, AgedOk, PartnerOf, IsValidObservation;
    var obs := UsableAt(observations, ts);
    var aged := Survivors(cfg, m, obs, Associate(cfg, m.targets, obs), ts);
    forall i | 0 <= i < |aged|
      ensures aged[i] == Evolve(cfg, m.targets[i], Sighting(cfg, m, observations, ts, m.targets[i].id), ts)
      ensures aged[i].id == m.targets[i].id && AgedOk(cfg, aged[i], ts)
    {
      FoundAt(m.targets, i);
      SurvivorIs(cfg, m, observations, ts, i);
      EvolveOk(cfg, m.targets[i], Sighting(cfg, m, observations, ts, m.targets[i].id), ts);
    }
  }

  lemma SurvivorIs(cfg: Config, m: Manager, observations: seq<Observation>, ts: int, i: nat)
    requires i < |m.targets| && Find(m.targets, m.targets[i].id) == Some(i)
    ensures var obs := UsableAt(observations, ts);
      Next(cfg, m.targets[i], PartnerOf(Associate(cfg, m.targets, obs), i), obs, ts) ==
      Evolve(cfg, m.targets[i], Sighting(cfg, m, observations, ts, m.targets[i].id), ts)
  {
    hide Associate, PartnerOf, AfterMatch, Age;
  }

  lemma {:induction false} NewTargetsAged(cfg: Config, obs: seq<Observation>, starters: seq<nat>, nextId: nat, ts: int)
    requires cfg.Valid() && AllUsable(obs, ts) && Within(starters, |obs|) && nextId >= 1
    ensures var news := NewTargets(cfg, obs, starters, nextId, ts);
      && AllAged(cfg, news, nextId + |starters|, ts)
      && forall i | 0 <= i < |news| :: news[i].id == nextId + i && !Retired(cfg, news[i], ts)
  {
    hide AgedOk, Retired, IsValidObservation;
    var news := NewTargets(cfg, obs, starters, nextId, ts);
    forall i | 0 <= i < |news|
      ensures news[i].id == nextId + i && AgedOk(cfg, news[i], ts) && !Retired(cfg, news[i], ts)
    {
      NewTargetsAre(cfg, obs, starters, nextId, ts, i);
      NewOk(cfg, nextId + i, obs[starters[i]], ts);
    }
  }

  lemma AgedAppend(cfg: Config, a: seq<Target>, b: seq<Target>, low: nat, high: nat, ts: int)
    requires AllAged(cfg, a, low, ts) && AllAged(cfg, b, high, ts) && low <= high
    requires forall i | 0 <= i < |b| :: b[i].id >= low
    ensures AllAged(cfg, a + b, high, ts)
  {
    hide AgedOk;
  }

  lemma {:induction false} KeptAre(cfg: Config, targets: seq<Target>, below: nat, ts: int)
    requires cfg.Valid() && AllAged(cfg, targets, below, ts)
    ensures var kept := Kept(cfg, targets, ts);
      && IdsAscend(kept)
      && forall i | 0 <= i < |kept| :: kept[i].id < below && TargetOk(cfg, kept[i])
    ensures forall i | 0 <= i < |Kept(cfg, targets, ts)| :: targets != [] && Kept(cfg, targets, ts)[i].id >= targets[0].id
  {
    if targets != [] {
      hide AgedOk, TargetOk, Retired;
      AllAgedTail(cfg, targets, below, ts);
      KeptAre(cfg, targets[1..], below, ts);
      if !Retired(cfg, targets[0], ts) {
        KeptOk(cfg, targets[0], ts);
      }
    }
  }

  lemma AllAgedTail(cfg: Config, targets: seq<Target>, below: nat, ts: int)
    requires AllAged(cfg, targets, below, ts) && targets != []
    ensures AllAged(cfg, targets[1..], below, ts)
    ensures targets[1..] != [] ==> targets[1..][0].id > targets[0].id
  {
    hide AgedOk;
  }

  lemma {:induction false} LookupKept(cfg: Config, targets: seq<Target>, below: nat, ts: int, id: nat)
    requires AllAged(cfg, targets, below, ts)
    ensures Lookup(Kept(cfg, targets, ts), id) ==
            match Lookup(targets, id)
            case None => None
            case Some(t) => if Retired(cfg, t, ts) then None else Some(t)
  {
    hide AgedOk, Retired;
    if targets != [] {
      AllAgedTail(cfg, targets, below, ts);
      LookupKept(cfg, targets[1..], below, ts, id);
      if targets[0].id == id {
        forall i | 0 <= i < |targets[1..]|
          ensures targets[1..][i].id != id
        {
          assert targets[0].id < targets[i + 1].id;
        }
        LookupMissing(targets[1..], id);
      }
    }
  }

  /** The usable observations that start a target in this update. */
  function NewStarters(cfg: Config, m: Manager, observations: seq<Observation>, ts: int): seq<nat> {
    var obs := UsableAt(observations, ts);
    var pairs := Associate(cfg, m.targets, obs);
    Starters(cfg, obs, pairs, Observations(pairs), 0)
  }

  /** The observation the `k`-th of them is. */
  function Starting(cfg: Config, m: Manager, observations: seq<Observation>, ts: int, k: nat): (o: Observation)
    requires k < |NewStarters(cfg, m, observations, ts)|
    ensures Usable(o, ts)
  {
    var obs := UsableAt(observations, ts);
    var j := NewStarters(cfg, m, observations, ts)[k];
    assert obs[j] in obs;
    obs[j]
  }

  /** The full list of an accepted update just before removal. */
  function BeforeRemoval(cfg: Config, m: Manager, observations: seq<Observation>, ts: int): seq<Target> {
    var obs := UsableAt(observations, ts);
    var pairs := Associate(cfg, m.targets, obs);
    Survivors(cfg, m, obs, pairs, ts) +
    NewTargets(cfg, obs, Starters(cfg, obs, pairs, Observations(pairs), 0), m.nextId, ts)
  }

  lemma UpdateIs(cfg: Config, m: Manager, observations: seq<Observation>, ts: int)
    requires Inv(cfg, m) && Accepts(m, ts) && !AfterUpdate(cfg, m, observations, ts).threw
    ensures var n := AfterUpdate(cfg, m, observations, ts).manager;
      var all := BeforeRemoval(cfg, m, observations, ts);
      && n.targets == Kept(cfg, all, ts) && n.lastUpdateNs == ts
      && m.nextId <= n.nextId <= MAX_ID + 1 && n.nextId == m.nextId + |NewStarters(cfg, m, observations, ts)|
      && AllAged(cfg, all, n.nextId, ts)
      && forall id: nat | id < m.nextId :: Lookup(all, id) ==
           match Lookup(m.targets, id)
           case None => None
           case Some(t) => Some(Evolve(cfg, t, Sighting(cfg, m, observations, ts, id), ts))
  {
    hide Associate, Starters, UsableAt, Observations, AgedOk, TargetOk, Kept, Evolve, Sighting, Survivors, NewTargets;
    var obs := UsableAt(observations, ts);
    var pairs := Associate(cfg, m.targets, obs);
    var aged := Survivors(cfg, m, obs, pairs, ts);
    var starters := Starters(cfg, obs, pairs, Observations(pairs), 0);
    var news := NewTargets(cfg, obs, starters, m.nextId, ts);
    SurvivorsAre(cfg, m, observations, ts);
    NewTargetsAged(cfg, obs, starters, m.nextId, ts);
    AgedAppend(cfg, aged, news, m.nextId, m.nextId + |starters|, ts);
    forall id: nat | id < m.nextId
      ensures Lookup(aged + news, id) ==
              match Lookup(m.targets, id)
              case None => None
              case Some(t) => Some(Evolve(cfg, t, Sighting(cfg, m, observations, ts, id), ts))
    {
      LookupAppend(aged, news, id);
      LookupMissing(news, id);
      LookupEvolved(cfg, m, observations, ts, aged, id);
    }
  }

  lemma LookupEvolved(cfg: Config, m: Manager, observations: seq<Observation>, ts: int, aged: seq<Target>, id: nat)
    requires Inv(cfg, m) && |aged| == |m.targets| && IdsAscend(aged)
    requires forall i | 0 <= i < |aged| ::
      aged[i].id == m.targets[i].id
      && aged[i] == Evolve(cfg, m.targets[i], Sighting(cfg, m, observations, ts, m.targets[i].id), ts)
    ensures Lookup(aged, id) ==
            match Lookup(m.targets, id)
            case None => None
            case Some(t) => Some(Evolve(cfg, t, Sighting(cfg, m, observations, ts, id), ts))
  {
    hide Evolve, Sighting, TargetOk;
    if Lookup(m.targets, id).Some? {
      var i := LookupIndex(m.targets, id);
      LookupAt(aged, i);
    } else if Lookup(aged, id).Some? {
      var i := LookupIndex(aged, id);
      LookupAt(m.targets, i);
    }
  }

  /**
   * One update, seen from one target already known: it evolves by its sighting or its absence, and is
   * gone afterwards exactly when it is lost and past its retirement.
   */
  lemma Evolution(cfg: Config, m: Manager, observations: seq<Observation>, ts: int, id: nat)
    requires Inv(cfg, m) && Accepts(m, ts) && !AfterUpdate(cfg, m, observations, ts).threw && id < m.nextId
    ensures Lookup(AfterUpdate(cfg, m, observations, ts).manager.targets, id) ==
            match Lookup(m.targets, id)
            case None => None
            case Some(t) =>
              var a := Evolve(cfg, t, Sighting(cfg, m, observations, ts, id), ts);
              if a.state == Lost && a.missed > cfg.retirement then None else Some(a)
  {
    hide AfterUpdate, Evolve, Sighting, Retired, Kept, BeforeRemoval;
    UpdateIs(cfg, m, observations, ts);
    var all := BeforeRemoval(cfg, m, observations, ts);
    LookupKept(cfg, all, AfterUpdate(cfg, m, observations, ts).manager.nextId, ts, id);
    if Lookup(m.targets, id).Some? {
      var i := LookupIndex(m.targets, id);
      ProcessedArmIsUnreachable(cfg, m.targets[i], Sighting(cfg, m, observations, ts, id), ts);
    }
  }

  lemma NewcomersBeforeRemoval(cfg: Config, m: Manager, observations: seq<Observation>, ts: int, id: nat)
    requires Inv(cfg, m) && m.nextId <= id
    ensures Lookup(BeforeRemoval(cfg, m, observations, ts), id) ==
            if id < m.nextId + |NewStarters(cfg, m, observations, ts)|
            then Some(NewTarget(cfg, id, Starting(cfg, m, observations, ts, id - m.nextId))) else None
  {
    hide Associate, Starters, UsableAt, Observations, AgedOk, TargetOk, Evolve, Sighting, Survivors, NewTargets, NewTarget, Find;
    var obs := UsableAt(observations, ts);
    var pairs := Associate(cfg, m.targets, obs);
    var aged := Survivors(cfg, m, obs, pairs, ts);
    var starters := NewStarters(cfg, m, observations, ts);
    var news := NewTargets(cfg, obs, starters, m.nextId, ts);
    SurvivorsAre(cfg, m, observations, ts);
    NewTargetsAged(cfg, obs, starters, m.nextId, ts);
    LookupAppend(aged, news, id);
    LookupMissing(aged, id);
    if id < m.nextId + |starters| {
      LookupAt(news, id - m.nextId);
      NewTargetsAre(cfg, obs, starters, m.nextId, ts, id - m.nextId);
    } else {
      LookupMissing(news, id);
    }
  }

  /**
   * The targets an update adds are exactly one for each starting observation, in order, with the next ids, as
   * the observation shows it.
   */
  lemma NewcomersAre(cfg: Config, m: Manager, observations: seq<Observation>, ts: int, id: nat)
    requires Inv(cfg, m) && Accepts(m, ts) && !AfterUpdate(cfg, m, observations, ts).threw && m.nextId <= id
    ensures var n := AfterUpdate(cfg, m, observations, ts).manager;
      && n.nextId == m.nextId + |NewStarters(cfg, m, observations, ts)|
      && Lookup(n.targets, id) ==
         if id < n.nextId then Some(NewTarget(cfg, id, Starting(cfg, m, observations, ts, id - m.nextId))) else None
  {
    hide AfterUpdate, Evolve, Sighting, Retired, Kept, BeforeRemoval, NewStarters, Starting, NewTarget, AgedOk, TargetOk;
    UpdateIs(cfg, m, observations, ts);
    NewcomersBeforeRemoval(cfg, m, observations, ts, id);
    var all, n := BeforeRemoval(cfg, m, observations, ts), AfterUpdate(cfg, m, observations, ts).manager;
    LookupKept(cfg, all, n.nextId, ts, id);
    if id < n.nextId {
      NewOk(cfg, id, Starting(cfg, m, observations, ts, id - m.nextId), ts);
    }
  }

  /** An accepted update throws exactly when it starts more targets than 32-bit ids are left; whatever happens it is dated. */
  lemma IdsRunOutExactly(cfg: Config, m: Manager, observations: seq<Observation>, ts: int)
    requires Inv(cfg, m) && Accepts(m, ts)
    ensures var o := AfterUpdate(cfg, m, observations, ts);
      && (o.threw <==> |NewStarters(cfg, m, observations, ts)| > 0x1_0000_0000 - m.nextId)
      && (o.threw ==> o.manager.nextId == 0x1_0000_0000)
      && o.manager.lastUpdateNs == ts
  {
    hide UsableAt, Associate, Survivors, Starters, Kept, NewTargets, TargetOk;
  }

  /** Two targets of one class that an update adds are more than the matching distance apart. */
  lemma NewcomersAreApart(cfg: Config, m: Manager, observations: seq<Observation>, ts: int, id: nat, other: nat)
    requires Inv(cfg, m) && Accepts(m, ts) && !AfterUpdate(cfg, m, observations, ts).threw
    requires m.nextId <= id && m.nextId <= other && id != other
    ensures var targets := AfterUpdate(cfg, m, observations, ts).manager.targets;
      var t, u := Lookup(targets, id), Lookup(targets, other);
      t.Some? && u.Some? && t.value.className == u.value.className ==> !Near(cfg, t.value.filtered, u.value.filtered)
  {
    hide AfterUpdate, UsableAt, Associate, Starters, Near, Find, Lookup, Observations;
    NewcomersAre(cfg, m, observations, ts, id);
    NewcomersAre(cfg, m, observations, ts, other);
    var n := AfterUpdate(cfg, m, observations, ts).manager;
    if id < n.nextId && other < n.nextId {
      StartersAreApart(cfg, m.targets, UsableAt(observations, ts), id - m.nextId, other - m.nextId);
    }
  }

  /** A known target that is gone stays gone, and ids only grow. */
  lemma UpdateKeepsInv(cfg: Config, m: Manager, observations: seq<Observation>, ts: int)
    requires Inv(cfg, m) && !AfterUpdate(cfg, m, observations, ts).threw
    ensures Inv(cfg, AfterUpdate(cfg, m, observations, ts).manager)
    ensures m.nextId <= AfterUpdate(cfg, m, observations, ts).manager.nextId
  {
    if Accepts(m, ts) {
      hide AfterUpdate, Evolve, Sighting, Kept, BeforeRemoval, TargetOk, AgedOk;
      UpdateIs(cfg, m, observations, ts);
      KeptAre(cfg, BeforeRemoval(cfg, m, observations, ts), AfterUpdate(cfg, m, observations, ts).manager.nextId, ts);
    }
  }

  // ---------------------------------------------------------------- marking

  /** MarkProcessed changes the marked target and nothing else. */
  lemma MarkIs(cfg: Config, m: Manager, id: nat, ts: int, allowLost: bool, other: nat)
    requires Inv(cfg, m)
    ensures var n := AfterMark(m, id, ts, allowLost);
      && Inv(cfg, n) && n.nextId == m.nextId && n.lastUpdateNs == m.lastUpdateNs
      && (CanMark(m, id, ts, allowLost) ==> Lookup(m.targets, id).Some?)
      && Lookup(n.targets, other) ==
         if other == id && CanMark(m, id, ts, allowLost) then Some(Mark(Lookup(m.targets, id).value, ts))
         else Lookup(m.targets, other)
  {
    if CanMark(m, id, ts, allowLost) {
      var i := Find(m.targets, id).value;
      ReplaceAt(m.targets, i, Mark(m.targets[i], ts), other);
    }
  }

  lemma ReplaceAt(targets: seq<Target>, i: nat, t: Target, other: nat)
    requires IdsAscend(targets) && i < |targets| && t.id == targets[i].id
    ensures IdsAscend(targets[i := t])
    ensures Lookup(targets[i := t], other) == if other == t.id then Some(t) else Lookup(targets, other)
  {
    var after := targets[i := t];
    if other == t.id {
      LookupAt(after, i);
    } else if Lookup(targets, other).Some? {
      var k := LookupIndex(targets, other);
      LookupAt(after, k);
    } else if Lookup(after, other).Some? {
      var k := LookupIndex(after, other);
      LookupAt(targets, k);
    }
  }

  // ---------------------------------------------------------------- runs

  datatype Event =
    | Observe(observations: seq<Observation>, ts: int)
    | Complete(id: nat, at: int, allowLost: bool)

  function Step(cfg: Config, m: Manager, e: Event): Outcome {
    match e
    case Observe(observations, ts) => AfterUpdate(cfg, m, observations, ts)
    case Complete(id, at, allowLost) => Outcome(AfterMark(m, id, at, allowLost), false)
  }

  /** The states of a run in which no update raises overflow_error; an exception ends the process. */
  ghost predicate IsRun(cfg: Config, states: seq<Manager>, events: seq<Event>) {
    && cfg.Valid() && |states| == |events| + 1 && states[0] == EMPTY
    && forall k | 0 <= k < |events| :: Step(cfg, states[k], events[k]) == Outcome(states[k + 1], false)
  }

  lemma StepKeepsInv(cfg: Config, m: Manager, e: Event)
    requires Inv(cfg, m) && !Step(cfg, m, e).threw
    ensures Inv(cfg, Step(cfg, m, e).manager) && m.nextId <= Step(cfg, m, e).manager.nextId
  {
    hide AfterUpdate, AfterMark, Inv;
    match e
    case Observe(observations, ts) => UpdateKeepsInv(cfg, m, observations, ts);
    case Complete(id, at, allowLost) => MarkIs(cfg, m, id, at, allowLost, id);
  }

  /** Every reachable state keeps the invariant. */
  lemma {:induction false} ReachableStatesAreSound(cfg: Config, states: seq<Manager>, events: seq<Event>, k: nat)
    requires IsRun(cfg, states, events) && k <= |events|
    ensures Inv(cfg, states[k])
    ensures k < |events| ==> Step(cfg, states[k], events[k]) == Outcome(states[k + 1], false)
  {
    hide Step;
    if k > 0 {
      ReachableStatesAreSound(cfg, states, events, k - 1);
      StepKeepsInv(cfg, states[k - 1], events[k - 1]);
    }
  }

  /** What a step makes of a target, seen from that target alone. */
  function Fate(cfg: Config, m: Manager, e: Event, t: Target): Option<Target> {
    match e
    case Complete(c, at, allowLost) =>
      if c == t.id && CanMark(m, c, at, allowLost) then Some(Mark(t, at)) else Some(t)
    case Observe(observations, ts) =>
      if !Accepts(m, ts) then Some(t)
      else
        var a := Evolve(cfg, t, Sighting(cfg, m, observations, ts, t.id), ts);
        if a.state == Lost && a.missed > cfg.retirement then None else Some(a)
  }

  /** One step, seen from one id handed out before: what is gone stays gone, what is there meets its fate. */
  lemma StepOf(cfg: Config, m: Manager, e: Event, id: nat)
    requires Inv(cfg, m) && !Step(cfg, m, e).threw && id < m.nextId
    ensures Lookup(m.targets, id).None? ==> Lookup(Step(cfg, m, e).manager.targets, id).None?
    ensures Lookup(m.targets, id).Some? ==>
              Lookup(m.targets, id).value.id == id
              && Lookup(Step(cfg, m, e).manager.targets, id) == Fate(cfg, m, e, Lookup(m.targets, id).value)
  {
    hide Evolve, Sighting, CanMark, AfterMark, Inv;
    if Lookup(m.targets, id).Some? {
      var i := LookupIndex(m.targets, id);
    }
    match e
    case Observe(observations, ts) =>
      if Accepts(m, ts) {
        Evolution(cfg, m, observations, ts, id);
      }
    case Complete(c, at, allowLost) =>
      MarkIs(cfg, m, c, at, allowLost, id);
  }

  /** No id is ever reused: a known target that is gone never comes back. */
  lemma {:induction false} IdsAreNotReused(cfg: Config, states: seq<Manager>, events: seq<Event>, i: nat, j: nat, id: nat)
    requires IsRun(cfg, states, events) && i <= j <= |events|
    requires id < states[i].nextId && Lookup(states[i].targets, id).None?
    ensures id < states[j].nextId && Lookup(states[j].targets, id).None?
  {
    hide Step, Inv, Fate, Lookup;
    if i < j {
      IdsAreNotReused(cfg, states, events, i, j - 1, id);
      ReachableStatesAreSound(cfg, states, events, j - 1);
      StepKeepsInv(cfg, states[j - 1], events[j - 1]);
      StepOf(cfg, states[j - 1], events[j - 1], id);
    }
  }

  /** CONFIRMED never steps directly to TENTATIVE. */
  lemma ConfirmedNeverTurnsTentative(cfg: Config, states: seq<Manager>, events: seq<Event>, k: nat, id: nat)
    requires IsRun(cfg, states, events) && k < |events|
    requires Lookup(states[k].targets, id).Some? && Lookup(states[k].targets, id).value.state == Confirmed
    ensures var after := Lookup(states[k + 1].targets, id);
      after.Some? ==> after.value.state != Tentative
  {
    hide Sighting, CanMark;
    ReachableStatesAreSound(cfg, states, events, k);
    var i := LookupIndex(states[k].targets, id);
    StepOf(cfg, states[k], events[k], id);
  }

  /** Ids are given out from 1 on without gaps: each id below the next one was given to a target by some step. */
  lemma {:induction false} EveryIdWasGivenOut(cfg: Config, states: seq<Manager>, events: seq<Event>, k: nat, id: nat)
    requires IsRun(cfg, states, events) && k <= |events| && 1 <= id < states[k].nextId
    ensures exists j | 0 <= j < k :: states[j].nextId <= id < states[j + 1].nextId && Lookup(states[j + 1].targets, id).Some?
  {
    hide Step, Inv, Lookup;
    assert k > 0;
    ReachableStatesAreSound(cfg, states, events, k - 1);
    StepKeepsInv(cfg, states[k - 1], events[k - 1]);
    if id < states[k - 1].nextId {
      EveryIdWasGivenOut(cfg, states, events, k - 1, id);
    } else {
      NewcomerAfter(cfg, states[k - 1], events[k - 1], id);
    }
  }

  // ---------------------------------------------------------------- which updates are accepted

  predicate AcceptedUpdate(m: Manager, e: Event) {
    e.Observe? && Accepts(m, e.ts)
  }

  lemma UpdateTime(cfg: Config, m: Manager, e: Event)
    requires !Step(cfg, m, e).threw
    ensures Step(cfg, m, e).manager.lastUpdateNs == if AcceptedUpdate(m, e) then e.ts else m.lastUpdateNs
    ensures e.Observe? && !Accepts(m, e.ts) ==> Step(cfg, m, e).manager == m
  {
    hide UsableAt, Associate, Survivors, Starters, Kept, NewTargets, CanMark;
  }

  /** The last accepted update of the first `k` events dates the manager, and no earlier one is dated after it. */
  lemma {:induction false} LastAcceptedIsLatest(cfg: Config, states: seq<Manager>, events: seq<Event>, k: nat)
    requires IsRun(cfg, states, events) && k <= |events|
    ensures states[k].lastUpdateNs >= -1
    ensures forall j | 0 <= j < k && AcceptedUpdate(states[j], events[j]) :: 0 <= events[j].ts <= states[k].lastUpdateNs
    ensures states[k].lastUpdateNs == -1 ||
            exists j | 0 <= j < k && AcceptedUpdate(states[j], events[j]) :: events[j].ts == states[k].lastUpdateNs
  {
    hide Step;
    if k > 0 {
      LastAcceptedIsLatest(cfg, states, events, k - 1);
      assert Step(cfg, states[k - 1], events[k - 1]) == Outcome(states[k], false);
      UpdateTime(cfg, states[k - 1], events[k - 1]);
    }
  }

  /**
   * An update is accepted exactly when its time is neither negative nor before that of an earlier accepted one; a
   * refused one changes nothing.
   */
  lemma AcceptedExactlyInOrder(cfg: Config, states: seq<Manager>, events: seq<Event>, k: nat)
    requires IsRun(cfg, states, events) && k < |events| && events[k].Observe?
    ensures AcceptedUpdate(states[k], events[k]) <==>
            && events[k].ts >= 0
            && forall j | 0 <= j < k && AcceptedUpdate(states[j], events[j]) :: events[j].ts <= events[k].ts
    ensures !AcceptedUpdate(states[k], events[k]) ==> states[k + 1] == states[k]
  {
    hide Step;
    LastAcceptedIsLatest(cfg, states, events, k);
    assert Step(cfg, states[k], events[k]) == Outcome(states[k + 1], false);
    UpdateTime(cfg, states[k], events[k]);
  }

  // ---------------------------------------------------------------- retirement

  /** The target is neither matched by this step nor marked by it. */
  predicate LeftAlone(cfg: Config, m: Manager, e: Event, id: nat) {
    match e
    case Observe(observations, ts) => Accepts(m, ts) ==> Sighting(cfg, m, observations, ts, id).None?
    case Complete(c, at, allowLost) => !(c == id && CanMark(m, id, at, allowLost))
  }

  function Updates(states: seq<Manager>, events: seq<Event>, i: nat, j: nat): nat
    requires i <= j <= |events| && |states| == |events| + 1
    decreases j - i
  {
    if i == j then 0
    else Updates(states, events, i, j - 1) + if AcceptedUpdate(states[j - 1], events[j - 1]) then 1 else 0
  }

  lemma AgedOnce(cfg: Config, t: Target, ts: int)
    requires cfg.Valid() && TargetOk(cfg, t) && t.state != Processed
    ensures var a := Age(cfg, t, ts);
      && a == t.(missed := t.missed + 1, state := if t.missed + 1 >= cfg.lostFrames then Lost else t.state)
      && (a.state == Lost && a.missed > cfg.retirement <==> t.missed + 1 > cfg.retirement)
  {
  }

  /**
   * A target that is not PROCESSED, with `missed` misses, that is never matched or marked again is still
   * there after n accepted updates exactly while missed + n is at most the retirement; it is LOST exactly once
   * missed + n reaches the lost frames, and nothing else about it changes.
   */
  lemma {:induction false} RetiredExactlyOnTime(cfg: Config, states: seq<Manager>, events: seq<Event>, i: nat, j: nat, id: nat)
    requires IsRun(cfg, states, events) && i <= j <= |events|
    requires Lookup(states[i].targets, id).Some? && Lookup(states[i].targets, id).value.state != Processed
    requires forall k | i <= k < j :: LeftAlone(cfg, states[k], events[k], id)
    ensures var t := Lookup(states[i].targets, id).value;
      var now := Lookup(states[j].targets, id);
      var n := Updates(states, events, i, j);
      && (now.Some? <==> t.missed + n <= cfg.retirement)
      && (now.Some? ==> now.value == t.(missed := t.missed + n, state := if t.missed + n >= cfg.lostFrames then Lost else t.state))
      && id < states[j].nextId
    decreases j - i
  {
    hide Sighting, CanMark, Accepts, Step, Lookup;
    ReachableStatesAreSound(cfg, states, events, i);
    var at := LookupIndex(states[i].targets, id);
    if i < j {
      RetiredExactlyOnTime(cfg, states, events, i, j - 1, id);
      var m, e := states[j - 1], events[j - 1];
      ReachableStatesAreSound(cfg, states, events, j - 1);
      StepKeepsInv(cfg, m, e);
      assert LeftAlone(cfg, m, e, id);
      StepOf(cfg, m, e, id);
      if Lookup(m.targets, id).Some? && e.Observe? {
        var k := LookupIndex(m.targets, id);
        AgedOnce(cfg, m.targets[k], e.ts);
      }
    }
  }

  // ---------------------------------------------------------------- confirmation

  /** The step, if it is an accepted update, matches the target, and it does not mark it. */
  predicate InView(cfg: Config, m: Manager, e: Event, id: nat) {
    match e
    case Observe(observations, ts) => Accepts(m, ts) ==> Sighting(cfg, m, observations, ts, id).Some?
    case Complete(c, at, allowLost) => !(c == id && CanMark(m, id, at, allowLost))
  }

  /** The target after a further `n` > 0 matches, as far as confirmation goes. */
  predicate CountsTo(cfg: Config, t: Target, hits: nat) {
    && t.hits == hits && t.missed == 0
    && t.state == if hits >= cfg.confirmFrames then Confirmed else Tentative
  }

  lemma MatchedOnce(cfg: Config, t: Target, o: Observation, ts: int)
    requires cfg.Valid() && TargetOk(cfg, t) && t.state != Processed && IsValidObservation(o)
    ensures CountsTo(cfg, AfterMatch(cfg, t, o, ts), t.hits + 1)
  {
  }

  /**
   * A target that is not PROCESSED, with h hits, that is matched by each of the next n > 0 accepted updates and not
   * marked, has h + n hits and is CONFIRMED exactly when these are enough, TENTATIVE otherwise.
   */
  lemma {:induction false} ConfirmedExactlyOnTime(cfg: Config, states: seq<Manager>, events: seq<Event>, i: nat, j: nat, id: nat)
    requires IsRun(cfg, states, events) && i <= j <= |events|
    requires Lookup(states[i].targets, id).Some? && Lookup(states[i].targets, id).value.state != Processed
    requires forall k | i <= k < j :: InView(cfg, states[k], events[k], id)
    ensures var t := Lookup(states[i].targets, id).value;
      var now := Lookup(states[j].targets, id);
      var n := Updates(states, events, i, j);
      && now.Some? && id < states[j].nextId
      && if n == 0 then now.value == t else CountsTo(cfg, now.value, t.hits + n)
    decreases j - i
  {
    hide Sighting, CanMark, Accepts, Step, Lookup;
    ReachableStatesAreSound(cfg, states, events, i);
    var at := LookupIndex(states[i].targets, id);
    if i < j {
      ConfirmedExactlyOnTime(cfg, states, events, i, j - 1, id);
      var m, e := states[j - 1], events[j - 1];
      ReachableStatesAreSound(cfg, states, events, j - 1);
      StepKeepsInv(cfg, m, e);
      assert InView(cfg, m, e, id);
      StepOf(cfg, m, e, id);
      var k := LookupIndex(m.targets, id);
      if e.Observe? && Accepts(m, e.ts) {
        MatchedOnce(cfg, m.targets[k], Sighting(cfg, m, e.observations, e.ts, id).value, e.ts);
      }
    }
  }

  /** Step `k` is an accepted update that matches the target. */
  predicate Sees(cfg: Config, states: seq<Manager>, events: seq<Event>, k: nat, id: nat)
    requires k < |events| < |states|
  {
    && AcceptedUpdate(states[k], events[k])
    && Sighting(cfg, states[k], events[k].observations, events[k].ts, id).Some?
  }

  lemma FateOfSeen(cfg: Config, states: seq<Manager>, events: seq<Event>, k: nat, id: nat)
    requires IsRun(cfg, states, events) && k < |events| && Sees(cfg, states, events, k, id)
    requires Lookup(states[k].targets, id).Some?
    ensures var t := Lookup(states[k].targets, id).value;
      var o := Sighting(cfg, states[k], events[k].observations, events[k].ts, id).value;
      && TargetOk(cfg, t) && t.id == id < states[k].nextId
      && Lookup(states[k + 1].targets, id) == Some(AfterMatch(cfg, t, o, events[k].ts))
  {
    hide Sighting, AfterMatch, Accepts, Step, Lookup;
    ReachableStatesAreSound(cfg, states, events, k);
    var i := LookupIndex(states[k].targets, id);
    StepOf(cfg, states[k], events[k], id);
    MatchIsNotLost(cfg, states[k].targets[i], Sighting(cfg, states[k], events[k].observations, events[k].ts, id).value, events[k].ts);
  }

  lemma MatchIsNotLost(cfg: Config, t: Target, o: Observation, ts: int)
    requires IsValidObservation(o)
    ensures AfterMatch(cfg, t, o, ts).state != Lost
  {
  }

  /**
   * A PROCESSED target that is matched counts again from 1, TENTATIVE and with its mark erased, exactly when its
   * cooldown has run out; before that it keeps its state, its hits and its mark.
   */
  lemma ProcessedCountsAgain(cfg: Config, states: seq<Manager>, events: seq<Event>, k: nat, id: nat)
    requires IsRun(cfg, states, events) && k < |events| && Sees(cfg, states, events, k, id)
    requires Lookup(states[k].targets, id).Some? && Lookup(states[k].targets, id).value.state == Processed
    ensures var t, now := Lookup(states[k].targets, id).value, Lookup(states[k + 1].targets, id);
      && now.Some? && now.value.missed == 0
      && if CoolingDown(cfg, t.processedAtNs, events[k].ts)
         then now.value.state == Processed && now.value.hits == t.hits && now.value.processedAtNs == t.processedAtNs
         else now.value.state == Tentative && now.value.hits == 1 && now.value.processedAtNs == 0
  {
    hide Sighting, Accepts, Step, Lookup;
    FateOfSeen(cfg, states, events, k, id);
  }

  /** From its reactivation on, a target is CONFIRMED again exactly when enough further updates have matched it. */
  lemma ConfirmedAgainOnTime(cfg: Config, states: seq<Manager>, events: seq<Event>, k: nat, j: nat, id: nat)
    requires IsRun(cfg, states, events) && k < j <= |events| && Sees(cfg, states, events, k, id)
    requires var t := Lookup(states[k].targets, id);
      t.Some? && t.value.state == Processed && !CoolingDown(cfg, t.value.processedAtNs, events[k].ts)
    requires forall l | k < l < j :: InView(cfg, states[l], events[l], id)
    ensures var now, n := Lookup(states[j].targets, id), Updates(states, events, k + 1, j);
      && now.Some? && now.value.hits == 1 + n
      && now.value.state == if n > 0 && 1 + n >= cfg.confirmFrames then Confirmed else Tentative
  {
    hide Sighting, Step, Lookup, Sees, InView, CoolingDown, Updates, AcceptedUpdate;
    ProcessedCountsAgain(cfg, states, events, k, id);
    ConfirmedExactlyOnTime(cfg, states, events, k + 1, j, id);
  }

  /** A new target shows its observation and nothing else, and has one hit. */
  lemma NewTargetStarts(cfg: Config, id: nat, o: Observation)
    requires cfg.Valid() && IsValidObservation(o)
    ensures var t := NewTarget(cfg, id, o);
      && CountsTo(cfg, t, 1) && t.id == id && t.className == o.className && t.confidence == o.confidence.value
      && t.raw == t.filtered == o.position && t.firstNs == t.lastNs == o.timestampNs && t.depthValid
  {
  }

  /** A target that an update adds is CONFIRMED exactly when it has been seen often enough, counting its first sight. */
  lemma NewcomersConfirmedOnTime(cfg: Config, states: seq<Manager>, events: seq<Event>, k: nat, j: nat, id: nat)
    requires IsRun(cfg, states, events) && k < j <= |events| && states[k].nextId <= id < states[k + 1].nextId
    requires forall l | k < l < j :: InView(cfg, states[l], events[l], id)
    ensures var now := Lookup(states[j].targets, id);
      now.Some? && CountsTo(cfg, now.value, 1 + Updates(states, events, k + 1, j))
  {
    hide Sighting, Lookup, InView, Step;
    ReachableStatesAreSound(cfg, states, events, k);
    NewcomerAfter(cfg, states[k], events[k], id);
    ConfirmedExactlyOnTime(cfg, states, events, k + 1, j, id);
  }

  lemma NewcomerAfter(cfg: Config, m: Manager, e: Event, id: nat)
    requires cfg.Valid() && Inv(cfg, m) && !Step(cfg, m, e).threw && m.nextId <= id < Step(cfg, m, e).manager.nextId
    ensures var t := Lookup(Step(cfg, m, e).manager.targets, id); t.Some? && CountsTo(cfg, t.value, 1)
  {
    hide AfterUpdate, AfterMark, Inv, NewTarget, Starting, NewStarters, Lookup, CountsTo;
    match e
    case Observe(observations, ts) =>
      NothingAddedUnlessAccepted(cfg, m, observations, ts);
      NewcomersAre(cfg, m, observations, ts, id);
      NewTargetStarts(cfg, id, Starting(cfg, m, observations, ts, id - m.nextId));
    case Complete(c, at, allowLost) =>
      MarkIs(cfg, m, c, at, allowLost, id);
  }

  lemma NothingAddedUnlessAccepted(cfg: Config, m: Manager, observations: seq<Observation>, ts: int)
    ensures AfterUpdate(cfg, m, observations, ts).manager.nextId != m.nextId ==> Accepts(m, ts)
  {
  }

  /**
   * A match takes over the observation as it is and moves the filtered position toward it until only the share
   * 1 - alpha of the distance is left; first sight and identity stay.
   */
  lemma SightingRefreshes(cfg: Config, states: seq<Manager>, events: seq<Event>, k: nat, id: nat)
    requires IsRun(cfg, states, events) && k < |events| && Sees(cfg, states, events, k, id)
    requires Lookup(states[k].targets, id).Some?
    ensures var t, now := Lookup(states[k].targets, id).value, Lookup(states[k + 1].targets, id);
      var o := Sighting(cfg, states[k], events[k].observations, events[k].ts, id).value;
      && now.Some? && now.value.raw == o.position && now.value.confidence == o.confidence.value
      && now.value.lastNs == o.timestampNs <= events[k].ts && now.value.depthValid
      && now.value.firstNs == t.firstNs && now.value.className == t.className && now.value.id == id
      && DistanceSq(now.value.filtered, o.position) == Square(1.0 - cfg.emaAlpha) * DistanceSq(t.filtered, o.position)
  {
    hide Sighting, Step, Lookup, DistanceSq, Square;
    FateOfSeen(cfg, states, events, k, id);
    var o := Sighting(cfg, states[k], events[k].observations, events[k].ts, id).value;
    FilterContracts(Lookup(states[k].targets, id).value.filtered, o.position, cfg.emaAlpha);
  }

  // ---------------------------------------------------------------- cooldown

  /** The cooldown of a target processed at `p` has not run out at `ts`. */
  predicate CoolingDown(cfg: Config, p: int, ts: int) {
    ts < p || (ts - p) as real / 1000000000.0 < cfg.cooldownSec
  }

  /** The step is no accepted update after the cooldown, and does not mark the target again. */
  predicate StillCooling(cfg: Config, m: Manager, e: Event, id: nat, processedAt: int) {
    match e
    case Observe(_, ts) => Accepts(m, ts) ==> CoolingDown(cfg, processedAt, ts)
    case Complete(c, at, allowLost) => !(c == id && CanMark(m, id, at, allowLost))
  }

  lemma CoolingStays(cfg: Config, t: Target, o: Option<Observation>, ts: int)
    requires t.state == Processed && CoolingDown(cfg, t.processedAtNs, ts) && (o.Some? ==> IsValidObservation(o.value))
    ensures Evolve(cfg, t, o, ts).state == Processed && Evolve(cfg, t, o, ts).processedAtNs == t.processedAtNs
  {
  }

  /** Before its cooldown runs out a PROCESSED target neither changes state nor is removed. */
  lemma {:induction false} ProcessedIsHeld(cfg: Config, states: seq<Manager>, events: seq<Event>, i: nat, j: nat, id: nat)
    requires IsRun(cfg, states, events) && i <= j <= |events|
    requires Lookup(states[i].targets, id).Some? && Lookup(states[i].targets, id).value.state == Processed
    requires forall k | i <= k < j ::
      StillCooling(cfg, states[k], events[k], id, Lookup(states[i].targets, id).value.processedAtNs)
    ensures var now := Lookup(states[j].targets, id);
      && now.Some? && now.value.state == Processed
      && now.value.processedAtNs == Lookup(states[i].targets, id).value.processedAtNs
    decreases j - i
  {
    hide Sighting, CanMark, Accepts, Evolve, Step, Lookup;
    if i < j {
      ProcessedIsHeld(cfg, states, events, i, j - 1, id);
      var m, e := states[j - 1], events[j - 1];
      ReachableStatesAreSound(cfg, states, events, j - 1);
      var k := LookupIndex(m.targets, id);
      assert StillCooling(cfg, m, e, id, Lookup(states[i].targets, id).value.processedAtNs);
      StepOf(cfg, m, e, id);
      if e.Observe? && Accepts(m, e.ts) {
        CoolingStays(cfg, m.targets[k], Sighting(cfg, m, e.observations, e.ts, id), e.ts);
      }
    }
  }
}
