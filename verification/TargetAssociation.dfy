// What one update of the target manager does with its observations: the association is
// the unique stable matching, and every observation is matched, suppressed or starts a target.
module TargetAssociation {
  import opened Common
  import opened Association
  import opened TargetTracking

  ghost predicate IdsAscend(targets: seq<Target>) {
    forall i, j | 0 <= i < j < |targets| :: targets[i].id < targets[j].id
  }

  // ---------------------------------------------------------------- the candidates

  /** The order in which the nested loops push candidates. */
  predicate Earlier(a: Candidate, b: Candidate) {
    a.target < b.target || (a.target == b.target && a.observation < b.observation)
  }

  ghost predicate InLoopOrder(s: seq<Candidate>) {
    forall i, j | 0 <= i < j < |s| :: Earlier(s[i], s[j])
  }

  lemma {:induction false} CandidatesOfInLoopOrder(cfg: Config, t: Target, i: nat, obs: seq<Observation>, j: nat)
    ensures InLoopOrder(CandidatesOf(cfg, t, i, obs, j))
    decreases |obs| - j
  {
    if j < |obs| {
      CandidatesOfInLoopOrder(cfg, t, i, obs, j + 1);
      CandidatesOfInRange(cfg, t, i, obs, j + 1);
    }
  }

  lemma LoopOrderAppend(a: seq<Candidate>, b: seq<Candidate>, i: nat)
    requires InLoopOrder(a) && InLoopOrder(b)
    requires forall k | 0 <= k < |a| :: a[k].target == i
    requires forall k | 0 <= k < |b| :: b[k].target > i
    ensures InLoopOrder(a + b)
  {
  }

  lemma {:induction false} CandidatesInLoopOrder(cfg: Config, targets: seq<Target>, obs: seq<Observation>, i: nat)
    ensures InLoopOrder(Candidates(cfg, targets, obs, i))
    decreases |targets| - i
  {
    if i < |targets| {
      CandidatesOfInLoopOrder(cfg, targets[i], i, obs, 0);
      CandidatesOfInRange(cfg, targets[i], i, obs, 0);
      CandidatesInLoopOrder(cfg, targets, obs, i + 1);
      CandidatesInRange(cfg, targets, obs, i + 1);
      var a, b := CandidatesOf(cfg, targets[i], i, obs, 0), Candidates(cfg, targets, obs, i + 1);
      assert forall k | 0 <= k < |a| :: a[k] in a;
      assert forall k | 0 <= k < |b| :: b[k] in b;
      LoopOrderAppend(a, b, i);
    }
  }

  /** With distinct ids the sort order decides between any two candidates of an update. */
  lemma CandidatesHaveNoTies(cfg: Config, targets: seq<Target>, obs: seq<Observation>)
    requires IdsAscend(targets)
    ensures NoTies(Candidates(cfg, targets, obs, 0))
  {
    var cs := Candidates(cfg, targets, obs, 0);
    CandidatesInRange(cfg, targets, obs, 0);
    CandidatesInLoopOrder(cfg, targets, obs, 0);
    forall i, j | 0 <= i < j < |cs|
      ensures Before(cs[i], cs[j]) || Before(cs[j], cs[i])
    {
      assert cs[i] in cs && cs[j] in cs;
      Decided(cfg, targets, obs, cs[i], cs[j]);
    }
  }

  lemma Decided(cfg: Config, targets: seq<Target>, obs: seq<Observation>, a: Candidate, b: Candidate)
    requires IdsAscend(targets) && Earlier(a, b)
    requires IsCandidate(cfg, targets, obs, a) && IsCandidate(cfg, targets, obs, b)
    ensures Before(a, b) || Before(b, a)
  {
    hide Eligible, DistanceSq;
    if a.target < b.target {
      assert targets[a.target].id < targets[b.target].id;
    }
  }

  lemma {:induction false} CandidatesOfComplete(cfg: Config, t: Target, i: nat, obs: seq<Observation>, j: nat, k: nat)
    requires j <= k < |obs| && Eligible(cfg, t, obs[k])
    ensures PairUp(t, i, obs[k], k) in CandidatesOf(cfg, t, i, obs, j)
    decreases |obs| - j
  {
    if j < k {
      CandidatesOfComplete(cfg, t, i, obs, j + 1, k);
    }
  }

  lemma {:induction false} CandidatesComplete(cfg: Config, targets: seq<Target>, obs: seq<Observation>, i: nat, c: Candidate)
    requires i <= c.target && IsCandidate(cfg, targets, obs, c)
    ensures c in Candidates(cfg, targets, obs, i)
    decreases |targets| - i
  {
    if i == c.target {
      CandidatesOfComplete(cfg, targets[i], i, obs, 0, c.observation);
    } else {
      CandidatesComplete(cfg, targets, obs, i + 1, c);
    }
  }

  // ---------------------------------------------------------------- the association

  /** A matching of eligible pairs that leaves out no pair both of whose sides prefer it. */
  ghost predicate StableAssociation(cfg: Config, targets: seq<Target>, obs: seq<Observation>, pairs: set<Candidate>) {
    && (forall c | c in pairs :: IsCandidate(cfg, targets, obs, c))
    && Matching(pairs)
    && forall c: Candidate | IsCandidate(cfg, targets, obs, c) && c !in pairs :: Blocked(pairs, c)
  }

  lemma StableForCandidates(cfg: Config, targets: seq<Target>, obs: seq<Observation>, pairs: set<Candidate>)
    ensures StableAssociation(cfg, targets, obs, pairs) <==>
            Stable(Elements(Candidates(cfg, targets, obs, 0)), pairs)
  {
    hide Matching, Blocked, IsCandidate;
    var all := Elements(Candidates(cfg, targets, obs, 0));
    CandidatesInRange(cfg, targets, obs, 0);
    forall c: Candidate | IsCandidate(cfg, targets, obs, c)
      ensures c in all
    {
      CandidatesComplete(cfg, targets, obs, 0, c);
    }
  }

  /** The association is stable, and it is the only stable one. */
  lemma AssociationIsTheStableOne(cfg: Config, targets: seq<Target>, obs: seq<Observation>, pairs: set<Candidate>)
    requires IdsAscend(targets)
    ensures StableAssociation(cfg, targets, obs, pairs) <==> pairs == Elements(Associate(cfg, targets, obs))
  {
    hide Candidates, StableAssociation, Stable;
    var cs := Candidates(cfg, targets, obs, 0);
    CandidatesHaveNoTies(cfg, targets, obs);
    GreedyIsStable(cs);
    StableForCandidates(cfg, targets, obs, pairs);
    if StableAssociation(cfg, targets, obs, pairs) {
      StableIsUnique(cs, pairs, Elements(Associate(cfg, targets, obs)));
    }
  }

  /** Pair (i, j) comes no later than pair (k, l): it is nearer or, as near, comes first by target and then by observation. */
  ghost predicate NoLater(targets: seq<Target>, obs: seq<Observation>, i: nat, j: nat, k: nat, l: nat)
    requires i < |targets| && k < |targets| && j < |obs| && l < |obs|
  {
    var d, e := DistanceSq(targets[i].filtered, obs[j].position), DistanceSq(targets[k].filtered, obs[l].position);
    d < e || (d == e && (i < k || (i == k && j <= l)))
  }

  /**
   * No same-class pair within the matching distance is passed over: it is associated, or its target or its
   * observation is, in a pair that is nearer (or, as near, comes first).  Nothing else is ever associated.
   */
  lemma NoPairIsPassedOver(cfg: Config, targets: seq<Target>, obs: seq<Observation>, i: nat, j: nat)
    requires IdsAscend(targets) && i < |targets| && j < |obs|
    requires targets[i].className == obs[j].className
    requires DistanceSq(targets[i].filtered, obs[j].position) <= cfg.maxMatchDistance * cfg.maxMatchDistance
    ensures exists c | c in Associate(cfg, targets, obs) ::
              && c.target < |targets| && c.observation < |obs| && (c.target == i || c.observation == j)
              && NoLater(targets, obs, c.target, c.observation, i, j)
    ensures forall c | c in Associate(cfg, targets, obs) ::
              && c.target < |targets| && c.observation < |obs|
              && targets[c.target].className == obs[c.observation].className
              && DistanceSq(targets[c.target].filtered, obs[c.observation].position) <= cfg.maxMatchDistance * cfg.maxMatchDistance
  {
    hide Associate, DistanceSq, Matching, NoLater;
    var pairs := Elements(Associate(cfg, targets, obs));
    AssociationIsTheStableOne(cfg, targets, obs, pairs);
    var p := PairUp(targets[i], i, obs[j], j);
    assert IsCandidate(cfg, targets, obs, p);
    if p in pairs {
      NotBeforeItself(targets, obs, i, j);
    } else {
      assert Blocked(pairs, p);
      var m :| m in pairs && Clash(m, p) && Before(m, p);
      EarlierIsNoLater(cfg, targets, obs, m, p);
    }
    forall c | c in Associate(cfg, targets, obs) ensures IsCandidate(cfg, targets, obs, c) {
      assert c in pairs;
    }
  }

  lemma NotBeforeItself(targets: seq<Target>, obs: seq<Observation>, i: nat, j: nat)
    requires i < |targets| && j < |obs|
    ensures NoLater(targets, obs, i, j, i, j)
  {
  }

  lemma EarlierIsNoLater(cfg: Config, targets: seq<Target>, obs: seq<Observation>, m: Candidate, p: Candidate)
    requires IdsAscend(targets) && IsCandidate(cfg, targets, obs, m) && IsCandidate(cfg, targets, obs, p) && Before(m, p)
    ensures NoLater(targets, obs, m.target, m.observation, p.target, p.observation)
  {
    hide DistanceSq;
    if p.target < m.target {
      assert targets[p.target].id < targets[m.target].id;
    }
  }

  /** The observations an update works on: named, with depth and a finite position, dated up to now, with a share as confidence. */
  lemma {:induction false} UsableAre(observations: seq<Observation>, ts: int, o: Observation)
    ensures o in UsableAt(observations, ts) <==>
            && o in observations && o.className != "" && o.depthValid && o.positionFinite && 0 <= o.timestampNs <= ts
            && o.confidence.Finite? && 0.0 <= o.confidence.value <= 1.0
  {
    if observations != [] {
      UsableAre(observations[1..], ts, o);
      assert observations == [observations[0]] + observations[1..];
    }
  }

  ghost predicate ClashFree(s: seq<Candidate>) {
    forall i, j | 0 <= i < j < |s| :: s[i].target != s[j].target && s[i].observation != s[j].observation
  }

  lemma {:induction false} GreedyIsClashFree(sorted: seq<Candidate>, chosen: seq<Candidate>)
    requires ClashFree(chosen)
    ensures ClashFree(Greedy(sorted, chosen))
    decreases |sorted|
  {
    if sorted != [] {
      var c := sorted[0];
      if !ClashesAny(chosen, c) {
        assert forall i | 0 <= i < |chosen| :: chosen[i] in chosen && !Clash(chosen[i], c);
        GreedyIsClashFree(sorted[1..], chosen + [c]);
      } else {
        GreedyIsClashFree(sorted[1..], chosen);
      }
    }
  }

  // ---------------------------------------------------------------- the observations

  predicate SortedNats(s: seq<nat>) {
    forall i, j | 0 <= i < j < |s| :: s[i] < s[j]
  }

  /** Observation `j` repeats one that is taken by a target, or an earlier one that starts a target. */
  ghost predicate Suppressed(cfg: Config, obs: seq<Observation>, pairs: seq<Candidate>, starters: seq<nat>, j: nat)
    requires j < |obs|
  {
    || (exists a | 0 <= a < |obs| :: Takes(pairs, a) && SameObject(cfg, obs[j], obs[a]))
    || RepeatsStarter(cfg, obs, starters, 0, j)
  }

  ghost predicate RepeatsStarter(cfg: Config, obs: seq<Observation>, starters: seq<nat>, i: nat, j: nat) {
    exists a | i <= a < j < |obs| :: a in starters && SameObject(cfg, obs[j], obs[a])
  }

  lemma {:induction false} StartersAre(cfg: Config, obs: seq<Observation>, pairs: seq<Candidate>, accepted: seq<nat>, i: nat, j: nat)
    requires i <= j < |obs|
    ensures var starters := Starters(cfg, obs, pairs, accepted, i);
      j in starters <==> !Takes(pairs, j) && !Duplicate(cfg, obs, accepted, j) && !RepeatsStarter(cfg, obs, starters, i, j)
    decreases |obs| - i
  {
    hide Takes, SameObject, Duplicate, RepeatsStarter, Starters;
    var starters := Starters(cfg, obs, pairs, accepted, i);
    StartersNext(cfg, obs, pairs, accepted, i);
    if Takes(pairs, i) || Duplicate(cfg, obs, accepted, i) {
      assert i !in starters;
      if i < j {
        StartersAre(cfg, obs, pairs, accepted, i + 1, j);
        RepeatsLater(cfg, obs, starters, i, j);
      }
    } else {
      var later := Starters(cfg, obs, pairs, accepted + [i], i + 1);
      if i < j {
        StartersAre(cfg, obs, pairs, accepted + [i], i + 1, j);
        StarterAdded(cfg, obs, accepted, i, j);
        RepeatsFirst(cfg, obs, later, i, j);
      } else {
        RepeatsNone(cfg, obs, starters, i);
      }
    }
  }

  lemma RepeatsNone(cfg: Config, obs: seq<Observation>, starters: seq<nat>, i: nat)
    ensures !RepeatsStarter(cfg, obs, starters, i, i)
  {
  }

  lemma RepeatsLater(cfg: Config, obs: seq<Observation>, starters: seq<nat>, i: nat, j: nat)
    requires i !in starters
    ensures RepeatsStarter(cfg, obs, starters, i, j) <==> RepeatsStarter(cfg, obs, starters, i + 1, j)
  {
  }

  lemma RepeatsFirst(cfg: Config, obs: seq<Observation>, later: seq<nat>, i: nat, j: nat)
    requires i < j < |obs|
    ensures RepeatsStarter(cfg, obs, [i] + later, i, j) <==>
            RepeatsStarter(cfg, obs, later, i + 1, j) || SameObject(cfg, obs[j], obs[i])
  {
    hide SameObject;
    assert ([i] + later)[0] == i;
  }

  lemma StarterAdded(cfg: Config, obs: seq<Observation>, accepted: seq<nat>, i: nat, j: nat)
    requires i < |obs| && j < |obs|
    ensures Duplicate(cfg, obs, accepted + [i], j) <==> Duplicate(cfg, obs, accepted, j) || SameObject(cfg, obs[j], obs[i])
  {
    if SameObject(cfg, obs[j], obs[i]) {
      assert i in accepted + [i];
    }
  }

  lemma {:induction false} StartersSorted(cfg: Config, obs: seq<Observation>, pairs: seq<Candidate>, accepted: seq<nat>, i: nat)
    ensures SortedNats(Starters(cfg, obs, pairs, accepted, i))
    decreases |obs| - i
  {
    if i < |obs| {
      StartersNext(cfg, obs, pairs, accepted, i);
      StartersSorted(cfg, obs, pairs, accepted, i + 1);
      StartersSorted(cfg, obs, pairs, accepted + [i], i + 1);
    }
  }

  lemma {:induction false} ObservationsAre(pairs: seq<Candidate>, j: nat)
    ensures j in Observations(pairs) <==> Takes(pairs, j)
  {
    if pairs != [] {
      ObservationsAre(pairs[1..], j);
      if Takes(pairs, j) {
        var k :| 0 <= k < |pairs| && pairs[k].observation == j;
        assert k == 0 || pairs[1..][k - 1].observation == j;
      }
      if Takes(pairs[1..], j) {
        var k :| 0 <= k < |pairs[1..]| && pairs[1..][k].observation == j;
        assert pairs[k + 1].observation == j;
      }
    }
  }

  lemma DuplicateOfTaken(cfg: Config, obs: seq<Observation>, pairs: seq<Candidate>, j: nat)
    requires j < |obs| && forall k | 0 <= k < |pairs| :: pairs[k].observation < |obs|
    ensures Duplicate(cfg, obs, Observations(pairs), j) <==>
            exists a | 0 <= a < |obs| :: Takes(pairs, a) && SameObject(cfg, obs[j], obs[a])
  {
    hide SameObject, Takes, Observations;
    forall a: nat
      ensures a in Observations(pairs) <==> Takes(pairs, a)
    {
      ObservationsAre(pairs, a);
    }
  }

  /** One update's view of its observations. */
  ghost predicate Sorts(cfg: Config, obs: seq<Observation>, pairs: seq<Candidate>, starters: seq<nat>) {
    && SortedNats(starters) && Within(starters, |obs|)
    && (forall i, j | 0 <= i < j < |pairs| :: pairs[i].observation != pairs[j].observation)
    && forall j | 0 <= j < |obs| ::
         j in starters <==> !Takes(pairs, j) && !Suppressed(cfg, obs, pairs, starters, j)
  }

  /**
   * Every usable observation is taken by one target, or suppressed as a repeat of a taken or earlier
   * starting one, or starts a target; the three exclude each other.
   */
  lemma EachObservationOnce(cfg: Config, targets: seq<Target>, obs: seq<Observation>)
    ensures var pairs := Associate(cfg, targets, obs);
      Sorts(cfg, obs, pairs, Starters(cfg, obs, pairs, Observations(pairs), 0))
  {
    var pairs := Associate(cfg, targets, obs);
    var accepted := Observations(pairs);
    hide Associate, Starters, SameObject, Takes, Observations, Duplicate;
    var starters := Starters(cfg, obs, pairs, accepted, 0);
    StartersSorted(cfg, obs, pairs, accepted, 0);
    PairsDiffer(cfg, targets, obs);
    forall j | 0 <= j < |obs|
      ensures j in starters <==> !Takes(pairs, j) && !Suppressed(cfg, obs, pairs, starters, j)
    {
      StartersAre(cfg, obs, pairs, accepted, 0, j);
      DuplicateOfTaken(cfg, obs, pairs, j);
    }
  }

  /** An observation that no target takes and that is not near any other of its class starts a target. */
  lemma LoneObservationStarts(cfg: Config, targets: seq<Target>, obs: seq<Observation>, j: nat)
    requires j < |obs| && !Takes(Associate(cfg, targets, obs), j)
    requires forall a | 0 <= a < |obs| && a != j && obs[a].className == obs[j].className ::
      DistanceSq(obs[j].position, obs[a].position) > cfg.maxMatchDistance * cfg.maxMatchDistance
    ensures var pairs := Associate(cfg, targets, obs); j in Starters(cfg, obs, pairs, Observations(pairs), 0)
  {
    hide Associate, Starters, Takes, DistanceSq, Observations, Suppressed;
    EachObservationOnce(cfg, targets, obs);
    var pairs := Associate(cfg, targets, obs);
    LoneIsNotSuppressed(cfg, obs, pairs, Starters(cfg, obs, pairs, Observations(pairs), 0), j);
  }

  lemma LoneIsNotSuppressed(cfg: Config, obs: seq<Observation>, pairs: seq<Candidate>, starters: seq<nat>, j: nat)
    requires j < |obs| && !Takes(pairs, j)
    requires forall a | 0 <= a < |obs| && a != j && obs[a].className == obs[j].className ::
      DistanceSq(obs[j].position, obs[a].position) > cfg.maxMatchDistance * cfg.maxMatchDistance
    ensures !Suppressed(cfg, obs, pairs, starters, j)
  {
    hide Takes, DistanceSq;
  }

  lemma PairsDiffer(cfg: Config, targets: seq<Target>, obs: seq<Observation>)
    ensures var pairs := Associate(cfg, targets, obs);
      && (forall i, j | 0 <= i < j < |pairs| :: pairs[i].observation != pairs[j].observation && pairs[i].target != pairs[j].target)
      && (forall k | 0 <= k < |pairs| :: pairs[k].observation < |obs|)
  {
    var pairs := Associate(cfg, targets, obs);
    GreedyIsClashFree(SortCandidates(Candidates(cfg, targets, obs, 0)), []);
    AssociatedAreCandidates(cfg, targets, obs);
    forall k | 0 <= k < |pairs|
      ensures pairs[k].observation < |obs|
    {
      assert pairs[k] in pairs;
    }
  }

  lemma SameObjectSymmetric(cfg: Config, a: Observation, b: Observation)
    ensures SameObject(cfg, a, b) == SameObject(cfg, b, a)
  {
    assert DistanceSq(a.position, b.position) == DistanceSq(b.position, a.position);
  }

  /** Targets of one class created in one update start more than the matching distance apart. */
  lemma StartersAreApart(cfg: Config, targets: seq<Target>, obs: seq<Observation>, i: nat, j: nat)
    requires var pairs := Associate(cfg, targets, obs);
      var starters := Starters(cfg, obs, pairs, Observations(pairs), 0);
      i < |starters| && j < |starters| && i != j
    ensures var pairs := Associate(cfg, targets, obs);
      var starters := Starters(cfg, obs, pairs, Observations(pairs), 0);
      obs[starters[i]].className == obs[starters[j]].className ==>
      !Near(cfg, obs[starters[i]].position, obs[starters[j]].position)
  {
    hide Associate, Starters, Takes, Near;
    EachObservationOnce(cfg, targets, obs);
    var pairs := Associate(cfg, targets, obs);
    var starters := Starters(cfg, obs, pairs, Observations(pairs), 0);
    var early, late := if i < j then starters[i] else starters[j], if i < j then starters[j] else starters[i];
    assert early in starters && late in starters && early < late;
    assert !RepeatsStarter(cfg, obs, starters, 0, late);
    SameObjectSymmetric(cfg, obs[late], obs[early]);
  }

  /** New targets carry consecutive fresh ids and start where their observations are. */
  lemma {:induction false} NewTargetsAre(cfg: Config, obs: seq<Observation>, starters: seq<nat>, nextId: nat, ts: int, k: nat)
    requires AllUsable(obs, ts) && Within(starters, |obs|) && k < |starters|
    ensures NewTargets(cfg, obs, starters, nextId, ts)[k] == NewTarget(cfg, nextId + k, obs[starters[k]])
  {
    if k > 0 {
      NewTargetsAre(cfg, obs, starters[1..], nextId + 1, ts, k - 1);
    }
  }
}
