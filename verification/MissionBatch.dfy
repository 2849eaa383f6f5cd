// Station order batches: the plan of a submitted batch, its dispatch order, and which
// missions a batch id reaches.
module MissionBatch {
  import opened Common
  import opened MissionQueue
  import opened MissionOrder

  // ---------------------------------------------------------------- the plan

  datatype BatchRequest = BatchRequest(
    batchId: string, originalOrderIds: seq<string>, sanitizedOrderIds: seq<string>,
    pickupStationIds: seq<string>, dropoffStationIds: seq<string>,
    priority: int, startIfIdle: bool, preemptCurrent: bool, continueOnError: bool)
  {
    function OrderCount(): nat {
      |originalOrderIds|
    }
    predicate SizesAgree() {
      && OrderCount() != 0 && |sanitizedOrderIds| == OrderCount()
      && |pickupStationIds| == OrderCount() && |dropoffStationIds| == OrderCount()
    }
  }

  datatype ItemPlan =
    RejectedItem(rejectOrderId: string, rejectMessage: string)
  | AcceptedItem(stationOrderId: string, pickupStation: string, dropoffStation: string,
                 priority: int, startIfIdle: bool, preemptCurrent: bool)

  datatype BatchPlan = RejectedBatch(message: string) | AcceptedBatch(items: seq<ItemPlan>)

  const BATCH_ID_EMPTY := "batch_id is empty"
  const SIZE_MISMATCH := "batch order_ids, pickup_station_ids and dropoff_station_ids size mismatch"
  const ORDER_ID_EMPTY := "order_id is empty"

  function ItemFor(r: BatchRequest, k: nat): ItemPlan
    requires r.SizesAgree() && k < r.OrderCount()
  {
    if r.sanitizedOrderIds[k] == "" then RejectedItem(r.originalOrderIds[k], ORDER_ID_EMPTY)
    else AcceptedItem("batch_" + r.batchId + "_order_" + r.sanitizedOrderIds[k], r.pickupStationIds[k], r.dropoffStationIds[k],
                      r.priority - k, r.startIfIdle && k == 0, r.preemptCurrent && k == 0)
  }

  /** The plan: one item for each order, up to the first rejected one unless errors are skipped. */
  ghost predicate IsPlanOf(r: BatchRequest, plan: BatchPlan) {
    if r.batchId == "" then plan == RejectedBatch(BATCH_ID_EMPTY)
    else if !r.SizesAgree() then plan == RejectedBatch(SIZE_MISMATCH)
    else
      && plan.AcceptedBatch? && 0 < |plan.items| <= r.OrderCount()
      && (forall k | 0 <= k < |plan.items| :: plan.items[k] == ItemFor(r, k))
      && (forall k | 0 <= k < |plan.items| - 1 :: plan.items[k].RejectedItem? ==> r.continueOnError)
      && (|plan.items| < r.OrderCount() ==> plan.items[|plan.items| - 1].RejectedItem? && !r.continueOnError)
  }

  method PlanStationOrderBatchSubmit(r: BatchRequest) returns (plan: BatchPlan)
    ensures IsPlanOf(r, plan)
  {
    if r.batchId == "" {
      return RejectedBatch(BATCH_ID_EMPTY);
    }
    var n := |r.originalOrderIds|;
    if n == 0 || |r.sanitizedOrderIds| != n || |r.pickupStationIds| != n || |r.dropoffStationIds| != n {
      return RejectedBatch(SIZE_MISMATCH);
    }
    var items: seq<ItemPlan> := [];
    for index := 0 to n
      invariant |items| == index
      invariant forall k | 0 <= k < index :: items[k] == ItemFor(r, k)
      invariant forall k | 0 <= k < index :: items[k].RejectedItem? ==> r.continueOnError
    {
      if r.sanitizedOrderIds[index] == "" {
        items := items + [RejectedItem(r.originalOrderIds[index], ORDER_ID_EMPTY)];
        if !r.continueOnError {
          return AcceptedBatch(items);
        }
        continue;
      }
      items := items + [AcceptedItem("batch_" + r.batchId + "_order_" + r.sanitizedOrderIds[index],
                                     r.pickupStationIds[index], r.dropoffStationIds[index], r.priority - index,
                                     r.startIfIdle && index == 0, r.preemptCurrent && index == 0)];
    }
    plan := AcceptedBatch(items);
  }

  lemma PlanIsNotShorter(r: BatchRequest, a: BatchPlan, b: BatchPlan)
    requires IsPlanOf(r, a) && IsPlanOf(r, b) && a.AcceptedBatch? && b.AcceptedBatch?
    ensures |a.items| >= |b.items|
  {
    var last := |a.items| - 1;
    assert last < |b.items| ==> b.items[last] == ItemFor(r, last);
  }

  lemma PlanIsUnique(r: BatchRequest, a: BatchPlan, b: BatchPlan)
    requires IsPlanOf(r, a) && IsPlanOf(r, b)
    ensures a == b
  {
    if a.AcceptedBatch? {
      PlanIsNotShorter(r, a, b);
      PlanIsNotShorter(r, b, a);
    }
  }

  /** A batch asks for an immediate start, or to preempt, exactly when the request does and its first order is not rejected. */
  lemma StartNeedsTheFirstOrder(r: BatchRequest, plan: BatchPlan)
    requires IsPlanOf(r, plan) && plan.AcceptedBatch?
    ensures (exists item | item in plan.items :: item.AcceptedItem? && item.startIfIdle)
            <==> r.startIfIdle && r.sanitizedOrderIds[0] != ""
    ensures (exists item | item in plan.items :: item.AcceptedItem? && item.preemptCurrent)
            <==> r.preemptCurrent && r.sanitizedOrderIds[0] != ""
  {
    assert plan.items[0] == ItemFor(r, 0);
    forall item | item in plan.items && item.AcceptedItem? && item.preemptCurrent
      ensures r.preemptCurrent && item == plan.items[0]
    {
      var k :| 0 <= k < |plan.items| && plan.items[k] == item;
      assert item == ItemFor(r, k);
    }
    forall item | item in plan.items && item.AcceptedItem? && item.startIfIdle
      ensures r.startIfIdle && item == plan.items[0]
    {
      var k :| 0 <= k < |plan.items| && plan.items[k] == item;
      assert item == ItemFor(r, k);
    }
  }

  /** A concrete request: the first of two orders has an empty id, and the batch does not ask for the start it was to have. */
  lemma LostStart(plan: BatchPlan)
    requires IsPlanOf(BatchRequest("b", ["?", "o"], ["", "o"], ["p", "p"], ["d", "d"], 5, true, false, true), plan)
    ensures plan == AcceptedBatch([RejectedItem("?", ORDER_ID_EMPTY), AcceptedItem("batch_b_order_o", "p", "d", 4, false, false)])
    ensures !exists item | item in plan.items :: item.AcceptedItem? && item.startIfIdle
  {
    var r := BatchRequest("b", ["?", "o"], ["", "o"], ["p", "p"], ["d", "d"], 5, true, false, true);
    assert plan.items[0] == ItemFor(r, 0);
    assert |plan.items| == 2 && plan.items[1] == ItemFor(r, 1);
    assert "batch_" + "b" + "_order_" + "o" == "batch_b_order_o";
    StartNeedsTheFirstOrder(r, plan);
  }

  // ---------------------------------------------------------------- dispatch order

  lemma EarlierItemIsBefore(r: BatchRequest, plan: BatchPlan, i: nat, j: nat, x: QueuedMission, y: QueuedMission)
    requires IsPlanOf(r, plan) && plan.AcceptedBatch? && i < j < |plan.items|
    requires plan.items[i].AcceptedItem? && plan.items[j].AcceptedItem?
    requires x.priority == plan.items[i].priority && y.priority == plan.items[j].priority
    ensures Before(x, y)
  {
    assert plan.items[i] == ItemFor(r, i) && plan.items[j] == ItemFor(r, j);
  }

  /**
   * Whatever else is queued and paused, missions admitted at their planned priorities are dispatched in the
   * order of the batch, and each runnable one is dispatched.
   */
  lemma BatchDispatchesInOrder(r: BatchRequest, plan: BatchPlan, i: nat, j: nat, x: QueuedMission, y: QueuedMission,
                               s: seq<QueuedMission>, paused: set<string>)
    requires IsPlanOf(r, plan) && plan.AcceptedBatch? && i < j < |plan.items|
    requires plan.items[i].AcceptedItem? && plan.items[j].AcceptedItem?
    requires x.priority == plan.items[i].priority && y.priority == plan.items[j].priority && x in s && y in s
    ensures var popped := DispatchAll(Sorted(s), paused).popped;
      && (x in popped <==> !Paused(x, paused))
      && forall a, b | 0 <= a < |popped| && 0 <= b < |popped| && popped[a] == x && popped[b] == y :: a < b
  {
    EarlierItemIsBefore(r, plan, i, j, x, y);
    hide Paused, IsPlanOf;
    DispatchOfSortedQueue(s, paused);
    FilterKeeps(s, RunnableUnder(paused));
    SortPermutes(Filter(s, RunnableUnder(paused)));
    SameElements(Sorted(Filter(s, RunnableUnder(paused))), Filter(s, RunnableUnder(paused)));
  }

  // ---------------------------------------------------------------- which missions a batch id reaches

  const MARKER := "_order_"

  /** The mission id a batch's order gets when it is submitted as a station order. */
  function BatchMissionId(batchId: string, orderId: string): string {
    "station_order_" + ("batch_" + batchId + "_order_" + orderId)
  }

  lemma StripPrefix(p: string, a: string, b: string)
    ensures p + a <= p + b <==> a <= b
  {
    if p + a <= p + b {
      assert forall k | 0 <= k < |a| :: a[k] == (p + a)[|p| + k] == (p + b)[|p| + k] == b[k];
    }
  }

  lemma MembershipIsPrefix(b: string, o: string, c: string)
    ensures MissionBelongsToStationOrderBatch(BatchMissionId(b, o), c) <==> c + MARKER <= b + MARKER + o
  {
    var p := "station_order_batch_";
    assert BatchMissionId(b, o) == p + (b + MARKER + o);
    assert p + c + "_order_" == p + (c + MARKER);
    StripPrefix(p, c + MARKER, b + MARKER + o);
  }

  const STEP := "_step_"

  /** The prefixes of the missions that belong to workflow orders; none is a prefix of another. */
  datatype WorkflowFamily = StationOrderFleet | FacilityAction | StationSequence
  {
    function Prefix(): string {
      match this
      case StationOrderFleet => "station_order_fleet_"
      case FacilityAction => "facility_action_"
      case StationSequence => "station_sequence_"
    }
  }

  lemma FamiliesDiffer(f: WorkflowFamily, g: WorkflowFamily, a: string, b: string)
    requires f != g
    ensures !(f.Prefix() + a <= g.Prefix() + b)
  {
    var s, t := f.Prefix() + a, g.Prefix() + b;
    assert s[0] == f.Prefix()[0] && t[0] == g.Prefix()[0];
    assert s[8] == f.Prefix()[8] && t[8] == g.Prefix()[8];
  }

  /**
   * A mission whose id is a family's prefix, an order id, "_step_" and a step belongs to its own order, and to another
   * exactly if that order's id followed by "_step_" is also a beginning of the rest.
   */
  lemma WorkflowMembershipExactly(f: WorkflowFamily, order: string, step: string, other: string)
    ensures MissionBelongsToWorkflowOrder(f.Prefix() + (order + STEP + step), other) <==> other + STEP <= order + STEP + step
    ensures MissionBelongsToWorkflowOrder(f.Prefix() + (order + STEP + step), order)
  {
    var rest, stem := order + STEP + step, other + STEP;
    StripPrefix(f.Prefix(), stem, rest);
    forall g: WorkflowFamily | g != f ensures !(g.Prefix() + stem <= f.Prefix() + rest) {
      FamiliesDiffer(g, f, stem, rest);
    }
    BelongsByFamily(f.Prefix() + rest, other);
    BelongsByFamily(f.Prefix() + rest, order);
    StripPrefix(f.Prefix(), order + STEP, rest);
  }

  lemma BelongsByFamily(missionId: string, order: string)
    ensures MissionBelongsToWorkflowOrder(missionId, order) <==>
            || StationOrderFleet.Prefix() + (order + STEP) <= missionId
            || FacilityAction.Prefix() + (order + STEP) <= missionId
            || StationSequence.Prefix() + (order + STEP) <= missionId
  {
    assert "station_order_fleet_" + order + "_step_" == "station_order_fleet_" + (order + STEP);
    assert "facility_action_" + order + "_step_" == "facility_action_" + (order + STEP);
    assert "station_sequence_" + order + "_step_" == "station_sequence_" + (order + STEP);
  }

  ghost predicate Contains(s: string, t: string) {
    exists k: nat :: k <= |s| && t <= s[k..]
  }

  /** The marker can overlap itself only in its last character. */
  lemma MarkerDoesNotOverlap(t: string, d: nat)
    requires d < |t| && MARKER <= t && MARKER <= t[d..]
    ensures d == 0 || d >= 6
  {
    assert t[d] == t[d..][0];
    assert d < 7 ==> t[d] == MARKER[d];
  }

  lemma PrefixDrop(a: string, b: string, k: nat)
    requires a <= b && k <= |a|
    ensures a[k..] <= b[k..]
  {
  }

  lemma ShorterBatchId(b: string, o: string, c: string)
    requires |c| < |b|
    ensures c + MARKER <= b + MARKER + o <==> c + MARKER <= b + "_"
  {
    var whole := b + MARKER + o;
    assert b + "_" == whole[..|b| + 1];
    if c + MARKER <= whole {
      PrefixDrop(c + MARKER, whole, |c|);
      assert (c + MARKER)[|c|..] == MARKER;
      assert whole[|c|..][|b| - |c|..] == MARKER + o;
      MarkerDoesNotOverlap(whole[|c|..], |b| - |c|);
    }
  }

  lemma LongerBatchIdStarts(b: string, o: string, c: string)
    requires |c| > |b| && c + MARKER <= b + MARKER + o
    ensures b + "_order" <= c
  {
    var whole := b + MARKER + o;
    PrefixDrop(c + MARKER, whole, |c|);
    assert (c + MARKER)[|c|..] == MARKER;
    assert whole[|b|..] == MARKER + o;
    assert whole[|b|..][|c| - |b|..] == whole[|c|..];
    MarkerDoesNotOverlap(whole[|b|..], |c| - |b|);
    assert c == whole[..|c|] && b + "_order" == whole[..|b| + 6];
  }

  lemma LongerBatchId(b: string, o: string, c: string)
    requires b + "_order" <= c
    ensures c + MARKER <= b + MARKER + o <==> c[|b| + 6..] + MARKER <= "_" + o
  {
    var p, rest := b + "_order", c[|b| + 6..];
    assert b + MARKER + o == p + ("_" + o);
    assert c + MARKER == p + (rest + MARKER);
    StripPrefix(p, rest + MARKER, "_" + o);
  }

  /** Which batch ids reach the mission of batch `b`'s order `o`: its own, and those cut out around a marker inside the ids. */
  lemma BatchMembershipExactly(b: string, o: string, c: string)
    ensures MissionBelongsToStationOrderBatch(BatchMissionId(b, o), c) <==>
            || c == b
            || (|c| < |b| && c + MARKER <= b + "_")
            || (b + "_order" <= c && c[|b| + 6..] + MARKER <= "_" + o)
  {
    hide MissionBelongsToStationOrderBatch;
    MembershipIsPrefix(b, o, c);
    if |c| < |b| {
      ShorterBatchId(b, o, c);
    } else if |c| > |b| {
      if c + MARKER <= b + MARKER + o {
        LongerBatchIdStarts(b, o, c);
      }
      if b + "_order" <= c {
        LongerBatchId(b, o, c);
      }
    } else {
      assert b == (b + MARKER + o)[..|b|] && c == (c + MARKER)[..|c|];
      if c == b {
        assert c + MARKER == (b + MARKER + o)[..|b| + 7];
      }
    }
  }

  ghost predicate ReachedOnlyByItsBatch(b: string, o: string) {
    forall c :: MissionBelongsToStationOrderBatch(BatchMissionId(b, o), c) <==> c == b
  }

  /**
   * Cancelling by batch id reaches a batch's mission only through its own id exactly when no marker occurs
   * in the batch id followed by '_' nor in '_' followed by the order id.
   */
  lemma BatchCancelIsExact(b: string, o: string)
    ensures ReachedOnlyByItsBatch(b, o) <==> !Contains(b + "_", MARKER) && !Contains("_" + o, MARKER)
  {
    hide MissionBelongsToStationOrderBatch, BatchMissionId;
    if Contains(b + "_", MARKER) {
      MarkerInBatchId(b, o);
    } else if Contains("_" + o, MARKER) {
      MarkerInOrderId(b, o);
    } else {
      forall c ensures MissionBelongsToStationOrderBatch(BatchMissionId(b, o), c) <==> c == b {
        BatchMembershipExactly(b, o, c);
        NoMarkerNoMatch(b, o, c);
      }
    }
  }

  lemma MarkerInBatchId(b: string, o: string)
    requires Contains(b + "_", MARKER)
    ensures !ReachedOnlyByItsBatch(b, o)
  {
    hide MissionBelongsToStationOrderBatch, BatchMissionId;
    var k: nat :| k <= |b + "_"| && MARKER <= (b + "_")[k..];
    var c := b[..k];
    assert b + "_" == c + (b + "_")[k..];
    StripPrefix(c, MARKER, (b + "_")[k..]);
    BatchMembershipExactly(b, o, c);
  }

  lemma MarkerInOrderId(b: string, o: string)
    requires Contains("_" + o, MARKER)
    ensures !ReachedOnlyByItsBatch(b, o)
  {
    hide MissionBelongsToStationOrderBatch, BatchMissionId;
    var t := "_" + o;
    var k: nat :| k <= |t| && MARKER <= t[k..];
    var c := b + "_order" + t[..k];
    assert c[|b| + 6..] == t[..k] && t == t[..k] + t[k..];
    StripPrefix(t[..k], MARKER, t[k..]);
    assert b + "_order" == c[..|b| + 6];
    BatchMembershipExactly(b, o, c);
  }

  lemma NoMarkerNoMatch(b: string, o: string, c: string)
    requires !Contains(b + "_", MARKER) && !Contains("_" + o, MARKER)
    ensures !(|c| < |b| && c + MARKER <= b + "_")
    ensures !(b + "_order" <= c && c[|b| + 6..] + MARKER <= "_" + o)
  {
    hide Contains;
    if c + MARKER <= b + "_" {
      FoundAfter(c, b + "_");
    }
    if b + "_order" <= c && c[|b| + 6..] + MARKER <= "_" + o {
      FoundAfter(c[|b| + 6..], "_" + o);
    }
  }

  lemma FoundAfter(c: string, s: string)
    requires c + MARKER <= s
    ensures Contains(s, MARKER)
  {
    PrefixDrop(c + MARKER, s, |c|);
    assert (c + MARKER)[|c|..] == MARKER;
  }

  /** Batch "a" reaches the missions of batch "a_order_b". */
  lemma CancelReachesAnotherBatch(o: string)
    ensures MissionBelongsToStationOrderBatch(BatchMissionId("a_order_b", o), "a") && !ReachedOnlyByItsBatch("a_order_b", o)
  {
    var b, c := "a_order_b", "a";
    assert c + MARKER <= b + "_";
    BatchMembershipExactly(b, o, c);
  }
}
