// The mission queue of mission_queue.cpp, with the three fields of mission_runner_node.cpp
// it works on: the queue, the next sequence number and the paused workflow orders.  Of a
// mission's profile only the id matters here.
module MissionQueue {
  import opened Common

  datatype QueuedMission = QueuedMission(missionId: string, missionFile: string, priority: int, sequence: nat)

  // ---------------------------------------------------------------- sorting

  /** The comparison handed to std::stable_sort. */
  predicate Before(a: QueuedMission, b: QueuedMission) {
    if a.priority != b.priority then a.priority > b.priority else a.sequence < b.sequence
  }

  function Insert(m: QueuedMission, s: seq<QueuedMission>): seq<QueuedMission> {
    if s == [] || !Before(s[0], m) then [m] + s else [s[0]] + Insert(m, s[1..])
  }

  /** std::stable_sort; what it computes is pinned down by MissionOrder.StableSortIsUnique. */
  function Sorted(s: seq<QueuedMission>): seq<QueuedMission> {
    if s == [] then [] else Insert(s[0], Sorted(s[1..]))
  }

  // ---------------------------------------------------------------- membership by id

  predicate MissionBelongsToWorkflowOrder(missionId: string, orderId: string) {
    || "station_order_fleet_" + orderId + "_step_" <= missionId
    || "facility_action_" + orderId + "_step_" <= missionId
    || "station_sequence_" + orderId + "_step_" <= missionId
  }

  predicate MissionBelongsToStationOrderBatch(missionId: string, batchId: string) {
    "station_order_batch_" + batchId + "_order_" <= missionId
  }

  predicate Paused(m: QueuedMission, paused: set<string>) {
    exists order | order in paused :: MissionBelongsToWorkflowOrder(m.missionId, order)
  }

  function RunnableUnder(paused: set<string>): QueuedMission -> bool {
    (m: QueuedMission) => !Paused(m, paused)
  }

  function PausedUnder(paused: set<string>): QueuedMission -> bool {
    (m: QueuedMission) => Paused(m, paused)
  }

  function HasId(missionId: string): QueuedMission -> bool {
    (m: QueuedMission) => m.missionId == missionId
  }

  function InWorkflow(orderId: string): QueuedMission -> bool {
    (m: QueuedMission) => MissionBelongsToWorkflowOrder(m.missionId, orderId)
  }

  function InBatch(batchId: string): QueuedMission -> bool {
    (m: QueuedMission) => MissionBelongsToStationOrderBatch(m.missionId, batchId)
  }

  function Except(p: QueuedMission -> bool): QueuedMission -> bool {
    (m: QueuedMission) => !p(m)
  }

  function Ids(s: seq<QueuedMission>): seq<string> {
    seq(|s|, i requires 0 <= i < |s| => s[i].missionId)
  }

  // ---------------------------------------------------------------- priorities

  predicate IdQueued(s: seq<QueuedMission>, missionId: string) {
    exists m | m in s :: m.missionId == missionId
  }

  /** The first mission with this id gets the priority. */
  function SetPriority(s: seq<QueuedMission>, missionId: string, priority: int): seq<QueuedMission> {
    if s == [] then []
    else if s[0].missionId == missionId then [s[0].(priority := priority)] + s[1..]
    else [s[0]] + SetPriority(s[1..], missionId, priority)
  }

  /** The first `n` requests applied one after the other. */
  function SetPriorities(s: seq<QueuedMission>, ids: seq<string>, priorities: seq<int>, n: nat): seq<QueuedMission>
    requires n <= |ids| && n <= |priorities|
  {
    if n == 0 then s else SetPriority(SetPriorities(s, ids, priorities, n - 1), ids[n - 1], priorities[n - 1])
  }

  function QueuedIds(s: seq<QueuedMission>, ids: seq<string>): seq<string> {
    Filter(ids, id => IdQueued(s, id))
  }

  // ---------------------------------------------------------------- dispatch

  /** The position of the first mission that is not paused. */
  function FirstRunnable(s: seq<QueuedMission>, paused: set<string>): (r: Option<nat>)
    ensures r.Some? ==> r.value < |s| && !Paused(s[r.value], paused) && forall k | 0 <= k < r.value :: Paused(s[k], paused)
    ensures r.None? ==> forall k | 0 <= k < |s| :: Paused(s[k], paused)
  {
    if s == [] then None
    else if !Paused(s[0], paused) then Some(0)
    else
      var rest := FirstRunnable(s[1..], paused);
      if rest.None? then None else Some(rest.value + 1)
  }

  datatype DispatchResult = DispatchResult(
    success: bool, queueEmpty: bool, allPaused: bool, mission: Option<QueuedMission>, remaining: seq<QueuedMission>)

  function Pop(s: seq<QueuedMission>, paused: set<string>): DispatchResult {
    var i := FirstRunnable(s, paused);
    if s == [] then DispatchResult(false, true, false, None, s)
    else if i.None? then DispatchResult(false, false, true, None, s)
    else DispatchResult(true, false, false, Some(s[i.value]), s[..i.value] + s[i.value + 1..])
  }

  // ---------------------------------------------------------------- state and events

  datatype QueueState = QueueState(queue: seq<QueuedMission>, nextSequence: nat, paused: set<string>)

  function AfterAdmit(s: QueueState, missionId: string, missionFile: string, priority: int): QueueState {
    s.(queue := Sorted(s.queue + [QueuedMission(missionId, missionFile, priority, s.nextSequence)]),
       nextSequence := s.nextSequence + 1)
  }

  function AfterRemove(s: QueueState, p: QueuedMission -> bool): QueueState {
    s.(queue := Filter(s.queue, Except(p)))
  }

  function AfterReprioritize(s: QueueState, missionId: string, priority: int): QueueState {
    if IdQueued(s.queue, missionId) then s.(queue := Sorted(SetPriority(s.queue, missionId, priority))) else s
  }

  function AfterBatchReprioritize(s: QueueState, ids: seq<string>, priorities: seq<int>): QueueState {
    if |ids| != |priorities| then s
    else s.(queue := Sorted(SetPriorities(s.queue, ids, priorities, |ids|)))
  }

  function AfterDispatch(s: QueueState): QueueState {
    s.(queue := Pop(s.queue, s.paused).remaining)
  }

  class MissionRunnerQueue {
    var queue: seq<QueuedMission>
    var nextSequence: nat
    var paused: set<string>

    ghost function Abstract(): QueueState
      reads this
    {
      QueueState(queue, nextSequence, paused)
    }

    constructor ()
      ensures Abstract() == QueueState([], 0, {})
    {
      queue, nextSequence, paused := [], 0, {};
    }

    method SortMissionQueue()
      modifies this`queue
      ensures queue == Sorted(old(queue))
    {
      queue := Sorted(queue);
    }

    method AdmitQueuedMission(missionId: string, missionFile: string, priority: int)
      modifies this
      ensures Abstract() == AfterAdmit(old(Abstract()), missionId, missionFile, priority)
    {
      queue := queue + [QueuedMission(missionId, missionFile, priority, nextSequence)];
      nextSequence := nextSequence + 1;
      SortMissionQueue();
    }

    /** std::remove_if followed by erase; the predicate records the ids it removes. */
    method RemoveIf(p: QueuedMission -> bool) returns (removed: nat, ids: seq<string>)
      modifies this`queue
      ensures Abstract() == AfterRemove(old(Abstract()), p)
      ensures ids == Ids(Filter(old(queue), p)) && removed == |ids| == old(|queue|) - |queue|
    {
      ghost var was := queue;
      var kept: seq<QueuedMission> := [];
      ids := [];
      for i := 0 to |queue|
        invariant queue == was && |kept| + |ids| == i
        invariant kept == Filter(was[..i], Except(p)) && ids == Ids(Filter(was[..i], p))
      {
        FilterNext(was, i, p);
        FilterNext(was, i, Except(p));
        if p(queue[i]) {
          ids := ids + [queue[i].missionId];
        } else {
          kept := kept + [queue[i]];
        }
      }
      assert was[..|was|] == was;
      removed := |queue| - |kept|;
      queue := kept;
    }

    method RemoveQueuedMissionById(missionId: string) returns (removed: nat)
      modifies this`queue
      ensures Abstract() == AfterRemove(old(Abstract()), HasId(missionId))
      ensures removed == |Filter(old(queue), HasId(missionId))|
    {
      var ids;
      removed, ids := RemoveIf(HasId(missionId));
    }

    method RemoveQueuedWorkflowMissions(orderId: string) returns (removed: nat, ids: seq<string>)
      modifies this`queue
      ensures Abstract() == AfterRemove(old(Abstract()), InWorkflow(orderId))
      ensures ids == Ids(Filter(old(queue), InWorkflow(orderId))) && removed == |ids|
    {
      removed, ids := RemoveIf(InWorkflow(orderId));
    }

    method RemoveQueuedStationOrderBatchMissions(batchId: string) returns (removed: nat, ids: seq<string>)
      modifies this`queue
      ensures Abstract() == AfterRemove(old(Abstract()), InBatch(batchId))
      ensures ids == Ids(Filter(old(queue), InBatch(batchId))) && removed == |ids|
    {
      removed, ids := RemoveIf(InBatch(batchId));
    }

    method ReprioritizeQueuedMission(missionId: string, priority: int) returns (found: bool)
      modifies this`queue
      ensures queue == SetPriority(old(queue), missionId, priority)
      ensures found <==> IdQueued(old(queue), missionId)
    {
      ghost var was := queue;
      for i := 0 to |queue|
        invariant queue == was && forall k | 0 <= k < i :: was[k].missionId != missionId
      {
        if queue[i].missionId == missionId {
          SetPriorityAt(queue, missionId, priority, i);
          queue := queue[i := queue[i].(priority := priority)];
          return true;
        }
      }
      SetPriorityAbsent(queue, missionId, priority);
      found := false;
    }

    method ReprioritizeQueuedMissionBatch(ids: seq<string>, priorities: seq<int>) returns (updated: seq<string>)
      modifies this`queue
      ensures var count := if |ids| < |priorities| then |ids| else |priorities|;
        && queue == SetPriorities(old(queue), ids, priorities, count)
        && updated == QueuedIds(old(queue), ids[..count])
    {
      ghost var was := queue;
      updated := [];
      var count := if |ids| < |priorities| then |ids| else |priorities|;
      for i := 0 to count
        invariant queue == SetPriorities(was, ids, priorities, i)
        invariant updated == QueuedIds(was, ids[..i])
      {
        var found := ReprioritizeQueuedMission(ids[i], priorities[i]);
        SetPrioritiesKeepIds(was, ids, priorities, i, ids[i]);
        FilterNext(ids, i, id => IdQueued(was, id));
        if found {
          updated := updated + [ids[i]];
        }
      }
    }

    method PlanQueuedMissionReprioritize(missionId: string, priority: int) returns (success: bool)
      modifies this`queue
      ensures Abstract() == AfterReprioritize(old(Abstract()), missionId, priority)
      ensures success <==> IdQueued(old(queue), missionId)
    {
      SetPriorityAbsentIsNothing(queue, missionId, priority);
      success := ReprioritizeQueuedMission(missionId, priority);
      if success {
        SortMissionQueue();
      }
    }

    method PlanQueuedMissionBatchReprioritize(ids: seq<string>, priorities: seq<int>) returns (success: bool)
      modifies this`queue
      ensures Abstract() == AfterBatchReprioritize(old(Abstract()), ids, priorities)
      ensures success <==> |ids| == |priorities| && |QueuedIds(old(queue), ids)| == |ids|
    {
      if |ids| != |priorities| {
        return false;
      }
      assert ids[..|ids|] == ids;
      var updated := ReprioritizeQueuedMissionBatch(ids, priorities);
      SortMissionQueue();
      success := |updated| == |ids|;
    }

    /** Which paused order is returned is unspecified: the set is unordered. */
    method PausedWorkflowForMission(missionId: string) returns (r: Option<string>)
      ensures r.Some? ==> r.value in paused && MissionBelongsToWorkflowOrder(missionId, r.value)
      ensures r.None? ==> forall order | order in paused :: !MissionBelongsToWorkflowOrder(missionId, order)
    {
      var left := paused;
      while left != {}
        invariant left <= paused
        invariant forall order | order in paused - left :: !MissionBelongsToWorkflowOrder(missionId, order)
      {
        var order :| order in left;
        if MissionBelongsToWorkflowOrder(missionId, order) {
          return Some(order);
        }
        left := left - {order};
      }
      r := None;
    }

    method FindNextRunnableMissionIndex() returns (r: Option<nat>)
      ensures r == FirstRunnable(queue, paused)
    {
      hide MissionBelongsToWorkflowOrder;
      for i := 0 to |queue|
        invariant FirstRunnable(queue, paused) ==
                  var rest := FirstRunnable(queue[i..], paused); if rest.None? then None else Some(rest.value + i)
      {
        assert queue[i..][1..] == queue[i + 1..];
        var order := PausedWorkflowForMission(queue[i].missionId);
        if order.None? {
          return Some(i);
        }
      }
      r := None;
    }

    /** PopNextRunnableMission, with the caller's assignment of the remaining queue. */
    method StartNextQueuedMission() returns (r: DispatchResult)
      modifies this`queue
      ensures r == Pop(old(queue), paused) && Abstract() == AfterDispatch(old(Abstract()))
    {
      if queue == [] {
        return DispatchResult(false, true, false, None, queue);
      }
      var next := FindNextRunnableMissionIndex();
      if next.None? {
        return DispatchResult(false, false, true, None, queue);
      }
      var mission := queue[next.value];
      queue := queue[..next.value] + queue[next.value + 1..];
      r := DispatchResult(true, false, false, Some(mission), queue);
    }
  }

  // ---------------------------------------------------------------- helpers

  lemma FilterNext<T>(s: seq<T>, i: nat, p: T -> bool)
    requires i < |s|
    ensures Filter(s[..i + 1], p) == Filter(s[..i], p) + if p(s[i]) then [s[i]] else []
  {
    assert s[..i + 1] == s[..i] + [s[i]];
    FilterAppend(s[..i], [s[i]], p);
  }

  lemma {:induction false} SetPriorityAt(s: seq<QueuedMission>, missionId: string, priority: int, i: nat)
    requires i < |s| && s[i].missionId == missionId && forall k | 0 <= k < i :: s[k].missionId != missionId
    ensures SetPriority(s, missionId, priority) == s[i := s[i].(priority := priority)]
  {
    if i > 0 {
      SetPriorityAt(s[1..], missionId, priority, i - 1);
    }
  }

  lemma {:induction false} SetPriorityAbsent(s: seq<QueuedMission>, missionId: string, priority: int)
    requires forall k | 0 <= k < |s| :: s[k].missionId != missionId
    ensures SetPriority(s, missionId, priority) == s && !IdQueued(s, missionId)
  {
    if s != [] {
      SetPriorityAbsent(s[1..], missionId, priority);
    }
  }

  lemma SetPriorityAbsentIsNothing(s: seq<QueuedMission>, missionId: string, priority: int)
    ensures !IdQueued(s, missionId) ==> SetPriority(s, missionId, priority) == s
  {
    if !IdQueued(s, missionId) {
      SetPriorityAbsent(s, missionId, priority);
    }
  }

  lemma {:induction false} SetPriorityKeepsIds(s: seq<QueuedMission>, missionId: string, priority: int, other: string)
    ensures IdQueued(SetPriority(s, missionId, priority), other) <==> IdQueued(s, other)
  {
    if s != [] {
      SetPriorityKeepsIds(s[1..], missionId, priority, other);
      IdQueuedCons(s, other);
      IdQueuedCons(SetPriority(s, missionId, priority), other);
    }
  }

  lemma IdQueuedCons(s: seq<QueuedMission>, missionId: string)
    requires s != []
    ensures IdQueued(s, missionId) <==> s[0].missionId == missionId || IdQueued(s[1..], missionId)
  {
    assert s == [s[0]] + s[1..];
  }

  lemma {:induction false} SetPrioritiesKeepIds(s: seq<QueuedMission>, ids: seq<string>, priorities: seq<int>, n: nat, missionId: string)
    requires n <= |ids| && n <= |priorities|
    ensures IdQueued(SetPriorities(s, ids, priorities, n), missionId) <==> IdQueued(s, missionId)
  {
    hide IdQueued;
    if n > 0 {
      SetPrioritiesKeepIds(s, ids, priorities, n - 1, missionId);
      SetPriorityKeepsIds(SetPriorities(s, ids, priorities, n - 1), ids[n - 1], priorities[n - 1], missionId);
    }
  }
}
