// Whole runs of the mission queue: admissions, dispatches, cancellations, reprioritizations
// and pauses in any order.
module MissionRuns {
  import opened Common
  import opened MissionQueue
  import opened MissionOrder
  import opened MissionBatch

  datatype Event =
    Admit(missionId: string, missionFile: string, priority: int)
  | Dispatch
  | RemoveById(id: string)
  | RemoveWorkflow(order: string)
  | RemoveBatch(batch: string)
  | Reprioritize(id: string, to: int)
  | ReprioritizeMany(ids: seq<string>, priorities: seq<int>)
  | SetPaused(orders: set<string>)

  function After(s: QueueState, e: Event): QueueState {
    match e
    case Admit(id, file, priority) => AfterAdmit(s, id, file, priority)
    case Dispatch => AfterDispatch(s)
    case RemoveById(id) => AfterRemove(s, HasId(id))
    case RemoveWorkflow(order) => AfterRemove(s, InWorkflow(order))
    case RemoveBatch(batch) => AfterRemove(s, InBatch(batch))
    case Reprioritize(id, p) => AfterReprioritize(s, id, p)
    case ReprioritizeMany(ids, priorities) => AfterBatchReprioritize(s, ids, priorities)
    case SetPaused(orders) => s.(paused := orders)
  }

  method Handle(q: MissionRunnerQueue, e: Event)
    modifies q
    ensures q.Abstract() == After(old(q.Abstract()), e)
  {
    match e
    case Admit(id, file, priority) => q.AdmitQueuedMission(id, file, priority);
    case Dispatch => var r := q.StartNextQueuedMission();
    case RemoveById(id) => var n := q.RemoveQueuedMissionById(id);
    case RemoveWorkflow(order) => var n, ids := q.RemoveQueuedWorkflowMissions(order);
    case RemoveBatch(batch) => var n, ids := q.RemoveQueuedStationOrderBatchMissions(batch);
    case Reprioritize(id, p) => var ok := q.PlanQueuedMissionReprioritize(id, p);
    case ReprioritizeMany(ids, priorities) => var ok := q.PlanQueuedMissionBatchReprioritize(ids, priorities);
    case SetPaused(orders) => q.paused := orders;
  }

  ghost predicate IsRun(states: seq<QueueState>, events: seq<Event>) {
    && |states| == |events| + 1 && states[0] == QueueState([], 0, {})
    && forall k | 0 <= k < |events| :: states[k + 1] == After(states[k], events[k])
  }

  method Play(events: seq<Event>) returns (q: MissionRunnerQueue, ghost states: seq<QueueState>)
    ensures fresh(q) && IsRun(states, events) && q.Abstract() == states[|events|]
  {
    hide After;
    q := new MissionRunnerQueue();
    states := [q.Abstract()];
    for k := 0 to |events|
      invariant fresh(q) && |states| == k + 1 && states[0] == QueueState([], 0, {}) && states[k] == q.Abstract()
      invariant forall i | 0 <= i < k :: states[i + 1] == After(states[i], events[i])
    {
      Handle(q, events[k]);
      states := states + [q.Abstract()];
    }
  }

  // ---------------------------------------------------------------- order

  lemma {:induction false} FilterInOrder(s: seq<QueuedMission>, keep: QueuedMission -> bool)
    requires InOrder(s)
    ensures InOrder(Filter(s, keep))
  {
    hide InOrder, NoneBefore;
    if s == [] {
      NothingInOrder();
    } else {
      InOrderTail(s);
      FilterInOrder(s[1..], keep);
      FilterNoneBeforeHead(s[1..], s[0], keep);
      InOrderCons(s[0], Filter(s[1..], keep));
    }
  }

  lemma FilterNoneBeforeHead(s: seq<QueuedMission>, m: QueuedMission, keep: QueuedMission -> bool)
    requires NoneBefore(s, m)
    ensures NoneBefore(Filter(s, keep), m)
  {
    FilterKeeps(s, keep);
  }

  lemma DropOneInOrder(s: seq<QueuedMission>, i: nat)
    requires InOrder(s) && i < |s|
    ensures InOrder(s[..i] + s[i + 1..])
  {
  }

  lemma AfterIsInOrder(s: QueueState, e: Event)
    requires InOrder(s.queue)
    ensures InOrder(After(s, e).queue)
  {
    hide InOrder, Sorted, IdQueued;
    match e
    case Admit(id, file, priority) => SortIsInOrder(s.queue + [QueuedMission(id, file, priority, s.nextSequence)]);
    case Dispatch =>
      var i := FirstRunnable(s.queue, s.paused);
      if i.Some? {
        DropOneInOrder(s.queue, i.value);
      }
    case RemoveById(id) => FilterInOrder(s.queue, Except(HasId(id)));
    case RemoveWorkflow(order) => FilterInOrder(s.queue, Except(InWorkflow(order)));
    case RemoveBatch(batch) => FilterInOrder(s.queue, Except(InBatch(batch)));
    case Reprioritize(id, p) => SortIsInOrder(SetPriority(s.queue, id, p));
    case ReprioritizeMany(ids, priorities) =>
      if |ids| == |priorities| {
        SortIsInOrder(SetPriorities(s.queue, ids, priorities, |ids|));
      }
    case SetPaused(orders) =>
  }

  // ---------------------------------------------------------------- conservation

  function Sequences(s: seq<QueuedMission>): seq<nat> {
    if s == [] then [] else [s[0].sequence] + Sequences(s[1..])
  }

  lemma {:induction false} SequencesAppend(a: seq<QueuedMission>, b: seq<QueuedMission>)
    ensures Sequences(a + b) == Sequences(a) + Sequences(b)
  {
    if a == [] {
      assert a + b == b;
    } else {
      assert (a + b)[1..] == a[1..] + b;
      SequencesAppend(a[1..], b);
    }
  }

  lemma {:induction false} SequencesOfInsert(m: QueuedMission, s: seq<QueuedMission>)
    ensures multiset(Sequences(Insert(m, s))) == multiset(Sequences(s)) + multiset{m.sequence}
  {
    hide Before;
    if s == [] || !Before(s[0], m) {
      assert ([m] + s)[1..] == s;
    } else {
      SequencesOfInsert(m, s[1..]);
      assert ([s[0]] + Insert(m, s[1..]))[1..] == Insert(m, s[1..]);
    }
  }

  lemma {:induction false} SequencesOfSorted(s: seq<QueuedMission>)
    ensures multiset(Sequences(Sorted(s))) == multiset(Sequences(s))
  {
    hide Insert;
    if s != [] {
      SequencesOfSorted(s[1..]);
      SequencesOfInsert(s[0], Sorted(s[1..]));
    }
  }

  lemma FilterHead(s: seq<QueuedMission>, p: QueuedMission -> bool)
    requires s != []
    ensures Sequences(Filter(s, p)) == (if p(s[0]) then [s[0].sequence] else []) + Sequences(Filter(s[1..], p))
  {
    var rest := Filter(s[1..], p);
    assert ([s[0]] + rest)[1..] == rest;
  }

  lemma {:induction false} SequencesOfFilters(s: seq<QueuedMission>, p: QueuedMission -> bool)
    ensures multiset(Sequences(Filter(s, p))) + multiset(Sequences(Filter(s, Except(p)))) == multiset(Sequences(s))
  {
    if s != [] {
      SequencesOfFilters(s[1..], p);
      FilterHead(s, p);
      FilterHead(s, Except(p));
      assert Sequences(s) == [s[0].sequence] + Sequences(s[1..]);
      hide Filter, Sequences;
    }
  }

  lemma SequencesDropOne(s: seq<QueuedMission>, i: nat)
    requires i < |s|
    ensures multiset(Sequences(s[..i] + s[i + 1..])) + multiset{s[i].sequence} == multiset(Sequences(s))
  {
    assert s == s[..i] + s[i..];
    SequencesAppend(s[..i], s[i..]);
    SequencesAppend(s[..i], s[i + 1..]);
    assert s[i..][1..] == s[i + 1..];
  }

  lemma {:induction false} SetPriorityKeepsSequences(s: seq<QueuedMission>, id: string, p: int)
    ensures Sequences(SetPriority(s, id, p)) == Sequences(s)
  {
    if s != [] {
      SetPriorityKeepsSequences(s[1..], id, p);
    }
  }

  lemma {:induction false} SetPrioritiesKeepSequences(s: seq<QueuedMission>, ids: seq<string>, priorities: seq<int>, n: nat)
    requires n <= |ids| && n <= |priorities|
    ensures Sequences(SetPriorities(s, ids, priorities, n)) == Sequences(s)
  {
    hide Sequences;
    if n > 0 {
      SetPrioritiesKeepSequences(s, ids, priorities, n - 1);
      SetPriorityKeepsSequences(SetPriorities(s, ids, priorities, n - 1), ids[n - 1], priorities[n - 1]);
    }
  }

  /** The sequence number an event dispatches. */
  function DispatchedBy(s: QueueState, e: Event): seq<nat> {
    if e.Dispatch? && Pop(s.queue, s.paused).success then [Pop(s.queue, s.paused).mission.value.sequence] else []
  }

  /** The sequence numbers an event cancels. */
  function RemovedBy(s: QueueState, e: Event): seq<nat> {
    match e
    case RemoveById(id) => Sequences(Filter(s.queue, HasId(id)))
    case RemoveWorkflow(order) => Sequences(Filter(s.queue, InWorkflow(order)))
    case RemoveBatch(batch) => Sequences(Filter(s.queue, InBatch(batch)))
    case _ => []
  }

  function IssuedBy(s: QueueState, e: Event): seq<nat> {
    if e.Admit? then [s.nextSequence] else []
  }

  lemma StepConserves(s: QueueState, e: Event)
    ensures multiset(Sequences(After(s, e).queue)) + multiset(DispatchedBy(s, e)) + multiset(RemovedBy(s, e))
         == multiset(Sequences(s.queue)) + multiset(IssuedBy(s, e))
  {
    hide Sorted, Sequences, Filter, SetPriority, SetPriorities, Pop, IdQueued, AfterDispatch, AfterBatchReprioritize, DispatchedBy;
    if !e.Dispatch? {
      NothingDispatched(s, e);
    }
    match e
    case Admit(id, file, priority) =>
      AdmitConserves(s, QueuedMission(id, file, priority, s.nextSequence));
    case Dispatch => DispatchConserves(s);
    case RemoveById(id) => SequencesOfFilters(s.queue, HasId(id));
    case RemoveWorkflow(order) => SequencesOfFilters(s.queue, InWorkflow(order));
    case RemoveBatch(batch) => SequencesOfFilters(s.queue, InBatch(batch));
    case Reprioritize(id, p) =>
      SequencesOfSorted(SetPriority(s.queue, id, p));
      SetPriorityKeepsSequences(s.queue, id, p);
    case ReprioritizeMany(ids, priorities) => BatchConserves(s, ids, priorities);
    case SetPaused(orders) =>
  }

  lemma NothingDispatched(s: QueueState, e: Event)
    requires !e.Dispatch?
    ensures DispatchedBy(s, e) == []
  {
    hide Pop;
  }

  lemma DispatchConserves(s: QueueState)
    ensures multiset(Sequences(AfterDispatch(s).queue)) + multiset(DispatchedBy(s, Dispatch)) == multiset(Sequences(s.queue))
  {
    hide Sequences, FirstRunnable;
    var i := FirstRunnable(s.queue, s.paused);
    if i.Some? {
      SequencesDropOne(s.queue, i.value);
    }
  }

  lemma BatchConserves(s: QueueState, ids: seq<string>, priorities: seq<int>)
    ensures multiset(Sequences(AfterBatchReprioritize(s, ids, priorities).queue)) == multiset(Sequences(s.queue))
  {
    hide Sequences, Sorted, SetPriorities;
    if |ids| == |priorities| {
      SequencesOfSorted(SetPriorities(s.queue, ids, priorities, |ids|));
      SetPrioritiesKeepSequences(s.queue, ids, priorities, |ids|);
    }
  }

  lemma AdmitConserves(s: QueueState, m: QueuedMission)
    ensures multiset(Sequences(Sorted(s.queue + [m]))) == multiset(Sequences(s.queue)) + multiset{m.sequence}
  {
    hide Sorted;
    SequencesOfSorted(s.queue + [m]);
    SequencesAppend(s.queue, [m]);
    assert Sequences([m]) == [m.sequence];
  }

  /** Everything dispatched in the first `k` steps, in order. */
  ghost function DispatchedIn(states: seq<QueueState>, events: seq<Event>, k: nat): seq<nat>
    requires k <= |events| < |states|
  {
    if k == 0 then [] else DispatchedIn(states, events, k - 1) + DispatchedBy(states[k - 1], events[k - 1])
  }

  ghost function RemovedIn(states: seq<QueueState>, events: seq<Event>, k: nat): seq<nat>
    requires k <= |events| < |states|
  {
    if k == 0 then [] else RemovedIn(states, events, k - 1) + RemovedBy(states[k - 1], events[k - 1])
  }

  function UpTo(n: nat): seq<nat> {
    if n == 0 then [] else UpTo(n - 1) + [n - 1]
  }

  lemma {:induction false} UpToHasEachOnce(n: nat, x: nat)
    ensures multiset(UpTo(n))[x] == if x < n then 1 else 0
  {
    if n > 0 {
      UpToHasEachOnce(n - 1, x);
    }
  }

  /** The sequence numbers issued so far, each once, are those of the queued, the dispatched and the cancelled missions. */
  ghost predicate Accounted(states: seq<QueueState>, events: seq<Event>, k: nat)
    requires k <= |events| < |states|
  {
    multiset(Sequences(states[k].queue)) + multiset(DispatchedIn(states, events, k)) + multiset(RemovedIn(states, events, k))
      == multiset(UpTo(states[k].nextSequence))
  }

  lemma Rebalance(queue: multiset<nat>, gone: multiset<nat>, removed: multiset<nat>, issued: multiset<nat>,
                  after: multiset<nat>, dispatches: multiset<nat>, removes: multiset<nat>, issues: multiset<nat>)
    requires queue + gone + removed == issued
    requires after + dispatches + removes == queue + issues
    ensures after + (gone + dispatches) + (removed + removes) == issued + issues
  {
    forall n ensures (after + (gone + dispatches) + (removed + removes))[n] == (issued + issues)[n] {
      assert (queue + gone + removed)[n] == issued[n];
      assert (after + dispatches + removes)[n] == (queue + issues)[n];
    }
  }

  lemma StepStaysAccounted(states: seq<QueueState>, events: seq<Event>, k: nat)
    requires 0 < k <= |events| < |states| && states[k] == After(states[k - 1], events[k - 1])
    requires Accounted(states, events, k - 1)
    ensures Accounted(states, events, k)
  {
    hide Sequences, UpTo, After, DispatchedBy, RemovedBy, IssuedBy;
    var s, e := states[k - 1], events[k - 1];
    StepConserves(s, e);
    NextSequence(s, e);
    Rebalance(multiset(Sequences(s.queue)), multiset(DispatchedIn(states, events, k - 1)),
              multiset(RemovedIn(states, events, k - 1)), multiset(UpTo(s.nextSequence)),
              multiset(Sequences(states[k].queue)), multiset(DispatchedBy(s, e)), multiset(RemovedBy(s, e)), multiset(IssuedBy(s, e)));
  }

  lemma NothingToAccountFor(states: seq<QueueState>, events: seq<Event>)
    requires IsRun(states, events)
    ensures Accounted(states, events, 0)
  {
    hide After;
  }

  /** In every run the numbers issued so far are accounted for, each exactly once. */
  lemma {:induction false} NoMissionIsLostOrDuplicated(states: seq<QueueState>, events: seq<Event>, k: nat)
    requires IsRun(states, events) && k <= |events|
    ensures Accounted(states, events, k)
  {
    hide Accounted, After;
    if k == 0 {
      NothingToAccountFor(states, events);
    } else {
      NoMissionIsLostOrDuplicated(states, events, k - 1);
      StepStaysAccounted(states, events, k);
    }
  }

  lemma NextSequence(s: QueueState, e: Event)
    ensures multiset(UpTo(After(s, e).nextSequence)) == multiset(UpTo(s.nextSequence)) + multiset(IssuedBy(s, e))
  {
    NextSequenceIs(s, e);
    IssuedIsNext(s, e);
    hide After, IssuedBy;
    assert UpTo(s.nextSequence + 1) == UpTo(s.nextSequence) + [s.nextSequence];
  }

  lemma IssuedIsNext(s: QueueState, e: Event)
    ensures IssuedBy(s, e) == [] || IssuedBy(s, e) == [s.nextSequence]
  {
  }

  lemma NextSequenceIs(s: QueueState, e: Event)
    ensures After(s, e).nextSequence == s.nextSequence + |IssuedBy(s, e)|
  {
    hide Sorted, Pop, Filter, SetPriority, SetPriorities, IdQueued;
  }

  /** No sequence number is dispatched twice. */
  lemma NothingIsDispatchedTwice(states: seq<QueueState>, events: seq<Event>, k: nat, n: nat)
    requires IsRun(states, events) && k <= |events|
    ensures multiset(DispatchedIn(states, events, k))[n] <= 1
    ensures multiset(DispatchedIn(states, events, k))[n] == 1 ==>
              multiset(Sequences(states[k].queue))[n] == 0 && multiset(RemovedIn(states, events, k))[n] == 0
  {
    hide Sequences, DispatchedIn, RemovedIn;
    NoMissionIsLostOrDuplicated(states, events, k);
    UpToHasEachOnce(states[k].nextSequence, n);
  }

  // ---------------------------------------------------------------- reachable queues

  lemma {:induction false} CountOfSequence(s: seq<QueuedMission>, i: nat)
    requires i < |s|
    ensures s[i].sequence in Sequences(s)
  {
    if i > 0 {
      CountOfSequence(s[1..], i - 1);
    }
  }

  lemma {:induction false} DistinctFromCounts(s: seq<QueuedMission>)
    requires forall n :: multiset(Sequences(s))[n] <= 1
    ensures DistinctSequences(s)
  {
    if s != [] {
      var rest := Sequences(s[1..]);
      assert multiset(Sequences(s)) == multiset{s[0].sequence} + multiset(rest);
      forall n ensures multiset(rest)[n] <= 1 {
        assert multiset(Sequences(s))[n] <= 1;
      }
      DistinctFromCounts(s[1..]);
      forall i | 0 <= i < |s[1..]| ensures s[1..][i].sequence != s[0].sequence {
        CountOfSequence(s[1..], i);
        assert multiset(Sequences(s))[s[0].sequence] <= 1;
        assert s[0].sequence !in multiset(rest);
      }
      DistinctCons(s);
    }
  }

  lemma DistinctCons(s: seq<QueuedMission>)
    requires s != [] && DistinctSequences(s[1..]) && forall i | 0 <= i < |s[1..]| :: s[1..][i].sequence != s[0].sequence
    ensures DistinctSequences(s)
  {
    forall i, j | 0 <= i < j < |s| ensures s[i].sequence != s[j].sequence {
      assert s[j] == s[1..][j - 1];
      if i > 0 {
        assert s[i] == s[1..][i - 1];
      }
    }
  }

  /** Every reachable queue is in order, with distinct sequence numbers. */
  lemma {:induction false} ReachableQueuesAreInOrder(states: seq<QueueState>, events: seq<Event>, k: nat)
    requires IsRun(states, events) && k <= |events|
    ensures InOrder(states[k].queue) && DistinctSequences(states[k].queue)
  {
    hide After, InOrder, DistinctSequences, Sequences, DispatchedIn, RemovedIn;
    forall n ensures multiset(Sequences(states[k].queue))[n] <= 1 {
      NoMissionIsLostOrDuplicated(states, events, k);
      UpToHasEachOnce(states[k].nextSequence, n);
    }
    DistinctFromCounts(states[k].queue);
    if k == 0 {
      NothingInOrder();
    } else {
      ReachableQueuesAreInOrder(states, events, k - 1);
      assert states[k] == After(states[k - 1], events[k - 1]);
      AfterIsInOrder(states[k - 1], events[k - 1]);
    }
  }

  /** So every reachable queue runs from high priority to low, and within one priority from the mission admitted first on. */
  lemma QueuesRunByPriorityThenAge(states: seq<QueueState>, events: seq<Event>, k: nat, i: nat, j: nat)
    requires IsRun(states, events) && k <= |events| && i < j < |states[k].queue|
    ensures var a, b := states[k].queue[i], states[k].queue[j];
      a.priority > b.priority || (a.priority == b.priority && a.sequence < b.sequence)
  {
    hide After;
    ReachableQueuesAreInOrder(states, events, k);
    assert !Before(states[k].queue[j], states[k].queue[i]);
  }

  // ---------------------------------------------------------------- what cancelling and dispatching change

  /** Cancelling leaves exactly the missions that were not meant. */
  lemma CancelledAreGone(s: QueueState, m: QueuedMission, id: string, order: string, batch: string)
    ensures m in After(s, RemoveById(id)).queue <==> m in s.queue && m.missionId != id
    ensures m in After(s, RemoveWorkflow(order)).queue <==> m in s.queue && !MissionBelongsToWorkflowOrder(m.missionId, order)
    ensures m in After(s, RemoveBatch(batch)).queue <==> m in s.queue && !MissionBelongsToStationOrderBatch(m.missionId, batch)
  {
    hide MissionBelongsToWorkflowOrder, MissionBelongsToStationOrderBatch, Filter;
    FilterKeeps(s.queue, Except(HasId(id)));
    FilterKeeps(s.queue, Except(InWorkflow(order)));
    FilterKeeps(s.queue, Except(InBatch(batch)));
  }

  /** What a dispatch reports: a mission exactly if one is runnable, else whether the queue was empty or all of it paused. */
  lemma DispatchReports(s: QueueState)
    ensures var r := Pop(s.queue, s.paused);
      && (r.success <==> exists m | m in s.queue :: !Paused(m, s.paused))
      && (r.mission.Some? <==> r.success) && (r.queueEmpty <==> s.queue == []) && (r.allPaused <==> !r.success && s.queue != [])
      && r.remaining == After(s, Dispatch).queue && (!r.success ==> r.remaining == s.queue)
  {
    hide Paused;
    var i := FirstRunnable(s.queue, s.paused);
    if i.Some? {
      assert s.queue[i.value] in s.queue;
    }
  }

  // ---------------------------------------------------------------- what reprioritizing changes

  /** No earlier mission of the queue has the id of mission `i`. */
  ghost predicate FirstWithId(s: seq<QueuedMission>, i: nat)
    requires i < |s|
  {
    forall k | 0 <= k < i :: s[k].missionId != s[i].missionId
  }

  lemma {:induction false} SetPriorityIs(s: seq<QueuedMission>, id: string, p: int, i: nat)
    requires i < |s|
    ensures |SetPriority(s, id, p)| == |s|
    ensures SetPriority(s, id, p)[i] == if s[i].missionId == id && FirstWithId(s, i) then s[i].(priority := p) else s[i]
  {
    if IdQueued(s, id) {
      var k := FirstOf(s, id);
      SetPriorityAt(s, id, p, k);
    } else {
      assert s[i] in s;
      SetPriorityAbsentIsNothing(s, id, p);
    }
  }

  lemma {:induction false} FirstOf(s: seq<QueuedMission>, id: string) returns (k: nat)
    requires IdQueued(s, id)
    ensures k < |s| && s[k].missionId == id && FirstWithId(s, k)
  {
    k := 0;
    if s[0].missionId != id {
      IdQueuedCons(s, id);
      k := FirstOf(s[1..], id);
      k := k + 1;
    }
  }

  /** The last of the first `n` requests for an id. */
  function LastRequest(ids: seq<string>, n: nat, id: string): Option<nat>
    requires n <= |ids|
  {
    if n == 0 then None else if ids[n - 1] == id then Some(n - 1) else LastRequest(ids, n - 1, id)
  }

  /** Mission `i` as it should be after the first `n` requests: the first mission of an id gets what was asked last. */
  ghost function Requested(s: seq<QueuedMission>, ids: seq<string>, priorities: seq<int>, n: nat, i: nat): QueuedMission
    requires n <= |ids| && n <= |priorities| && i < |s|
  {
    var k := LastRequest(ids, n, s[i].missionId);
    if k.Some? && k.value < n && FirstWithId(s, i) then s[i].(priority := priorities[k.value]) else s[i]
  }

  lemma {:induction false} LastRequestBelow(ids: seq<string>, n: nat, id: string)
    requires n <= |ids|
    ensures var k := LastRequest(ids, n, id); k.Some? ==> k.value < n && ids[k.value] == id && forall j | k.value < j < n :: ids[j] != id
    ensures LastRequest(ids, n, id).None? ==> forall j | 0 <= j < n :: ids[j] != id
  {
    if n > 0 {
      LastRequestBelow(ids, n - 1, id);
    }
  }

  lemma SameFirsts(s: seq<QueuedMission>, t: seq<QueuedMission>, i: nat)
    requires |s| == |t| && i < |s| && forall k | 0 <= k < |s| :: s[k].missionId == t[k].missionId
    ensures FirstWithId(s, i) <==> FirstWithId(t, i)
  {
  }

  lemma {:induction false} SetPrioritiesAre(s: seq<QueuedMission>, ids: seq<string>, priorities: seq<int>, n: nat)
    requires n <= |ids| && n <= |priorities|
    ensures var t := SetPriorities(s, ids, priorities, n);
      |t| == |s| && forall i | 0 <= i < |s| :: t[i] == Requested(s, ids, priorities, n, i)
  {
    hide SetPriority, FirstWithId;
    if n > 0 {
      SetPrioritiesAre(s, ids, priorities, n - 1);
      var before, after := SetPriorities(s, ids, priorities, n - 1), SetPriorities(s, ids, priorities, n);
      if s != [] {
        SetPriorityIs(before, ids[n - 1], priorities[n - 1], 0);
      } else {
        NothingToSet(ids[n - 1], priorities[n - 1]);
      }
      forall i | 0 <= i < |s| ensures |after| == |s| && after[i] == Requested(s, ids, priorities, n, i) {
        SetPriorityIs(before, ids[n - 1], priorities[n - 1], i);
        SameFirsts(s, before, i);
        LastRequestBelow(ids, n - 1, s[i].missionId);
      }
    }
  }

  lemma NothingToSet(id: string, p: int)
    ensures SetPriority([], id, p) == []
  {
  }

  /**
   * After a batch of requests the queue holds, for each mission it held, that mission with the priority last asked for
   * its id if it is the first with that id, and unchanged otherwise; nothing else is in it.
   */
  lemma RequestsAreMet(s: QueueState, ids: seq<string>, priorities: seq<int>)
    requires |ids| == |priorities|
    ensures var q := After(s, ReprioritizeMany(ids, priorities)).queue;
      && |q| == |s.queue|
      && multiset(q) == multiset(seq(|s.queue|, i requires 0 <= i < |s.queue| => Requested(s.queue, ids, priorities, |ids|, i)))
  {
    hide Sorted, SetPriorities, Requested;
    var t := SetPriorities(s.queue, ids, priorities, |ids|);
    SetPrioritiesAre(s.queue, ids, priorities, |ids|);
    SortPermutes(t);
    assert |multiset(Sorted(t))| == |multiset(t)|;
    assert t == seq(|s.queue|, i requires 0 <= i < |s.queue| => Requested(s.queue, ids, priorities, |ids|, i));
  }

  /** A single request changes the priority of the first mission with the id, and nothing else. */
  lemma RequestIsMet(s: QueueState, id: string, p: int, i: nat)
    requires i < |s.queue| && s.queue[i].missionId == id && FirstWithId(s.queue, i)
    ensures multiset(After(s, Reprioritize(id, p)).queue) == multiset(s.queue[i := s.queue[i].(priority := p)])
  {
    hide Sorted, SetPriority, AfterAdmit, AfterDispatch, AfterRemove, AfterBatchReprioritize;
    assert s.queue[i] in s.queue;
    FirstWithIdMeans(s.queue, i);
    SetPriorityAt(s.queue, id, p, i);
    SortPermutes(SetPriority(s.queue, id, p));
  }

  lemma FirstWithIdMeans(s: seq<QueuedMission>, i: nat)
    requires i < |s| && FirstWithId(s, i)
    ensures forall k | 0 <= k < i :: s[k].missionId != s[i].missionId
  {
  }

  // ---------------------------------------------------------------- dispatch order over runs

  lemma {:induction false} FirstRunnableIsFirst(s: seq<QueuedMission>, paused: set<string>, j: nat)
    requires j < |s| && !Paused(s[j], paused)
    ensures FirstRunnable(s, paused).Some? && FirstRunnable(s, paused).value <= j
  {
    hide Paused;
    if j > 0 && Paused(s[0], paused) {
      FirstRunnableIsFirst(s[1..], paused, j - 1);
    }
  }

  /** A dispatch takes the runnable mission that comes before every other runnable one in the queue. */
  lemma DispatchTakesTheFirst(states: seq<QueueState>, events: seq<Event>, k: nat, x: QueuedMission)
    requires IsRun(states, events) && k < |events| && events[k].Dispatch?
    requires x in states[k].queue && !Paused(x, states[k].paused)
    ensures var r := Pop(states[k].queue, states[k].paused);
      r.success && !Paused(r.mission.value, states[k].paused) && (r.mission.value == x || Before(r.mission.value, x))
  {
    hide Paused, After;
    ReachableQueuesAreInOrder(states, events, k);
    var q := states[k].queue;
    var j :| 0 <= j < |q| && q[j] == x;
    FirstRunnableIsFirst(q, states[k].paused, j);
  }

  /** An event that neither cancels a mission nor changes its priority. */
  predicate Spares(e: Event, x: QueuedMission) {
    match e
    case RemoveById(id) => id != x.missionId
    case RemoveWorkflow(order) => !MissionBelongsToWorkflowOrder(x.missionId, order)
    case RemoveBatch(batch) => !MissionBelongsToStationOrderBatch(x.missionId, batch)
    case Reprioritize(id, _) => id != x.missionId
    case ReprioritizeMany(ids, _) => x.missionId !in ids
    case _ => true
  }

  lemma {:induction false} SetPriorityKeeps(s: seq<QueuedMission>, id: string, p: int, x: QueuedMission)
    requires x in s && x.missionId != id
    ensures x in SetPriority(s, id, p)
  {
    if s[0].missionId != id && x != s[0] {
      SetPriorityKeeps(s[1..], id, p, x);
    }
  }

  lemma {:induction false} SetPrioritiesKeep(s: seq<QueuedMission>, ids: seq<string>, priorities: seq<int>, n: nat, x: QueuedMission)
    requires n <= |ids| && n <= |priorities| && x in s && x.missionId !in ids
    ensures x in SetPriorities(s, ids, priorities, n)
  {
    if n > 0 {
      SetPrioritiesKeep(s, ids, priorities, n - 1, x);
      SetPriorityKeeps(SetPriorities(s, ids, priorities, n - 1), ids[n - 1], priorities[n - 1], x);
    }
  }

  lemma SortKeeps(s: seq<QueuedMission>, x: QueuedMission)
    requires x in s
    ensures x in Sorted(s)
  {
    SortPermutes(s);
    SameElements(Sorted(s), s);
  }

  lemma StaysQueued(s: QueueState, e: Event, x: QueuedMission)
    requires x in s.queue && Spares(e, x) && !(e.Dispatch? && Pop(s.queue, s.paused).mission == Some(x))
    ensures x in After(s, e).queue
  {
    hide Sorted, Filter, SetPriority, SetPriorities, MissionBelongsToWorkflowOrder, MissionBelongsToStationOrderBatch;
    match e
    case Admit(id, file, priority) => SortKeeps(s.queue + [QueuedMission(id, file, priority, s.nextSequence)], x);
    case Dispatch => DropOther(s, x);
    case RemoveById(id) => FilterKeeps(s.queue, Except(HasId(id)));
    case RemoveWorkflow(order) => FilterKeeps(s.queue, Except(InWorkflow(order)));
    case RemoveBatch(batch) => FilterKeeps(s.queue, Except(InBatch(batch)));
    case Reprioritize(id, p) =>
      SetPriorityKeeps(s.queue, id, p, x);
      SortKeeps(SetPriority(s.queue, id, p), x);
    case ReprioritizeMany(ids, priorities) =>
      if |ids| == |priorities| {
        SetPrioritiesKeep(s.queue, ids, priorities, |ids|, x);
        SortKeeps(SetPriorities(s.queue, ids, priorities, |ids|), x);
      }
    case SetPaused(orders) =>
  }

  lemma DropOther(s: QueueState, x: QueuedMission)
    requires x in s.queue && Pop(s.queue, s.paused).mission != Some(x)
    ensures x in Pop(s.queue, s.paused).remaining
  {
    hide Paused;
    var i := FirstRunnable(s.queue, s.paused);
    if i.Some? {
      assert s.queue == s.queue[..i.value] + [s.queue[i.value]] + s.queue[i.value + 1..];
    }
  }

  ghost predicate DispatchesAt(states: seq<QueueState>, events: seq<Event>, k: nat, x: QueuedMission)
    requires k < |events| < |states|
  {
    events[k].Dispatch? && Pop(states[k].queue, states[k].paused).mission == Some(x)
  }

  lemma {:induction false} QueuedUntilDispatched(states: seq<QueueState>, events: seq<Event>, i: nat, j: nat, x: QueuedMission)
    requires IsRun(states, events) && i <= j <= |events| && x in states[i].queue
    requires forall k: nat | i <= k < j :: Spares(events[k], x) && !DispatchesAt(states, events, k, x)
    ensures x in states[j].queue
    decreases j - i
  {
    hide After, Spares;
    if i < j {
      QueuedUntilDispatched(states, events, i, j - 1, x);
      assert Spares(events[j - 1], x) && !DispatchesAt(states, events, j - 1, x);
      assert states[j] == After(states[j - 1], events[j - 1]);
      StaysQueued(states[j - 1], events[j - 1], x);
    }
  }

  /**
   * Nobody overtakes: if a queued mission is neither cancelled nor reprioritized, and is not paused when a mission that
   * comes after it is dispatched, then it has been dispatched before.
   */
  lemma NoOvertaking(states: seq<QueueState>, events: seq<Event>, i: nat, j: nat, x: QueuedMission, y: QueuedMission)
    requires IsRun(states, events) && i <= j < |events| && x in states[i].queue && Before(x, y)
    requires forall k: nat | i <= k < j :: Spares(events[k], x)
    requires !Paused(x, states[j].paused) && DispatchesAt(states, events, j, y)
    ensures exists k: nat | i <= k < j :: DispatchesAt(states, events, k, x)
  {
    hide Spares, Paused, After;
    if forall k: nat | i <= k < j :: !DispatchesAt(states, events, k, x) {
      QueuedUntilDispatched(states, events, i, j, x);
      DispatchTakesTheFirst(states, events, j, x);
      assert false;
    }
  }

  /**
   * Two accepted items of a batch, admitted at their planned priorities, are dispatched in batch order in
   * every run that neither cancels nor reprioritizes the earlier one nor holds it paused when the later one goes.
   */
  lemma BatchOrderHoldsOverRuns(states: seq<QueueState>, events: seq<Event>, i: nat, j: nat, x: QueuedMission, y: QueuedMission,
                                r: BatchRequest, plan: BatchPlan, a: nat, b: nat)
    requires IsPlanOf(r, plan) && plan.AcceptedBatch? && a < b < |plan.items|
    requires plan.items[a].AcceptedItem? && plan.items[b].AcceptedItem?
    requires x.priority == plan.items[a].priority && y.priority == plan.items[b].priority
    requires IsRun(states, events) && i <= j < |events| && x in states[i].queue
    requires forall k: nat | i <= k < j :: Spares(events[k], x)
    requires !Paused(x, states[j].paused) && DispatchesAt(states, events, j, y)
    ensures exists k: nat | i <= k < j :: DispatchesAt(states, events, k, x)
  {
    hide Spares, Paused, After, DispatchesAt;
    EarlierItemIsBefore(r, plan, a, b, x, y);
    NoOvertaking(states, events, i, j, x, y);
  }
}
