// What sorting the mission queue means, and what repeated dispatch delivers.
module MissionOrder {
  import opened Common
  import opened MissionQueue

  ghost predicate InOrder(s: seq<QueuedMission>) {
    forall i, j | 0 <= i < j < |s| :: !Before(s[j], s[i])
  }

  ghost predicate NoneBefore(s: seq<QueuedMission>, m: QueuedMission) {
    forall x | x in s :: !Before(x, m)
  }

  ghost predicate DistinctSequences(s: seq<QueuedMission>) {
    forall i, j | 0 <= i < j < |s| :: s[i].sequence != s[j].sequence
  }

  lemma InOrderCons(m: QueuedMission, s: seq<QueuedMission>)
    ensures InOrder([m] + s) <==> InOrder(s) && NoneBefore(s, m)
  {
    var all := [m] + s;
    if InOrder(all) {
      forall i, j | 0 <= i < j < |s| ensures !Before(s[j], s[i]) {
        assert all[i + 1] == s[i] && all[j + 1] == s[j];
      }
      forall x | x in s ensures !Before(x, m) {
        var k :| 0 <= k < |s| && s[k] == x;
        assert all[k + 1] == x && all[0] == m;
      }
    }
  }

  lemma InOrderTail(s: seq<QueuedMission>)
    requires s != []
    ensures InOrder(s) <==> InOrder(s[1..]) && NoneBefore(s[1..], s[0])
  {
    assert s == [s[0]] + s[1..];
    InOrderCons(s[0], s[1..]);
  }

  lemma BeforeIsTransitive(a: QueuedMission, b: QueuedMission, c: QueuedMission)
    requires !Before(b, a) && !Before(c, b)
    ensures !Before(c, a)
  {
  }

  lemma NoneBeforeWhole(s: seq<QueuedMission>, m: QueuedMission)
    requires s != [] && InOrder(s) && !Before(s[0], m)
    ensures NoneBefore(s, m)
  {
    hide InOrder;
    InOrderTail(s);
    assert s == [s[0]] + s[1..];
    forall x | x in s[1..] ensures !Before(x, m) {
      BeforeIsTransitive(m, s[0], x);
    }
  }

  // ---------------------------------------------------------------- sorting

  lemma {:induction false} InsertPermutes(m: QueuedMission, s: seq<QueuedMission>)
    ensures multiset(Insert(m, s)) == multiset(s) + multiset{m}
  {
    hide Before;
    if s != [] && Before(s[0], m) {
      InsertPermutes(m, s[1..]);
      assert s == [s[0]] + s[1..];
    }
  }

  lemma {:induction false} SortPermutes(s: seq<QueuedMission>)
    ensures multiset(Sorted(s)) == multiset(s)
  {
    hide Insert;
    if s != [] {
      SortPermutes(s[1..]);
      InsertPermutes(s[0], Sorted(s[1..]));
      assert s == [s[0]] + s[1..];
    }
  }

  lemma SameElements(a: seq<QueuedMission>, b: seq<QueuedMission>)
    requires multiset(a) == multiset(b)
    ensures forall x :: x in a <==> x in b
  {
    forall x ensures x in a <==> x in b {
      assert x in a <==> x in multiset(a);
      assert x in b <==> x in multiset(b);
    }
  }

  lemma InsertElements(m: QueuedMission, s: seq<QueuedMission>)
    ensures forall x :: x in Insert(m, s) <==> x == m || x in s
  {
    InsertPermutes(m, s);
    SameElements(Insert(m, s), s + [m]);
  }

  lemma {:induction false} InsertInOrder(m: QueuedMission, s: seq<QueuedMission>)
    requires InOrder(s)
    ensures InOrder(Insert(m, s))
  {
    hide InOrder, NoneBefore;
    if s == [] || !Before(s[0], m) {
      if s != [] {
        NoneBeforeWhole(s, m);
      } else {
        NothingBefore(m);
        NothingInOrder();
      }
      InOrderCons(m, s);
    } else {
      InOrderTail(s);
      InsertInOrder(m, s[1..]);
      InsertKeepsAfter(m, s[1..], s[0]);
      InOrderCons(s[0], Insert(m, s[1..]));
    }
  }

  lemma NothingBefore(m: QueuedMission)
    ensures NoneBefore([], m)
  {
  }

  lemma NothingInOrder()
    ensures InOrder([])
  {
  }

  lemma InsertKeepsAfter(m: QueuedMission, s: seq<QueuedMission>, first: QueuedMission)
    requires NoneBefore(s, first) && Before(first, m)
    ensures NoneBefore(Insert(m, s), first)
  {
    InsertElements(m, s);
  }

  lemma {:induction false} SortIsInOrder(s: seq<QueuedMission>)
    ensures InOrder(Sorted(s))
  {
    hide InOrder, Insert;
    if s == [] {
      NothingInOrder();
    } else {
      SortIsInOrder(s[1..]);
      InsertInOrder(s[0], Sorted(s[1..]));
    }
  }

  // ---------------------------------------------------------------- stability and uniqueness

  /** The missions tied under the comparison. */
  function HasKey(priority: int, sequence: nat): QueuedMission -> bool {
    (m: QueuedMission) => m.priority == priority && m.sequence == sequence
  }

  lemma {:induction false} InsertIsStable(m: QueuedMission, s: seq<QueuedMission>, p: int, n: nat)
    ensures Filter(Insert(m, s), HasKey(p, n)) == Filter([m] + s, HasKey(p, n))
  {
    assert ([m] + s)[1..] == s;
    if s != [] && Before(s[0], m) {
      InsertIsStable(m, s[1..], p, n);
      assert ([m] + s[1..])[1..] == s[1..];
      assert ([s[0]] + Insert(m, s[1..]))[1..] == Insert(m, s[1..]);
    }
  }

  /** Missions tied under the comparison keep their order. */
  lemma {:induction false} SortIsStable(s: seq<QueuedMission>, p: int, n: nat)
    ensures Filter(Sorted(s), HasKey(p, n)) == Filter(s, HasKey(p, n))
  {
    hide Insert;
    if s != [] {
      SortIsStable(s[1..], p, n);
      InsertIsStable(s[0], Sorted(s[1..]), p, n);
      var t := [s[0]] + Sorted(s[1..]);
      assert t[1..] == Sorted(s[1..]);
    }
  }

  ghost predicate SameTies(a: seq<QueuedMission>, b: seq<QueuedMission>) {
    forall p: int, n: nat :: Filter(a, HasKey(p, n)) == Filter(b, HasKey(p, n))
  }

  lemma FirstOfKey(s: seq<QueuedMission>)
    requires s != []
    ensures Filter(s, HasKey(s[0].priority, s[0].sequence)) ==
            [s[0]] + Filter(s[1..], HasKey(s[0].priority, s[0].sequence))
  {
  }

  lemma SameHead(a: seq<QueuedMission>, b: seq<QueuedMission>)
    requires a != [] && SameTies(a, b) && InOrder(b)
    ensures b != [] && !Before(a[0], b[0])
  {
    hide Before, SameTies;
    var key := HasKey(a[0].priority, a[0].sequence);
    FirstOfKey(a);
    assert Filter(a, key) == Filter(b, key) by { UseTies(a, b, a[0].priority, a[0].sequence); }
    FilterKeeps(b, key);
    assert a[0] in Filter(b, key);
    var k :| 0 <= k < |b| && b[k] == a[0];
    NotBeforeItself(a[0]);
  }

  lemma NotBeforeItself(m: QueuedMission)
    ensures !Before(m, m)
  {
  }

  lemma UseTies(a: seq<QueuedMission>, b: seq<QueuedMission>, p: int, n: nat)
    requires SameTies(a, b)
    ensures Filter(a, HasKey(p, n)) == Filter(b, HasKey(p, n))
  {
  }

  lemma HeadsAgree(a: seq<QueuedMission>, b: seq<QueuedMission>)
    requires a != [] && b != [] && SameTies(a, b) && !Before(a[0], b[0]) && !Before(b[0], a[0])
    ensures a[0] == b[0] && SameTies(a[1..], b[1..])
  {
    var p, n := a[0].priority, a[0].sequence;
    UseTies(a, b, p, n);
    FirstOfKey(a);
    FirstOfKey(b);
    assert Filter(a, HasKey(p, n))[0] == a[0] && Filter(b, HasKey(p, n))[0] == b[0];
    forall q: int, m: nat
      ensures Filter(a[1..], HasKey(q, m)) == Filter(b[1..], HasKey(q, m))
    {
      UseTies(a, b, q, m);
      TailOfFilter(a, q, m);
      TailOfFilter(b, q, m);
    }
  }

  lemma TailOfFilter(s: seq<QueuedMission>, p: int, n: nat)
    requires s != []
    ensures var key := HasKey(p, n); Filter(s[1..], key) == if key(s[0]) then Filter(s, key)[1..] else Filter(s, key)
  {
  }

  lemma {:induction false} OrderedIsUnique(a: seq<QueuedMission>, b: seq<QueuedMission>)
    requires InOrder(a) && InOrder(b) && SameTies(a, b)
    ensures a == b
  {
    hide Before, SameTies, InOrder;
    if a != [] {
      SameHead(a, b);
      TiesSymmetric(a, b);
      SameHead(b, a);
      HeadsAgree(a, b);
      InOrderTail(a);
      InOrderTail(b);
      OrderedIsUnique(a[1..], b[1..]);
      assert a == [a[0]] + a[1..] && b == [b[0]] + b[1..];
    } else if b != [] {
      TiesSymmetric(a, b);
      SameHead(b, a);
    }
  }

  lemma TiesSymmetric(a: seq<QueuedMission>, b: seq<QueuedMission>)
    requires SameTies(a, b)
    ensures SameTies(b, a)
  {
  }

  /** A sequence is the stable sort of another exactly when it is in order and keeps the order of ties. */
  lemma StableSortIsUnique(s: seq<QueuedMission>, t: seq<QueuedMission>)
    ensures t == Sorted(s) <==> InOrder(t) && SameTies(t, s)
  {
    hide InOrder;
    SortIsInOrder(s);
    forall p: int, n: nat ensures Filter(Sorted(s), HasKey(p, n)) == Filter(s, HasKey(p, n)) {
      SortIsStable(s, p, n);
    }
    if InOrder(t) && SameTies(t, s) {
      OrderedIsUnique(t, Sorted(s));
    }
  }

  lemma DistinctTail(s: seq<QueuedMission>)
    requires s != [] && DistinctSequences(s)
    ensures DistinctSequences(s[1..]) && forall x | x in s[1..] :: x.sequence != s[0].sequence
  {
  }

  lemma DistinctStrict(s: seq<QueuedMission>, x: QueuedMission)
    requires s != [] && DistinctSequences(s) && InOrder(s) && x in s
    ensures x == s[0] || (Before(s[0], x) && !Before(x, s[0]))
  {
    if x != s[0] {
      var k :| 0 <= k < |s| && s[k] == x;
    }
  }

  lemma {:induction false} InOrderWithDistinctSequences(a: seq<QueuedMission>, b: seq<QueuedMission>)
    requires InOrder(a) && InOrder(b) && multiset(a) == multiset(b) && DistinctSequences(a) && DistinctSequences(b)
    ensures a == b
  {
    SameElements(a, b);
    if a == [] {
      assert |multiset(b)| == 0;
    } else {
      assert a[0] in b && b != [] && b[0] in a;
      DistinctStrict(a, b[0]);
      DistinctStrict(b, a[0]);
      hide Before, InOrder, DistinctSequences;
      TailsPermute(a, b);
      InOrderTail(a);
      InOrderTail(b);
      DistinctTail(a);
      DistinctTail(b);
      InOrderWithDistinctSequences(a[1..], b[1..]);
      assert a == [a[0]] + a[1..] && b == [b[0]] + b[1..];
    }
  }

  lemma TailsPermute(a: seq<QueuedMission>, b: seq<QueuedMission>)
    requires a != [] && b != [] && a[0] == b[0] && multiset(a) == multiset(b)
    ensures multiset(a[1..]) == multiset(b[1..])
  {
    assert a == [a[0]] + a[1..] && b == [b[0]] + b[1..];
    assert multiset(a[1..]) == multiset(a) - multiset{a[0]};
    assert multiset(b[1..]) == multiset(b) - multiset{b[0]};
  }

  // ---------------------------------------------------------------- sorting and filtering

  lemma {:induction false} FilterNoneBefore(s: seq<QueuedMission>, m: QueuedMission, keep: QueuedMission -> bool)
    requires NoneBefore(s, m)
    ensures Insert(m, Filter(s, keep)) == [m] + Filter(s, keep)
  {
    FilterKeeps(s, keep);
    var t := Filter(s, keep);
    if t != [] {
      assert t[0] in t;
    }
  }

  lemma {:induction false} FilterOfInsert(m: QueuedMission, s: seq<QueuedMission>, keep: QueuedMission -> bool)
    requires InOrder(s)
    ensures Filter(Insert(m, s), keep) == if keep(m) then Insert(m, Filter(s, keep)) else Filter(s, keep)
  {
    hide InOrder, NoneBefore;
    if s == [] || !Before(s[0], m) {
      if s != [] {
        NoneBeforeWhole(s, m);
      } else {
        NothingBefore(m);
      }
      FilterNoneBefore(s, m, keep);
      assert ([m] + s)[1..] == s;
    } else {
      InOrderTail(s);
      FilterOfInsert(m, s[1..], keep);
      assert ([s[0]] + Insert(m, s[1..]))[1..] == Insert(m, s[1..]);
      InsertPastHead(m, s[0], Filter(s[1..], keep));
    }
  }

  lemma InsertPastHead(m: QueuedMission, head: QueuedMission, rest: seq<QueuedMission>)
    requires Before(head, m)
    ensures Insert(m, [head] + rest) == [head] + Insert(m, rest)
  {
    assert ([head] + rest)[1..] == rest;
  }

  /** Choosing missions and sorting them commute. */
  lemma {:induction false} FilterOfSorted(s: seq<QueuedMission>, keep: QueuedMission -> bool)
    ensures Filter(Sorted(s), keep) == Sorted(Filter(s, keep))
  {
    hide Insert, InOrder;
    if s != [] {
      FilterOfSorted(s[1..], keep);
      SortIsInOrder(s[1..]);
      FilterOfInsert(s[0], Sorted(s[1..]), keep);
      var rest := Filter(s[1..], keep);
      assert ([s[0]] + rest)[1..] == rest;
    }
  }

  // ---------------------------------------------------------------- repeated dispatch

  datatype Dispatched = Dispatched(popped: seq<QueuedMission>, remaining: seq<QueuedMission>)

  /** Dispatch repeated until it no longer succeeds. */
  function DispatchAll(s: seq<QueuedMission>, paused: set<string>): Dispatched
    decreases |s|
  {
    var r := Pop(s, paused);
    if !r.success then Dispatched([], s)
    else
      var rest := DispatchAll(r.remaining, paused);
      Dispatched([r.mission.value] + rest.popped, rest.remaining)
  }

  ghost predicate Splits(s: seq<QueuedMission>, paused: set<string>, i: Option<nat>) {
    if i.None? then Filter(s, RunnableUnder(paused)) == [] && Filter(s, PausedUnder(paused)) == s
    else
      && i.value < |s|
      && var rest := s[..i.value] + s[i.value + 1..];
        && Filter(s, RunnableUnder(paused)) == [s[i.value]] + Filter(rest, RunnableUnder(paused))
        && Filter(s, PausedUnder(paused)) == Filter(rest, PausedUnder(paused))
  }

  lemma SplitsAtHead(s: seq<QueuedMission>, paused: set<string>)
    requires s != [] && !Paused(s[0], paused)
    ensures Splits(s, paused, Some(0))
  {
    hide Paused;
    assert s[..0] + s[1..] == s[1..];
  }

  lemma SplitsLater(s: seq<QueuedMission>, paused: set<string>, i: Option<nat>)
    requires s != [] && Paused(s[0], paused) && Splits(s[1..], paused, i)
    ensures Splits(s, paused, if i.None? then None else Some(i.value + 1))
  {
    hide Paused;
    if i.Some? {
      var rest := s[1..][..i.value] + s[1..][i.value + 1..];
      assert s[..i.value + 1] + s[i.value + 2..] == [s[0]] + rest;
      assert ([s[0]] + rest)[1..] == rest;
    }
  }

  lemma {:induction false} FirstRunnableSplits(s: seq<QueuedMission>, paused: set<string>)
    ensures Splits(s, paused, FirstRunnable(s, paused))
  {
    if s != [] {
      hide Paused, Splits;
      FirstRunnableSplits(s[1..], paused);
      if Paused(s[0], paused) {
        SplitsLater(s, paused, FirstRunnable(s[1..], paused));
      } else {
        SplitsAtHead(s, paused);
      }
    }
  }

  /** Repeated dispatch delivers exactly the runnable missions in queue order and leaves exactly the paused ones. */
  lemma {:induction false} DispatchDeliversTheRunnable(s: seq<QueuedMission>, paused: set<string>)
    ensures DispatchAll(s, paused) == Dispatched(Filter(s, RunnableUnder(paused)), Filter(s, PausedUnder(paused)))
    decreases |s|
  {
    hide Paused, RunnableUnder, PausedUnder, FirstRunnable;
    FirstRunnableSplits(s, paused);
    var r := Pop(s, paused);
    if r.success {
      DispatchDeliversTheRunnable(r.remaining, paused);
    }
  }

  /**
   * Dispatching a sorted queue delivers the runnable missions by priority, then by sequence number, and
   * leaves the paused ones in that order.
   */
  lemma DispatchOfSortedQueue(s: seq<QueuedMission>, paused: set<string>)
    ensures DispatchAll(Sorted(s), paused) == Dispatched(Sorted(Filter(s, RunnableUnder(paused))), Sorted(Filter(s, PausedUnder(paused))))
    ensures InOrder(DispatchAll(Sorted(s), paused).popped) && InOrder(DispatchAll(Sorted(s), paused).remaining)
  {
    hide InOrder, DispatchAll;
    DispatchDeliversTheRunnable(Sorted(s), paused);
    FilterOfSorted(s, RunnableUnder(paused));
    FilterOfSorted(s, PausedUnder(paused));
    SortIsInOrder(Filter(s, RunnableUnder(paused)));
    SortIsInOrder(Filter(s, PausedUnder(paused)));
  }

  lemma {:induction false} DistinctFollowsMultiset(a: seq<QueuedMission>, b: seq<QueuedMission>)
    requires DistinctSequences(a) && multiset(a) == multiset(b)
    ensures DistinctSequences(b)
  {
    forall i, j | 0 <= i < j < |b|
      ensures b[i].sequence != b[j].sequence
    {
      SharedSequence(a, b, i, j);
    }
  }

  lemma SharedSequence(a: seq<QueuedMission>, b: seq<QueuedMission>, i: nat, j: nat)
    requires DistinctSequences(a) && multiset(a) == multiset(b) && i < j < |b|
    ensures b[i].sequence != b[j].sequence
  {
    SameElements(a, b);
    assert b[i] in a && b[j] in a;
    if b[i] == b[j] {
      TwiceIn(b, i, j);
      OnceIn(a, b[i]);
    }
  }

  lemma TwiceIn(s: seq<QueuedMission>, i: nat, j: nat)
    requires i < j < |s| && s[i] == s[j]
    ensures multiset(s)[s[i]] >= 2
  {
    assert s == s[..i] + [s[i]] + s[i + 1..j] + [s[j]] + s[j + 1..];
  }

  lemma {:induction false} OnceIn(s: seq<QueuedMission>, m: QueuedMission)
    requires DistinctSequences(s) && m in s
    ensures multiset(s)[m] == 1
  {
    assert s == [s[0]] + s[1..];
    DistinctTail(s);
    if m in s[1..] {
      OnceIn(s[1..], m);
    }
  }

  /** With distinct sequence numbers the sorted queue depends only on which missions are queued. */
  lemma SortDependsOnlyOnTheMissions(a: seq<QueuedMission>, b: seq<QueuedMission>)
    requires multiset(a) == multiset(b) && DistinctSequences(a)
    ensures Sorted(a) == Sorted(b)
  {
    hide InOrder, DistinctSequences;
    SortIsInOrder(a);
    SortIsInOrder(b);
    SortPermutes(a);
    SortPermutes(b);
    DistinctFollowsMultiset(a, Sorted(a));
    DistinctFollowsMultiset(a, Sorted(b));
    InOrderWithDistinctSequences(Sorted(a), Sorted(b));
  }
}
