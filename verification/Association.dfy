// The greedy association of target_manager.cpp: candidate pairs sorted by distance, target
// id and observation index, each taken unless its target or its observation is taken.
module Association {

  /** A same-class pair within the matching distance, which is kept squared. */
  datatype Candidate = Candidate(distanceSq: real, target: nat, observation: nat, id: nat)

  /** The comparison handed to std::sort. */
  predicate Before(a: Candidate, b: Candidate) {
    if a.distanceSq != b.distanceSq then a.distanceSq < b.distanceSq
    else if a.id != b.id then a.id < b.id
    else a.observation < b.observation
  }

  predicate Clash(a: Candidate, b: Candidate) {
    a.target == b.target || a.observation == b.observation
  }

  predicate ClashesAny(chosen: seq<Candidate>, c: Candidate) {
    exists m | m in chosen :: Clash(m, c)
  }

  // ---------------------------------------------------------------- sorting

  ghost predicate Ascending(s: seq<Candidate>) {
    forall i, j | 0 <= i < j < |s| :: Before(s[i], s[j])
  }

  /** No two entries are tied under the comparison. */
  ghost predicate NoTies(s: seq<Candidate>) {
    forall i, j | 0 <= i < j < |s| :: Before(s[i], s[j]) || Before(s[j], s[i])
  }

  function Insert(c: Candidate, s: seq<Candidate>): seq<Candidate> {
    if s == [] || Before(c, s[0]) then [c] + s else [s[0]] + Insert(c, s[1..])
  }

  /** std::sort; the order is total on the candidates of one update, so the result is unique. */
  function SortCandidates(s: seq<Candidate>): seq<Candidate> {
    if s == [] then [] else Insert(s[0], SortCandidates(s[1..]))
  }

  lemma {:induction false} InsertElements(c: Candidate, s: seq<Candidate>)
    ensures forall x :: x in Insert(c, s) <==> x == c || x in s
  {
    if s != [] && !Before(c, s[0]) {
      InsertElements(c, s[1..]);
      assert s == [s[0]] + s[1..];
    }
  }

  lemma {:induction false} SortElements(s: seq<Candidate>)
    ensures forall x :: x in SortCandidates(s) <==> x in s
  {
    if s != [] {
      SortElements(s[1..]);
      InsertElements(s[0], SortCandidates(s[1..]));
      assert s == [s[0]] + s[1..];
    }
  }

  ghost predicate AllAfter(c: Candidate, s: seq<Candidate>) {
    forall x | x in s :: Before(c, x)
  }

  lemma AscendingCons(c: Candidate, s: seq<Candidate>)
    requires Ascending(s) && AllAfter(c, s)
    ensures Ascending([c] + s)
  {
  }

  lemma AscendingTail(s: seq<Candidate>)
    requires Ascending(s) && s != []
    ensures Ascending(s[1..]) && AllAfter(s[0], s[1..])
  {
  }

  lemma {:induction false} InsertAscending(c: Candidate, s: seq<Candidate>)
    requires Ascending(s) && forall x | x in s :: Before(c, x) || Before(x, c)
    ensures Ascending(Insert(c, s))
  {
    if s == [] {
    } else {
      AscendingTail(s);
      if Before(c, s[0]) {
        AscendingCons(c, s);
      } else {
        InsertAscending(c, s[1..]);
        InsertElements(c, s[1..]);
        AscendingCons(s[0], Insert(c, s[1..]));
      }
    }
  }

  lemma {:induction false} SortAscending(s: seq<Candidate>)
    requires NoTies(s)
    ensures Ascending(SortCandidates(s))
  {
    if s != [] {
      SortAscending(s[1..]);
      SortElements(s[1..]);
      InsertAscending(s[0], SortCandidates(s[1..]));
    }
  }

  // ---------------------------------------------------------------- the greedy loop

  /** The candidates taken, in the order they are taken, after those in `chosen`. */
  function Greedy(sorted: seq<Candidate>, chosen: seq<Candidate>): seq<Candidate>
    decreases |sorted|
  {
    if sorted == [] then chosen
    else Greedy(sorted[1..], if ClashesAny(chosen, sorted[0]) then chosen else chosen + [sorted[0]])
  }

  // ---------------------------------------------------------------- what it computes

  ghost predicate Matching(pairs: set<Candidate>) {
    forall a, b | a in pairs && b in pairs && a != b :: !Clash(a, b)
  }

  /** Some taken pair that comes earlier rules `c` out. */
  ghost predicate Blocked(pairs: set<Candidate>, c: Candidate) {
    exists m | m in pairs :: Clash(m, c) && Before(m, c)
  }

  /** A matching of the candidates in which every pair left out is ruled out by an earlier pair taken. */
  ghost predicate Stable(candidates: set<Candidate>, pairs: set<Candidate>) {
    && pairs <= candidates
    && Matching(pairs)
    && forall c | c in candidates && c !in pairs :: Blocked(pairs, c)
  }

  ghost function Elements(s: seq<Candidate>): set<Candidate> {
    set c | c in s
  }

  lemma BeforeIrreflexive(a: Candidate, b: Candidate)
    ensures !(Before(a, b) && Before(b, a))
  {
  }

  ghost predicate AgreeBelow(s: seq<Candidate>, a: set<Candidate>, b: set<Candidate>, n: nat) {
    forall i | 0 <= i < n && i < |s| :: s[i] in a <==> s[i] in b
  }

  lemma {:induction false} AgreeUpTo(s: seq<Candidate>, a: set<Candidate>, b: set<Candidate>, n: nat)
    requires Ascending(s) && n <= |s| && Stable(Elements(s), a) && Stable(Elements(s), b)
    ensures AgreeBelow(s, a, b, n)
  {
    hide Stable;
    if n > 0 {
      AgreeUpTo(s, a, b, n - 1);
      if s[n - 1] in a {
        TakenByBoth(s, a, b, n - 1);
      }
      if s[n - 1] in b {
        TakenByBoth(s, b, a, n - 1);
      }
    }
  }

  lemma TakenByBoth(s: seq<Candidate>, a: set<Candidate>, b: set<Candidate>, n: nat)
    requires Ascending(s) && n < |s| && Stable(Elements(s), a) && Stable(Elements(s), b)
    requires AgreeBelow(s, a, b, n) && s[n] in a
    ensures s[n] in b
  {
    if s[n] !in b {
      assert s[n] in Elements(s);
      var m :| m in b && Clash(m, s[n]) && Before(m, s[n]);
      assert m in Elements(s);
      var k :| 0 <= k < |s| && s[k] == m;
      BeforeIrreflexive(m, s[n]);
    }
  }

  /** There is at most one stable matching: the association does not depend on how it is found. */
  lemma StableIsUnique(s: seq<Candidate>, a: set<Candidate>, b: set<Candidate>)
    requires NoTies(s) && Stable(Elements(s), a) && Stable(Elements(s), b)
    ensures a == b
  {
    var sorted := SortCandidates(s);
    SortAscending(s);
    SortElements(s);
    assert Elements(sorted) == Elements(s);
    AgreeUpTo(sorted, a, b, |sorted|);
    forall c
      ensures c in a <==> c in b
    {
      if c in a || c in b {
        assert c in Elements(sorted);
        var k :| 0 <= k < |sorted| && sorted[k] == c;
      }
    }
  }

  ghost predicate GreedyInvariant(done: seq<Candidate>, chosen: seq<Candidate>) {
    Stable(Elements(done), Elements(chosen))
  }

  lemma GreedyStep(done: seq<Candidate>, chosen: seq<Candidate>, c: Candidate)
    requires GreedyInvariant(done, chosen) && forall x | x in done :: Before(x, c)
    ensures GreedyInvariant(done + [c], if ClashesAny(chosen, c) then chosen else chosen + [c])
  {
    var all := done + [c];
    if ClashesAny(chosen, c) {
      var m :| m in chosen && Clash(m, c);
      assert m in Elements(chosen) && m in Elements(done);
      assert Blocked(Elements(chosen), c);
      assert Elements(all) == Elements(done) + {c};
    } else {
      var more := chosen + [c];
      assert Elements(more) == Elements(chosen) + {c};
      assert Elements(all) == Elements(done) + {c};
      forall x | x in Elements(all) && x !in Elements(more)
        ensures Blocked(Elements(more), x)
      {
        assert Blocked(Elements(chosen), x);
      }
    }
  }

  lemma {:induction false} GreedyIsStableFrom(done: seq<Candidate>, rest: seq<Candidate>, chosen: seq<Candidate>)
    requires Ascending(done + rest) && GreedyInvariant(done, chosen)
    ensures Stable(Elements(done + rest), Elements(Greedy(rest, chosen)))
    decreases |rest|
  {
    if rest == [] {
      assert done + rest == done;
    } else {
      var c := rest[0];
      assert (done + [c]) + rest[1..] == done + rest;
      forall x | x in done
        ensures Before(x, c)
      {
        var i :| 0 <= i < |done| && done[i] == x;
        assert (done + rest)[i] == x && (done + rest)[|done|] == c;
      }
      GreedyStep(done, chosen, c);
      GreedyIsStableFrom(done + [c], rest[1..], if ClashesAny(chosen, c) then chosen else chosen + [c]);
    }
  }

  /** The greedy association is the stable matching of the candidates. */
  lemma GreedyIsStable(s: seq<Candidate>)
    requires NoTies(s)
    ensures Stable(Elements(s), Elements(Greedy(SortCandidates(s), [])))
  {
    var sorted := SortCandidates(s);
    SortAscending(s);
    SortElements(s);
    assert Elements(sorted) == Elements(s);
    assert [] + sorted == sorted;
    GreedyIsStableFrom([], sorted, []);
  }

  /** Whatever sorting algorithm is used, the same pairs are taken. */
  lemma SortingDoesNotMatter(s: seq<Candidate>, sorted: seq<Candidate>)
    requires NoTies(s) && Ascending(sorted) && Elements(sorted) == Elements(s)
    ensures Elements(Greedy(sorted, [])) == Elements(Greedy(SortCandidates(s), []))
  {
    assert [] + sorted == sorted;
    GreedyIsStableFrom([], sorted, []);
    GreedyIsStable(s);
    StableIsUnique(s, Elements(Greedy(sorted, [])), Elements(Greedy(SortCandidates(s), [])));
  }
}
