// Small shared vocabulary: optional values, IEEE doubles seen as reals with a
// finiteness flag, and the sequence helpers several modules rely on.
module Common {

  datatype Option<+T> = None | Some(value: T)

  /** A C++ `double`: either a finite number, taken as a real, or NaN / an infinity. */
  datatype Double = Finite(value: real) | NonFinite

  function Max(a: real, b: real): real { if a < b then b else a }

  function Min(a: real, b: real): real { if b < a then b else a }

  function Abs(a: real): real { if a < 0.0 then -a else a }

  /** `std::lround`: to the nearest integer, halves away from zero. */
  function LRound(x: real): int {
    if x >= 0.0 then (x + 0.5).Floor else -((0.5 - x).Floor)
  }

  /** Nothing is nearer, and of two nearest integers it is the one farther from zero. */
  lemma LRoundIsNearest(x: real)
    ensures -0.5 <= LRound(x) as real - x <= 0.5
    ensures LRound(x) as real - x == 0.5 ==> x >= 0.0
    ensures LRound(x) as real - x == -0.5 ==> x <= 0.0
  {
  }

  function Flatten<T>(chunks: seq<seq<T>>): seq<T> {
    if chunks == [] then [] else chunks[0] + Flatten(chunks[1..])
  }

  function Filter<T>(s: seq<T>, keep: T -> bool): seq<T> {
    if s == [] then []
    else if keep(s[0]) then [s[0]] + Filter(s[1..], keep)
    else Filter(s[1..], keep)
  }

  lemma {:induction false} FilterAppend<T>(a: seq<T>, b: seq<T>, keep: T -> bool)
    ensures Filter(a + b, keep) == Filter(a, keep) + Filter(b, keep)
  {
    if a == [] {
      assert a + b == b;
    } else {
      assert (a + b)[1..] == a[1..] + b;
      FilterAppend(a[1..], b, keep);
    }
  }

  lemma DropAppend<T>(a: seq<T>, b: seq<T>, k: nat)
    requires k <= |a|
    ensures (a + b)[k..] == a[k..] + b
  {
  }

  /** Two ways of cutting the same sequence, the first cut not before the second. */
  lemma CutPast<T>(a: seq<T>, b: seq<T>, p: seq<T>, q: seq<T>)
    requires a + b == p + q && |a| >= |p|
    ensures a == p + a[|p|..] && a[|p|..] + b == q
  {
    assert a == (a + b)[..|a|] && p == (p + q)[..|p|];
    assert a[|p|..] + b == (a + b)[|p|..] == (p + q)[|p|..];
  }

  lemma {:induction false} FilterKeeps<T>(s: seq<T>, keep: T -> bool)
    ensures forall x :: x in Filter(s, keep) <==> x in s && keep(x)
  {
    if s != [] {
      FilterKeeps(s[1..], keep);
      assert s == [s[0]] + s[1..];
    }
  }
}
