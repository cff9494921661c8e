/** Jobs of a single-machine total weighted tardiness instance, the per-job
    penalty, and the cost of running a sequence of jobs back to back. */
module Tasks {

  /** One job (the `WiTi` record): its 1-based id, processing time,
      weight and due date. */
  datatype Task = Task(number: int, p: int, w: int, d: int)

  /** A running minimum that may still hold the "not reached" sentinel,
      which the source writes as INT_MAX. */
  datatype Bound = Infinity | Finite(value: int)

  /** `x < b`, where every integer is below the sentinel. */
  predicate Below(x: int, b: Bound) {
    b.Infinity? || x < b.value
  }

  /** The weighted tardiness of one job finishing at time `c`:
      `max(c - d, 0) * w`. */
  function Penalty(c: int, d: int, w: int): (r: int)
    ensures c <= d ==> r == 0
    ensures r != 0 ==> c > d && w != 0
    ensures w >= 0 ==> r >= 0
  {
    (if c - d > 0 then c - d else 0) * w
  }

  /** For a non-negative weight, finishing later never costs less. */
  lemma PenaltyMonotone(c1: int, c2: int, d: int, w: int)
    requires c1 <= c2 && w >= 0
    ensures Penalty(c1, d, w) <= Penalty(c2, d, w)
  {
    if c2 > d {
      var t1 := if c1 - d > 0 then c1 - d else 0;
      assert t1 <= c2 - d;
      assert t1 * w <= (c2 - d) * w;
    }
  }

  /** Every entry of `s` is the index of a job of `tasks`. */
  predicate ValidIndices(tasks: seq<Task>, s: seq<nat>) {
    forall k :: 0 <= k < |s| ==> s[k] < |tasks|
  }

  /** The time at which the last job of `s` completes when the jobs of `s`
      run back to back from time 0. */
  function Time(tasks: seq<Task>, s: seq<nat>): int
    requires ValidIndices(tasks, s)
  {
    if s == [] then 0 else Time(tasks, s[..|s| - 1]) + tasks[s[|s| - 1]].p
  }

  /** The total weighted tardiness of running the jobs of `s` in that order. */
  function TotalTardiness(tasks: seq<Task>, s: seq<nat>): int
    requires ValidIndices(tasks, s)
  {
    if s == [] then 0
    else
      var j := s[|s| - 1];
      TotalTardiness(tasks, s[..|s| - 1]) + Penalty(Time(tasks, s), tasks[j].d, tasks[j].w)
  }

  /** With non-negative weights no schedule has a negative cost. */
  lemma {:induction false} TotalTardinessNonNegative(tasks: seq<Task>, s: seq<nat>)
    requires ValidIndices(tasks, s)
    requires forall k :: 0 <= k < |tasks| ==> tasks[k].w >= 0
    ensures TotalTardiness(tasks, s) >= 0
  {
    if s != [] {
      TotalTardinessNonNegative(tasks, s[..|s| - 1]);
    }
  }

  /** The job indices 0, 1, ..., n-1 in increasing order. */
  function Range(n: nat): (r: seq<nat>)
    ensures |r| == n
    ensures forall k :: 0 <= k < n ==> r[k] == k
  {
    if n == 0 then [] else Range(n - 1) + [n - 1]
  }

  /** How many times job index `x` occurs in `s`. */
  function Count(s: seq<nat>, x: nat): nat {
    if s == [] then 0 else Count(s[..|s| - 1], x) + (if s[|s| - 1] == x then 1 else 0)
  }

  /** `Count` is the multiplicity of `x` in the multiset of `s`. */
  lemma {:induction false} CountIsMultiplicity(s: seq<nat>, x: nat)
    ensures multiset(s)[x] == Count(s, x)
  {
    if s != [] {
      var rest := s[..|s| - 1];
      assert s == rest + [s[|s| - 1]];
      CountIsMultiplicity(rest, x);
    }
  }

  /** Appending `j` adds one occurrence of `j` and leaves the others. */
  lemma CountSnoc(s: seq<nat>, j: nat, x: nat)
    ensures Count(s + [j], x) == Count(s, x) + (if j == x then 1 else 0)
  {
    assert (s + [j])[..|s|] == s;
  }

  /** Each of 0 .. n-1 occurs once in `Range(n)`, and nothing else does. */
  lemma {:induction false} RangeCount(n: nat, x: nat)
    ensures Count(Range(n), x) == if x < n then 1 else 0
  {
    if n > 0 {
      var top: nat := n - 1;
      assert Range(n) == Range(top) + [top];
      CountSnoc(Range(top), top, x);
      RangeCount(top, x);
    }
  }

  /** `s` runs every job of `tasks` exactly once, and nothing else. */
  ghost predicate IsOrdering(tasks: seq<Task>, s: seq<nat>) {
    ValidIndices(tasks, s) && forall x: nat :: Count(s, x) == if x < |tasks| then 1 else 0
  }

  /** An ordering is exactly a permutation of the job indices 0 .. n-1. */
  lemma OrderingIsPermutation(tasks: seq<Task>, s: seq<nat>)
    ensures IsOrdering(tasks, s) ==> multiset(s) == multiset(Range(|tasks|))
    ensures ValidIndices(tasks, s) && multiset(s) == multiset(Range(|tasks|)) ==> IsOrdering(tasks, s)
  {
    var n := |tasks|;
    if IsOrdering(tasks, s) {
      forall x: nat ensures multiset(s)[x] == multiset(Range(n))[x] {
        CountIsMultiplicity(s, x);
        CountIsMultiplicity(Range(n), x);
        RangeCount(n, x);
      }
      assert multiset(s) == multiset(Range(n));
    }
    if ValidIndices(tasks, s) && multiset(s) == multiset(Range(n)) {
      forall x: nat ensures Count(s, x) == if x < n then 1 else 0 {
        CountIsMultiplicity(s, x);
        CountIsMultiplicity(Range(n), x);
        RangeCount(n, x);
      }
    }
  }

  /** An ordering lists as many entries as there are jobs, and each job
      index appears in it. */
  lemma OrderingCoversJobs(tasks: seq<Task>, s: seq<nat>, j: nat)
    requires IsOrdering(tasks, s) && j < |tasks|
    ensures |s| == |tasks| && j in s
  {
    OrderingIsPermutation(tasks, s);
    assert |multiset(s)| == |s|;
    assert Range(|tasks|)[j] == j;
    assert j in multiset(Range(|tasks|));
  }

  /** The ids of the jobs whose indices `s` lists, in the same order. */
  function Ids(tasks: seq<Task>, s: seq<nat>): (r: seq<int>)
    requires ValidIndices(tasks, s)
    ensures |r| == |s|
    ensures forall k {:trigger r[k]} :: 0 <= k < |s| ==> r[k] == tasks[s[k]].number
  {
    if s == [] then [] else Ids(tasks, s[..|s| - 1]) + [tasks[s[|s| - 1]].number]
  }

  /** A sequence holding the id of each job of `s`, position by position,
      is the ids of `s`. */
  lemma IdsPointwise(tasks: seq<Task>, s: seq<nat>, ids: seq<int>)
    requires ValidIndices(tasks, s) && |ids| == |s|
    requires forall k :: 0 <= k < |s| ==> ids[k] == tasks[s[k]].number
    ensures ids == Ids(tasks, s)
  {
  }

  /** `s` backwards (the effect of `std::reverse`). */
  function Reversed<T>(s: seq<T>): (r: seq<T>)
    ensures |r| == |s|
    ensures forall k {:trigger r[k]} :: 0 <= k < |s| ==> r[k] == s[|s| - 1 - k]
  {
    if s == [] then [] else [s[|s| - 1]] + Reversed(s[..|s| - 1])
  }

  /** Adding the same entry to two multisets keeps them apart. */
  lemma Cancel<T>(a: multiset<T>, b: multiset<T>, x: T)
    requires a + multiset{x} == b + multiset{x}
    ensures a == b
  {
    assert a == (a + multiset{x}) - multiset{x};
    assert b == (b + multiset{x}) - multiset{x};
  }

  /** Taking out the entry at `i` takes one occurrence of it out of the
      multiset. */
  lemma TakeOut<T>(t: seq<T>, i: nat)
    requires i < |t|
    ensures multiset(t) == multiset(t[..i] + t[i + 1..]) + multiset{t[i]}
  {
    assert t == t[..i] + [t[i]] + t[i + 1..];
  }

  /** Taking a job index out of an order takes its id out of the ids. */
  lemma IdsTakeOut(tasks: seq<Task>, t: seq<nat>, i: nat)
    requires ValidIndices(tasks, t) && i < |t|
    ensures ValidIndices(tasks, t[..i] + t[i + 1..])
    ensures multiset(Ids(tasks, t)) ==
              multiset(Ids(tasks, t[..i] + t[i + 1..])) + multiset{tasks[t[i]].number}
  {
    var ids := Ids(tasks, t);
    var rest := t[..i] + t[i + 1..];
    var l, r := Ids(tasks, rest), ids[..i] + ids[i + 1..];
    forall k | 0 <= k < |l| ensures l[k] == r[k] {
      if k < i {
        assert rest[k] == t[k] && r[k] == ids[k];
      } else {
        assert rest[k] == t[k + 1] && r[k] == ids[k + 1];
      }
    }
    assert l == r;
    TakeOut(ids, i);
  }

  /** Rearranging the job indices rearranges their ids the same way. */
  lemma {:induction false} IdsPermutation(tasks: seq<Task>, s: seq<nat>, t: seq<nat>)
    requires ValidIndices(tasks, s) && ValidIndices(tasks, t)
    requires multiset(s) == multiset(t)
    ensures multiset(Ids(tasks, s)) == multiset(Ids(tasks, t))
    decreases |s|
  {
    assert |t| == |multiset(t)| == |s|;
    if s != [] {
      var x := s[|s| - 1];
      assert x in multiset(t);
      var i :| 0 <= i < |t| && t[i] == x;
      var s', t' := s[..|s| - 1], t[..i] + t[i + 1..];
      assert multiset(s') == multiset(t') by {
        TakeOut(s, |s| - 1);
        TakeOut(t, i);
        assert s[..|s| - 1] + s[|s|..] == s';
        Cancel(multiset(s'), multiset(t'), x);
      }
      IdsPermutation(tasks, s', t');
      IdsTakeOut(tasks, t, i);
      IdsTakeOut(tasks, s, |s| - 1);
      assert s[..|s| - 1] + s[|s|..] == s';
    }
  }

  /** The ids of an ordering are one per job: `n` of them, and as a multiset
      the ids of all the jobs. */
  lemma OrderingIds(tasks: seq<Task>, s: seq<nat>)
    requires IsOrdering(tasks, s)
    ensures |Ids(tasks, s)| == |tasks|
    ensures multiset(Ids(tasks, s)) == multiset(Ids(tasks, Range(|tasks|)))
  {
    OrderingIsPermutation(tasks, s);
    assert |s| == |multiset(s)| == |multiset(Range(|tasks|))| == |tasks|;
    IdsPermutation(tasks, s, Range(|tasks|));
  }
}
