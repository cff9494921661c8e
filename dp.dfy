/** The exact solver: dynamic programming over every subset of jobs, with
    subsets encoded as bit masks, followed by the walk back through the
    table of chosen last jobs that rebuilds an optimal order. */
module DynamicProgramming {
  import opened Tasks
  import opened Masks

  /** Total processing time of the jobs of subset `m` whose index is below
      `k` (the first inner loop of the table fill, after `k` steps). */
  function SumP(tasks: seq<Task>, m: nat, k: nat): int
    requires k <= |tasks|
  {
    if k == 0 then 0
    else SumP(tasks, m, k - 1) + (if Bit(m, k - 1) then tasks[k - 1].p else 0)
  }

  /** The time at which the jobs of subset `m` are all done when they run
      first, whatever their order. */
  function Completion(tasks: seq<Task>, m: nat): int {
    SumP(tasks, m, |tasks|)
  }

  /** What the second inner loop has found for a subset so far: nothing yet,
      or the least cost and the job (`PI`) that achieves it as last job. */
  datatype Choice = Unreached | Reached(cost: int, last: nat)

  /** The `memory` cell that holds a choice (INT_MAX while unreached). */
  function CostCell(c: Choice): Bound {
    if c.Unreached? then Infinity else Finite(c.cost)
  }

  /** The `PI` cell that holds a choice (-1 while unreached). */
  function LastCell(c: Choice): int {
    if c.Unreached? then -1 else c.last
  }

  /** The value the table holds for subset `m`: the best choice over its
      jobs, and 0 for the empty subset. */
  function Opt(tasks: seq<Task>, m: nat): int
    decreases m, 1, 0
  {
    match Best(tasks, m, |tasks|)
    case Unreached => 0
    case Reached(c, _) => c
  }

  /** The cost of subset `m` when job `j` runs last: the table value of the
      subset without `j`, plus `j`'s penalty at the subset's completion time. */
  function Candidate(tasks: seq<Task>, m: nat, j: nat): int
    requires j < |tasks| && Bit(m, j)
    decreases m, 0, j
  {
    Opt(tasks, m - Pow2(j)) + Penalty(Completion(tasks, m), tasks[j].d, tasks[j].w)
  }

  /** The choice for subset `m` after trying the jobs 0 .. k-1 as last job,
      in that order, replacing the current one only on a strictly smaller
      cost. */
  function Best(tasks: seq<Task>, m: nat, k: nat): Choice
    requires k <= |tasks|
    decreases m, 0, k
  {
    if k == 0 then Unreached
    else
      var prev := Best(tasks, m, k - 1);
      if !Bit(m, k - 1) then prev
      else
        var c := Candidate(tasks, m, k - 1);
        if Below(c, CostCell(prev)) then Reached(c, k - 1) else prev
  }

  /** A subset stays unreached exactly while none of its jobs has been tried. */
  lemma {:induction false} BestReached(tasks: seq<Task>, m: nat, k: nat)
    requires k <= |tasks|
    ensures Best(tasks, m, k).Unreached? ==> forall x: nat :: x < k ==> !Bit(m, x)
    ensures (forall x: nat :: x < k ==> !Bit(m, x)) ==> Best(tasks, m, k).Unreached?
  {
    if k > 0 {
      BestReached(tasks, m, k - 1);
    }
  }

  /** The recorded last job is one of the jobs tried and a member of the
      subset. */
  lemma {:induction false} BestLastIsMember(tasks: seq<Task>, m: nat, k: nat)
    requires k <= |tasks|
    requires Best(tasks, m, k).Reached?
    ensures Best(tasks, m, k).last < k && Bit(m, Best(tasks, m, k).last)
  {
    if Best(tasks, m, k - 1).Reached? {
      BestLastIsMember(tasks, m, k - 1);
    }
  }

  /** The recorded last job is a member of the subset, its candidate cost is
      the recorded cost, no member has a smaller candidate cost, and every
      member with a lower index has a strictly larger one. */
  lemma {:induction false} BestIsFirstMinimum(tasks: seq<Task>, m: nat, k: nat)
    requires k <= |tasks|
    requires Best(tasks, m, k).Reached?
    ensures Best(tasks, m, k).last < k
    ensures Bit(m, Best(tasks, m, k).last)
    ensures Best(tasks, m, k).cost == Candidate(tasks, m, Best(tasks, m, k).last)
    ensures forall i: nat :: i < k && Bit(m, i) ==> Best(tasks, m, k).cost <= Candidate(tasks, m, i)
    ensures forall i: nat :: i < Best(tasks, m, k).last && Bit(m, i) ==>
              Best(tasks, m, k).cost < Candidate(tasks, m, i)
  {
    var prev := Best(tasks, m, k - 1);
    BestReached(tasks, m, k - 1);
    if prev.Reached? {
      BestIsFirstMinimum(tasks, m, k - 1);
    }
  }

  /** For every non-empty mask below `1 << n` the table holds a choice. */
  lemma NonEmptyReached(tasks: seq<Task>, m: nat)
    requires 0 < m < Pow2(|tasks|)
    ensures Best(tasks, m, |tasks|).Reached?
  {
    var j := SomeBitBelow(m, |tasks|);
    BestReached(tasks, m, |tasks|);
  }

  /** The empty subset costs nothing and has no last job. */
  lemma EmptySubset(tasks: seq<Task>)
    ensures Best(tasks, 0, |tasks|) == Unreached
    ensures Opt(tasks, 0) == 0
  {
    BestReached(tasks, 0, |tasks|);
  }

  /** Removing job `j` from a subset removes exactly `p_j` from its
      processing-time sum. */
  lemma {:induction false} SumPClear(tasks: seq<Task>, m: nat, j: nat, k: nat)
    requires Bit(m, j) && k <= |tasks|
    ensures SumP(tasks, m, k) == SumP(tasks, m - Pow2(j), k) + (if j < k then tasks[j].p else 0)
  {
    if k > 0 {
      SumPClear(tasks, m, j, k - 1);
      ClearBit(m, j, k - 1);
    }
  }

  /** A subset with no job below `k` has a zero processing-time sum there. */
  lemma {:induction false} SumPEmpty(tasks: seq<Task>, m: nat, k: nat)
    requires k <= |tasks|
    requires forall x: nat :: x < k ==> !Bit(m, x)
    ensures SumP(tasks, m, k) == 0
  {
    if k > 0 {
      SumPEmpty(tasks, m, k - 1);
    }
  }

  /** Any order that runs exactly the jobs of subset `m` finishes at the
      subset's completion time: it does not depend on the order. */
  lemma {:induction false} TimeIsCompletion(tasks: seq<Task>, m: nat, s: seq<nat>)
    requires ValidIndices(tasks, s)
    requires Lists(s, m, |tasks|)
    ensures Time(tasks, s) == Completion(tasks, m)
    decreases |s|
  {
    if s == [] {
      ListsEmpty(m, |tasks|);
      SumPEmpty(tasks, m, |tasks|);
    } else {
      var j := s[|s| - 1];
      var rest := s[..|s| - 1];
      assert Bit(m, j) && Lists(rest, m - Pow2(j), |tasks|) by {
        ListsPop(s, m, |tasks|);
      }
      TimeIsCompletion(tasks, m - Pow2(j), rest);
      SumPClear(tasks, m, j, |tasks|);
    }
  }

  /** The order the table encodes for subset `m`: the order for the subset
      without its recorded last job, then that job. It runs every job of the
      subset exactly once. */
  function Reconstruct(tasks: seq<Task>, m: nat): (r: seq<nat>)
    ensures ValidIndices(tasks, r)
    ensures Lists(r, m, |tasks|)
    decreases m
  {
    match Best(tasks, m, |tasks|)
    case Unreached =>
      BestReached(tasks, m, |tasks|);
      ListsEmpty(m, |tasks|);
      []
    case Reached(_, j) =>
      BestLastIsMember(tasks, m, |tasks|);
      var rest := Reconstruct(tasks, m - Pow2(j));
      ListsPush(rest, m, |tasks|, j);
      rest + [j]
  }

  /** One step of the walk back: a reached subset's order ends with its
      recorded last job, after the order of the subset without that job. */
  lemma ReconstructStep(tasks: seq<Task>, m: nat)
    requires Best(tasks, m, |tasks|).Reached?
    ensures Best(tasks, m, |tasks|).last < |tasks|
    ensures Bit(m, Best(tasks, m, |tasks|).last)
    ensures Reconstruct(tasks, m) ==
              Reconstruct(tasks, m - Pow2(Best(tasks, m, |tasks|).last)) + [Best(tasks, m, |tasks|).last]
  {
    BestLastIsMember(tasks, m, |tasks|);
  }

  /** The order rebuilt for subset `m` costs exactly the table value. */
  lemma {:induction false} ReconstructCost(tasks: seq<Task>, m: nat)
    ensures TotalTardiness(tasks, Reconstruct(tasks, m)) == Opt(tasks, m)
    decreases m
  {
    var r := Reconstruct(tasks, m);
    match Best(tasks, m, |tasks|)
    case Unreached =>
    case Reached(_, j) =>
      BestIsFirstMinimum(tasks, m, |tasks|);
      var rest := Reconstruct(tasks, m - Pow2(j));
      assert r == rest + [j];
      assert r[..|r| - 1] == rest;
      ReconstructCost(tasks, m - Pow2(j));
      TimeIsCompletion(tasks, m, r);
  }

  /** No order of the jobs of subset `m` costs less than the table value. */
  lemma {:induction false} OptIsLowerBound(tasks: seq<Task>, m: nat, s: seq<nat>)
    requires ValidIndices(tasks, s)
    requires Lists(s, m, |tasks|)
    ensures Opt(tasks, m) <= TotalTardiness(tasks, s)
    decreases |s|
  {
    if s == [] {
      ListsEmpty(m, |tasks|);
      BestReached(tasks, m, |tasks|);
    } else {
      var j := s[|s| - 1];
      var rest := s[..|s| - 1];
      assert j < |tasks| && Bit(m, j) && Lists(rest, m - Pow2(j), |tasks|) by {
        ListsPop(s, m, |tasks|);
      }
      OptIsLowerBound(tasks, m - Pow2(j), rest);
      assert Time(tasks, s) == Completion(tasks, m) by {
        TimeIsCompletion(tasks, m, s);
      }
      assert Opt(tasks, m) <= Candidate(tasks, m, j) by {
        BestReached(tasks, m, |tasks|);
        BestIsFirstMinimum(tasks, m, |tasks|);
      }
    }
  }

  /** The order `PD` returns, as job indices. */
  function Schedule(tasks: seq<Task>): (r: seq<nat>)
    ensures ValidIndices(tasks, r)
  {
    Reconstruct(tasks, Full(|tasks|))
  }

  /** The rebuilt order runs every job once, costs the table value of the
      full mask, and no order of all jobs costs less. */
  lemma ScheduleIsOptimal(tasks: seq<Task>)
    ensures IsOrdering(tasks, Schedule(tasks))
    ensures TotalTardiness(tasks, Schedule(tasks)) == Opt(tasks, Full(|tasks|))
    ensures forall s :: IsOrdering(tasks, s) ==> Opt(tasks, Full(|tasks|)) <= TotalTardiness(tasks, s)
  {
    var n := |tasks|;
    FullLists(Schedule(tasks), n);
    ReconstructCost(tasks, Full(n));
    forall s | IsOrdering(tasks, s) ensures Opt(tasks, Full(n)) <= TotalTardiness(tasks, s) {
      FullLists(s, n);
      OptIsLowerBound(tasks, Full(n), s);
    }
  }

  /** With no jobs the full mask is empty: it costs nothing and its order
      is empty. */
  lemma EmptyInstance(tasks: seq<Task>)
    requires |tasks| == 0
    ensures Opt(tasks, Full(0)) == 0 && Schedule(tasks) == []
  {
    assert Full(0) == 0;
    EmptySubset(tasks);
  }

  /** Fills `memory` and `PI` for every mask below `1 << n`, in increasing
      order: afterwards each cell holds the best cost of its subset and the
      job chosen to run last in it. */
  method FillTables(tasks: seq<Task>) returns (memory: array<Bound>, pi: array<int>)
    ensures fresh(memory) && fresh(pi)
    ensures memory.Length == Pow2(|tasks|) && pi.Length == Pow2(|tasks|)
    ensures forall m {:trigger memory[m]} :: 0 <= m < memory.Length ==> memory[m] == Finite(Opt(tasks, m))
    ensures forall m {:trigger pi[m]} :: 0 <= m < pi.Length ==> pi[m] == LastCell(Best(tasks, m, |tasks|))
  {
    var n := |tasks|;
    var size := Pow2(n);
    memory := new Bound[size](_ => Infinity);
    pi := new int[size](_ => -1);
    memory[0] := Finite(0);
    EmptySubset(tasks);
    for i := 1 to size
      invariant forall m :: 0 <= m < i ==>
                  memory[m] == Finite(Opt(tasks, m)) && pi[m] == LastCell(Best(tasks, m, n))
      invariant forall m :: i <= m < size ==> memory[m] == Infinity && pi[m] == -1
    {
      var c := 0;
      for j := 0 to n
        invariant c == SumP(tasks, i, j)
      {
        if Bit(i, j) {
          c := c + tasks[j].p;
        }
      }
      for j := 0 to n
        invariant memory[i] == CostCell(Best(tasks, i, j)) && pi[i] == LastCell(Best(tasks, i, j))
        invariant forall m :: 0 <= m < i ==>
                    memory[m] == Finite(Opt(tasks, m)) && pi[m] == LastCell(Best(tasks, m, n))
        invariant forall m :: i < m < size ==> memory[m] == Infinity && pi[m] == -1
      {
        if Bit(i, j) {
          var subset := i - Pow2(j);
          var cost := memory[subset].value + Penalty(c, tasks[j].d, tasks[j].w);
          if Below(cost, memory[i]) {
            memory[i] := Finite(cost);
            pi[i] := j;
          }
        }
      }
      NonEmptyReached(tasks, i);
    }
  }

  /** A `PI` table the walk back can follow: one cell per mask below
      `1 << n`, and every non-empty mask records one of its own jobs. */
  predicate WalkTable(tasks: seq<Task>, last: seq<int>) {
    |last| == Pow2(|tasks|) &&
    forall m: nat :: 0 < m < |last| ==> 0 <= last[m] < |tasks| && Bit(m, last[m])
  }

  /** The ids the walk back pushes, in push order, starting from mask `m`:
      the recorded last job of `m`, then those of `m` without that job. */
  function Walk(tasks: seq<Task>, last: seq<int>, m: nat): seq<int>
    requires WalkTable(tasks, last) && m < |last|
    decreases m
  {
    if m == 0 then []
    else
      var j := last[m];
      [tasks[j].number] + Walk(tasks, last, m - Pow2(j))
  }

  /** The table filled by `FillTables` is one the walk back can follow. */
  lemma FilledIsWalkTable(tasks: seq<Task>, last: seq<int>)
    requires |last| == Pow2(|tasks|)
    requires forall m: nat :: m < |last| ==> last[m] == LastCell(Best(tasks, m, |tasks|))
    ensures WalkTable(tasks, last)
  {
    forall m: nat | 0 < m < |last| ensures 0 <= last[m] < |tasks| && Bit(m, last[m]) {
      NonEmptyReached(tasks, m);
      BestLastIsMember(tasks, m, |tasks|);
    }
  }

  /** Reversing a sequence moves its first element to the end. */
  lemma ReversedCons<T>(x: T, w: seq<T>)
    ensures Reversed([x] + w) == Reversed(w) + [x]
  {
    var r, t := Reversed([x] + w), Reversed(w) + [x];
    assert |r| == |t|;
    forall k | 0 <= k < |r| ensures r[k] == t[k] {
      if k < |w| {
        assert ([x] + w)[|w| - k] == w[|w| - 1 - k];
      }
    }
  }

  /** Appending a job to an order appends its id to the ids. */
  lemma IdsSnoc(tasks: seq<Task>, rest: seq<nat>, j: nat)
    requires ValidIndices(tasks, rest) && j < |tasks|
    ensures ValidIndices(tasks, rest + [j])
    ensures Ids(tasks, rest + [j]) == Ids(tasks, rest) + [tasks[j].number]
  {
    assert (rest + [j])[..|rest|] == rest;
  }

  /** From a non-empty mask the walk pushes the recorded last job's id,
      then goes on from the mask without that job. */
  lemma WalkStep(tasks: seq<Task>, last: seq<int>, m: nat)
    requires WalkTable(tasks, last) && 0 < m < |last|
    ensures Walk(tasks, last, m) == [tasks[last[m]].number] + Walk(tasks, last, m - Pow2(last[m]))
  {
  }

  /** Reversed, the walk from a non-empty mask is the reversed walk from
      the mask without its recorded job, then that job's id. */
  lemma ReversedWalkStep(tasks: seq<Task>, last: seq<int>, m: nat)
    requires WalkTable(tasks, last) && 0 < m < |last|
    ensures Reversed(Walk(tasks, last, m)) ==
              Reversed(Walk(tasks, last, m - Pow2(last[m]))) + [tasks[last[m]].number]
  {
    WalkStep(tasks, last, m);
    ReversedCons(tasks[last[m]].number, Walk(tasks, last, m - Pow2(last[m])));
  }

  /** The ids of a reached mask's encoded order are those of the mask
      without its last job, then that job's id. */
  lemma IdsReconstructStep(tasks: seq<Task>, m: nat)
    requires Best(tasks, m, |tasks|).Reached?
    ensures Best(tasks, m, |tasks|).last < |tasks| && Bit(m, Best(tasks, m, |tasks|).last)
    ensures Ids(tasks, Reconstruct(tasks, m)) ==
              Ids(tasks, Reconstruct(tasks, m - Pow2(Best(tasks, m, |tasks|).last))) +
              [tasks[Best(tasks, m, |tasks|).last].number]
  {
    var j := Best(tasks, m, |tasks|).last;
    ReconstructStep(tasks, m);
    IdsSnoc(tasks, Reconstruct(tasks, m - Pow2(j)), j);
  }

  /** If the walk from the mask without `m`'s recorded last job rebuilds
      that mask's order, the walk from `m` rebuilds `m`'s order. */
  lemma WalkRebuildsStep(tasks: seq<Task>, last: seq<int>, m: nat)
    requires WalkTable(tasks, last) && 0 < m < |last|
    requires Best(tasks, m, |tasks|).Reached? && last[m] == Best(tasks, m, |tasks|).last
    requires Reversed(Walk(tasks, last, m - Pow2(last[m])))
               == Ids(tasks, Reconstruct(tasks, m - Pow2(last[m])))
    ensures Reversed(Walk(tasks, last, m)) == Ids(tasks, Reconstruct(tasks, m))
  {
    ReversedWalkStep(tasks, last, m);
    IdsReconstructStep(tasks, m);
  }

  /** Walking the filled table back from `m` and reversing gives the ids of
      the order the table encodes for `m`. */
  lemma {:induction false} WalkRebuilds(tasks: seq<Task>, last: seq<int>, m: nat)
    requires |last| == Pow2(|tasks|) && m < |last|
    requires forall m: nat :: m < |last| ==> last[m] == LastCell(Best(tasks, m, |tasks|))
    ensures WalkTable(tasks, last)
    ensures Reversed(Walk(tasks, last, m)) == Ids(tasks, Reconstruct(tasks, m))
    decreases m
  {
    FilledIsWalkTable(tasks, last);
    if m == 0 {
      assert Reconstruct(tasks, 0) == [] by {
        EmptySubset(tasks);
      }
    } else {
      NonEmptyReached(tasks, m);
      WalkRebuilds(tasks, last, m - Pow2(last[m]));
      WalkRebuildsStep(tasks, last, m);
    }
  }

  /** Walks `PI` back from the full mask, pushing the id of each recorded
      last job and clearing its bit, then reverses the pushed ids. */
  method Rebuild(tasks: seq<Task>, pi: array<int>) returns (order: seq<int>)
    requires WalkTable(tasks, pi[..])
    ensures order == Reversed(Walk(tasks, pi[..], Full(|tasks|)))
  {
    var n := |tasks|;
    var full := Full(n);
    var rev: seq<int> := [];
    var current: nat := full;
    while current > 0
      invariant current <= full
      invariant Walk(tasks, pi[..], full) == rev + Walk(tasks, pi[..], current)
    {
      var j := pi[current];
      rev := rev + [tasks[j].number];
      current := current - Pow2(j);
    }
    assert Walk(tasks, pi[..], current) == [];
    assert rev + [] == rev;
    order := Reversed(rev);
  }

  /** The exact solver: the least total weighted tardiness and an order of
      job ids that achieves it. */
  method PD(tasks: seq<Task>) returns (cost: int, order: seq<int>)
    requires |tasks| <= 30
    ensures cost == Opt(tasks, Full(|tasks|))
    ensures order == Ids(tasks, Schedule(tasks))
    ensures exists s :: IsOrdering(tasks, s) && order == Ids(tasks, s) && cost == TotalTardiness(tasks, s)
    ensures forall s :: IsOrdering(tasks, s) ==> cost <= TotalTardiness(tasks, s)
    ensures |order| == |tasks| && multiset(order) == multiset(Ids(tasks, Range(|tasks|)))
    ensures |tasks| == 0 ==> cost == 0 && order == []
  {
    var n := |tasks|;
    var memory, pi := FillTables(tasks);
    WalkRebuilds(tasks, pi[..], Full(n));
    order := Rebuild(tasks, pi);
    cost := memory[Full(n)].value;
    ScheduleIsOptimal(tasks);
    OrderingIds(tasks, Schedule(tasks));
    if n == 0 {
      EmptyInstance(tasks);
    }
  }
}
