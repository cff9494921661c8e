/** Exhaustive search: run every order of the jobs, in the order
    `std::next_permutation` visits them from the sorted indices, and keep the
    first one of least total weighted tardiness. */
module BruteForce {
  import opened Tasks
  import opened Permutations
  import opened DynamicProgramming
  import opened Masks

  /** Every entry of `orders` lists job indices of `tasks`. */
  predicate AllValid(tasks: seq<Task>, orders: seq<seq<nat>>) {
    forall k :: 0 <= k < |orders| ==> ValidIndices(tasks, orders[k])
  }

  /** The total tardiness of each order of `orders`, in the same order. */
  function Costs(tasks: seq<Task>, orders: seq<seq<nat>>): (r: seq<int>)
    requires AllValid(tasks, orders)
    ensures |r| == |orders|
    ensures forall k :: 0 <= k < |orders| ==> r[k] == TotalTardiness(tasks, orders[k])
  {
    if orders == [] then []
    else Costs(tasks, orders[..|orders| - 1]) + [TotalTardiness(tasks, orders[|orders| - 1])]
  }

  /** The position of the first least cost: no cost is smaller, and every
      earlier cost is strictly larger. This is what a running minimum updated
      only on a strict improvement settles on. */
  function FirstLeast(c: seq<int>): (r: nat)
    requires |c| > 0
    ensures r < |c|
    ensures forall k :: 0 <= k < |c| ==> c[r] <= c[k]
    ensures forall k :: 0 <= k < r ==> c[r] < c[k]
    decreases |c|
  {
    if |c| == 1 then 0
    else
      var r := FirstLeast(c[..|c| - 1]);
      if c[|c| - 1] < c[r] then |c| - 1 else r
  }

  /** One more cost seen: the first least position moves to it exactly when
      it is strictly below the least so far. */
  lemma FirstLeastNext(c: seq<int>, k: nat)
    requires k < |c|
    ensures k == 0 ==> FirstLeast(c[..k + 1]) == 0
    ensures k > 0 ==>
              FirstLeast(c[..k + 1]) ==
              (if c[k] < c[FirstLeast(c[..k])] then k else FirstLeast(c[..k]))
  {
    assert c[..k + 1][..k] == c[..k];
  }

  /** The order the search settles on: the first visited order of least
      total tardiness. It is an ordering of all the jobs. */
  function Chosen(tasks: seq<Task>): (s: seq<nat>)
    ensures IsOrdering(tasks, s)
  {
    OrdersValid(tasks);
    var r := FirstLeast(Costs(tasks, AllOrders(|tasks|)));
    VisitedIsOrdering(tasks, r);
    AllOrders(|tasks|)[r]
  }

  /** Every ordering of the jobs is visited at some step. */
  lemma VisitedAt(tasks: seq<Task>, s: seq<nat>) returns (i: nat)
    requires IsOrdering(tasks, s)
    ensures i < |AllOrders(|tasks|)| && AllOrders(|tasks|)[i] == s
  {
    AllOrdersFacts(tasks);
    i :| i < |AllOrders(|tasks|)| && AllOrders(|tasks|)[i] == s;
  }

  /** An order visited earlier comes lexicographically before one visited
      later. */
  lemma VisitedInOrder(tasks: seq<Task>, a: nat, b: nat)
    requires a < b < |AllOrders(|tasks|)|
    ensures LexLess(AllOrders(|tasks|)[a], AllOrders(|tasks|)[b])
  {
    AllOrdersFacts(tasks);
  }

  /** The chosen order costs no more than any ordering of the jobs. */
  lemma ChosenIsOptimal(tasks: seq<Task>)
    ensures forall s :: IsOrdering(tasks, s) ==>
              TotalTardiness(tasks, Chosen(tasks)) <= TotalTardiness(tasks, s)
  {
    var orders := AllOrders(|tasks|);
    OrdersValid(tasks);
    var costs := Costs(tasks, orders);
    assert Chosen(tasks) == orders[FirstLeast(costs)];
    forall s | IsOrdering(tasks, s)
      ensures TotalTardiness(tasks, Chosen(tasks)) <= TotalTardiness(tasks, s)
    {
      var i := VisitedAt(tasks, s);
      assert costs[i] == TotalTardiness(tasks, s);
    }
  }

  /** Among the orderings of least total tardiness the chosen one comes
      first lexicographically: the strict comparison keeps the earliest
      optimum, and the orders are visited in increasing lexicographic
      order. */
  lemma ChosenIsLexFirst(tasks: seq<Task>)
    ensures forall s ::
              (IsOrdering(tasks, s) && s != Chosen(tasks) &&
               TotalTardiness(tasks, s) == TotalTardiness(tasks, Chosen(tasks))) ==>
              LexLess(Chosen(tasks), s)
  {
    var orders := AllOrders(|tasks|);
    OrdersValid(tasks);
    var costs := Costs(tasks, orders);
    var r := FirstLeast(costs);
    assert Chosen(tasks) == orders[r];
    forall s | IsOrdering(tasks, s) && s != Chosen(tasks) &&
               TotalTardiness(tasks, s) == TotalTardiness(tasks, Chosen(tasks))
      ensures LexLess(Chosen(tasks), s)
    {
      var i := VisitedAt(tasks, s);
      assert costs[i] == costs[r];
      assert r < i;
      VisitedInOrder(tasks, r, i);
    }
  }

  /** The exhaustive search and the dynamic programme find the same optimal
      cost. */
  lemma AgreesWithDynamicProgramming(tasks: seq<Task>)
    ensures TotalTardiness(tasks, Chosen(tasks)) == Opt(tasks, Full(|tasks|))
  {
    ChosenIsOptimal(tasks);
    ScheduleIsOptimal(tasks);
  }

  /** What the search's result promises, stated of the kept order: it is
      optimal, costs what the dynamic programme finds, its ids are one per
      job, and with no jobs it is empty and costs nothing. */
  lemma ChosenSummary(tasks: seq<Task>)
    ensures forall s :: IsOrdering(tasks, s) ==>
              TotalTardiness(tasks, Chosen(tasks)) <= TotalTardiness(tasks, s)
    ensures TotalTardiness(tasks, Chosen(tasks)) == Opt(tasks, Full(|tasks|))
    ensures |Ids(tasks, Chosen(tasks))| == |tasks|
    ensures multiset(Ids(tasks, Chosen(tasks))) == multiset(Ids(tasks, Range(|tasks|)))
    ensures |tasks| == 0 ==> TotalTardiness(tasks, Chosen(tasks)) == 0 && Ids(tasks, Chosen(tasks)) == []
  {
    ChosenIsOptimal(tasks);
    AgreesWithDynamicProgramming(tasks);
    OrderingIds(tasks, Chosen(tasks));
  }

  /** The order visited at step `k` is an ordering of all the jobs. */
  lemma VisitedIsOrdering(tasks: seq<Task>, k: nat)
    requires k < |AllOrders(|tasks|)|
    ensures IsOrdering(tasks, AllOrders(|tasks|)[k])
  {
    AllOrdersFacts(tasks);
  }

  /** Every visited order lists each of the `n` job indices. */
  lemma OrdersValid(tasks: seq<Task>)
    ensures |AllOrders(|tasks|)| > 0 && AllValid(tasks, AllOrders(|tasks|))
    ensures forall k :: 0 <= k < |AllOrders(|tasks|)| ==> |AllOrders(|tasks|)[k]| == |tasks|
  {
    AllOrdersFacts(tasks);
  }

  /** Runs the jobs of `indices` back to back from time 0, adding up the
      penalty of each at its completion time. */
  method Simulate(tasks: seq<Task>, indices: seq<nat>) returns (totalPenalty: int)
    requires ValidIndices(tasks, indices)
    ensures totalPenalty == TotalTardiness(tasks, indices)
  {
    var currentTime := 0;
    totalPenalty := 0;
    for i := 0 to |indices|
      invariant currentTime == Time(tasks, indices[..i])
      invariant totalPenalty == TotalTardiness(tasks, indices[..i])
    {
      var index := indices[i];
      assert indices[..i + 1][..i] == indices[..i];
      currentTime := currentTime + tasks[index].p;
      totalPenalty := totalPenalty + Penalty(currentTime, tasks[index].d, tasks[index].w);
    }
    assert indices[..|indices|] == indices;
  }

  /** Clears the best order and pushes the id of each job of `indices`,
      in order. */
  method CopyIds(tasks: seq<Task>, indices: seq<nat>) returns (ids: seq<int>)
    requires ValidIndices(tasks, indices)
    ensures |ids| == |indices|
    ensures forall k :: 0 <= k < |indices| ==> ids[k] == tasks[indices[k]].number
  {
    ids := [];
    for i := 0 to |indices|
      invariant |ids| == i
      invariant forall k :: 0 <= k < i ==> ids[k] == tasks[indices[k]].number
    {
      ids := ids + [tasks[indices[i]].number];
    }
  }

  /** Runs every order of the jobs, simulating each one and keeping the first
      one of least total tardiness; returns its cost and its job ids. */
  method Search(tasks: seq<Task>) returns (bestCost: int, bestOrder: seq<int>)
    ensures bestCost == TotalTardiness(tasks, Chosen(tasks))
    ensures bestOrder == Ids(tasks, Chosen(tasks))
    ensures forall s :: IsOrdering(tasks, s) ==> bestCost <= TotalTardiness(tasks, s)
    ensures bestCost == Opt(tasks, Full(|tasks|))
    ensures |bestOrder| == |tasks| && multiset(bestOrder) == multiset(Ids(tasks, Range(|tasks|)))
    ensures |tasks| == 0 ==> bestCost == 0 && bestOrder == []
  {
    var n := |tasks|;
    var orders := AllOrders(n);
    OrdersValid(tasks);
    ghost var costs := Costs(tasks, orders);
    var best: Bound := Infinity;
    bestOrder := [];
    ghost var lead: nat := 0;
    var k := 0;
    while k < |orders|
      invariant 0 <= k <= |orders|
      invariant k == 0 ==> best.Infinity?
      invariant k > 0 ==> lead == FirstLeast(costs[..k])
      invariant k > 0 ==> best == Finite(costs[lead])
      invariant k > 0 ==> bestOrder == Ids(tasks, orders[lead])
    {
      var indices := orders[k];
      var totalPenalty := Simulate(tasks, indices);
      assert totalPenalty == costs[k];
      assert FirstLeast(costs[..k + 1]) ==
               if k > 0 && !Below(totalPenalty, best) then lead else k by {
        FirstLeastNext(costs, k);
      }
      if Below(totalPenalty, best) {
        bestOrder := CopyIds(tasks, indices);
        assert bestOrder == Ids(tasks, indices) by {
          IdsPointwise(tasks, indices, bestOrder);
        }
        best := Finite(totalPenalty);
        lead := k;
      }
      k := k + 1;
    }
    assert costs[..k] == costs;
    bestCost := best.value;
    ChosenSummary(tasks);
  }
}
