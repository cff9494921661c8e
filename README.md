# WiTi: single-machine total weighted tardiness, modelled in Dafny

`WiTi/WiTi.cpp` schedules `n` jobs on one machine. Each job (the `WiTi`
record) has an id `number`, a processing time `p`, a weight `w` and a due
date `d`. A job that finishes at time `c` costs `max(c - d, 0) * w`. The
program finds an order of least total cost in two ways:

- `PD`, an exact dynamic programme over all `2^n` subsets of jobs, encoded
  as bit masks. It fills `memory` (the least cost of each subset) and `PI`
  (the job run last in it) in increasing mask order. Then it walks `PI` back
  from the full mask and reverses the ids it collected.
- `brute_force`, which runs every permutation of the job indices in the
  order `std::next_permutation` produces from `0, 1, ..., n-1`. It simulates
  each one and keeps the first one that is strictly cheaper than the best so
  far.

The model has five modules:

- `Tasks` (`tasks.dfy`): the job record, the penalty, and the cost of
  running a sequence of jobs back to back (`Time`, `TotalTardiness`). An
  ordering (`IsOrdering`) runs every job index exactly once.
- `Masks` (`masks.dfy`): masks are natural numbers. `Bit(m, k)` is
  `m & (1 << k) != 0`. Clearing a set bit, `i & ~(1 << j)`, is
  `i - Pow2(j)`. `Lists(s, m, n)` says that `s` runs exactly the jobs of
  mask `m`.
- `DynamicProgramming` (`dp.dfy`): the recurrence the table follows
  (`Opt`, `Candidate`, `Best`, where `Best` tries the jobs in index order
  and replaces only on a strictly smaller cost). It also has the order that
  the `PI` table encodes (`Reconstruct`, `Schedule`), the in-place table
  fill (`FillTables`, over two arrays), the walk back (`Rebuild`) and `PD`.
  The proofs show that each table cell holds the optimum of its subset, and
  that the rebuilt order is an ordering of the jobs whose cost is the
  returned cost and is no more than that of any other ordering.
- `Permutations` (`permutations.dfy`): `AllOrders(n)`, every arrangement of
  `0 .. n-1`. The proofs show that it lists each ordering exactly once,
  starts with `0, 1, ..., n-1`, and is in strictly increasing lexicographic
  order, which is the sequence `std::next_permutation` steps through.
- `BruteForce` (`bruteforce.dfy`): the search loop (`Search`) with its
  best-so-far update. The schedule simulation (`Simulate`) and the refill of
  `best_order` (`CopyIds`) are its two inner loops, written as methods of
  their own. It is proved to return the first order of least cost in
  visiting order. That order costs no more than any
  ordering, comes lexicographically first among the optimal ones, and costs
  exactly what `PD` returns.

The INT_MAX sentinel of `memory` and of `best_cost` is modelled as the
`Bound` value `Infinity`, below which every integer lies. `PI`'s `-1` is kept
as `-1`.

## Model

| member | source | states |
|---|---|---|
| Tasks.Penalty | WiTi/WiTi.cpp:51-53 | a job done by its due date costs nothing; a non-zero penalty needs lateness and a non-zero weight; a non-negative weight gives a non-negative penalty |
| Tasks.Below | WiTi/WiTi.cpp:76 | `cost < memory[i]` and `total_penalty < best_cost` against a cell that may still hold INT_MAX: every integer is below the sentinel |
| Tasks.Time | WiTi/WiTi.cpp:117-119 | the completion time of the last job when the jobs run back to back from time 0, as `current_time` accumulates it |
| Tasks.TotalTardiness | WiTi/WiTi.cpp:117-121 | the sum of each job's penalty at its completion time, as `total_penalty` accumulates it |
| Tasks.PenaltyMonotone | WiTi/WiTi.cpp:51-53 | for a non-negative weight, finishing later never costs less |
| Tasks.TotalTardinessNonNegative | WiTi/WiTi.cpp:117-121 | with non-negative weights the simulated total penalty of any order is non-negative |
| Tasks.Range | WiTi/WiTi.cpp:108-111 | the starting permutation has `n` entries and entry `k` is `k` |
| Tasks.OrderingIsPermutation | WiTi/WiTi.cpp:108-132 | running each job index exactly once is the same as being a permutation of `0 .. n-1`, in both directions |
| Tasks.OrderingCoversJobs | WiTi/WiTi.cpp:108-132 | an ordering has `n` entries and contains every job index |
| Tasks.Ids | WiTi/WiTi.cpp:126-128 | the ids pushed for an order keep its length, and entry `k` is the `number` of the job at position `k` |
| Tasks.IdsPermutation | WiTi/WiTi.cpp:126-128 | rearranging job indices rearranges their ids the same way (equal multisets of indices give equal multisets of ids) |
| Tasks.OrderingIds | WiTi/WiTi.cpp:91-94 | the ids of an ordering are `n` ids forming, as a multiset, exactly the ids of all jobs |
| Tasks.Reversed | WiTi/WiTi.cpp:94 | `std::reverse`: same length, entry `k` is entry `len-1-k` of the input |
| Masks.Pow2 | WiTi/WiTi.cpp:58 | `1 << k`, at least 1 |
| Masks.Full | WiTi/WiTi.cpp:87 | `(1 << n) - 1`, the mask of all `n` jobs |
| Masks.Bit | WiTi/WiTi.cpp:66 | a set bit `k` means the mask is at least `1 << k` |
| Masks.ClearBit | WiTi/WiTi.cpp:74 | `i & ~(1 << j)` for a set bit `j` keeps every other bit and clears bit `j`, both directions |
| Masks.ListsEmpty | WiTi/WiTi.cpp:89 | the empty order runs exactly the masks with no job below `n`, both directions |
| Masks.ListsPop | WiTi/WiTi.cpp:90-92 | the last job of an order of mask `m` is a member of `m`, and the rest runs `m` with that job cleared |
| Masks.ListsPush | WiTi/WiTi.cpp:90-92 | appending a member `j` to an order of `m` without `j` gives an order of `m` |
| Masks.SomeBitBelow | WiTi/WiTi.cpp:72-73 | every non-zero mask below `1 << n` has a set bit below `n` |
| Masks.FullBits | WiTi/WiTi.cpp:87 | `(1 << n) - 1` has every bit below `n` set |
| Masks.FullLists | WiTi/WiTi.cpp:87 | an order runs the full mask exactly when it runs each of `0 .. n-1` once, both directions |
| DynamicProgramming.SumP | WiTi/WiTi.cpp:64-69 | `c` after the first inner loop has looked at jobs `0 .. k-1`: the sum of `p` over those in the mask |
| DynamicProgramming.Completion | WiTi/WiTi.cpp:64-69 | `c` after the whole first inner loop: the sum of `p` over all jobs of the mask |
| DynamicProgramming.Opt | WiTi/WiTi.cpp:58-81 | the value `memory[i]` ends with: the best candidate's cost, or 0 for the empty mask |
| DynamicProgramming.Candidate | WiTi/WiTi.cpp:74-75 | `cost` for job `j` last: the table value of the mask without `j` plus `j`'s penalty at `c` |
| DynamicProgramming.Best | WiTi/WiTi.cpp:72-81 | the `(memory[i], PI[i])` pair after the second inner loop has tried jobs `0 .. k-1`, replacing only on a strictly smaller cost |
| DynamicProgramming.BestReached | WiTi/WiTi.cpp:72-81 | a mask keeps the INT_MAX cost after trying jobs `0 .. k-1` exactly when none of them is in it, both directions |
| DynamicProgramming.BestLastIsMember | WiTi/WiTi.cpp:76-79 | the job recorded in `PI` is a set bit of the mask |
| DynamicProgramming.BestIsFirstMinimum | WiTi/WiTi.cpp:72-81 | the recorded cost is the candidate of the recorded job, is no more than every candidate, and is strictly less than every candidate of a lower-indexed member: the strict `<` keeps the lowest minimising job |
| DynamicProgramming.NonEmptyReached | WiTi/WiTi.cpp:63-81 | every non-empty mask below `1 << n` gets a cost and a last job, so the sentinel is never read for it |
| DynamicProgramming.EmptySubset | WiTi/WiTi.cpp:58-60 | the empty mask is never updated and its cost is 0 |
| DynamicProgramming.SumPClear | WiTi/WiTi.cpp:64-69 | the processing-time sum of a mask is that of the mask without `j` plus `p` of `j` |
| DynamicProgramming.SumPEmpty | WiTi/WiTi.cpp:64-69 | a mask with no jobs sums to 0 |
| DynamicProgramming.TimeIsCompletion | WiTi/WiTi.cpp:64-69 | `c`, the sum of `p` over the mask's bits, is the completion time of any order that runs exactly that mask, so it does not depend on the order |
| DynamicProgramming.Reconstruct | WiTi/WiTi.cpp:86-94 | the order encoded by `PI` for a mask lists valid job indices and runs exactly the jobs of the mask, each once |
| DynamicProgramming.ReconstructStep | WiTi/WiTi.cpp:89-92 | the encoded order of a non-empty mask ends with its recorded job, after the encoded order of the mask without it |
| DynamicProgramming.ReconstructCost | WiTi/WiTi.cpp:75-77 | the cost the table holds for a mask is the total tardiness of the order it encodes |
| DynamicProgramming.OptIsLowerBound | WiTi/WiTi.cpp:72-81 | the table cost of a mask is at most the total tardiness of every order that runs exactly that mask |
| DynamicProgramming.Schedule | WiTi/WiTi.cpp:86-94 | the order the `PI` table encodes for the full mask, as valid job indices |
| DynamicProgramming.ScheduleIsOptimal | WiTi/WiTi.cpp:86-96 | the order rebuilt from the full mask is an ordering of all jobs, its cost is the table's full-mask cost, and no ordering costs less |
| DynamicProgramming.EmptyInstance | WiTi/WiTi.cpp:56-60 | with no jobs the cost is 0 and the order is empty |
| DynamicProgramming.FillTables | WiTi/WiTi.cpp:58-82 | the tables are new arrays of `1 << n` cells; afterwards every `memory` cell holds the optimum of its mask and every `PI` cell the job the strict-minimum rule picks (or -1 for the empty mask) |
| DynamicProgramming.FilledIsWalkTable | WiTi/WiTi.cpp:76-79 | in the filled `PI` every non-empty mask records one of its own jobs, so the walk back is well defined |
| DynamicProgramming.Walk | WiTi/WiTi.cpp:89-93 | the ids the while loop pushes from mask `m`, in push order: the recorded job's id, then those pushed from the mask without it |
| DynamicProgramming.ReversedCons | WiTi/WiTi.cpp:94 | reversing moves the first pushed id to the end |
| DynamicProgramming.IdsSnoc | WiTi/WiTi.cpp:91 | appending a job appends its id |
| DynamicProgramming.ReversedWalkStep | WiTi/WiTi.cpp:89-94 | reversed, the walk from a non-empty mask is the reversed walk from the mask without its recorded job, then that job's id |
| DynamicProgramming.IdsReconstructStep | WiTi/WiTi.cpp:89-92 | the ids of a mask's encoded order are those of the mask without its last job, then that job's id |
| DynamicProgramming.WalkRebuildsStep | WiTi/WiTi.cpp:89-93 | one step of the walk back extends the rebuilt order by the recorded job |
| DynamicProgramming.WalkRebuilds | WiTi/WiTi.cpp:86-94 | walking the filled `PI` back from a mask and reversing gives the ids of the order the table encodes for that mask |
| DynamicProgramming.Rebuild | WiTi/WiTi.cpp:86-94 | the loop terminates and returns the reversed sequence of ids the walk pushes from the full mask |
| DynamicProgramming.PD | WiTi/WiTi.cpp:55-97 | the returned cost is the full-mask optimum; the returned ids are those of an ordering of all jobs whose total tardiness is that cost, so they are `n` ids forming, as a multiset, the ids of all jobs; no ordering costs less; with no jobs the result is `(0, [])` |
| Permutations.Arrangements | WiTi/WiTi.cpp:113-132 | every arrangement of `xs`, grouped by first entry in the order of `xs` |
| Permutations.ArrangementsFrom | WiTi/WiTi.cpp:113-132 | the arrangements of `xs` whose first entry is one of `xs[i..]`, in that order |
| Permutations.AllOrders | WiTi/WiTi.cpp:108-132 | the states `indices` takes in the do/while: the arrangements of `0 .. n-1` |
| Permutations.LexLess | WiTi/WiTi.cpp:132 | `std::lexicographical_compare`, the order in which `std::next_permutation` steps |
| Permutations.Remove | WiTi/WiTi.cpp:132 | dropping entry `i` leaves one entry fewer and the same multiset without `xs[i]` |
| Permutations.Prepend | WiTi/WiTi.cpp:132 | each listed sequence gets the same first entry, with the list's length kept |
| Permutations.LexLessAsymmetric | WiTi/WiTi.cpp:132 | lexicographic "comes before" is irreflexive and asymmetric |
| Permutations.LexLessPrepend | WiTi/WiTi.cpp:132 | a common first entry keeps the lexicographic order |
| Permutations.RemoveIncreasing | WiTi/WiTi.cpp:132 | removing an entry keeps a sorted sequence strictly sorted |
| Permutations.ArrangementsSound | WiTi/WiTi.cpp:132 | every listed arrangement is a permutation of the input |
| Permutations.ArrangementsComplete | WiTi/WiTi.cpp:132 | every permutation of a strictly sorted input is listed |
| Permutations.ArrangementsSorted | WiTi/WiTi.cpp:132 | the arrangements of a strictly sorted input are in strictly increasing lexicographic order, as `std::next_permutation` visits them |
| Permutations.ArrangementsFromHeads | WiTi/WiTi.cpp:132 | each arrangement in the tail of the list starting at position `i` begins with an entry no smaller than `xs[i]` |
| Permutations.ConcatSorted | WiTi/WiTi.cpp:132 | two sorted lists, all of the first before all of the second, make a sorted list |
| Permutations.FirstArrangement | WiTi/WiTi.cpp:108-113 | the first arrangement of a sorted input is the input itself, the order the do/while starts from |
| Permutations.AllOrdersFacts | WiTi/WiTi.cpp:108-132 | the visited orders are exactly the orderings of the `n` jobs, each with `n` entries; the first is `0, 1, ..., n-1`; they come in strictly increasing lexicographic order; and no order is visited twice |
| BruteForce.Costs | WiTi/WiTi.cpp:113-121 | the simulated total penalty of each visited order, position by position |
| BruteForce.FirstLeast | WiTi/WiTi.cpp:124-130 | the strict-improvement rule settles on a position whose cost is no more than any cost seen, and strictly less than every cost seen before it |
| BruteForce.FirstLeastNext | WiTi/WiTi.cpp:124-130 | one more order seen: the kept position moves to it exactly when it is strictly cheaper |
| BruteForce.Chosen | WiTi/WiTi.cpp:113-132 | the order the search keeps is an ordering of all jobs |
| BruteForce.ChosenIsOptimal | WiTi/WiTi.cpp:113-132 | the kept order costs no more than any ordering of the jobs |
| BruteForce.ChosenIsLexFirst | WiTi/WiTi.cpp:124-132 | among the orderings of least cost, the kept one comes lexicographically first |
| BruteForce.AgreesWithDynamicProgramming | WiTi/WiTi.cpp:55-135 | the exhaustive search and the dynamic programme find the same optimal cost |
| BruteForce.VisitedAt | WiTi/WiTi.cpp:113-132 | every ordering of the jobs is visited at some step of the do/while |
| BruteForce.VisitedInOrder | WiTi/WiTi.cpp:132 | an order visited earlier is lexicographically before one visited later |
| BruteForce.VisitedIsOrdering | WiTi/WiTi.cpp:108-132 | each visited state of `indices` is an ordering of all jobs |
| BruteForce.ChosenSummary | WiTi/WiTi.cpp:113-134 | the kept order is optimal, costs what `PD` finds, has one id per job, and is empty with cost 0 when there are no jobs |
| BruteForce.OrdersValid | WiTi/WiTi.cpp:108-132 | there is at least one order to visit, and every visited order has `n` valid job indices |
| BruteForce.Simulate | WiTi/WiTi.cpp:114-121 | the loop accumulates exactly the total tardiness of the order |
| BruteForce.CopyIds | WiTi/WiTi.cpp:125-128 | `best_order` is cleared and refilled with one id per position, the `number` of the job at that position |
| BruteForce.Search | WiTi/WiTi.cpp:100-135 | returns the cost and the ids of the first least-cost order visited; that cost is no more than any ordering's and equals `PD`'s; the ids are `n` ids forming, as a multiset, the ids of all jobs; with no jobs the result is `(0, [])` |

## Left out

- `load_tasks` (file reading and console messages) and `main` (timing,
  printing, and accumulation into a `double` vector) are I/O and reporting
  code. They are not part of this model.
- Fixed-width `int` arithmetic. All costs, times and sums are unbounded
  integers, so overflow in `c`, `cost`, `current_time` and `total_penalty`
  is not modelled. The INT_MAX sentinel is the `Bound` value `Infinity`, so
  the model does not reproduce the case where a real cost reaches INT_MAX
  and is then treated as unreached.
- DynamicProgramming.PD: it requires at most 30 jobs, because `1 << n` is a
  32-bit `int` shift in the source. The mask arithmetic itself is on
  unbounded naturals.
- `std::next_permutation`: the in-place successor algorithm on `indices` is
  not modelled. The do/while is modelled as a loop over `AllOrders(n)`, which
  is proved to hold every ordering once, to start at `0 .. n-1`, and to be
  in strictly increasing lexicographic order. This is the sequence of states
  that `next_permutation` goes through from the sorted start until it
  returns `false`.
- `std::vector` updates are modelled as follows. `memory` and `PI` are
  arrays updated in place. `order`, `best_order` and `indices` are sequences
  that are reassigned.
- The unused vector `order(n)` in `brute_force` is left out.
- Negative processing times and weights are not excluded. Every result
  holds for all integers, except the two lemmas that say so: `PenaltyMonotone`
  and `TotalTardinessNonNegative` need `w >= 0`.
