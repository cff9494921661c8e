/** The orders `std::next_permutation` steps through when it starts from the
    sorted job indices: every arrangement of them, each once, in increasing
    lexicographic order. */
module Permutations {
  import opened Tasks

  /** `xs` without its `i`-th entry. */
  function Remove(xs: seq<nat>, i: nat): (r: seq<nat>)
    requires i < |xs|
    ensures |r| == |xs| - 1
    ensures multiset(r) + multiset{xs[i]} == multiset(xs)
  {
    assert xs == xs[..i] + [xs[i]] + xs[i + 1..];
    xs[..i] + xs[i + 1..]
  }

  /** Every sequence of `ps`, with `x` put in front. */
  function Prepend(x: nat, ps: seq<seq<nat>>): (r: seq<seq<nat>>)
    ensures |r| == |ps|
    ensures forall k :: 0 <= k < |ps| ==> r[k] == [x] + ps[k]
  {
    if ps == [] then [] else [[x] + ps[0]] + Prepend(x, ps[1..])
  }

  /** All arrangements of `xs`: for each position `i` in turn, `xs[i]`
      followed by every arrangement of the other entries. */
  function Arrangements(xs: seq<nat>): seq<seq<nat>>
    decreases |xs|, 1, 0
  {
    if xs == [] then [[]] else ArrangementsFrom(xs, 0)
  }

  /** The arrangements of `xs` that start with one of `xs[i..]`, in that
      order. */
  function ArrangementsFrom(xs: seq<nat>, i: nat): seq<seq<nat>>
    requires i <= |xs|
    decreases |xs|, 0, |xs| - i
  {
    if i == |xs| then []
    else Prepend(xs[i], Arrangements(Remove(xs, i))) + ArrangementsFrom(xs, i + 1)
  }

  /** The orders of `n` jobs in the order the brute-force search visits
      them. */
  function AllOrders(n: nat): seq<seq<nat>> {
    Arrangements(Range(n))
  }

  /** `std::lexicographical_compare`: `a` comes strictly before `b`. */
  predicate LexLess(a: seq<nat>, b: seq<nat>) {
    if b == [] then false
    else if a == [] then true
    else a[0] < b[0] || (a[0] == b[0] && LexLess(a[1..], b[1..]))
  }

  /** Each sequence of `ps` comes strictly before every later one. */
  predicate LexSorted(ps: seq<seq<nat>>) {
    forall a, b :: 0 <= a < b < |ps| ==> LexLess(ps[a], ps[b])
  }

  /** Strictly increasing, as the sorted job indices are. */
  predicate Increasing(xs: seq<nat>) {
    forall a, b :: 0 <= a < b < |xs| ==> xs[a] < xs[b]
  }

  /** No sequence comes strictly before itself or before one that comes
      strictly before it. */
  lemma {:induction false} LexLessAsymmetric(a: seq<nat>, b: seq<nat>)
    ensures !(LexLess(a, b) && LexLess(b, a))
    decreases |a|
  {
    if a != [] && b != [] && a[0] == b[0] {
      LexLessAsymmetric(a[1..], b[1..]);
    }
  }

  /** Putting the same entry in front keeps the lexicographic order. */
  lemma LexLessPrepend(x: nat, a: seq<nat>, b: seq<nat>)
    requires LexLess(a, b)
    ensures LexLess([x] + a, [x] + b)
  {
    assert ([x] + a)[1..] == a;
    assert ([x] + b)[1..] == b;
  }

  /** Removing an entry of a strictly increasing sequence leaves it
      strictly increasing. */
  lemma RemoveIncreasing(xs: seq<nat>, i: nat)
    requires Increasing(xs) && i < |xs|
    ensures Increasing(Remove(xs, i))
  {
    var r := Remove(xs, i);
    forall a, b | 0 <= a < b < |r| ensures r[a] < r[b] {
      var a' := if a < i then a else a + 1;
      var b' := if b < i then b else b + 1;
      assert r[a] == xs[a'] && r[b] == xs[b'];
    }
  }

  /** Every arrangement of `xs` runs exactly the entries of `xs`. */
  lemma {:induction false} ArrangementsSound(xs: seq<nat>)
    ensures forall k :: 0 <= k < |Arrangements(xs)| ==> multiset(Arrangements(xs)[k]) == multiset(xs)
    decreases |xs|, 1, 0
  {
    if xs != [] {
      ArrangementsFromSound(xs, 0);
    }
  }

  /** Every sequence listed by `ArrangementsFrom(xs, i)` runs exactly the
      entries of `xs`. */
  lemma {:induction false} ArrangementsFromSound(xs: seq<nat>, i: nat)
    requires i <= |xs|
    ensures forall k :: 0 <= k < |ArrangementsFrom(xs, i)| ==>
              multiset(ArrangementsFrom(xs, i)[k]) == multiset(xs)
    decreases |xs|, 0, |xs| - i
  {
    if i < |xs| {
      var rest := Remove(xs, i);
      var front := Prepend(xs[i], Arrangements(rest));
      var back := ArrangementsFrom(xs, i + 1);
      ArrangementsSound(rest);
      ArrangementsFromSound(xs, i + 1);
      forall k | 0 <= k < |front + back| ensures multiset((front + back)[k]) == multiset(xs) {
        if k < |front| {
          var q := Arrangements(rest)[k];
          assert (front + back)[k] == [xs[i]] + q;
          assert multiset([xs[i]] + q) == multiset{xs[i]} + multiset(q);
        } else {
          assert (front + back)[k] == back[k - |front|];
        }
      }
    }
  }

  /** Everything `Prepend(xs[i], ...)` lists for a position `i` at or after
      `j` is listed by `ArrangementsFrom(xs, j)`. */
  lemma {:induction false} ArrangementsFromContains(xs: seq<nat>, j: nat, i: nat, p: seq<nat>)
    requires j <= i < |xs|
    requires p in Prepend(xs[i], Arrangements(Remove(xs, i)))
    ensures p in ArrangementsFrom(xs, j)
    decreases i - j
  {
    if j < i {
      ArrangementsFromContains(xs, j + 1, i, p);
    }
  }

  /** Every arrangement of a strictly increasing `xs` is listed. */
  lemma {:induction false} ArrangementsComplete(xs: seq<nat>, p: seq<nat>)
    requires Increasing(xs) && multiset(p) == multiset(xs)
    ensures p in Arrangements(xs)
    decreases |xs|
  {
    assert |p| == |multiset(p)| == |xs|;
    if xs == [] {
      assert p == [];
    } else {
      assert p[0] in multiset(xs);
      var i :| 0 <= i < |xs| && xs[i] == p[0];
      var rest := Remove(xs, i);
      var tail := p[1..];
      assert p == [p[0]] + tail;
      assert multiset(tail) == multiset(rest) by {
        assert multiset(tail) + multiset{p[0]} == multiset(rest) + multiset{p[0]};
        Cancel(multiset(tail), multiset(rest), p[0]);
      }
      RemoveIncreasing(xs, i);
      ArrangementsComplete(rest, tail);
      var k :| 0 <= k < |Arrangements(rest)| && Arrangements(rest)[k] == tail;
      assert Prepend(xs[i], Arrangements(rest))[k] == p;
      ArrangementsFromContains(xs, 0, i, p);
    }
  }

  /** Listing a sorted sequence with the same entry put in front keeps it
      sorted. */
  lemma PrependSorted(x: nat, ps: seq<seq<nat>>)
    requires LexSorted(ps)
    ensures LexSorted(Prepend(x, ps))
  {
    var r := Prepend(x, ps);
    forall a, b | 0 <= a < b < |r| ensures LexLess(r[a], r[b]) {
      LexLessPrepend(x, ps[a], ps[b]);
    }
  }

  /** The arrangements of a strictly increasing `xs` come in strictly
      increasing lexicographic order. */
  lemma {:induction false} ArrangementsSorted(xs: seq<nat>)
    requires Increasing(xs)
    ensures LexSorted(Arrangements(xs))
    decreases |xs|, 1, 0
  {
    if xs != [] {
      ArrangementsFromSorted(xs, 0);
    }
  }

  /** Each sequence `ArrangementsFrom(xs, i)` lists starts with one of
      `xs[i..]`, so with an entry no smaller than `xs[i]`. */
  lemma {:induction false} ArrangementsFromHeads(xs: seq<nat>, i: nat)
    requires Increasing(xs) && i <= |xs|
    ensures forall k :: 0 <= k < |ArrangementsFrom(xs, i)| ==>
              i < |xs| && ArrangementsFrom(xs, i)[k] != [] && xs[i] <= ArrangementsFrom(xs, i)[k][0]
    decreases |xs| - i
  {
    if i < |xs| {
      var front := Prepend(xs[i], Arrangements(Remove(xs, i)));
      var back := ArrangementsFrom(xs, i + 1);
      var all := ArrangementsFrom(xs, i);
      assert all == front + back;
      ArrangementsFromHeads(xs, i + 1);
      forall k | 0 <= k < |all| ensures all[k] != [] && xs[i] <= all[k][0] {
        if k < |front| {
          var q := Arrangements(Remove(xs, i))[k];
          assert all[k] == [xs[i]] + q;
        } else {
          var b := back[k - |front|];
          assert all[k] == b;
          assert i + 1 < |xs| && xs[i + 1] <= b[0];
          assert xs[i] < xs[i + 1];
        }
      }
    } else {
      assert ArrangementsFrom(xs, i) == [];
    }
  }

  /** Two sorted lists, each of whose entries in the first comes before
      each in the second, make a sorted list. */
  lemma ConcatSorted(front: seq<seq<nat>>, back: seq<seq<nat>>)
    requires LexSorted(front) && LexSorted(back)
    requires forall a, b :: 0 <= a < |front| && 0 <= b < |back| ==> LexLess(front[a], back[b])
    ensures LexSorted(front + back)
  {
    var all := front + back;
    forall a, b | 0 <= a < b < |all| ensures LexLess(all[a], all[b]) {
      if b < |front| {
        assert all[a] == front[a] && all[b] == front[b];
      } else if a >= |front| {
        assert all[a] == back[a - |front|] && all[b] == back[b - |front|];
      } else {
        assert all[a] == front[a] && all[b] == back[b - |front|];
      }
    }
  }

  /** `ArrangementsFrom(xs, i)` lists its sequences in strictly increasing
      lexicographic order. */
  lemma {:induction false} ArrangementsFromSorted(xs: seq<nat>, i: nat)
    requires Increasing(xs) && i <= |xs|
    ensures LexSorted(ArrangementsFrom(xs, i))
    decreases |xs|, 0, |xs| - i
  {
    if i < |xs| {
      var rest := Remove(xs, i);
      var front := Prepend(xs[i], Arrangements(rest));
      var back := ArrangementsFrom(xs, i + 1);
      assert LexSorted(front) by {
        RemoveIncreasing(xs, i);
        ArrangementsSorted(rest);
        PrependSorted(xs[i], Arrangements(rest));
      }
      ArrangementsFromSorted(xs, i + 1);
      forall a, b | 0 <= a < |front| && 0 <= b < |back| ensures LexLess(front[a], back[b]) {
        ArrangementsFromHeads(xs, i + 1);
        assert front[a] == [xs[i]] + Arrangements(rest)[a];
        assert xs[i] < xs[i + 1] <= back[b][0];
      }
      ConcatSorted(front, back);
    }
  }

  /** The arrangements of a strictly increasing `xs` start with `xs`
      itself. */
  lemma {:induction false} FirstArrangement(xs: seq<nat>)
    requires Increasing(xs)
    ensures |Arrangements(xs)| > 0 && Arrangements(xs)[0] == xs
    decreases |xs|
  {
    if xs != [] {
      var rest := Remove(xs, 0);
      assert rest == xs[1..];
      RemoveIncreasing(xs, 0);
      FirstArrangement(rest);
      assert ArrangementsFrom(xs, 0)[0] == Prepend(xs[0], Arrangements(rest))[0];
      assert [xs[0]] + xs[1..] == xs;
    }
  }

  /** The orders visited are exactly the orderings of the `n` jobs: each
      one is an ordering, every ordering is visited, the first is the
      identity order, and each is visited before every lexicographically
      larger one. */
  lemma AllOrdersFacts(tasks: seq<Task>)
    ensures forall k :: 0 <= k < |AllOrders(|tasks|)| ==>
              IsOrdering(tasks, AllOrders(|tasks|)[k]) && |AllOrders(|tasks|)[k]| == |tasks|
    ensures forall s :: IsOrdering(tasks, s) ==> s in AllOrders(|tasks|)
    ensures |AllOrders(|tasks|)| > 0 && AllOrders(|tasks|)[0] == Range(|tasks|)
    ensures LexSorted(AllOrders(|tasks|))
    ensures forall a, b :: 0 <= a < b < |AllOrders(|tasks|)| ==> AllOrders(|tasks|)[a] != AllOrders(|tasks|)[b]
  {
    var n := |tasks|;
    var orders := AllOrders(n);
    assert Increasing(Range(n));
    ArrangementsSound(Range(n));
    forall k | 0 <= k < |orders| ensures IsOrdering(tasks, orders[k]) && |orders[k]| == n {
      var p := orders[k];
      assert multiset(p) == multiset(Range(n));
      assert |p| == |multiset(p)| == |multiset(Range(n))| == n;
      forall t | 0 <= t < |p| ensures p[t] < |tasks| {
        assert p[t] in multiset(Range(n));
      }
      OrderingIsPermutation(tasks, p);
    }
    forall s | IsOrdering(tasks, s) ensures s in orders {
      OrderingIsPermutation(tasks, s);
      ArrangementsComplete(Range(n), s);
    }
    FirstArrangement(Range(n));
    ArrangementsSorted(Range(n));
    forall a, b | 0 <= a < b < |orders| ensures orders[a] != orders[b] {
      LexLessAsymmetric(orders[a], orders[a]);
    }
  }
}
