/** Subsets of jobs encoded as bit masks over the natural numbers:
    subset `m` holds job `j` exactly when bit `j` of `m` is set. */
module Masks {
  import opened Tasks

  /** `1 << k`. */
  function Pow2(k: nat): (r: nat)
    ensures r >= 1
  {
    if k == 0 then 1 else 2 * Pow2(k - 1)
  }

  /** `m & (1 << k) != 0`: bit `k` of `m` is set. A set bit is worth at
      least its own power of two. */
  function Bit(m: nat, k: nat): (b: bool)
    ensures b ==> Pow2(k) <= m
  {
    if k == 0 then m % 2 == 1 else Bit(m / 2, k - 1)
  }

  /** `(1 << n) - 1`: the mask of all `n` jobs. */
  function Full(n: nat): nat {
    Pow2(n) - 1
  }

  /** `i & ~(1 << j)` for a set bit `j` is `i - (1 << j)`: bit `j` is
      cleared and every other bit is kept. */
  lemma {:induction false} ClearBit(m: nat, j: nat, k: nat)
    requires Bit(m, j)
    ensures Bit(m - Pow2(j), k) <==> Bit(m, k) && k != j
  {
    var r := m - Pow2(j);
    if j == 0 {
      assert m % 2 == 1;
      if k > 0 {
        assert r / 2 == m / 2;
      }
    } else {
      assert r % 2 == m % 2 && r / 2 == m / 2 - Pow2(j - 1);
      if k > 0 {
        ClearBit(m / 2, j - 1, k - 1);
      }
    }
  }

  /** `s` runs each job of subset `m` below `n` exactly once, and no other
      job. */
  ghost predicate Lists(s: seq<nat>, m: nat, n: nat) {
    forall x: nat :: Count(s, x) == if x < n && Bit(m, x) then 1 else 0
  }

  /** Only a subset without jobs below `n` is run by the empty order. */
  lemma ListsEmpty(m: nat, n: nat)
    ensures Lists([], m, n) ==> forall x: nat :: x < n ==> !Bit(m, x)
    ensures (forall x: nat :: x < n ==> !Bit(m, x)) ==> Lists([], m, n)
  {
    var e: seq<nat> := [];
    if forall x: nat :: x < n ==> !Bit(m, x) {
      forall x: nat ensures Count(e, x) == if x < n && Bit(m, x) then 1 else 0 {
        assert Count(e, x) == 0;
      }
    } else {
      var x: nat :| x < n && Bit(m, x);
      assert Count(e, x) == 0;
    }
  }

  /** The last job of an order of subset `m` belongs to `m`, and the rest of
      the order runs the subset with that job's bit cleared. */
  lemma ListsPop(s: seq<nat>, m: nat, n: nat)
    requires Lists(s, m, n) && s != []
    ensures s[|s| - 1] < n && Bit(m, s[|s| - 1])
    ensures Lists(s[..|s| - 1], m - Pow2(s[|s| - 1]), n)
  {
    var j := s[|s| - 1];
    var rest := s[..|s| - 1];
    assert s == rest + [j];
    assert j < n && Bit(m, j) by {
      CountSnoc(rest, j, j);
    }
    forall x: nat ensures Count(rest, x) == if x < n && Bit(m - Pow2(j), x) then 1 else 0 {
      CountSnoc(rest, j, x);
      ClearBit(m, j, x);
    }
  }

  /** Appending a member `j` of subset `m` to an order of `m` without `j`
      gives an order of `m`. */
  lemma ListsPush(s: seq<nat>, m: nat, n: nat, j: nat)
    requires j < n && Bit(m, j) && Lists(s, m - Pow2(j), n)
    ensures Lists(s + [j], m, n)
  {
    forall x: nat ensures Count(s + [j], x) == if x < n && Bit(m, x) then 1 else 0 {
      CountSnoc(s, j, x);
      ClearBit(m, j, x);
    }
  }

  /** A non-empty mask below `1 << n` holds some job below `n`. */
  lemma {:induction false} SomeBitBelow(m: nat, n: nat) returns (j: nat)
    requires 0 < m < Pow2(n)
    ensures j < n && Bit(m, j)
  {
    if m % 2 == 1 {
      j := 0;
    } else {
      var h := SomeBitBelow(m / 2, n - 1);
      j := h + 1;
    }
  }

  /** The full mask holds every job below `n`. */
  lemma {:induction false} FullBits(n: nat, k: nat)
    requires k < n
    ensures Bit(Full(n), k)
  {
    if k > 0 {
      assert Full(n) / 2 == Full(n - 1);
      FullBits(n - 1, k - 1);
    }
  }

  /** An order runs every job of the full mask exactly once when it runs
      each of the jobs 0 .. n-1 exactly once and nothing else. */
  lemma FullLists(s: seq<nat>, n: nat)
    ensures Lists(s, Full(n), n) ==> forall x: nat :: Count(s, x) == if x < n then 1 else 0
    ensures (forall x: nat :: Count(s, x) == if x < n then 1 else 0) ==> Lists(s, Full(n), n)
  {
    if Lists(s, Full(n), n) {
      forall x: nat ensures Count(s, x) == if x < n then 1 else 0 {
        if x < n {
          FullBits(n, x);
        }
      }
    }
    if forall x: nat :: Count(s, x) == if x < n then 1 else 0 {
      forall x: nat ensures Count(s, x) == if x < n && Bit(Full(n), x) then 1 else 0 {
        assert Count(s, x) == if x < n then 1 else 0;
        if x < n {
          FullBits(n, x);
        }
      }
    }
  }
}
