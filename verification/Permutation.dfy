/** The order in which text records are compressed: in steps of 2048, column by column. */
module Permutation {
  import opened Arith

  const PERMSTEP: nat := 2048

  function PermNext(i: nat, n: nat): (j: nat)
    requires i < n
    ensures j < n
  {
    if i + PERMSTEP < n then i + PERMSTEP else Wrap((i + PERMSTEP + 1) % PERMSTEP, n)
  }

  function Wrap(x: nat, n: nat): (r: nat)
    requires 0 < n
    ensures r < n
  {
    x % n
  }

  lemma Wrapped(x: nat, n: nat)
    requires 0 < n && x <= n
    ensures Wrap(x, n) == if x < n then x else 0
  {
    if x < n {
      SmallMod(x, n);
    }
  }

  /** The record after p steps from the first. */
  function Perm(p: nat, n: nat): (i: nat)
    requires 0 < n
    ensures i < n
  {
    if p == 0 then 0 else PermNext(Perm(p - 1, n), n)
  }

  /** An instance: 5000 records are taken in the order 0, 2048, 4096, 1 and so on. */
  lemma OrderBegins()
    ensures Perm(0, 5000) == 0 && Perm(1, 5000) == 2048 && Perm(2, 5000) == 4096 && Perm(3, 5000) == 1
  {
    assert Perm(1, 5000) == PermNext(Perm(0, 5000), 5000);
    assert Perm(2, 5000) == PermNext(Perm(1, 5000), 5000);
    assert Perm(3, 5000) == PermNext(Perm(2, 5000), 5000);
  }

  /** How many records come before column j. */
  function Before(j: nat, n: nat): nat {
    j * (n / PERMSTEP) + if j < n % PERMSTEP then j else n % PERMSTEP
  }

  /** The place of a record in the order. */
  function Rank(i: nat, n: nat): nat {
    Before(i % PERMSTEP, n) + i / PERMSTEP
  }

  lemma BeforeNext(j: nat, n: nat)
    ensures Before(j + 1, n) == Before(j, n) + n / PERMSTEP + if j < n % PERMSTEP then 1 else 0
  {
    var q := n / PERMSTEP;
    assert (j + 1) * q == j * q + q;
  }

  lemma BeforeAll(n: nat)
    ensures Before(0, n) == 0 && Before(PERMSTEP, n) == n
    ensures n < PERMSTEP ==> Before(n, n) == n
  {
  }

  lemma {:induction false} BeforeMonotone(j: nat, k: nat, n: nat)
    requires j <= k
    ensures Before(j, n) <= Before(k, n)
    decreases k
  {
    if j < k {
      BeforeNext(k - 1, n);
      BeforeMonotone(j, k - 1, n);
    }
  }

  /** The last record of a column is followed by the next column's. */
  lemma LastOfColumn(i: nat, n: nat)
    requires i < n
    ensures Rank(i, n) + 1 <= Before(i % PERMSTEP + 1, n)
    ensures i + PERMSTEP >= n ==> Rank(i, n) + 1 == Before(i % PERMSTEP + 1, n)
  {
    hide Before;
    BeforeNext(i % PERMSTEP, n);
  }

  /** A step goes to the next place, and from the last place to the first record. */
  lemma NextRank(i: nat, n: nat)
    requires i < n
    ensures Rank(i, n) < n
    ensures Rank(PermNext(i, n), n) == if Rank(i, n) + 1 == n then 0 else Rank(i, n) + 1
    ensures Rank(i, n) + 1 == n ==> PermNext(i, n) == 0
  {
    hide Before, Wrap;
    var j := i % PERMSTEP;
    LastOfColumn(i, n);
    BeforeAll(n);
    BeforeMonotone(j + 1, PERMSTEP, n);
    if i + PERMSTEP < n {
      assert (i + PERMSTEP) % PERMSTEP == j && (i + PERMSTEP) / PERMSTEP == i / PERMSTEP + 1;
      LastOfColumn(i + PERMSTEP, n);
      BeforeMonotone(j + 1, PERMSTEP, n);
    } else {
      assert (i + PERMSTEP + 1) % PERMSTEP == if j + 1 == PERMSTEP then 0 else j + 1;
      Wrapped((i + PERMSTEP + 1) % PERMSTEP, n);
      if j + 1 < PERMSTEP && j + 1 < n {
        NotLastColumn(j + 1, n);
      }
    }
  }

  lemma NotLastColumn(j: nat, n: nat)
    requires j < PERMSTEP && j < n
    ensures Before(j, n) < n && j % PERMSTEP == j && j / PERMSTEP == 0
  {
    hide Before;
    BeforeNext(j, n);
    BeforeMonotone(j + 1, PERMSTEP, n);
    BeforeAll(n);
  }

  lemma RankInjective(a: nat, b: nat, n: nat)
    requires a < n && b < n && Rank(a, n) == Rank(b, n)
    ensures a == b
  {
    hide Before;
    var j, k := a % PERMSTEP, b % PERMSTEP;
    LastOfColumn(a, n);
    LastOfColumn(b, n);
    if j < k {
      BeforeMonotone(j + 1, k, n);
    } else if k < j {
      BeforeMonotone(k + 1, j, n);
    }
  }

  lemma {:induction false} PermRank(p: nat, n: nat)
    requires p < n
    ensures Rank(Perm(p, n), n) == p
    decreases p
  {
    hide Rank;
    if p == 0 {
      FirstRank(n);
    } else {
      PermRank(p - 1, n);
      NextRank(Perm(p - 1, n), n);
    }
  }

  lemma FirstRank(n: nat)
    ensures Rank(0, n) == 0
  {
  }

  /** The walk from the first record meets every record exactly once and ends where it began. */
  lemma WalkIsPermutation(n: nat)
    requires n > 0
    ensures forall p, q :: 0 <= p < n && 0 <= q < n && Perm(p, n) == Perm(q, n) ==> p == q
    ensures forall i :: 0 <= i < n ==> Rank(i, n) < n && Perm(Rank(i, n), n) == i
    ensures Perm(n, n) == 0
  {
    hide Rank, Perm;
    forall p | 0 <= p < n ensures Rank(Perm(p, n), n) == p {
      PermRank(p, n);
    }
    forall i | 0 <= i < n ensures Rank(i, n) < n && Perm(Rank(i, n), n) == i {
      NextRank(i, n);
      PermRank(Rank(i, n), n);
      RankInjective(Perm(Rank(i, n), n), i, n);
    }
    PermRank(n - 1, n);
    NextRank(Perm(n - 1, n), n);
    PermStep(n, n);
  }

  lemma PermStep(p: nat, n: nat)
    requires 0 < n && 0 < p
    ensures Perm(p, n) == PermNext(Perm(p - 1, n), n) && Perm(0, n) == 0
  {
  }

  /** The sum over the records at the first p places; over all records it does not depend on the order. */
  function PermSum(f: seq<nat>, p: nat): nat
    requires 0 < |f|
  {
    if p == 0 then 0 else PermSum(f, p - 1) + f[Perm(p - 1, |f|)]
  }

  /** The part of a sum over records whose place is below p. */
  function PlacedSum(f: seq<nat>, k: nat, p: nat): nat
    requires k <= |f|
  {
    if k == 0 then 0 else PlacedSum(f, k - 1, p) + if Rank(k - 1, |f|) < p then f[k - 1] else 0
  }

  lemma {:induction false} PlacedAll(f: seq<nat>, k: nat)
    requires k <= |f|
    ensures PlacedSum(f, k, |f|) == SumTo(f, k) && PlacedSum(f, k, 0) == 0
  {
    hide Rank;
    if k > 0 {
      PlacedAll(f, k - 1);
      NextRank(k - 1, |f|);
    }
  }

  lemma {:induction false} PlacedOneMore(f: seq<nat>, k: nat, p: nat)
    requires k <= |f| && p < |f|
    ensures PlacedSum(f, k, p + 1) == PlacedSum(f, k, p) + if Perm(p, |f|) < k then f[Perm(p, |f|)] else 0
  {
    hide Rank, Perm;
    if k > 0 {
      PlacedOneMore(f, k - 1, p);
      PermRank(p, |f|);
      if Rank(k - 1, |f|) == p {
        RankInjective(Perm(p, |f|), k - 1, |f|);
      }
    }
  }

  lemma {:induction false} PermSumPlaced(f: seq<nat>, p: nat)
    requires 0 < |f| && p <= |f|
    ensures PermSum(f, p) == PlacedSum(f, |f|, p)
  {
    hide PlacedSum, Perm;
    if p == 0 {
      PlacedAll(f, |f|);
    } else {
      PermSumPlaced(f, p - 1);
      PlacedOneMore(f, |f|, p - 1);
    }
  }

  lemma SameSum(f: seq<nat>)
    requires 0 < |f|
    ensures PermSum(f, |f|) == SumTo(f, |f|)
  {
    PermSumPlaced(f, |f|);
    PlacedAll(f, |f|);
  }
}
