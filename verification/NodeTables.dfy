/** The adaptive frequency table at a node of the word graph: edges with counts, kept in descending order, and
    an escape that owns the top of the range. */
module NodeTables {
  import opened Arith
  import opened RangeCoding

  datatype Edge = Edge(sym: nat, count: nat)

  const ESC: nat := 3
  const COUNT_MAX: nat := 0xFFFF

  function CountSum(edges: seq<Edge>): nat {
    if edges == [] then 0 else CountSum(edges[..|edges| - 1]) + edges[|edges| - 1].count
  }

  ghost predicate Positive(edges: seq<Edge>) {
    forall i :: 0 <= i < |edges| ==> edges[i].count > 0
  }

  ghost predicate Descending(edges: seq<Edge>) {
    forall i, j :: 0 <= i < j < |edges| ==> edges[i].count >= edges[j].count
  }

  ghost predicate DistinctSyms(edges: seq<Edge>) {
    forall i, j :: 0 <= i < |edges| && 0 <= j < |edges| && edges[i].sym == edges[j].sym ==> i == j
  }

  ghost predicate SameSyms(a: seq<Edge>, b: seq<Edge>) {
    |a| == |b| && forall i :: 0 <= i < |a| ==> a[i].sym == b[i].sym
  }

  lemma {:induction false} CountSumUpdate(edges: seq<Edge>, i: nat, e: Edge)
    requires i < |edges|
    ensures CountSum(edges[i := e]) == CountSum(edges) - edges[i].count + e.count
    decreases |edges|
  {
    var n := |edges| - 1;
    if i < n {
      CountSumUpdate(edges[..n], i, e);
      assert edges[i := e][..n] == edges[..n][i := e];
    } else {
      assert edges[i := e][..n] == edges[..n];
    }
  }

  lemma {:induction false} CountSumPrefix(edges: seq<Edge>, i: nat)
    requires i < |edges|
    ensures CountSum(edges[..i + 1]) == CountSum(edges[..i]) + edges[i].count
    ensures CountSum(edges[..i + 1]) <= CountSum(edges)
    decreases |edges| - i
  {
    assert edges[..i + 1][..i] == edges[..i];
    if i + 1 < |edges| {
      CountSumPrefix(edges, i + 1);
    } else {
      assert edges[..i + 1] == edges;
    }
  }

  function Half(c: nat): nat {
    if c / 2 == 0 then 1 else c / 2
  }

  function Halve(edges: seq<Edge>): (h: seq<Edge>)
    ensures |h| == |edges| && forall i :: 0 <= i < |h| ==> h[i] == Edge(edges[i].sym, Half(edges[i].count))
  {
    seq(|edges|, i requires 0 <= i < |edges| => Edge(edges[i].sym, Half(edges[i].count)))
  }

  lemma {:induction false} HalveSmaller(edges: seq<Edge>)
    requires Positive(edges)
    ensures |edges| <= CountSum(Halve(edges)) <= CountSum(edges)
    ensures CountSum(edges) > |edges| ==> CountSum(Halve(edges)) < CountSum(edges)
    ensures 2 * CountSum(Halve(edges)) <= CountSum(edges) + |edges|
    decreases |edges|
  {
    if edges != [] {
      var n := |edges| - 1;
      HalveSmaller(edges[..n]);
      assert Halve(edges)[..n] == Halve(edges[..n]);
    }
  }

  lemma HalveKeeps(edges: seq<Edge>)
    requires Positive(edges) && Descending(edges)
    ensures Positive(Halve(edges)) && Descending(Halve(edges)) && SameSyms(Halve(edges), edges)
  {
  }

  /** Counts halved, none to zero, until the total fits 16 bits. */
  function Rescaled(edges: seq<Edge>): (r: seq<Edge>)
    requires Positive(edges) && |edges| <= 256
    ensures |r| == |edges|
    decreases CountSum(edges)
  {
    var h := Halve(edges);
    HalveSmaller(edges);
    if ESC + CountSum(h) > COUNT_MAX then Rescaled(h) else h
  }

  lemma RescaledStep(edges: seq<Edge>)
    requires Positive(edges) && |edges| <= 256
    ensures Positive(Halve(edges)) && |Halve(edges)| == |edges|
    ensures ESC + CountSum(Halve(edges)) > COUNT_MAX ==>
              Rescaled(edges) == Rescaled(Halve(edges)) && CountSum(Halve(edges)) < CountSum(edges)
    ensures ESC + CountSum(Halve(edges)) <= COUNT_MAX ==> Rescaled(edges) == Halve(edges)
  {
    hide CountSum;
    HalveSmaller(edges);
  }

  lemma {:induction false} RescaledKeeps(edges: seq<Edge>)
    requires Positive(edges) && Descending(edges) && |edges| <= 256
    ensures Positive(Rescaled(edges)) && Descending(Rescaled(edges)) && SameSyms(Rescaled(edges), edges)
    ensures ESC + CountSum(Rescaled(edges)) <= COUNT_MAX && CountSum(Rescaled(edges)) <= CountSum(Halve(edges))
    decreases CountSum(edges)
  {
    hide CountSum, Half;
    var h := Halve(edges);
    HalveSmaller(edges);
    HalveKeeps(edges);
    if ESC + CountSum(h) > COUNT_MAX {
      HalveSmaller(h);
      RescaledKeeps(h);
    }
  }

  function ReducedEdges(edges: seq<Edge>, k: nat): (r: seq<Edge>)
    ensures |r| == |edges| && forall i :: 0 <= i < |r| ==> r[i] == Edge(edges[i].sym, Reduced(edges[i].count, k))
  {
    seq(|edges|, i requires 0 <= i < |edges| => Edge(edges[i].sym, Reduced(edges[i].count, k)))
  }

  /** All counts are halved as often as it takes for the total to fit, once at least, and no more often. */
  ghost predicate RescaledBy(k: nat, edges: seq<Edge>, r: seq<Edge>) {
    && k > 0 && r == ReducedEdges(edges, k) && ESC + CountSum(r) <= COUNT_MAX
    && forall j :: 0 < j < k ==> ESC + CountSum(ReducedEdges(edges, j)) > COUNT_MAX
  }

  lemma HalveReduces(edges: seq<Edge>, k: nat)
    requires Positive(edges)
    ensures Halve(ReducedEdges(edges, k)) == ReducedEdges(edges, k + 1) && Positive(ReducedEdges(edges, k))
  {
    hide Reduced;
    forall i | 0 <= i < |edges|
      ensures Half(Reduced(edges[i].count, k)) == Reduced(edges[i].count, k + 1) && Reduced(edges[i].count, k) > 0
    {
      ReducedNext(edges[i].count, k);
      ReducedNext(edges[i].count, k + 1);
    }
  }

  lemma {:induction false} RescaledReduces(edges: seq<Edge>, k: nat)
    requires Positive(edges) && |edges| <= 256 && Positive(ReducedEdges(edges, k))
    requires forall j :: 0 < j <= k ==> ESC + CountSum(ReducedEdges(edges, j)) > COUNT_MAX
    ensures exists n :: RescaledBy(n, edges, Rescaled(ReducedEdges(edges, k)))
    decreases CountSum(ReducedEdges(edges, k))
  {
    hide CountSum, Reduced, ReducedEdges, Rescaled, Positive;
    var h := ReducedEdges(edges, k + 1);
    HalveReduces(edges, k);
    HalveReduces(edges, k + 1);
    RescaledStep(ReducedEdges(edges, k));
    if ESC + CountSum(h) > COUNT_MAX {
      RescaledReduces(edges, k + 1);
    } else {
      assert RescaledBy(k + 1, edges, h);
    }
  }

  /** What rescaling does to every count. */
  lemma RescaledLeast(edges: seq<Edge>)
    requires Positive(edges) && |edges| <= 256
    ensures exists n :: RescaledBy(n, edges, Rescaled(edges))
  {
    hide CountSum, Rescaled;
    forall i | 0 <= i < |edges| ensures Reduced(edges[i].count, 0) == edges[i].count {
      NotReduced(edges[i].count);
    }
    assert ReducedEdges(edges, 0) == edges;
    RescaledReduces(edges, 0);
  }

  /** The position of a symbol, and of a count; the number of edges stands for the escape. */
  function IndexOf(edges: seq<Edge>, s: nat): (k: nat)
    ensures k <= |edges|
    ensures k < |edges| ==> edges[k].sym == s
    ensures forall i :: 0 <= i < k ==> edges[i].sym != s
  {
    if edges == [] then 0
    else
      var k := IndexOf(edges[..|edges| - 1], s);
      if k < |edges| - 1 then k else if edges[|edges| - 1].sym == s then |edges| - 1 else |edges|
  }

  function Low(edges: seq<Edge>, k: nat): nat
    requires k <= |edges|
  {
    CountSum(edges[..k])
  }

  /** Edge k owns the count c, or the escape does, which has a share of esc: none at the NIL node. */
  ghost predicate Owns(edges: seq<Edge>, k: nat, c: nat, esc: nat)
    requires k <= |edges|
  {
    Low(edges, k) <= c < Low(edges, k) + if k < |edges| then edges[k].count else esc
  }

  lemma {:induction false} LowGrows(edges: seq<Edge>, j: nat, k: nat)
    requires j < k <= |edges|
    ensures Low(edges, j) + edges[j].count <= Low(edges, k)
    decreases k - j
  {
    CountSumPrefix(edges, k - 1);
    if j < k - 1 {
      LowGrows(edges, j, k - 1);
    }
  }

  /** A count has one owner at most. */
  lemma OneOwner(edges: seq<Edge>, j: nat, k: nat, c: nat, esc: nat)
    requires j <= |edges| && k <= |edges| && Owns(edges, j, c, esc) && Owns(edges, k, c, esc)
    ensures j == k
  {
    hide Low;
    if j < k {
      LowGrows(edges, j, k);
    } else if k < j {
      LowGrows(edges, k, j);
    }
  }

  /** Everything sent to the range coder for an edge or an escape is valid. */
  lemma ChoiceValid(edges: seq<Edge>, k: nat, esc: nat)
    requires k <= |edges| && Positive(edges) && esc + CountSum(edges) <= COUNT_MAX && (k == |edges| ==> esc > 0)
    ensures Sym(Low(edges, k), if k < |edges| then edges[k].count else esc, esc + CountSum(edges)).Valid()
  {
    if k < |edges| {
      CountSumPrefix(edges, k);
    } else {
      assert edges[..k] == edges;
    }
  }

  /** The edges of the NIL node: every byte once. */
  function NilEdges(n: nat): (e: seq<Edge>)
    ensures |e| == n && forall s :: 0 <= s < n ==> e[s] == Edge(s, 1)
  {
    if n == 0 then [] else NilEdges(n - 1) + [Edge(n - 1, 1)]
  }

  lemma {:induction false} NilSum(n: nat)
    ensures CountSum(NilEdges(n)) == n
  {
    hide CountSum, NilEdges;
    if n == 0 {
      NoneCounted(NilEdges(n));
    } else {
      NilSum(n - 1);
      NilNext(n - 1);
      Appended(NilEdges(n - 1), Edge(n - 1, 1));
    }
  }

  lemma NilNext(n: nat)
    ensures NilEdges(n + 1) == NilEdges(n) + [Edge(n, 1)]
  {
  }

  lemma NoneCounted(edges: seq<Edge>)
    requires edges == []
    ensures CountSum(edges) == 0
  {
  }

  /** Escapes end at the NIL node: it has every symbol, and every count below its total is an edge's. */
  lemma NilKnowsAll(s: nat, k: nat, c: nat)
    requires s < 256 && k <= 256 && Owns(NilEdges(256), k, c, 0)
    ensures IndexOf(NilEdges(256), s) == s && k == c < 256
  {
    assert NilEdges(256)[s].sym == s;
    NilLow(256, k);
  }

  lemma {:induction false} NilLow(n: nat, k: nat)
    requires k <= n
    ensures Low(NilEdges(n), k) == k
    decreases n
  {
    if k == n {
      assert NilEdges(n)[..n] == NilEdges(n);
      NilSum(n);
    } else {
      NilLow(n - 1, k);
      assert NilEdges(n)[..k] == NilEdges(n - 1)[..k];
    }
  }

  class Node {
    const esc: nat       // the escape's share; none at the NIL node
    var edges: seq<Edge>
    var total: nat

    /** Between calls: the total is that of the counts and the escape, and has not wrapped. */
    ghost predicate Valid()
      reads this
    {
      && (esc == ESC || esc == 0) && |edges| <= 256 && Positive(edges) && Descending(edges)
      && total == esc + CountSum(edges) <= COUNT_MAX
    }

    constructor ()
      ensures Valid() && edges == [] && esc == ESC
    {
      esc, edges, total := ESC, [], ESC;
    }

    constructor Nil()
      ensures Valid() && esc == 0 && edges == NilEdges(256) && total == 256
    {
      esc, edges, total := 0, NilEdges(256), 256;
      new;
      NilSum(256);
    }

    /** A node put in the middle of an edge starts with the count of that edge. */
    constructor Insert(e: Edge)
      requires 0 < e.count <= COUNT_MAX - ESC
      ensures Valid() && edges == [e] && esc == ESC
    {
      esc := ESC;
      edges := [e];
      total := e.count + ESC;
    }

    method Rescale()
      requires esc == ESC && Positive(edges) && Descending(edges) && |edges| <= 256
      modifies this
      ensures Valid() && edges == Rescaled(old(edges)) && exists k :: RescaledBy(k, old(edges), edges)
      decreases CountSum(edges)
    {
      hide CountSum, Half, Halve, Rescaled, Positive, Descending, RescaledBy;
      RescaledLeast(edges);
      HalveSmaller(edges);
      HalveKeeps(edges);
      RescaledStep(edges);
      HalveAll();
      var t := SumCounts();
      total := t % 0x1_0000;
      if total != t {
        Rescale();
      }
    }

    method HalveAll()
      modifies this`edges
      ensures edges == Halve(old(edges))
    {
      for i := 0 to |edges|
        invariant |edges| == |old(edges)|
        invariant forall k :: 0 <= k < i ==> edges[k] == Edge(old(edges)[k].sym, Half(old(edges)[k].count))
        invariant forall k :: i <= k < |edges| ==> edges[k] == old(edges)[k]
      {
        var c := edges[i].count / 2;
        if c == 0 {
          c := 1;
        }
        edges := edges[i := Edge(edges[i].sym, c)];
      }
    }

    method SumCounts() returns (t: nat)
      ensures t == ESC + CountSum(edges)
    {
      t := ESC;
      for i := 0 to |edges|
        invariant t == ESC + CountSum(edges[..i])
      {
        CountSumPrefix(edges, i);
        t := t + edges[i].count;
      }
      assert edges[..|edges|] == edges;
    }

    /** A new edge goes to the end with count 1; a total that would wrap rescales all counts. */
    method AddEdge(s: nat)
      requires Valid() && esc == ESC && |edges| <= 255
      modifies this
      ensures Valid()
      ensures edges == if old(total) < COUNT_MAX then old(edges) + [Edge(s, 1)] else Rescaled(old(edges) + [Edge(s, 1)])
      ensures old(DistinctSyms(edges)) && (forall i :: 0 <= i < |old(edges)| ==> old(edges)[i].sym != s) ==>
                DistinctSyms(edges)
    {
      hide CountSum, Rescaled;
      var t := total;
      Appended(edges, Edge(s, 1));
      edges := edges + [Edge(s, 1)];
      total := (total + 1) % 0x1_0000;
      RescaledKeeps(edges);
      if total <= t {
        Rescale();
      }
    }

    /** The count of an edge goes up and the edge moves ahead of smaller ones: the same edges, in order. */
    method UpdateCount(i: nat) returns (e: nat)
      requires Valid() && esc == ESC && i < |edges|
      modifies this
      ensures Valid() && e <= i && |edges| == |old(edges)| && edges[e].sym == old(edges)[i].sym
      ensures var base := if old(total) < COUNT_MAX then old(edges) else Rescaled(old(edges));
              |base| == |old(edges)| && multiset(edges) == multiset(base[i := Edge(base[i].sym, base[i].count + 1)])
      ensures old(DistinctSyms(edges)) ==> DistinctSyms(edges)
    {
      hide CountSum, Rescaled, Half, Halve, Positive, Descending, SameSyms, DistinctSyms;
      RoomAfterRescaling(edges, i);
      var t := (total + 1) % 0x1_0000;
      if t <= total {
        Rescale();
      }
      e := Raise(i);
    }

    method Raise(i: nat) returns (e: nat)
      requires Valid() && esc == ESC && i < |edges| && total < COUNT_MAX
      modifies this
      ensures Valid() && e <= i && |edges| == |old(edges)| && edges[e].sym == old(edges)[i].sym
      ensures multiset(edges) == multiset(old(edges)[i := Edge(old(edges)[i].sym, old(edges)[i].count + 1)])
      ensures old(DistinctSyms(edges)) ==> DistinctSyms(edges)
    {
      hide CountSum, Positive, Descending, SortedBut, DistinctSyms;
      Raised(edges, i);
      edges := edges[i := Edge(edges[i].sym, edges[i].count + 1)];
      total := total + 1;
      e := BubbleUp(i);
    }

    method BubbleUp(i: nat) returns (e: nat)
      requires i < |edges| && SortedBut(edges, i)
      modifies this`edges
      ensures |edges| == |old(edges)| && e <= i && edges[e] == old(edges)[i]
      ensures Descending(edges) && multiset(edges) == multiset(old(edges)) && CountSum(edges) == CountSum(old(edges))
      ensures old(Positive(edges)) ==> Positive(edges)
      ensures old(DistinctSyms(edges)) ==> DistinctSyms(edges)
    {
      hide CountSum, SortedBut, DistinctSyms;
      e := i;
      var x := edges[i];
      while e != 0 && edges[e - 1].count < x.count
        invariant e <= i && |edges| == |old(edges)| && edges[e] == x && SortedBut(edges, e)
        invariant multiset(edges) == multiset(old(edges)) && CountSum(edges) == CountSum(old(edges))
        invariant old(Positive(edges)) ==> Positive(edges)
        invariant old(DistinctSyms(edges)) ==> DistinctSyms(edges)
      {
        Swapped(edges, e);
        edges := edges[e := edges[e - 1]][e - 1 := x];
        e := e - 1;
      }
      Settled(edges, e);
    }

    /** Searching by symbol gives the range of the edge, or, where there is none, the escape's. */
    method FindSymbol(s: nat) returns (found: bool, k: nat, low: nat)
      requires Valid()
      ensures k == IndexOf(edges, s) && found == (k < |edges|) && low == Low(edges, k)
      ensures !found ==> low + esc == total
    {
      k, low := 0, 0;
      while k < |edges|
        invariant k <= |edges| && low == Low(edges, k)
        invariant forall i :: 0 <= i < k ==> edges[i].sym != s
      {
        if edges[k].sym == s {
          return true, k, low;
        }
        CountSumPrefix(edges, k);
        low := low + edges[k].count;
        k := k + 1;
      }
      assert edges[..k] == edges;
      found := false;
    }

    /** Searching by count finds the owner of the count. */
    method FindCount(c: nat) returns (found: bool, k: nat, low: nat)
      requires Valid() && c < total
      ensures k <= |edges| && Owns(edges, k, c, esc) && found == (k < |edges|) && low == Low(edges, k)
      ensures !found ==> low + esc == total
    {
      k, low := 0, 0;
      while k < |edges|
        invariant k <= |edges| && low == Low(edges, k) <= c
      {
        if low + edges[k].count > c {
          return true, k, low;
        }
        CountSumPrefix(edges, k);
        low := low + edges[k].count;
        k := k + 1;
      }
      assert edges[..k] == edges;
      found := false;
    }
  }

  /** Rescaling makes ample room for one more. */
  lemma RoomAfterRescaling(edges: seq<Edge>, i: nat)
    requires Positive(edges) && Descending(edges) && |edges| <= 256 && ESC + CountSum(edges) <= COUNT_MAX && i < |edges|
    ensures |Rescaled(edges)| == |edges| && ESC + CountSum(Rescaled(edges)) < COUNT_MAX
              && Rescaled(edges)[i].sym == edges[i].sym
    ensures DistinctSyms(edges) ==> DistinctSyms(Rescaled(edges))
  {
    hide CountSum, Rescaled, Half, Halve;
    RescaledKeeps(edges);
    HalveSmaller(edges);
  }

  lemma Raised(edges: seq<Edge>, i: nat)
    requires i < |edges| && Positive(edges) && Descending(edges)
    ensures var n := edges[i := Edge(edges[i].sym, edges[i].count + 1)];
            && SortedBut(n, i) && Positive(n) && CountSum(n) == CountSum(edges) + 1
            && (DistinctSyms(edges) ==> DistinctSyms(n))
  {
    hide CountSum;
    CountSumUpdate(edges, i, Edge(edges[i].sym, edges[i].count + 1));
  }

  lemma Appended(edges: seq<Edge>, e: Edge)
    ensures CountSum(edges + [e]) == CountSum(edges) + e.count
  {
    assert (edges + [e])[..|edges|] == edges;
  }

  /** In order except perhaps for the edge at e, which may be too far down. */
  ghost predicate SortedBut(edges: seq<Edge>, e: nat)
    requires e < |edges|
  {
    forall i, j :: 0 <= i < j < |edges| && j != e ==> edges[i].count >= edges[j].count
  }

  lemma Swapped(edges: seq<Edge>, e: nat)
    requires 0 < e < |edges| && SortedBut(edges, e) && edges[e - 1].count < edges[e].count
    ensures var n := edges[e := edges[e - 1]][e - 1 := edges[e]];
            && SortedBut(n, e - 1) && multiset(n) == multiset(edges) && CountSum(n) == CountSum(edges)
            && (DistinctSyms(edges) ==> DistinctSyms(n))
  {
    hide CountSum;
    CountSumUpdate(edges, e, edges[e - 1]);
    CountSumUpdate(edges[e := edges[e - 1]], e - 1, edges[e]);
  }

  lemma Settled(edges: seq<Edge>, e: nat)
    requires e < |edges| && SortedBut(edges, e) && (e > 0 ==> edges[e - 1].count >= edges[e].count)
    ensures Descending(edges)
  {
  }

  /** Searching by symbol and by count are inverses: every count in the range found for a symbol leads back
      to its edge, and the symbol of the edge found for a count leads to the same range. */
  lemma SearchesInverse(edges: seq<Edge>, s: nat, k: nat, c: nat, esc: nat)
    requires k <= |edges| && Owns(edges, k, c, esc)
    ensures Owns(edges, IndexOf(edges, s), c, esc) ==> IndexOf(edges, s) == k
    ensures k < |edges| && DistinctSyms(edges) ==> IndexOf(edges, edges[k].sym) == k
  {
    if Owns(edges, IndexOf(edges, s), c, esc) {
      OneOwner(edges, IndexOf(edges, s), k, c, esc);
    }
  }
}
