/** Sorting keys by count, and moving a frequency table through the coder. */
module TableCoding {
  import opened Arith
  import opened RangeCoding
  import opened Outcomes
  import opened Uniform
  import opened RangeCoders
  import opened FreqTable

  /** A listing of the first n numbers, each once. */
  ghost predicate IsOrder(order: seq<nat>, n: nat) {
    && |order| == n
    && (forall i :: 0 <= i < n ==> order[i] < n)
    && (forall i, j :: 0 <= i < j < n ==> order[i] != order[j])
    && (forall k :: 0 <= k < n ==> k in order)
  }

  ghost predicate Descending(order: seq<nat>, counts: seq<nat>) {
    && (forall i :: 0 <= i < |order| ==> order[i] < |counts|)
    && forall i, j :: 0 <= i < j < |order| ==> counts[order[j]] <= counts[order[i]]
  }

  /** The library sort by descending count, here by insertion. */
  method SortByCount(counts: seq<nat>) returns (order: seq<nat>)
    ensures IsOrder(order, |counts|) && Descending(order, counts)
    ensures Sum(Select(counts, order)) == Sum(counts)
  {
    hide Sum;
    order := [];
    assert counts[..0] == Select(counts, order) == [];
    for k := 0 to |counts|
      invariant IsOrder(order, k) && Descending(order, counts)
      invariant Sum(Select(counts, order)) == Sum(counts[..k])
    {
      var p := 0;
      while p < k && counts[order[p]] >= counts[k]
        invariant 0 <= p <= k
        invariant forall i :: 0 <= i < p ==> counts[order[i]] >= counts[k]
      {
        p := p + 1;
      }
      OrderAfterInsert(order, k, p);
      DescendingAfterInsert(order, counts, k, p);
      SumOfInsert(Select(counts, order), p, counts[k]);
      SelectInsert(counts, order, k, p);
      SumOfSnoc(counts[..k], counts[k]);
      assert counts[..k+1] == counts[..k] + [counts[k]];
      order := Insert(order, k, p);
    }
    assert counts[..|counts|] == counts;
  }

  function Insert(order: seq<nat>, k: nat, p: nat): (o: seq<nat>)
    requires p <= |order|
    ensures |o| == |order| + 1
    ensures forall i :: 0 <= i < |o| ==> o[i] == if i < p then order[i] else if i == p then k else order[i-1]
  {
    order[..p] + [k] + order[p..]
  }

  lemma OrderAfterInsert(order: seq<nat>, k: nat, p: nat)
    requires IsOrder(order, k) && p <= k
    ensures IsOrder(Insert(order, k, p), k + 1)
  {
    var o := Insert(order, k, p);
    forall m | 0 <= m < k + 1
      ensures m in o
    {
      if m < k {
        assert m in order;
        var i :| 0 <= i < |order| && order[i] == m;
        assert o[if i < p then i else i + 1] == m;
      } else {
        assert o[p] == k;
      }
    }
  }

  lemma SelectInsert(counts: seq<nat>, order: seq<nat>, k: nat, p: nat)
    requires k < |counts| && p <= |order| && forall i :: 0 <= i < |order| ==> order[i] < |counts|
    ensures Select(counts, Insert(order, k, p)) == Insert(Select(counts, order), counts[k], p)
  {
  }

  lemma DescendingAfterInsert(order: seq<nat>, counts: seq<nat>, k: nat, p: nat)
    requires Descending(order, counts) && |order| == k < |counts| && p <= k
    requires forall i :: 0 <= i < p ==> counts[order[i]] >= counts[k]
    requires p < k ==> counts[order[p]] < counts[k]
    ensures Descending(Insert(order, k, p), counts)
  {
    var o := Insert(order, k, p);
    forall i, j | 0 <= i < j < |o|
      ensures counts[o[j]] <= counts[o[i]]
    {
    }
  }

  /** The keys and counts of the selected entries, in order. */
  function Select(s: seq<nat>, order: seq<nat>): (t: seq<nat>)
    requires forall i :: 0 <= i < |order| ==> order[i] < |s|
    ensures |t| == |order|
    ensures forall i :: 0 <= i < |order| ==> t[i] == s[order[i]]
  {
    seq(|order|, i requires 0 <= i < |order| => s[order[i]])
  }

  lemma SelectKeepsAll(s: seq<nat>, order: seq<nat>, x: nat)
    requires IsOrder(order, |s|) && x in s
    ensures x in Select(s, order)
  {
    var k :| 0 <= k < |s| && s[k] == x;
    assert k in order;
    var i :| 0 <= i < |order| && order[i] == k;
    assert Select(s, order)[i] == x;
  }

  lemma SelectKeepsDistinct(s: seq<nat>, order: seq<nat>)
    requires forall i :: 0 <= i < |order| ==> order[i] < |s|
    requires forall i, j :: 0 <= i < j < |order| ==> order[i] != order[j]
    requires forall i, j :: 0 <= i < j < |s| ==> s[i] != s[j]
    ensures forall i, j :: 0 <= i < j < |order| ==> Select(s, order)[i] != Select(s, order)[j]
  {
    forall i, j | 0 <= i < j < |order|
      ensures Select(s, order)[i] != Select(s, order)[j]
    {
      assert order[i] < order[j] || order[j] < order[i];
    }
  }

  method SaveEntries(coder: RangeCoder, t: Table, maxkey: nat, bitmax: nat, ghost total: nat) returns (r: Outcome)
    requires coder.Encoding() && t.Valid(maxkey, total) && bitmax == BitLen(maxkey)
    modifies coder
    ensures coder.Wrote(r, EntrySyms(t, 0, maxkey, total))
  {
    hide UniSyms, BitLen, After, Sum;
    var prevc := 0xFFFF;
    var i := 0;
    while i < |t.keys|
      invariant 0 <= i <= |t.keys| && prevc == t.Bound(i)
      invariant coder.Kept() && coder.Encoding() && old(coder.done) <= coder.done
      invariant coder.done + EntrySyms(t, i, maxkey, total) == old(coder.done) + EntrySyms(t, 0, maxkey, total)
    {
      ghost var before := coder.done;
      t.CountFits(i, maxkey, total);
      :- coder.EncodeBelow(t.keys[i], maxkey, bitmax);
      var c := t.counts[i] - 1;
      var bits := GetBitLen(prevc);
      :- coder.EncodeBelow(c, prevc, bits);
      assert before + EntrySyms(t, i, maxkey, total) == coder.done + EntrySyms(t, i + 1, maxkey, total);
      prevc := c;
      i := i + 1;
    }
    assert coder.done + [] == coder.done;
    return Pass;
  }

  /** cnt2val gets one more key. */
  method Repeat(owner: seq<nat>, i: nat, count: nat, ghost t: Table) returns (more: seq<nat>)
    requires Maps(owner, t, i) && i < |t.counts| && count == t.counts[i]
    ensures Maps(more, t, i + 1)
  {
    hide Sum;
    more := owner;
    var c := count;
    t.LowNext(i);
    while c > 0
      invariant 0 <= c <= count && |more| == |owner| + count - c
      invariant forall k :: 0 <= k < |owner| ==> more[k] == owner[k]
      invariant forall k :: |owner| <= k < |more| ==> more[k] == i
    {
      more := more + [i];
      c := c - 1;
    }
  }

  method LoadEntry(coder: RangeCoder, maxkey: nat, bitmax: nat, prevc: nat, ghost key: nat, ghost count: nat,
                   ghost rest: seq<Sym>)
    returns (r: Outcome, k: nat, c: nat)
    requires bitmax == BitLen(maxkey) && key <= maxkey && 0 < count && count - 1 <= prevc
    requires coder.InSync(UniSyms(key, maxkey) + UniSyms(count - 1, prevc) + rest)
    modifies coder
    ensures r.Pass? && k == key && c == count && coder.InSync(rest)
  {
    hide UniSyms, BitLen, Emit;
    c := 0;
    ghost var later := UniSyms(count - 1, prevc) + rest;
    assert UniSyms(key, maxkey) + UniSyms(count - 1, prevc) + rest == UniSyms(key, maxkey) + later;
    r, k := coder.DecodeBelow(maxkey, bitmax, key, later);
    if r.Fail? {
      return;
    }
    var bits := GetBitLen(prevc);
    r, c := coder.DecodeBelow(prevc, bits, count - 1, rest);
    c := c + 1;
  }

  method LoadEntries(coder: RangeCoder, n: nat, maxkey: nat, bitmax: nat, ghost t: Table, ghost total: nat,
                     ghost rest: seq<Sym>)
    returns (r: Outcome, keys: seq<nat>, counts: seq<nat>, lows: seq<nat>, owner: seq<nat>)
    requires t.Valid(maxkey, total) && n == |t.keys| && bitmax == BitLen(maxkey)
    requires coder.InSync(EntrySyms(t, 0, maxkey, total) + rest)
    modifies coder
    ensures r.Pass? && coder.InSync(rest)
    ensures keys == t.keys && counts == t.counts && |lows| == n
    ensures forall i :: 0 <= i < n ==> lows[i] == t.Low(i)
    ensures Maps(owner, t, n)
  {
    hide UniSyms, BitLen, Emit, Sum;
    keys, counts, lows, owner := [], [], [], [];
    var prevc := 0xFFFF;
    var i := 0;
    LowOfNone(t);
    r := Pass;
    while i < n
      invariant 0 <= i <= n && prevc == t.Bound(i) && r.Pass?
      invariant keys == t.keys[..i] && counts == t.counts[..i] && |lows| == i
      invariant forall k :: 0 <= k < i ==> lows[k] == t.Low(k)
      invariant Maps(owner, t, i)
      invariant coder.InSync(EntrySyms(t, i, maxkey, total) + rest)
    {
      t.CountFits(i, maxkey, total);
      t.LowNext(i);
      ghost var later := EntrySyms(t, i + 1, maxkey, total) + rest;
      assert EntrySyms(t, i, maxkey, total) + rest
             == UniSyms(t.keys[i], maxkey) + UniSyms(t.counts[i] - 1, prevc) + later;
      var k, c: nat;
      r, k, c := LoadEntry(coder, maxkey, bitmax, prevc, t.keys[i], t.counts[i], later);
      if r.Fail? {
        return;
      }
      prevc := c - 1;
      keys, counts, lows := keys + [k], counts + [c], lows + [|owner|];
      if |owner| + c > 0x1_0000 {
        r := Fail(ERR_COR);
        return;
      }
      owner := Repeat(owner, i, c, t);
      i := i + 1;
    }
    assert [] + rest == rest;
  }

  lemma LowOfNone(t: Table)
    ensures t.Low(0) == 0
  {
  }
}
