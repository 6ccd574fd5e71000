/** The full dictionary: every key of the data with its count, widened so that the counts add up to a
    power of two. */
module Dictionaries {
  import opened Arith
  import opened RangeCoding
  import opened Outcomes
  import opened Uniform
  import opened RangeCoders
  import opened FreqTable
  import opened KeyTables
  import opened TableCoding

  function Share(rest: nat, n: nat): (d: nat)
    requires 0 < n
    ensures d <= rest && (n == 1 ==> d == rest)
  {
    assert rest / n * n <= rest;
    MulMonotone(1, n, rest / n);
    rest / n
  }

  /** Spreading `rest` over counts, from the last to the first: each of the n that are left gets its
      n-th part, rounded down. */
  function Widen(cs: seq<nat>, rest: nat): (ws: seq<nat>)
    requires cs == [] ==> rest == 0
    ensures |ws| == |cs|
    decreases |cs|
  {
    if cs == [] then []
    else
      var n := |cs|;
      Widen(cs[..n-1], rest - Share(rest, n)) + [cs[n-1] + Share(rest, n)]
  }

  /** Those further to the front get no less. */
  lemma SharesGrow(rest: nat, n: nat)
    requires 1 < n
    ensures Share(rest - Share(rest, n), n - 1) >= Share(rest, n)
  {
    var d := rest / n;
    assert d * n <= rest;
    assert d * (n - 1) == d * n - d;
    var q := (rest - d) / (n - 1);
    assert rest - d < q * (n - 1) + (n - 1);
    if q < d {
      MulMonotone(q + 1, d, n - 1);
    }
  }

  /** Nothing is lost or gained. */
  lemma {:induction false} WidenAddsRest(cs: seq<nat>, rest: nat)
    requires cs == [] ==> rest == 0
    ensures Sum(Widen(cs, rest)) == Sum(cs) + rest
    decreases |cs|
  {
    hide Share;
    if cs != [] {
      var n := |cs|;
      var d := Share(rest, n);
      WidenAddsRest(cs[..n-1], rest - d);
      SumOfSnoc(Widen(cs[..n-1], rest - d), cs[n-1] + d);
    }
  }

  /** No count shrinks, and descending counts stay descending. */
  lemma {:induction false} WidenDescends(cs: seq<nat>, rest: nat)
    requires cs == [] ==> rest == 0
    requires forall i, j :: 0 <= i < j < |cs| ==> cs[j] <= cs[i]
    ensures forall i :: 0 <= i < |cs| ==> cs[i] <= Widen(cs, rest)[i]
    ensures forall i, j :: 0 <= i < j < |cs| ==> Widen(cs, rest)[j] <= Widen(cs, rest)[i]
    decreases |cs|
  {
    hide Share;
    if cs != [] {
      var n := |cs|;
      var d := Share(rest, n);
      var front := Widen(cs[..n-1], rest - d);
      WidenDescends(cs[..n-1], rest - d);
      if n > 1 {
        SharesGrow(rest, n);
        assert front[n-2] == cs[n-2] + Share(rest - d, n - 1);
      }
    }
  }

  /** Every count grows by the n-th part of the rest, or by one more. */
  lemma WidenEvenly(cs: seq<nat>, rest: nat, i: nat)
    requires (cs == [] ==> rest == 0) && i < |cs|
    ensures rest / |cs| <= Widen(cs, rest)[i] - cs[i] <= rest / |cs| + 1
  {
    hide Widen;
    GrowsByShare(cs, rest, i);
  }

  lemma {:induction false} GrowsByShare(cs: seq<nat>, rest: nat, i: nat)
    requires (cs == [] ==> rest == 0) && i < |cs|
    ensures Share(rest, |cs|) <= Widen(cs, rest)[i] - cs[i] <= Share(rest, |cs|) + 1
    ensures rest % |cs| == 0 ==> Widen(cs, rest)[i] - cs[i] == Share(rest, |cs|)
    decreases |cs|
  {
    hide Share;
    var n := |cs|;
    if i < n - 1 {
      GrowsByShare(cs[..n-1], rest - Share(rest, n), i);
      PartOfRest(rest, n);
    }
  }

  /** After one of n has had its part, the part of the others is the same, or one more when it comes out even. */
  lemma PartOfRest(rest: nat, n: nat)
    requires 1 < n
    ensures var d := Share(rest, n);
            var e := Share(rest - d, n - 1);
            && (e == d || (e == d + 1 && (rest - d) % (n - 1) == 0))
            && (rest % n == 0 ==> e == d && (rest - d) % (n - 1) == 0)
  {
    hide Share;
    ShareIs(rest, n);
    ShareIs(rest - Share(rest, n), n - 1);
    OneLess(rest, n, rest / n, rest % n);
  }

  lemma ShareIs(rest: nat, n: nat)
    requires 0 < n
    ensures Share(rest, n) == rest / n && rest == rest / n * n + rest % n
  {
  }

  lemma OneLess(rest: nat, n: nat, d: nat, m: nat)
    requires 1 < n && m < n && rest == d * n + m
    ensures (rest - d) / (n - 1) == (if m == n - 1 then d + 1 else d)
    ensures (rest - d) % (n - 1) == (if m == n - 1 then 0 else m)
  {
    assert d * (n - 1) == d * n - d;
    if m == n - 1 {
      assert (d + 1) * (n - 1) == d * (n - 1) + (n - 1);
      DivUnique(rest - d, n - 1, d + 1, 0);
    } else {
      DivUnique(rest - d, n - 1, d, m);
    }
  }

  lemma BitLenOfPow2(s: nat)
    ensures BitLen(Pow2(s) - 1) == s
  {
    BitLenLeast(Pow2(s) - 1, s);
    BitLenBounds(Pow2(s) - 1);
    if BitLen(Pow2(s) - 1) < s {
      Pow2Monotone(BitLen(Pow2(s) - 1), s - 1);
    }
  }

  /** The power of two that a total is rounded up to. */
  lemma RoundUp(total: nat)
    requires 0 < total <= 0x1_0000
    ensures total <= Pow2(BitLen(total - 1)) <= 0x1_0000
    ensures BitLen(total - 1) <= 16
  {
    Pow2Values();
    BitLenBounds(total - 1);
    BitLenLeast(total - 1, 16);
    Pow2Monotone(BitLen(total - 1), 16);
  }

  /** The loop of SetLows: from the rarest key to the most frequent, widening counts and handing out
      stretches downwards from the total; it arrives at 0 exactly. */
  method SpreadRest(counts: seq<nat>, order: seq<nat>, total: nat, top: nat) returns (wide: seq<nat>, lows: seq<nat>)
    requires IsOrder(order, |counts|) && counts != []
    requires total == Sum(Select(counts, order)) <= top
    ensures |wide| == |lows| == |counts|
    ensures Select(wide, order) == Widen(Select(counts, order), top - total)
    ensures forall i :: 0 <= i < |order| ==> lows[order[i]] == Sum(Select(wide, order)[..i])
  {
    hide Sum, Share, Widen, Descending;
    ghost var cs := Select(counts, order);
    ghost var ws := Widen(cs, top - total);
    WidenAddsRest(cs, top - total);
    wide, lows := counts, seq(|counts|, _ => 0);
    var high, rest: nat, i := top, top - total, |order|;
    assert ws[..i] == ws && cs[..i] == cs;
    while i > 0
      invariant 0 <= i <= |order| && |wide| == |lows| == |counts|
      invariant i == 0 ==> rest == 0
      invariant ws[..i] == Widen(cs[..i], rest)
      invariant high == Sum(ws[..i])
      invariant forall j :: 0 <= j < i ==> wide[order[j]] == cs[j]
      invariant forall j :: i <= j < |order| ==> wide[order[j]] == ws[j] && lows[order[j]] == Sum(ws[..j])
    {
      WidenLast(cs, ws, rest, i);
      var d := Share(rest, i);
      rest := rest - d;
      i := i - 1;
      wide := wide[order[i] := wide[order[i]] + d];
      high := high - wide[order[i]];
      lows := lows[order[i] := high];
    }
    assert high == 0 by { SumOfNone(); }
    assert Select(wide, order) == ws;
  }

  lemma SumOfNone()
    ensures Sum([]) == 0
  {
  }

  lemma WidenLast(cs: seq<nat>, ws: seq<nat>, rest: nat, i: nat)
    requires 0 < i <= |cs| == |ws| && ws[..i] == Widen(cs[..i], rest)
    ensures ws[i-1] == cs[i-1] + Share(rest, i)
    ensures i == 1 ==> rest == Share(rest, i)
    ensures ws[..i-1] == Widen(cs[..i-1], rest - Share(rest, i))
    ensures Sum(ws[..i]) == Sum(ws[..i-1]) + ws[i-1]
  {
    assert cs[..i][..i-1] == cs[..i-1] && ws[..i][..i-1] == ws[..i-1];
    assert ws[i-1] == ws[..i][i-1];
  }

  lemma SortedIsValid(keys: seq<nat>, counts: seq<nat>, order: seq<nat>, wide: seq<nat>, maxkey: nat, top: nat)
    requires |keys| == |counts| == |wide| == |order| && keys != []
    requires Descending(order, counts) && forall i, j :: 0 <= i < j < |order| ==> order[i] != order[j]
    requires forall k :: 0 <= k < |keys| ==> keys[k] <= maxkey && 0 < counts[k]
    requires forall i, j :: 0 <= i < j < |keys| ==> keys[i] != keys[j]
    requires Sum(Select(counts, order)) <= top <= 0x1_0000
    requires Select(wide, order) == Widen(Select(counts, order), top - Sum(Select(counts, order)))
    ensures var t := Table(Select(keys, order), Select(wide, order));
            t.Valid(maxkey, top) && Sum(t.counts) == top
  {
    hide Sum, Widen;
    var cs := Select(counts, order);
    WidenAddsRest(cs, top - Sum(cs));
    WidenDescends(cs, top - Sum(cs));
    SelectKeepsDistinct(keys, order);
  }

  lemma TallyWithin(keys: seq<nat>, counts: seq<nat>, bag: multiset<nat>, order: seq<nat>, maxkey: nat)
    requires Tally(keys, counts, bag) && IsOrder(order, |keys|) && forall x :: x in bag ==> x <= maxkey
    ensures forall k :: 0 <= k < |keys| ==> keys[k] <= maxkey && 0 < counts[k]
    ensures forall x :: x in bag ==> x in Select(keys, order)
  {
    forall x | x in bag
      ensures x in Select(keys, order)
    {
      SelectKeepsAll(keys, order, x);
    }
  }

  lemma TallyIsValid(keys: seq<nat>, counts: seq<nat>, bag: multiset<nat>, order: seq<nat>, wide: seq<nat>,
                     maxkey: nat, top: nat)
    requires Tally(keys, counts, bag) && 0 < |keys| == |wide| && forall x :: x in bag ==> x <= maxkey
    requires forall i, j :: 0 <= i < j < |keys| ==> keys[i] != keys[j]
    requires IsOrder(order, |keys|) && Descending(order, counts)
    requires Sum(Select(counts, order)) <= top <= 0x1_0000
    requires Select(wide, order) == Widen(Select(counts, order), top - Sum(Select(counts, order)))
    ensures var t := Table(Select(keys, order), Select(wide, order));
            t.Valid(maxkey, top) && Sum(t.counts) == top && forall x :: x in bag ==> x in t.keys
  {
    hide Sum, Widen, Table.Valid;
    TallyWithin(keys, counts, bag, order, maxkey);
    SortedIsValid(keys, counts, order, wide, maxkey, top);
  }

  /** A table for a bag of keys: each count is the key's multiplicity and an even share of what is missing. */
  ghost predicate Even(t: Table, bag: multiset<nat>, top: nat) {
    && |t.keys| == |t.counts| && |bag| <= top
    && forall i :: 0 <= i < |t.keys| ==>
         var share := (top - |bag|) / |t.keys|;
         bag[t.keys[i]] + share <= t.counts[i] <= bag[t.keys[i]] + share + 1
  }

  lemma TallyIsEven(keys: seq<nat>, counts: seq<nat>, bag: multiset<nat>, order: seq<nat>, wide: seq<nat>, top: nat)
    requires Tally(keys, counts, bag) && 0 < |keys| == |wide| && IsOrder(order, |keys|)
    requires Sum(Select(counts, order)) == |bag| <= top
    requires Select(wide, order) == Widen(Select(counts, order), top - Sum(Select(counts, order)))
    ensures Even(Table(Select(keys, order), Select(wide, order)), bag, top)
  {
    hide Sum, Widen;
    var cs, t := Select(counts, order), Table(Select(keys, order), Select(wide, order));
    forall i | 0 <= i < |t.keys|
      ensures bag[t.keys[i]] + (top - |bag|) / |t.keys| <= t.counts[i] <= bag[t.keys[i]] + (top - |bag|) / |t.keys| + 1
    {
      WidenEvenly(cs, top - |bag|, i);
      assert bag[keys[order[i]]] == counts[order[i]];
    }
  }

  ghost function DictSyms(t: Table, maxkeys: nat, maxkey: nat, total: nat): seq<Sym>
    requires t.Valid(maxkey, total) && |t.keys| <= maxkeys
  {
    UniSyms(|t.keys|, maxkeys) + EntrySyms(t, 0, maxkey, total)
  }

  class Dictionary {
    const tab: KeyTable
    var counts: seq<nat>     // of tab's keys, after widening; of the loaded keys when decoding
    var lows: seq<nat>
    var order: seq<nat>      // tab's keys by descending count
    var totShift: nat
    var keys: seq<nat>       // loaded
    var owner: seq<nat>      // cnt2val

    constructor (tab: KeyTable)
      ensures this.tab == tab
    {
      this.tab := tab;
      counts, lows, order, totShift, keys, owner := [], [], [], 0, [], [];
    }

    /** The table that the sorted pointers show. */
    ghost function Sorted(): Table
      requires |counts| == |tab.keys| && IsOrder(order, |tab.keys|)
      reads this, tab
    {
      Table(Select(tab.keys, order), Select(counts, order))
    }

    ghost predicate Compressing()
      reads this, tab
    {
      && tab.Chained() && IsOrder(order, |tab.keys|) && |counts| == |lows| == |tab.keys|
      && forall i :: 0 <= i < |order| ==> lows[order[i]] == Sorted().Low(i)
    }

    /** Ready to code with table t, whose counts lie below 2^shift. */
    ghost predicate Coding(t: Table, shift: nat, maxkey: nat)
      reads this, tab
    {
      Compressing() && totShift == shift && t == Sorted() && t.Valid(maxkey, Pow2(shift))
    }

    ghost predicate Decompressing(t: Table)
      reads this
    {
      && keys == t.keys && counts == t.counts && |lows| == |keys| == |counts|
      && (forall i :: 0 <= i < |keys| ==> lows[i] == t.Low(i))
      && Maps(owner, t, |keys|)
    }

    method SetLows(ghost maxkey: nat) returns (ghost t: Table)
      requires tab.Counting() && 0 < |tab.bag| <= 0x1_0000
      requires forall x :: x in tab.bag ==> x <= maxkey
      modifies this
      ensures Coding(t, totShift, maxkey) && totShift <= 16
      ensures t.Valid(maxkey, Pow2(totShift)) && Sum(t.counts) == Pow2(totShift) && |t.keys| <= tab.maxkeys
      ensures (forall x :: x in tab.bag ==> x in t.keys) && Even(t, tab.bag, Pow2(totShift))
      ensures totShift == BitLen(|tab.bag| - 1)
    {
      hide Sum, Pow2, BitLen, Widen, KeyTable.Chained, Tally, Table.Valid, Descending, Even;
      tab.KeysAreDistinct();
      TallySum(tab.keys, tab.counts, tab.bag);
      order := SortByCount(tab.counts);
      SumOfNone();
      var total := Total(tab.counts);
      totShift := GetBitLen(total - 1);
      RoundUp(total);
      counts, lows := SpreadRest(tab.counts, order, total, Pow2(totShift));
      TallyIsValid(tab.keys, tab.counts, tab.bag, order, counts, maxkey, Pow2(totShift));
      TallyIsEven(tab.keys, tab.counts, tab.bag, order, counts, Pow2(totShift));
      t := Sorted();
    }

    method Save(coder: RangeCoder, maxkey: nat, ghost t: Table, ghost shift: nat) returns (r: Outcome)
      requires coder.Encoding() && Coding(t, shift, maxkey) && t.Valid(maxkey, Pow2(shift)) && |t.keys| <= tab.maxkeys
      modifies coder
      ensures coder.Wrote(r, DictSyms(t, tab.maxkeys, maxkey, Pow2(shift)))
    {
      hide UniSyms, BitLen, Pow2, After, Sum, KeyTable.Chained;
      tab.KeysAreDistinct();
      var bits := GetBitLen(tab.maxkeys);
      :- coder.EncodeBelow(|tab.keys|, tab.maxkeys, bits);
      var bitmax := GetBitLen(maxkey);
      r := SaveEntries(coder, Table(Select(tab.keys, order), Select(counts, order)), maxkey, bitmax, Pow2(shift));
      assert r.Pass? ==> coder.done == old(coder.done) + DictSyms(t, tab.maxkeys, maxkey, Pow2(shift));
    }

    /** Encode never meets a key outside the dictionary: what is coded is the key's own stretch. */
    method Encode(coder: RangeCoder, key: nat, ghost t: Table, ghost shift: nat, ghost maxkey: nat) returns (r: Outcome)
      requires coder.Encoding() && Coding(t, shift, maxkey) && key in t.keys
      modifies coder
      ensures coder.Wrote(r, [t.CodeOf(key, Pow2(shift))])
    {
      hide Pow2, After, Sum, Position, KeyTable.Chained;
      ghost var i := Position(t.keys, key);
      tab.KeysAreDistinct();
      var k := tab.Find(key);
      assert tab.keys[order[i]] == key;
      assert k == order[i];
      t.CodeIsValid(key, maxkey, Pow2(totShift));
      r := coder.EncodeShift(lows[k], counts[k], totShift);
    }

    method Load(coder: RangeCoder, maxkey: nat, ghost t: Table, ghost shift: nat, ghost rest: seq<Sym>)
      returns (r: Outcome)
      requires t.Valid(maxkey, Pow2(shift)) && Sum(t.counts) == Pow2(shift) && |t.keys| <= tab.maxkeys
      requires coder.InSync(DictSyms(t, tab.maxkeys, maxkey, Pow2(shift)) + rest)
      modifies this, coder
      ensures r.Pass? && coder.InSync(rest) && Decompressing(t) && totShift == shift
    {
      hide UniSyms, BitLen, Pow2, Emit, Sum;
      var bits := GetBitLen(tab.maxkeys);
      var nkeys: nat;
      ghost var entries := EntrySyms(t, 0, maxkey, Pow2(shift));
      assert DictSyms(t, tab.maxkeys, maxkey, Pow2(shift)) + rest
             == UniSyms(|t.keys|, tab.maxkeys) + (entries + rest);
      r, nkeys := coder.DecodeBelow(tab.maxkeys, bits, |t.keys|, entries + rest);
      if r.Fail? {
        return;
      }
      var bitmax := GetBitLen(maxkey);
      r, keys, counts, lows, owner := LoadEntries(coder, nkeys, maxkey, bitmax, t, Pow2(shift), rest);
      if r.Fail? {
        return;
      }
      assert t.counts[..|t.counts|] == t.counts;
      BitLenOfPow2(shift);
      totShift := GetBitLen(|owner| - 1);
    }

    method Decode(coder: RangeCoder, ghost t: Table, ghost maxkey: nat, ghost x: nat, ghost rest: seq<Sym>)
      returns (r: Outcome, key: nat)
      requires Decompressing(t) && t.Valid(maxkey, Pow2(totShift)) && Sum(t.counts) == Pow2(totShift)
      requires x in t.keys && coder.InSync([t.CodeOf(x, Pow2(totShift))] + rest)
      modifies coder
      ensures r.Pass? && key == x && coder.InSync(rest)
    {
      hide Pow2, Emit, Sum, Position, Bytes4;
      ghost var i := Position(t.keys, x);
      ghost var todo := [t.CodeOf(x, Pow2(totShift))] + rest;
      t.CodeIsValid(x, maxkey, Pow2(totShift));
      key := 0;
      var count: nat;
      r, count := coder.GetCount(Pow2(totShift), todo);
      if r.Fail? {
        return;
      }
      MapsFindsOwner(owner, t, i, count);
      var k := owner[count];
      key := keys[k];
      r := coder.Decode(lows[k], counts[k], Pow2(totShift), todo);
      assert todo[1..] == rest;
    }
  }

  method Total(counts: seq<nat>) returns (sum: nat)
    ensures sum == Sum(counts)
  {
    sum := 0;
    for i := 0 to |counts|
      invariant sum == Sum(counts[..i])
    {
      assert counts[..i+1][..i] == counts[..i];
      sum := sum + counts[i];
    }
    assert counts[..|counts|] == counts;
  }
}
