/** The partial dictionary: values that occur often are coded by their own stretch of counts, all
    others by the escape symbol and left behind, packed to the front of the array. */
module PartDicts {
  import opened Arith
  import opened RangeCoding
  import opened Outcomes
  import opened Uniform
  import opened RangeCoders
  import opened DataSets
  import opened FreqTable
  import opened KeyTables
  import opened TableCoding
  import opened Dictionaries

  const MINOCCUR := 4
  const MAXFREQ := 16389

  /** The coding total: the number of records rounded up to a power of two. */
  function Shift(n: nat): nat
    requires 0 < n
  {
    BitLen(n - 1)
  }

  lemma ShiftLeast(n: nat, b: nat)
    requires 0 < n
    ensures Shift(n) <= b <==> n <= Pow2(b)
  {
    hide Pow2, BitLen;
    BitLenBounds(n - 1);
    if n - 1 < Pow2(b) {
      BitLenLeast(n - 1, b);
    } else if Shift(n) <= b {
      Pow2Monotone(Shift(n), b);
    }
  }

  /** The records the dictionary does not hold, in order. */
  function Escaped(vals: seq<nat>, keys: seq<nat>): (e: seq<nat>)
    ensures |e| <= |vals|
  {
    if vals == [] then []
    else
      var n := |vals| - 1;
      Escaped(vals[..n], keys) + if vals[n] in keys then [] else [vals[n]]
  }

  /** The table holds exactly the values that occur at least MINOCCUR times, with their true counts. */
  ghost predicate Frequent(t: Table, vals: seq<nat>) {
    && |t.keys| == |t.counts|
    && (forall i :: 0 <= i < |t.keys| ==> t.counts[i] == multiset(vals)[t.keys[i]])
    && (forall x :: x in t.keys <==> multiset(vals)[x] >= MINOCCUR)
  }

  ghost predicate AllIn(vals: seq<nat>, keys: seq<nat>) {
    forall i :: 0 <= i < |vals| ==> vals[i] in keys
  }

  /** If any record needs the escape, the escape has a share of the total. */
  ghost predicate EscapeHasRoom(t: Table, vals: seq<nat>, total: nat) {
    forall i :: 0 <= i < |vals| && vals[i] !in t.keys ==> Sum(t.counts) < total
  }

  ghost predicate Fits(t: Table, d: Records) {
    && 0 < |d.vals| <= 0x1_0000
    && t.Valid(d.maxval, Pow2(Shift(|d.vals|)))
    && |t.keys| <= MAXFREQ
    && EscapeHasRoom(t, d.vals, Pow2(Shift(|d.vals|)))
    && Frequent(t, d.vals)
  }

  ghost function Codes(t: Table, vals: seq<nat>, total: nat): (c: seq<Sym>)
    requires |t.keys| == |t.counts| && Sum(t.counts) <= total
    ensures |c| == |vals|
    ensures forall i :: 0 <= i < |vals| ==> c[i] == t.CodeOf(vals[i], total)
  {
    seq(|vals|, i requires 0 <= i < |vals| => t.CodeOf(vals[i], total))
  }

  /** The saved dictionary: size, entries, total. */
  ghost function SaveSyms(t: Table, maxval: nat, total: nat): seq<Sym>
    requires t.Valid(maxval, total) && |t.keys| <= MAXFREQ
  {
    UniSyms(|t.keys|, MAXFREQ) + EntrySyms(t, 0, maxval, total) + UniSyms(total, 0x1_0000)
  }

  ghost function Syms(t: Table, d: Records): seq<Sym>
    requires Fits(t, d)
  {
    var total := Pow2(Shift(|d.vals|));
    UniSyms(0, 7) + SaveSyms(t, d.maxval, total) + Codes(t, d.vals, total)
  }

  ghost function Rest(t: Table, d: Records): Records {
    Records(Escaped(d.vals, t.keys), d.maxval)
  }

  lemma {:induction false} EscapedWithin(vals: seq<nat>, keys: seq<nat>, maxval: nat)
    requires forall i :: 0 <= i < |vals| ==> vals[i] <= maxval
    ensures forall i :: 0 <= i < |Escaped(vals, keys)| ==> Escaped(vals, keys)[i] <= maxval
    decreases |vals|
  {
    if vals != [] {
      EscapedWithin(vals[..|vals|-1], keys, maxval);
    }
  }

  /** Packing the escaped records to the front, in place: no record is overwritten before it is read. */
  method EncodeAll(coder: RangeCoder, dict: PartDict, data: array<nat>, nrec: nat, shift: nat,
                   ghost t: Table, ghost vals: seq<nat>, ghost maxval: nat)
    returns (r: Outcome, lenrest: nat)
    requires coder.Encoding() && nrec == |vals| <= data.Length && data[..nrec] == vals
    requires t.Valid(maxval, Pow2(shift)) && dict.Coding(t, Pow2(shift))
    requires AllIn(vals, dict.tab.keys) && EscapeHasRoom(t, vals, Pow2(shift))
    modifies coder, data
    ensures coder.Wrote(r, Codes(t, vals, Pow2(shift)))
    ensures r.Pass? ==> lenrest <= nrec && data[..lenrest] == Escaped(vals, t.keys)
  {
    hide After, Sum, Pow2, PartDict.Coding, Escaped, RangeCoder.Encoding;
    ghost var codes := Codes(t, vals, Pow2(shift));
    coder.EncodingBounds();
    lenrest := 0;
    var i := 0;
    EscapedStart(vals, t.keys);
    assert old(coder.done) + codes[..0] == old(coder.done);
    while i < nrec
      invariant 0 <= lenrest <= i <= nrec && coder.Kept() && coder.Encoding()
      invariant coder.done == old(coder.done) + codes[..i]
      invariant data[..lenrest] == Escaped(vals[..i], t.keys)
      invariant forall k :: i <= k < nrec ==> data[k] == vals[k]
      invariant dict.Coding(t, Pow2(shift))
    {
      EscapedNext(vals, t.keys, i);
      OneMoreCode(coder.done, old(coder.done), codes, i);
      var esc;
      r, esc := EncodeOne(coder, dict, data[i], shift, t, maxval);
      if r.Fail? {
        return;
      }
      if esc {
        data[lenrest] := data[i];
        lenrest := lenrest + 1;
      }
      i := i + 1;
    }
    assert codes[..i] == codes && vals[..i] == vals;
    r := Pass;
  }

  method EncodeOne(coder: RangeCoder, dict: PartDict, v: nat, shift: nat, ghost t: Table, ghost maxval: nat)
    returns (r: Outcome, esc: bool)
    requires coder.Encoding() && t.Valid(maxval, Pow2(shift)) && dict.Coding(t, Pow2(shift)) && v in dict.tab.keys
    requires v !in t.keys ==> Sum(t.counts) < Pow2(shift)
    modifies coder
    ensures coder.Wrote(r, [t.CodeOf(v, Pow2(shift))]) && (esc <==> v !in t.keys)
  {
    hide After, Sum, Pow2, PartDict.Coding, RangeCoder.Encoding;
    var low, cnt;
    esc, low, cnt := dict.GetRange(v, t, Pow2(shift));
    t.CodeIsValid(v, maxval, Pow2(shift));
    r := coder.EncodeShift(low, cnt, shift);
  }

  lemma JoinThree(a: seq<Sym>, b: seq<Sym>, c: seq<Sym>, d: seq<Sym>)
    ensures a + b + c + d == a + (b + c + d)
  {
  }

  lemma EscapedStart(vals: seq<nat>, keys: seq<nat>)
    ensures Escaped(vals[..0], keys) == []
  {
  }

  lemma EscapedNext(vals: seq<nat>, keys: seq<nat>, i: nat)
    requires i < |vals|
    ensures Escaped(vals[..i+1], keys) == Escaped(vals[..i], keys) + if vals[i] in keys then [] else [vals[i]]
  {
    assert vals[..i+1][..i] == vals[..i];
  }

  ghost predicate Distinct(s: seq<nat>) {
    forall i, j :: 0 <= i < j < |s| ==> s[i] != s[j]
  }

  /** freq lists the keys that are frequent; `other` counts all records whose key is not. */
  ghost predicate Picked(freq: seq<nat>, counts: seq<nat>, other: nat) {
    && Distinct(freq)
    && (forall i :: 0 <= i < |freq| ==> freq[i] < |counts| && counts[freq[i]] >= MINOCCUR)
    && (forall k :: 0 <= k < |counts| && counts[k] >= MINOCCUR ==> k in freq)
    && (forall k :: 0 <= k < |counts| && counts[k] < MINOCCUR ==> counts[k] <= other)
    && Sum(Select(counts, freq)) + other == Sum(counts)
  }

  method PickFrequent(counts: seq<nat>) returns (freq: seq<nat>, ghost other: nat)
    ensures Picked(freq, counts, other)
  {
    hide Sum;
    freq, other := [], 0;
    assert counts[..0] == Select(counts, freq) == [];
    SumOfNone();
    for k := 0 to |counts|
      invariant Distinct(freq) && forall i :: 0 <= i < |freq| ==> freq[i] < k && counts[freq[i]] >= MINOCCUR
      invariant forall j :: 0 <= j < k && counts[j] >= MINOCCUR ==> j in freq
      invariant Sum(Select(counts, freq)) + other == Sum(counts[..k])
      invariant forall j :: 0 <= j < k && counts[j] < MINOCCUR ==> counts[j] <= other
    {
      SumOfSnoc(counts[..k], counts[k]);
      assert counts[..k+1] == counts[..k] + [counts[k]];
      if counts[k] >= MINOCCUR {
        SumOfSnoc(Select(counts, freq), counts[k]);
        assert Select(counts, freq + [k]) == Select(counts, freq) + [counts[k]];
        freq := freq + [k];
        assert freq[|freq|-1] == k;
      } else {
        other := other + counts[k];
      }
    }
    assert counts[..|counts|] == counts;
  }

  lemma SelectSelect(s: seq<nat>, f: seq<nat>, o: seq<nat>)
    requires (forall i :: 0 <= i < |f| ==> f[i] < |s|) && forall i :: 0 <= i < |o| ==> o[i] < |f|
    ensures Select(s, Select(f, o)) == Select(Select(s, f), o)
  {
  }

  /** The frequent keys by descending count. */
  method FrequentByCount(counts: seq<nat>) returns (freq: seq<nat>, ghost other: nat)
    ensures Picked(freq, counts, other) && Descending(freq, counts)
  {
    hide Sum;
    var found: seq<nat>;
    found, other := PickFrequent(counts);
    var order := SortByCount(Select(counts, found));
    freq := Select(found, order);
    SelectSelect(counts, found, order);
    SelectKeepsDistinct(found, order);
    forall k | 0 <= k < |counts| && counts[k] >= MINOCCUR
      ensures k in freq
    {
      SelectKeepsAll(found, order, k);
    }
  }

  /** Stretches for the frequent keys, one after the other. */
  method SetLows(freq: seq<nat>, counts: seq<nat>) returns (lows: seq<int>, low: nat)
    requires Distinct(freq) && forall i :: 0 <= i < |freq| ==> freq[i] < |counts|
    ensures |lows| == |counts| && low == Sum(Select(counts, freq))
    ensures forall i :: 0 <= i < |freq| ==> lows[freq[i]] == Sum(Select(counts, freq)[..i])
    ensures forall k :: 0 <= k < |counts| ==> (lows[k] == -1 <==> k !in freq)
  {
    hide Sum;
    lows, low := seq(|counts|, _ => -1), 0;
    ghost var cs := Select(counts, freq);
    SumOfNone();
    for f := 0 to |freq|
      invariant |lows| == |counts| && low == Sum(cs[..f])
      invariant forall i :: 0 <= i < f ==> lows[freq[i]] == Sum(cs[..i])
      invariant forall k :: 0 <= k < |counts| ==> (lows[k] == -1 <==> k !in freq[..f])
    {
      SumOfSnoc(cs[..f], cs[f]);
      assert cs[..f+1] == cs[..f] + [cs[f]];
      assert freq[..f+1] == freq[..f] + [freq[f]];
      lows := lows[freq[f] := low];
      low := low + counts[freq[f]];
    }
    assert cs[..|freq|] == cs && freq[..|freq|] == freq;
  }

  /** Counting every record; the table never overflows. */
  method CountAll(tab: KeyTable, data: array<nat>, nrec: nat)
    requires tab.Chained() && tab.maxkeys >= 0x1_0000 && nrec <= data.Length && nrec <= 0x1_0000
    modifies tab
    ensures tab.Counting() && tab.bag == multiset(data[..nrec])
  {
    hide KeyTable.Chained, Tally;
    tab.Clear();
    for i := 0 to nrec
      invariant tab.Counting() && tab.bag == multiset(data[..i])
    {
      TallySize(tab.keys, tab.counts, tab.bag);
      assert |multiset(data[..i])| == i;
      var ok := tab.Insert(data[i]);
      TallySize(tab.keys, tab.counts, tab.bag);
      assert ok;
      assert data[..i+1] == data[..i] + [data[i]];
    }
  }

  lemma TallySize(keys: seq<nat>, counts: seq<nat>, bag: multiset<nat>)
    requires Tally(keys, counts, bag)
    ensures |keys| <= |bag|
  {
    SumAtLeast(counts, 1);
  }

  lemma TallyOfKey(keys: seq<nat>, counts: seq<nat>, bag: multiset<nat>, x: nat) returns (k: nat)
    requires Tally(keys, counts, bag) && x in bag
    ensures k < |keys| && keys[k] == x && counts[k] == bag[x] > 0
  {
    assert x in keys;
    k :| k < |keys| && keys[k] == x;
  }

  lemma FrequentIsValid(keys: seq<nat>, counts: seq<nat>, freq: seq<nat>, other: nat, maxval: nat, total: nat)
    requires Picked(freq, counts, other) && Descending(freq, counts)
    requires |keys| == |counts| && Distinct(keys) && forall k :: 0 <= k < |keys| ==> keys[k] <= maxval
    requires Sum(counts) <= total <= 0x1_0000
    ensures var t := Table(Select(keys, freq), Select(counts, freq));
            t.Valid(maxval, total) && |t.keys| <= MAXFREQ
  {
    hide Sum;
    SelectKeepsDistinct(keys, freq);
    SumAtLeast(Select(counts, freq), 4);
  }

  /** Frequent values are selected, no others. */
  lemma FrequentExactly(keys: seq<nat>, counts: seq<nat>, freq: seq<nat>, other: nat, vals: seq<nat>, x: nat)
    requires Tally(keys, counts, multiset(vals)) && Distinct(keys) && Picked(freq, counts, other)
    ensures x in Select(keys, freq) <==> multiset(vals)[x] >= MINOCCUR
    ensures x in vals && x !in Select(keys, freq) ==> Sum(Select(counts, freq)) < |vals|
  {
    hide Sum;
    if x in multiset(vals) {
      var k := TallyOfKey(keys, counts, multiset(vals), x);
      SelectedIff(keys, freq, k);
    }
  }

  /** The sorted frequent keys are a valid table, and exactly the frequent values. */
  lemma FrequentFits(keys: seq<nat>, counts: seq<nat>, freq: seq<nat>, other: nat, d: Records)
    requires Tally(keys, counts, multiset(d.vals)) && Distinct(keys) && 0 < |d.vals| <= 0x1_0000
    requires forall i :: 0 <= i < |d.vals| ==> d.vals[i] <= d.maxval
    requires Picked(freq, counts, other) && Descending(freq, counts)
    ensures Fits(Table(Select(keys, freq), Select(counts, freq)), d)
  {
    hide Sum, Pow2, BitLen, Picked;
    var t := Table(Select(keys, freq), Select(counts, freq));
    RoundUp(|d.vals|);
    TallySum(keys, counts, multiset(d.vals));
    KeysBounded(keys, counts, d);
    FrequentIsValid(keys, counts, freq, other, d.maxval, Pow2(Shift(|d.vals|)));
    forall x
      ensures x in t.keys <==> multiset(d.vals)[x] >= MINOCCUR
      ensures x in d.vals && x !in t.keys ==> Sum(t.counts) < |d.vals|
    {
      FrequentExactly(keys, counts, freq, other, d.vals, x);
    }
    CountsAreTrue(keys, counts, freq, other, d.vals);
  }

  lemma KeysBounded(keys: seq<nat>, counts: seq<nat>, d: Records)
    requires Tally(keys, counts, multiset(d.vals)) && forall i :: 0 <= i < |d.vals| ==> d.vals[i] <= d.maxval
    ensures forall k :: 0 <= k < |keys| ==> keys[k] <= d.maxval
  {
    forall k | 0 <= k < |keys|
      ensures keys[k] <= d.maxval
    {
      assert keys[k] in multiset(d.vals);
    }
  }

  lemma CountsAreTrue(keys: seq<nat>, counts: seq<nat>, freq: seq<nat>, other: nat, vals: seq<nat>)
    requires Tally(keys, counts, multiset(vals)) && Picked(freq, counts, other)
    ensures forall i :: 0 <= i < |freq| ==> Select(counts, freq)[i] == multiset(vals)[Select(keys, freq)[i]]
  {
    hide Sum;
  }

  lemma SelectedIff(keys: seq<nat>, freq: seq<nat>, k: nat)
    requires Distinct(keys) && k < |keys| && forall i :: 0 <= i < |freq| ==> freq[i] < |keys|
    ensures keys[k] in Select(keys, freq) <==> k in freq
  {
    var s := Select(keys, freq);
    if keys[k] in s {
      var i :| 0 <= i < |s| && s[i] == keys[k];
      assert freq[i] == k;
    }
    if k in freq {
      var i :| 0 <= i < |freq| && freq[i] == k;
      assert s[i] == keys[k];
    }
  }

  class PartDict {
    const tab: KeyTable
    var freq: seq<nat>         // indices of the frequent keys, by descending count
    var lows: seq<int>         // of tab's keys; -1 for a key outside the dictionary
    var escLow: nat
    var escHigh: nat
    var escUse: nat
    var keys: seq<nat>         // loaded
    var counts: seq<nat>
    var loadedLows: seq<nat>
    var owner: seq<nat>        // cnt2val
    var decoded: seq<nat>
    var isesc: seq<bool>

    constructor (tab: KeyTable)
      ensures this.tab == tab
    {
      this.tab := tab;
      freq, lows, escLow, escHigh, escUse := [], [], 0, 0, 0;
      keys, counts, loadedLows, owner, decoded, isesc := [], [], [], [], [], [];
    }

    /** Ready to code with table t below the total: a key's low is that of its entry, or -1. */
    ghost predicate Coding(t: Table, total: nat)
      reads this, tab
    {
      && tab.Chained() && |lows| == |tab.keys| && |freq| == |t.keys| == |t.counts| && Sum(t.counts) <= total
      && (forall i :: 0 <= i < |freq| ==> freq[i] < |tab.keys| && lows[freq[i]] == t.Low(i))
      && (forall i :: 0 <= i < |freq| ==> t.keys[i] == tab.keys[freq[i]] && t.counts[i] == tab.counts[freq[i]])
      && (forall k :: 0 <= k < |lows| ==> (lows[k] == -1 <==> tab.keys[k] !in t.keys))
      && escLow == Sum(t.counts) && escHigh == total && escUse == total - Sum(t.counts)
    }

    method GetRange(v: nat, ghost t: Table, ghost total: nat) returns (esc: bool, low: nat, count: nat)
      requires Coding(t, total) && v in tab.keys
      ensures esc <==> v !in t.keys
      ensures Sym(low, count, total) == t.CodeOf(v, total)
    {
      hide Sum, Position, KeyTable.Chained;
      tab.KeysAreDistinct();
      var k := tab.Find(v);
      if lows[k] == -1 {
        return true, escLow, escUse;
      }
      ghost var i := Position(t.keys, v);
      assert tab.keys[freq[i]] == v;
      assert k == freq[i];
      return false, lows[k], tab.counts[k];
    }

    lemma ReadyToCode(t: Table, total: nat)
      requires tab.Chained() && |lows| == |tab.keys| && Sum(t.counts) <= total
      requires forall i :: 0 <= i < |freq| ==> freq[i] < |tab.keys|
      requires t == Table(Select(tab.keys, freq), Select(tab.counts, freq))
      requires forall i :: 0 <= i < |freq| ==> lows[freq[i]] == Sum(t.counts[..i])
      requires forall k :: 0 <= k < |lows| ==> (lows[k] == -1 <==> k !in freq)
      requires escLow == Sum(t.counts) && escHigh == total && escUse == total - Sum(t.counts)
      ensures Coding(t, total)
    {
      hide Sum, KeyTable.Chained;
      tab.KeysAreDistinct();
      forall k | 0 <= k < |lows|
        ensures lows[k] == -1 <==> tab.keys[k] !in t.keys
      {
        SelectedIff(tab.keys, freq, k);
      }
    }

    method Create(data: array<nat>, nrec: nat, ghost d: Records) returns (ghost t: Table)
      requires tab.Chained() && tab.maxkeys >= 0x1_0000
      requires 0 < nrec <= data.Length && nrec <= 0x1_0000 && data[..nrec] == d.vals
      requires forall i :: 0 <= i < |d.vals| ==> d.vals[i] <= d.maxval
      modifies this, tab
      ensures Fits(t, d) && Coding(t, Pow2(Shift(nrec)))
      ensures AllIn(d.vals, tab.keys)
    {
      hide Sum, Pow2, BitLen, Tally, KeyTable.Chained, Fits, Picked, Coding;
      CountAll(tab, data, nrec);
      tab.KeysAreDistinct();
      ghost var other: nat;
      freq, other := FrequentByCount(tab.counts);
      FrequentFits(tab.keys, tab.counts, freq, other, d);
      PickedIndices(freq, tab.counts, other);
      t := Table(Select(tab.keys, freq), Select(tab.counts, freq));
      lows, escLow := SetLows(freq, tab.counts);
      var bits := GetBitLen(nrec - 1);
      escHigh := Pow2(bits);
      FitsBounds(t, d);
      escUse := escHigh - escLow;
      ReadyToCode(t, escHigh);
      forall i | 0 <= i < nrec
        ensures d.vals[i] in tab.keys
      {
        TallyKnows(tab.keys, tab.counts, tab.bag, d.vals[i]);
      }
    }

    method Save(coder: RangeCoder, maxval: nat, ghost t: Table, ghost total: nat) returns (r: Outcome)
      requires coder.Encoding() && Coding(t, total) && t.Valid(maxval, total) && |t.keys| <= MAXFREQ
      modifies coder
      ensures coder.Wrote(r, SaveSyms(t, maxval, total))
    {
      hide UniSyms, BitLen, After, Sum, KeyTable.Chained, RangeCoder.Encoding, Coding, EntrySyms, Select, Table.Valid;
      EntriesAre(t, maxval, total);
      var lenFreq := GetBitLen(MAXFREQ);
      :- coder.EncodeBelow(|freq|, MAXFREQ, lenFreq);
      var bitmax := GetBitLen(maxval);
      :- SaveEntries(coder, Table(Select(tab.keys, freq), Select(tab.counts, freq)), maxval, bitmax, total);
      var lenTotal := GetBitLen(0x1_0000);
      r := coder.EncodeBelow(escHigh, 0x1_0000, lenTotal);
      JoinThree(old(coder.done), UniSyms(|t.keys|, MAXFREQ), EntrySyms(t, 0, maxval, total), UniSyms(total, 0x1_0000));
    }

    lemma EntriesAre(t: Table, maxval: nat, total: nat)
      requires Coding(t, total) && t.Valid(maxval, total)
      ensures |freq| == |t.keys| && escHigh == total <= 0x1_0000
      ensures (forall i :: 0 <= i < |freq| ==> freq[i] < |tab.keys|) && |tab.counts| == |tab.keys|
      ensures Select(tab.keys, freq) == t.keys && Select(tab.counts, freq) == t.counts
    {
      hide Sum, KeyTable.Chained;
      tab.KeysAreDistinct();
    }

    method Write(coder: RangeCoder, ds: DataSet, ghost t: Table, ghost d: Records) returns (r: Outcome)
      requires coder.Encoding() && ds.nrec <= ds.data.Length && ds.View() == d && Fits(t, d)
      requires Coding(t, Pow2(Shift(|d.vals|))) && AllIn(d.vals, tab.keys)
      modifies coder, ds, ds.data
      ensures coder.Wrote(r, Syms(t, d))
      ensures r.Pass? ==> ds.nrec <= ds.data.Length && ds.View() == Rest(t, d)
    {
      hide UniSyms, BitLen, After, Sum, Pow2, SaveSyms, Coding, Frequent, AllIn, EscapeHasRoom, RangeCoder.Encoding;
      var lenVersion := GetBitLen(7);
      :- coder.EncodeBelow(0, 7, lenVersion);
      ghost var total := Pow2(Shift(ds.nrec));
      :- Save(coder, ds.maxval, t, total);
      var shift := GetBitLen(ds.nrec - 1);
      var lenrest: nat;
      r, lenrest := EncodeAll(coder, this, ds.data, ds.nrec, shift, t, d.vals, d.maxval);
      if r.Fail? {
        return;
      }
      ds.nrec := lenrest;
      JoinThree(old(coder.done), UniSyms(0, 7), SaveSyms(t, d.maxval, total), Codes(t, d.vals, total));
    }

    /** Whether the dictionary pays is an estimate; here it is any choice. */
    method Encode(coder: RangeCoder, ds: DataSet) returns (r: Outcome, used: bool, ghost info: Table)
      requires tab.Chained() && tab.maxkeys >= 0x1_0000 && coder.Encoding() && ds.Valid() && 0 < ds.nrec
      modifies this, tab, coder, ds, ds.data
      ensures tab.Chained() && coder.Kept() && (r.Pass? ==> ds.Valid())
      ensures r.Pass? && !used ==> coder.Wrote(r, []) && ds.View() == old(ds.View())
      ensures r.Fail? || used ==>
                && Fits(info, old(ds.View()))
                && coder.Wrote(r, Syms(info, old(ds.View())))
                && (r.Pass? ==> ds.View() == Rest(info, old(ds.View())))
    {
      hide UniSyms, BitLen, After, Sum, Pow2, KeyTable.Chained, Coding, Fits, Syms;
      ghost var d := ds.View();
      used, r := false, Pass;
      info := Create(ds.data, ds.nrec, d);
      CodingIsChained(info, Pow2(Shift(ds.nrec)));
      var pays: bool := *;
      if pays {
        EscapedWithin(d.vals, info.keys, d.maxval);
        r := Write(coder, ds, info, d);
        used := r.Pass?;
      }
    }

    lemma CodingIsChained(t: Table, total: nat)
      requires Coding(t, total)
      ensures tab.Chained()
    {
    }

    /** Ready to decode with table t. */
    ghost predicate Decoding(t: Table, total: nat)
      reads this`keys, this`counts, this`loadedLows, this`owner, this`escLow, this`escHigh, this`escUse
    {
      && keys == t.keys && counts == t.counts && |loadedLows| == |keys| == |counts|
      && (forall i :: 0 <= i < |keys| ==> loadedLows[i] == t.Low(i))
      && Maps(owner, t, |keys|)
      && Sum(t.counts) <= total
      && escLow == Sum(t.counts) && escHigh == total && escUse == total - Sum(t.counts)
    }

    method Load(coder: RangeCoder, maxval: nat, ghost t: Table, ghost total: nat, ghost rest: seq<Sym>)
      returns (r: Outcome)
      requires t.Valid(maxval, total) && |t.keys| <= MAXFREQ && coder.InSync(SaveSyms(t, maxval, total) + rest)
      modifies this, coder
      ensures r.Pass? && coder.InSync(rest) && Decoding(t, total)
    {
      hide UniSyms, BitLen, Emit, Sum, EntrySyms, RangeCoder.InSync;
      var lenFreq := GetBitLen(MAXFREQ);
      var nfreq: nat;
      coder.SyncIsDecoding(SaveSyms(t, maxval, total) + rest);
      ghost var last := UniSyms(total, 0x1_0000) + rest;
      ghost var entries := EntrySyms(t, 0, maxval, total) + last;
      assert SaveSyms(t, maxval, total) + rest == UniSyms(|t.keys|, MAXFREQ) + entries;
      r, nfreq := coder.DecodeBelow(MAXFREQ, lenFreq, |t.keys|, entries);
      if r.Fail? {
        return;
      }
      coder.SyncIsDecoding(entries);
      var bitmax := GetBitLen(maxval);
      r, keys, counts, loadedLows, owner := LoadEntries(coder, nfreq, maxval, bitmax, t, total, last);
      if r.Fail? {
        return;
      }
      escLow := |owner|;
      coder.SyncIsDecoding(last);
      var lenTotal := GetBitLen(0x1_0000);
      r, escHigh := coder.DecodeBelow(0x1_0000, lenTotal, total, rest);
      if r.Fail? {
        return;
      }
      assert t.counts[..|t.counts|] == t.counts;
      if escLow > escHigh {
        return Fail(ERR_COR);
      }
      escUse := escHigh - escLow;
    }

    /** The value owning count c, or the escape. */
    method GetVal(c: nat, ghost t: Table, ghost total: nat, ghost x: nat)
      returns (esc: bool, val: nat, low: nat, count: nat)
      requires Decoding(t, total) && |t.keys| == |t.counts|
      requires t.CodeOf(x, total).cum <= c < t.CodeOf(x, total).cum + t.CodeOf(x, total).freq
      ensures esc <==> x !in t.keys
      ensures !esc ==> val == x
      ensures Sym(low, count, total) == t.CodeOf(x, total)
    {
      hide Sum, Position;
      if c >= escLow {
        if x in t.keys {
          t.EscapeOwnsTheRest(Position(t.keys, x), c, total);
        }
        return true, 0, escLow, escUse;
      }
      ghost var i := Position(t.keys, x);
      MapsFindsOwner(owner, t, i, c);
      var k := owner[c];
      return false, keys[k], loadedLows[k], counts[k];
    }

    method DecodeOne(coder: RangeCoder, shift: nat, ghost t: Table, ghost x: nat, ghost rest: seq<Sym>)
      returns (r: Outcome, esc: bool, val: nat)
      requires Decoding(t, Pow2(shift)) && |t.keys| == |t.counts|
      requires Sum(t.counts) <= Pow2(shift) && t.CodeOf(x, Pow2(shift)).Valid()
      requires coder.InSync([t.CodeOf(x, Pow2(shift))] + rest)
      modifies coder
      ensures r.Pass? && coder.InSync(rest)
      ensures (esc <==> x !in t.keys) && (!esc ==> val == x)
    {
      hide Emit, Sum, Pow2, Table.CodeOf, Decoding;
      ghost var todo := [t.CodeOf(x, Pow2(shift))] + rest;
      assert todo[1..] == rest;
      CodeTotal(t, x, Pow2(shift));
      esc, val := false, 0;
      var c, low, count: nat;
      r, c := coder.GetCount(Pow2(shift), todo);
      if r.Fail? {
        return;
      }
      esc, val, low, count := GetVal(c, t, Pow2(shift), x);
      r := coder.Decode(low, count, Pow2(shift), todo);
    }

    method DecodeAll(coder: RangeCoder, len: nat, shift: nat, ghost t: Table, ghost vals: seq<nat>, ghost maxval: nat,
                     ghost rest: seq<Sym>)
      returns (r: Outcome, lenrest: nat)
      requires len == |vals| && t.Valid(maxval, Pow2(shift)) && Decoding(t, Pow2(shift))
      requires EscapeHasRoom(t, vals, Pow2(shift)) && coder.InSync(Codes(t, vals, Pow2(shift)) + rest)
      modifies this`decoded, this`isesc, coder
      ensures r.Pass? && coder.InSync(rest)
      ensures Remembers(t, vals) && lenrest == |Escaped(vals, t.keys)|
    {
      hide Emit, Sum, Pow2, Escaped, Table.CodeOf, Decoding;
      ghost var codes := Codes(t, vals, Pow2(shift));
      decoded, isesc, lenrest, r := [], [], 0, Pass;
      var i := 0;
      EscapedStart(vals, t.keys);
      assert codes[0..] == codes;
      while i < len
        invariant 0 <= i <= len && r.Pass? && |decoded| == |isesc| == i
        invariant lenrest == |Escaped(vals[..i], t.keys)|
        invariant forall k :: 0 <= k < i ==> (isesc[k] <==> vals[k] !in t.keys) && (!isesc[k] ==> decoded[k] == vals[k])
        invariant Decoding(t, Pow2(shift)) && coder.InSync(codes[i..] + rest)
      {
        EscapedNext(vals, t.keys, i);
        t.CodeIsValid(vals[i], maxval, Pow2(shift));
        assert codes[i..] + rest == [codes[i]] + (codes[i+1..] + rest);
        var esc, val;
        r, esc, val := DecodeOne(coder, shift, t, vals[i], codes[i+1..] + rest);
        if r.Fail? {
          return;
        }
        decoded, isesc := decoded + [val], isesc + [esc];
        if esc {
          lenrest := lenrest + 1;
        }
        i := i + 1;
      }
      assert codes[i..] + rest == rest && vals[..i] == vals;
    }

    /** What Decode leaves for Merge. */
    ghost predicate Remembers(t: Table, vals: seq<nat>)
      reads this
    {
      Recorded(decoded, isesc, t, vals)
    }

    method Decode(coder: RangeCoder, ds: DataSet, ghost info: Table, ghost d: Records, ghost rest: seq<Sym>)
      returns (r: Outcome)
      requires Fits(info, d) && ds.Expects(d) && coder.InSync(Syms(info, d) + rest)
      modifies this, coder, ds
      ensures r.Pass? && coder.InSync(rest)
      ensures Remembers(info, d.vals) && ds.Expects(Rest(info, d))
    {
      hide Emit, UniSyms, BitLen, Sum, Pow2, SaveSyms, Codes, Decoding, Frequent, EscapeHasRoom;
      ghost var total := Pow2(Shift(|d.vals|));
      ghost var codes := Codes(info, d.vals, total) + rest;
      ghost var dict := SaveSyms(info, d.maxval, total) + codes;
      assert Syms(info, d) + rest == UniSyms(0, 7) + dict;
      var lenVersion := GetBitLen(7);
      var ver: nat;
      r, ver := coder.DecodeBelow(7, lenVersion, 0, dict);
      if r.Fail? {
        return;
      }
      if ver > 0 {
        return Fail(ERR_COR);
      }
      r := Load(coder, ds.maxval, info, total, codes);
      if r.Fail? {
        return;
      }
      TotalIsHigh(info, total);
      BitLenOfPow2(Shift(|d.vals|));
      var shift := GetBitLen(escHigh - 1);
      var lenrest: nat;
      r, lenrest := DecodeAll(coder, ds.nrec, shift, info, d.vals, d.maxval, rest);
      if r.Fail? {
        return;
      }
      EscapedWithin(d.vals, info.keys, d.maxval);
      ds.nrec := lenrest;
    }

    lemma TotalIsHigh(t: Table, total: nat)
      requires Decoding(t, total)
      ensures escHigh == total
    {
    }

    /** Unpacking from the back, in place: no escaped record is overwritten before it is moved. */
    method Merge(ds: DataSet, ghost info: Table, ghost d: Records)
      requires Remembers(info, d.vals) && ds.Holds(Rest(info, d)) && |d.vals| <= ds.data.Length
      modifies ds, ds.data
      ensures ds.Holds(d) && ds.maxval == old(ds.maxval)
    {
      Unpack(ds.data, decoded, isesc, ds.nrec, info.keys, d.vals);
      ds.nrec := |isesc|;
    }
  }

  ghost predicate Recorded(decoded: seq<nat>, isesc: seq<bool>, t: Table, vals: seq<nat>) {
    && |decoded| == |isesc| == |vals|
    && forall i :: 0 <= i < |vals| ==> (isesc[i] <==> vals[i] !in t.keys) && (!isesc[i] ==> decoded[i] == vals[i])
  }

  lemma CodeTotal(t: Table, v: nat, total: nat)
    requires |t.keys| == |t.counts| && Sum(t.counts) <= total
    ensures t.CodeOf(v, total).total == total
  {
  }

  method Unpack(data: array<nat>, decoded: seq<nat>, isesc: seq<bool>, nrec: nat, ghost keys: seq<nat>,
                ghost vals: seq<nat>)
    requires |decoded| == |isesc| == |vals| <= data.Length
    requires forall i :: 0 <= i < |vals| ==> (isesc[i] <==> vals[i] !in keys) && (!isesc[i] ==> decoded[i] == vals[i])
    requires nrec <= data.Length && data[..nrec] == Escaped(vals, keys)
    modifies data
    ensures data[..|vals|] == vals
  {
    hide Escaped;
    var i, lenrest := |isesc|, nrec;
    assert vals[..i] == vals;
    while i > 0
      invariant 0 <= i <= |vals| && lenrest == |Escaped(vals[..i], keys)|
      invariant data[..lenrest] == Escaped(vals[..i], keys)
      invariant forall k :: i <= k < |vals| ==> data[k] == vals[k]
    {
      i := i - 1;
      EscapedNext(vals, keys, i);
      if isesc[i] {
        lenrest := lenrest - 1;
        data[i] := data[lenrest];
      } else {
        data[i] := decoded[i];
      }
    }
    EscapedStart(vals, keys);
    assert lenrest == 0;
  }

  lemma PickedIndices(freq: seq<nat>, counts: seq<nat>, other: nat)
    requires Picked(freq, counts, other)
    ensures Distinct(freq) && forall i :: 0 <= i < |freq| ==> freq[i] < |counts|
  {
  }

  lemma FitsBounds(t: Table, d: Records)
    requires Fits(t, d)
    ensures Sum(t.counts) <= Pow2(Shift(|d.vals|))
  {
  }
}
