/** A dictionary of the high bits of the records, or of their low bits; the other bits stay behind. */
module TopBitDicts {
  import opened Arith
  import opened RangeCoding
  import opened Outcomes
  import opened Uniform
  import opened RangeCoders
  import opened DataSets
  import opened FreqTable
  import opened KeyTables
  import opened Dictionaries

  /** The part of a record that goes to the dictionary, and the part that is left. */
  function KeyPart(x: nat, bits: nat, top: bool): nat {
    if top then Shr(x, bits) else x % Pow2(bits)
  }

  function RestPart(x: nat, bits: nat, top: bool): nat {
    if top then x % Pow2(bits) else Shr(x, bits)
  }

  /** `rest | key << bits` or `rest << bits | key` on w-bit words; the two parts share no bit. */
  function Join(key: nat, rest: nat, bits: nat, top: bool, w: nat): nat {
    if top then rest + Shl(key, bits) % Pow2(w) else Shl(rest, bits) % Pow2(w) + key
  }

  /** Largest values of the two parts, given the largest record. */
  function KeyMax(maxval: nat, bits: nat, top: bool): nat {
    if top then Shr(maxval, bits) else Pow2(bits) - 1
  }

  function RestMax(maxval: nat, bits: nat, top: bool): nat {
    if top then Pow2(bits) - 1 else Shr(maxval, bits)
  }

  /** The two parts stay within their bounds and determine the record. */
  lemma SplitIsExact(x: nat, maxval: nat, bits: nat, top: bool, w: nat)
    requires x <= maxval < Pow2(w) && bits <= w
    ensures KeyPart(x, bits, top) <= KeyMax(maxval, bits, top)
    ensures RestPart(x, bits, top) <= RestMax(maxval, bits, top) < Pow2(w)
    ensures Join(KeyPart(x, bits, top), RestPart(x, bits, top), bits, top, w) == x
  {
    hide Pow2;
    var p := Pow2(bits);
    Pow2Monotone(bits, w);
    assert x == x / p * p + x % p;
    QuotientMonotone(x, maxval, p);
    SmallMod(x / p * p, Pow2(w));
  }

  /** The bounds are reached, as long as no more bits are split off than the largest record has. */
  lemma SplitReachesBounds(maxval: nat, bits: nat, top: bool)
    requires Pow2(bits) <= maxval + 1
    ensures exists x: nat :: x <= maxval && KeyPart(x, bits, top) == KeyMax(maxval, bits, top)
    ensures exists x: nat :: x <= maxval && RestPart(x, bits, top) == RestMax(maxval, bits, top)
  {
    hide Pow2, Shr;
    var p := Pow2(bits);
    SmallMod(p - 1, p);
    assert KeyPart(if top then maxval else p - 1, bits, top) == KeyMax(maxval, bits, top);
    assert RestPart(if top then p - 1 else maxval, bits, top) == RestMax(maxval, bits, top);
  }

  datatype Split = Split(bits: nat, table: Table, shift: nat)

  ghost function Keys(vals: seq<nat>, bits: nat, top: bool): (ks: seq<nat>)
    ensures |ks| == |vals|
    ensures forall i :: 0 <= i < |vals| ==> ks[i] == KeyPart(vals[i], bits, top)
  {
    seq(|vals|, i requires 0 <= i < |vals| => KeyPart(vals[i], bits, top))
  }

  /** The dictionary holds the key of every record, and its counts fill the total: the least power of two that
      the records fit, with an even share of the rest for every key. */
  ghost predicate Fits(s: Split, d: Records, top: bool, maxkeys: nat, w: nat) {
    && s.bits <= w <= 64
    && s.table.Valid(KeyMax(d.maxval, s.bits, top), Pow2(s.shift))
    && Sum(s.table.counts) == Pow2(s.shift)
    && |s.table.keys| <= maxkeys
    && (forall i :: 0 <= i < |d.vals| ==> KeyPart(d.vals[i], s.bits, top) in s.table.keys)
    && 0 < |d.vals| && s.shift == BitLen(|d.vals| - 1)
    && Even(s.table, multiset(Keys(d.vals, s.bits, top)), Pow2(s.shift))
  }

  ghost function Codes(s: Split, vals: seq<nat>, top: bool): (c: seq<Sym>)
    requires |s.table.keys| == |s.table.counts| && Sum(s.table.counts) <= Pow2(s.shift)
    ensures |c| == |vals|
    ensures forall i :: 0 <= i < |vals| ==> c[i] == s.table.CodeOf(KeyPart(vals[i], s.bits, top), Pow2(s.shift))
  {
    seq(|vals|, i requires 0 <= i < |vals| => s.table.CodeOf(KeyPart(vals[i], s.bits, top), Pow2(s.shift)))
  }

  ghost function Head(s: Split, d: Records, top: bool, maxkeys: nat, w: nat): seq<Sym>
    requires Fits(s, d, top, maxkeys, w)
  {
    UniSyms(0, 7) + UniSyms(s.bits, 64) + DictSyms(s.table, maxkeys, KeyMax(d.maxval, s.bits, top), Pow2(s.shift))
  }

  ghost function Syms(s: Split, d: Records, top: bool, maxkeys: nat, w: nat): seq<Sym>
    requires Fits(s, d, top, maxkeys, w)
  {
    Head(s, d, top, maxkeys, w) + Codes(s, d.vals, top)
  }

  ghost function Rest(s: Split, d: Records, top: bool): (e: Records)
    ensures |e.vals| == |d.vals|
  {
    Records(seq(|d.vals|, i requires 0 <= i < |d.vals| => RestPart(d.vals[i], s.bits, top)),
            RestMax(d.maxval, s.bits, top))
  }

  lemma RestIsValid(s: Split, d: Records, top: bool, maxkeys: nat, w: nat)
    requires Fits(s, d, top, maxkeys, w) && d.Valid(w)
    ensures Rest(s, d, top).Valid(w)
  {
    hide KeyPart, RestPart, KeyMax, RestMax, Join, Pow2, Sum;
    forall i | 0 <= i < |d.vals|
      ensures RestPart(d.vals[i], s.bits, top) <= RestMax(d.maxval, s.bits, top) < Pow2(w)
    {
      SplitIsExact(d.vals[i], d.maxval, s.bits, top, w);
    }
    SplitIsExact(0, d.maxval, s.bits, top, w);
  }

  lemma BagNext(ks: seq<nat>, i: nat)
    requires i < |ks|
    ensures multiset(ks[..i + 1]) == multiset(ks[..i]) + multiset{ks[i]}
  {
    assert ks[..i + 1] == ks[..i] + [ks[i]];
  }

  /** Counting the keys of every skip-th record; with skip 1, of all of them. */
  method CountKeys(tab: KeyTable, data: array<nat>, nrec: nat, bits: nat, top: bool, skip: nat) returns (ok: bool)
    requires tab.Chained() && nrec <= data.Length && 0 < skip
    modifies tab
    ensures tab.Counting()
    ensures ok && skip == 1 ==> tab.bag == multiset(Keys(data[..nrec], bits, top))
    ensures ok && 0 < nrec ==> |tab.keys| > 0
  {
    hide KeyPart, KeyTable.Chained, Tally, Keys;
    tab.Clear();
    ghost var ks := Keys(data[..nrec], bits, top);
    var i := 0;
    assert skip == 1 ==> tab.bag == multiset(ks[..0]);
    while i < nrec
      invariant 0 <= i && tab.Counting() && (skip == 1 ==> i <= nrec)
      invariant skip == 1 ==> tab.bag == multiset(ks[..i])
      invariant 0 < i ==> |tab.bag| > 0
    {
      BagNext(ks, i);
      assert data[i] == data[..nrec][i];
      var key := KeyPart(data[i], bits, top);
      assert key == ks[i];
      ok := tab.Insert(key);
      if !ok {
        return;
      }
      i := i + skip;
    }
    assert skip == 1 ==> ks[..i] == ks;
    ok := true;
    if 0 < nrec {
      TallyNonEmpty(tab.keys, tab.counts, tab.bag);
    }
  }

  /** Sampling about eight records for each key there may be. */
  method SkipRate(nrec: nat, maxkey: nat) returns (skip: nat)
    requires 0 < maxkey
    ensures 0 < skip && (nrec < maxkey * 8 ==> skip == 1)
  {
    QuotientIsNat(nrec, maxkey * 8);
    skip := nrec / (maxkey * 8);
    if nrec < maxkey * 8 {
      DivUnique(nrec, maxkey * 8, 0, nrec);
    }
    if skip == 0 {
      skip := 1;
    }
  }

  lemma TallyNonEmpty(keys: seq<nat>, counts: seq<nat>, bag: multiset<nat>)
    requires Tally(keys, counts, bag) && |bag| > 0
    ensures |keys| > 0
  {
    var x :| x in bag;
  }

  /** The search for the number of bits: it may sample, abandon a size for any reason, and keep its best
      dictionary while it fills the other one. What it returns is complete all the same. */
  method FindOptimum(a: Dictionary, b: Dictionary, data: array<nat>, nrec: nat, nbit: nat, top: bool)
    returns (found: bool, bit: nat, dict: Dictionary)
    requires a.tab != b.tab && a.tab.Chained() && b.tab.Chained() && 0 < nrec <= data.Length
    modifies a.tab, b.tab
    ensures a.tab.Chained() && b.tab.Chained()
    ensures dict == a || dict == b
    ensures found ==> 0 < bit <= nbit
    ensures found ==>
              && dict.tab.Counting()
              && dict.tab.bag == multiset(Keys(data[..nrec], if top then nbit - bit else bit, top))
  {
    hide KeyPart, KeyTable.Chained, Tally, Keys;
    found, bit, dict := false, 0, a;
    if nbit <= 2 {
      return;
    }
    var spare := b;
    var tryBit := if nbit / 2 < 7 then nbit / 2 else 7;
    var maxkey, bestSkip := Pow2(tryBit), 1;
    while tryBit <= nbit
      invariant a.tab.Chained() && b.tab.Chained() && 0 < maxkey && 0 < bestSkip && bit <= nbit && 0 < tryBit
      invariant (dict == a && spare == b) || (dict == b && spare == a)
      invariant 0 < bit && bestSkip == 1 ==>
                  && dict.tab.Counting()
                  && dict.tab.bag == multiset(Keys(data[..nrec], if top then nbit - bit else bit, top))
      decreases nbit - tryBit
    {
      var skip := SkipRate(nrec, maxkey);
      var ok := CountKeys(spare.tab, data, nrec, if top then nbit - tryBit else tryBit, top, skip);
      var tooLong: bool := *;
      if !ok || tooLong {
        break;
      }
      var nkey := |spare.tab.keys|;
      var better: bool := *;
      if better {
        bit, bestSkip := tryBit, skip;
        if bestSkip == 1 {
          dict, spare := spare, dict;
        }
      }
      tryBit := tryBit + 2;
      maxkey := nkey * 4;
    }
    var shortEnough: bool := *;
    if bit == 0 || !shortEnough {
      return;
    }
    if bestSkip > 1 {
      found := CountKeys(dict.tab, data, nrec, if top then nbit - bit else bit, top, 1);
    } else {
      found := true;
    }
  }

  method SplitAll(coder: RangeCoder, dict: Dictionary, data: array<nat>, nrec: nat, top: bool, bits: nat,
                  ghost s: Split, ghost vals: seq<nat>, ghost maxkey: nat)
    returns (r: Outcome)
    requires coder.Encoding() && nrec == |vals| <= data.Length && data[..nrec] == vals
    requires bits == s.bits && dict.Coding(s.table, s.shift, maxkey) && s.table.Valid(maxkey, Pow2(s.shift))
    requires forall i :: 0 <= i < nrec ==> KeyPart(vals[i], bits, top) in s.table.keys
    modifies coder, data
    ensures coder.Wrote(r, Codes(s, vals, top))
    ensures r.Pass? ==> forall i :: 0 <= i < nrec ==> data[i] == RestPart(vals[i], bits, top)
  {
    hide KeyPart, RestPart, After, Sum, Pow2, Dictionary.Coding;
    ghost var codes := Codes(s, vals, top);
    var i := 0;
    assert old(coder.done) + codes[..0] == old(coder.done);
    while i < nrec
      invariant 0 <= i <= nrec && coder.Kept() && coder.Encoding()
      invariant coder.done == old(coder.done) + codes[..i]
      invariant forall k :: 0 <= k < i ==> data[k] == RestPart(vals[k], bits, top)
      invariant forall k :: i <= k < nrec ==> data[k] == vals[k]
      invariant dict.Coding(s.table, s.shift, maxkey)
    {
      OneMoreCode(coder.done, old(coder.done), codes, i);
      :- dict.Encode(coder, KeyPart(data[i], bits, top), s.table, s.shift, maxkey);
      data[i] := RestPart(data[i], bits, top);
      i := i + 1;
    }
    assert codes[..i] == codes;
    return Pass;
  }

  /** Version, number of low bits, dictionary. */
  method SaveHead(coder: RangeCoder, dict: Dictionary, maxval: nat, bits: nat, top: bool,
                  ghost s: Split, ghost d: Records, ghost w: nat)
    returns (r: Outcome)
    requires coder.Encoding() && Fits(s, d, top, dict.tab.maxkeys, w) && bits == s.bits && maxval == d.maxval
    requires dict.Coding(s.table, s.shift, KeyMax(maxval, bits, top))
    modifies coder
    ensures coder.Wrote(r, Head(s, d, top, dict.tab.maxkeys, w))
  {
    hide UniSyms, BitLen, Pow2, After, Sum, Dictionary.Coding, DictSyms, KeyMax, KeyPart;
    var lenVersion := GetBitLen(7);
    var lenBits := GetBitLen(64);
    :- coder.EncodeBelow(0, 7, lenVersion);
    :- coder.EncodeBelow(bits, 64, lenBits);
    r := dict.Save(coder, KeyMax(maxval, bits, top), s.table, s.shift);
    assert r.Pass? ==> coder.done == old(coder.done) + Head(s, d, top, dict.tab.maxkeys, w);
  }

  lemma KeysWithin(d: Records, bits: nat, top: bool, w: nat)
    requires d.Valid(w) && bits <= w
    ensures |multiset(Keys(d.vals, bits, top))| == |d.vals|
    ensures forall x :: x in multiset(Keys(d.vals, bits, top)) ==> x <= KeyMax(d.maxval, bits, top)
    ensures forall i :: 0 <= i < |d.vals| ==> KeyPart(d.vals[i], bits, top) in multiset(Keys(d.vals, bits, top))
  {
    hide KeyPart, RestPart, KeyMax, RestMax, Join, Pow2;
    forall i | 0 <= i < |d.vals|
      ensures KeyPart(d.vals[i], bits, top) <= KeyMax(d.maxval, bits, top)
      ensures KeyPart(d.vals[i], bits, top) in multiset(Keys(d.vals, bits, top))
    {
      SplitIsExact(d.vals[i], d.maxval, bits, top, w);
      assert Keys(d.vals, bits, top)[i] in Keys(d.vals, bits, top);
    }
  }

  /** A dictionary that counts the keys of all records is ready for them. */
  method Prepare(dict: Dictionary, top: bool, bits: nat, ghost d: Records, ghost w: nat) returns (ghost info: Split)
    requires d.Valid(w) && 0 < |d.vals| && bits <= w <= 64
    requires dict.tab.Counting() && dict.tab.bag == multiset(Keys(d.vals, bits, top))
    modifies dict
    ensures Fits(info, d, top, dict.tab.maxkeys, w) && info.bits == bits
    ensures dict.Coding(info.table, info.shift, KeyMax(d.maxval, bits, top))
  {
    hide Pow2, Sum, Dictionary.Coding, KeyTable.Chained, Tally, KeyMax, KeyPart, Table.Valid;
    KeysWithin(d, bits, top, w);
    ghost var t := dict.SetLows(KeyMax(d.maxval, bits, top));
    info := Split(bits, t, dict.totShift);
  }

  method EncodeWith(dict: Dictionary, coder: RangeCoder, ds: DataSet, top: bool, bits: nat)
    returns (r: Outcome, ghost info: Split)
    requires coder.Encoding() && ds.Valid() && 0 < ds.nrec && bits <= ds.w <= 64
    requires dict.tab.Counting() && dict.tab.bag == multiset(Keys(ds.View().vals, bits, top))
    modifies coder, ds, ds.data, dict
    ensures Fits(info, old(ds.View()), top, dict.tab.maxkeys, ds.w)
    ensures coder.Wrote(r, Syms(info, old(ds.View()), top, dict.tab.maxkeys, ds.w))
    ensures r.Pass? ==> ds.Valid() && ds.View() == Rest(info, old(ds.View()), top)
  {
    hide RangeCoder.Encoding, After, Dictionary.Coding, KeyTable.Chained, Tally, KeyMax, KeyPart, RestMax, RestPart,
         Head, Syms, Pow2, Sum;
    ghost var d := ds.View();
    info := Prepare(dict, top, bits, d, ds.w);
    r := WriteWith(dict, coder, ds, top, bits, info, d);
    if r.Fail? {
      return;
    }
    ds.maxval := RestMax(ds.maxval, bits, top);
    RestIsValid(info, d, top, dict.tab.maxkeys, ds.w);
    assert ds.data[..ds.nrec] == Rest(info, d, top).vals;
  }

  /** The dictionary, then the key of every record. */
  method WriteWith(dict: Dictionary, coder: RangeCoder, ds: DataSet, top: bool, bits: nat, ghost s: Split,
                   ghost d: Records)
    returns (r: Outcome)
    requires coder.Encoding() && ds.nrec <= ds.data.Length && ds.View() == d
    requires Fits(s, d, top, dict.tab.maxkeys, ds.w) && bits == s.bits
    requires dict.Coding(s.table, s.shift, KeyMax(d.maxval, bits, top))
    modifies coder, ds.data
    ensures coder.Wrote(r, Syms(s, d, top, dict.tab.maxkeys, ds.w))
    ensures r.Pass? ==> forall i :: 0 <= i < ds.nrec ==> ds.data[i] == RestPart(d.vals[i], bits, top)
  {
    hide RangeCoder.Encoding, After, Dictionary.Coding, KeyMax, KeyPart, RestPart, Head, Pow2, Sum, Codes, Syms,
         Table.Valid;
    SymsAre(s, d, top, dict.tab.maxkeys, ds.w);
    r := SaveHead(coder, dict, ds.maxval, bits, top, s, d, ds.w);
    if r.Fail? {
      return;
    }
    r := SplitAll(coder, dict, ds.data, ds.nrec, top, bits, s, d.vals, KeyMax(ds.maxval, bits, top));
  }

  lemma SymsAre(s: Split, d: Records, top: bool, maxkeys: nat, w: nat)
    requires Fits(s, d, top, maxkeys, w)
    ensures |s.table.keys| == |s.table.counts|
    ensures Syms(s, d, top, maxkeys, w) == Head(s, d, top, maxkeys, w) + Codes(s, d.vals, top)
  {
  }

  method LoadHead(coder: RangeCoder, dict: Dictionary, maxval: nat, top: bool,
                  ghost s: Split, ghost d: Records, ghost w: nat, ghost rest: seq<Sym>)
    returns (r: Outcome, bits: nat)
    requires Fits(s, d, top, dict.tab.maxkeys, w) && maxval == d.maxval
    requires coder.InSync(Head(s, d, top, dict.tab.maxkeys, w) + rest)
    modifies coder, dict
    ensures r.Pass? && bits == s.bits && coder.InSync(rest)
    ensures dict.Decompressing(s.table) && dict.totShift == s.shift
  {
    hide UniSyms, BitLen, Pow2, Emit, Sum, DictSyms, KeyMax, KeyPart;
    var lenVersion := GetBitLen(7);
    var lenBits := GetBitLen(64);
    var ver: nat;
    ghost var table := DictSyms(s.table, dict.tab.maxkeys, KeyMax(maxval, s.bits, top), Pow2(s.shift)) + rest;
    ghost var first := UniSyms(s.bits, 64) + table;
    assert Head(s, d, top, dict.tab.maxkeys, w) + rest == UniSyms(0, 7) + first;
    bits := 0;
    r, ver := coder.DecodeBelow(7, lenVersion, 0, first);
    if r.Fail? {
      return;
    }
    if ver > 0 {
      r := Fail(ERR_COR);
      return;
    }
    r, bits := coder.DecodeBelow(64, lenBits, s.bits, table);
    if r.Fail? {
      return;
    }
    r := dict.Load(coder, KeyMax(maxval, bits, top), s.table, s.shift, rest);
  }

  method DecodeKeys(coder: RangeCoder, dict: Dictionary, nrec: nat, top: bool,
                    ghost s: Split, ghost vals: seq<nat>, ghost maxkey: nat, ghost rest: seq<Sym>)
    returns (r: Outcome, decoded: seq<nat>)
    requires nrec == |vals| && dict.Decompressing(s.table) && dict.totShift == s.shift
    requires s.table.Valid(maxkey, Pow2(s.shift)) && Sum(s.table.counts) == Pow2(s.shift)
    requires forall i :: 0 <= i < nrec ==> KeyPart(vals[i], s.bits, top) in s.table.keys
    requires coder.InSync(Codes(s, vals, top) + rest)
    modifies coder
    ensures r.Pass? && coder.InSync(rest) && decoded == Keys(vals, s.bits, top)
  {
    hide KeyPart, Emit, Sum, Pow2, Dictionary.Decompressing;
    ghost var codes, ks := Codes(s, vals, top), Keys(vals, s.bits, top);
    decoded, r := [], Pass;
    var i := 0;
    assert codes[0..] == codes;
    while i < nrec
      invariant 0 <= i <= nrec && decoded == ks[..i] && r.Pass?
      invariant coder.InSync(codes[i..] + rest)
    {
      ghost var later := codes[i+1..] + rest;
      assert codes[i..] + rest == [codes[i]] + later;
      var key: nat;
      r, key := dict.Decode(coder, s.table, maxkey, ks[i], later);
      if r.Fail? {
        return;
      }
      decoded := decoded + [key];
      i := i + 1;
    }
    assert codes[i..] + rest == rest;
  }

  method JoinAll(data: array<nat>, nrec: nat, decoded: seq<nat>, bits: nat, top: bool, w: nat)
    requires nrec == |decoded| <= data.Length
    modifies data
    ensures forall i :: 0 <= i < nrec ==> data[i] == Join(decoded[i], old(data[i]), bits, top, w)
  {
    hide Join;
    for i := 0 to nrec
      invariant forall k :: 0 <= k < i ==> data[k] == Join(decoded[k], old(data[k]), bits, top, w)
      invariant forall k :: i <= k < nrec ==> data[k] == old(data[k])
    {
      data[i] := Join(decoded[i], data[i], bits, top, w);
    }
  }

  class TopBitDict {
    const top: bool
    const a: Dictionary
    const b: Dictionary
    var bitlow: nat
    var decoded: seq<nat>
    var maxvalMerge: nat

    constructor (top: bool, a: Dictionary, b: Dictionary)
      ensures this.top == top && this.a == a && this.b == b
    {
      this.top, this.a, this.b := top, a, b;
      bitlow, decoded, maxvalMerge := 0, [], 0;
    }

    ghost predicate Valid()
      reads a.tab, b.tab
    {
      a != b && a.tab != b.tab && a.tab.Chained() && b.tab.Chained() && a.tab.maxkeys == b.tab.maxkeys
    }

    method Encode(coder: RangeCoder, ds: DataSet) returns (r: Outcome, used: bool, ghost info: Split)
      requires Valid() && coder.Encoding() && ds.Valid() && 0 < ds.nrec && ds.w <= 64
      modifies this, coder, ds, ds.data, a, b, a.tab, b.tab
      ensures Valid() && coder.Kept() && (r.Pass? ==> ds.Valid())
      ensures r.Pass? && !used ==> coder.Wrote(r, []) && ds.View() == old(ds.View())
      ensures r.Fail? || used ==>
                && Fits(info, old(ds.View()), top, a.tab.maxkeys, ds.w)
                && coder.Wrote(r, Syms(info, old(ds.View()), top, a.tab.maxkeys, ds.w))
                && (r.Pass? ==> ds.View() == Rest(info, old(ds.View()), top))
    {
      hide UniSyms, BitLen, Pow2, After, Sum, Dictionary.Coding, KeyTable.Chained, Tally, DictSyms,
           KeyMax, KeyPart, RestMax, RestPart, Head, Table.Valid;
      ghost var d := ds.View();
      used, info := false, Split(0, Table([], []), 0);
      if ds.maxval == 0 {
        r := Pass;
        return;
      }
      var nbit := GetBitLen(ds.maxval);
      BitLenLeast(ds.maxval, ds.w);
      var found, bitdict, dict := FindOptimum(a, b, ds.data, ds.nrec, nbit, top);
      var pays: bool := *;
      if !found || !pays {
        r := Pass;
        return;
      }
      bitlow := if top then nbit - bitdict else bitdict;
      r, info := EncodeWith(dict, coder, ds, top, bitlow);
      used := r.Pass?;
    }

    /** What Decode leaves for Merge. */
    ghost predicate Remembers(info: Split, d: Records)
      reads this
    {
      bitlow == info.bits && decoded == Keys(d.vals, info.bits, top) && maxvalMerge == d.maxval
    }

    method Decode(coder: RangeCoder, ds: DataSet, ghost info: Split, ghost d: Records, ghost rest: seq<Sym>)
      returns (r: Outcome)
      requires Fits(info, d, top, a.tab.maxkeys, ds.w) && ds.Expects(d)
      requires coder.InSync(Syms(info, d, top, a.tab.maxkeys, ds.w) + rest)
      modifies this, coder, ds, a
      ensures r.Pass? && coder.InSync(rest)
      ensures Remembers(info, d) && ds.Expects(Rest(info, d, top))
    {
      hide Emit, KeyMax, KeyPart, RestMax, RestPart, Head, Pow2, Sum, Dictionary.Decompressing;
      ghost var codes := Codes(info, d.vals, top) + rest;
      assert Syms(info, d, top, a.tab.maxkeys, ds.w) + rest == Head(info, d, top, a.tab.maxkeys, ds.w) + codes;
      r, bitlow := LoadHead(coder, a, ds.maxval, top, info, d, ds.w, codes);
      if r.Fail? {
        return;
      }
      r, decoded := DecodeKeys(coder, a, ds.nrec, top, info, d.vals, KeyMax(d.maxval, info.bits, top), rest);
      if r.Fail? {
        return;
      }
      RestIsValid(info, d, top, a.tab.maxkeys, ds.w);
      maxvalMerge := ds.maxval;
      ds.maxval := RestMax(ds.maxval, bitlow, top);
    }

    method Merge(ds: DataSet, ghost info: Split, ghost d: Records)
      requires Fits(info, d, top, a.tab.maxkeys, ds.w) && d.Valid(ds.w)
      requires Remembers(info, d) && ds.Holds(Rest(info, d, top))
      modifies ds, ds.data
      ensures ds.Holds(d) && ds.maxval == d.maxval
    {
      hide Join, KeyPart, RestPart, KeyMax, RestMax, Pow2, Sum;
      assert forall i :: 0 <= i < ds.nrec ==> ds.data[i] == ds.data[..ds.nrec][i] == Rest(info, d, top).vals[i];
      JoinAll(ds.data, ds.nrec, decoded, bitlow, top, ds.w);
      forall i | 0 <= i < ds.nrec
        ensures ds.data[i] == d.vals[i]
      {
        SplitIsExact(d.vals[i], d.maxval, info.bits, top, ds.w);
      }
      ds.maxval := maxvalMerge;
    }
  }
}
