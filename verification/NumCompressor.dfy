/** The number compressor: the seven filters in order, one range coder for all of them. */
module NumCompressors {
  import opened Arith
  import opened RangeCoding
  import opened Outcomes
  import opened RangeCoders
  import opened FreqTable
  import opened KeyTables
  import opened DataSets
  import opened Dictionaries
  import opened Pipeline
  import opened CopyCoding
  import opened MinFilter
  import opened GcdFilter
  import opened DiffFilter
  import opened UniformFilter
  import opened PartDicts
  import opened TopBitDicts

  /** Keys per dictionary, for each type; the wide types share one limit. */
  function MaxKeys(w: nat): nat {
    if w == 8 then 256 else if w == 16 then 1024 else 4096
  }

  method NewDictionary(w: nat) returns (d: Dictionary)
    ensures d.tab.Chained() && d.tab.maxkeys == MaxKeys(w) && fresh(d) && fresh(d.tab)
  {
    var tab := new KeyTable((key: nat) => key % 0x1_0000, if w == 8 then 256 else 0x1_0000, MaxKeys(w));
    d := new Dictionary(tab);
  }

  method NewPartDict(w: nat, hash: nat -> nat) returns (p: PartDict)
    ensures p.tab.Chained() && p.tab.maxkeys == 0x1_0000 && fresh(p) && fresh(p.tab)
  {
    var tab := new KeyTable(hash, if w == 8 then 256 else if w == 16 then 0x1_0000 else 0x2_0000, 0x1_0000);
    p := new PartDict(tab);
  }

  method NewTopBitDict(top: bool, w: nat) returns (t: TopBitDict)
    ensures t.Valid() && t.top == top && t.a.tab.maxkeys == MaxKeys(w)
    ensures fresh(t) && fresh(t.a) && fresh(t.b) && fresh(t.a.tab) && fresh(t.b.tab)
  {
    hide KeyTable.Chained;
    var a := NewDictionary(w);
    var b := NewDictionary(w);
    t := new TopBitDict(top, a, b);
  }

  datatype Memory = Memory(minval: nat, gcd: nat, decoded: seq<nat>, isesc: seq<bool>,
                           topBits: nat, topKeys: seq<nat>, topMax: nat, lowBits: nat, lowKeys: seq<nat>, lowMax: nat)

  ghost predicate Recalls(m: Memory, st: Stage, d: Records) {
    match st
    case MinStage(v) => m.minval == v
    case GcdStage(g) => m.gcd == g
    case PartStage(t) => Recorded(m.decoded, m.isesc, t, d.vals)
    case TopStage(s) => m.topBits == s.bits && m.topKeys == Keys(d.vals, s.bits, true) && m.topMax == d.maxval
    case LowStage(s) => m.lowBits == s.bits && m.lowKeys == Keys(d.vals, s.bits, false) && m.lowMax == d.maxval
    case _ => true
  }

  /** Memories that differ at most in what filter f keeps. */
  ghost predicate Differ(m: Memory, n: Memory, f: nat) {
    && (f != 0 ==> m.minval == n.minval)
    && (f != 1 ==> m.gcd == n.gcd)
    && (f != 3 ==> m.decoded == n.decoded && m.isesc == n.isesc)
    && (f != 4 ==> m.topBits == n.topBits && m.topKeys == n.topKeys && m.topMax == n.topMax)
    && (f != 5 ==> m.lowBits == n.lowBits && m.lowKeys == n.lowKeys && m.lowMax == n.lowMax)
  }

  ghost predicate RecallsFirst(m: Memory, plan: Plan, n: nat) {
    n <= |plan.stages| < |plan.chain| && forall g :: 0 <= g < n ==> Recalls(m, plan.stages[g], plan.chain[g])
  }

  /** Filters do not disturb each other's memory. */
  lemma RecallsOneMore(m: Memory, n: Memory, plan: Plan, d: Records, k: Kind, f: nat)
    requires plan.Runs(d, k) && f < |plan.stages| && RecallsFirst(m, plan, f) && Differ(m, n, f)
    requires plan.stages[f].Skip? || Recalls(n, plan.stages[f], plan.chain[f])
    ensures RecallsFirst(n, plan, f + 1)
  {
    hide MinFilter.Fits, GcdFilter.Fits, PartDicts.Fits, TopBitDicts.Fits;
    forall g | 0 <= g < f
      ensures Recalls(n, plan.stages[g], plan.chain[g])
    {
      assert Recalls(m, plan.stages[g], plan.chain[g]);
      assert StageFits(plan.stages[g], g, plan.chain[g], k);
    }
  }

  lemma RecallsNone(m: Memory, plan: Plan)
    requires |plan.stages| < |plan.chain|
    ensures RecallsFirst(m, plan, 0)
  {
  }

  /** What the filters came to: the code of a complete run, or symbols of a run that do not fit. */
  datatype Trial = Trial(fits: bool, code: seq<byte>, plan: Plan, sent: seq<Sym>) {
    ghost predicate Of(d: Records, len: nat, k: Kind)
      requires 3 <= len
    {
      if fits then |code| <= len && IsCodeOf(plan, code, d, k) else TooLong(plan, sent, len - 3, d, k)
    }
  }

  /** `pos >= 0.98 * nrec * sizeof(T)`. */
  predicate TooBig(pos: nat, nrec: nat, size: nat) {
    pos as real >= 0.98 * (nrec * size) as real
  }

  lemma TooBigIff(pos: nat, nrec: nat, size: nat)
    ensures TooBig(pos, nrec, size) <==> 50 * pos >= 49 * (nrec * size)
  {
  }

  /** A plain copy, if and only if it fits. */
  ghost predicate Copied(r: Outcome, dest: seq<byte>, vals: seq<nat>, size: nat, len: nat) {
    && r == (if 1 + |vals| * size <= len then Pass else Fail(ERR_BUF))
    && (r.Pass? ==> dest == [0] + Image(vals, size))
  }

  /** A pack holds data d: a plain copy, or the bytes of some complete run of the filters. */
  ghost predicate Packed(bytes: seq<byte>, d: Records, k: Kind) {
    bytes == [0] + Image(d.vals, k.w / 8) || exists plan :: IsCodeOf(plan, bytes, d, k)
  }

  /** Closing the stream and storing the ID. */
  method Finish(coder: RangeCoder, id: nat, ghost plan: Plan, ghost d: Records, ghost k: Kind)
    returns (r: Outcome, dest: seq<byte>)
    requires coder.Encoding() && coder.start == 3 && coder.buf[0] == 1
    requires plan.Runs(d, k) && plan.Complete() && coder.done == Flat(plan.Parts(d, k)) && id == IdOf(plan.stages)
    modifies coder
    ensures r.Pass? ==> |dest| <= |old(coder.buf)| && IsCodeOf(plan, dest, d, k)
    ensures r.Fail? ==> r.error == ERR_BUF && TooLong(plan, old(coder.done), |old(coder.buf)| - 3, d, k)
  {
    hide StageFits, StageSyms, StageRest, Emit, After, Plan.Runs, IdOf, Flat;
    dest := [];
    IdFits(plan, d, k);
    r := coder.EndCompress();
    if r.Fail? {
      return;
    }
    var out := coder.buf[1 := id % 256][2 := id / 256];
    assert out[0] == coder.buf[..3][0] == old(coder.buf)[..3][0] == 1;
    dest := out[..coder.pos];
    assert dest == [1, id % 256, id / 256] + coder.buf[3..coder.pos];
  }

  class NumCompressor {
    const kind: Kind
    const copyOnly: bool
    const dfMin: DataFiltMin
    const dfGcd: DataFiltGcd
    const dfDiff: DataFiltDiff
    const dfPart: PartDict
    const dfTop: TopBitDict
    const dfLow: TopBitDict
    const dfUniform: DataFiltUniform

    /** The dictionaries hash by the low 16 bits of the key; the partial dictionary's hash is any function. */
    constructor (w: nat, copyOnly: bool, partHash: nat -> nat)
      requires w in {8, 16, 32, 64}
      ensures Valid() && kind == Kind(w, MaxKeys(w)) && this.copyOnly == copyOnly && fresh(Repr())
    {
      hide KeyTable.Chained, Tally;
      kind, this.copyOnly := Kind(w, MaxKeys(w)), copyOnly;
      var part := NewPartDict(w, partHash);
      var top := NewTopBitDict(true, w);
      var low := NewTopBitDict(false, w);
      dfPart, dfTop, dfLow := part, top, low;
      dfMin := new DataFiltMin();
      dfGcd := new DataFiltGcd();
      dfDiff := new DataFiltDiff();
      dfUniform := new DataFiltUniform();
    }

    ghost predicate Valid()
      reads dfPart.tab, dfTop.a.tab, dfTop.b.tab, dfLow.a.tab, dfLow.b.tab
    {
      && kind.w <= 64
      && dfPart.tab.Chained() && dfPart.tab.maxkeys >= 0x1_0000
      && dfTop.Valid() && dfTop.top && dfTop.a.tab.maxkeys == kind.maxkeys
      && dfLow.Valid() && !dfLow.top && dfLow.a.tab.maxkeys == kind.maxkeys
      && dfTop != dfLow
      && dfPart.tab !in {dfTop.a.tab, dfTop.b.tab, dfLow.a.tab, dfLow.b.tab}
      && {dfTop.a.tab, dfTop.b.tab} !! {dfLow.a.tab, dfLow.b.tab}
    }

    ghost function Repr(): set<object> {
      {dfMin, dfGcd, dfPart, dfPart.tab,
       dfTop, dfTop.a, dfTop.b, dfTop.a.tab, dfTop.b.tab,
       dfLow, dfLow.a, dfLow.b, dfLow.a.tab, dfLow.b.tab}
    }

    /** Encode of filter f. */
    method EncodeStage(f: nat, coder: RangeCoder, ds: DataSet) returns (r: Outcome, used: bool, ghost st: Stage)
      requires Valid() && f < 7 && coder.Encoding() && ds.Valid() && 0 < ds.nrec && ds.w == kind.w
      modifies Repr(), coder, ds, ds.data
      ensures Valid()
      ensures StageFits(st, f, old(ds.View()), kind) && coder.Wrote(r, StageSyms(st, f, old(ds.View()), kind))
      ensures r.Pass? ==>
                && (used <==> !st.Skip?)
                && (f < 6 ==> ds.Valid() && ds.View() == StageRest(st, f, old(ds.View()), kind))
    {
      hide RangeCoder.Encoding, MinFilter.Fits, GcdFilter.Fits, PartDicts.Fits, TopBitDicts.Fits, KeyTable.Chained,
           After, Pow2,
           MinFilter.Syms, GcdFilter.Syms, DiffFilter.Syms, PartDicts.Syms, TopBitDicts.Syms, UniformFilter.Syms,
           DiffFilter.Rest, PartDicts.Rest, TopBitDicts.Rest, GcdFilter.Rest;
      st, used := Skip, false;
      if f == 0 {
        ghost var m;
        r, used, m := dfMin.Encode(coder, ds);
        st := if used || r.Fail? then MinStage(m) else Skip;
      } else if f == 1 {
        ghost var g;
        r, used, g := dfGcd.Encode(coder, ds);
        st := if used || r.Fail? then GcdStage(g) else Skip;
      } else if f == 2 {
        r, used := dfDiff.Encode(coder, ds);
        st := if used || r.Fail? then DiffStage else Skip;
      } else if f == 3 {
        ghost var t;
        r, used, t := dfPart.Encode(coder, ds);
        st := if used || r.Fail? then PartStage(t) else Skip;
      } else if f == 4 {
        ghost var s;
        r, used, s := dfTop.Encode(coder, ds);
        st := if used || r.Fail? then TopStage(s) else Skip;
      } else if f == 5 {
        ghost var s;
        r, used, s := dfLow.Encode(coder, ds);
        st := if used || r.Fail? then LowStage(s) else Skip;
      } else {
        r := dfUniform.Encode(coder, ds);
        used, st := true, UniStage;
      }
    }

    /** What the decoding pass leaves with the filters for the merging pass. */
    ghost function Mem(): Memory
      reads dfMin, dfGcd, dfPart, dfTop, dfLow
    {
      Memory(dfMin.minval, dfGcd.gcd, dfPart.decoded, dfPart.isesc,
             dfTop.bitlow, dfTop.decoded, dfTop.maxvalMerge,
             dfLow.bitlow, dfLow.decoded, dfLow.maxvalMerge)
    }

    /** Decode of filter f, when the ID says it was applied. */
    method DecodeStage(f: nat, coder: RangeCoder, ds: DataSet, ghost st: Stage, ghost d: Records, ghost rest: seq<Sym>)
      returns (r: Outcome)
      requires Valid() && StageFits(st, f, d, kind) && !st.Skip? && ds.w == kind.w && ds.Expects(d)
      requires coder.InSync(StageSyms(st, f, d, kind) + rest)
      modifies coder, ds, ds.data, dfMin, dfGcd, dfPart, dfTop, dfTop.a, dfLow, dfLow.a
      ensures r.Pass? && coder.InSync(rest)
      ensures ds.Expects(StageRest(st, f, d, kind)) && Recalls(Mem(), st, d) && Differ(old(Mem()), Mem(), f)
      ensures st.UniStage? ==> ds.Holds(d)
    {
      hide MinFilter.Fits, GcdFilter.Fits, PartDicts.Fits, TopBitDicts.Fits, KeyTable.Chained, Emit, Pow2,
           MinFilter.Syms, GcdFilter.Syms, DiffFilter.Syms, PartDicts.Syms, TopBitDicts.Syms, UniformFilter.Syms,
           DiffFilter.Rest, PartDicts.Rest, TopBitDicts.Rest, GcdFilter.Rest;
      ghost var ver := 0;
      if f == 0 {
        MinFilter.FitsBound(st.minval, d);
        r := dfMin.Decode(coder, ds, st.minval, d, rest);
      } else if f == 1 {
        r := dfGcd.Decode(coder, ds, st.gcd, d, rest);
      } else if f == 2 {
        r, ver := dfDiff.Decode(coder, ds, 0, d, rest);
      } else if f == 3 {
        r := dfPart.Decode(coder, ds, st.table, d, rest);
      } else if f == 4 {
        r := dfTop.Decode(coder, ds, st.split, d, rest);
      } else if f == 5 {
        r := dfLow.Decode(coder, ds, st.split, d, rest);
      } else {
        r, ver := dfUniform.Decode(coder, ds, 0, d, rest);
      }
    }

    /** Merge of filter f, when the ID says it was applied. Only the GCD filter may lose the bound, and
        no filter before it needs the bound. */
    method MergeStage(f: nat, ds: DataSet, ghost st: Stage, ghost d: Records)
      requires StageFits(st, f, d, kind) && !st.Skip? && ds.w == kind.w && |d.vals| <= ds.data.Length
      requires Recalls(Mem(), st, d) && dfTop.top && !dfLow.top
      requires dfTop.a.tab.maxkeys == dfLow.a.tab.maxkeys == kind.maxkeys
      requires ds.Holds(StageRest(st, f, d, kind)) && ds.maxval < Pow2(ds.w)
      requires f >= 2 ==> ds.maxval == StageRest(st, f, d, kind).maxval
      modifies ds, ds.data
      ensures ds.Holds(d) && ds.maxval < Pow2(ds.w)
      ensures f >= 2 ==> ds.maxval == d.maxval
    {
      hide MinFilter.Fits, GcdFilter.Fits, PartDicts.Fits, TopBitDicts.Fits, Pow2,
           DiffFilter.Rest, PartDicts.Rest, TopBitDicts.Rest, GcdFilter.Rest;
      if f == 0 {
        dfMin.Merge(ds, d);
      } else if f == 1 {
        dfGcd.Merge(ds, d);
      } else if f == 2 {
        dfDiff.Merge(ds, d);
      } else if f == 3 {
        PartKeepsBound(st.table, d);
        dfPart.Merge(ds, st.table, d);
      } else if f == 4 {
        dfTop.Merge(ds, st.split, d);
      } else if f == 5 {
        dfLow.Merge(ds, st.split, d);
      }
    }

    lemma PartKeepsBound(t: Table, d: Records)
      ensures PartDicts.Rest(t, d).maxval == d.maxval
    {
    }

    /** The filters in order, until none is left or no record is. */
    method RunFilters(coder: RangeCoder, ds: DataSet, ghost d: Records) returns (r: Outcome, id: nat, ghost plan: Plan)
      requires Valid() && coder.Encoding() && coder.done == [] && ds.Valid() && ds.w == kind.w && ds.View() == d
      modifies Repr(), coder, ds, ds.data
      ensures Valid() && coder.Kept() && plan.Runs(d, kind)
      ensures r.Pass? ==>
                && coder.Encoding() && plan.Complete()
                && coder.done == Flat(plan.Parts(d, kind)) && id == IdOf(plan.stages)
      ensures r.Fail? ==> r.error == ERR_BUF && coder.Overran() && coder.done <= Flat(plan.Parts(d, kind))
    {
      hide StageFits, StageSyms, StageRest, After, Pow2, KeyTable.Chained;
      var f := 0;
      id, plan := 0, Plan([], [d]);
      assert plan.Parts(d, kind) == [];
      while f < 7 && ds.nrec != 0
        invariant 0 <= f <= 7 && Valid() && coder.Kept() && coder.Encoding()
        invariant plan.Runs(d, kind) && |plan.stages| == f && id == IdOf(plan.stages)
        invariant coder.done == Flat(plan.Parts(d, kind))
        invariant f < 7 ==> ds.Valid() && ds.View() == plan.chain[f]
      {
        var used;
        ghost var st;
        ghost var e := ds.View();
        r, used, st := EncodeStage(f, coder, ds);
        PlanStep(plan, d, kind, st);
        plan := plan.Next(st, StageRest(st, f, e, kind));
        if r.Fail? {
          return;
        }
        if used {
          id := id + Pow2(f);
        }
        f := f + 1;
      }
      r := Pass;
    }

    /** First pass of decompression, at filter f. */
    method DecodeNext(f: nat, coder: RangeCoder, ds: DataSet, id: nat, ghost plan: Plan, ghost d: Records,
                      ghost rest: seq<Sym>)
      returns (r: Outcome)
      requires Valid() && plan.Runs(d, kind) && f < |plan.stages| && id == IdOf(plan.stages)
      requires ds.w == kind.w && ds.Expects(plan.chain[f]) && RecallsFirst(Mem(), plan, f)
      requires coder.InSync(plan.Parts(d, kind)[f] + rest)
      modifies coder, ds, ds.data, dfMin, dfGcd, dfPart, dfTop, dfTop.a, dfLow, dfLow.a
      ensures r.Pass? && coder.InSync(rest)
      ensures ds.Expects(plan.chain[f+1]) && RecallsFirst(Mem(), plan, f + 1)
      ensures f == 6 ==> ds.Holds(plan.chain[7])
    {
      hide StageFits, StageSyms, StageRest, Emit, Pow2, KeyTable.Chained, Bit, Recalls, RecallsFirst;
      BitOfId(plan.stages, f);
      ghost var before := Mem();
      if Bit(id, f) {
        LastIsUniform(plan, d, kind, f);
        r := DecodeStage(f, coder, ds, plan.stages[f], plan.chain[f], rest);
        if r.Fail? {
          return;
        }
        RecallsOneMore(before, Mem(), plan, d, kind, f);
      } else {
        SkipLeavesAll(plan, d, kind, f);
        assert [] + rest == rest;
        RecallsOneMore(before, Mem(), plan, d, kind, f);
        r := Pass;
      }
    }

    /** First pass of decompression: the same filters, in the same order, stopping at the same place. */
    method RunDecode(coder: RangeCoder, ds: DataSet, id: nat, ghost plan: Plan, ghost d: Records)
      returns (r: Outcome, f: nat)
      requires Valid() && plan.Runs(d, kind) && plan.Complete() && id == IdOf(plan.stages)
      requires ds.w == kind.w && d.Valid(ds.w) && ds.Expects(d) && coder.InSync(Flat(plan.Parts(d, kind)))
      modifies coder, ds, ds.data, dfMin, dfGcd, dfPart, dfTop, dfTop.a, dfLow, dfLow.a
      ensures r.Pass? && f == |plan.stages| && coder.InSync([])
      ensures RecallsFirst(Mem(), plan, f)
      ensures ds.Expects(plan.chain[f]) && ds.Holds(plan.chain[f])
    {
      hide StageFits, StageSyms, StageRest, Emit, Pow2, Valid, Bit, Recalls, RecallsFirst;
      ghost var parts := plan.Parts(d, kind);
      f, r := 0, Pass;
      RecallsNone(Mem(), plan);
      assert parts[0..] == parts;
      while f < 7 && ds.nrec != 0
        invariant 0 <= f <= |plan.stages| && r.Pass? && Valid()
        invariant ds.Expects(plan.chain[f]) && coder.InSync(Flat(parts[f..]))
        invariant RecallsFirst(Mem(), plan, f)
        invariant f == 7 ==> ds.Holds(plan.chain[7])
      {
        assert parts[f..][1..] == parts[f+1..];
        r := DecodeNext(f, coder, ds, id, plan, d, Flat(parts[f+1..]));
        if r.Fail? {
          return;
        }
        f := f + 1;
      }
      assert parts[f..] == [];
    }

    /** Second pass: merging in reverse order. */
    method RunMerge(ds: DataSet, id: nat, last: nat, ghost plan: Plan, ghost d: Records)
      requires Valid() && plan.Runs(d, kind) && id == IdOf(plan.stages) && last == |plan.stages|
      requires ds.w == kind.w && d.Valid(ds.w) && |d.vals| <= ds.data.Length
      requires RecallsFirst(Mem(), plan, last) && ds.Expects(plan.chain[last]) && ds.Holds(plan.chain[last])
      modifies ds, ds.data
      ensures ds.Holds(d)
    {
      hide StageSyms, StageFits, StageRest, Pow2, KeyTable.Chained, Bit;
      var f := last;
      while f > 0
        invariant 0 <= f <= last && ds.Holds(plan.chain[f]) && ds.maxval < Pow2(ds.w)
        invariant f >= 2 ==> ds.maxval == plan.chain[f].maxval
      {
        f := f - 1;
        BitOfId(plan.stages, f);
        if Bit(id, f) {
          ChainShrinks(plan, d, kind, f);
          MergeStage(f, ds, plan.stages[f], plan.chain[f]);
        } else {
          SkipLeavesAll(plan, d, kind, f);
        }
      }
    }

    /** The filters' attempt: it fails only when what they chose to send does not fit. */
    method CompressFiltered(src: array<nat>, nrec: nat, maxval: nat, len: nat)
      returns (r: Outcome, dest: seq<byte>, ghost plan: Plan, ghost sent: seq<Sym>)
      requires Valid() && 3 <= len && nrec <= src.Length
      requires Records(src[..nrec], maxval).Valid(kind.w)
      modifies Repr()
      ensures Valid()
      ensures r.Pass? ==> |dest| <= len && IsCodeOf(plan, dest, Records(src[..nrec], maxval), kind)
      ensures r.Fail? ==> r.error == ERR_BUF && TooLong(plan, sent, len - 3, Records(src[..nrec], maxval), kind)
    {
      hide StageFits, StageSyms, StageRest, Emit, After, Pow2, KeyTable.Chained, Plan.Runs, IdOf, Flat, IsCodeOf,
           TooLong;
      ghost var d := Records(src[..nrec], maxval);
      var data := new nat[nrec](i requires 0 <= i < nrec <= src.Length reads src => src[i]);
      assert data[..nrec] == d.vals;
      var ds := new DataSet(kind.w, data, maxval, nrec);
      var coder := new RangeCoder();
      coder.InitCompress([1, 0, 0] + seq(len - 3, _ => 0), 3);
      r, dest, plan, sent := Attempt(coder, ds, d);
      assert src[..nrec] == d.vals;
    }

    method Attempt(coder: RangeCoder, ds: DataSet, ghost d: Records)
      returns (r: Outcome, dest: seq<byte>, ghost plan: Plan, ghost sent: seq<Sym>)
      requires Valid() && coder.Encoding() && coder.done == [] && coder.start == 3 && coder.buf[0] == 1
      requires ds.Valid() && ds.w == kind.w && ds.View() == d
      modifies Repr(), coder, ds, ds.data
      ensures Valid()
      ensures r.Pass? ==> |dest| <= |old(coder.buf)| && IsCodeOf(plan, dest, d, kind)
      ensures r.Fail? ==> r.error == ERR_BUF && TooLong(plan, sent, |old(coder.buf)| - 3, d, kind)
    {
      hide StageFits, StageSyms, StageRest, Emit, After, Pow2, KeyTable.Chained, Plan.Runs, IdOf, Flat, IsCodeOf;
      dest := [];
      assert coder.buf[..3][0] == 1;
      var id;
      r, id, plan := RunFilters(coder, ds, d);
      assert coder.buf[..3][0] == 1;
      sent := coder.done;
      if r.Fail? {
        AfterThenEmit(sent, []);
        assert sent + [] == sent;
        return;
      }
      r, dest := Finish(coder, id, plan, d, kind);
    }

    method CopyCompress(src: array<nat>, nrec: nat, len: nat) returns (r: Outcome, dest: seq<byte>)
      requires nrec <= src.Length
      ensures r == if 1 + nrec * (kind.w / 8) <= len then Pass else Fail(ERR_BUF)
      ensures r.Pass? ==> |dest| <= len && dest == [0] + Image(src[..nrec], kind.w / 8)
    {
      dest := [];
      if len < 1 + nrec * (kind.w / 8) {
        return Fail(ERR_BUF), dest;
      }
      var body := CopyOut(src, nrec, kind.w / 8);
      return Pass, [0] + body;
    }

    /** Compression succeeds whenever a plain copy would fit, and what it returns is a pack of the data: what the
        filters came to, unless they were not asked, ran out of room, or saved too little. */
    method CompressT(src: array<nat>, nrec: nat, maxval: nat, len: nat)
      returns (r: Outcome, dest: seq<byte>, ghost trial: Trial)
      requires Valid() && nrec <= src.Length && Records(src[..nrec], maxval).Valid(kind.w)
      modifies Repr()
      ensures Valid()
      ensures len < 3 ==> r == Fail(ERR_BUF)
      ensures len >= 3 && (nrec == 0 || maxval == 0) ==> r == Fail(ERR_PAR)
      ensures len >= 3 && len >= 1 + nrec * (kind.w / 8) && nrec != 0 && maxval != 0 ==> r.Pass?
      ensures r.Pass? ==> |dest| <= len && Packed(dest, Records(src[..nrec], maxval), kind)
      ensures len >= 3 && nrec != 0 && maxval != 0 ==>
                var size := kind.w / 8;
                && (!copyOnly ==> trial.Of(Records(src[..nrec], maxval), len, kind))
                && if copyOnly || !trial.fits || TooBig(|trial.code|, nrec, size)
                   then Copied(r, dest, src[..nrec], size, len) else r.Pass? && dest == trial.code
    {
      hide IsCodeOf, Image, KeyTable.Chained, Pow2;
      dest, trial := [], Trial(false, [], Plan([], []), []);
      if len < 3 {
        return Fail(ERR_BUF), dest, trial;
      }
      if nrec == 0 || maxval == 0 {
        return Fail(ERR_PAR), dest, trial;
      }
      if copyOnly {
        r, dest := CopyCompress(src, nrec, len);
        return;
      }
      ghost var plan, sent;
      r, dest, plan, sent := CompressFiltered(src, nrec, maxval, len);
      trial := Trial(r.Pass?, dest, plan, sent);
      if r.Fail? || TooBig(|dest|, nrec, kind.w / 8) {
        r, dest := CopyCompress(src, nrec, len);
      }
    }

    method DecompressFiltered(dest: array<nat>, src: seq<byte>, nrec: nat, maxval: nat, ghost plan: Plan,
                              ghost d: Records)
      returns (r: Outcome)
      requires Valid() && IsCodeOf(plan, src, d, kind) && d.Valid(kind.w)
      requires nrec == |d.vals| <= dest.Length && maxval == d.maxval
      modifies dest, dfMin, dfGcd, dfPart, dfTop, dfTop.a, dfLow, dfLow.a
      ensures Valid() && r.Pass? && dest[..nrec] == d.vals
    {
      hide StageFits, StageSyms, StageRest, Emit, Pow2, KeyTable.Chained, Plan.Runs, RecallsFirst, IdOf, Flat, Bytes4;
      var low: int, high: int := src[1], src[2];
      var id: nat := low + 256 * high;
      var ds := new DataSet(kind.w, dest, maxval, nrec);
      var coder := new RangeCoder();
      ghost var todo := Flat(plan.Parts(d, kind));
      assert src[3..] == Emit(0, 0xFFFF_FFFF, todo);
      r := coder.InitDecompress(src, 3, todo);
      if r.Fail? {
        return;
      }
      var f;
      r, f := RunDecode(coder, ds, id, plan, d);
      if r.Fail? {
        return;
      }
      RunMerge(ds, id, f, plan, d);
    }

    /** Decompression of any pack of data d gives d back. */
    method DecompressT(dest: array<nat>, src: seq<byte>, nrec: nat, maxval: nat, ghost d: Records) returns (r: Outcome)
      requires Valid() && nrec <= dest.Length
      requires src != [] && nrec != 0 && maxval != 0 ==>
                 Packed(src, d, kind) && d.Valid(kind.w) && nrec == |d.vals| && maxval == d.maxval && kind.w % 8 == 0
      modifies dest, dfMin, dfGcd, dfPart, dfTop, dfTop.a, dfLow, dfLow.a
      ensures Valid()
      ensures src == [] ==> r == Fail(ERR_BUF)
      ensures src != [] && (nrec == 0 || maxval == 0) ==> r == Fail(ERR_PAR)
      ensures src != [] && nrec != 0 && maxval != 0 ==> r.Pass? && dest[..nrec] == d.vals
    {
      hide IsCodeOf, Image, KeyTable.Chained, Pow2;
      if |src| < 1 {
        return Fail(ERR_BUF);
      }
      if nrec == 0 || maxval == 0 {
        return Fail(ERR_PAR);
      }
      CodeStartsWithOne(src, d, kind);
      if src[0] == 0 {
        assert src[1..] == Image(d.vals, kind.w / 8);
        CopyIn(dest, src[1..], nrec, kind.w / 8, d.vals);
        return Pass;
      }
      if |src| < 3 {
        return Fail(ERR_BUF);
      }
      ghost var plan :| IsCodeOf(plan, src, d, kind);
      r := DecompressFiltered(dest, src, nrec, maxval, plan, d);
    }

    /** The whole pipeline is the identity, whatever the heuristics chose on the way. */
    method RoundTrip(src: array<nat>, nrec: nat, maxval: nat, len: nat, dest: array<nat>) returns (r: Outcome)
      requires Valid() && nrec <= src.Length && nrec <= dest.Length && src != dest && kind.w % 8 == 0
      requires Records(src[..nrec], maxval).Valid(kind.w)
      modifies Repr(), dest
      ensures len >= 3 && len >= 1 + nrec * (kind.w / 8) && nrec != 0 && maxval != 0 ==> r.Pass?
      ensures r.Pass? ==> dest[..nrec] == src[..nrec]
    {
      hide Packed, Pow2, KeyTable.Chained, Copied, TooBig, Trial.Of, Image;
      ghost var d := Records(src[..nrec], maxval);
      var packed;
      ghost var trial;
      r, packed, trial := CompressT(src, nrec, maxval, len);
      if r.Fail? {
        return;
      }
      PackIsNotEmpty(packed, d, kind);
      r := DecompressT(dest, packed, nrec, maxval, d);
    }
  }

  lemma CodeStartsWithOne(bytes: seq<byte>, d: Records, k: Kind)
    requires Packed(bytes, d, k) && bytes != []
    ensures bytes[0] == 0 ==> bytes == [0] + Image(d.vals, k.w / 8)
    ensures bytes[0] != 0 ==> |bytes| >= 3 && exists plan :: IsCodeOf(plan, bytes, d, k)
  {
    hide Emit, Plan.Runs;
  }

  lemma PackIsNotEmpty(bytes: seq<byte>, d: Records, k: Kind)
    requires Packed(bytes, d, k)
    ensures bytes != []
  {
    hide Emit, Plan.Runs;
  }
}
