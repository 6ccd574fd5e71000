/** The last filter: every remaining record is coded with equal chances for all values up to maxval. */
module UniformFilter {
  import opened Arith
  import opened RangeCoding
  import opened Outcomes
  import opened Uniform
  import opened RangeCoders
  import opened DataSets

  /** The symbols of the records from first to last. */
  function Body(vals: seq<nat>, maxval: nat): seq<Sym>
    requires forall i :: 0 <= i < |vals| ==> vals[i] <= maxval
  {
    if vals == [] then [] else UniSyms(vals[0], maxval) + Body(vals[1..], maxval)
  }

  lemma BodyNext(done: seq<Sym>, vals: seq<nat>, i: nat, maxval: nat)
    requires i < |vals| && forall k :: 0 <= k < |vals| ==> vals[k] <= maxval
    ensures done + Body(vals[i..], maxval) == done + UniSyms(vals[i], maxval) + Body(vals[i + 1..], maxval)
  {
    hide UniSyms;
    assert vals[i..][1..] == vals[i + 1..];
  }

  lemma BodyDone(done: seq<Sym>, vals: seq<nat>, maxval: nat)
    ensures Body(vals[|vals|..], maxval) == [] && done + [] == done
  {
  }

  ghost function Syms(d: Records): seq<Sym>
    requires forall i :: 0 <= i < |d.vals| ==> d.vals[i] <= d.maxval
  {
    UniSyms(0, 3) + Body(d.vals, d.maxval)
  }

  /** `maxval == ((T)1 << bitmax) - (T)1`: narrow types compute in int, where the full-width shift
      gives 0 and the difference -1; wide types wrap round to the largest value. */
  predicate AllOnes(maxval: nat, bitmax: nat, w: nat) {
    if bitmax < w then maxval == Pow2(bitmax) - 1
    else w >= 32 && maxval == Pow2(w) - 1
  }

  method EncodeRecord(coder: RangeCoder, x: nat, maxval: nat, bitmax: nat, byShift: bool) returns (r: Outcome)
    requires coder.Encoding() && x <= maxval && 0 < maxval && bitmax == BitLen(maxval)
    requires byShift ==> maxval == Pow2(bitmax) - 1
    modifies coder
    ensures coder.Wrote(r, UniSyms(x, maxval))
  {
    if byShift {
      ShiftIsUniform(x, bitmax);
      r := coder.EncodeUniShift(x, bitmax);
    } else {
      r := coder.EncodeBelow(x, maxval, bitmax);
    }
  }

  method DecodeRecord(coder: RangeCoder, maxval: nat, bitmax: nat, byShift: bool, ghost x: nat, ghost rest: seq<Sym>)
    returns (r: Outcome, val: nat)
    requires coder.Decoding() && 0 < maxval && bitmax == BitLen(maxval)
    requires byShift ==> maxval == Pow2(bitmax) - 1
    modifies coder
    ensures coder.buf == old(coder.buf)
    ensures r.Pass? ==> coder.Decoding()
    ensures x <= maxval && old(coder.InSync(UniSyms(x, maxval) + rest)) ==> r.Pass? && val == x && coder.InSync(rest)
  {
    hide Emit, Pow2, UniSyms, ShiftSyms;
    if byShift {
      if x <= maxval {
        ShiftIsUniform(x, bitmax);
      }
      r, val := coder.DecodeUniShift(bitmax, x, rest);
    } else {
      r, val := coder.DecodeBelow(maxval, bitmax, x, rest);
    }
  }

  /** The records still to come are those from number i on. */
  ghost predicate Ahead(coder: RangeCoder, vals: seq<nat>, i: nat, maxval: nat, rest: seq<Sym>)
    reads coder
  {
    i <= |vals| && (forall k :: 0 <= k < |vals| ==> vals[k] <= maxval) && coder.InSync(Body(vals[i..], maxval) + rest)
  }

  method DecodeAll(coder: RangeCoder, data: array<nat>, nrec: nat, maxval: nat, bitmax: nat, byShift: bool,
                   ghost vals: seq<nat>, ghost rest: seq<Sym>)
    returns (r: Outcome)
    requires coder.Decoding() && nrec <= data.Length
    requires 0 < maxval && bitmax == BitLen(maxval) && (byShift ==> maxval == Pow2(bitmax) - 1)
    modifies coder, data
    ensures r.Pass? ==> coder.Decoding()
    ensures nrec == |vals| && old(Ahead(coder, vals, 0, maxval, rest)) ==>
              r.Pass? && coder.InSync(rest) && data[..nrec] == vals
  {
    hide Pow2, UniSyms, Emit, BitLen, Ahead, Body, RangeCoder.InSync;
    ghost var live := nrec == |vals| && Ahead(coder, vals, 0, maxval, rest);
    for i := 0 to nrec
      invariant coder.Decoding()
      invariant live ==> Ahead(coder, vals, i, maxval, rest) && forall k :: 0 <= k < i ==> data[k] == vals[k]
    {
      ghost var x, later := maxval + 1, [];
      if live {
        x, later := NextAhead(coder, vals, i, maxval, rest);
      }
      var y :- DecodeRecord(coder, maxval, bitmax, byShift, x, later);
      if live {
        StillAhead(coder, vals, i, maxval, rest, later);
      }
      data[i] := y;
    }
    if live {
      NoneAhead(coder, vals, maxval, rest);
    }
    return Pass;
  }

  lemma NextAhead(coder: RangeCoder, vals: seq<nat>, i: nat, maxval: nat, rest: seq<Sym>)
    returns (x: nat, later: seq<Sym>)
    requires Ahead(coder, vals, i, maxval, rest) && i < |vals|
    ensures x == vals[i] <= maxval && forall k :: 0 <= k < |vals| ==> vals[k] <= maxval
    ensures later == Body(vals[i + 1..], maxval) + rest
    ensures coder.InSync(UniSyms(x, maxval) + later)
  {
    hide Emit, UniSyms, RangeCoder.InSync;
    x, later := vals[i], Body(vals[i + 1..], maxval) + rest;
    assert vals[i..][1..] == vals[i + 1..];
    assert Body(vals[i..], maxval) + rest == UniSyms(x, maxval) + later;
  }

  lemma StillAhead(coder: RangeCoder, vals: seq<nat>, i: nat, maxval: nat, rest: seq<Sym>, later: seq<Sym>)
    requires i < |vals| && forall k :: 0 <= k < |vals| ==> vals[k] <= maxval
    requires later == Body(vals[i + 1..], maxval) + rest && coder.InSync(later)
    ensures Ahead(coder, vals, i + 1, maxval, rest)
  {
  }

  lemma NoneAhead(coder: RangeCoder, vals: seq<nat>, maxval: nat, rest: seq<Sym>)
    requires Ahead(coder, vals, |vals|, maxval, rest)
    ensures coder.InSync(rest)
  {
    hide Emit, RangeCoder.InSync;
    assert vals[|vals|..] == [];
    assert [] + rest == rest;
  }

  method ZeroAll(data: array<nat>, n: nat)
    requires n <= data.Length
    modifies data
    ensures forall i :: 0 <= i < n ==> data[i] == 0
  {
    for i := 0 to n
      invariant forall k :: 0 <= k < i ==> data[k] == 0
    {
      data[i] := 0;
    }
  }

  class DataFiltUniform {

    constructor () {
    }

    method Encode(coder: RangeCoder, ds: DataSet) returns (r: Outcome)
      requires coder.Encoding() && ds.Valid()
      modifies coder, ds
      ensures coder.Wrote(r, Syms(old(ds.View())))
      ensures r.Pass? ==> ds.nrec == 0
    {
      hide Pow2, UniSyms, After, BitLen, Body;
      var data, maxval, nrec := ds.data, ds.maxval, ds.nrec;
      ghost var d := ds.View();
      var bits := GetBitLen(3);
      :- coder.EncodeBelow(0, 3, bits);
      if maxval != 0 {
        var bitmax := GetBitLen(maxval);
        var byShift := AllOnes(maxval, bitmax, ds.w);
        FullWidth(maxval, ds.w);
        var i := 0;
        assert d.vals[0..] == d.vals;
        while i < nrec
          invariant 0 <= i <= nrec && ds.nrec == nrec
          invariant coder.Kept() && coder.Encoding() && old(coder.done) <= coder.done
          invariant coder.done + Body(d.vals[i..], maxval) == old(coder.done) + Syms(d)
        {
          BodyNext(coder.done, d.vals, i, maxval);
          assert data[i] == d.vals[i];
          :- EncodeRecord(coder, data[i], maxval, bitmax, byShift);
          i := i + 1;
        }
        BodyDone(coder.done, d.vals, maxval);
      } else {
        ZeroBody(d.vals);
        assert coder.done == old(coder.done) + Syms(d);
      }
      ds.nrec := 0;
      return Pass;
    }

    /** On any stream: a version above 0 is corrupt. On what Encode wrote, its records. */
    method Decode(coder: RangeCoder, ds: DataSet, ghost version: nat, ghost d: Records, ghost rest: seq<Sym>)
      returns (r: Outcome, ghost ver: nat)
      requires coder.Decoding() && ds.nrec <= ds.data.Length && ds.maxval < Pow2(ds.w)
      modifies coder, ds.data
      ensures r.Pass? ==> coder.Decoding() && ver == 0
      ensures 0 < version <= 3 && old(coder.InSync(UniSyms(version, 3) + rest)) ==>
                ver == version && r == Fail(ERR_COR)
      ensures version == 0 && old(ds.Expects(d) && coder.InSync(Syms(d) + rest)) ==>
                r.Pass? && coder.InSync(rest) && ds.Holds(d)
    {
      hide Pow2, UniSyms, Emit, BitLen, Body, RangeCoder.InSync;
      var bits := GetBitLen(3);
      ver := 0;
      ghost var live := version == 0 && ds.Expects(d) && coder.InSync(Syms(d) + rest);
      ghost var body := if live then Body(d.vals, d.maxval) else [];
      assert live ==> Syms(d) + rest == UniSyms(0, 3) + (body + rest);
      assert !live ==> body + rest == rest;
      var v :- coder.DecodeBelow(3, bits, version, body + rest);
      ver := v;
      if v > 0 {
        return Fail(ERR_COR), v;
      }
      if ds.maxval != 0 {
        var bitmax := GetBitLen(ds.maxval);
        FullWidth(ds.maxval, ds.w);
        assert d.vals[0..] == d.vals;
        r := DecodeAll(coder, ds.data, ds.nrec, ds.maxval, bitmax, AllOnes(ds.maxval, bitmax, ds.w), d.vals, rest);
      } else {
        if live {
          ZeroBody(d.vals);
          assert body + rest == rest;
        }
        ZeroAll(ds.data, ds.nrec);
        r := Pass;
      }
    }
  }

  /** With bound 0 there is nothing to code. */
  lemma {:induction false} ZeroBody(vals: seq<nat>)
    requires forall i :: 0 <= i < |vals| ==> vals[i] <= 0
    ensures Body(vals, 0) == []
  {
    if vals != [] {
      ZeroBody(vals[1..]);
    }
  }

  lemma FullWidth(maxval: nat, w: nat)
    requires maxval < Pow2(w)
    ensures AllOnes(maxval, BitLen(maxval), w) ==> maxval == Pow2(BitLen(maxval)) - 1
  {
    hide Pow2, BitLen;
    BitLenLeast(maxval, w);
  }
}
