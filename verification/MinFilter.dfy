/** Subtracting the smallest record. */
module MinFilter {
  import opened Arith
  import opened RangeCoding
  import opened Outcomes
  import opened Uniform
  import opened RangeCoders
  import opened DataSets

  /** The filter applies with the least record, when that is not 0. */
  ghost predicate Fits(minval: nat, d: Records) {
    && 0 < minval
    && minval in d.vals
    && forall i :: 0 <= i < |d.vals| ==> minval <= d.vals[i] <= d.maxval
  }

  function Syms(minval: nat, d: Records): seq<Sym>
    requires minval <= d.maxval
  {
    UniSyms(minval, d.maxval)
  }

  lemma FitsBound(minval: nat, d: Records)
    requires Fits(minval, d)
    ensures minval <= d.maxval
  {
    var i :| 0 <= i < |d.vals| && d.vals[i] == minval;
  }

  ghost function Rest(minval: nat, d: Records): (e: Records)
    requires Fits(minval, d)
    ensures |e.vals| == |d.vals| && e.maxval == d.maxval - minval
    ensures forall w | d.Valid(w) :: e.Valid(w)
    ensures forall i :: 0 <= i < |d.vals| ==> e.vals[i] + minval == d.vals[i]
  {
    Records(seq(|d.vals|, i requires 0 <= i < |d.vals| => d.vals[i] - minval), d.maxval - minval)
  }

  method FindMin(data: array<nat>, n: nat, top: nat) returns (minval: nat)
    requires 0 < n <= data.Length && forall i :: 0 <= i < n ==> data[i] <= top
    ensures minval in data[..n] && forall i :: 0 <= i < n ==> minval <= data[i]
  {
    minval := top;
    var i := 0;
    while i < n
      invariant 0 <= i <= n && minval <= top
      invariant forall k :: 0 <= k < i ==> minval <= data[k]
      invariant minval in data[..i] || minval == top
    {
      if data[i] < minval {
        minval := data[i];
        if minval == 0 {
          return;
        }
      }
      i := i + 1;
    }
    assert data[0] in data[..n];
  }

  method SubtractAll(data: array<nat>, n: nat, m: nat)
    requires n <= data.Length && forall i :: 0 <= i < n ==> m <= data[i]
    modifies data
    ensures forall i :: 0 <= i < n ==> data[i] == old(data[i]) - m
  {
    for i := 0 to n
      invariant forall k :: 0 <= k < i ==> data[k] == old(data[k]) - m
      invariant forall k :: i <= k < n ==> data[k] == old(data[k])
    {
      data[i] := data[i] - m;
    }
  }

  method AddAll(data: array<nat>, n: nat, m: nat, modulus: nat)
    requires n <= data.Length && m < modulus && forall i :: 0 <= i < n ==> data[i] < modulus
    modifies data
    ensures forall i :: 0 <= i < n ==> data[i] == WrapAdd(old(data[i]), m, modulus)
  {
    for i := 0 to n
      invariant forall k :: 0 <= k < i ==> data[k] == WrapAdd(old(data[k]), m, modulus)
      invariant forall k :: i <= k < n ==> data[k] == old(data[k])
    {
      data[i] := WrapAdd(data[i], m, modulus);
    }
  }

  class DataFiltMin {
    var minval: nat

    constructor () {
    }

    method Encode(coder: RangeCoder, ds: DataSet) returns (r: Outcome, used: bool, ghost info: nat)
      requires coder.Encoding() && ds.Valid() && 0 < ds.nrec
      modifies coder, ds, ds.data
      ensures coder.Kept() && ds.Valid()
      ensures r.Pass? && !used ==> coder.Wrote(r, []) && ds.View() == old(ds.View()) && 0 in ds.View().vals
      ensures r.Fail? || used ==>
                && Fits(info, old(ds.View()))
                && coder.Wrote(r, Syms(info, old(ds.View())))
                && (r.Pass? ==> ds.View() == Rest(info, old(ds.View())))
    {
      hide Pow2, UniSyms, After, BitLen;
      var data, nrec := ds.data, ds.nrec;
      ghost var d := ds.View();
      used, info := false, 0;
      var least := FindMin(data, nrec, Pow2(ds.w) - 1);
      if least == 0 {
        return Pass, false, 0;
      }
      if least > ds.maxval {
        r := Fail(ERR_PAR);
        return;
      }
      info := least;
      var bits := GetBitLen(ds.maxval);
      :- coder.EncodeBelow(least, ds.maxval, bits);
      SubtractAll(data, nrec, least);
      ds.maxval := ds.maxval - least;
      assert data[..nrec] == Rest(least, d).vals;
      return Pass, true, least;
    }

    /** On any stream: a minimum of 0 is corrupt. On what Encode wrote, its minimum. */
    method Decode(coder: RangeCoder, ds: DataSet, ghost info: nat, ghost d: Records, ghost rest: seq<Sym>)
      returns (r: Outcome)
      requires coder.Decoding()
      modifies this, coder, ds
      ensures r.Pass? ==> coder.Decoding() && minval > 0 && ds.maxval == (old(ds.maxval) - minval) % Pow2(ds.w)
      ensures ds.nrec == old(ds.nrec)
      ensures info <= d.maxval && Fits(info, d) && old(ds.Expects(d) && coder.InSync(Syms(info, d) + rest)) ==>
                r.Pass? && coder.InSync(rest) && minval == info && ds.Expects(Rest(info, d))
    {
      hide Pow2, UniSyms, Emit, BitLen;
      var bits := GetBitLen(ds.maxval);
      minval :- coder.DecodeBelow(ds.maxval, bits, info, rest);
      if minval == 0 {
        return Fail(ERR_COR);
      }
      if info <= d.maxval && Fits(info, d) && old(ds.Expects(d) && coder.InSync(Syms(info, d) + rest)) {
        SmallMod(ds.maxval - minval, Pow2(ds.w));
      }
      ds.maxval := (ds.maxval - minval) % Pow2(ds.w);
      return Pass;
    }

    method Merge(ds: DataSet, ghost d: Records)
      requires Fits(minval, d) && d.Valid(ds.w) && ds.Holds(Rest(minval, d)) && ds.maxval < Pow2(ds.w)
      modifies ds, ds.data
      ensures ds.Holds(d) && ds.maxval < Pow2(ds.w)
      ensures old(ds.maxval) == d.maxval - minval ==> ds.maxval == d.maxval
    {
      hide Pow2;
      ghost var e := Rest(minval, d);
      assert forall i :: 0 <= i < ds.nrec ==> ds.data[i] == ds.data[..ds.nrec][i] == e.vals[i];
      AddAll(ds.data, ds.nrec, minval, Pow2(ds.w));
      ds.maxval := WrapAdd(ds.maxval, minval, Pow2(ds.w));
    }
  }
}
