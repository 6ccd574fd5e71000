/** Replacing each record by its difference from the one before, modulo maxval + 1. */
module DiffFilter {
  import opened Arith
  import opened RangeCoding
  import opened Outcomes
  import opened Uniform
  import opened RangeCoders
  import opened DataSets

  /** maxval + 1 in w-bit arithmetic: 0 when maxval is the largest value of the type. */
  function Next(maxval: nat, m: nat): (n: nat)
    requires maxval < m
    ensures n < m
  {
    if maxval + 1 < m then maxval + 1 else 0
  }

  function Delta(last: nat, curr: nat, maxval: nat, m: nat): (d: nat)
    requires last < m && curr < m && maxval < m
  {
    var d := WrapSub(curr, last, m);
    if last > curr then WrapAdd(d, Next(maxval, m), m) else d
  }

  function Undelta(last: nat, d: nat, maxval: nat, m: nat): (curr: nat)
    requires last < m && d < m && maxval < m
  {
    var c := WrapAdd(last, d, m);
    if c > maxval || c < last then WrapSub(c, Next(maxval, m), m) else c
  }

  /** The difference stays within the bound and gives the record back, for every bound of the type. */
  lemma DeltaIsExact(last: nat, curr: nat, maxval: nat, m: nat)
    requires last <= maxval < m && curr <= maxval
    ensures Delta(last, curr, maxval, m) <= maxval
    ensures Undelta(last, Delta(last, curr, maxval, m), maxval, m) == curr
  {
  }

  /** It is the difference modulo maxval + 1. */
  lemma DeltaIsDifference(last: nat, curr: nat, maxval: nat, m: nat)
    requires last <= maxval < m && curr <= maxval
    ensures Delta(last, curr, maxval, m) == (curr - last) % (maxval + 1)
  {
    if last <= curr {
      SmallMod(curr - last, maxval + 1);
    } else {
      DivUnique(curr - last, maxval + 1, -1, curr - last + maxval + 1);
    }
  }

  ghost function Rest(d: Records, w: nat): (e: Records)
    requires d.Valid(w)
    ensures |e.vals| == |d.vals| && e.maxval == d.maxval
  {
    var m := Pow2(w);
    Records(seq(|d.vals|, i requires 0 <= i < |d.vals| => Delta(Before(d, i), d.vals[i], d.maxval, m)), d.maxval)
  }

  ghost function Before(d: Records, i: nat): nat
    requires i <= |d.vals|
  {
    if i == 0 then 0 else d.vals[i - 1]
  }

  lemma NothingBefore(d: Records)
    ensures Before(d, 0) == 0
  {
  }

  lemma BeforeNext(d: Records, i: nat)
    requires i < |d.vals|
    ensures Before(d, i + 1) == d.vals[i]
  {
  }

  lemma RestIsValid(d: Records, w: nat)
    requires d.Valid(w)
    ensures Rest(d, w).Valid(w)
    ensures forall i :: 0 <= i < |d.vals| ==>
              Undelta(Before(d, i), Rest(d, w).vals[i], d.maxval, Pow2(w)) == d.vals[i]
  {
    hide Pow2, Delta, Undelta;
    forall i | 0 <= i < |d.vals|
      ensures Rest(d, w).vals[i] <= d.maxval
      ensures Undelta(Before(d, i), Rest(d, w).vals[i], d.maxval, Pow2(w)) == d.vals[i]
    {
      DeltaIsExact(Before(d, i), d.vals[i], d.maxval, Pow2(w));
    }
  }

  function Syms(): seq<Sym> {
    UniSyms(0, 3)
  }

  method DifferenceAll(data: array<nat>, nrec: nat, maxval: nat, m: nat)
    requires nrec <= data.Length && maxval < m && forall i :: 0 <= i < nrec ==> data[i] <= maxval
    modifies data
    ensures forall i :: 0 <= i < nrec ==>
              data[i] == Delta(if i == 0 then 0 else old(data[i-1]), old(data[i]), maxval, m)
  {
    hide Delta;
    var last := 0;
    for i := 0 to nrec
      invariant last == if i == 0 then 0 else old(data[i-1])
      invariant forall k :: 0 <= k < i ==>
                  data[k] == Delta(if k == 0 then 0 else old(data[k-1]), old(data[k]), maxval, m)
      invariant forall k :: i <= k < nrec ==> data[k] == old(data[k])
    {
      var curr := data[i];
      data[i] := Delta(last, curr, maxval, m);
      last := curr;
    }
  }

  method IntegrateAll(data: array<nat>, maxval: nat, m: nat, nrec: nat, ghost d: Records)
    requires nrec == |d.vals| <= data.Length && maxval < m
    requires forall i :: 0 <= i < nrec ==> data[i] < m && d.vals[i] < m
    requires forall i :: 0 <= i < nrec ==> Undelta(Before(d, i), data[i], maxval, m) == d.vals[i]
    modifies data
    ensures data[..nrec] == d.vals
  {
    hide Undelta, Before;
    var last := 0;
    NothingBefore(d);
    for i := 0 to nrec
      invariant last == Before(d, i) < m
      invariant forall k :: 0 <= k < i ==> data[k] == d.vals[k]
      invariant forall k :: i <= k < nrec ==> data[k] == old(data[k])
    {
      var curr := Undelta(last, data[i], maxval, m);
      BeforeNext(d, i);
      data[i] := curr;
      last := curr;
    }
  }

  class DataFiltDiff {

    constructor () {
    }

    /** Whether differencing pays is an estimate; here it is any choice. */
    method Encode(coder: RangeCoder, ds: DataSet) returns (r: Outcome, used: bool)
      requires coder.Encoding() && ds.Valid()
      modifies coder, ds, ds.data
      ensures coder.Kept() && (r.Pass? ==> ds.Valid())
      ensures r.Pass? && !used ==> coder.Wrote(r, []) && ds.View() == old(ds.View())
      ensures r.Fail? || used ==>
                && 100 <= |old(ds.View()).vals|
                && coder.Wrote(r, Syms()) && (r.Pass? ==> ds.View() == Rest(old(ds.View()), ds.w))
    {
      hide Pow2, UniSyms, After, BitLen, Delta;
      used := false;
      if ds.nrec < 100 {
        return Pass, false;
      }
      var pays: bool := *;
      if !pays {
        return Pass, false;
      }
      ghost var d := ds.View();
      var bits := GetBitLen(3);
      :- coder.EncodeBelow(0, 3, bits);
      DifferenceAll(ds.data, ds.nrec, ds.maxval, Pow2(ds.w));
      RestIsValid(d, ds.w);
      assert ds.data[..ds.nrec] == Rest(d, ds.w).vals;
      return Pass, true;
    }

    /** On any stream: a version above 0 is corrupt. What is ahead may be the code of any version. */
    method Decode(coder: RangeCoder, ds: DataSet, ghost version: nat, ghost d: Records, ghost rest: seq<Sym>)
      returns (r: Outcome, ghost ver: nat)
      requires coder.Decoding()
      modifies coder
      ensures r.Pass? ==> coder.Decoding() && ver == 0
      ensures 0 < version <= 3 && old(coder.InSync(UniSyms(version, 3) + rest)) ==>
                ver == version && r == Fail(ERR_COR)
      ensures version == 0 && ds.Expects(d) && old(coder.InSync(Syms() + rest)) ==>
                r.Pass? && coder.InSync(rest) && ds.Expects(Rest(d, ds.w))
    {
      hide Pow2, UniSyms, Emit, BitLen, Delta;
      if ds.Expects(d) {
        RestIsValid(d, ds.w);
      }
      ver := 0;
      var bits := GetBitLen(3);
      var v :- coder.DecodeBelow(3, bits, version, rest);
      return if v > 0 then Fail(ERR_COR) else Pass, v;
    }

    method Merge(ds: DataSet, ghost d: Records)
      requires d.Valid(ds.w) && ds.Holds(Rest(d, ds.w)) && ds.maxval == d.maxval
      modifies ds.data
      ensures ds.Holds(d)
    {
      hide Pow2, Delta, Undelta;
      ghost var e := Rest(d, ds.w);
      RestIsValid(d, ds.w);
      assert forall i :: 0 <= i < ds.nrec ==> ds.data[i] == ds.data[..ds.nrec][i] == e.vals[i];
      IntegrateAll(ds.data, ds.maxval, Pow2(ds.w), ds.nrec, d);
    }
  }
}
