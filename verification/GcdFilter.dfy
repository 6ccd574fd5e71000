/** Dividing the records by their greatest common divisor. */
module GcdFilter {
  import opened Arith
  import opened RangeCoding
  import opened Outcomes
  import opened Uniform
  import opened RangeCoders
  import opened DataSets

  function Times(a: nat, k: nat): nat {
    a * k
  }

  /** A product in unsigned arithmetic modulo m. */
  function TimesMod(a: nat, b: nat, m: nat): (c: nat)
    requires 0 < m
    ensures c < m
  {
    a * b % m
  }

  ghost predicate Div(d: nat, x: nat) {
    exists k: nat :: x == Times(d, k)
  }

  ghost predicate DivAll(d: nat, s: seq<nat>) {
    forall i :: 0 <= i < |s| ==> Div(d, s[i])
  }

  /** g divides every number of s, and every such divisor divides g. (0 when all are 0.) */
  ghost predicate IsGcd(g: nat, s: seq<nat>) {
    DivAll(g, s) && forall d :: DivAll(d, s) ==> Div(d, g)
  }

  lemma DivSum(d: nat, x: nat, y: nat, q: nat)
    requires Div(d, x) && Div(d, y)
    ensures Div(d, q * x + y)
  {
    var k: nat :| x == Times(d, k);
    var m: nat :| y == Times(d, m);
    assert q * x == q * k * d;
    assert q * x + y == Times(d, q * k + m);
  }

  lemma DivDifference(d: nat, x: nat, y: nat, q: nat)
    requires Div(d, x) && Div(d, y) && q * x <= y
    ensures Div(d, y - q * x)
  {
    var k: nat :| x == Times(d, k);
    var m: nat :| y == Times(d, m);
    var t := m - q * k;
    assert q * x == q * k * d;
    assert y - q * x == t * d;
    if t >= 0 {
      assert y - q * x == Times(d, t);
    } else {
      MulMonotone(t, 0, d);
      assert y - q * x == Times(d, 0);
    }
  }

  lemma DivMod(d: nat, a: nat, b: nat)
    requires 0 < a && Div(d, a)
    ensures Div(d, b) <==> Div(d, b % a)
  {
    var q := b / a;
    assert b == q * a + b % a;
    if Div(d, b % a) {
      DivSum(d, a, b % a, q);
    }
    if Div(d, b) {
      DivDifference(d, a, b, q);
    }
  }

  lemma DivZeroAndSelf(d: nat)
    ensures Div(d, 0) && Div(d, d) && Div(1, d)
  {
    assert 0 == Times(d, 0) && d == Times(d, 1) && d == Times(1, d);
  }

  /** Euclid's loop. */
  method GCD(x: nat, y: nat) returns (g: nat)
    ensures forall d :: Div(d, g) <==> Div(d, x) && Div(d, y)
  {
    var a, b := x, y;
    if a > b {
      a, b := b, a;
    }
    while a != 0
      invariant forall d :: Div(d, a) && Div(d, b) <==> Div(d, x) && Div(d, y)
    {
      forall d
        ensures Div(d, b % a) && Div(d, a) <==> Div(d, a) && Div(d, b)
      {
        if Div(d, a) {
          DivMod(d, a, b);
        }
      }
      a, b := b % a, a;
    }
    g := b;
    forall d ensures Div(d, 0) {
      DivZeroAndSelf(d);
    }
  }

  method FindGcd(data: array<nat>, n: nat) returns (g: nat)
    requires n <= data.Length
    ensures IsGcd(g, data[..n])
  {
    g := 0;
    forall d ensures Div(d, 0) && Div(d, d) && Div(1, d) {
      DivZeroAndSelf(d);
    }
    for i := 0 to n
      invariant forall d :: Div(d, g) <==> DivAll(d, data[..i])
    {
      assert data[..i+1] == data[..i] + [data[i]];
      ghost var before := g;
      g := GCD(g, data[i]);
      forall d
        ensures Div(d, g) <==> DivAll(d, data[..i+1])
      {
        DivAllSnoc(d, data[..i], data[i]);
      }
      if g == 1 {
        FoundOne(data[..n], i + 1);
        return;
      }
    }
  }

  lemma DivAllSnoc(d: nat, s: seq<nat>, x: nat)
    ensures DivAll(d, s + [x]) <==> DivAll(d, s) && Div(d, x)
  {
    if DivAll(d, s + [x]) {
      forall i | 0 <= i < |s| ensures Div(d, s[i]) {
        assert s[i] == (s + [x])[i];
      }
      assert x == (s + [x])[|s|];
    }
  }

  lemma FoundOne(s: seq<nat>, i: nat)
    requires i <= |s| && forall d :: Div(d, 1) <==> DivAll(d, s[..i])
    ensures IsGcd(1, s)
  {
    forall d ensures Div(1, d) {
      DivZeroAndSelf(d);
    }
    forall d | DivAll(d, s) ensures Div(d, 1) {
      assert DivAll(d, s[..i]);
    }
  }

  /** The filter applies with the greatest common divisor, when that is above 1. */
  ghost predicate Fits(g: nat, d: Records) {
    1 < g <= d.maxval && IsGcd(g, d.vals)
  }

  function Syms(g: nat, d: Records): seq<Sym>
    requires g <= d.maxval
  {
    UniSyms(g, d.maxval)
  }

  ghost function Rest(g: nat, d: Records): (e: Records)
    requires 0 < g
  {
    Records(seq(|d.vals|, i requires 0 <= i < |d.vals| => d.vals[i] / g), d.maxval / g)
  }

  /** A divisor above 1 is no larger than the numbers: they are not all 0. */
  lemma GcdBounded(g: nat, s: seq<nat>, top: nat)
    requires 1 < g && IsGcd(g, s) && forall i :: 0 <= i < |s| ==> s[i] <= top
    ensures g <= top
  {
    if i :| 0 <= i < |s| && s[i] > 0 {
      DivSmaller(g, s[i]);
    } else {
      DivZeroAndSelf(g + 1);
      assert DivAll(g + 1, s);
      DivSmaller(g + 1, g);
    }
  }

  lemma DivSmaller(d: nat, x: nat)
    requires Div(d, x) && 0 < x
    ensures d <= x
  {
    var k: nat :| x == Times(d, k);
    if k > 0 {
      MulMonotone(1, k, d);
    }
  }

  lemma DivIsExact(g: nat, x: nat)
    requires 0 < g && Div(g, x)
    ensures x / g * g == x
  {
    var k: nat :| x == Times(g, k);
    DivUniqueZero(x, g, k);
  }

  lemma DivUniqueZero(x: nat, g: nat, k: nat)
    requires 0 < g && x == k * g
    ensures x / g == k
  {
    DivUnique(x, g, k, 0);
  }

  lemma RestIsExact(g: nat, d: Records, w: nat)
    requires Fits(g, d) && d.Valid(w)
    ensures Rest(g, d).Valid(w)
    ensures forall i :: 0 <= i < |d.vals| ==> TimesMod(Rest(g, d).vals[i], g, Pow2(w)) == d.vals[i]
    ensures d.maxval / g * g <= d.maxval
  {
    forall i | 0 <= i < |d.vals|
      ensures TimesMod(Rest(g, d).vals[i], g, Pow2(w)) == d.vals[i]
      ensures Rest(g, d).vals[i] <= Rest(g, d).maxval
    {
      DivIsExact(g, d.vals[i]);
      SmallMod(d.vals[i], Pow2(w));
      QuotientMonotone(d.vals[i], d.maxval, g);
    }
    QuotientMonotone(d.maxval, d.maxval, g);
  }

  /** Merging multiplies the bound back only if the divisor divides it: the bound that Encode saw is
      recovered exactly when maxval is a multiple of the gcd. */
  lemma BoundRecoveredIff(g: nat, maxval: nat)
    requires 0 < g
    ensures maxval / g * g == maxval <==> Div(g, maxval)
  {
    if Div(g, maxval) {
      DivIsExact(g, maxval);
    }
    if maxval / g * g == maxval {
      assert maxval == Times(g, maxval / g);
    }
  }

  lemma BoundCanBeLost()
    ensures Fits(2, Records([2, 4], 5))
    ensures Rest(2, Records([2, 4], 5)).maxval * 2 == 4
  {
    assert 2 == Times(2, 1) && 4 == Times(2, 2);
    assert [2, 4][0] == 2;
    forall d | DivAll(d, [2, 4]) ensures Div(d, 2) {
      assert Div(d, [2, 4][0]);
    }
  }

  method DivideAll(data: array<nat>, n: nat, g: nat)
    requires n <= data.Length && 0 < g
    modifies data
    ensures forall i :: 0 <= i < n ==> data[i] == old(data[i]) / g
  {
    for i := 0 to n
      invariant forall k :: 0 <= k < i ==> data[k] == old(data[k]) / g
      invariant forall k :: i <= k < n ==> data[k] == old(data[k])
    {
      data[i] := data[i] / g;
    }
  }

  method MultiplyAll(data: array<nat>, n: nat, g: nat, modulus: nat)
    requires n <= data.Length && 0 < modulus
    modifies data
    ensures forall i :: 0 <= i < n ==> data[i] == TimesMod(old(data[i]), g, modulus)
  {
    for i := 0 to n
      invariant forall k :: 0 <= k < i ==> data[k] == TimesMod(old(data[k]), g, modulus)
      invariant forall k :: i <= k < n ==> data[k] == old(data[k])
    {
      data[i] := TimesMod(data[i], g, modulus);
    }
  }

  class DataFiltGcd {
    var gcd: nat

    constructor () {
    }

    method Encode(coder: RangeCoder, ds: DataSet) returns (r: Outcome, used: bool, ghost info: nat)
      requires coder.Encoding() && ds.Valid()
      modifies coder, ds, ds.data
      ensures coder.Kept() && (r.Pass? ==> ds.Valid())
      ensures r.Pass? && !used ==>
                coder.Wrote(r, []) && ds.View() == old(ds.View()) && info <= 1 && IsGcd(info, ds.View().vals)
      ensures r.Fail? || used ==>
                && Fits(info, old(ds.View()))
                && coder.Wrote(r, Syms(info, old(ds.View())))
                && (r.Pass? ==> ds.View() == Rest(info, old(ds.View())))
    {
      hide Pow2, UniSyms, After, BitLen;
      ghost var d := ds.View();
      used, info := false, 0;
      var g := FindGcd(ds.data, ds.nrec);
      if g <= 1 {
        return Pass, false, g;
      }
      GcdBounded(g, d.vals, d.maxval);
      if g > ds.maxval {
        r := Fail(ERR_PAR);
        return;
      }
      info := g;
      var bits := GetBitLen(ds.maxval);
      :- coder.EncodeBelow(g, ds.maxval, bits);
      DivideAll(ds.data, ds.nrec, g);
      ds.maxval := ds.maxval / g;
      RestIsExact(g, d, ds.w);
      assert ds.data[..ds.nrec] == Rest(g, d).vals;
      return Pass, true, g;
    }

    /** On any stream: a divisor of at most 1 is corrupt. On what Encode wrote, its divisor. */
    method Decode(coder: RangeCoder, ds: DataSet, ghost info: nat, ghost d: Records, ghost rest: seq<Sym>)
      returns (r: Outcome)
      requires coder.Decoding()
      modifies this, coder, ds
      ensures r.Pass? ==> coder.Decoding() && gcd > 1 && ds.maxval == old(ds.maxval) / gcd
      ensures ds.nrec == old(ds.nrec)
      ensures Fits(info, d) && old(ds.Expects(d) && coder.InSync(Syms(info, d) + rest)) ==>
                r.Pass? && coder.InSync(rest) && gcd == info && ds.Expects(Rest(info, d))
    {
      hide Pow2, UniSyms, Emit, BitLen, IsGcd;
      ghost var live := Fits(info, d) && ds.Expects(d) && coder.InSync(Syms(info, d) + rest);
      var bits := GetBitLen(ds.maxval);
      gcd :- coder.DecodeBelow(ds.maxval, bits, info, rest);
      if gcd <= 1 {
        return Fail(ERR_COR);
      }
      QuotientMonotone(ds.maxval, ds.maxval, gcd);
      ds.maxval := ds.maxval / gcd;
      if live {
        RestIsExact(gcd, d, ds.w);
      }
      return Pass;
    }

    method Merge(ds: DataSet, ghost d: Records)
      requires Fits(gcd, d) && d.Valid(ds.w) && ds.Holds(Rest(gcd, d)) && ds.maxval < Pow2(ds.w)
      modifies ds, ds.data
      ensures ds.Holds(d) && ds.maxval < Pow2(ds.w)
      ensures old(ds.maxval) == d.maxval / gcd ==> (ds.maxval == d.maxval <==> Div(gcd, d.maxval))
    {
      hide Pow2;
      ghost var e := Rest(gcd, d);
      RestIsExact(gcd, d, ds.w);
      assert forall i :: 0 <= i < ds.nrec ==> ds.data[i] == ds.data[..ds.nrec][i] == e.vals[i];
      MultiplyAll(ds.data, ds.nrec, gcd, Pow2(ds.w));
      assert ds.data[..ds.nrec] == d.vals;
      BoundRecoveredIff(gcd, d.maxval);
      SmallMod(d.maxval / gcd * gcd, Pow2(ds.w));
      ds.maxval := TimesMod(ds.maxval, gcd, Pow2(ds.w));
    }
  }
}
