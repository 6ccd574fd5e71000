/** How a number known to be at most maxval is cut into symbols: groups of 16 bits, the least
    significant first, all but the last with total 2^16. */
module Uniform {
  import opened Arith
  import opened RangeCoding

  function UniSyms(val: nat, maxval: nat): (s: seq<Sym>)
    requires val <= maxval
    ensures AllValid(s)
    decreases maxval
  {
    if maxval == 0 then []
    else if maxval < 0x1_0000 then [Sym(val, 1, maxval + 1)]
    else [Sym(val % 0x1_0000, 1, 0x1_0000)] + UniSyms(val / 0x1_0000, maxval / 0x1_0000)
  }

  lemma UniSymsByGroup(val: nat, maxval: nat)
    requires val <= maxval
    ensures maxval == 0 ==> UniSyms(val, maxval) == []
    ensures 0 < maxval < 0x1_0000 ==> UniSyms(val, maxval) == [Sym(val, 1, maxval + 1)]
    ensures maxval >= 0x1_0000 ==>
              && val / 0x1_0000 <= maxval / 0x1_0000 && 0 < maxval / 0x1_0000
              && UniSyms(val, maxval) == [Sym(val % 0x1_0000, 1, 0x1_0000)] + UniSyms(val / 0x1_0000, maxval / 0x1_0000)
  {
  }

  /** Symbol k is the k-th group of 16 bits, with equal chances for all values that the bound leaves it. */
  lemma {:induction false} UniSymsAt(val: nat, maxval: nat, k: nat)
    requires val <= maxval && k < |UniSyms(val, maxval)|
    ensures var p := Pow2(16 * k);
            UniSyms(val, maxval)[k]
            == Sym(Group(val, p), 1, if maxval / p < 0x1_0000 then Group(maxval, p) + 1 else 0x1_0000)
    decreases maxval
  {
    hide Pow2, UniSyms;
    Pow2Values();
    UniSymsByGroup(val, maxval);
    if k > 0 {
      UniSymsAt(val / 0x1_0000, maxval / 0x1_0000, k - 1);
      Pow2Add(16, 16 * (k - 1));
      assert 16 * k == 16 + 16 * (k - 1);
      QuotientOfQuotient(val, 0x1_0000, Pow2(16 * (k - 1)));
      QuotientOfQuotient(maxval, 0x1_0000, Pow2(16 * (k - 1)));
    }
  }

  function Group(x: nat, p: nat): (g: nat)
    requires 0 < p
  {
    x / p % 0x1_0000
  }

  /** There are as many symbols as the bound has groups, and no more. */
  lemma {:induction false} UniSymsMany(val: nat, maxval: nat, n: nat)
    requires val <= maxval
    ensures |UniSyms(val, maxval)| <= n <==> maxval < Pow2(16 * n)
    decreases maxval
  {
    hide Pow2;
    Pow2Values();
    if n > 0 {
      Pow2Add(16, 16 * (n - 1));
      assert 16 * n == 16 + 16 * (n - 1);
      if maxval >= 0x1_0000 {
        UniSymsMany(val / 0x1_0000, maxval / 0x1_0000, n - 1);
        BelowProduct(maxval, Pow2(16 * (n - 1)));
      }
    }
  }

  lemma BelowProduct(x: nat, p: nat)
    ensures x / 0x1_0000 < p <==> x < 0x1_0000 * p
  {
  }

  /** The groups that are sent when the bound is known to have at most bitmax bits. */
  function GroupSyms(val: nat, maxval: nat, bitmax: nat): (s: seq<Sym>)
    requires val <= maxval < Pow2(bitmax)
    ensures AllValid(s)
    decreases bitmax
  {
    Pow2Values();
    if bitmax <= 16 then
      Pow2Monotone(bitmax, 16);
      [Sym(val, 1, maxval + 1)]
    else
      Pow2Add(16, bitmax - 16);
      [Sym(val % 0x1_0000, 1, 0x1_0000)] + GroupSyms(val / 0x1_0000, maxval / 0x1_0000, bitmax - 16)
  }

  lemma GroupStep(val: nat, maxval: nat, bitmax: nat)
    requires val <= maxval < Pow2(bitmax)
    ensures bitmax <= 16 ==> maxval < 0x1_0000 && GroupSyms(val, maxval, bitmax) == [Sym(val, 1, maxval + 1)]
    ensures bitmax > 16 ==>
              && val / 0x1_0000 <= maxval / 0x1_0000 < Pow2(bitmax - 16)
              && GroupSyms(val, maxval, bitmax)
                 == [Sym(val % 0x1_0000, 1, 0x1_0000)] + GroupSyms(val / 0x1_0000, maxval / 0x1_0000, bitmax - 16)
  {
    Pow2Values();
    if bitmax <= 16 {
      Pow2Monotone(bitmax, 16);
    } else {
      Pow2Add(16, bitmax - 16);
    }
  }

  /** What follows the first group. */
  lemma LaterGroups(val: nat, maxval: nat, bitmax: nat, rest: seq<Sym>) returns (later: seq<Sym>)
    requires val <= maxval < Pow2(bitmax) && bitmax > 16
    ensures val / 0x1_0000 <= maxval / 0x1_0000 < Pow2(bitmax - 16)
    ensures later == GroupSyms(val / 0x1_0000, maxval / 0x1_0000, bitmax - 16) + rest
    ensures GroupSyms(val, maxval, bitmax) + rest == [Sym(val % 0x1_0000, 1, 0x1_0000)] + later
  {
    hide GroupSyms, Pow2;
    GroupStep(val, maxval, bitmax);
    later := GroupSyms(val / 0x1_0000, maxval / 0x1_0000, bitmax - 16) + rest;
  }

  /** With the exact number of bits there are no more groups than needed. */
  lemma {:induction false} GroupsAreUni(val: nat, maxval: nat)
    requires val <= maxval && 0 < maxval
    ensures maxval < Pow2(BitLen(maxval)) && GroupSyms(val, maxval, BitLen(maxval)) == UniSyms(val, maxval)
    decreases maxval
  {
    hide Pow2, BitLen, GroupSyms, UniSyms;
    BitLenBounds(maxval);
    BitLenOverGroup(maxval);
    GroupStep(val, maxval, BitLen(maxval));
    UniSymsByGroup(val, maxval);
    if maxval >= 0x1_0000 {
      GroupsAreUni(val / 0x1_0000, maxval / 0x1_0000);
    }
  }

  /** Nothing is sent below a bound of 0. */
  function SymsWithin(val: nat, maxval: nat, bitmax: nat): seq<Sym>
    requires val <= maxval < Pow2(bitmax)
  {
    if maxval == 0 then [] else GroupSyms(val, maxval, bitmax)
  }

  lemma WithinExactly(val: nat, maxval: nat)
    requires val <= maxval
    ensures maxval < Pow2(BitLen(maxval)) && SymsWithin(val, maxval, BitLen(maxval)) == UniSyms(val, maxval)
  {
    hide GroupSyms;
    BitLenBounds(maxval);
    UniSymsByGroup(val, maxval);
    if maxval > 0 {
      GroupsAreUni(val, maxval);
    }
  }

  /** The same by a number of bits instead of a largest value. */
  function ShiftSyms(val: nat, shift: nat): (s: seq<Sym>)
    requires val < Pow2(shift)
    ensures AllValid(s)
    decreases shift
  {
    if shift <= 16 then
      Pow2Monotone(shift, 16);
      Pow2Values();
      [Sym(val, 1, Pow2(shift))]
    else
      Pow2Add(16, shift - 16);
      Pow2Values();
      [Sym(val % 0x1_0000, 1, 0x1_0000)] + ShiftSyms(val / 0x1_0000, shift - 16)
  }

  lemma ShiftSymsByGroup(val: nat, shift: nat)
    requires val < Pow2(shift)
    ensures shift <= 16 ==> 0 < Pow2(shift) <= 0x1_0000 && ShiftSyms(val, shift) == [Sym(val, 1, Pow2(shift))]
    ensures shift > 16 ==>
              && val / 0x1_0000 < Pow2(shift - 16)
              && ShiftSyms(val, shift)
                 == [Sym(val % 0x1_0000, 1, 0x1_0000)] + ShiftSyms(val / 0x1_0000, shift - 16)
  {
    Pow2Values();
    if shift <= 16 {
      Pow2Monotone(shift, 16);
    } else {
      Pow2Add(16, shift - 16);
    }
  }

  /** Coding by shift is coding below the all-ones bound of that many bits: the choice that the
      uniform filter makes between the two does not change the stream. */
  lemma {:induction false} ShiftIsUniform(val: nat, shift: nat)
    requires val < Pow2(shift) && 0 < shift
    ensures ShiftSyms(val, shift) == UniSyms(val, Pow2(shift) - 1)
    decreases shift
  {
    hide Pow2, ShiftSyms, UniSyms;
    Pow2Values();
    ShiftSymsByGroup(val, shift);
    UniSymsByGroup(val, Pow2(shift) - 1);
    if shift <= 16 {
      AboveOne(shift);
      Pow2Monotone(shift, 16);
    } else {
      AboveOne(shift - 16);
      Pow2Add(16, shift - 16);
      GroupOfOnes(Pow2(shift - 16));
      ShiftIsUniform(val / 0x1_0000, shift - 16);
    }
  }

  lemma AboveOne(n: nat)
    requires n > 0
    ensures Pow2(n) >= 2
  {
  }

  lemma GroupOfOnes(p: nat)
    requires p > 0
    ensures (0x1_0000 * p - 1) / 0x1_0000 == p - 1
  {
  }

  /** A number is recovered from its symbols: the code is injective. */
  lemma {:induction false} UniInjective(a: nat, b: nat, maxval: nat)
    requires a <= maxval && b <= maxval
    requires UniSyms(a, maxval) == UniSyms(b, maxval)
    ensures a == b
    decreases maxval
  {
    if maxval >= 0x1_0000 {
      var sa, sb := UniSyms(a, maxval), UniSyms(b, maxval);
      assert sa[0].cum == sb[0].cum;
      assert sa[1..] == UniSyms(a / 0x1_0000, maxval / 0x1_0000);
      assert sb[1..] == UniSyms(b / 0x1_0000, maxval / 0x1_0000);
      UniInjective(a / 0x1_0000, b / 0x1_0000, maxval / 0x1_0000);
    } else if maxval > 0 {
      assert UniSyms(a, maxval)[0] == UniSyms(b, maxval)[0];
    }
  }

  lemma BitLenOverGroup(x: nat)
    ensures BitLen(x) > 16 <==> x >= 0x1_0000
    ensures x >= 0x1_0000 ==> BitLen(x / 0x1_0000) == BitLen(x) - 16
  {
    hide Pow2, BitLen;
    Pow2Values();
    BitLenBounds(x);
    if x < 0x1_0000 {
      BitLenLeast(x, 16);
    } else {
      if BitLen(x) <= 16 {
        Pow2Monotone(BitLen(x), 16);
      }
      var b := BitLen(x) - 16;
      Pow2Add(16, b);
      BitLenLeast(x / 0x1_0000, b);
      Pow2Add(16, b - 1);
      BitLenBounds(x / 0x1_0000);
      if BitLen(x / 0x1_0000) < b {
        Pow2Monotone(BitLen(x / 0x1_0000), b - 1);
      }
    }
  }

  /** The decoder's shifts from one group to the next. */
  lemma NextGroup(maxval: nat, xs: nat, shift: nat)
    ensures Shl(xs, shift) == Shl(xs % 0x1_0000, shift) + Shl(xs / 0x1_0000, shift + 16)
    ensures Shr(maxval, shift) / 0x1_0000 == Shr(maxval, shift + 16)
  {
    hide Pow2;
    DivDiv(maxval, Pow2(shift));
    Pow2Add(shift, 16);
    Pow2Values();
    SplitGroup(xs, Pow2(shift));
  }

  lemma ShiftByNone(x: nat)
    ensures Shl(x, 0) == x && Shr(x, 0) == x
  {
  }

  lemma SplitGroup(x: nat, unit: nat)
    ensures x * unit == x % 0x1_0000 * unit + x / 0x1_0000 * (unit * 0x1_0000)
  {
    var lo, hi := x % 0x1_0000, x / 0x1_0000;
    assert x == lo + hi * 0x1_0000;
    assert x * unit == lo * unit + hi * 0x1_0000 * unit;
  }

  lemma DivDiv(x: nat, a: nat)
    requires 0 < a
    ensures x / a / 0x1_0000 == x / (a * 0x1_0000)
    ensures 0 < a * 0x1_0000
  {
    var p := a * 0x1_0000;
    var q := x / p;
    assert x == q * p + x % p;
    assert q * p == q * 0x1_0000 * a;
    QuotientInside(x % p, a, 0, 0x1_0000);
    assert x / a == q * 0x1_0000 + x % p / a by {
      var m := x % p;
      var t := m / a;
      assert m == t * a + m % a;
      assert x == (q * 0x1_0000 + t) * a + m % a;
      DivUnique(x, a, q * 0x1_0000 + t, m % a);
    }
  }
}
