/** Powers of two, bit lengths and the few facts about them that the coders need. */
module Arith {

  function Pow2(n: nat): (r: nat)
    ensures r >= 1
  {
    if n == 0 then 1 else 2 * Pow2(n - 1)
  }

  lemma {:induction false} Pow2Add(a: nat, b: nat)
    ensures Pow2(a + b) == Pow2(a) * Pow2(b)
  {
    if b > 0 {
      Pow2Add(a, b - 1);
      assert Pow2(a) * Pow2(b) == 2 * (Pow2(a) * Pow2(b - 1));
    }
  }

  lemma {:induction false} Pow2Monotone(a: nat, b: nat)
    requires a <= b
    ensures Pow2(a) <= Pow2(b)
  {
    if a < b {
      Pow2Monotone(a, b - 1);
    }
  }

  lemma Pow2Values()
    ensures Pow2(0) == 1 && Pow2(6) == 64 && Pow2(8) == 256 && Pow2(14) == 0x4000 && Pow2(15) == 0x8000
              && Pow2(16) == 0x1_0000
    ensures Pow2(32) == 0x1_0000_0000 && Pow2(64) == 0x1_0000_0000_0000_0000
  {
    assert Pow2(4) == 16 && Pow2(6) == 64 && Pow2(7) == 128;
    Pow2Add(4, 4);
    Pow2Add(8, 6);
    Pow2Add(8, 7);
    Pow2Add(8, 8);
    Pow2Add(16, 16);
    Pow2Add(32, 32);
  }

  /** Shifts of unbounded numbers. */
  function Shl(x: nat, s: nat): nat {
    x * Pow2(s)
  }

  function Shr(x: nat, s: nat): nat {
    QuotientIsNat(x, Pow2(s));
    x / Pow2(s)
  }

  lemma QuotientIsNat(x: nat, d: nat)
    requires d > 0
    ensures x / d >= 0
  {
    var q := x / d;
    assert x < q * d + d;
    if q < 0 {
      MulMonotone(q, -1, d);
    }
  }

  /** The number of significant bits of x; 0 for x == 0. */
  function BitLen(x: nat): nat {
    if x == 0 then 0 else 1 + BitLen(x / 2)
  }

  lemma {:induction false} BitLenBounds(x: nat)
    ensures x < Pow2(BitLen(x))
    ensures x > 0 ==> Pow2(BitLen(x) - 1) <= x
  {
    if x > 0 {
      BitLenBounds(x / 2);
    }
  }

  lemma {:induction false} BitLenLeast(x: nat, b: nat)
    requires x < Pow2(b)
    ensures BitLen(x) <= b
  {
    BitLenBounds(x);
    if BitLen(x) > b {
      Pow2Monotone(b, BitLen(x) - 1);
    }
  }

  lemma MulMonotone(a: int, b: int, c: int)
    requires a <= b && 0 <= c
    ensures a * c <= b * c && c * a <= c * b
  {
  }

  lemma QuotientMonotone(a: nat, b: nat, g: nat)
    requires a <= b && 0 < g
    ensures a / g <= b / g <= b
  {
    var p, q := a / g, b / g;
    assert p * g <= a && b < q * g + g && q * g <= b;
    if q < p {
      MulMonotone(q + 1, p, g);
    }
    MulMonotone(1, g, q);
  }

  /** A number is divided in one way only. */
  lemma DivUnique(x: int, d: int, q: int, r: int)
    requires 0 < d && 0 <= r < d && x == q * d + r
    ensures x / d == q && x % d == r
  {
    if x / d > q {
      MulMonotone(q + 1, x / d, d);
    } else if x / d < q {
      MulMonotone(x / d + 1, q, d);
    }
  }

  lemma Pow2Double(n: nat)
    ensures Pow2(n + 1) == 2 * Pow2(n)
  {
  }

  /** The sum of the first k numbers. */
  function SumTo(s: seq<nat>, k: nat): nat
    requires k <= |s|
  {
    if k == 0 then 0 else SumTo(s, k - 1) + s[k - 1]
  }

  lemma {:induction false} SubsetSize<T>(a: set<T>, b: set<T>)
    requires a <= b
    ensures |a| <= |b|
    decreases a
  {
    if a != {} {
      var x :| x in a;
      SubsetSize(a - {x}, b - {x});
    }
  }

  lemma SmallMod(x: nat, m: nat)
    requires x < m
    ensures x % m == x
  {
  }

  /** Sum and difference in unsigned arithmetic modulo m. */
  function WrapAdd(a: nat, b: nat, m: nat): (c: nat)
    requires a < m && b < m
    ensures c < m
  {
    if a + b < m then a + b else a + b - m
  }

  function WrapSub(a: nat, b: nat, m: nat): (c: nat)
    requires a < m && b < m
    ensures c < m && WrapAdd(c, b, m) == a
  {
    if a >= b then a - b else a + m - b
  }

  /** The bit length as the portable loop counts it. */
  method GetBitLen(x: nat) returns (b: nat)
    ensures b == BitLen(x)
  {
    b := 0;
    var rest := x;
    while rest != 0
      invariant b + BitLen(rest) == BitLen(x)
    {
      rest := rest / 2;
      b := b + 1;
    }
  }

  /** A number halved k times, but kept at 1 at least where it is positive. */
  function Reduced(num: nat, k: nat): nat {
    QuotientIsNat(num, Pow2(k));
    if num / Pow2(k) == 0 && num > 0 then 1 else num / Pow2(k)
  }

  lemma ReducedNext(num: nat, k: nat)
    ensures Reduced(num, k + 1) == if Reduced(num, k) / 2 == 0 && num > 0 then 1 else Reduced(num, k) / 2
    ensures num > 0 ==> Reduced(num, k) > 0
  {
    hide Pow2;
    Pow2Double(k);
    QuotientOfQuotient(num, Pow2(k), 2);
  }

  lemma NotReduced(num: nat)
    ensures Reduced(num, 0) == num
  {
  }

  lemma QuotientOfQuotient(x: nat, a: nat, b: nat)
    requires 0 < a && 0 < b
    ensures x / a / b == x / (a * b)
  {
    var q, r := x / a, x % a;
    var p, s := q / b, q % b;
    assert x == q * a + r;
    assert q == p * b + s;
    TwoSteps(p, s, r, a, b);
    DivUnique(x, a * b, p, s * a + r);
  }

  lemma TwoSteps(p: int, s: int, r: int, a: int, b: int)
    requires 0 <= s < b && 0 <= r < a
    ensures (p * b + s) * a + r == p * (a * b) + (s * a + r) && 0 <= s * a + r < a * b
  {
    MulMonotone(s, b - 1, a);
    MulMonotone(0, s, a);
    assert (p * b + s) * a == p * (a * b) + s * a;
  }
}
