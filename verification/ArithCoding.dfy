/** What the 16-bit arithmetic coder writes. Its output depends on bits that come later, because a
    pending underflow bit is the opposite of the next bit sent; here a coder without pending bits is
    described, and `Pending` says what pending bits add. */
module ArithCoding {
  import opened Arith

  const MAX_TOTAL := 16383

  /** The part [low, high) of a total. */
  datatype Part = Part(low: nat, high: nat, total: nat) {
    predicate Valid() {
      low < high <= total <= MAX_TOTAL
    }
  }

  ghost predicate AllValid(parts: seq<Part>) {
    forall i :: 0 <= i < |parts| ==> parts[i].Valid()
  }

  predicate Word(low: int, high: int) {
    0 <= low <= high <= 0xFFFF
  }

  /** `(high & 0x8000) == (low & 0x8000)`. */
  predicate SameTop(low: nat, high: nat) {
    (low >= 0x8000) == (high >= 0x8000)
  }

  /** low = 01..., high = 10... */
  predicate Underflow(low: nat, high: nat) {
    0x4000 <= low < 0x8000 <= high < 0xC000
  }

  /** Between symbols the interval is wider than a quarter of the words. */
  predicate Normal(low: int, high: int) {
    Word(low, high) && !SameTop(low, high) && !Underflow(low, high)
  }

  /** A turn of the normalisation loop: a bit is settled, or one more bit is pending. */
  datatype Turn = Settle(bit: bool) | Postpone

  datatype Run = Run(turns: seq<Turn>, low: nat, high: nat)

  /** One turn: the interval doubled, with its settled or postponed bit. */
  function Turned(low: nat, high: nat): (r: Run)
    requires Word(low, high) && (SameTop(low, high) || Underflow(low, high))
    ensures Word(r.low, r.high) && r.high - r.low + 1 == 2 * (high - low + 1) && |r.turns| == 1
  {
    if SameTop(low, high) then
      var base := if high >= 0x8000 then 0x8000 else 0;
      Run([Settle(high >= 0x8000)], (low - base) * 2, (high - base) * 2 + 1)
    else
      Run([Postpone], (low - 0x4000) * 2, (high - 0x4000) * 2 + 1)
  }

  function Norm(low: nat, high: nat): (r: Run)
    requires Word(low, high)
    ensures Normal(r.low, r.high)
    decreases 0x1_0000 - (high - low)
  {
    if SameTop(low, high) || Underflow(low, high) then
      var t := Turned(low, high);
      var n := Norm(t.low, t.high);
      n.(turns := t.turns + n.turns)
    else
      Run([], low, high)
  }

  /** The bits that some turns put before the bits that follow. */
  function Expand(turns: seq<Turn>, tail: seq<bool>): (b: seq<bool>)
    requires |tail| >= 2
    ensures |b| == |turns| + |tail|
  {
    if turns == [] then tail
    else
      Prepend(turns[0], Expand(turns[1..], tail))
  }

  function Scaled(range: nat, x: nat, total: nat): nat
    requires 0 < total
  {
    range * x / total
  }

  function NewLow(low: nat, high: nat, p: Part): int
    requires low <= high && p.Valid()
  {
    low + Scaled(high - low + 1, p.low, p.total)
  }

  function NewHigh(low: nat, high: nat, p: Part): int
    requires low <= high && p.Valid()
  {
    low + Scaled(high - low + 1, p.high, p.total) - 1
  }

  lemma NarrowKeepsWord(low: nat, high: nat, p: Part)
    requires Normal(low, high) && p.Valid()
    ensures low <= NewLow(low, high, p) <= NewHigh(low, high, p) <= high
  {
    hide Scaled;
    ScaledGrows(high - low + 1, p.low, p.high, p.total);
  }

  lemma ScaledGrows(range: nat, x: nat, y: nat, total: nat)
    requires x < y <= total <= range && 0 < total
    ensures Scaled(range, x, total) < Scaled(range, y, total) <= range
  {
    MulMonotone(x + 1, y, range);
    assert range * (x + 1) == range * x + range;
    QuotientGrows(range * x, range * y, total);
    MulMonotone(y, total, range);
    QuotientBelow(range * y, range, total);
  }

  lemma QuotientGrows(a: nat, b: nat, t: nat)
    requires 0 < t && a + t <= b
    ensures a / t + 1 <= b / t
  {
    var p, q := a / t, b / t;
    assert p * t <= a && b < q * t + t;
    if q < p + 1 {
      MulMonotone(q, p, t);
    }
  }

  lemma QuotientBelow(a: nat, r: nat, t: nat)
    requires 0 < t && a <= r * t
    ensures a / t <= r
  {
    var q := a / t;
    assert q * t <= a;
    if q > r {
      MulMonotone(r + 1, q, t);
    }
  }

  function Step(low: nat, high: nat, p: Part): (r: Run)
    requires Normal(low, high) && p.Valid()
    ensures Normal(r.low, r.high)
  {
    NarrowKeepsWord(low, high, p);
    Norm(NewLow(low, high, p), NewHigh(low, high, p))
  }

  /** All that a coder without pending bits still writes: the parts, then the two closing bits. */
  function Emit(low: nat, high: nat, parts: seq<Part>): (b: seq<bool>)
    requires Normal(low, high) && AllValid(parts)
    ensures |b| >= 2
    decreases |parts|
  {
    if parts == [] then [low >= 0x4000, low < 0x4000]
    else
      var n := Step(low, high, parts[0]);
      Expand(n.turns, Emit(n.low, n.high, parts[1..]))
  }

  function Repeat(n: nat, bit: bool): (b: seq<bool>)
    ensures |b| == n
  {
    seq(n, _ => bit)
  }

  /** The same with u bits pending. */
  function Pending(u: nat, bits: seq<bool>): seq<bool>
    requires bits != []
  {
    [bits[0]] + Repeat(u, !bits[0]) + bits[1..]
  }

  /** Settling a bit releases the pending ones. */
  lemma PendingSettles(u: nat, bit: bool, rest: seq<bool>)
    requires rest != []
    ensures Pending(u, [bit] + rest) == [bit] + Repeat(u, !bit) + Pending(0, rest)
  {
    assert ([bit] + rest)[1..] == rest;
    assert Pending(0, rest) == rest;
  }

  lemma PendingPostpones(u: nat, rest: seq<bool>)
    requires rest != []
    ensures Pending(u, [rest[0], !rest[0]] + rest[1..]) == Pending(u + 1, rest)
  {
    var x := [rest[0], !rest[0]] + rest[1..];
    assert x[1..] == [!rest[0]] + rest[1..];
    assert Repeat(u + 1, !rest[0]) == Repeat(u, !rest[0]) + [!rest[0]];
  }

  /** The 16-bit window at the front of a bit string, first bit highest. */
  function Val(b: seq<bool>, n: nat): (x: nat)
    requires n <= |b|
    ensures x < Pow2(n)
  {
    if n == 0 then 0 else 2 * Val(b, n - 1) + if b[n-1] then 1 else 0
  }

  lemma {:induction false} ValTail(b: seq<bool>, n: nat)
    requires 0 < n <= |b|
    ensures Val(b, n) == (if b[0] then Pow2(n - 1) else 0) + Val(b[1..], n - 1)
    decreases n
  {
    if n > 1 {
      ValTail(b, n - 1);
      assert b[1..][n-2] == b[n-1];
    }
  }

  /** Windows before and after a bit has been shifted out in front. */
  lemma WindowBefore(bit: bool, rest: seq<bool>)
    requires |rest| >= 16
    ensures Val([bit] + rest, 16) == (if bit then 0x8000 else 0) + Val(rest, 16) / 2
  {
    Pow2Values();
    ValTail([bit] + rest, 16);
    assert ([bit] + rest)[1..] == rest;
    assert Val(rest, 16) == 2 * Val(rest, 15) + if rest[15] then 1 else 0;
  }

  lemma WindowBeforePostponed(rest: seq<bool>)
    requires |rest| >= 16
    ensures Val([rest[0], !rest[0]] + rest[1..], 16) == 0x4000 + Val(rest, 16) / 2
  {
    hide Pow2;
    var x := [rest[0], !rest[0]] + rest[1..];
    var y := [!rest[0]] + rest[1..];
    Pow2Values();
    ValTail(x, 16);
    assert x[1..] == y;
    ValTail(y, 15);
    assert y[1..] == rest[1..];
    ValTail(rest, 15);
    assert Val(rest, 16) == 2 * Val(rest, 15) + if rest[15] then 1 else 0;
  }

  lemma {:induction false} WindowBeforeNorm(low: nat, high: nat, tail: seq<bool>, trail: seq<bool>)
    requires Word(low, high) && |tail| >= 2 && |trail| >= 16
    requires Norm(low, high).low <= Val(tail + trail, 16) <= Norm(low, high).high
    ensures low <= Val(Expand(Norm(low, high).turns, tail) + trail, 16) <= high
    decreases 0x1_0000 - (high - low)
  {
    hide Val, Expand, Turned;
    if SameTop(low, high) || Underflow(low, high) {
      var t := Turned(low, high);
      var m := Norm(t.low, t.high);
      var rest := Expand(m.turns, tail);
      WindowBeforeNorm(t.low, t.high, tail, trail);
      ExpandFirst(t.turns[0], m.turns, tail);
      assert t.turns + m.turns == [t.turns[0]] + m.turns;
      WindowBeforeTurn(low, high, rest, trail);
    } else {
      ExpandNone(tail);
    }
  }

  lemma ExpandNone(tail: seq<bool>)
    requires |tail| >= 2
    ensures Expand([], tail) == tail
  {
  }

  function Prepend(t: Turn, rest: seq<bool>): (b: seq<bool>)
    requires rest != []
    ensures |b| == |rest| + 1
  {
    match t
    case Settle(bit) => [bit] + rest
    case Postpone => [rest[0], !rest[0]] + rest[1..]
  }

  lemma ExpandFirst(t: Turn, turns: seq<Turn>, tail: seq<bool>)
    requires |tail| >= 2
    ensures Expand([t] + turns, tail) == Prepend(t, Expand(turns, tail))
  {
    assert ([t] + turns)[1..] == turns;
  }

  lemma WindowBeforeTurn(low: nat, high: nat, rest: seq<bool>, trail: seq<bool>)
    requires Word(low, high) && (SameTop(low, high) || Underflow(low, high)) && |rest| >= 2 && |trail| >= 16
    requires Turned(low, high).low <= Val(rest + trail, 16) <= Turned(low, high).high
    ensures low <= Val(Prepend(Turned(low, high).turns[0], rest) + trail, 16) <= high
  {
    hide Val, Prepend;
    var y := rest + trail;
    PrependTrail(Turned(low, high).turns[0], rest, trail);
    WindowOfPrepend(Turned(low, high).turns[0], y);
  }

  lemma PrependTrail(t: Turn, rest: seq<bool>, trail: seq<bool>)
    requires rest != []
    ensures Prepend(t, rest) + trail == Prepend(t, rest + trail)
  {
  }

  lemma WindowOfPrepend(t: Turn, y: seq<bool>)
    requires |y| >= 16
    ensures Val(Prepend(t, y), 16)
            == Val(y, 16) / 2 + if t.Postpone? then 0x4000 else if t.bit then 0x8000 else 0
  {
    hide Val;
    if t.Postpone? {
      WindowBeforePostponed(y);
    } else {
      WindowBefore(t.bit, y);
    }
  }

  /** The code lies in the interval it was emitted from, whatever bits follow it. */
  lemma {:induction false} EmitStaysInside(low: nat, high: nat, parts: seq<Part>, trail: seq<bool>)
    requires Normal(low, high) && AllValid(parts) && |trail| >= 16
    ensures low <= Val(Emit(low, high, parts) + trail, 16) <= high
    ensures parts != [] ==>
              NewLow(low, high, parts[0]) <= Val(Emit(low, high, parts) + trail, 16) <= NewHigh(low, high, parts[0])
    decreases |parts|
  {
    hide Val, Expand, Norm, NewLow, NewHigh;
    if parts == [] {
      ClosingBits(low >= 0x4000, trail);
    } else {
      NarrowKeepsWord(low, high, parts[0]);
      var low1, high1 := NewLow(low, high, parts[0]), NewHigh(low, high, parts[0]);
      var n := Norm(low1, high1);
      EmitStaysInside(n.low, n.high, parts[1..], trail);
      WindowBeforeNorm(low1, high1, Emit(n.low, n.high, parts[1..]), trail);
    }
  }

  lemma ClosingBits(bit: bool, trail: seq<bool>)
    requires |trail| >= 16
    ensures bit ==> 0x8000 <= Val([bit, !bit] + trail, 16) < 0xC000
    ensures !bit ==> 0x4000 <= Val([bit, !bit] + trail, 16) < 0x8000
  {
    hide Val, Pow2;
    var x := [bit, !bit] + trail;
    Pow2Values();
    ValTail(x, 16);
    assert x[1..] == [!bit] + trail;
    ValTail([!bit] + trail, 15);
    assert ([!bit] + trail)[1..] == trail;
  }

  /** The bits of a word, first bit highest. */
  function WordBits(x: nat, n: nat): (b: seq<bool>)
    ensures |b| == n
  {
    if n == 0 then [] else WordBits(x / 2, n - 1) + [x % 2 == 1]
  }

  lemma {:induction false} WordBitsValue(x: nat, n: nat, trail: seq<bool>)
    requires x < Pow2(n)
    ensures Val(WordBits(x, n) + trail, n) == x
  {
    if n > 0 {
      var last := [x % 2 == 1];
      WordBitsValue(x / 2, n - 1, last + trail);
      assert WordBits(x, n) + trail == WordBits(x / 2, n - 1) + (last + trail);
    }
  }

  /** Shifting a bit in at the low end of n bits drops the highest. */
  lemma {:induction false} WordBitsDrop(x: nat, n: nat)
    ensures WordBits(x, n + 1)[1..] == WordBits(x % Pow2(n), n)
  {
    if n > 0 {
      hide Pow2;
      WordBitsDrop(x / 2, n - 1);
      assert WordBits(x, n + 1)[1..] == WordBits(x / 2, n)[1..] + [x % 2 == 1];
      Pow2Double(n - 1);
      HalfOfRemainder(x, Pow2(n - 1));
    }
  }

  lemma HalfOfRemainder(x: nat, p: nat)
    requires p > 0
    ensures x % (2 * p) / 2 == x / 2 % p && x % (2 * p) % 2 == x % 2
  {
    var q, m := x / 2 / p, x / 2 % p;
    assert x / 2 == q * p + m;
    assert x == q * (2 * p) + (2 * m + x % 2);
    DivUnique(x, 2 * p, q, 2 * m + x % 2);
  }

  lemma Shifted(code: nat, bit: bool)
    requires code <= 0xFFFF
    ensures WordBits(code * 2 % 0x1_0000 + (if bit then 1 else 0), 16) == WordBits(code, 16)[1..] + [bit]
  {
    hide WordBits;
    WordBitsDrop(code, 15);
    Pow2Values();
    assert code * 2 % 0x1_0000 == 2 * (code % 0x8000);
    ShiftedIn(code % 0x8000, bit, 15);
  }

  lemma ShiftedIn(x: nat, bit: bool, n: nat)
    ensures WordBits(2 * x + (if bit then 1 else 0), n + 1) == WordBits(x, n) + [bit]
  {
  }

  /** `code ^ 0x4000`. */
  function FlipSecond(code: nat): (r: nat)
    requires code <= 0xFFFF
    ensures r <= 0xFFFF
  {
    if code / 0x4000 % 2 == 1 then code - 0x4000 else code + 0x4000
  }

  /** Flipping the second bit and shifting turns b, !b, ... into b, ... */
  lemma Flipped(code: nat)
    requires code <= 0xFFFF && WordBits(code, 16)[1] != WordBits(code, 16)[0]
    ensures WordBits(FlipSecond(code), 16)[1..] == [WordBits(code, 16)[0]] + WordBits(code, 16)[2..]
  {
    hide WordBits;
    TopBits(code);
    TopBits(FlipSecond(code));
    FlippedParts(code);
    var low := WordBits(code % 0x4000, 14);
    assert WordBits(code, 16)[2..] == low
             && WordBits(FlipSecond(code), 16)[1..] == [WordBits(FlipSecond(code), 16)[1]] + low;
  }

  lemma FlippedParts(code: nat)
    requires code <= 0xFFFF
    ensures var f := FlipSecond(code);
            && f % 0x4000 == code % 0x4000 && (f >= 0x8000 <==> code >= 0x8000)
            && (f / 0x4000 % 2 == 1 <==> code / 0x4000 % 2 != 1)
  {
  }

  lemma TopBits(code: nat)
    requires code <= 0xFFFF
    ensures WordBits(code, 16)
            == [code >= 0x8000, code / 0x4000 % 2 == 1] + WordBits(code % 0x4000, 14)
  {
    hide WordBits, Pow2;
    Pow2Values();
    WordBitsDrop(code, 15);
    WordBitsDrop(code % 0x8000, 14);
    WordBitsTop(code, 16);
    WordBitsTop(code % 0x8000, 15);
    assert code % 0x8000 % 0x4000 == code % 0x4000;
    var w := WordBits(code, 16);
    assert w == [w[0]] + w[1..];
    assert w[1..] == [w[1..][0]] + w[1..][1..];
  }

  lemma {:induction false} WordBitsTop(x: nat, n: nat)
    requires n > 0 && x < Pow2(n)
    ensures WordBits(x, n)[0] == (x >= Pow2(n - 1))
  {
    if n > 1 {
      WordBitsTop(x / 2, n - 1);
    }
  }

  /** The count computed from a code inside a part's interval falls in the part. */
  lemma CountFindsPart(low: nat, high: nat, code: nat, p: Part)
    requires low <= high && p.Valid() && NewLow(low, high, p) <= code <= NewHigh(low, high, p)
    ensures low <= code && p.low <= CountOf(low, high, code, p.total) < p.high
  {
    hide CountOf;
    var range, d := high - low + 1, code - low;
    LowBelow(range, p.low, p.total, d);
    HighAbove(range, p.high, p.total, d);
    CountBetween(low, high, code, p);
  }

  function CountOf(low: nat, high: nat, code: nat, total: nat): nat
    requires low <= high && low <= code && 0 < total
  {
    assert (code - low + 1) * total >= 1 by { MulMonotone(1, code - low + 1, total); }
    ((code - low + 1) * total - 1) / (high - low + 1)
  }

  lemma LowBelow(range: nat, x: nat, total: nat, d: nat)
    requires 0 < total && Scaled(range, x, total) <= d
    ensures range * x < (d + 1) * total
  {
    var q := range * x / total;
    assert range * x < q * total + total;
    MulMonotone(q + 1, d + 1, total);
  }

  lemma HighAbove(range: nat, x: nat, total: nat, d: nat)
    requires 0 < total && d < Scaled(range, x, total)
    ensures (d + 1) * total <= range * x
  {
    var q := range * x / total;
    assert q * total <= range * x;
    MulMonotone(d + 1, q, total);
  }

  lemma CountBetween(low: nat, high: nat, code: nat, p: Part)
    requires low <= high && low <= code && p.Valid()
    requires (high - low + 1) * p.low < (code - low + 1) * p.total <= (high - low + 1) * p.high
    ensures p.low <= CountOf(low, high, code, p.total) < p.high
  {
    var range, n := high - low + 1, (code - low + 1) * p.total - 1;
    var q := n / range;
    assert q * range <= n < q * range + range;
    if q < p.low {
      MulMonotone(q + 1, p.low, range);
    }
    if p.high <= q {
      MulMonotone(p.high, q, range);
    }
  }
}
