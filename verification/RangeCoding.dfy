/** What the carryless 32-bit range coder writes, as functions of the symbols it is given.
    A symbol is the part [cum, cum + freq) of a total; `Emit` is the byte string that a coder in
    state (low, range) still has to write for the remaining symbols, its four closing bytes included. */
module RangeCoding {
  import opened Arith

  type byte = b: int | 0 <= b < 256

  const BOT := 0x1_0000

  datatype Sym = Sym(cum: nat, freq: nat, total: nat) {
    predicate Valid() {
      0 < freq && cum + freq <= total <= BOT
    }
  }

  ghost predicate AllValid(syms: seq<Sym>) {
    forall i :: 0 <= i < |syms| ==> syms[i].Valid()
  }

  /** The interval [low, low + range) never leaves 32 bits; it may touch 2^32 only when low has a
      nonzero top byte, so that the wrapped sum is never mistaken for an equal top byte. */
  predicate Inv(low: int, range: int) {
    && 0 <= low < 0x1_0000_0000
    && 0 < range < 0x1_0000_0000
    && low + range <= 0x1_0000_0000
    && (low + range == 0x1_0000_0000 ==> low >= 0x100_0000)
  }

  /** Between symbols. */
  predicate Ready(low: int, range: int) {
    Inv(low, range) && range >= 0x1_0000
  }

  /** `(low ^ (low + range)) < 2^24` on 32-bit words: see XorBelowTop. */
  predicate SameTop(low: nat, range: nat) {
    low / 0x100_0000 == (low + range) % 0x1_0000_0000 / 0x100_0000
  }

  /** The bytes shifted out so far, and the interval that is left. */
  datatype Run = Run(bytes: seq<byte>, low: nat, range: nat)

  /** The interval after the carryless cut: it ends at the next multiple of 2^16 above low. */
  function Cut(low: nat): (range: nat)
    ensures 0 < range <= 0x1_0000
  {
    0x1_0000 - low % 0x1_0000
  }

  /** The normalisation loop. */
  function Norm(low: nat, range: nat): (r: Run)
    requires Inv(low, range)
    ensures Ready(r.low, r.range)
    decreases if low + range == 0x1_0000_0000 then 0 else 1, 0x1_0000_0000 - range
  {
    if SameTop(low, range) then
      ShiftKeepsInv(low, range);
      var n := Norm(low % 0x100_0000 * 256, range * 256);
      n.(bytes := [low / 0x100_0000] + n.bytes)
    else if range < 0x1_0000 then
      CutKeepsInv(low, range);
      var n := Norm(low % 0x100_0000 * 256, Cut(low) * 256);
      n.(bytes := [low / 0x100_0000] + n.bytes)
    else
      Run([], low, range)
  }

  lemma ShiftKeepsInv(low: nat, range: nat)
    requires Inv(low, range) && SameTop(low, range)
    ensures Inv(low % 0x100_0000 * 256, range * 256)
    ensures low % 0x100_0000 * 256 + range * 256 < 0x1_0000_0000
    ensures range * 256 % 0x1_0000_0000 == range * 256
  {
  }

  lemma CutKeepsInv(low: nat, range: nat)
    requires Inv(low, range) && !SameTop(low, range) && range < 0x1_0000
    ensures Cut(low) <= range && low % 0x1_0000 != 0
    ensures Inv(low % 0x100_0000 * 256, Cut(low) * 256)
    ensures low % 0x100_0000 * 256 + Cut(low) * 256 == 0x1_0000_0000
    ensures low + range == 0x1_0000_0000 ==> Cut(low) == range
    ensures Cut(low) * 256 % 0x1_0000_0000 == Cut(low) * 256
  {
    hide SameTop, Cut;
    TopCrossed(low, range);
    CutAtTop(low % 0x100_0000, low, range);
  }

  lemma TopCrossed(low: nat, range: nat)
    requires Inv(low, range) && !SameTop(low, range) && range < 0x1_0000
    ensures low % 0x100_0000 + range >= 0x100_0000
    ensures low + range == 0x1_0000_0000 ==> low % 0x100_0000 + range == 0x100_0000
  {
  }

  lemma CutAtTop(m: nat, low: nat, range: nat)
    requires m == low % 0x100_0000 && range < 0x1_0000 && m + range >= 0x100_0000
    ensures low % 0x1_0000 != 0 && m + Cut(low) == 0x100_0000
  {
  }

  /** `x << 8`, `x >> 24` and `-x & (BOT - 1)` on 32-bit words. */
  function Shl8(x: nat): (y: nat)
    ensures y < 0x1_0000_0000
  {
    x * 256 % 0x1_0000_0000
  }

  function Shr24(x: nat): (y: byte)
    requires x < 0x1_0000_0000
  {
    x / 0x100_0000
  }

  function NegLow16(x: nat): (y: nat)
    requires x < 0x1_0000_0000
    ensures y < 0x1_0000
  {
    (0x1_0000_0000 - x) % 0x1_0000
  }

  /** One turn of the loop, in the 32-bit arithmetic of the program: the negation is the cut, and the
      two shifts drop exactly the byte that goes out. The cut never empties or enlarges the interval. */
  lemma NormTurn(low: nat, range: nat)
    requires Inv(low, range) && (SameTop(low, range) || range < 0x1_0000)
    ensures var width := if SameTop(low, range) then range else NegLow16(low);
            && 0 < width <= range
            && Inv(Shl8(low), Shl8(width))
            && Norm(low, range)
               == Norm(Shl8(low), Shl8(width)).(bytes := [Shr24(low)] + Norm(Shl8(low), Shl8(width)).bytes)
  {
    hide SameTop, Cut;
    ShiftDropsTop(low);
    if SameTop(low, range) {
      ShiftKeepsInv(low, range);
    } else {
      CutKeepsInv(low, range);
      NegationCuts(low);
    }
  }

  lemma NormDone(low: nat, range: nat)
    requires Inv(low, range) && !SameTop(low, range) && range >= 0x1_0000
    ensures Norm(low, range) == Run([], low, range) && Ready(low, range)
  {
  }

  lemma ShiftDropsTop(x: nat)
    requires x < 0x1_0000_0000
    ensures Shl8(x) == x % 0x100_0000 * 256
  {
  }

  lemma NegationCuts(low: nat)
    requires low < 0x1_0000_0000 && low % 0x1_0000 != 0
    ensures NegLow16(low) == Cut(low)
  {
  }

  /** Top bytes are what the exclusive or compares. */
  lemma XorBelowTop(a: bv32, b: bv32)
    ensures (a ^ b) < 0x100_0000 <==> (a >> 24) == (b >> 24)
  {
  }

  /** A symbol never makes the coder shift out more than three bytes. */
  lemma {:induction false} NormEmitsAtMostThree(low: nat, range: nat)
    requires Inv(low, range)
    ensures |Norm(low, range).bytes| <= 3
    ensures range >= 0x100 ==> |Norm(low, range).bytes| <= 2
    ensures range >= 0x1_0000 ==> |Norm(low, range).bytes| <= 1
    ensures range >= 0x100_0000 ==> |Norm(low, range).bytes| == 0
    ensures low + range == 0x1_0000_0000 ==> |Norm(low, range).bytes| <= 2
    ensures low + range == 0x1_0000_0000 && range >= 0x100 ==> |Norm(low, range).bytes| <= 1
    ensures low + range == 0x1_0000_0000 && range >= 0x1_0000 ==> |Norm(low, range).bytes| == 0
    decreases if low + range == 0x1_0000_0000 then 0 else 1, 0x1_0000_0000 - range
  {
    if SameTop(low, range) {
      ShiftKeepsInv(low, range);
      NormEmitsAtMostThree(low % 0x100_0000 * 256, range * 256);
    } else if range < 0x1_0000 {
      CutKeepsInv(low, range);
      NormEmitsAtMostThree(low % 0x100_0000 * 256, Cut(low) * 256);
    }
  }

  /** Coding a symbol replaces the interval by the symbol's own part of it. */
  lemma NarrowKeepsInv(low: nat, range: nat, s: Sym)
    requires Ready(low, range) && s.Valid()
    ensures var r := range / s.total;
            && 0 < r
            && r * s.total <= range
            && 0 <= r * s.cum
            && 0 < r * s.freq
            && r * s.cum + r * s.freq <= r * s.total
            && Inv(low + r * s.cum, r * s.freq)
            && (low + r * s.cum) % 0x1_0000_0000 == low + r * s.cum
            && r * s.freq % 0x1_0000_0000 == r * s.freq
  {
    var r := range / s.total;
    ShareBounds(range, s);
    PartKeepsInv(low, range, r * s.cum, r * s.freq);
  }

  lemma ShareBounds(range: nat, s: Sym)
    requires s.Valid() && range >= s.total
    ensures var r := range / s.total;
            0 < r && r * s.total <= range && 0 <= r * s.cum && 0 < r * s.freq && r * s.cum + r * s.freq <= r * s.total
  {
    var r := range / s.total;
    PositiveShare(range, s.total);
    assert r * s.cum + r * s.freq == r * (s.cum + s.freq);
    MulMonotone(s.cum + s.freq, s.total, r);
    MulMonotone(1, s.freq, r);
    MulMonotone(0, s.cum, r);
  }

  lemma PositiveShare(range: nat, total: nat)
    requires 0 < total <= range
    ensures 0 < range / total && range / total * total <= range
  {
    var r := range / total;
    assert r * total <= range < r * total + total;
    if r <= 0 {
      MulMonotone(r, 0, total);
    }
  }

  lemma PartKeepsInv(low: nat, range: nat, cum: nat, freq: nat)
    requires Ready(low, range) && 0 < freq && cum + freq <= range
    ensures Inv(low + cum, freq) && (low + cum) % 0x1_0000_0000 == low + cum && freq % 0x1_0000_0000 == freq
  {
  }

  function Step(low: nat, range: nat, s: Sym): (n: Run)
    requires Ready(low, range) && s.Valid()
    ensures Ready(n.low, n.range)
  {
    NarrowKeepsInv(low, range, s);
    var r := range / s.total;
    Norm(low + r * s.cum, r * s.freq)
  }

  function Bytes4(x: nat): (b: seq<byte>)
    requires x < 0x1_0000_0000
    ensures |b| == 4 && Val4(b) == x && b[0] == x / 0x100_0000
  {
    [x / 256 / 256 / 256, x / 256 / 256 % 256, x / 256 % 256, x % 256]
  }

  /** The 32-bit window at the front of a byte string. */
  function Val4(b: seq<byte>): (x: nat)
    requires |b| >= 4
    ensures x < 0x1_0000_0000
  {
    var b0: int, b1: int, b2: int, b3: int := b[0], b[1], b[2], b[3];
    ((b0 * 256 + b1) * 256 + b2) * 256 + b3
  }

  /** Shifting a byte into a 32-bit word moves its window by one byte. */
  lemma ShiftWindow(x: nat, c: byte)
    requires x < 0x1_0000_0000
    ensures Shl8(x) + c < 0x1_0000_0000
    ensures Bytes4(Shl8(x) + c) == Bytes4(x)[1..] + [c]
  {
    ShiftedBytes(x, c);
  }

  lemma ShiftedBytes(x: nat, c: nat)
    requires x < 0x1_0000_0000 && c < 256
    ensures var y := x * 256 % 0x1_0000_0000 + c;
            && y < 0x1_0000_0000 && y % 256 == c && y / 256 == x % 0x100_0000
            && y / 256 % 256 == x % 256 && y / 256 / 256 % 256 == x / 256 % 256
            && y / 256 / 256 / 256 == x / 256 / 256 % 256
  {
    ShiftedValue(x);
    LowThree(x);
    ByteAppended(x % 0x100_0000, c);
  }

  lemma ShiftedValue(x: nat)
    ensures x * 256 % 0x1_0000_0000 == x % 0x100_0000 * 256
  {
  }

  lemma ByteAppended(m: nat, c: nat)
    requires c < 256
    ensures (m * 256 + c) / 256 == m && (m * 256 + c) % 256 == c
  {
  }

  lemma LowThree(x: nat)
    ensures var m := x % 0x100_0000;
            m % 256 == x % 256 && m / 256 % 256 == x / 256 % 256 && m / 256 / 256 == x / 256 / 256 % 256
  {
  }

  /** Reading one byte moves the decoder's window one byte along the emission. */
  lemma AdvanceWindow(code: nat, unread: seq<byte>, b: byte, tail: seq<byte>)
    requires code < 0x1_0000_0000 && |tail| >= 4
    requires Bytes4(code) + unread == [b] + tail
    ensures unread != []
    ensures Shl8(code) + unread[0] < 0x1_0000_0000
    ensures Bytes4(Shl8(code) + unread[0]) + unread[1..] == tail
  {
    hide Shl8;
    assert |Bytes4(code) + unread| == 4 + |unread| == 1 + |tail|;
    ShiftWindow(code, unread[0]);
    assert tail == (Bytes4(code) + unread)[1..];
    assert unread == [unread[0]] + unread[1..];
  }

  /** Everything still to be written for `syms`. */
  function Emit(low: nat, range: nat, syms: seq<Sym>): (b: seq<byte>)
    requires Ready(low, range) && AllValid(syms)
    ensures |b| >= 4
    decreases |syms|
  {
    if syms == [] then Bytes4(low)
    else
      var n := Step(low, range, syms[0]);
      n.bytes + Emit(n.low, n.range, syms[1..])
  }

  /** The coder's progress after `syms`, from its initial state. */
  function After(syms: seq<Sym>): (n: Run)
    requires AllValid(syms)
    ensures Ready(n.low, n.range)
    decreases |syms|
  {
    if syms == [] then Run([], 0, 0xFFFF_FFFF)
    else
      var last := |syms| - 1;
      var n := After(syms[..last]);
      var m := Step(n.low, n.range, syms[last]);
      m.(bytes := n.bytes + m.bytes)
  }

  lemma AfterOneMore(syms: seq<Sym>, s: Sym)
    requires AllValid(syms) && s.Valid()
    ensures AllValid(syms + [s])
    ensures var n := After(syms);
            var m := Step(n.low, n.range, s);
            After(syms + [s]) == m.(bytes := n.bytes + m.bytes)
  {
    assert (syms + [s])[..|syms|] == syms;
  }

  /** More symbols never take fewer bytes. */
  lemma {:induction false} AfterPrefix(some: seq<Sym>, all: seq<Sym>)
    requires AllValid(all) && some <= all
    ensures AllValid(some) && |After(some).bytes| <= |After(all).bytes|
    decreases |all|
  {
    if |some| < |all| {
      var last := |all| - 1;
      AfterPrefix(some, all[..last]);
      AfterOneMore(all[..last], all[last]);
      assert all[..last] + [all[last]] == all;
    } else {
      assert some == all;
    }
  }

  /** What a coder has written plus what it will write is the same string at every point of a run. */
  lemma {:induction false} AfterThenEmit(done: seq<Sym>, todo: seq<Sym>)
    requires AllValid(done) && AllValid(todo)
    ensures AllValid(done + todo)
    ensures Emit(0, 0xFFFF_FFFF, done + todo)
            == After(done).bytes + Emit(After(done).low, After(done).range, todo)
    decreases |done|
  {
    if done == [] {
      assert done + todo == todo;
    } else {
      var last := |done| - 1;
      var head, s := done[..last], done[last];
      assert done + todo == head + ([s] + todo);
      AfterThenEmit(head, [s] + todo);
      var n := After(head);
      assert ([s] + todo)[1..] == todo;
      var m := Step(n.low, n.range, s);
      assert Emit(n.low, n.range, [s] + todo) == m.bytes + Emit(m.low, m.range, todo);
    }
  }

  /** A window that lies inside the interval after a shift lay inside it before the shift. */
  lemma WindowBeforeShift(low: nat, width: nat, rest: seq<byte>)
    requires low < 0x1_0000_0000 && |rest| >= 4
    requires low % 0x100_0000 * 256 <= Val4(rest) < low % 0x100_0000 * 256 + width * 256
    ensures low <= Val4([Shr24(low)] + rest) < low + width
  {
    var b := [Shr24(low)] + rest;
    assert b[0] == Shr24(low) && b[1] == rest[0] && b[2] == rest[1] && b[3] == rest[2];
    assert Val4(b) == low / 0x100_0000 * 0x100_0000 + Val4(rest) / 256;
  }

  /** The shifts of a turn lose no part of the interval. */
  lemma TurnIsExact(low: nat, range: nat)
    requires Inv(low, range) && (SameTop(low, range) || range < 0x1_0000)
    ensures var width := if SameTop(low, range) then range else NegLow16(low);
            Shl8(low) == low % 0x100_0000 * 256 && Shl8(width) == width * 256
  {
    hide SameTop, Cut;
    ShiftDropsTop(low);
    if SameTop(low, range) {
      ShiftKeepsInv(low, range);
    } else {
      CutKeepsInv(low, range);
      NegationCuts(low);
    }
  }

  lemma {:induction false} WindowBeforeNorm(low: nat, range: nat, rest: seq<byte>)
    requires Inv(low, range) && |rest| >= 4
    requires Norm(low, range).low <= Val4(rest) < Norm(low, range).low + Norm(low, range).range
    ensures low <= Val4(Norm(low, range).bytes + rest) < low + range
    decreases |Norm(low, range).bytes|
  {
    hide Norm, SameTop, NegLow16, Shl8, Shr24, Val4;
    if SameTop(low, range) || range < 0x1_0000 {
      NormTurn(low, range);
      TurnIsExact(low, range);
      var width := if SameTop(low, range) then range else NegLow16(low);
      var n := Norm(Shl8(low), Shl8(width));
      WindowBeforeNorm(Shl8(low), Shl8(width), rest);
      WindowBeforeShift(low, width, n.bytes + rest);
      assert Norm(low, range).bytes + rest == [Shr24(low)] + (n.bytes + rest);
    } else {
      NormDone(low, range);
      assert Norm(low, range).bytes + rest == rest;
    }
  }

  /** The first four bytes of any emission lie in the interval it was emitted from. */
  lemma {:induction false} EmitStaysInside(low: nat, range: nat, syms: seq<Sym>)
    requires Ready(low, range) && AllValid(syms)
    ensures low <= Val4(Emit(low, range, syms)) < low + range
    ensures syms != [] ==>
              var r := range / syms[0].total;
              low + r * syms[0].cum <= Val4(Emit(low, range, syms)) < low + r * syms[0].cum + r * syms[0].freq
    decreases |syms|
  {
    if syms != [] {
      var s := syms[0];
      var r := range / s.total;
      NarrowKeepsInv(low, range, s);
      var n := Step(low, range, s);
      EmitStaysInside(n.low, n.range, syms[1..]);
      WindowBeforeNorm(low + r * s.cum, r * s.freq, Emit(n.low, n.range, syms[1..]));
    }
  }

  /** The count the decoder computes falls into the coded symbol's own range. */
  lemma CountFindsSymbol(low: nat, range: nat, syms: seq<Sym>)
    requires Ready(low, range) && AllValid(syms) && syms != []
    ensures var r := range / syms[0].total;
            && 0 < r
            && low <= Val4(Emit(low, range, syms))
            && syms[0].cum <= (Val4(Emit(low, range, syms)) - low) / r < syms[0].cum + syms[0].freq
  {
    hide Emit, Norm, Val4;
    var s := syms[0];
    var r := range / s.total;
    NarrowKeepsInv(low, range, s);
    EmitStaysInside(low, range, syms);
    QuotientInside(Val4(Emit(low, range, syms)) - low, r, s.cum, s.freq);
  }

  /** The decoder's count: `(code - low) / range` on 32-bit words. */
  function Count(code: nat, low: nat, range: nat): nat
    requires low < 0x1_0000_0000 && 0 < range
  {
    (code + 0x1_0000_0000 - low) % 0x1_0000_0000 / range
  }

  lemma WindowFindsSymbol(low: nat, range: nat, code: nat, unread: seq<byte>, syms: seq<Sym>)
    requires Ready(low, range) && AllValid(syms) && syms != [] && code < 0x1_0000_0000
    requires Bytes4(code) + unread == Emit(low, range, syms)
    ensures range / syms[0].total > 0
    ensures syms[0].cum <= Count(code, low, range / syms[0].total) < syms[0].cum + syms[0].freq <= syms[0].total
  {
    hide Emit, Norm, Val4, Bytes4, Count;
    CountFindsSymbol(low, range, syms);
    assert Emit(low, range, syms)[..4] == Bytes4(code);
    FirstFour(Emit(low, range, syms), code);
    CountIsQuotient(code, low, range / syms[0].total);
  }

  lemma CountIsQuotient(code: nat, low: nat, range: nat)
    requires low <= code < 0x1_0000_0000 && 0 < range
    ensures Count(code, low, range) == (code - low) / range
  {
    assert (code + 0x1_0000_0000 - low) % 0x1_0000_0000 == code - low;
  }

  lemma FirstFour(b: seq<byte>, x: nat)
    requires |b| >= 4 && x < 0x1_0000_0000 && b[..4] == Bytes4(x)
    ensures Val4(b) == x
  {
    assert Val4(b) == Val4(b[..4]);
  }

  lemma PositiveQuotient(range: nat, total: nat)
    requires 0 < total <= range
    ensures 0 < range / total <= range
  {
    QuotientInside(range, total, 1, range);
  }

  lemma QuotientInside(d: nat, r: nat, a: nat, n: nat)
    requires 0 < r && r * a <= d < r * a + r * n
    ensures a <= d / r < a + n
  {
    var q := d / r;
    assert q * r <= d < q * r + r;
    if q < a {
      MulMonotone(q + 1, a, r);
    }
    if q >= a + n {
      MulMonotone(a + n, q, r);
    }
  }

  lemma OneMoreCode(done: seq<Sym>, was: seq<Sym>, codes: seq<Sym>, i: nat)
    requires i < |codes| && done == was + codes[..i]
    ensures done + [codes[i]] == was + codes[..i + 1]
  {
  }
}
