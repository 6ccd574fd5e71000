/** The 16-bit arithmetic coder: it sends settled bits to a bit stream and keeps count of the bits that
    are still pending; the decoder follows it through a 16-bit window. */
module ArithCoders {
  import opened Arith
  import opened Outcomes
  import opened ArithCoding
  import opened BitStreams

  class ArithCoder {
    var low: nat
    var high: nat
    var code: nat
    var range: nat
    var underflow: nat
    var added: nat

    constructor ()
      ensures low == high == code == range == underflow == added == 0
    {
      low, high, code, range, underflow, added := 0, 0, 0, 0, 0, 0;
    }

    method InitCompress()
      modifies this
      ensures low == 0 && high == 0xFFFF && underflow == 0
    {
      low, high, underflow := 0, 0xFFFF, 0;
    }

    /** What the destination will hold once the parts to come are sent and the code is closed. */
    ghost function Promise(dest: BitStream, todo: seq<Part>): seq<bool>
      requires Normal(low, high) && AllValid(todo) && dest.pos <= 8 * dest.buf.Length
      reads this`low, this`high, this`underflow, dest, dest.buf
    {
      dest.Before() + Pending(underflow, Emit(low, high, todo))
    }

    /** New bounds in 16-bit arithmetic. An empty part gives high < low, unless low wraps to 0: then the
        full interval comes out and the symbol goes unnoticed. */
    method Narrow(s_low: nat, s_high: nat, total: nat)
      requires Normal(low, high) && s_low <= s_high <= total <= MAX_TOTAL && 0 < total
      modifies this`low, this`high, this`range
      ensures s_low < s_high ==>
                low == NewLow(old(low), old(high), Part(s_low, s_high, total)) <= high
                && high == NewHigh(old(low), old(high), Part(s_low, s_high, total)) <= old(high)
      ensures s_low == s_high && (old(low) + Scaled(old(high) - old(low) + 1, s_low, total)) % 0x1_0000 != 0 ==>
                high < low
      ensures s_low == s_high && (old(low) + Scaled(old(high) - old(low) + 1, s_low, total)) % 0x1_0000 == 0 ==>
                low == 0 && high == 0xFFFF
    {
      hide Scaled;
      range := high - low + 1;
      ghost var h0 := high;
      var from: int, to: int := Scaled(range, s_low, total), Scaled(range, s_high, total);
      ScaledBelow(range, s_low, total);
      ScaledBelow(range, s_high, total);
      if s_low < s_high {
        ScaledGrows(range, s_low, s_high, total);
      }
      high := (low + (to - 1) % 0x1_0000) % 0x1_0000;
      low := (low + from % 0x1_0000) % 0x1_0000;
    }

    /** Sends a settled bit and the pending ones after it. */
    method Settle(dest: BitStream, bit: bool, ghost rest: seq<bool>) returns (r: Outcome)
      requires dest.Valid() && dest.pos <= 8 * dest.buf.Length && rest != []
      modifies this`underflow, dest`pos, dest`clrlen, dest.buf
      ensures dest.Valid() && dest.pos <= 8 * dest.buf.Length
      ensures r.Pass? ==>
                underflow == 0 && dest.Before() + rest == old(dest.Before() + Pending(underflow, [bit] + rest))
      ensures r.Fail? ==> r == Fail(ERR_BUF) && dest.len < |old(dest.Before() + Pending(underflow, [bit] + rest))|
    {
      hide AllClear, SameFrom, BitOf;
      ghost var before, u := dest.Before(), underflow;
      PendingSettles(u, bit, rest);
      :- dest.PutBit(bit);
      while underflow > 0
        invariant dest.Valid() && dest.pos <= 8 * dest.buf.Length && underflow <= u
        invariant dest.Before() == before + [bit] + Repeat(u - underflow, !bit)
      {
        :- dest.PutBit(!bit);
        underflow := underflow - 1;
      }
      return Pass;
    }

    /** One turn of the normalisation loop: the bits sent and still pending, before what follows, stay the
        same. */
    method TakeTurn(dest: BitStream, ghost tail: seq<bool>) returns (r: Outcome)
      requires dest.Valid() && dest.pos <= 8 * dest.buf.Length && |tail| >= 2
      requires Word(low, high) && (SameTop(low, high) || Underflow(low, high))
      modifies this`low, this`high, this`underflow, dest`pos, dest`clrlen, dest.buf
      ensures dest.Valid() && dest.pos <= 8 * dest.buf.Length
      ensures r.Pass? ==> Word(low, high) && high - low > old(high - low)
                          && Norm(low, high).low == old(Norm(low, high).low)
                          && Norm(low, high).high == old(Norm(low, high).high)
                          && dest.Before() + Pending(underflow, Expand(Norm(low, high).turns, tail))
                             == old(dest.Before() + Pending(underflow, Expand(Norm(low, high).turns, tail)))
      ensures r.Fail? ==> r == Fail(ERR_BUF)
                          && dest.len < |old(dest.Before() + Pending(underflow, Expand(Norm(low, high).turns, tail)))|
    {
      hide AllClear, SameFrom, BitOf, Norm, Expand, Pending, Turned, BitsOf;
      NormTurns(low, high, tail, underflow);
      if SameTop(low, high) {
        :- Settle(dest, high >= 0x8000, Expand(Norm(Turned(low, high).low, Turned(low, high).high).turns, tail));
      } else {
        underflow := underflow + 1;
        low, high := low % 0x4000, high + 0x4000;
      }
      low, high := low * 2 % 0x1_0000, high * 2 % 0x1_0000 + 1;
      return Pass;
    }

    method Normalise(dest: BitStream, ghost tail: seq<bool>) returns (r: Outcome)
      requires dest.Valid() && dest.pos <= 8 * dest.buf.Length && Word(low, high) && |tail| >= 2
      modifies this`low, this`high, this`underflow, dest`pos, dest`clrlen, dest.buf
      ensures dest.Valid() && dest.pos <= 8 * dest.buf.Length
      ensures r.Pass? ==> low == old(Norm(low, high).low) && high == old(Norm(low, high).high)
                          && dest.Before() + Pending(underflow, tail)
                             == old(dest.Before() + Pending(underflow, Expand(Norm(low, high).turns, tail)))
      ensures r.Fail? ==> r == Fail(ERR_BUF)
                          && dest.len < |old(dest.Before() + Pending(underflow, Expand(Norm(low, high).turns, tail)))|
      ensures old(Normal(low, high)) ==>
                r.Pass? && dest.pos == old(dest.pos) && dest.Before() == old(dest.Before())
                  && underflow == old(underflow)
    {
      hide AllClear, SameFrom, BitOf, Norm, Expand, Pending, Turned, BitsOf;
      ghost var goal, last := dest.Before() + Pending(underflow, Expand(Norm(low, high).turns, tail)), Norm(low, high);
      while SameTop(low, high) || Underflow(low, high)
        invariant dest.Valid() && dest.pos <= 8 * dest.buf.Length && Word(low, high)
        invariant old(Normal(low, high)) ==>
                    low == old(low) && high == old(high)
                    && dest.pos == old(dest.pos) && dest.Before() == old(dest.Before()) && underflow == old(underflow)
        invariant Norm(low, high).low == last.low && Norm(low, high).high == last.high
        invariant dest.Before() + Pending(underflow, Expand(Norm(low, high).turns, tail)) == goal
        decreases 0x1_0000 - (high - low)
      {
        :- TakeTurn(dest, tail);
      }
      NormDone(low, high, tail);
      return Pass;
    }

    /** Sending a part keeps the promise. A part of count zero is refused unless it goes unnoticed. */
    method ScaleRange(dest: BitStream, s_low: nat, s_high: nat, total: nat, ghost todo: seq<Part>) returns (r: Outcome)
      requires dest.Valid() && dest.pos <= 8 * dest.buf.Length && Normal(low, high) && AllValid(todo)
      requires s_low <= s_high <= total <= MAX_TOTAL && 0 < total
      modifies this`low, this`high, this`range, this`underflow, dest`pos, dest`clrlen, dest.buf
      ensures dest.Valid() && dest.pos <= 8 * dest.buf.Length
      ensures r.Pass? ==> Normal(low, high)
      ensures s_low < s_high && r.Pass? ==>
                Promise(dest, todo) == old(Promise(dest, [Part(s_low, s_high, total)] + todo))
      ensures s_low < s_high && r.Fail? ==>
                r == Fail(ERR_BUF) && dest.len < |old(Promise(dest, [Part(s_low, s_high, total)] + todo))|
      ensures s_low == s_high ==>
                r == (if old(low + Scaled(high - low + 1, s_low, total)) % 0x1_0000 != 0 then Fail(ERR_SUM) else Pass)
                && dest.pos == old(dest.pos) && dest.Before() == old(dest.Before()) && underflow == old(underflow)
                && (r.Pass? ==> low == 0 && high == 0xFFFF)
    {
      hide AllClear, SameFrom, BitOf, Norm, Expand, Emit, Pending, Scaled, BitsOf;
      ghost var low0, high0, part := low, high, Part(s_low, s_high, total);
      Narrow(s_low, s_high, total);
      if high < low {
        return Fail(ERR_SUM);
      }
      NarrowedEmit(low0, high0, s_low, s_high, total, low, high, todo);
      r := Normalise(dest, EmitAfter(low, high, todo));
    }

    method EndCompress(dest: BitStream) returns (r: Outcome)
      requires dest.Valid() && dest.pos <= 8 * dest.buf.Length && Normal(low, high)
      modifies this`underflow, dest`pos, dest`clrlen, dest.buf
      ensures dest.Valid() && dest.pos <= 8 * dest.buf.Length
      ensures r.Pass? ==> dest.pos <= dest.len && dest.Before() == old(Promise(dest, []))
      ensures r.Fail? ==> r == Fail(ERR_BUF) && dest.len < |old(Promise(dest, []))|
    {
      hide AllClear, SameFrom, BitOf, BitsOf;
      ghost var before, u := dest.Before(), underflow;
      var bit := low / 0x4000 % 2 == 1;
      EndsWith(low, high, u);
      :- dest.PutBit(bit);
      underflow := underflow + 1;
      while underflow > 0
        invariant dest.Valid() && dest.pos <= 8 * dest.buf.Length && underflow <= u + 1 && dest.pos <= dest.len
        invariant dest.Before() == before + [bit] + Repeat(u + 1 - underflow, !bit)
      {
        :- dest.PutBit(!bit);
        underflow := underflow - 1;
      }
      return Pass;
    }

    /** For every bit string and table with a positive count for each bit that occurs, the code is written
        if and only if it fits. */
    method CompressBits(dest: BitStream, src: BitStream, sum: seq<nat>, total: nat) returns (r: Outcome)
      requires dest != src && dest.buf != src.buf
      requires dest.Valid() && dest.pos <= 8 * dest.buf.Length && src.pos <= src.len <= 8 * src.buf.Length
      requires |sum| == 3 && sum[0] <= sum[1] <= sum[2] <= total <= MAX_TOTAL
      modifies this, dest`pos, dest`clrlen, dest.buf, src`pos
      ensures dest.Valid() && dest.pos <= 8 * dest.buf.Length
      ensures total == 0 ==> r == Fail(ERR_PAR)
      ensures total > 0 && AllValid(old(Parts(src.Ahead(), sum, total))) ==>
                r == (if old(|dest.Before()| + |BitCode(src.Ahead(), sum, total)|) <= dest.len then Pass
                  else Fail(ERR_BUF))
                && (r.Pass? ==> dest.Before() == old(dest.Before() + BitCode(src.Ahead(), sum, total)))
    {
      hide AllClear, SameFrom, BitOf, BitsOf, Emit, Pending, Scaled, Parts;
      if total <= 0 {
        return Fail(ERR_PAR);
      }
      InitCompress();
      ghost var counted, goal := AllValid(Parts(src.Ahead(), sum, total)), [];
      if counted {
        NonePending(Emit(0, 0xFFFF, Parts(src.Ahead(), sum, total)));
        goal := Promise(dest, Parts(src.Ahead(), sum, total));
      }
      var bit := false;
      while src.pos < src.len
        invariant dest.Valid() && dest.pos <= 8 * dest.buf.Length && src.pos <= src.len && Normal(low, high)
        invariant counted ==>
                    AllValid(Parts(src.Ahead(), sum, total)) && Promise(dest, Parts(src.Ahead(), sum, total)) == goal
        decreases src.len - src.pos
      {
        ghost var ahead := src.Ahead();
        r, bit := src.GetBit();
        PartsFirst(bit, src.Ahead(), sum, total);
        var c := if bit then 1 else 0;
        :- ScaleRange(dest, sum[c], sum[c + 1], total, if counted then Parts(src.Ahead(), sum, total) else []);
      }
      NoParts(sum, total);
      r := EndCompress(dest);
    }

    /** The window holds the front of the code to come, and never more padding than it has room for. */
    ghost predicate InSync(src: BitStream, todo: seq<Part>)
      reads this`low, this`high, this`code, this`added, src, src.buf
    {
      && Normal(low, high) && AllValid(todo) && src.pos <= src.len <= 8 * src.buf.Length
      && Matches(code, src.Ahead(), added, Emit(low, high, todo))
    }

    /** Shifts the next bit of the source into the window, or a padding 0 that is counted. */
    method ShiftIn(src: BitStream)
      requires code <= 0xFFFF && src.pos <= src.len <= 8 * src.buf.Length
      modifies this`code, this`added, src`pos
      ensures src.pos <= src.len
      ensures old(src.Ahead()) == [] ==>
                code == old(code) * 2 % 0x1_0000 && added == old(added) + 1 && src.Ahead() == []
      ensures old(src.Ahead()) != [] ==>
                code == old(code) * 2 % 0x1_0000 + (if old(src.Ahead()[0]) then 1 else 0) && added == old(added)
                && src.Ahead() == old(src.Ahead())[1..]
    {
      hide BitOf;
      code := code * 2 % 0x1_0000;
      if src.pos < src.len {
        var r, bit := src.GetBit();
        code := code + if bit then 1 else 0;
      } else {
        added := added + 1;
      }
    }

    method InitDecompress(src: BitStream, ghost todo: seq<Part>)
      requires src.pos <= src.len <= 8 * src.buf.Length
      modifies this, src`pos
      ensures low == 0 && high == 0xFFFF && code <= 0xFFFF && src.pos <= src.len
      ensures added == if |old(src.Ahead())| < 16 then 16 - |old(src.Ahead())| else 0
      ensures AllValid(todo) && Emit(0, 0xFFFF, todo) <= old(src.Ahead()) ==> InSync(src, todo)
    {
      hide BitOf, BitsOf, Emit, WordBits, Pow2;
      low, high, code, added := 0, 0xFFFF, 0, 0;
      ghost var all := src.Ahead();
      WordBitsNone();
      Pow2Values();
      for i := 0 to 16
        invariant low == 0 && high == 0xFFFF && code < Pow2(i) && src.pos <= src.len
        invariant WordBits(code, i) + src.Ahead() == all + Repeat(added, false)
        invariant src.Ahead() != [] ==> added == 0
      {
        ghost var code0, ahead0 := code, src.Ahead();
        OpenStep(WordBits(code, i), ahead0, all, added);
        Pow2Monotone(i + 1, 16);
        Pow2Double(i);
        ShiftIn(src);
        ShiftedIn(code0, ahead0 != [] && ahead0[0], i);
      }
    }

    /** The count falls in the part that was sent. */
    method GetCount(src: BitStream, total: nat, ghost todo: seq<Part>) returns (count: nat)
      requires InSync(src, todo) && todo != [] && todo[0].total == total
      modifies this`range
      ensures range == high - low + 1 && todo[0].low <= count < todo[0].high
    {
      hide BitOf, BitsOf, Emit, Matches, WordBits;
      WindowInside(low, high, todo, code, src.Ahead(), added);
      CountFindsPart(low, high, code, todo[0]);
      range := high - low + 1;
      count := CountOf(low, high, code, total);
    }

    /** The decoder takes the encoder's turns and stays in step; its padding never exceeds the window. */
    method RemoveSymbol(src: BitStream, s_low: nat, s_high: nat, total: nat, ghost todo: seq<Part>) returns (r: Outcome)
      requires InSync(src, [Part(s_low, s_high, total)] + todo) && range == high - low + 1
      modifies this`low, this`high, this`code, this`added, src`pos
      ensures r == Pass && InSync(src, todo) && added <= 16
    {
      hide BitOf, BitsOf, Emit, Matches, WordBits, Scaled, NewLow, NewHigh, Norm, Expand;
      ghost var part := Part(s_low, s_high, total);
      assert part == ([part] + todo)[0];
      assert part.Valid();
      assert forall i :: 0 <= i < |todo| ==> todo[i] == ([part] + todo)[i + 1];
      PartBounds(low, high, part);
      high, low := low + (Scaled(range, s_high, total) - 1), low + Scaled(range, s_low, total);
      NarrowedEmit(old(low), old(high), s_low, s_high, total, low, high, todo);
      r := Follow(src, todo);
    }

    method Follow(src: BitStream, ghost todo: seq<Part>) returns (r: Outcome)
      requires Word(low, high) && AllValid(todo) && src.pos <= src.len <= 8 * src.buf.Length
      requires Matches(code, src.Ahead(), added, Expand(Norm(low, high).turns, EmitAfter(low, high, todo)))
      modifies this`low, this`high, this`code, this`added, src`pos
      ensures r == Pass && InSync(src, todo) && added <= 16
    {
      hide BitOf, BitsOf, Emit, Matches, WordBits, Norm, Expand;
      ghost var tail := EmitAfter(low, high, todo);
      while true
        invariant Word(low, high) && src.pos <= src.len && EmitAfter(low, high, todo) == tail
        invariant Matches(code, src.Ahead(), added, Expand(Norm(low, high).turns, tail))
        decreases 0x1_0000 - (high - low)
      {
        MatchesBounds(code, src.Ahead(), added, Expand(Norm(low, high).turns, tail));
        if !SameTop(low, high) && !Underflow(low, high) {
          NormDone(low, high, tail);
          return Pass;
        }
        NextTurn(low, high, tail, code, src.Ahead(), added);
        if !SameTop(low, high) {
          code := FlipSecond(code);
          low, high := low % 0x4000, high + 0x4000;
        }
        low, high := low * 2 % 0x1_0000, high * 2 % 0x1_0000 + 1;
        ShiftIn(src);
        if added > 16 {
          return Fail(ERR_BUF);
        }
      }
    }

    /** Every bit string comes back, whatever follows its code in the source. */
    method DecompressBits(dest: BitStream, src: BitStream, sum: seq<nat>, total: nat, ghost bits: seq<bool>)
      returns (r: Outcome)
      requires dest != src && dest.buf != src.buf
      requires dest.Valid() && dest.pos <= dest.len && src.pos <= src.len <= 8 * src.buf.Length
      requires |sum| == 3 && sum[2] == total && |bits| == dest.len - dest.pos
      requires AllValid(Parts(bits, sum, total)) && BitCode(bits, sum, total) <= src.Ahead()
      modifies this, dest`pos, dest`clrlen, dest.buf, src`pos
      ensures r == Pass && dest.pos == dest.len && dest.Before() == old(dest.Before()) + bits
    {
      hide AllClear, SameFrom, BitOf, BitsOf, Emit, Matches, Parts, Normal;
      InitDecompress(src, Parts(bits, sum, total));
      ghost var k := 0;
      assert bits[0..] == bits;
      while dest.pos < dest.len
        invariant dest.Valid() && dest.pos <= dest.len && dest.pos == old(dest.pos) + k
        invariant InSync(src, Parts(bits[k..], sum, total))
        invariant dest.Before() == old(dest.Before()) + bits[..k]
        decreases dest.len - dest.pos
      {
        PartsAt(bits, k, sum, total);
        var count := GetCount(src, total, Parts(bits[k..], sum, total));
        r := dest.PutBit(sum[1] <= count);
        if r.Fail? {
          return;
        }
        if sum[1] <= count {
          r := RemoveSymbol(src, sum[1], total, total, Parts(bits[k + 1..], sum, total));
        } else {
          r := RemoveSymbol(src, sum[0], sum[1], total, Parts(bits[k + 1..], sum, total));
        }
        if r.Fail? {
          return;
        }
        k := k + 1;
      }
      r := Pass;
    }
  }

  /** A fresh coder takes a symbol of count zero for sent: the part from 0 to 0 of a total of 1 passes, and
      nothing tells it from no symbol at all. */
  method ZeroCountPasses(dest: BitStream) returns (r: Outcome, coder: ArithCoder)
    requires dest.Valid() && dest.pos <= 8 * dest.buf.Length
    modifies dest`pos, dest`clrlen, dest.buf
    ensures r == Pass && dest.pos == old(dest.pos) && dest.Before() == old(dest.Before())
    ensures coder.low == 0 && coder.high == 0xFFFF && coder.underflow == 0
  {
    hide AllClear, SameFrom, BitOf, BitsOf;
    coder := new ArithCoder();
    coder.InitCompress();
    NothingOfNothing();
    r := coder.ScaleRange(dest, 0, 0, 1, []);
  }

  lemma NothingOfNothing()
    ensures Scaled(0x1_0000, 0, 1) == 0
  {
  }

  lemma PartsAt(bits: seq<bool>, k: nat, sum: seq<nat>, total: nat)
    requires |sum| == 3 && k < |bits|
    ensures var c := if bits[k] then 1 else 0;
            Parts(bits[k..], sum, total) == [Part(sum[c], sum[c + 1], total)] + Parts(bits[k + 1..], sum, total)
    ensures bits[..k + 1] == bits[..k] + [bits[k]]
  {
    assert bits[k..][1..] == bits[k + 1..];
  }

  lemma WordBitsNone()
    ensures WordBits(0, 0) == [] && Repeat(0, false) == [] && Pow2(0) == 1
  {
  }

  lemma PartBounds(low: nat, high: nat, p: Part)
    requires Normal(low, high) && p.Valid()
    ensures Scaled(high - low + 1, p.high, p.total) >= 1
    ensures NewLow(low, high, p) == low + Scaled(high - low + 1, p.low, p.total)
    ensures NewHigh(low, high, p) == low + Scaled(high - low + 1, p.high, p.total) - 1
    ensures NewLow(low, high, p) <= NewHigh(low, high, p) <= high
  {
    NarrowKeepsWord(low, high, p);
  }

  /** The window and the bits ahead of it begin with e, and padding is only counted once the source is empty. */
  ghost predicate Matches(code: nat, ahead: seq<bool>, added: nat, e: seq<bool>) {
    && code <= 0xFFFF && |e| >= 2 && e <= WordBits(code, 16) + ahead
    && (ahead == [] ==> added + |e| <= 16)
    && (ahead != [] ==> added == 0)
  }

  lemma MatchesBounds(code: nat, ahead: seq<bool>, added: nat, e: seq<bool>)
    requires Matches(code, ahead, added, e)
    ensures code <= 0xFFFF && added <= 14 && |e| >= 2
  {
  }

  lemma WindowInside(low: nat, high: nat, todo: seq<Part>, code: nat, ahead: seq<bool>, added: nat)
    requires Normal(low, high) && AllValid(todo) && todo != [] && Matches(code, ahead, added, Emit(low, high, todo))
    ensures NewLow(low, high, todo[0]) <= code <= NewHigh(low, high, todo[0])
  {
    hide Emit, NewLow, NewHigh, Val, WordBits, Pow2, Repeat;
    var e, zeros := Emit(low, high, todo), Repeat(16, false);
    Pow2Values();
    WordBitsValue(code, 16, ahead + zeros);
    var trail := Trail(e, WordBits(code, 16), ahead, zeros);
    EmitStaysInside(low, high, todo, trail);
  }

  lemma Trail(e: seq<bool>, w: seq<bool>, ahead: seq<bool>, zeros: seq<bool>) returns (trail: seq<bool>)
    requires e <= w + ahead
    ensures |trail| >= |zeros| && e + trail == w + (ahead + zeros)
  {
    trail := (w + ahead)[|e|..] + zeros;
  }

  /** The window after one turn: the flip turns a postponed pair into its first bit, the shift drops the
      bit in front. */
  lemma NextWindow(code: nat, ahead: seq<bool>, added: nat, t: Turn, rest: seq<bool>)
    requires |rest| >= 2 && Matches(code, ahead, added, Prepend(t, rest))
    ensures var code1 := if t.Postpone? then FlipSecond(code) else code;
            if ahead == [] then Matches(code1 * 2 % 0x1_0000, [], added + 1, rest)
            else Matches(code1 * 2 % 0x1_0000 + (if ahead[0] then 1 else 0), ahead[1..], added, rest)
  {
    hide WordBits;
    var code1 := if t.Postpone? then FlipSecond(code) else code;
    var w, w1 := WordBits(code, 16), WordBits(code1, 16);
    if t.Postpone? {
      assert w[0] == (w + ahead)[0] && w[1] == (w + ahead)[1];
      Flipped(code);
      DropPair(rest, w, w1, ahead);
    } else {
      DropOne(t.bit, rest, w, ahead);
    }
    Shifted(code1, ahead != [] && ahead[0]);
    Regroup(rest, w1[1..], ahead);
  }

  lemma DropOne(bit: bool, rest: seq<bool>, w: seq<bool>, ahead: seq<bool>)
    requires w != [] && [bit] + rest <= w + ahead
    ensures rest <= w[1..] + ahead
  {
    PrefixDrop([bit] + rest, w + ahead, 1);
    assert ([bit] + rest)[1..] == rest;
    assert (w + ahead)[1..] == w[1..] + ahead;
  }

  lemma DropPair(rest: seq<bool>, w: seq<bool>, w1: seq<bool>, ahead: seq<bool>)
    requires rest != [] && |w| >= 2 && |w1| >= 1
    requires [rest[0], !rest[0]] + rest[1..] <= w + ahead && w1[1..] == [w[0]] + w[2..]
    ensures rest <= w1[1..] + ahead
  {
    var e := [rest[0], !rest[0]] + rest[1..];
    PrefixDrop(e, w + ahead, 2);
    assert e[2..] == rest[1..];
    assert (w + ahead)[2..] == w[2..] + ahead;
    assert w[0] == (w + ahead)[0] == e[0];
    assert w1[1..] + ahead == [rest[0]] + (w[2..] + ahead);
    assert rest == [rest[0]] + rest[1..];
  }

  lemma PrefixDrop(e: seq<bool>, s: seq<bool>, k: nat)
    requires e <= s && k <= |e|
    ensures e[k..] <= s[k..]
  {
  }

  lemma Regroup(rest: seq<bool>, w: seq<bool>, ahead: seq<bool>)
    requires rest <= w + ahead
    ensures ahead == [] ==> rest <= w + [false] + []
    ensures ahead != [] ==> rest <= w + [ahead[0]] + ahead[1..]
  {
    if ahead == [] {
      assert w + ahead == w;
    } else {
      assert w + ahead == w + [ahead[0]] + ahead[1..];
    }
  }

  /** One more bit of the source, or of padding, in the opening window. */
  lemma OpenStep(w: seq<bool>, ahead: seq<bool>, all: seq<bool>, added: nat)
    requires w + ahead == all + Repeat(added, false)
    requires ahead != [] ==> added == 0
    ensures ahead == [] ==> w + [false] + [] == all + Repeat(added + 1, false)
    ensures ahead != [] ==> w + [ahead[0]] + ahead[1..] == all + Repeat(added, false)
  {
    if ahead == [] {
      assert w + ahead == w;
      assert Repeat(added + 1, false) == Repeat(added, false) + [false];
    } else {
      assert w + ahead == w + [ahead[0]] + ahead[1..];
    }
  }

  lemma NextTurn(low: nat, high: nat, tail: seq<bool>, code: nat, ahead: seq<bool>, added: nat)
    requires Word(low, high) && (SameTop(low, high) || Underflow(low, high)) && |tail| >= 2
    requires Matches(code, ahead, added, Expand(Norm(low, high).turns, tail))
    ensures var t := Turned(low, high);
            var n := Norm(t.low, t.high);
            var code1 := if SameTop(low, high) then code else FlipSecond(code);
            && Norm(low, high).low == n.low && Norm(low, high).high == n.high && t.high - t.low > high - low
            && t.low == (if SameTop(low, high) then low else low % 0x4000) * 2 % 0x1_0000
            && t.high == (if SameTop(low, high) then high else high + 0x4000) * 2 % 0x1_0000 + 1
            && if ahead == [] then Matches(code1 * 2 % 0x1_0000, [], added + 1, Expand(n.turns, tail))
               else Matches(code1 * 2 % 0x1_0000 + (if ahead[0] then 1 else 0), ahead[1..], added,
                 Expand(n.turns, tail))
  {
    hide Norm, Turned, Expand, Matches, WordBits;
    var t := Turned(low, high);
    var n := Norm(t.low, t.high);
    TurnedWords(low, high);
    NormStep(low, high);
    ExpandFirst(t.turns[0], n.turns, tail);
    assert t.turns + n.turns == [t.turns[0]] + n.turns;
    NextWindow(code, ahead, added, t.turns[0], Expand(n.turns, tail));
  }

  /** The parts of a table that the bits of a string select. */
  function Parts(bits: seq<bool>, sum: seq<nat>, total: nat): (p: seq<Part>)
    requires |sum| == 3
    ensures |p| == |bits|
  {
    if bits == [] then []
    else
      var c := if bits[0] then 1 else 0;
      [Part(sum[c], sum[c + 1], total)] + Parts(bits[1..], sum, total)
  }

  ghost function BitCode(bits: seq<bool>, sum: seq<nat>, total: nat): seq<bool>
    requires |sum| == 3 && AllValid(Parts(bits, sum, total))
  {
    Emit(0, 0xFFFF, Parts(bits, sum, total))
  }

  lemma NoParts(sum: seq<nat>, total: nat)
    requires |sum| == 3
    ensures Parts([], sum, total) == []
  {
  }

  lemma PartsFirst(bit: bool, rest: seq<bool>, sum: seq<nat>, total: nat)
    requires |sum| == 3
    ensures var c := if bit then 1 else 0;
            Parts([bit] + rest, sum, total) == [Part(sum[c], sum[c + 1], total)] + Parts(rest, sum, total)
    ensures AllValid(Parts([bit] + rest, sum, total)) ==>
              AllValid(Parts(rest, sum, total)) && Parts([bit] + rest, sum, total)[0].Valid()
  {
    assert ([bit] + rest)[1..] == rest;
    var p := Parts([bit] + rest, sum, total);
    forall i | 0 <= i < |rest| ensures Parts(rest, sum, total)[i] == p[i + 1] {
    }
  }

  /** The bits after a narrowed interval is normalised. */
  ghost function EmitAfter(low: nat, high: nat, todo: seq<Part>): (b: seq<bool>)
    requires Word(low, high) && AllValid(todo)
    ensures |b| >= 2
  {
    var n := Norm(low, high);
    Emit(n.low, n.high, todo)
  }

  lemma NarrowedEmit(low: nat, high: nat, s_low: nat, s_high: nat, total: nat, low1: nat, high1: nat, todo: seq<Part>)
    requires Normal(low, high) && s_low <= s_high <= total <= MAX_TOTAL && 0 < total && AllValid(todo)
    requires low1 <= high1 && high1 <= 0xFFFF
    requires s_low < s_high ==>
               low1 == NewLow(low, high, Part(s_low, s_high, total))
                 && high1 == NewHigh(low, high, Part(s_low, s_high, total))
    requires s_low == s_high ==> low1 == 0 && high1 == 0xFFFF
    ensures s_low < s_high ==>
              Emit(low, high, [Part(s_low, s_high, total)] + todo)
                == Expand(Norm(low1, high1).turns, EmitAfter(low1, high1, todo))
    ensures s_low == s_high ==>
              Norm(low1, high1) == Run([], low1, high1)
                && Expand(Norm(low1, high1).turns, EmitAfter(low1, high1, todo)) == EmitAfter(low1, high1, todo)
  {
    hide Expand, Scaled, NewLow, NewHigh;
    if s_low < s_high {
      assert ([Part(s_low, s_high, total)] + todo)[1..] == todo;
    } else {
      ExpandNone(EmitAfter(low1, high1, todo));
    }
  }

  lemma EndsWith(low: nat, high: nat, u: nat)
    requires Normal(low, high)
    ensures var bit := low / 0x4000 % 2 == 1;
            Pending(u, Emit(low, high, [])) == [bit] + Repeat(u + 1, !bit)
  {
    var bit := low / 0x4000 % 2 == 1;
    assert bit == (low >= 0x4000);
    assert Repeat(u + 1, !bit) == Repeat(u, !bit) + [!bit];
  }

  lemma ScaledBelow(range: nat, x: nat, total: nat)
    requires 0 < total && x <= total
    ensures Scaled(range, x, total) <= range
  {
    MulMonotone(x, total, range);
    QuotientBelow(range * x, range, total);
  }

  /** One turn of the loop on the bits to come. */
  lemma NormTurns(low: nat, high: nat, tail: seq<bool>, u: nat)
    requires Word(low, high) && (SameTop(low, high) || Underflow(low, high)) && |tail| >= 2
    ensures var t := Turned(low, high);
            var n, rest := Norm(t.low, t.high), Expand(Norm(t.low, t.high).turns, tail);
            && Norm(low, high).low == n.low && Norm(low, high).high == n.high
            && Pending(0, rest) == rest
            && t.high - t.low > high - low
            && (SameTop(low, high) ==>
                  && Expand(Norm(low, high).turns, tail) == [high >= 0x8000] + rest
                  && t.low == low * 2 % 0x1_0000 && t.high == high * 2 % 0x1_0000 + 1)
            && (!SameTop(low, high) ==>
                  && Pending(u, Expand(Norm(low, high).turns, tail)) == Pending(u + 1, rest)
                  && t.low == low % 0x4000 * 2 % 0x1_0000 && t.high == (high + 0x4000) * 2 % 0x1_0000 + 1)
  {
    hide Expand, Pending, Norm, Turned;
    var t := Turned(low, high);
    var n := Norm(t.low, t.high);
    var rest := Expand(n.turns, tail);
    TurnedWords(low, high);
    NormStep(low, high);
    ExpandFirst(t.turns[0], n.turns, tail);
    assert t.turns + n.turns == [t.turns[0]] + n.turns;
    NonePending(rest);
    if !SameTop(low, high) {
      PendingPostpones(u, rest);
    }
  }

  lemma NormStep(low: nat, high: nat)
    requires Word(low, high) && (SameTop(low, high) || Underflow(low, high))
    ensures var t := Turned(low, high);
            Norm(low, high) == Norm(t.low, t.high).(turns := t.turns + Norm(t.low, t.high).turns)
  {
  }

  /** The shifts, masks and carries of 16-bit words. */
  lemma TurnedWords(low: nat, high: nat)
    requires Word(low, high) && (SameTop(low, high) || Underflow(low, high))
    ensures SameTop(low, high) ==>
              Turned(low, high) == Run([Turn.Settle(high >= 0x8000)], low * 2 % 0x1_0000, high * 2 % 0x1_0000 + 1)
    ensures !SameTop(low, high) ==>
              Turned(low, high) == Run([Postpone], low % 0x4000 * 2 % 0x1_0000, (high + 0x4000) * 2 % 0x1_0000 + 1)
  {
  }

  lemma NonePending(rest: seq<bool>)
    requires rest != []
    ensures Pending(0, rest) == rest
  {
  }

  lemma NormDone(low: nat, high: nat, tail: seq<bool>)
    requires Normal(low, high) && |tail| >= 2
    ensures Norm(low, high).low == low && Norm(low, high).high == high && Expand(Norm(low, high).turns, tail) == tail
  {
    ExpandNone(tail);
  }
}
