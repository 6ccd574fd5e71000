/** The range coder object: the same class codes and decodes. `done` is the coder's history while
    compressing; while decompressing, `InSync(todo)` says that the unread input is exactly what a
    compressing coder in the same state writes for `todo`. */
module RangeCoders {
  import opened Arith
  import opened RangeCoding
  import opened Outcomes
  import opened Uniform

  class RangeCoder {
    var low: nat
    var code: nat
    var range: nat
    var buf: seq<byte>   // the caller's buffer up to its length
    var pos: nat
    var tot: nat         // the total of a GetCount whose Decode is still to come, 0 between symbols
    ghost var start: nat
    ghost var done: seq<Sym>
    ghost var whole: nat // range before that GetCount divided it

    ghost predicate Encoding()
      reads this
    {
      && start <= pos <= |buf|
      && AllValid(done)
      && After(done) == Run(buf[start..pos], low, range)
    }

    lemma EncodingBounds()
      requires Encoding()
      ensures start <= pos <= |buf|
    {
    }

    ghost predicate Decoding()
      reads this
    {
      tot == 0 && Ready(low, range) && code < 0x1_0000_0000 && pos <= |buf|
    }

    ghost predicate Counted()
      reads this
    {
      0 < tot <= 0x1_0000 && Ready(low, whole) && range == whole / tot && code < 0x1_0000_0000 && pos <= |buf|
    }

    ghost predicate InSync(todo: seq<Sym>)
      reads this
    {
      Decoding() && AllValid(todo) && Bytes4(code) + buf[pos..] == Emit(low, range, todo)
    }

    lemma SyncIsDecoding(todo: seq<Sym>)
      requires InSync(todo)
      ensures Decoding()
    {
    }

    ghost predicate CountInSync(todo: seq<Sym>)
      reads this
    {
      && Counted() && AllValid(todo) && todo != [] && todo[0].total == tot
      && Bytes4(code) + buf[pos..] == Emit(low, whole, todo)
    }

    /** What the buffer held before `start` stays. */
    twostate predicate Kept()
      reads this
    {
      |buf| == |old(buf)| && start == old(start) <= |buf| && buf[..start] == old(buf)[..start]
    }

    /** The symbols up to the last one begun take more bytes than there are. */
    ghost predicate Overran()
      reads this
    {
      start <= |buf| && AllValid(done) && |After(done).bytes| > |buf| - start
    }

    /** A coding call appends its symbols, or fails at the first of them for which there is no room. */
    twostate predicate Wrote(r: Outcome, syms: seq<Sym>)
      reads this
    {
      && Kept()
      && (r.Pass? ==> Encoding() && done == old(done) + syms)
      && (r.Fail? ==> r.error == ERR_BUF && Overran() && old(done) <= done <= old(done) + syms)
    }

    /** So it passes if and only if the bytes of all symbols fit. */
    twostate lemma WroteIffFits(new r: Outcome, new syms: seq<Sym>)
      requires Wrote(r, syms) && AllValid(old(done) + syms)
      ensures r.Pass? <==> |After(old(done) + syms).bytes| <= |buf| - start
    {
      hide After;
      if r.Fail? {
        AfterPrefix(done, old(done) + syms);
      }
    }

    constructor ()
      ensures buf == [] && pos == 0
    {
      buf := [];
      pos := 0;
    }

    method InitCompress(b: seq<byte>, p: nat)
      requires p <= |b|
      modifies this
      ensures Encoding() && done == [] && start == pos == p && buf == b
    {
      buf, pos, start, done := b, p, p, [];
      low, range := 0, 0xFFFF_FFFF;
    }

    method OutByte(c: byte) returns (r: Outcome)
      requires pos <= |buf|
      modifies this`buf, this`pos
      ensures r == if old(pos) < |old(buf)| then Pass else Fail(ERR_BUF)
      ensures r.Pass? ==> pos == old(pos) + 1 && buf == old(buf)[old(pos) := c]
      ensures r.Fail? ==> pos == old(pos) && buf == old(buf)
    {
      if pos >= |buf| {
        return Fail(ERR_BUF);
      }
      buf := buf[pos := c];
      pos := pos + 1;
      return Pass;
    }

    method InByte() returns (r: Outcome, c: byte)
      requires pos <= |buf|
      modifies this`pos
      ensures r == if old(pos) < |buf| then Pass else Fail(ERR_BUF)
      ensures r.Pass? ==> pos == old(pos) + 1 && c == buf[old(pos)]
      ensures r.Fail? ==> pos == old(pos)
    {
      if pos >= |buf| {
        return Fail(ERR_BUF), 0;
      }
      c := buf[pos];
      pos := pos + 1;
      return Pass, c;
    }

    method OutWord() returns (r: Outcome)
      requires pos <= |buf| && low < 0x1_0000_0000
      modifies this`low, this`buf, this`pos
      ensures |buf| == |old(buf)|
      ensures buf[..old(pos)] == old(buf)[..old(pos)]
      ensures r == if old(pos) + 4 <= |buf| then Pass else Fail(ERR_BUF)
      ensures r.Pass? ==> pos == old(pos) + 4 && buf[old(pos)..pos] == Bytes4(old(low))
    {
      ghost var word := Bytes4(low);
      for i := 0 to 4
        invariant pos == old(pos) + i <= |buf| == |old(buf)|
        invariant buf[..old(pos)] == old(buf)[..old(pos)]
        invariant low < 0x1_0000_0000
        invariant Bytes4(low)[..4-i] == word[i..]
        invariant buf[old(pos)..pos] == word[..i]
      {
        assert Shr24(low) == Bytes4(low)[..4-i][0];
        :- OutByte(Shr24(low));
        assert word[..i+1] == word[..i] + [word[i]];
        ShiftWindow(low, 0);
        low := Shl8(low);
      }
      return Pass;
    }

    /** The bytes written from `start` on are the whole emission of the symbols coded. */
    method EndCompress() returns (r: Outcome)
      requires Encoding()
      modifies this
      ensures |buf| == |old(buf)| && start == old(start)
      ensures buf[..start] == old(buf)[..start]
      ensures r == if |Emit(0, 0xFFFF_FFFF, old(done))| <= |buf| - start then Pass else Fail(ERR_BUF)
      ensures r.Pass? ==> start <= pos <= |buf| && buf[start..pos] == Emit(0, 0xFFFF_FFFF, old(done))
    {
      AfterThenEmit(done, []);
      assert done + [] == done;
      r := OutWord();
      assert buf[..start] == buf[..old(pos)][..start];
      if r.Pass? {
        assert buf[start..pos] == buf[..old(pos)][start..] + buf[old(pos)..pos];
      }
    }

    method InitDecompress(b: seq<byte>, p: nat, ghost todo: seq<Sym>) returns (r: Outcome)
      requires p <= |b|
      modifies this
      ensures r == if p + 4 <= |b| then Pass else Fail(ERR_BUF)
      ensures r.Pass? ==> Decoding() && buf == b
      ensures AllValid(todo) && b[p..] == Emit(0, 0xFFFF_FFFF, todo) ==> r.Pass? && InSync(todo)
    {
      hide Emit;
      buf, pos, tot := b, p, 0;
      low, code, range := 0, 0, 0xFFFF_FFFF;
      for i := 0 to 4
        invariant buf == b && pos == p + i <= |b| && code < 0x1_0000_0000 && tot == 0
        invariant low == 0 && range == 0xFFFF_FFFF
        invariant Bytes4(code)[4-i..] == b[p..pos]
      {
        var c :- InByte();
        ShiftWindow(code, c);
        code := Shl8(code) + c;
      }
      if AllValid(todo) && b[p..] == Emit(0, 0xFFFF_FFFF, todo) {
        assert b[p..] == b[p..pos] + b[pos..];
      }
      return Pass;
    }

    /** The loop shared by the coding calls. */
    method NormaliseOut() returns (r: Outcome)
      requires Inv(low, range) && start <= pos <= |buf|
      modifies this`low, this`range, this`buf, this`pos
      ensures |buf| == |old(buf)| && buf[..start] == old(buf)[..start]
      ensures r.Pass? ==>
                var n := Norm(old(low), old(range));
                && start <= pos <= |buf|
                && Run(buf[start..pos], low, range) == n.(bytes := old(buf[start..pos]) + n.bytes)
      ensures r.Fail? ==>
                r.error == ERR_BUF && |old(buf[start..pos])| + |Norm(old(low), old(range)).bytes| > |buf| - start
    {
      hide Norm, SameTop, Shl8, Shr24, NegLow16;
      ghost var written, goal := buf[start..pos], Norm(low, range);
      while SameTop(low, range) || range < 0x1_0000
        invariant start <= pos <= |buf| == |old(buf)| && buf[..start] == old(buf)[..start]
        invariant Inv(low, range)
        invariant Norm(low, range).low == goal.low && Norm(low, range).range == goal.range
        invariant buf[start..pos] + Norm(low, range).bytes == written + goal.bytes
        decreases |Norm(low, range).bytes|
      {
        ghost var before := buf[start..pos];
        NormTurn(low, range);
        if !SameTop(low, range) {
          range := NegLow16(low);
        }
        :- OutByte(Shr24(low));
        assert buf[start..pos] == before + [Shr24(low)];
        low := Shl8(low);
        range := Shl8(range);
      }
      NormDone(low, range);
      return Pass;
    }

    method Encode(cum: nat, freq: nat, total: nat) returns (r: Outcome)
      requires Encoding() && Sym(cum, freq, total).Valid()
      modifies this
      ensures Wrote(r, [Sym(cum, freq, total)])
    {
      hide After, Norm;
      ghost var s := Sym(cum, freq, total);
      NarrowKeepsInv(low, range, s);
      range := range / total;
      low := (low + range * cum) % 0x1_0000_0000;
      range := range * freq % 0x1_0000_0000;
      r := NormaliseOut();
      AfterOneMore(done, s);
      done := done + [s];
    }

    method EncodeShift(cum: nat, freq: nat, shift: nat) returns (r: Outcome)
      requires Encoding() && Sym(cum, freq, Pow2(shift)).Valid()
      modifies this
      ensures Wrote(r, [Sym(cum, freq, Pow2(shift))])
    {
      r := Encode(cum, freq, Pow2(shift));
    }

    /** `range >> shift` is division by 2^shift, so both count calls come here. */
    method GetCount(total: nat, ghost todo: seq<Sym>) returns (r: Outcome, c: nat)
      requires Decoding() && 0 < total <= 0x1_0000
      modifies this`range, this`tot, this`whole
      ensures Counted() && tot == total && whole == old(range)
      ensures r.Pass? ==> c < total
      ensures r.Fail? ==> r.error == ERR_COR
      ensures old(InSync(todo)) && todo != [] && todo[0].total == total ==>
                && r.Pass? && CountInSync(todo)
                && todo[0].cum <= c < todo[0].cum + todo[0].freq
    {
      hide Emit, Norm, Val4, Bytes4, Count;
      PositiveQuotient(range, total);
      whole, tot := range, total;
      range := range / total;
      c := Count(code, low, range);
      if old(InSync(todo)) && todo != [] && todo[0].total == total {
        WindowFindsSymbol(low, whole, code, buf[pos..], todo);
      }
      if c >= total {
        return Fail(ERR_COR), c;
      }
      return Pass, c;
    }

    /** The loop shared by the decoding calls. */
    method NormaliseIn(ghost rest: seq<byte>) returns (r: Outcome)
      requires Inv(low, range) && code < 0x1_0000_0000 && pos <= |buf|
      modifies this`low, this`range, this`code, this`pos
      ensures code < 0x1_0000_0000 && pos <= |buf|
      ensures r.Pass? ==> Norm(old(low), old(range)).low == low && Norm(old(low), old(range)).range == range
      ensures r.Fail? ==> r.error == ERR_BUF
      ensures |rest| >= 4 && old(Bytes4(code) + buf[pos..]) == Norm(old(low), old(range)).bytes + rest ==>
                r.Pass? && Bytes4(code) + buf[pos..] == rest
    {
      hide Norm, SameTop, Bytes4, Val4, Shl8, Shr24, NegLow16;
      ghost var goal := Norm(low, range);
      ghost var live := |rest| >= 4 && Bytes4(code) + buf[pos..] == goal.bytes + rest;
      while SameTop(low, range) || range < 0x1_0000
        invariant pos <= |buf| && code < 0x1_0000_0000
        invariant Inv(low, range)
        invariant Norm(low, range).low == goal.low && Norm(low, range).range == goal.range
        invariant live ==> Bytes4(code) + buf[pos..] == Norm(low, range).bytes + rest
        decreases |Norm(low, range).bytes|
      {
        ghost var unread := buf[pos..];
        NormTurn(low, range);
        if !SameTop(low, range) {
          range := NegLow16(low);
        }
        if live {
          ghost var tail := Norm(Shl8(low), Shl8(range)).bytes + rest;
          assert Bytes4(code) + unread == [Shr24(low)] + tail;
          AdvanceWindow(code, unread, Shr24(low), tail);
        }
        var c :- InByte();
        assert unread == [c] + buf[pos..];
        ShiftWindow(code, c);
        code := Shl8(code) + c;
        low := Shl8(low);
        range := Shl8(range);
      }
      NormDone(low, range);
      assert Norm(low, range).bytes + rest == rest;
      return Pass;
    }

    method Decode(cum: nat, freq: nat, total: nat, ghost todo: seq<Sym>) returns (r: Outcome)
      requires Counted() && tot == total && Sym(cum, freq, total).Valid()
      modifies this
      ensures buf == old(buf)
      ensures r.Pass? ==>
                && Decoding()
                && low == Step(old(low), old(whole), Sym(cum, freq, total)).low
                && range == Step(old(low), old(whole), Sym(cum, freq, total)).range
      ensures r.Fail? ==> r.error == ERR_BUF
      ensures old(CountInSync(todo)) && todo[0] == Sym(cum, freq, total) ==> r.Pass? && InSync(todo[1..])
    {
      hide Norm, Bytes4;
      ghost var s := Sym(cum, freq, total);
      NarrowKeepsInv(low, whole, s);
      low := (low + range * cum) % 0x1_0000_0000;
      range := range * freq % 0x1_0000_0000;
      tot := 0;
      ghost var goal := Norm(low, range);
      ghost var live := old(CountInSync(todo)) && todo[0] == s;
      r := NormaliseIn(if live then Emit(goal.low, goal.range, todo[1..]) else []);
    }

    /** When nothing is left to decode, exactly the bytes written have been read. */
    lemma NothingLeft()
      requires InSync([])
      ensures pos == |buf| && code == low
    {
      assert |Bytes4(code) + buf[pos..]| == 4;
      assert Bytes4(code) + buf[pos..] == Bytes4(code);
      assert Val4(Bytes4(code)) == code && Val4(Bytes4(low)) == low;
    }

    /** A number below a bound, when the bound has at most bitmax bits; with its exact number of bits the
        number becomes its own groups of 16. */
    method EncodeUniform(val: nat, maxval: nat, bitmax: nat) returns (r: Outcome)
      requires Encoding() && val <= maxval < Pow2(bitmax)
      modifies this
      ensures Wrote(r, SymsWithin(val, maxval, bitmax))
    {
      hide After, Pow2, GroupSyms;
      if maxval == 0 {
        return Pass;
      }
      var v: nat, m: nat, b: nat := val, maxval, bitmax;
      while b > 16
        invariant Kept() && Encoding() && old(done) <= done
        invariant v <= m < Pow2(b)
        invariant done + GroupSyms(v, m, b) == old(done) + GroupSyms(val, maxval, bitmax)
      {
        Pow2Values();
        GroupStep(v, m, b);
        :- EncodeShift(v % 0x1_0000, 1, 16);
        v, m, b := v / 0x1_0000, m / 0x1_0000, b - 16;
      }
      GroupStep(v, m, b);
      r := Encode(v, 1, m + 1);
    }

    method DecodeUniform(maxval: nat, bitmax: nat, ghost x: nat, ghost rest: seq<Sym>) returns (r: Outcome, val: nat)
      requires Decoding() && maxval < Pow2(bitmax)
      modifies this
      ensures buf == old(buf)
      ensures r.Pass? ==> Decoding()
      ensures x <= maxval && old(InSync(SymsWithin(x, maxval, bitmax) + rest)) ==> r.Pass? && val == x && InSync(rest)
    {
      hide Emit, Ready, Bytes4, Pow2, Shl, Shr, GroupSyms;
      ghost var live := x <= maxval && InSync(SymsWithin(x, maxval, bitmax) + rest);
      val := 0;
      if maxval == 0 {
        assert live ==> SymsWithin(x, maxval, bitmax) + rest == rest;
        return Pass, 0;
      }
      var shift: nat := 0;
      ghost var xs: nat, ms: nat := x, maxval;
      ShiftByNone(x);
      ShiftByNone(maxval);
      while shift + 16 < bitmax
        invariant buf == old(buf) && Decoding()
        invariant ms == Shr(maxval, shift) && shift <= bitmax && ms < Pow2(bitmax - shift)
        invariant live ==> xs <= ms && val + Shl(xs, shift) == x && InSync(GroupSyms(xs, ms, bitmax - shift) + rest)
      {
        ghost var later := [];
        GroupStep(0, ms, bitmax - shift);
        if live {
          later := LaterGroups(xs, ms, bitmax - shift, rest);
        }
        var v :- DecodeSingle(0x1_0000, xs % 0x1_0000, later);
        NextGroup(maxval, xs, shift);
        val := val + Shl(v, shift);
        shift := shift + 16;
        xs, ms := xs / 0x1_0000, ms / 0x1_0000;
      }
      var total := Shr(maxval, shift) + 1;
      GroupStep(if live then xs else 0, ms, bitmax - shift);
      var v :- DecodeSingle(total, xs, rest);
      return Pass, val + Shl(v, shift);
    }

    /** A symbol of count 1. */
    method DecodeSingle(total: nat, ghost v: nat, ghost rest: seq<Sym>) returns (r: Outcome, c: nat)
      requires Decoding() && 0 < total <= 0x1_0000
      modifies this
      ensures buf == old(buf)
      ensures r.Pass? ==> Decoding()
      ensures old(InSync([Sym(v, 1, total)] + rest)) ==> r.Pass? && c == v && InSync(rest)
    {
      hide Emit, Ready, Bytes4;
      ghost var todo := [Sym(v, 1, total)] + rest;
      assert todo[1..] == rest;
      c :- GetCount(total, todo);
      r := Decode(c, 1, total, todo);
    }

    /** The same with the exact number of bits. */
    method EncodeBelow(val: nat, maxval: nat, bits: nat) returns (r: Outcome)
      requires Encoding() && val <= maxval && bits == BitLen(maxval)
      modifies this
      ensures Wrote(r, UniSyms(val, maxval))
    {
      hide After, Pow2, BitLen, SymsWithin, UniSyms;
      WithinExactly(val, maxval);
      r := EncodeUniform(val, maxval, bits);
    }

    method DecodeBelow(maxval: nat, bits: nat, ghost x: nat, ghost rest: seq<Sym>) returns (r: Outcome, val: nat)
      requires Decoding() && bits == BitLen(maxval)
      modifies this
      ensures buf == old(buf)
      ensures r.Pass? ==> Decoding()
      ensures x <= maxval && old(InSync(UniSyms(x, maxval) + rest)) ==> r.Pass? && val == x && InSync(rest)
    {
      hide Emit, Ready, Bytes4, Pow2, BitLen, SymsWithin, UniSyms;
      WithinExactly(if x <= maxval then x else 0, maxval);
      r, val := DecodeUniform(maxval, bits, x, rest);
    }

    method EncodeUniShift(x: nat, shift: nat) returns (r: Outcome)
      requires Encoding() && x < Pow2(shift)
      modifies this
      ensures Wrote(r, ShiftSyms(x, shift))
      decreases shift
    {
      hide After, Pow2, ShiftSyms;
      Pow2Values();
      ShiftSymsByGroup(x, shift);
      if shift <= 16 {
        r := EncodeShift(x, 1, shift);
      } else {
        :- EncodeShift(x % 0x1_0000, 1, 16);
        r := EncodeUniShift(x / 0x1_0000, shift - 16);
        assert r.Pass? ==> done == old(done) + ShiftSyms(x, shift);
      }
    }

    method DecodeUniShift(shift: nat, ghost x: nat, ghost rest: seq<Sym>) returns (r: Outcome, val: nat)
      requires Decoding()
      modifies this
      ensures buf == old(buf)
      ensures r.Pass? ==> Decoding()
      ensures x < Pow2(shift) && old(InSync(ShiftSyms(x, shift) + rest)) ==> r.Pass? && val == x && InSync(rest)
      decreases shift
    {
      hide Emit, Ready, Bytes4, Pow2, ShiftSyms;
      Pow2Values();
      val := 0;
      ghost var live := x < Pow2(shift) && InSync(ShiftSyms(x, shift) + rest);
      ghost var todo := if live then ShiftSyms(x, shift) + rest else [];
      if live {
        ShiftSymsByGroup(x, shift);
      }
      if shift <= 16 {
        Pow2Monotone(shift, 16);
        val :- GetCount(Pow2(shift), todo);
        :- Decode(val, 1, Pow2(shift), todo);
        assert live ==> todo[1..] == rest;
        return Pass, val;
      } else {
        var tmp :- GetCount(0x1_0000, todo);
        :- Decode(tmp, 1, 0x1_0000, todo);
        assert live ==> todo[1..] == ShiftSyms(x / 0x1_0000, shift - 16) + rest;
        val :- DecodeUniShift(shift - 16, x / 0x1_0000, rest);
        return Pass, val * 0x1_0000 + tmp;
      }
    }
  }
}
