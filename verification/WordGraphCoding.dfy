/** What the word graph sends besides its choice of edges: whether a record repeats the one before, and how
    far a record follows an edge. */
module WordGraphCoding {
  import opened Arith
  import opened Outcomes
  import opened RangeCoding
  import opened Uniform
  import opened RangeCoders

  const MAX_RECORDS: nat := 65536

  /** The counts after one more record: one more that repeated its predecessor, or not, and both halved when
      the total grows too large. */
  function Counted(rep: nat, total: nat, repeated: bool): (nat, nat) {
    var r := if repeated then rep + 1 else rep;
    if total + 1 > 0x1_0000 then (r / 2, (total + 1) / 2) else (r, total + 1)
  }

  /** Counts of records that repeated their predecessor and of all that could have. */
  class RepetitionCounters {
    var rep: nat
    var total: nat
    ghost var sent: nat
    ghost var repeats: nat    // of those sent

    /** Up to the last record that may still be asked for, the counts give a valid choice. */
    ghost predicate Ready()
      reads this
    {
      sent < MAX_RECORDS - 1 && repeats <= sent && rep == 1 + repeats && total == 2 + sent
    }

    constructor ()
      ensures Ready() && sent == repeats == 0
    {
      rep, total, sent, repeats := 1, 2, 0, 0;
    }

    ghost function Choice(repeated: bool): Sym
      reads this
    {
      if repeated then Sym(0, rep, total) else Sym(rep, if rep < total then total - rep else 0, total)
    }

    method Count(repeated: bool)
      requires Ready()
      modifies this
      ensures (rep, total) == Counted(old(rep), old(total), repeated)
      ensures sent == old(sent) + 1 && repeats == old(repeats) + (if repeated then 1 else 0)
      ensures sent < MAX_RECORDS - 1 ==> Ready()
    {
      if repeated {
        rep := rep + 1;
      }
      total := total + 1;
      if total > 0x1_0000 {
        rep, total := rep / 2, total / 2;
      }
      sent, repeats := sent + 1, repeats + if repeated then 1 else 0;
    }

    /** With at most 65536 records, the first of which is never asked for, every choice is valid. */
    method EncodeFlag(coder: RangeCoder, repeated: bool) returns (r: Outcome)
      requires Ready() && coder.Encoding()
      modifies this, coder
      ensures coder.Wrote(r, [old(Choice(repeated))])
      ensures old(Choice(repeated)).Valid() && old(Choice(true)).freq == 1 + old(repeats)
      ensures old(Choice(false)).freq == 1 + old(sent - repeats)
      ensures (rep, total) == Counted(old(rep), old(total), repeated)
      ensures sent == old(sent) + 1 && repeats == old(repeats) + (if repeated then 1 else 0)
      ensures sent < MAX_RECORDS - 1 ==> Ready()
    {
      if repeated {
        r := coder.Encode(0, rep, total);
      } else {
        r := coder.Encode(rep, total - rep, total);
      }
      Count(repeated);
    }

    /** The decoder's counters follow the encoder's. */
    method DecodeFlag(coder: RangeCoder, ghost repeated: bool, ghost rest: seq<Sym>) returns (r: Outcome, flag: bool)
      requires Ready() && coder.InSync([Choice(repeated)] + rest)
      modifies this, coder
      ensures r == Pass && flag == repeated && coder.InSync(rest)
      ensures (rep, total) == Counted(old(rep), old(total), repeated)
      ensures sent == old(sent) + 1 && repeats == old(repeats) + (if repeated then 1 else 0)
      ensures sent < MAX_RECORDS - 1 ==> Ready()
    {
      ghost var todo := [Choice(repeated)] + rest;
      var c := 0;
      r, c := coder.GetCount(total, todo);
      flag := c < rep;
      if r.Fail? {
        return;
      }
      assert todo[1..] == rest;
      if flag {
        r := coder.Decode(0, rep, total, todo);
      } else {
        r := coder.Decode(rep, total - rep, total, todo);
      }
      Count(flag);
    }
  }

  /** How many symbols of an edge matched: all, one, or a number in between that follows. */
  function First(len: nat): nat {
    if len == 2 then 120 else 102
  }

  function Second(len: nat): nat {
    if len == 2 then 128 else 119
  }

  function MatchSyms(proj: nat, len: nat): (s: seq<Sym>)
    requires 1 <= proj <= len
    ensures AllValid(s)
  {
    if len < 2 then []
    else if proj == len then [Sym(0, First(len), 128)]
    else if proj == 1 then [Sym(First(len), Second(len) - First(len), 128)]
    else [Sym(119, 9, 128)] + UniSyms(proj - 2, len - 3)
  }

  /** The cases share the total out: each of the 128 counts belongs to the first symbol of some match. */
  lemma MatchesShare(len: nat, c: nat) returns (proj: nat)
    requires len >= 2 && c < 128
    ensures 1 <= proj <= len
    ensures var s := MatchSyms(proj, len); s != [] && s[0].total == 128 && s[0].cum <= c < s[0].cum + s[0].freq
  {
    proj := if c < First(len) then len else if c < Second(len) then 1 else 2;
  }

  lemma SevenBits()
    ensures Pow2(7) == 128
  {
  }

  method EncodeMatch(coder: RangeCoder, proj: nat, len: nat) returns (r: Outcome)
    requires coder.Encoding() && 1 <= proj <= len
    modifies coder
    ensures coder.Wrote(r, MatchSyms(proj, len))
  {
    hide Pow2, BitLen, UniSyms, After, RangeCoder.Encoding;
    SevenBits();
    coder.EncodingBounds();
    if len < 2 {
      r := Pass;
    } else if proj == len {
      r := coder.EncodeShift(0, First(len), 7);
    } else if proj == 1 {
      r := coder.EncodeShift(First(len), Second(len) - First(len), 7);
    } else {
      r := EncodeBetween(coder, proj, len);
    }
  }

  method EncodeBetween(coder: RangeCoder, proj: nat, len: nat) returns (r: Outcome)
    requires coder.Encoding() && 1 < proj < len
    modifies coder
    ensures coder.Wrote(r, [Sym(119, 9, 128)] + UniSyms(proj - 2, len - 3))
  {
    hide Pow2, BitLen, UniSyms, After, RangeCoder.Encoding;
    SevenBits();
    :- coder.EncodeShift(119, 9, 7);
    var bits := GetBitLen(len - 3);
    r := coder.EncodeBelow(proj - 2, len - 3, bits);
  }

  method DecodeMatch(coder: RangeCoder, len: nat, ghost x: nat, ghost rest: seq<Sym>) returns (r: Outcome, proj: nat)
    requires 1 <= x <= len && coder.InSync(MatchSyms(x, len) + rest)
    modifies coder
    ensures r == Pass && proj == x && coder.InSync(rest)
  {
    hide Pow2, BitLen, UniSyms, Emit;
    proj := 1;
    if len < 2 {
      assert MatchSyms(x, len) + rest == rest;
      return Pass, proj;
    }
    ghost var todo := MatchSyms(x, len) + rest;
    ghost var more := if 1 < x < len then UniSyms(x - 2, len - 3) + rest else rest;
    assert todo[1..] == more;
    var c := 0;
    r, c := coder.GetCount(128, todo);
    if r.Fail? {
      return;
    }
    if c < First(len) {
      r := coder.Decode(0, First(len), 128, todo);
      proj := len;
    } else if c < Second(len) {
      r := coder.Decode(First(len), Second(len) - First(len), 128, todo);
    } else {
      assert todo == [Sym(119, 9, 128)] + UniSyms(x - 2, len - 3) + rest;
      r, proj := DecodeBetween(coder, len, x, rest);
    }
  }

  method DecodeBetween(coder: RangeCoder, len: nat, ghost x: nat, ghost rest: seq<Sym>) returns (r: Outcome, proj: nat)
    requires 1 < x < len && coder.Counted() && coder.tot == 128
    requires coder.CountInSync([Sym(119, 9, 128)] + UniSyms(x - 2, len - 3) + rest)
    modifies coder
    ensures r == Pass && proj == x && coder.InSync(rest)
  {
    hide Pow2, BitLen, UniSyms, Emit;
    ghost var todo := [Sym(119, 9, 128)] + UniSyms(x - 2, len - 3) + rest;
    assert todo[1..] == UniSyms(x - 2, len - 3) + rest;
    proj := 0;
    r := coder.Decode(119, 9, 128, todo);
    if r.Fail? {
      return;
    }
    var bits := GetBitLen(len - 3);
    r, proj := coder.DecodeBelow(len - 3, bits, x - 2, rest);
    proj := proj + 2;
  }
}
