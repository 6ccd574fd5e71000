/** Compression of bit strings: a header, then the arithmetic code of the bits or of their differences,
    under the counts of zeros and ones. */
module BitstreamCompressors {
  import opened Arith
  import opened Outcomes
  import opened ArithCoding
  import opened BitStreams
  import opened ArithCoders

  /** The largest total; streams of version 0 (no patch) used one too large for the coder. */
  function MaxTotal(patch: bool): nat {
    if patch then MAX_TOTAL else 0xFFFF
  }

  function Halved(count: nat, num: nat): (c: nat)
    ensures count > 1 ==> c < count
    ensures c <= if count > 1 then count else 1
  {
    if count / 2 == 0 && num > 0 then 1 else count / 2
  }

  /** Counts are halved until their total is small enough. */
  function SumTable(cnt0: nat, cnt1: nat, num0: nat, num1: nat, max: nat): (sum: seq<nat>)
    requires max >= 2
    ensures |sum| == 3
    decreases cnt0 + cnt1
  {
    if cnt0 + cnt1 > max then SumTable(Halved(cnt0, num0), Halved(cnt1, num1), num0, num1, max)
    else [0, cnt0, cnt0 + cnt1]
  }

  /** The table fits the coder, and a count is positive exactly where the number is. */
  lemma {:induction false} SumTableFits(cnt0: nat, cnt1: nat, num0: nat, num1: nat, max: nat)
    requires max >= 2 && (cnt0 > 0 <==> num0 > 0) && (cnt1 > 0 <==> num1 > 0)
    ensures var sum := SumTable(cnt0, cnt1, num0, num1, max);
            && sum[0] == 0 <= sum[1] <= sum[2] <= max
            && (sum[1] > 0 <==> num0 > 0) && (sum[2] > sum[1] <==> num1 > 0)
    decreases cnt0 + cnt1
  {
    if cnt0 + cnt1 > max {
      SumTableFits(Halved(cnt0, num0), Halved(cnt1, num1), num0, num1, max);
    }
  }

  /** The numbers are halved as often as it takes for the total to fit, and no more often. */
  ghost predicate ReducedBy(k: nat, num0: nat, num1: nat, max: nat, sum: seq<nat>) {
    && sum == [0, Reduced(num0, k), Reduced(num0, k) + Reduced(num1, k)] && Reduced(num0, k) + Reduced(num1, k) <= max
    && forall j :: 0 <= j < k ==> Reduced(num0, j) + Reduced(num1, j) > max
  }

  lemma HalvedReduces(num: nat, k: nat)
    ensures Halved(Reduced(num, k), num) == Reduced(num, k + 1)
  {
    hide Reduced;
    ReducedNext(num, k);
  }

  lemma {:induction false} SumTableReduces(k: nat, num0: nat, num1: nat, max: nat)
    requires max >= 2 && forall j :: 0 <= j < k ==> Reduced(num0, j) + Reduced(num1, j) > max
    ensures exists n :: ReducedBy(n, num0, num1, max, SumTable(Reduced(num0, k), Reduced(num1, k), num0, num1, max))
    decreases Reduced(num0, k) + Reduced(num1, k)
  {
    hide Reduced, SumTable, Halved;
    var a, b := Reduced(num0, k), Reduced(num1, k);
    SumTableStep(a, b, num0, num1, max);
    if a + b > max {
      HalvedReduces(num0, k);
      HalvedReduces(num1, k);
      SumTableReduces(k + 1, num0, num1, max);
      var n: nat :| ReducedBy(n, num0, num1, max, SumTable(Halved(a, num0), Halved(b, num1), num0, num1, max));
      assert ReducedBy(n, num0, num1, max, SumTable(a, b, num0, num1, max));
    } else {
      assert ReducedBy(k, num0, num1, max, SumTable(a, b, num0, num1, max));
    }
  }

  lemma SumTableStep(a: nat, b: nat, num0: nat, num1: nat, max: nat)
    requires max >= 2
    ensures SumTable(a, b, num0, num1, max)
            == if a + b > max then SumTable(Halved(a, num0), Halved(b, num1), num0, num1, max) else [0, a, a + b]
    ensures a + b > max ==> Halved(a, num0) + Halved(b, num1) < a + b
  {
  }

  function Table(numbits: nat, num1: nat, patch: bool): (sum: seq<nat>)
    requires num1 <= numbits
    ensures |sum| == 3
  {
    SumTable(numbits - num1, num1, numbits - num1, num1, MaxTotal(patch))
  }

  method GetSumTable(num0: nat, num1: nat, patch: bool) returns (sum: seq<nat>)
    ensures sum == SumTable(num0, num1, num0, num1, MaxTotal(patch))
    ensures |sum| == 3 && sum[0] == 0 <= sum[1] <= sum[2] <= MaxTotal(patch)
    ensures (sum[1] > 0 <==> num0 > 0) && (sum[2] > sum[1] <==> num1 > 0)
    ensures exists k :: ReducedBy(k, num0, num1, MaxTotal(patch), sum)
  {
    hide ReducedBy;
    var cnt0, cnt1, max := num0, num1, MaxTotal(patch);
    while cnt0 + cnt1 > max
      invariant SumTable(cnt0, cnt1, num0, num1, max) == SumTable(num0, num1, num0, num1, max)
      decreases cnt0 + cnt1
    {
      cnt0, cnt1 := cnt0 / 2, cnt1 / 2;
      if cnt0 == 0 && num0 > 0 {
        cnt0 := 1;
      }
      if cnt1 == 0 && num1 > 0 {
        cnt1 := 1;
      }
    }
    sum := [0, cnt0, cnt0 + cnt1];
    SumTableFits(num0, num1, num0, num1, max);
    NotReduced(num0);
    NotReduced(num1);
    SumTableReduces(0, num0, num1, max);
  }

  /** Each bit against the one before it, and the sums that undo it. */
  function Diffs(bits: seq<bool>, prev: bool): (d: seq<bool>)
    ensures |d| == |bits|
  {
    if bits == [] then [] else [prev != bits[0]] + Diffs(bits[1..], bits[0])
  }

  function Sums(bits: seq<bool>, acc: bool): (s: seq<bool>)
    ensures |s| == |bits|
  {
    if bits == [] then [] else [acc != bits[0]] + Sums(bits[1..], acc != bits[0])
  }

  lemma {:induction false} SumsUndoDiffs(bits: seq<bool>, b: bool)
    ensures Sums(Diffs(bits, b), b) == bits
  {
    if bits != [] {
      SumsUndoDiffs(bits[1..], bits[0]);
      assert Diffs(bits, b)[1..] == Diffs(bits[1..], bits[0]);
      assert bits == [bits[0]] + bits[1..];
    }
  }

  function Ones(bits: seq<bool>): (n: nat)
    ensures n <= |bits|
  {
    if bits == [] then 0 else (if bits[0] then 1 else 0) + Ones(bits[1..])
  }

  /** Each difference is that of a bit and the one before it, and the ones are counted. */
  lemma {:induction false} DiffsAt(bits: seq<bool>, prev: bool, i: nat)
    requires i < |bits|
    ensures Diffs(bits, prev)[i] <==> bits[i] != if i == 0 then prev else bits[i - 1]
  {
    if i > 0 {
      DiffsAt(bits[1..], bits[0], i - 1);
    }
  }

  lemma {:induction false} OnesAre(bits: seq<bool>)
    ensures Ones(bits) == multiset(bits)[true]
  {
    if bits != [] {
      OnesAre(bits[1..]);
      assert bits == [bits[0]] + bits[1..];
    }
  }

  /** The numbers of zeros and ones say at least which of them occur. */
  ghost predicate Counted(bits: seq<bool>, num1: nat) {
    num1 <= |bits| && (true in bits ==> num1 > 0) && (false in bits ==> num1 < |bits|)
  }

  lemma {:induction false} OnesCounted(bits: seq<bool>)
    ensures Counted(bits, Ones(bits))
  {
    if bits != [] {
      OnesCounted(bits[1..]);
      assert bits == [bits[0]] + bits[1..];
    }
  }

  lemma {:induction false} PartsValid(bits: seq<bool>, sum: seq<nat>)
    requires |sum| == 3 && sum[0] <= sum[1] <= sum[2] <= MAX_TOTAL
    requires (false in bits ==> sum[0] < sum[1]) && (true in bits ==> sum[1] < sum[2])
    ensures AllValid(Parts(bits, sum, sum[2]))
  {
    if bits != [] {
      PartsValid(bits[1..], sum);
      assert bits[0] in bits;
    }
  }

  lemma CountedTable(bits: seq<bool>, num1: nat)
    requires Counted(bits, num1)
    ensures var sum := Table(|bits|, num1, true);
            sum[0] <= sum[1] <= sum[2] <= MAX_TOTAL && AllValid(Parts(bits, sum, sum[2]))
              && (sum[2] > 0 <==> |bits| > 0)
  {
    hide SumTable, Parts, AllValid;
    SumTableFits(|bits| - num1, num1, |bits| - num1, num1, MAX_TOTAL);
    PartsValid(bits, Table(|bits|, num1, true));
  }

  /** Differentiates the source, which must not be longer than the destination. */
  method Differ(dest: BitStream, src: BitStream) returns (r: Outcome, num1: nat)
    requires dest != src && dest.buf != src.buf
    requires dest.Valid() && dest.pos <= dest.len && src.pos <= src.len <= 8 * src.buf.Length
    modifies dest`pos, dest`clrlen, dest.buf, src`pos
    ensures dest.Valid() && dest.pos <= dest.len
    ensures r == if old(dest.pos) + old(|src.Ahead()|) <= dest.len then Pass else Fail(ERR_BUF)
    ensures r.Pass? ==>
              dest.Before() == old(dest.Before() + Diffs(src.Ahead(), false))
                && num1 == Ones(old(Diffs(src.Ahead(), false)))
  {
    hide AllClear, SameFrom, BitOf, BitsOf, Diffs, Ones, Sums;
    NoDiffs();
    ghost var goal, all := dest.Before() + Diffs(src.Ahead(), false), Diffs(src.Ahead(), false);
    num1 := 0;
    var prev, next := false, false;
    while src.pos < src.len
      invariant dest.Valid() && dest.pos <= dest.len && src.pos <= src.len
      invariant dest.Before() + Diffs(src.Ahead(), prev) == goal
      invariant num1 + Ones(Diffs(src.Ahead(), prev)) == Ones(all)
      decreases src.len - src.pos
    {
      r, next := src.GetBit();
      DiffsFirst(next, src.Ahead(), prev);
      r := dest.PutBit(prev != next);
      if r.Fail? {
        return;
      }
      if prev != next {
        num1 := num1 + 1;
      }
      prev := next;
    }
    r := Pass;
  }

  lemma NoDiffs()
    ensures Ones([]) == 0 && forall b :: Diffs([], b) == Sums([], b) == []
  {
  }

  lemma DiffsFirst(bit: bool, rest: seq<bool>, prev: bool)
    ensures Diffs([bit] + rest, prev) == [prev != bit] + Diffs(rest, bit)
    ensures Ones(Diffs([bit] + rest, prev)) == (if prev != bit then 1 else 0) + Ones(Diffs(rest, bit))
    ensures Sums([bit] + rest, prev) == [prev != bit] + Sums(rest, prev != bit)
  {
    assert ([bit] + rest)[1..] == rest;
    assert Diffs([bit] + rest, prev)[1..] == Diffs(rest, bit);
  }

  method Integrt(dest: BitStream, src: BitStream) returns (r: Outcome)
    requires dest != src && dest.buf != src.buf
    requires dest.Valid() && dest.pos <= dest.len && src.pos <= src.len <= 8 * src.buf.Length
    modifies dest`pos, dest`clrlen, dest.buf, src`pos
    ensures dest.Valid() && dest.pos <= dest.len
    ensures r == if old(dest.pos) + old(|src.Ahead()|) <= dest.len then Pass else Fail(ERR_BUF)
    ensures r.Pass? ==> dest.Before() == old(dest.Before() + Sums(src.Ahead(), false))
  {
    hide AllClear, SameFrom, BitOf, BitsOf, Diffs, Ones, Sums;
    NoDiffs();
    ghost var goal := dest.Before() + Sums(src.Ahead(), false);
    var bit, next := false, false;
    while src.pos < src.len
      invariant dest.Valid() && dest.pos <= dest.len && src.pos <= src.len
      invariant dest.Before() + Sums(src.Ahead(), bit) == goal
      decreases src.len - src.pos
    {
      r, next := src.GetBit();
      DiffsFirst(next, src.Ahead(), bit);
      bit := bit != next;
      r := dest.PutBit(bit);
      if r.Fail? {
        return;
      }
    }
    r := Pass;
  }

  /** The format: a version, whether the bits are differentiated and then the number of ones of the
      differences, and the code. */
  function Version(patch: bool): seq<bool> {
    if patch then [true, false] else [false]
  }

  function Number(d: nat): seq<bool> {
    if d <= 0xFFFF then [false] + NatBits(d, 16) else [true] + NatBits(d, 32)
  }

  /** The short form is for numbers of 16 bits. */
  lemma NumberLength(d: nat)
    ensures |Number(d)| == if d < Pow2(16) then 17 else 33
  {
    Pow2Values();
  }

  ghost predicate Codable(bits: seq<bool>, num1: nat, patch: bool) {
    num1 <= |bits| && AllValid(Parts(bits, Table(|bits|, num1, patch), Table(|bits|, num1, patch)[2]))
  }

  ghost function Code(bits: seq<bool>, num1: nat, patch: bool): seq<bool>
    requires Codable(bits, num1, patch)
  {
    BitCode(bits, Table(|bits|, num1, patch), Table(|bits|, num1, patch)[2])
  }

  /** The bits that are coded, and the number of ones they are coded under. */
  function Coded(bits: seq<bool>, differ: bool): (c: seq<bool>)
    ensures |c| == |bits|
  {
    if differ then Diffs(bits, false) else bits
  }

  function Under(bits: seq<bool>, num1: nat, differ: bool): nat {
    if differ then Ones(Diffs(bits, false)) else num1
  }

  function Header(bits: seq<bool>, differ: bool, patch: bool): seq<bool> {
    Version(patch) + [differ] + if differ then Number(Ones(Diffs(bits, false))) else []
  }

  ghost function Packed(bits: seq<bool>, num1: nat, differ: bool, patch: bool): seq<bool>
    requires Codable(Coded(bits, differ), Under(bits, num1, differ), patch)
  {
    Header(bits, differ, patch) + Code(Coded(bits, differ), Under(bits, num1, differ), patch)
  }

  /** Either way of coding is open to a string whose number of ones is told truthfully. */
  lemma CountedIsCodable(bits: seq<bool>, num1: nat, differ: bool)
    requires differ || Counted(bits, num1)
    ensures Codable(Coded(bits, differ), Under(bits, num1, differ), true)
  {
    if differ {
      OnesCounted(Diffs(bits, false));
    }
    CountedTable(Coded(bits, differ), Under(bits, num1, differ));
  }

  method PutNumber(dest: BitStream, d: nat) returns (r: Outcome)
    requires dest.Valid() && dest.pos <= dest.len
    requires dest.pos + 33 <= dest.len || dest.len + 7 <= 8 * dest.buf.Length
    modifies dest`pos, dest`clrlen, dest.buf
    ensures dest.Valid() && dest.pos <= 8 * dest.buf.Length
    ensures r.Pass? ==> dest.pos == old(dest.pos) + |Number(d)|
    ensures r.Fail? ==> r == Fail(ERR_BUF)
    ensures old(dest.pos) + |Number(d)| <= dest.len ==> r.Pass? && dest.Before() == old(dest.Before()) + Number(d)
  {
    hide AllClear, SameFrom, BitOf, BitsOf, NatBits;
    if d <= 0xFFFF {
      r := PutFlagged(dest, false, d, 16);
    } else {
      r := PutFlagged(dest, true, d, 32);
    }
  }

  method PutFlagged(dest: BitStream, long: bool, d: nat, width: nat) returns (r: Outcome)
    requires dest.Valid() && dest.pos <= dest.len && width <= 32
    requires dest.pos + 1 + width <= dest.len || dest.len + 7 <= 8 * dest.buf.Length
    modifies dest`pos, dest`clrlen, dest.buf
    ensures dest.Valid() && dest.pos <= 8 * dest.buf.Length
    ensures r.Pass? ==> dest.pos == old(dest.pos) + 1 + width
    ensures r.Fail? ==> r == Fail(ERR_BUF)
    ensures old(dest.pos) + 1 + width <= dest.len ==>
              r.Pass? && dest.Before() == old(dest.Before()) + ([long] + NatBits(d, width))
  {
    hide AllClear, SameFrom, BitOf, BitsOf, NatBits;
    :- dest.PutBit(long);
    r := dest.PutUInt(d, width);
  }

  method CompressData(dest: BitStream, src: BitStream, numbits: nat, num1: nat) returns (r: Outcome)
    requires dest != src && dest.buf != src.buf && num1 <= numbits == src.len - src.pos
    requires dest.Valid() && dest.pos <= 8 * dest.buf.Length && src.pos <= src.len <= 8 * src.buf.Length
    modifies dest`pos, dest`clrlen, dest.buf, src`pos
    ensures dest.Valid()
    ensures numbits == 0 ==> r == Fail(ERR_PAR)
    ensures numbits > 0 && old(Codable(src.Ahead(), num1, true)) ==>
              && r == (if old(dest.pos + |Code(src.Ahead(), num1, true)|) <= dest.len then Pass else Fail(ERR_BUF))
              && (r.Pass? ==>
                dest.pos <= 8 * dest.buf.Length && dest.Before() == old(dest.Before() + Code(src.Ahead(), num1, true)))
  {
    hide AllClear, SameFrom, BitOf, BitsOf, Parts, SumTable, Emit;
    var sum := GetSumTable(numbits - num1, num1, true);
    var coder := new ArithCoder();
    r := coder.CompressBits(dest, src, sum, sum[2]);
  }

  method CompressPlain(dest: BitStream, src: BitStream, numbits: nat, num1: nat) returns (r: Outcome)
    requires dest != src && dest.buf != src.buf && num1 <= numbits == src.len - src.pos
    requires dest.Valid() && dest.pos <= dest.len && src.pos <= src.len <= 8 * src.buf.Length
    modifies dest`pos, dest`clrlen, dest.buf, src`pos
    ensures dest.Valid()
    ensures numbits == 0 ==> r.Fail?
    ensures numbits > 0 && old(Codable(src.Ahead(), num1, true)) ==>
              Put(r, dest.len, dest.Written(), old(dest.Before()), old([false] + Code(src.Ahead(), num1, true)))
  {
    hide AllClear, SameFrom, BitOf, BitsOf, Codable, Code;
    :- dest.PutBit(false);
    r := CompressData(dest, src, numbits, num1);
  }

  method CompressDiffs(dest: BitStream, diff: BitStream, numbits: nat, dnum1: nat) returns (r: Outcome)
    requires dest != diff && dest.buf != diff.buf && dnum1 <= numbits == diff.len - diff.pos
    requires dest.Valid() && dest.pos <= dest.len && diff.pos <= diff.len <= 8 * diff.buf.Length
    requires dest.pos + 34 <= dest.len || dest.len + 7 <= 8 * dest.buf.Length
    modifies dest`pos, dest`clrlen, dest.buf, diff`pos
    ensures dest.Valid()
    ensures numbits == 0 ==> r.Fail?
    ensures numbits > 0 && old(Codable(diff.Ahead(), dnum1, true)) ==>
              Put(r, dest.len, dest.Written(), old(dest.Before()),
                old([true] + Number(dnum1) + Code(diff.Ahead(), dnum1, true)))
  {
    hide AllClear, SameFrom, BitOf, BitsOf, Codable, Code, Number;
    :- dest.PutBit(true);
    :- PutNumber(dest, dnum1);
    r := CompressData(dest, diff, numbits, dnum1);
  }

  /** Text is appended to what a stream held if and only if it fits. */
  ghost predicate Put(r: Outcome, len: nat, now: seq<bool>, was: seq<bool>, text: seq<bool>) {
    && r == (if |was| + |text| <= len then Pass else Fail(ERR_BUF))
    && (r.Pass? ==> now == was + text)
  }

  lemma PutNothing(len: nat, now: seq<bool>, was: seq<bool>, text: seq<bool>)
    requires |was| + |text| > len
    ensures Put(Fail(ERR_BUF), len, now, was, text)
  {
  }

  lemma PutMore(r: Outcome, len: nat, now: seq<bool>, was: seq<bool>, first: seq<bool>, rest: seq<bool>, all: seq<bool>)
    requires all == first + rest
    ensures Put(r, len, now, was + first, rest) ==> Put(r, len, now, was, all)
  {
    assert was + first + rest == was + all;
  }

  lemma PackedParts(bits: seq<bool>, num1: nat, differ: bool)
    requires Codable(Coded(bits, differ), Under(bits, num1, differ), true)
    ensures var d := Diffs(bits, false);
            Packed(bits, num1, differ, true)
            == [true, false] + if differ then [true] + Number(Ones(d)) + Code(d, Ones(d), true)
              else [false] + Code(bits, num1, true)
  {
    hide Diffs, Ones, Codable, Code, Number;
  }

  /** Which of the two forms is shorter is estimated from entropies; here either may be chosen. */
  method Compress(dest: BitStream, src: BitStream, numbits: nat, num1: nat, differ: bool) returns (r: Outcome)
    requires dest != src && dest.buf != src.buf
    requires dest.Valid() && dest.pos <= dest.len && src.pos <= src.len <= 8 * src.buf.Length
    requires num1 <= numbits <= src.len - src.pos
    requires differ ==> dest.pos + 36 <= dest.len || dest.len + 7 <= 8 * dest.buf.Length
    modifies dest`pos, dest`clrlen, dest.buf, src`pos
    ensures dest.Valid()
    ensures numbits < old(src.len - src.pos) ==> r == Fail(ERR_BUF)
    ensures numbits == 0 ==> r.Fail?
    ensures 0 < numbits == old(src.len - src.pos) && (differ || old(Counted(src.Ahead(), num1))) ==>
              && old(Codable(Coded(src.Ahead(), differ), Under(src.Ahead(), num1, differ), true))
              && Put(r, dest.len, dest.Written(), old(dest.Before()), old(Packed(src.Ahead(), num1, differ, true)))
  {
    hide AllClear, SameFrom, BitOf, BitsOf, Codable, Code, Diffs, Ones, Counted, Number, Put, Packed;
    ghost var bits, was := src.Ahead(), dest.Before();
    ghost var good := differ || Counted(bits, num1);
    r := PutVersion(dest);
    if r.Fail? {
      if good {
        CountedIsCodable(bits, num1, differ);
        PackedParts(bits, num1, differ);
        PutNothing(dest.len, dest.Written(), was, Packed(bits, num1, differ, true));
      }
      return;
    }
    var tab := new bv8[(numbits + 7) / 8];
    var diff := new BitStream(tab, numbits, 0);
    var pos, dnum1 := src.pos, 0;
    r, dnum1 := Differ(diff, src);
    if r.Fail? {
      return;
    }
    if !differ {
      src.SetPos(pos);
      assert src.Ahead() == bits;
      r := CompressPlain(dest, src, numbits, num1);
    } else {
      ghost var d := diff.Before();
      diff.Reset();
      assert diff.Ahead() == d == Diffs(bits, false);
      r := CompressDiffs(dest, diff, numbits, dnum1);
    }
    if good {
      CountedIsCodable(bits, num1, differ);
      PackedParts(bits, num1, differ);
      var d := Diffs(bits, false);
      var rest := if differ then [true] + Number(Ones(d)) + Code(d, Ones(d), true)
        else [false] + Code(bits, num1, true);
      PutMore(r, dest.len, dest.Written(), was, [true, false], rest, Packed(bits, num1, differ, true));
    }
  }

  method PutVersion(dest: BitStream) returns (r: Outcome)
    requires dest.Valid() && dest.pos <= dest.len
    modifies dest`pos, dest`clrlen, dest.buf
    ensures dest.Valid() && dest.pos <= dest.len
    ensures r == if old(dest.pos) + 2 <= dest.len then Pass else Fail(ERR_BUF)
    ensures r.Pass? ==> dest.pos == old(dest.pos) + 2 && dest.Before() == old(dest.Before()) + [true, false]
  {
    hide AllClear, SameFrom, BitOf, BitsOf;
    :- dest.PutBit(true);
    :- dest.PutBit(false);
    return Pass;
  }

  method DecompressData(dest: BitStream, src: BitStream, numbits: nat, num1: nat, patch: bool, ghost bits: seq<bool>)
    returns (r: Outcome)
    requires dest != src && dest.buf != src.buf && num1 <= numbits == dest.len - dest.pos == |bits|
    requires dest.Valid() && dest.pos <= dest.len && src.pos <= src.len <= 8 * src.buf.Length
    requires Codable(bits, num1, patch) && Code(bits, num1, patch) <= src.Ahead()
    modifies dest`pos, dest`clrlen, dest.buf, src`pos
    ensures r == Pass && dest.pos == dest.len && dest.Before() == old(dest.Before()) + bits
  {
    hide AllClear, SameFrom, BitOf, BitsOf, Parts, SumTable, Emit;
    var sum := GetSumTable(numbits - num1, num1, patch);
    var coder := new ArithCoder();
    r := coder.DecompressBits(dest, src, sum, sum[2], bits);
  }

  /** Taking a known prefix off what is ahead. */
  lemma PrefixAhead(first: seq<bool>, rest: seq<bool>, ahead: seq<bool>, n: nat)
    requires first + rest <= ahead && n == |first|
    ensures ahead[..n] == first && rest <= ahead[n..] && n <= |ahead|
  {
    assert (first + rest)[..n] == first;
    assert (first + rest)[n..] == rest;
  }

  method GetNumber(src: BitStream, ghost d: nat, ghost rest: seq<bool>) returns (r: Outcome, n: nat)
    requires src.pos <= src.len <= 8 * src.buf.Length && d < Pow2(32) && Number(d) + rest <= src.Ahead()
    modifies src`pos
    ensures r == Pass && n == d && src.pos <= src.len && rest <= src.Ahead()
  {
    hide BitOf, BitsOf, NatBits, BitsNat, Pow2;
    ghost var ahead := src.Ahead();
    NumberParts(d, rest, ahead);
    var long := false;
    n := 0;
    r, long := src.GetBit();
    if r.Fail? {
      return;
    }
    assert src.Ahead() == ahead[1..];
    r, n := src.GetUInt(if long then 32 else 16);
  }

  lemma NumberParts(d: nat, rest: seq<bool>, ahead: seq<bool>)
    requires d < Pow2(32) && Number(d) + rest <= ahead
    ensures var w := if d <= 0xFFFF then 16 else 32;
            |ahead| >= 1 + w && ahead[0] == (d > 0xFFFF) && BitsNat(ahead[1..][..w]) == d && rest <= ahead[1..][w..]
  {
    hide NatBits, BitsNat, Pow2;
    var w := if d <= 0xFFFF then 16 else 32;
    Pow2Values();
    NatBitsRoundTrip(d, w);
    var flag := [d > 0xFFFF];
    assert Number(d) + rest == flag + (NatBits(d, w) + rest);
    PrefixAhead(flag, NatBits(d, w) + rest, ahead, 1);
    PrefixAhead(NatBits(d, w), rest, ahead[1..], w);
  }

  /** What follows the version. */
  ghost function Body(bits: seq<bool>, num1: nat, differ: bool, patch: bool): seq<bool>
    requires Codable(Coded(bits, differ), Under(bits, num1, differ), patch)
  {
    [differ] + (if differ then Number(Ones(Diffs(bits, false))) else [])
      + Code(Coded(bits, differ), Under(bits, num1, differ), patch)
  }

  method DecompressBody(dest: BitStream, src: BitStream, numbits: nat, num1: nat, patch: bool, ghost bits: seq<bool>,
                        ghost differ: bool)
    returns (r: Outcome)
    requires dest != src && dest.buf != src.buf && numbits == dest.len - dest.pos == |bits| < Pow2(32)
    requires dest.Valid() && dest.pos <= dest.len && src.pos <= src.len <= 8 * src.buf.Length
    requires Codable(Coded(bits, differ), Under(bits, num1, differ), patch)
               && Body(bits, num1, differ, patch) <= src.Ahead()
    modifies dest`pos, dest`clrlen, dest.buf, src`pos
    ensures r == Pass && dest.pos == dest.len && dest.Before() == old(dest.Before()) + bits
  {
    hide AllClear, SameFrom, BitOf, BitsOf, Codable, Code, Diffs, Sums, Ones, Number, Pow2;
    ghost var ahead, d := src.Ahead(), Diffs(bits, false);
    assert Body(bits, num1, differ, patch)[0] == differ;
    assert Body(bits, num1, differ, patch)[1..]
        == if differ then Number(Ones(d)) + Code(d, Ones(d), patch) else Code(bits, num1, patch);
    PrefixAhead([differ], Body(bits, num1, differ, patch)[1..], ahead, 1);
    var isdiff := false;
    r, isdiff := src.GetBit();
    if r.Fail? {
      return;
    }
    assert src.Ahead() == ahead[1..];
    if isdiff {
      r := DecompressDiffs(dest, src, numbits, patch, bits);
    } else {
      CodableCount(bits, num1, patch);
      r := DecompressData(dest, src, numbits, num1, patch, bits);
    }
  }

  lemma CodableCount(bits: seq<bool>, num1: nat, patch: bool)
    requires Codable(bits, num1, patch)
    ensures num1 <= |bits|
  {
  }

  method DecompressDiffs(dest: BitStream, src: BitStream, numbits: nat, patch: bool, ghost bits: seq<bool>)
    returns (r: Outcome)
    requires dest != src && dest.buf != src.buf && numbits == dest.len - dest.pos == |bits| < Pow2(32)
    requires dest.Valid() && dest.pos <= dest.len && src.pos <= src.len <= 8 * src.buf.Length
    requires Codable(Diffs(bits, false), Ones(Diffs(bits, false)), patch)
    requires Number(Ones(Diffs(bits, false))) + Code(Diffs(bits, false), Ones(Diffs(bits, false)), patch) <= src.Ahead()
    modifies dest`pos, dest`clrlen, dest.buf, src`pos
    ensures r == Pass && dest.pos == dest.len && dest.Before() == old(dest.Before()) + bits
  {
    hide AllClear, SameFrom, BitOf, BitsOf, Codable, Code, Diffs, Sums, Ones, Number, Pow2;
    ghost var d := Diffs(bits, false);
    var num1 := 0;
    r, num1 := GetNumber(src, Ones(d), Code(d, Ones(d), patch));
    var tab := new bv8[(numbits + 7) / 8];
    var diff := new BitStream(tab, numbits, 0);
    CodableCount(d, num1, patch);
    r := DecompressData(diff, src, numbits, num1, patch, d);
    if r.Fail? {
      return;
    }
    ghost var text := diff.Before();
    diff.Reset();
    assert diff.Ahead() == text == d;
    SumsUndoDiffs(bits, false);
    r := Integrt(dest, diff);
  }

  /** Decompression undoes compression for either choice of differentiation, in both versions of the
      format as long as the table suits the coder, whatever follows the code. */
  method Decompress(dest: BitStream, src: BitStream, numbits: nat, num1: nat, ghost bits: seq<bool>,
                    ghost differ: bool, ghost patch: bool)
    returns (r: Outcome)
    requires dest != src && dest.buf != src.buf && numbits == dest.len - dest.pos == |bits| < Pow2(32)
    requires dest.Valid() && dest.pos <= dest.len && src.pos <= src.len <= 8 * src.buf.Length
    requires src.Ahead() == [] || src.Ahead() == [true] || [true, true] <= src.Ahead()
             || (Codable(Coded(bits, differ), Under(bits, num1, differ), patch)
               && Packed(bits, num1, differ, patch) <= src.Ahead())
    modifies dest`pos, dest`clrlen, dest.buf, src`pos
    ensures old(src.Ahead()) == [] || old(src.Ahead()) == [true] ==> r == Fail(ERR_BUF)
    ensures [true, true] <= old(src.Ahead()) ==> r == Fail(ERR_VER)
    ensures old(src.Ahead()) != [] && old(src.Ahead()) != [true] && !([true, true] <= old(src.Ahead())) ==>
              r == Pass && dest.pos == dest.len && dest.Before() == old(dest.Before()) + bits
  {
    hide AllClear, SameFrom, BitOf, BitsOf, Codable, Code, Diffs, Sums, Ones, Number, Pow2, Packed, Body;
    ghost var ahead := src.Ahead();
    var known, bit := true, false;
    r, bit := src.GetBit();
    if r.Fail? {
      return;
    }
    if bit {
      r, bit := src.GetBit();
      if r.Fail? {
        return;
      }
      assert src.Ahead() == ahead[2..] && ahead[1] == bit;
      if bit {
        return Fail(ERR_VER);
      }
    } else {
      assert src.Ahead() == ahead[1..] && !ahead[0];
      known := false;
    }
    assert ahead != [true] && !([true, true] <= ahead);
    PackedBody(bits, num1, differ, patch, ahead);
    r := DecompressBody(dest, src, numbits, num1, known, bits, differ);
  }

  lemma PackedBody(bits: seq<bool>, num1: nat, differ: bool, patch: bool, ahead: seq<bool>)
    requires Codable(Coded(bits, differ), Under(bits, num1, differ), patch)
               && Packed(bits, num1, differ, patch) <= ahead
    ensures |ahead| > 2 && ahead[0] == patch && (patch ==> !ahead[1])
    ensures Body(bits, num1, differ, patch) <= ahead[if patch then 2 else 1..]
  {
    hide Codable, Code, Diffs, Ones, Number;
    assert Packed(bits, num1, differ, patch) == Version(patch) + Body(bits, num1, differ, patch);
    CodeLong(Coded(bits, differ), Under(bits, num1, differ), patch);
    PrefixAhead(Version(patch), Body(bits, num1, differ, patch), ahead, |Version(patch)|);
  }

  lemma CodeLong(bits: seq<bool>, num1: nat, patch: bool)
    requires Codable(bits, num1, patch)
    ensures |Code(bits, num1, patch)| >= 2
  {
  }

  /** On whole buffers: `len` is the room in bytes, and afterwards the bytes used. */
  method CompressBuffer(dest: array<bv8>, len: nat, src: array<bv8>, numbits: nat, num1: nat, differ: bool)
    returns (r: Outcome, used: nat)
    requires dest != src && len <= dest.Length && num1 <= numbits <= 8 * src.Length
    requires differ ==> 5 <= len || len < dest.Length
    modifies dest
    ensures numbits == 0 ==> r.Fail?
    ensures 0 < numbits && (differ || Counted(BitsOf(src[..], 0, numbits), num1)) ==>
              var bits := BitsOf(src[..], 0, numbits);
              && Codable(Coded(bits, differ), Under(bits, num1, differ), true)
              && r == (if |Packed(bits, num1, differ, true)| <= 8 * len then Pass else Fail(ERR_BUF))
              && (r.Pass? ==> used <= len && Packed(bits, num1, differ, true) <= BitsOf(dest[..], 0, 8 * used))
  {
    hide AllClear, SameFrom, BitOf, BitsOf, Codable, Code, Diffs, Ones, Counted, Number, Packed;
    var from := new BitStream(src, numbits, 0);
    var to := new BitStream(dest, 8 * len, 0);
    ghost var bits := from.Ahead();
    assert to.Before() == [];
    r := Compress(to, from, numbits, num1, differ);
    used := (to.pos + 7) / 8;
    if 0 < numbits && (differ || Counted(bits, num1)) && r.Pass? {
      var text := Packed(bits, num1, differ, true);
      PackedBody(bits, num1, differ, true, text);
      assert to.Before() == to.Written() == [] + text == text;
      BitsPrefix(dest[..], to.pos, 8 * used);
    }
  }

  lemma BitsPrefix(b: seq<bv8>, m: nat, n: nat)
    requires m <= n <= 8 * |b|
    ensures BitsOf(b, 0, m) <= BitsOf(b, 0, n) && |BitsOf(b, 0, m)| == m
  {
    hide BitOf;
  }

  method DecompressBuffer(dest: array<bv8>, len: nat, src: array<bv8>, numbits: nat, num1: nat, ghost bits: seq<bool>,
                          ghost differ: bool)
    returns (r: Outcome)
    requires dest != src && len <= src.Length && numbits <= 8 * dest.Length && numbits == |bits| < Pow2(32)
    requires Codable(Coded(bits, differ), Under(bits, num1, differ), true)
    requires Packed(bits, num1, differ, true) <= BitsOf(src[..], 0, 8 * len)
    modifies dest
    ensures r == Pass && BitsOf(dest[..], 0, numbits) == bits
  {
    hide AllClear, SameFrom, BitOf, BitsOf, Codable, Code, Diffs, Ones, Counted, Number, Packed, Pow2, Body;
    var from := new BitStream(src, 8 * len, 0);
    var to := new BitStream(dest, numbits, 0);
    assert to.Before() == [];
    PackedBody(bits, num1, differ, true, from.Ahead());
    r := Decompress(to, from, numbits, num1, bits, differ, true);
  }

  /** The identity: what is compressed is decompressed, whatever the two buffers held. */
  method RoundTrip(data: array<bv8>, numbits: nat, num1: nat, packed: array<bv8>, out: array<bv8>, differ: bool)
    returns (r: Outcome)
    requires data != packed && packed != out && data != out && (differ ==> packed.Length >= 5)
    requires 0 < numbits <= 8 * data.Length && numbits <= 8 * out.Length && numbits < Pow2(32)
    requires num1 == Ones(BitsOf(data[..], 0, numbits))
    modifies packed, out
    ensures r.Pass? ==> BitsOf(out[..], 0, numbits) == BitsOf(data[..], 0, numbits)
    ensures old(Codable(Coded(BitsOf(data[..], 0, numbits), differ),
              Under(BitsOf(data[..], 0, numbits), num1, differ), true))
    ensures r.Pass? <==> old(|Packed(BitsOf(data[..], 0, numbits), num1, differ, true)|) <= 8 * packed.Length
  {
    hide AllClear, SameFrom, BitOf, BitsOf, Codable, Code, Diffs, Ones, Counted, Number, Packed, Pow2;
    ghost var bits := BitsOf(data[..], 0, numbits);
    OnesCounted(bits);
    var used := 0;
    r, used := CompressBuffer(packed, packed.Length, data, numbits, num1, differ);
    if r.Pass? {
      r := DecompressBuffer(out, used, packed, numbits, num1, bits, differ);
    }
  }
}
