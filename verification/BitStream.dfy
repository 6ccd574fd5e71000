/** Bit streams over a byte buffer. The buffer may hold anything at first: bits are cleared some way
    ahead of the position, and only then set. */
module BitStreams {
  import opened Arith
  import opened Outcomes

  /** A shift count as a byte. */
  function Count(k: nat): (c: bv8)
    requires k <= 8
    ensures c <= 8
  {
    if k == 0 then 0 else if k == 1 then 1 else if k == 2 then 2 else if k == 3 then 3 else if k == 4 then 4
    else if k == 5 then 5 else if k == 6 then 6 else if k == 7 then 7 else 8
  }

  lemma CountOrder(j: nat, k: nat)
    requires j <= 8 && k <= 8
    ensures j < k <==> Count(j) < Count(k)
    ensures j <= k ==> Count(k - j) == Count(k) - Count(j)
  {
  }

  /** Bits are counted from the least significant. */
  predicate Bit(x: bv8, k: nat)
    requires k < 8
  {
    (x >> Count(k)) & 1 == 1
  }

  /** The same facts first on words, for any shift counts. */
  lemma WordSetBit(x: bv8, i: bv8, j: bv8)
    requires i < 8 && j < 8
    ensures ((x | (1 << i)) >> j) & 1 == if i == j then 1 else (x >> j) & 1
  {
  }

  lemma WordClearHigh(x: bv8, m: bv8, j: bv8)
    requires m < 8 && j < 8
    ensures (((x << (8 - m)) >> (8 - m)) >> j) & 1 == if m <= j then 0 else (x >> j) & 1
  {
  }

  lemma WordClearLow(x: bv8, m: bv8, j: bv8)
    requires m < 8 && j < 8
    ensures (((x >> m) << m) >> j) & 1 == if j < m then 0 else (x >> j) & 1
  {
  }

  lemma WordClearBetween(x: bv8, m: bv8, n: bv8, j: bv8)
    requires m < n < 8 && j < 8
    ensures var t := ((x >> m) << (m + (8 - n))) >> (8 - n);
            ((x - t) >> j) & 1 == if m <= j < n then 0 else (x >> j) & 1
  {
  }

  lemma WordOrShifted(x: bv8, b: bv8, m: bv8, j: bv8)
    requires m < 8 && j < 8
    ensures ((x | (b << m)) >> j) & 1 == if j < m then (x >> j) & 1 else ((x >> j) | (b >> (j - m))) & 1
    ensures 0 < m ==>
              ((x | (b >> (8 - m))) >> j) & 1 == if j < m then ((x >> j) | (b >> (j + (8 - m)))) & 1 else (x >> j) & 1
  {
  }

  function SetBit(x: bv8, m: nat): bv8
    requires m < 8
  {
    x | (1 << Count(m))
  }

  /** Clears the bits from m up, below m, and from m up to n. */
  function KeepLow(x: bv8, m: nat): bv8
    requires m < 8
  {
    (x << (8 - Count(m))) >> (8 - Count(m))
  }

  function KeepHigh(x: bv8, m: nat): bv8
    requires m < 8
  {
    (x >> Count(m)) << Count(m)
  }

  function KeepOutside(x: bv8, m: nat, n: nat): bv8
    requires m < n < 8
  {
    CountOrder(m, n);
    var t := ((x >> Count(m)) << (Count(m) + (8 - Count(n)))) >> (8 - Count(n));
    x - t
  }

  lemma ByteBits(x: bv8, m: nat, j: nat)
    requires m < 8 && j < 8
    ensures Bit(SetBit(x, m), j) <==> j == m || Bit(x, j)
    ensures Bit(KeepLow(x, m), j) <==> j < m && Bit(x, j)
    ensures Bit(KeepHigh(x, m), j) <==> m <= j && Bit(x, j)
  {
    hide Count;
    CountOrder(j, m);
    CountOrder(m, j);
    CountOrder(m, 8);
    CountOrder(j, 8);
    CountOfEight();
    WordSetBit(x, Count(m), Count(j));
    WordClearHigh(x, Count(m), Count(j));
    WordClearLow(x, Count(m), Count(j));
  }

  lemma CountOfEight()
    ensures Count(8) == 8
  {
  }

  lemma OutsideBits(x: bv8, m: nat, n: nat, j: nat)
    requires m < n < 8 && j < 8
    ensures Bit(KeepOutside(x, m, n), j) <==> !(m <= j < n) && Bit(x, j)
  {
    hide Count;
    CountOrder(j, m);
    CountOrder(j, n);
    CountOrder(m, n);
    CountOrder(j, 8);
    CountOrder(n, 8);
    CountOfEight();
    WordClearBetween(x, Count(m), Count(n), Count(j));
  }

  /** Bit i of a buffer. */
  ghost predicate BitOf(b: seq<bv8>, i: nat)
    requires i < 8 * |b|
  {
    Bit(b[i / 8], i % 8)
  }

  ghost predicate SameFrom(from: nat, was: seq<bv8>, now: seq<bv8>) {
    |now| == |was| && forall i :: from <= i < 8 * |was| ==> BitOf(now, i) == BitOf(was, i)
  }

  ghost predicate AllClear(b: seq<bv8>, from: nat, to: nat)
    requires to <= 8 * |b|
  {
    forall i :: from <= i < to ==> !BitOf(b, i)
  }

  ghost function BitsOf(b: seq<bv8>, from: nat, to: nat): (s: seq<bool>)
    requires from <= to <= 8 * |b|
    ensures |s| == to - from
    ensures forall k :: 0 <= k < |s| ==> s[k] == BitOf(b, from + k)
  {
    seq(to - from, k requires 0 <= k < to - from => BitOf(b, from + k))
  }

  /** Setting a bit, or leaving it, in a stretch that is clear. */
  lemma OneBitPut(was: seq<bv8>, now: seq<bv8>, len: nat, clrlen: nat, pos: nat, b: bool)
    requires pos < clrlen <= len <= 8 * |was| && AllClear(was, pos, clrlen)
    requires now == if b then was[pos / 8 := SetBit(was[pos / 8], pos % 8)] else was
    ensures AllClear(now, pos + 1, clrlen) && SameFrom(len, was, now)
    ensures BitsOf(now, 0, pos + 1) == BitsOf(was, 0, pos) + [b]
  {
    hide BitOf;
    forall i | 0 <= i < 8 * |was|
      ensures BitOf(now, i) <==> (i == pos && b) || BitOf(was, i)
    {
      OneBitAt(was, pos, i);
    }
  }

  lemma OneBitAt(was: seq<bv8>, pos: nat, i: nat)
    requires pos < 8 * |was| && i < 8 * |was|
    ensures BitOf(was[pos / 8 := SetBit(was[pos / 8], pos % 8)], i) <==> i == pos || BitOf(was, i)
  {
    ByteBits(was[i / 8], pos % 8, i % 8);
  }

  class BitStream {
    const buf: array<bv8>
    var len: nat
    var pos: nat
    var clrlen: nat

    constructor (buf: array<bv8>, len: nat, pos: nat)
      requires len <= 8 * buf.Length
      ensures this.buf == buf && this.len == len && this.pos == pos && Valid()
    {
      this.buf, this.len, this.pos, clrlen := buf, len, pos, 0;
    }

    /** Starts over at the beginning, with nothing cleared. */
    method Reset()
      requires len <= 8 * buf.Length
      modifies this`pos, this`clrlen
      ensures pos == 0 && Valid()
    {
      pos, clrlen := 0, 0;
    }

    method SetPos(p: nat)
      modifies this`pos
      ensures pos == p
    {
      pos := p;
    }

    /** Bits between the position and clrlen are clear. */
    ghost predicate Valid()
      reads this, buf
    {
      clrlen <= len <= 8 * buf.Length && AllClear(buf[..], pos, clrlen)
    }

    /** Exactly the bits from beg to end - 1 are cleared. */
    method ZeroBits(beg: nat, end: nat)
      requires beg <= end <= 8 * buf.Length
      modifies buf
      ensures forall i :: 0 <= i < 8 * buf.Length ==>
                (BitOf(buf[..], i) <==> !(beg <= i < end) && old(BitOf(buf[..], i)))
    {
      var byte1, byte2, bit1, bit2 := beg / 8, end / 8, beg % 8, end % 8;
      ghost var was := buf[..];
      if byte1 < byte2 {
        buf[byte1] := KeepLow(buf[byte1], bit1);
        if bit2 != 0 {
          buf[byte2] := KeepHigh(buf[byte2], bit2);
        }
        var k := byte1 + 1;
        while k < byte2
          invariant byte1 < k <= byte2
          invariant forall m :: 0 <= m < buf.Length ==>
                      buf[m] == if m == byte1 then KeepLow(was[m], bit1)
                                else if m == byte2 && bit2 != 0 then KeepHigh(was[m], bit2)
                                else if byte1 < m < k then 0 else was[m]
        {
          buf[k] := 0;
          k := k + 1;
        }
        forall i | 0 <= i < 8 * buf.Length
          ensures BitOf(buf[..], i) <==> !(beg <= i < end) && BitOf(was, i)
        {
          ByteBits(was[i / 8], bit1, i % 8);
          ByteBits(was[i / 8], bit2, i % 8);
          ZeroByte(i % 8);
        }
      } else if beg < end {
        buf[byte1] := KeepOutside(buf[byte1], bit1, bit2);
        forall i | 0 <= i < 8 * buf.Length
          ensures BitOf(buf[..], i) <==> !(beg <= i < end) && BitOf(was, i)
        {
          OutsideBits(was[i / 8], bit1, bit2, i % 8);
        }
      }
    }

    /** The bits behind the position, and those ahead of it. */
    ghost function Before(): seq<bool>
      requires pos <= 8 * buf.Length
      reads this, buf
    {
      BitsOf(buf[..], 0, pos)
    }

    /** The bits put into the buffer; none once the position has run past it. */
    ghost function Written(): seq<bool>
      reads this, buf
    {
      if pos <= 8 * buf.Length then Before() else []
    }

    ghost function Ahead(): seq<bool>
      requires pos <= len <= 8 * buf.Length
      reads this, buf
    {
      BitsOf(buf[..], pos, len)
    }

    method ClearBits() returns (r: Outcome)
      requires len <= 8 * buf.Length
      modifies this`clrlen, buf
      ensures r == if pos < len then Pass else Fail(ERR_BUF)
      ensures r.Pass? ==> Valid() && pos < clrlen && (clrlen == len || pos + 8 <= clrlen)
      ensures r.Fail? ==> clrlen == len && buf[..] == old(buf[..])
      ensures forall i :: 0 <= i < 8 * buf.Length && !(pos <= i < len) ==> BitOf(buf[..], i) == old(BitOf(buf[..], i))
    {
      clrlen := (2 * pos + 64) / 8 * 8;
      if clrlen <= pos || clrlen > len {
        clrlen := len;
      }
      if clrlen <= pos {
        return Fail(ERR_BUF);
      }
      ZeroBits(pos, clrlen);
      return Pass;
    }

    /** Whatever the buffer held, a put appends its bit to the bits before and leaves the rest of the buffer
        beyond len alone; it fails exactly at the end. */
    method PutBit(b: bool) returns (r: Outcome)
      requires Valid()
      modifies this`pos, this`clrlen, buf
      ensures Valid()
      ensures r == if old(pos) < len then Pass else Fail(ERR_BUF)
      ensures r.Pass? ==> pos == old(pos) + 1 && Before() == old(Before()) + [b]
      ensures r.Fail? ==> pos == old(pos)
      ensures SameFrom(len, old(buf[..]), buf[..])
    {
      hide BitOf;
      if pos >= clrlen {
        :- ClearBits();
      }
      ghost var was := buf[..];
      if b {
        buf[pos / 8] := SetBit(buf[pos / 8], pos % 8);
      }
      assert buf[..] == if b then was[pos / 8 := SetBit(was[pos / 8], pos % 8)] else was;
      OneBitPut(was, buf[..], len, clrlen, pos, b);
      pos := pos + 1;
      return Pass;
    }

    method GetBit() returns (r: Outcome, b: bool)
      requires len <= 8 * buf.Length
      modifies this`pos
      ensures r == if old(pos) < len then Pass else Fail(ERR_BUF)
      ensures r.Pass? ==> pos == old(pos) + 1 && old(Ahead()) == [b] + Ahead()
      ensures r.Fail? ==> pos == old(pos)
    {
      if pos >= len {
        return Fail(ERR_BUF), false;
      }
      b := Bit(buf[pos / 8], pos % 8);
      pos := pos + 1;
      return Pass, b;
    }

    /** The eight bits at the position, cleared before, become the byte's. */
    method PlaceByte(b: bv8)
      requires pos + 8 <= 8 * buf.Length
      modifies buf
      ensures Landed(old(buf[..]), buf[..], b, pos)
    {
      hide Landed, OrLow, OrHigh, Bit, Count, BitOf;
      var p, k := pos / 8, pos % 8;
      ghost var was := buf[..];
      if k != 0 {
        buf[p] := OrLow(buf[p], b, k);
        buf[p + 1] := OrHigh(buf[p + 1], b, k);
        assert buf[..] == was[p := OrLow(was[p], b, k)][p + 1 := OrHigh(was[p + 1], b, k)];
      } else {
        buf[p] := b;
        assert buf[..] == was[p := b];
      }
      ByteLanded(was, buf[..], b, pos);
    }

    /** A byte goes in low bit first. Only its first bit is checked against the end: with fewer than 8 bits
        left the call still passes and runs past len, which the next put then notices. */
    method PutByte(b: bv8) returns (r: Outcome)
      requires Valid() && (pos < len ==> pos + 8 <= 8 * buf.Length)
      modifies this`pos, this`clrlen, buf
      ensures Valid()
      ensures r == if old(pos) < len then Pass else Fail(ERR_BUF)
      ensures r.Pass? ==> pos == old(pos) + 8
      ensures r.Fail? ==> pos == old(pos)
      ensures old(pos) + 8 <= len ==> Before() == old(Before()) + BitsOfByte(b)
    {
      hide Bit, BitOf, BitsOfByte;
      if pos + 7 >= clrlen {
        :- ClearBits();
      }
      ghost var was := buf[..];
      PlaceByte(b);
      if pos + 8 <= len {
        BitsAppended(was, buf[..], b, pos);
      }
      pos := pos + 8;
      return Pass;
    }

    method GetByte() returns (r: Outcome, b: bv8)
      requires len <= 8 * buf.Length
      modifies this`pos
      ensures r == if old(pos) + 8 <= len then Pass else Fail(ERR_BUF)
      ensures r.Pass? ==> pos == old(pos) + 8 && old(Ahead()) == BitsOfByte(b) + Ahead()
      ensures r.Fail? ==> pos == old(pos)
    {
      hide Bit, BitOf, BitsOfByte;
      if pos + 7 >= len {
        return Fail(ERR_BUF), 0;
      }
      b := TakeByte();
      ByteTaken(buf[..], b, pos, len);
      pos := pos + 8;
      return Pass, b;
    }

    method TakeByte() returns (b: bv8)
      requires pos + 8 <= 8 * buf.Length
      ensures forall j :: 0 <= j < 8 ==> Bit(b, j) == BitOf(buf[..], pos + j)
    {
      hide Bit, TwoPart, BitOf;
      var p, k := pos / 8, pos % 8;
      if k != 0 {
        b := TwoPart(buf[p], buf[p + 1], k);
      } else {
        b := buf[p];
      }
      forall j | 0 <= j < 8
        ensures Bit(b, j) == BitOf(buf[..], pos + j)
      {
        BitTaken(buf[..], b, pos, j);
      }
    }

    /** A number goes in low bit first, whole bytes while they last. */
    method PutUInt(n: nat, bits: nat) returns (r: Outcome)
      requires Valid() && bits <= 32
      requires pos + bits <= len || len + 7 <= 8 * buf.Length
      modifies this`pos, this`clrlen, buf
      ensures Valid()
      ensures r.Pass? ==> pos == old(pos) + bits
      ensures r.Fail? ==> r == Fail(ERR_BUF)
      ensures old(pos) <= 8 * buf.Length ==> pos <= 8 * buf.Length
      ensures old(pos) + bits <= len ==> r.Pass? && Before() == old(Before()) + NatBits(n, bits)
    {
      hide Pow2, NatBits, Shr, BitOf, Bit, AllClear;
      var i := 0;
      NoBits(n);
      while bits - i >= 8
        invariant Valid() && i <= bits && pos == old(pos) + i
        invariant old(pos) <= 8 * buf.Length ==> pos <= 8 * buf.Length
        invariant pos <= len ==> Before() == old(Before()) + NatBits(n, i)
      {
        :- PutEight(Shr(n, i));
        NatBitsSplit(n, i, 8);
        i := i + 8;
      }
      while i < bits
        invariant Valid() && i <= bits && pos == old(pos) + i
        invariant old(pos) <= 8 * buf.Length ==> pos <= 8 * buf.Length
        invariant pos <= len ==> Before() == old(Before()) + NatBits(n, i)
      {
        :- PutBit(Shr(n, i) % 2 == 1);
        NatBitsSplit(n, i, 1);
        OneBit(Shr(n, i));
        i := i + 1;
      }
      return Pass;
    }

    method PutEight(n: nat) returns (r: Outcome)
      requires Valid() && (pos < len ==> pos + 8 <= 8 * buf.Length)
      modifies this`pos, this`clrlen, buf
      ensures Valid()
      ensures r == if old(pos) < len then Pass else Fail(ERR_BUF)
      ensures r.Pass? ==> pos == old(pos) + 8
      ensures r.Fail? ==> pos == old(pos)
      ensures old(pos) + 8 <= len ==> Before() == old(Before()) + NatBits(n, 8)
    {
      hide BitOf, Bit, AllClear;
      var b := ByteOf(NatBits(n, 8));
      r := PutByte(b);
    }

    method GetUInt(bits: nat) returns (r: Outcome, n: nat)
      requires len <= 8 * buf.Length && bits <= 32
      modifies this`pos
      ensures old(pos) <= len ==> r == if old(pos) + bits <= len then Pass else Fail(ERR_BUF)
      ensures old(pos) <= len && r.Pass? ==>
                pos == old(pos) + bits && n == BitsNat(old(Ahead())[..bits]) && Ahead() == old(Ahead())[bits..]
    {
      hide Pow2, BitsNat, BitOf, BitsOf;
      n := 0;
      NothingRead();
      var i := 0;
      ghost var all := if pos <= len then Ahead() else [];
      while bits - i >= 8
        invariant i <= bits && pos == old(pos) + i
        invariant pos <= len ==> i <= |all| && Ahead() == all[i..] && n == BitsNat(all[..i])
        invariant old(pos) <= len ==> pos <= len
      {
        r, n := GetEight(i, n, all);
        if r.Fail? {
          return;
        }
        i := i + 8;
      }
      while i < bits
        invariant i <= bits && pos == old(pos) + i
        invariant pos <= len ==> i <= |all| && Ahead() == all[i..] && n == BitsNat(all[..i])
        invariant old(pos) <= len ==> pos <= len
      {
        r, n := GetOne(i, n, all);
        if r.Fail? {
          return;
        }
        i := i + 1;
      }
      r := Pass;
    }

    /** One more group of a number whose first i bits are n. */
    method GetEight(i: nat, n: nat, ghost all: seq<bool>) returns (r: Outcome, m: nat)
      requires len <= 8 * buf.Length
      requires pos <= len ==> i <= |all| && Ahead() == all[i..] && n == BitsNat(all[..i])
      modifies this`pos
      ensures r == if old(pos) + 8 <= len then Pass else Fail(ERR_BUF)
      ensures r.Pass? ==> pos == old(pos) + 8 && i + 8 <= |all| && Ahead() == all[i + 8..] && m == BitsNat(all[..i + 8])
    {
      hide Pow2, BitsNat, Shl, BitOf, Bit, BitsOf;
      var v: bv8;
      m := n;
      r, v := GetByte();
      if r.Pass? {
        Took(all, i, BitsOfByte(v), Ahead());
        m := n + Shl(BitsNat(BitsOfByte(v)), i);
      }
    }

    method GetOne(i: nat, n: nat, ghost all: seq<bool>) returns (r: Outcome, m: nat)
      requires len <= 8 * buf.Length
      requires pos <= len ==> i <= |all| && Ahead() == all[i..] && n == BitsNat(all[..i])
      modifies this`pos
      ensures r == if old(pos) < len then Pass else Fail(ERR_BUF)
      ensures r.Pass? ==> pos == old(pos) + 1 && i + 1 <= |all| && Ahead() == all[i + 1..] && m == BitsNat(all[..i + 1])
    {
      hide Pow2, BitsNat, Shl, BitOf, Bit, BitsOf;
      var b: bool;
      m := n;
      r, b := GetBit();
      if r.Pass? {
        Took(all, i, [b], Ahead());
        m := n + Shl(BitsNat([b]), i);
      }
    }
  }

  /** With one bit left before the end, a byte passes and runs seven bits past it. */
  method ByteRunsOver(b: bv8) returns (r: Outcome, s: BitStream)
    ensures r == Pass && s.len == 9 && s.pos == 16
  {
    hide Bit, BitOf, AllClear;
    var buf := new bv8[2];
    s := new BitStream(buf, 9, 8);
    r := s.PutByte(b);
  }

  /** The lowest bits of a number, lowest first, and the number that bits make. */
  function NatBits(n: nat, w: nat): (b: seq<bool>)
    ensures |b| == w
  {
    if w == 0 then [] else [n % 2 == 1] + NatBits(n / 2, w - 1)
  }

  function BitsNat(b: seq<bool>): nat {
    if b == [] then 0 else (if b[0] then 1 else 0) + 2 * BitsNat(b[1..])
  }

  /** The bits of a number, from the least significant. */
  lemma {:induction false} NatBitsAt(n: nat, w: nat, i: nat)
    requires i < w
    ensures NatBits(n, w)[i] <==> n / Pow2(i) % 2 == 1
  {
    hide Pow2;
    if i == 0 {
      Pow2Values();
    } else {
      NatBitsAt(n / 2, w - 1, i - 1);
      Pow2Double(i - 1);
      QuotientOfQuotient(n, 2, Pow2(i - 1));
    }
  }

  lemma {:induction false} NatBitsRoundTrip(n: nat, w: nat)
    requires n < Pow2(w)
    ensures BitsNat(NatBits(n, w)) == n
  {
    if w > 0 {
      NatBitsRoundTrip(n / 2, w - 1);
      assert NatBits(n, w)[1..] == NatBits(n / 2, w - 1);
    }
  }

  lemma NothingRead()
    ensures BitsNat([]) == 0
  {
  }

  lemma NoBits(n: nat)
    ensures NatBits(n, 0) == []
  {
  }

  lemma OneBit(n: nat)
    ensures NatBits(n, 1) == [n % 2 == 1]
  {
    assert NatBits(n / 2, 0) == [];
  }

  lemma {:induction false} NatBitsSplit(n: nat, i: nat, j: nat)
    ensures NatBits(n, i + j) == NatBits(n, i) + NatBits(Shr(n, i), j)
    decreases i
  {
    hide Shr;
    if i == 0 {
      ShrZero(n);
    } else {
      NatBitsSplit(n / 2, i - 1, j);
      ShrHalf(n, i);
    }
  }

  lemma ShrZero(n: nat)
    ensures Shr(n, 0) == n
  {
  }

  lemma ShrHalf(n: nat, i: nat)
    requires i > 0
    ensures Shr(n, i) == Shr(n / 2, i - 1)
  {
    HalfThenDivide(n, Pow2(i - 1));
  }

  lemma HalfThenDivide(n: nat, p: nat)
    requires p > 0
    ensures n / (2 * p) == n / 2 / p
  {
    var h, q := n / 2, n / 2 / p;
    assert q * p <= h < q * p + p;
    assert n == 2 * h + n % 2;
    assert 2 * (q * p) == q * (2 * p);
    DivUnique(n, 2 * p, q, n - q * (2 * p));
  }

  lemma {:induction false} BitsNatAppend(a: seq<bool>, b: seq<bool>)
    ensures BitsNat(a + b) == BitsNat(a) + Shl(BitsNat(b), |a|)
  {
    if a == [] {
      assert a + b == b;
    } else {
      BitsNatAppend(a[1..], b);
      assert (a + b)[1..] == a[1..] + b;
      ShlDouble(BitsNat(b), |a|);
    }
  }

  lemma ShlDouble(x: nat, s: nat)
    requires s > 0
    ensures Shl(x, s) == 2 * Shl(x, s - 1)
  {
    assert x * Pow2(s) == 2 * (x * Pow2(s - 1));
  }

  /** Reading on from i: the number grows by what was read. */
  lemma Took(all: seq<bool>, i: nat, first: seq<bool>, rest: seq<bool>)
    requires i <= |all| && all[i..] == first + rest
    ensures i + |first| <= |all| && all[i + |first|..] == rest
    ensures BitsNat(all[..i + |first|]) == BitsNat(all[..i]) + Shl(BitsNat(first), i)
  {
    hide BitsNat, Shl;
    assert |all[i..]| == |first| + |rest|;
    assert all == all[..i] + (first + rest);
    assert all[..i + |first|] == all[..i] + first;
    BitsNatAppend(all[..i], first);
  }

  /** The byte with the given bits. */
  function ByteOf(bits: seq<bool>): (b: bv8)
    requires |bits| == 8
    ensures BitsOfByte(b) == bits
  {
    var b := FirstBits(bits, 8);
    assert BitsOfByte(b) == bits;
    b
  }

  function FirstBits(bits: seq<bool>, k: nat): (b: bv8)
    requires |bits| == 8 && k <= 8
    ensures forall j :: 0 <= j < 8 ==> Bit(b, j) == (j < k && bits[j])
  {
    if k == 0 then ZeroBytes(); 0
    else
      var lower := FirstBits(bits, k - 1);
      SetBitBits(lower, k - 1);
      if bits[k - 1] then SetBit(lower, k - 1) else lower
  }

  lemma ZeroBytes()
    ensures forall j :: 0 <= j < 8 ==> !Bit(0, j)
  {
    forall j | 0 <= j < 8 ensures !Bit(0, j) {
      ZeroByte(j);
    }
  }

  lemma SetBitBits(x: bv8, m: nat)
    requires m < 8
    ensures forall j :: 0 <= j < 8 ==> (Bit(SetBit(x, m), j) <==> j == m || Bit(x, j))
  {
    forall j | 0 <= j < 8 ensures Bit(SetBit(x, m), j) <==> j == m || Bit(x, j) {
      ByteBits(x, m, j);
    }
  }

  lemma BitTaken(buf: seq<bv8>, b: bv8, pos: nat, j: nat)
    requires pos + 8 <= 8 * |buf| && j < 8
    requires b == if pos % 8 == 0 then buf[pos / 8] else TwoPart(buf[pos / 8], buf[pos / 8 + 1], pos % 8)
    ensures Bit(b, j) == BitOf(buf, pos + j)
  {
    hide Bit, TwoPart;
    if pos % 8 != 0 {
      TwoPartBits(buf[pos / 8], buf[pos / 8 + 1], pos % 8, j);
    }
  }

  lemma ByteTaken(buf: seq<bv8>, b: bv8, pos: nat, len: nat)
    requires pos + 8 <= len <= 8 * |buf|
    requires forall j :: 0 <= j < 8 ==> Bit(b, j) == BitOf(buf, pos + j)
    ensures BitsOf(buf, pos, len) == BitsOfByte(b) + BitsOf(buf, pos + 8, len)
  {
    hide Bit, BitOf;
    var x, y := BitsOf(buf, pos, len), BitsOfByte(b) + BitsOf(buf, pos + 8, len);
    forall k | 0 <= k < |x|
      ensures x[k] == y[k]
    {
      if k >= 8 {
        assert pos + k == pos + 8 + (k - 8);
      }
    }
  }

  function BitsOfByte(b: bv8): (s: seq<bool>)
    ensures |s| == 8 && forall k :: 0 <= k < 8 ==> s[k] == Bit(b, k)
  {
    seq(8, k requires 0 <= k < 8 => Bit(b, k))
  }

  function OrLow(x: bv8, b: bv8, k: nat): bv8
    requires k < 8
  {
    x | (b << Count(k))
  }

  function OrHigh(x: bv8, b: bv8, k: nat): bv8
    requires 0 < k < 8
  {
    x | (b >> (8 - Count(k)))
  }

  function TwoPart(x: bv8, y: bv8, k: nat): bv8
    requires 0 < k < 8
  {
    (x >> Count(k)) | (y << (8 - Count(k)))
  }

  lemma WordTwoPart(x: bv8, y: bv8, m: bv8, j: bv8)
    requires 0 < m < 8 && j < 8
    ensures (((x >> m) | (y << (8 - m))) >> j) & 1
            == if j < 8 - m then (x >> (j + m)) & 1 else (y >> (j - (8 - m))) & 1
  {
  }

  lemma TwoPartBits(x: bv8, y: bv8, k: nat, j: nat)
    requires 0 < k < 8 && j < 8
    ensures Bit(TwoPart(x, y, k), j) <==> if j + k < 8 then Bit(x, j + k) else Bit(y, j + k - 8)
  {
    hide Count;
    CountOfEight();
    CountOfZero();
    CountOrder(0, k);
    CountOrder(k, 8);
    CountOrder(j, 8);
    CountOrder(j, 8 - k);
    if j + k < 8 {
      CountOrder(k, j + k);
    } else {
      CountOrder(8 - k, j);
    }
    WordTwoPart(x, y, Count(k), Count(j));
  }

  lemma CountOfZero()
    ensures Count(0) == 0
  {
  }

  lemma OrBits(x: bv8, b: bv8, k: nat, j: nat)
    requires k < 8 && j < 8
    ensures Bit(OrLow(x, b, k), j) <==> Bit(x, j) || (k <= j && Bit(b, j - k))
    ensures 0 < k ==> (Bit(OrHigh(x, b, k), j) <==> Bit(x, j) || (j < k && Bit(b, j + 8 - k)))
  {
    hide Count;
    CountOfEight();
    CountOfZero();
    CountOrder(0, k);
    CountOrder(k, 8);
    CountOrder(j, 8);
    CountOrder(j, k);
    if k <= j {
      CountOrder(k, j);
    } else {
      CountOrder(8 - k, j + 8 - k);
    }
    WordOrShifted(x, b, Count(k), Count(j));
  }

  /** The eight bits at pos are the byte's where they were clear, all other bits stay. */
  ghost predicate Landed(was: seq<bv8>, now: seq<bv8>, b: bv8, pos: nat)
  {
    && |now| == |was| && pos + 8 <= 8 * |was|
    && (forall i :: 0 <= i < 8 * |was| && !(pos <= i < pos + 8) ==> BitOf(now, i) == BitOf(was, i))
    && forall j :: 0 <= j < 8 && !BitOf(was, pos + j) ==> BitOf(now, pos + j) == Bit(b, j)
  }

  lemma ByteLanded(was: seq<bv8>, now: seq<bv8>, b: bv8, pos: nat)
    requires |now| == |was| && pos + 8 <= 8 * |was|
    requires pos % 8 == 0 ==> now == was[pos / 8 := b]
    requires pos % 8 != 0 ==>
               now == was[pos / 8 := OrLow(was[pos / 8], b, pos % 8)]
                         [pos / 8 + 1 := OrHigh(was[pos / 8 + 1], b, pos % 8)]
    ensures Landed(was, now, b, pos)
  {
    hide Bit, BitOf, OrLow, OrHigh;
    forall i | 0 <= i < 8 * |was|
      ensures !(pos <= i < pos + 8) ==> BitOf(now, i) == BitOf(was, i)
      ensures pos <= i < pos + 8 && !BitOf(was, i) ==> BitOf(now, i) == Bit(b, i - pos)
    {
      BitLanded(was, now, b, pos, i);
    }
    forall j | 0 <= j < 8 && !BitOf(was, pos + j)
      ensures BitOf(now, pos + j) == Bit(b, j)
    {
      BitLanded(was, now, b, pos, pos + j);
    }
  }

  lemma BitLanded(was: seq<bv8>, now: seq<bv8>, b: bv8, pos: nat, i: nat)
    requires |now| == |was| && pos + 8 <= 8 * |was| && i < 8 * |was|
    requires pos % 8 == 0 ==> now == was[pos / 8 := b]
    requires pos % 8 != 0 ==>
               now == was[pos / 8 := OrLow(was[pos / 8], b, pos % 8)]
                         [pos / 8 + 1 := OrHigh(was[pos / 8 + 1], b, pos % 8)]
    ensures !(pos <= i < pos + 8) ==> BitOf(now, i) == BitOf(was, i)
    ensures pos <= i < pos + 8 && !BitOf(was, i) ==> BitOf(now, i) == Bit(b, i - pos)
  {
    hide Bit, OrLow, OrHigh;
    if pos % 8 != 0 {
      OrBits(was[i / 8], b, pos % 8, i % 8);
    }
  }

  lemma BitsAppended(was: seq<bv8>, now: seq<bv8>, b: bv8, pos: nat)
    requires Landed(was, now, b, pos)
    requires forall i :: pos <= i < pos + 8 ==> !BitOf(was, i)
    ensures BitsOf(now, 0, pos + 8) == BitsOf(was, 0, pos) + BitsOfByte(b)
  {
    hide Bit, BitOf;
    forall i | pos <= i < pos + 8
      ensures BitOf(now, i) == Bit(b, i - pos)
    {
      assert !BitOf(was, pos + (i - pos));
    }
  }

  lemma ZeroByte(j: nat)
    requires j < 8
    ensures !Bit(0, j)
  {
  }
}
