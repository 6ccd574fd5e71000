/** How text records are joined before they are compressed: in permuted order, each after a zero byte, with
    the bytes 0, 1 and 2 escaped. */
module TextEscapes {
  import opened Arith
  import opened Outcomes
  import opened RangeCoding
  import opened Permutation

  type Records = seq<seq<byte>>

  function Esc(b: byte): (e: seq<byte>)
    ensures 1 <= |e| <= 2 && e[0] != 0
  {
    if b == 0 then [1] else if b == 1 then [2, 1] else if b == 2 then [2, 2] else [b]
  }

  function Escaped(s: seq<byte>): (e: seq<byte>)
    ensures e != [] ==> e[0] != 0
    ensures e == [] <==> s == []
  {
    if s == [] then [] else Esc(s[0]) + Escaped(s[1..])
  }

  /** The records from place p on. */
  function Text(records: Records, p: nat): (e: seq<byte>)
    requires p <= |records|
    ensures e != [] ==> e[0] == 0
    ensures e == [] <==> p == |records|
    decreases |records| - p
  {
    if p == |records| then []
    else [0] + Escaped(records[Perm(p, |records|)]) + Text(records, p + 1)
  }

  function Sizes(records: Records): (f: seq<nat>)
    ensures |f| == |records| && forall i :: 0 <= i < |f| ==> f[i] == |Escaped(records[i])| + 1
  {
    seq(|records|, i requires 0 <= i < |records| => |Escaped(records[i])| + 1)
  }

  lemma {:induction false} TextSize(records: Records, p: nat)
    requires p <= |records| && records != []
    ensures PermSum(Sizes(records), p) + |Text(records, p)| == PermSum(Sizes(records), |records|)
    decreases |records| - p
  {
    hide Perm, Escaped;
    if p < |records| {
      TextSize(records, p + 1);
    }
  }

  /** Record i lies behind those whose place comes before its own. */
  lemma TextAt(records: Records, i: nat)
    requires i < |records|
    ensures var start := PermSum(Sizes(records), Rank(i, |records|));
            start <= |Text(records, 0)| && [0] + Escaped(records[i]) <= Text(records, 0)[start..]
  {
    hide Perm, Rank, Escaped, Text, PermSum;
    var n := |records|;
    WalkIsPermutation(n);
    TextFrom(records, Rank(i, n));
    TextFirst(records, Rank(i, n));
  }

  lemma TextFirst(records: Records, p: nat)
    requires p < |records|
    ensures Text(records, p) == [0] + Escaped(records[Perm(p, |records|)]) + Text(records, p + 1)
  {
    hide Perm, Escaped;
  }

  lemma {:induction false} TextFrom(records: Records, p: nat)
    requires p <= |records| && records != []
    ensures PermSum(Sizes(records), p) <= |Text(records, 0)|
    ensures Text(records, 0)[PermSum(Sizes(records), p)..] == Text(records, p)
  {
    hide Perm, Escaped, Text;
    if p > 0 {
      TextFrom(records, p - 1);
      TextFirst(records, p - 1);
      var all, at := Text(records, 0), PermSum(Sizes(records), p - 1);
      var size := Sizes(records)[Perm(p - 1, |records|)];
      assert all[at..][size..] == all[at + size..];
    }
  }

  lemma {:induction false} EscapedAppend(s: seq<byte>, t: seq<byte>)
    ensures Escaped(s + t) == Escaped(s) + Escaped(t)
  {
    hide Esc, Escaped;
    if s == [] {
      assert s + t == t;
      NothingEscaped();
    } else {
      EscapedAppend(s[1..], t);
      EscapedCons(s);
      EscapedCons(s + t);
      assert (s + t)[1..] == s[1..] + t;
    }
  }

  lemma EscapedCons(s: seq<byte>)
    requires s != []
    ensures Escaped(s) == Esc(s[0]) + Escaped(s[1..])
  {
  }

  lemma EscapedNext(s: seq<byte>, j: nat)
    requires j < |s|
    ensures Escaped(s[..j + 1]) == Escaped(s[..j]) + Esc(s[j])
    ensures Escaped(s[j..]) == Esc(s[j]) + Escaped(s[j + 1..])
    ensures |Escaped(s[..j + 1])| <= |Escaped(s)|
  {
    assert s[..j + 1] == s[..j] + [s[j]];
    EscapedAppend(s[..j], [s[j]]);
    assert [s[j]][1..] == [];
    assert s[j..][1..] == s[j + 1..];
    assert s == s[..j + 1] + s[j + 1..];
    EscapedAppend(s[..j + 1], s[j + 1..]);
  }

  /** An instance of each escape. */
  lemma EscapesAre()
    ensures Escaped([0, 1, 2, 3]) == [1, 2, 1, 2, 2, 3]
  {
    hide Escaped;
    EscapedCons([0, 1, 2, 3]);
    EscapedCons([1, 2, 3]);
    EscapedCons([2, 3]);
    EscapedCons([3]);
    NothingEscaped();
    assert [0, 1, 2, 3][1..] == [1, 2, 3] && [1, 2, 3][1..] == [2, 3] && [2, 3][1..] == [3] && [3][1..] == [];
  }

  /** A byte more for each 1 and 2, and no zero byte is left to be taken for a separator. */
  lemma {:induction false} EscapedSize(s: seq<byte>)
    ensures |Escaped(s)| == |s| + multiset(s)[1] + multiset(s)[2] && 0 !in Escaped(s)
  {
    if s != [] {
      EscapedSize(s[1..]);
      assert s == [s[0]] + s[1..];
    }
  }

  /** The first pass: how much memory the joined text takes. */
  method CountMemory(records: Records) returns (mem: nat)
    ensures mem == SumTo(Sizes(records), |records|)
  {
    hide Escaped, Esc;
    mem := 0;
    for i := 0 to |records|
      invariant mem == SumTo(Sizes(records), i)
    {
      var size := CountRecord(records[i]);
      mem := mem + size + 1;
    }
  }

  method CountRecord(s: seq<byte>) returns (size: nat)
    ensures size == |Escaped(s)| == |s| + multiset(s)[1] + multiset(s)[2]
  {
    hide Escaped;
    NothingEscaped();
    EscapedSize(s);
    size := 0;
    for j := 0 to |s|
      invariant size == |Escaped(s[..j])|
    {
      EscapedNext(s, j);
      if s[j] == 1 || s[j] == 2 {
        size := size + 2;
      } else {
        size := size + 1;
      }
    }
    assert s[..|s|] == s;
  }

  lemma NothingEscaped()
    ensures Escaped([]) == []
  {
  }

  method PutRecord(data: array<byte>, at: nat, s: seq<byte>) returns (end: nat)
    requires at + |Escaped(s)| <= data.Length
    modifies data
    ensures end == at + |Escaped(s)| && data[..end] == old(data[..at]) + Escaped(s)
  {
    hide Escaped;
    NothingEscaped();
    end := at;
    for j := 0 to |s|
      invariant end == at + |Escaped(s[..j])| <= data.Length
      invariant data[..end] == old(data[..at]) + Escaped(s[..j])
    {
      EscapedNext(s, j);
      if s[j] > 2 {
        data[end] := s[j];
        end := end + 1;
      } else if s[j] == 0 {
        data[end] := 1;
        end := end + 1;
      } else {
        data[end] := 2;
        data[end + 1] := s[j];
        end := end + 2;
      }
    }
    assert s[..|s|] == s;
  }

  method PutSeparated(data: array<byte>, at: nat, s: seq<byte>) returns (end: nat)
    requires at + 1 + |Escaped(s)| <= data.Length
    modifies data
    ensures end == at + 1 + |Escaped(s)| && data[..end] == old(data[..at]) + ([0] + Escaped(s))
  {
    hide Escaped;
    data[at] := 0;
    assert data[..at + 1] == old(data[..at]) + [0];
    end := PutRecord(data, at + 1, s);
  }

  /** The joined text exactly fills the memory counted for it, although that was summed in another order, and
      the walk is back at the first record. */
  method JoinRecords(records: Records) returns (data: array<byte>)
    requires records != []
    ensures data[..] == Text(records, 0)
  {
    hide Escaped, Perm, Text;
    var n := |records|;
    var mem := CountMemory(records);
    SameSum(Sizes(records));
    TextSize(records, 0);
    PermSumStart(Sizes(records));
    PermStart(n);
    data := new byte[mem];
    var sdata: nat, i: nat := 0, 0;
    for p := 0 to n
      invariant i == Perm(p, n) && data.Length == mem && sdata + |Text(records, p)| == mem
      invariant data[..sdata] + Text(records, p) == Text(records, 0)
    {
      TextNext(records, p);
      sdata := PutSeparated(data, sdata, records[i]);
      PermStep(p + 1, n);
      i := PermNext(i, n);
    }
    WalkIsPermutation(n);
    TextEnd(records);
    assert sdata == mem && i == 0;
    assert data[..] == data[..sdata];
  }

  lemma PermSumStart(f: seq<nat>)
    requires 0 < |f|
    ensures PermSum(f, 0) == 0
  {
  }

  lemma PermStart(n: nat)
    requires n > 0
    ensures Perm(0, n) == 0
  {
  }

  lemma TextNext(records: Records, p: nat)
    requires p < |records|
    ensures Text(records, p) == [0] + Escaped(records[Perm(p, |records|)]) + Text(records, p + 1)
  {
  }

  lemma TextEnd(records: Records)
    ensures Text(records, |records|) == []
  {
  }

  /** The records before place p, as they are laid out. */
  function Placed(records: Records, p: nat): (s: seq<byte>)
    requires records != []
  {
    if p == 0 then [] else Placed(records, p - 1) + records[Perm(p - 1, |records|)]
  }

  function Current(records: Records, p: nat): seq<byte>
    requires records != []
  {
    if p == 0 then [] else records[Perm(p - 1, |records|)]
  }

  /** The decoder stands at `at`: p separators have been read, and t bytes of the record after the last. */
  ghost predicate At(data: seq<byte>, records: Records, at: nat, p: nat, t: nat) {
    && records != [] && p <= |records| && at <= |data| && t <= |Current(records, p)|
    && data[at..] == Escaped(Current(records, p)[t..]) + Text(records, p)
  }

  lemma AtSeparator(data: seq<byte>, records: Records, at: nat, p: nat, t: nat)
    requires At(data, records, at, p, t) && at < |data| && data[at] == 0
    ensures p < |records| && t == |Current(records, p)| && At(data, records, at + 1, p + 1, 0)
  {
    hide Escaped, Perm, Text;
    assert data[at..][0] == 0;
    EscapedHead(Current(records, p)[t..]);
    TextHead(records, p);
    assert data[at..] == Text(records, p);
    TextNext(records, p);
    assert data[at + 1..] == data[at..][1..];
    assert Current(records, p + 1)[0..] == Current(records, p + 1);
  }

  lemma EscapedHead(s: seq<byte>)
    ensures Escaped(s) == [] <==> s == []
    ensures s != [] ==> Escaped(s)[0] != 0
  {
  }

  lemma TextHead(records: Records, p: nat)
    requires p <= |records|
    ensures Text(records, p) == [] <==> p == |records|
    ensures p < |records| ==> Text(records, p)[0] == 0
  {
  }

  lemma HeadOf(a: seq<byte>, b: seq<byte>)
    requires a + b != []
    ensures (a + b)[0] == if a != [] then a[0] else b[0]
  {
  }

  lemma InsideRecord(data: seq<byte>, records: Records, at: nat, p: nat, t: nat)
    requires At(data, records, at, p, t) && at < |data| && data[at] != 0
    ensures t < |Current(records, p)|
  {
    hide Escaped, Perm, Text, Current;
    var e := Escaped(Current(records, p)[t..]);
    assert data[at..][0] != 0;
    TextHead(records, p);
    EscapedHead(Current(records, p)[t..]);
    HeadOf(e, Text(records, p));
  }

  lemma AtByte(data: seq<byte>, records: Records, at: nat, p: nat, t: nat)
    requires At(data, records, at, p, t) && at < |data| && data[at] != 0
    ensures t < |Current(records, p)|
    ensures var b := Current(records, p)[t];
            && (data[at] > 2 ==> b == data[at] && At(data, records, at + 1, p, t + 1))
            && (data[at] == 1 ==> b == 0 && At(data, records, at + 1, p, t + 1))
            && (data[at] == 2 ==> at + 1 < |data| && (data[at + 1] == 1 || data[at + 1] == 2) && b == data[at + 1]
                                  && At(data, records, at + 2, p, t + 1))
  {
    hide Escaped, Perm, Text, Current;
    var rec := Current(records, p);
    InsideRecord(data, records, at, p, t);
    EscapedNext(rec, t);
    var e, rest := Esc(rec[t]), Escaped(rec[t + 1..]) + Text(records, p);
    assert data[at..] == e + rest;
    assert data[at + |e|..] == data[at..][|e|..] == rest;
    assert data[at..][|e| - 1] == data[at + |e| - 1];
  }

  lemma AtEnd(data: seq<byte>, records: Records, p: nat, t: nat)
    requires At(data, records, |data|, p, t)
    ensures p == |records| && t == |Current(records, p)|
  {
    hide Escaped, Perm, Text, Current;
    TextHead(records, p);
    EscapedHead(Current(records, p)[t..]);
  }

  lemma {:induction false} PlacedGrows(records: Records, p: nat, q: nat)
    requires records != [] && p <= q
    ensures Placed(records, p) <= Placed(records, q)
    decreases q
  {
    hide Perm;
    if p < q {
      PlacedGrows(records, p, q - 1);
    }
  }

  /** Record i lies at its place in the layout. */
  lemma RecordAt(records: Records, i: nat)
    requires i < |records|
    ensures var p, all := Rank(i, |records|), Placed(records, |records|);
            && p < |records| && |Placed(records, p)| + |records[i]| <= |all|
            && all[|Placed(records, p)|..][..|records[i]|] == records[i]
  {
    hide Perm, Rank;
    var p := Rank(i, |records|);
    WalkIsPermutation(|records|);
    PlacedGrows(records, p + 1, |records|);
    var all := Placed(records, |records|);
    var k := |Placed(records, p)|;
    assert Placed(records, p + 1) == Placed(records, p) + records[i];
    assert all[..|Placed(records, p + 1)|] == Placed(records, p + 1);
    assert all[k..][..|records[i]|] == all[..k + |records[i]|][k..];
  }

  /** The index entries set so far point at their records. */
  ghost predicate Indexed(index: seq<nat>, records: Records, p: nat)
    requires records != [] && |index| == |records|
  {
    forall q :: 0 <= q < p ==> index[Perm(q, |records|)] == |Placed(records, q)|
  }

  lemma IndexedNext(index: seq<nat>, records: Records, p: nat, at: nat)
    requires records != [] && |index| == |records| && p < |records| && Indexed(index, records, p)
               && at == |Placed(records, p)|
    ensures Indexed(index[Perm(p, |records|) := at], records, p + 1)
  {
    hide Perm, Rank, Placed;
    WalkIsPermutation(|records|);
  }

  /** What has been written: whole records, and the first t bytes of the current one. */
  ghost predicate Laid(dest: seq<byte>, records: Records, p: nat, t: nat)
    requires records != [] && t <= |Current(records, p)|
  {
    dest == (if p == 0 then [] else Placed(records, p - 1)) + Current(records, p)[..t]
  }

  lemma LaidWhole(dest: seq<byte>, records: Records, p: nat)
    requires records != [] && Laid(dest, records, p, |Current(records, p)|)
    ensures dest == Placed(records, p)
    ensures Laid(dest, records, p + 1, 0)
  {
    hide Perm;
    assert Current(records, p)[..|Current(records, p)|] == Current(records, p);
  }

  lemma LaidByte(dest: seq<byte>, records: Records, p: nat, t: nat)
    requires records != [] && p <= |records| && t < |Current(records, p)| && Laid(dest, records, p, t)
    ensures Laid(dest + [Current(records, p)[t]], records, p, t + 1)
    ensures |dest| < |Placed(records, |records|)|
  {
    hide Perm;
    var rec := Current(records, p);
    assert rec[..t + 1] == rec[..t] + [rec[t]];
    PlacedGrows(records, p, |records|);
  }

  /** Splitting undoes joining: with room for all records, each index entry points at the bytes of its
      record; without, the call fails. On other input it fails or not, but writes only where it may. */
  method SplitRecords(data: seq<byte>, dest: array<byte>, dlen: nat, index: array<nat>, ghost records: Records)
    returns (r: Outcome)
    requires dlen <= dest.Length && index.Length > 0
    modifies dest, index
    ensures dest[dlen..] == old(dest[dlen..])
    ensures records != [] && |records| == index.Length && data == Text(records, 0) ==>
              && r == (if |Placed(records, |records|)| <= dlen then Pass else Fail(ERR_BUF))
              && (r.Pass? ==> forall i :: 0 <= i < |records| ==>
                                index[i] + |records[i]| <= dlen
                                  && dest[index[i]..index[i] + |records[i]|] == records[i])
  {
    hide Perm, Placed, Text, Current, At, Laid, Indexed;
    var n := index.Length;
    ghost var good := records != [] && |records| == n && data == Text(records, 0);
    ghost var p, t := 0, 0;
    if good {
      Start(data, records);
    }
    var i: nat, pdat: nat, pdst: nat := 0, 0, 0;
    while pdat < |data|
      invariant i < n && pdat <= |data| && pdst <= dlen && dest[dlen..] == old(dest[dlen..])
      invariant good ==> p <= n && i == Perm(p, n) && At(data, records, pdat, p, t)
      invariant good ==>
                  t <= |Current(records, p)| && Laid(dest[..pdst], records, p, t) && Indexed(index[..], records, p)
    {
      var s := data[pdat];
      if s == 0 {
        if good {
          AtSeparator(data, records, pdat, p, t);
          LaidWhole(dest[..pdst], records, p);
          IndexedNext(index[..], records, p, pdst);
          PermStep(p + 1, n);
        }
        ghost var before := index[..];
        index[i] := pdst;
        assert index[..] == before[i := pdst];
        i := PermNext(i, n);
        pdat := pdat + 1;
        p, t := p + 1, 0;
      } else {
        if good {
          AtByte(data, records, pdat, p, t);
          LaidByte(dest[..pdst], records, p, t);
        }
        if pdst >= dlen {
          return Fail(ERR_BUF);
        }
        pdat := pdat + 1;
        if s == 1 {
          s := 0;
        } else if s == 2 {
          if pdat >= |data| || (data[pdat] != 1 && data[pdat] != 2) {
            return Fail(ERR_OTH);
          }
          s := data[pdat];
          pdat := pdat + 1;
        }
        ghost var before := dest[..pdst];
        dest[pdst] := s;
        pdst := pdst + 1;
        assert dest[..pdst] == before + [s];
        t := t + 1;
      }
    }
    if good {
      AtEnd(data, records, p, t);
      LaidWhole(dest[..pdst], records, p);
      WalkIsPermutation(n);
      AllIndexed(index[..], records, dest[..pdst]);
    }
    r := if i != 0 then Fail(ERR_OTH) else Pass;
  }

  lemma Start(data: seq<byte>, records: Records)
    requires records != [] && data == Text(records, 0)
    ensures Perm(0, |records|) == 0 && At(data, records, 0, 0, 0) && |Current(records, 0)| == 0
    ensures Laid([], records, 0, 0)
    ensures forall index: seq<nat> :: |index| == |records| ==> Indexed(index, records, 0)
  {
    assert data[0..] == data;
  }

  lemma AllIndexed(index: seq<nat>, records: Records, dest: seq<byte>)
    requires records != [] && |index| == |records| && Indexed(index, records, |records|)
               && dest == Placed(records, |records|)
    ensures forall i :: 0 <= i < |records| ==>
              index[i] + |records[i]| <= |dest| && dest[index[i]..index[i] + |records[i]|] == records[i]
  {
    hide Perm, Rank, Placed;
    WalkIsPermutation(|records|);
    forall i | 0 <= i < |records|
      ensures index[i] + |records[i]| <= |dest| && dest[index[i]..index[i] + |records[i]|] == records[i]
    {
      RecordAt(records, i);
      assert index[Perm(Rank(i, |records|), |records|)] == |Placed(records, Rank(i, |records|))|;
      assert dest[index[i]..][..|records[i]|] == dest[index[i]..index[i] + |records[i]|];
    }
  }
}
