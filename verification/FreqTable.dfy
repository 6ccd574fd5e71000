/** Frequency tables: keys with counts, each key owning a stretch of counts below the total, and what
    is left over, if anything, owned by the escape symbol. */
module FreqTable {
  import opened RangeCoding
  import opened Uniform

  function Sum(cs: seq<nat>): nat {
    if cs == [] then 0 else Sum(cs[..|cs|-1]) + cs[|cs|-1]
  }

  lemma {:induction false} SumOfPrefix(cs: seq<nat>, i: nat, j: nat)
    requires i <= j <= |cs|
    ensures Sum(cs[..i]) <= Sum(cs[..j])
    decreases j - i
  {
    if i < j {
      SumOfPrefix(cs, i, j - 1);
      assert cs[..j][..j-1] == cs[..j-1];
    }
  }

  lemma {:induction false} SumOfUpdate(cs: seq<nat>, k: nat, x: nat)
    requires k < |cs|
    ensures Sum(cs[k := x]) + cs[k] == Sum(cs) + x
    decreases |cs|
  {
    var n := |cs| - 1;
    if k < n {
      SumOfUpdate(cs[..n], k, x);
      assert cs[k := x][..n] == cs[..n][k := x];
    } else {
      assert cs[k := x][..n] == cs[..n];
    }
  }

  lemma SumOfSnoc(cs: seq<nat>, x: nat)
    ensures Sum(cs + [x]) == Sum(cs) + x
  {
    assert (cs + [x])[..|cs|] == cs;
  }

  lemma {:induction false} SumOfInsert(cs: seq<nat>, p: nat, x: nat)
    requires p <= |cs|
    ensures Sum(cs[..p] + [x] + cs[p..]) == Sum(cs) + x
    decreases |cs|
  {
    var n := |cs|;
    if p == n {
      assert cs[..p] + [x] + cs[p..] == cs + [x];
      SumOfSnoc(cs, x);
    } else {
      var front := cs[..n-1];
      SumOfInsert(front, p, x);
      assert cs[..p] + [x] + cs[p..] == (front[..p] + [x] + front[p..]) + [cs[n-1]];
      SumOfSnoc(front[..p] + [x] + front[p..], cs[n-1]);
    }
  }

  lemma {:induction false} SumAtLeast(cs: seq<nat>, m: nat)
    requires forall i :: 0 <= i < |cs| ==> m <= cs[i]
    ensures m * |cs| <= Sum(cs)
    decreases |cs|
  {
    if cs != [] {
      SumAtLeast(cs[..|cs|-1], m);
    }
  }

  datatype Table = Table(keys: seq<nat>, counts: seq<nat>) {
    ghost predicate Valid(maxkey: nat, total: nat) {
      && |keys| == |counts|
      && (forall i :: 0 <= i < |keys| ==> keys[i] <= maxkey)
      && (forall i, j :: 0 <= i < j < |keys| ==> keys[i] != keys[j])
      && (forall i :: 0 <= i < |counts| ==> 0 < counts[i])
      && (forall i, j :: 0 <= i < j < |counts| ==> counts[j] <= counts[i])
      && Sum(counts) <= total <= 0x1_0000
    }

    /** Where the stretch of key i begins. */
    function Low(i: nat): nat
      requires i <= |counts|
    {
      Sum(counts[..i])
    }

    ghost predicate Owns(i: nat, c: nat)
      requires i < |counts|
    {
      Low(i) <= c < Low(i) + counts[i]
    }

    ghost function Code(i: nat, total: nat): Sym
      requires i < |counts|
    {
      Sym(Low(i), counts[i], total)
    }

    ghost function Escape(total: nat): Sym
      requires Sum(counts) <= total
    {
      Sym(Sum(counts), total - Sum(counts), total)
    }

    /** The symbol for a value: its key's stretch, or the escape. */
    ghost function CodeOf(v: nat, total: nat): (s: Sym)
      requires |keys| == |counts| && Sum(counts) <= total
    {
      if v in keys then Code(Position(keys, v), total) else Escape(total)
    }

    /** The bound under which the count of key i, less one, is saved. */
    function Bound(i: nat): nat
      requires i <= |counts| && forall j :: 0 <= j < |counts| ==> 0 < counts[j]
    {
      if i == 0 then 0xFFFF else counts[i-1] - 1
    }

    lemma LowNext(i: nat)
      requires i < |counts|
      ensures Low(i + 1) == Low(i) + counts[i] <= Sum(counts)
    {
      assert counts[..i+1][..i] == counts[..i];
      SumOfPrefix(counts, i + 1, |counts|);
      assert counts[..|counts|] == counts;
    }

    /** The stretches do not overlap, and together they are exactly the counts below their sum. */
    lemma OwnerIsUnique(i: nat, j: nat, c: nat)
      requires i < |counts| && j < |counts| && Owns(i, c) && Owns(j, c)
      ensures i == j
    {
      LowNext(i);
      LowNext(j);
      if i < j {
        SumOfPrefix(counts, i + 1, j);
      } else if j < i {
        SumOfPrefix(counts, j + 1, i);
      }
    }

    lemma {:induction false} OwnerExists(n: nat, c: nat) returns (i: nat)
      requires n <= |counts| && c < Low(n)
      ensures i < n && Owns(i, c)
      decreases n
    {
      LowNext(n - 1);
      if c >= Low(n - 1) {
        i := n - 1;
      } else {
        i := OwnerExists(n - 1, c);
      }
    }

    lemma EscapeOwnsTheRest(i: nat, c: nat, total: nat)
      requires i < |counts| && Sum(counts) <= total && Owns(i, c)
      ensures c < Escape(total).cum
    {
      LowNext(i);
    }

    /** The bound leaves room for the count, and is below all the counts before it. */
    lemma CountFits(i: nat, maxkey: nat, total: nat)
      requires Valid(maxkey, total) && i < |counts|
      ensures counts[i] - 1 <= Bound(i) <= 0xFFFF && forall j :: 0 <= j < i ==> Bound(i) < counts[j]
    {
      LowNext(i);
    }

    lemma CodeIsValid(v: nat, maxkey: nat, total: nat)
      requires Valid(maxkey, total) && (v in keys || Sum(counts) < total)
      ensures CodeOf(v, total).Valid()
    {
      if v in keys {
        LowNext(Position(keys, v));
      }
    }
  }

  function Position(s: seq<nat>, x: nat): (p: nat)
    requires x in s
    ensures p < |s| && s[p] == x
  {
    if s[0] == x then 0 else 1 + Position(s[1..], x)
  }

  /** The saved entries from number i on: each key, then its count below the count before it. */
  ghost function EntrySyms(t: Table, i: nat, maxkey: nat, total: nat): (s: seq<Sym>)
    requires t.Valid(maxkey, total) && i <= |t.keys|
    ensures AllValid(s)
    decreases |t.keys| - i
  {
    if i == |t.keys| then []
    else
      t.CountFits(i, maxkey, total);
      UniSyms(t.keys[i], maxkey) + UniSyms(t.counts[i] - 1, t.Bound(i)) + EntrySyms(t, i + 1, maxkey, total)
  }

  /** cnt2val: the key that owns each count below Low(n). */
  ghost predicate Maps(owner: seq<nat>, t: Table, n: nat) {
    && n <= |t.counts|
    && |owner| == t.Low(n)
    && forall c :: 0 <= c < |owner| ==> owner[c] < n && t.Owns(owner[c], c)
  }

  lemma MapsFindsOwner(owner: seq<nat>, t: Table, i: nat, c: nat)
    requires Maps(owner, t, |t.counts|) && i < |t.counts| && t.Owns(i, c)
    ensures c < |owner| && owner[c] == i
  {
    t.LowNext(i);
    assert t.counts[..|t.counts|] == t.counts;
    t.OwnerIsUnique(owner[c], i, c);
  }
}
