/** Conditions on a lookup column, whose cells are codes into a dictionary of distinct strings: a comparison
    of strings becomes membership of the code in a set, of those that satisfy it or of those that do not,
    whichever is smaller. */
module LookupConditions {
  import opened Conditions
  import opened ConditionEncoding

  /** strcmp. */
  function Cmp(a: string, b: string): int {
    if a == [] then (if b == [] then 0 else -1)
    else if b == [] then 1
    else if a[0] != b[0] then (if a[0] < b[0] then -1 else 1)
    else Cmp(a[1..], b[1..])
  }

  lemma {:induction false} CmpZero(a: string, b: string)
    ensures Cmp(a, b) == 0 <==> a == b
  {
    if a != [] && b != [] {
      CmpZero(a[1..], b[1..]);
      assert a == [a[0]] + a[1..] && b == [b[0]] + b[1..];
    }
  }

  /** The order of strings: at the first place where they part, the lesser has ended or has the lesser
      character. */
  ghost predicate Precedes(a: string, b: string) {
    exists k :: PartsAt(a, b, k)
  }

  ghost predicate PartsAt(a: string, b: string, k: nat) {
    && k <= |a| && k <= |b| && a[..k] == b[..k]
    && ((k == |a| && k < |b|) || (k < |a| && k < |b| && a[k] < b[k]))
  }

  lemma PartsLater(a: string, b: string, k: nat)
    requires a != [] && b != [] && a[0] == b[0]
    ensures PartsAt(a[1..], b[1..], k) <==> PartsAt(a, b, k + 1)
    ensures !PartsAt(a, b, 0)
  {
    if k <= |a| - 1 && k <= |b| - 1 {
      assert a[..k + 1] == [a[0]] + a[1..][..k] && b[..k + 1] == [b[0]] + b[1..][..k];
    }
  }

  lemma PartsNow(a: string, b: string, k: nat)
    requires a == [] || b == [] || a[0] != b[0]
    ensures PartsAt(a, b, k) <==> k == 0 && b != [] && (a == [] || a[0] < b[0])
  {
    if k > 0 && k <= |a| && k <= |b| {
      assert a[..k][0] == a[0] && b[..k][0] == b[0];
    }
  }

  /** strcmp tells that order. */
  lemma {:induction false} CmpOrders(a: string, b: string)
    ensures Cmp(a, b) < 0 <==> Precedes(a, b)
    ensures Cmp(a, b) > 0 <==> Precedes(b, a)
  {
    if a != [] && b != [] && a[0] == b[0] {
      CmpOrders(a[1..], b[1..]);
      PrecedesLater(a, b);
      PrecedesLater(b, a);
    } else {
      PrecedesNow(a, b);
      PrecedesNow(b, a);
    }
  }

  lemma PrecedesLater(a: string, b: string)
    requires a != [] && b != [] && a[0] == b[0]
    ensures Precedes(a, b) <==> Precedes(a[1..], b[1..])
  {
    hide PartsAt;
    PartsLater(a, b, 0);
    if Precedes(a, b) {
      var k: nat :| PartsAt(a, b, k);
      if k > 0 {
        PartsLater(a, b, k - 1);
      }
    }
    if Precedes(a[1..], b[1..]) {
      var k: nat :| PartsAt(a[1..], b[1..], k);
      PartsLater(a, b, k);
    }
  }

  lemma PrecedesNow(a: string, b: string)
    requires a == [] || b == [] || a[0] != b[0]
    ensures Precedes(a, b) <==> b != [] && (a == [] || a[0] < b[0])
  {
    hide PartsAt;
    PartsNow(a, b, 0);
    if Precedes(a, b) {
      var k: nat :| PartsAt(a, b, k);
      PartsNow(a, b, k);
    }
  }

  datatype Text = NoText | Text(s: string)

  predicate Comparing(op: Op) {
    op.Compare? || op.Between? || op.NotBetween?
  }

  predicate Matches(op: Op, s: string, v1: string, v2: string)
    requires Comparing(op)
  {
    var c1, c2 := Cmp(s, v1), Cmp(s, v2);
    if op.Between? then c1 >= 0 && c2 <= 0
    else if op.NotBetween? then c1 < 0 || c2 > 0
    else
      match op.rel
      case Eq => c1 == 0
      case Ne => c1 != 0
      case Lt => c1 < 0
      case Le => c1 <= 0
      case Gt => c1 > 0
      case Ge => c1 >= 0
  }

  /** What a comparison of strings means, from their order. */
  ghost predicate Satisfies(op: Op, s: string, v1: string, v2: string)
    requires Comparing(op)
  {
    match op
    case Between => !Precedes(s, v1) && !Precedes(v2, s)
    case NotBetween => Precedes(s, v1) || Precedes(v2, s)
    case Compare(Eq, _) => s == v1
    case Compare(Ne, _) => s != v1
    case Compare(Lt, _) => Precedes(s, v1)
    case Compare(Le, _) => Precedes(s, v1) || s == v1
    case Compare(Gt, _) => Precedes(v1, s)
    case Compare(Ge, _) => Precedes(v1, s) || s == v1
  }

  lemma MatchesSatisfies(op: Op, s: string, v1: string, v2: string)
    requires Comparing(op)
    ensures Matches(op, s, v1, v2) <==> Satisfies(op, s, v1, v2)
  {
    hide Cmp, Precedes;
    CmpZero(s, v1);
    CmpOrders(s, v1);
    CmpOrders(s, v2);
  }

  /** Any two strings are in order one way only, so that BETWEEN and >= mean what they should. */
  lemma OneWay(a: string, b: string)
    ensures !(Precedes(a, b) && Precedes(b, a)) && (a == b <==> !Precedes(a, b) && !Precedes(b, a))
  {
    hide Cmp, Precedes;
    CmpZero(a, b);
    CmpOrders(a, b);
  }

  ghost predicate Unique(dic: seq<string>) {
    forall i, j :: 0 <= i < |dic| && 0 <= j < |dic| && dic[i] == dic[j] ==> i == j
  }

  /** The codes below i for which a test holds, in order. */
  function Codes(dic: seq<string>, test: string -> bool, i: nat): (codes: seq<int>)
    requires i <= |dic|
    ensures |codes| <= i
  {
    if i == 0 then [] else Codes(dic, test, i - 1) + if test(dic[i-1]) then [i - 1] else []
  }

  lemma {:induction false} CodesAre(dic: seq<string>, test: string -> bool, i: nat)
    requires i <= |dic|
    ensures forall k :: k in Codes(dic, test, i) <==> 0 <= k < i && test(dic[k])
    ensures forall j :: 0 <= j < |Codes(dic, test, i)| ==> 0 <= Codes(dic, test, i)[j] < i
  {
    if i > 0 {
      CodesAre(dic, test, i - 1);
    }
  }

  lemma {:induction false} CodesSplit(dic: seq<string>, test: string -> bool, i: nat)
    requires i <= |dic|
    ensures |Codes(dic, test, i)| + |Codes(dic, s => !test(s), i)| == i
  {
    if i > 0 {
      CodesSplit(dic, test, i - 1);
    }
  }

  /** An equality that has held for one code holds for no other. */
  lemma {:induction false} NoMoreCodes(dic: seq<string>, test: string -> bool, i: nat, n: nat)
    requires i < n <= |dic| && test(dic[i]) && forall k :: 0 <= k < |dic| && test(dic[k]) ==> k == i
    ensures Codes(dic, test, n) == [i] && Codes(dic, test, i) == []
    decreases n
  {
    if n == i + 1 {
      NoCodes(dic, test, i);
    } else {
      NoMoreCodes(dic, test, i, n - 1);
    }
  }

  lemma {:induction false} NoCodes(dic: seq<string>, test: string -> bool, i: nat)
    requires i <= |dic| && forall k :: 0 <= k < i ==> !test(dic[k])
    ensures Codes(dic, test, i) == []
  {
    if i > 0 {
      NoCodes(dic, test, i - 1);
    }
  }

  /** Two sets are collected, each only up to about half the dictionary, and for an equality the second not
      at all; the one that is chosen is nevertheless complete. */
  method Collect(dic: seq<string>, test: string -> bool, single: bool) returns (positive: bool, codes: seq<int>)
    requires single ==> forall j, k :: 0 <= j < |dic| && 0 <= k < |dic| && test(dic[j]) && test(dic[k]) ==> j == k
    ensures codes == if positive then Codes(dic, test, |dic|) else Codes(dic, s => !test(s), |dic|)
    ensures positive <==> 2 * |Codes(dic, test, |dic|)| <= |dic|
    ensures 2 * |codes| <= |dic|
  {
    var n := |dic|;
    var vset1, vset0, count1, count0 := [], [], 0, 0;
    var i := 0;
    ghost var not := s => !test(s);
    CodesSplit(dic, test, n);
    while i < n
      invariant 0 <= i <= n
      invariant count1 == |Codes(dic, test, i)| && count0 == |Codes(dic, not, i)| && count1 + count0 == i
      invariant count1 <= n / 2 + 2 ==> vset1 == Codes(dic, test, i)
      invariant !single && count0 <= n / 2 + 2 ==> vset0 == Codes(dic, not, i)
      invariant single ==> count1 == 0 && vset0 == []
    {
      if test(dic[i]) {
        if count1 <= n / 2 + 1 {
          vset1 := vset1 + [i];
        }
        count1 := count1 + 1;
        if single {
          NoMoreCodes(dic, test, i, n);
          count0 := count0 + n - i - 1;
          break;
        }
      } else {
        if !single && count0 <= n / 2 + 1 {
          vset0 := vset0 + [i];
        }
        count0 := count0 + 1;
      }
      i := i + 1;
    }
    if count1 <= count0 {
      return true, vset1;
    } else {
      return false, vset0;
    }
  }

  function Values(codes: seq<int>): (rows: seq<Value>)
    ensures |rows| == |codes| && forall i :: 0 <= i < |codes| ==> rows[i] == Dec(codes[i] as real)
  {
    seq(|codes|, i requires 0 <= i < |codes| => Dec(codes[i] as real))
  }

  lemma ValuesContain(codes: seq<int>, k: int)
    ensures Contains(Values(codes), k) == if k in codes then Yes else No
  {
    var rows := Values(codes);
    if k in codes {
      var i :| 0 <= i < |codes| && codes[i] == k;
      assert rows[i] == Dec(k as real);
    } else {
      forall i | 0 <= i < |codes| ensures rows[i] != Dec(k as real) {
        CastOrder(codes[i], k);
      }
    }
  }

  lemma ValuesAreCodes(codes: seq<int>, n: nat)
    requires n < PLUS_INF_64 && forall i :: 0 <= i < |codes| ==> 0 <= codes[i] < n
    ensures DecimalTerm(Many(Values(codes)), true) && forall x :: x in Distinct(Values(codes)) ==> Integral(x)
  {
    forall i | 0 <= i < |codes| ensures Decimal(codes[i] as real, true) && Integral(codes[i] as real) {
      FloorBounds(codes[i] as real, codes[i]);
      CastOrder(codes[i], n);
    }
  }

  /** Rewriting the set of codes further, into a range or a constant, never changes which rows with a
      string are selected, and takes nulls out where they were selected for want of any code. */
  lemma SetOfCodesKeeps(col: Column, member: bool, codes: seq<int>, n: nat, cell: Cell)
    requires col.whole && n < PLUS_INF_64 && (forall i :: 0 <= i < |codes| ==> 0 <= codes[i] < n) && cell.Valid()
    ensures var d := Desc(if member then In else NotIn, Many(Values(codes)), Nothing);
            && Formed(Ins(col, d))
            && (Check(Ins(col, d), cell) <==> cell.Num? && (member <==> cell.v in codes))
            && (Check(Ins(col, d), cell) == Check(d, cell) <==> !(!member && codes == [] && cell.NullCell?))
  {
    hide Ins, Values, Distinct, InsSlip, Integral;
    var rows := Values(codes);
    var d := Desc(if member then In else NotIn, Many(rows), Nothing);
    ValuesAreCodes(codes, n);
    InsKeeps(col, d, cell);
    NoSlip(col, rows);
    if cell.Num? {
      ValuesContain(codes, cell.v);
    }
  }

  lemma NoSlip(col: Column, rows: seq<Value>)
    requires DecimalTerm(Many(rows), true) && forall x :: x in Distinct(rows) ==> Integral(x)
    ensures forall v :: !InsSlip(col, rows, v)
  {
    hide Distinct, Integral, Lo, Hi;
    if |Distinct(rows)| >= 2 && LooksUnbroken(col, rows) {
      UnbrokenIffIntegers(col, rows);
    }
  }

  /** The whole way of a comparison on a lookup column: it selects exactly the rows whose string satisfies
      it. */
  method EncodeOnLookup(col: Column, dic: seq<string>, op: Op, v1: Text, v2: Text) returns (d: Desc)
    requires col.whole && Unique(dic) && |dic| < PLUS_INF_64 && Comparing(op)
    requires v1.NoText? ==> v2.NoText?
    requires v1.Text? && (op.Between? || op.NotBetween?) ==> v2.Text?
    ensures Formed(d) && !Check(d, NullCell)
    ensures v1.NoText? ==> d.op == False
    ensures !d.op.Compare? && (d.op.In? || d.op.NotIn? ==> 2 <= |d.val1.rows| && 2 * |d.val1.rows| <= |dic|)
    ensures v1.Text? ==>
              forall k :: 0 <= k < |dic| ==>
                (Check(d, Num(k)) <==> Satisfies(op, dic[k], v1.s, if v2.Text? then v2.s else ""))
  {
    hide Ins, Check, Matches, Satisfies, Codes, Values, Unique;
    if v1.NoText? && v2.NoText? {
      d := Desc(False, Nothing, Nothing);
      Unselected(d);
      return;
    }
    var w := if v2.Text? then v2.s else "";
    var test := s => Matches(op, s, v1.s, w);
    var single := op.Compare? && op.rel.Eq?;
    if single {
      EqualityIsSingle(dic, op, v1.s, w);
    }
    var positive, codes := Collect(dic, test, single);
    CodesAre(dic, test, |dic|);
    CodesAre(dic, s => !test(s), |dic|);
    d := Ins(col, Desc(if positive then In else NotIn, Many(Values(codes)), Nothing));
    SetOfCodesKeeps(col, positive, codes, |dic|, NullCell);
    CodesLeft(col, positive, codes);
    forall k | 0 <= k < |dic| ensures Check(d, Num(k)) <==> Satisfies(op, dic[k], v1.s, w) {
      MatchesSatisfies(op, dic[k], v1.s, w);
      SetOfCodesKeeps(col, positive, codes, |dic|, Num(k));
      assert test(dic[k]) <==> Matches(op, dic[k], v1.s, w);
    }
  }

  /** A set of codes is left in place only if it has two members at least. */
  lemma CodesLeft(col: Column, member: bool, codes: seq<int>)
    ensures var e := Ins(col, Desc(if member then In else NotIn, Many(Values(codes)), Nothing));
            !e.op.Compare? && (e.op.In? || e.op.NotIn? ==> e.val1 == Many(Values(codes)) && 2 <= |codes|)
  {
    if |codes| == 0 {
      assert Distinct(Values(codes)) == {};
    } else if |codes| == 1 {
      assert Distinct(Values(codes)) == {codes[0] as real};
    }
  }

  lemma Unselected(d: Desc)
    requires d.op == False
    ensures Formed(d) && !Check(d, NullCell)
  {
  }

  lemma EqualityIsSingle(dic: seq<string>, op: Op, v1: string, v2: string)
    requires Unique(dic) && op.Compare? && op.rel.Eq?
    ensures forall j, k :: 0 <= j < |dic| && 0 <= k < |dic| ==>
              Matches(op, dic[j], v1, v2) && Matches(op, dic[k], v1, v2) ==> j == k
  {
    forall j | 0 <= j < |dic| ensures Matches(op, dic[j], v1, v2) <==> dic[j] == v1 {
      CmpZero(dic[j], v1);
    }
  }

  /** Whether a string, or a null, is selected by IN or NOT IN over strings none of which is null. */
  predicate Listed(member: bool, list: set<string>, t: Text) {
    if member then t.Text? && t.s in list else list == {} || (t.Text? && t.s !in list)
  }

  /** IN and NOT IN over strings: the set of the codes whose strings are listed. A list that names no string
      of the dictionary becomes FALSE or NOT NULL; a null is lost exactly under NOT IN over nothing. */
  method EncodeInsOnLookup(col: Column, dic: seq<string>, member: bool, list: set<string>) returns (d: Desc)
    requires col.whole && |dic| < PLUS_INF_64
    ensures Formed(d)
    ensures forall k :: 0 <= k < |dic| ==> (Check(d, Num(k)) <==> Listed(member, list, Text(dic[k])))
    ensures Check(d, NullCell) == Listed(member, list, NoText) <==> !(!member && list == {})
    ensures (forall k :: 0 <= k < |dic| ==> dic[k] !in list) ==> d.op == if member then False else NotNull
  {
    hide Ins, Check, Codes, Values;
    var test := s => s in list;
    var codes := [];
    NoCodesYet(dic, test);
    for i := 0 to |dic|
      invariant codes == Codes(dic, test, i)
    {
      MoreCodes(dic, test, i);
      if dic[i] in list {
        codes := codes + [i];
      }
    }
    CodesAre(dic, test, |dic|);
    d := Ins(col, Desc(if member then In else NotIn, Many(Values(codes)), Nothing));
    if forall k :: 0 <= k < |dic| ==> dic[k] !in list {
      NoCodes(dic, test, |dic|);
      EmptySet(col, member);
    }
    SetOfCodesKeeps(col, member, codes, |dic|, NullCell);
    forall k | 0 <= k < |dic| ensures Check(d, Num(k)) <==> Listed(member, list, Text(dic[k])) {
      SetOfCodesKeeps(col, member, codes, |dic|, Num(k));
      assert test(dic[k]) <==> dic[k] in list;
    }
  }

  lemma NoCodesYet(dic: seq<string>, test: string -> bool)
    ensures Codes(dic, test, 0) == []
  {
  }

  lemma MoreCodes(dic: seq<string>, test: string -> bool, i: nat)
    requires i < |dic|
    ensures Codes(dic, test, i + 1) == Codes(dic, test, i) + if test(dic[i]) then [i] else []
  {
  }

  lemma EmptySet(col: Column, member: bool)
    ensures Ins(col, Desc(if member then In else NotIn, Many(Values([])), Nothing)).op == if member then False
              else NotNull
  {
    assert Values([]) == [];
    assert Distinct([]) == {};
  }
}
