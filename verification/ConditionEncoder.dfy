/** How a condition on a numeric column is rewritten into BETWEEN, NOT BETWEEN, IN, or a constant, and
    exactly when that keeps its meaning. */
module ConditionEncoding {
  import opened Arith
  import opened Conditions

  /** What is known of the column: it holds nulls only, it may hold nulls, an outer join may add nulls, its
      table is empty, it has no decimal places. */
  datatype Column = Column(nullsOnly: bool, nullsPossible: bool, additionalNulls: bool, empty: bool, whole: bool) {
    predicate Admits(cell: Cell) {
      && cell.Valid()
      && (cell.NullCell? ==> nullsPossible || additionalNulls)
      && (nullsOnly ==> cell.NullCell?)
      && (empty ==> cell.NullCell? && additionalNulls)
    }
  }

  function Trunc(x: real): int {
    if x >= 0.0 then x.Floor else -((-x).Floor)
  }

  predicate Integral(x: real) {
    x == x.Floor as real
  }

  datatype Code = Code(v: int, rounded: bool)

  /** A constant as a 64-bit integer, truncated toward zero, and the infinities beyond the range. */
  function EncodeValue64(a: Value): Code {
    if a.Null? then Code(NULL_VALUE_64, false)
    else if Trunc(a.x) > PLUS_INF_64 then Code(PLUS_INF_64, false)
    else if Trunc(a.x) < MINUS_INF_64 then Code(MINUS_INF_64, false)
    else Code(Trunc(a.x), HasFraction(a.x))
  }

  predicate HasFraction(x: real) {
    x != Trunc(x) as real
  }

  /** The decimals there are: 64-bit integers with a scale. What has a fraction in the column's units has
      been divided by ten, what was multiplied may lie beyond the range, and null has a code of its own. */
  predicate Decimal(x: real, whole: bool) {
    if Integral(x) then
      x != NULL_VALUE_64 as real && (whole ==> MINUS_INF_64 as real <= x <= PLUS_INF_64 as real)
    else
      -922337203685477581.0 < x < 922337203685477581.0
  }

  predicate DecimalValue(a: Value, whole: bool) {
    a.Dec? ==> Decimal(a.x, whole)
  }

  predicate DecimalTerm(t: Term, whole: bool) {
    match t
    case Nothing => true
    case Const(a) => DecimalValue(a, whole)
    case Many(rows) => forall i :: 0 <= i < |rows| ==> DecimalValue(rows[i], whole)
  }

  predicate Numeric(col: Column, d: Desc) {
    Formed(d) && DecimalTerm(d.val1, col.whole) && DecimalTerm(d.val2, col.whole)
  }

  predicate NeedsMore(d: Desc) {
    !(d.op.IsNull? || d.op.NotNull? || d.op.False? || d.op.True?)
  }

  /** TransformWithRespectToNulls. */
  function WithNulls(col: Column, d: Desc): (r: Desc)
    requires Formed(d)
    ensures Formed(r)
  {
    var possible := col.additionalNulls || col.nullsPossible;
    if d.op.IsNull? then
      if !possible || col.empty then d.(op := False) else if col.nullsOnly then d.(op := True) else d
    else if d.op.NotNull? then
      if !possible then d.(op := True) else if col.nullsOnly then d.(op := False) else d
    else if (d.op.NotIn? || (d.op.Compare? && d.op.mode.All?)) && HasNull(d.val1.rows) then d.(op := False)
    else d
  }

  /** Null tests keep their meaning, except that IS NULL on an empty table loses the nulls an outer join
      adds. */
  lemma WithNullsKeeps(col: Column, d: Desc, cell: Cell)
    requires Formed(d) && col.Admits(cell)
    ensures Formed(WithNulls(col, d))
    ensures Check(WithNulls(col, d), cell) == Check(d, cell) <==> !(d.op.IsNull? && col.empty)
  {
    ExtremesBound(match d.val1 case Many(rows) => rows case _ => []);
  }

  function Distinct(rows: seq<Value>): set<real> {
    set i | 0 <= i < |rows| && rows[i].Dec? :: rows[i].x
  }

  /** DescriptorTransformation. */
  function Reshape(col: Column, d: Desc): (r: Desc)
    requires Formed(d) && NeedsMore(d)
    ensures Formed(r)
  {
    match d.op
    case Compare(Eq, Any) => d.(op := In)
    case Compare(Ne, All) => d.(op := NotIn)
    case Compare(_, Plain) => if d.val1.value.Null? then d.(op := False) else d
    case Between => if d.val1.value.Null? || d.val2.value.Null? then d.(op := False) else d
    case NotBetween =>
      if d.val1.value.Null? then d.(op := False)
      else if d.val2.value.Null? then d.(op := Compare(Lt, Plain)) else d
    case Compare(Eq, All) =>
      if d.val1.rows == [] then d.(op := True)
      else if |Distinct(d.val1.rows)| == 1 && !HasNull(d.val1.rows) then
        d.(op := Compare(Eq, Plain), val1 := Const(MinOf(d.val1.rows)))
      else d.(op := False)
    case Compare(_, All) => if d.val1.rows == [] then d.(op := True) else d
    case Compare(Ne, Any) =>
      if |Distinct(d.val1.rows)| == 0 then d.(op := False)
      else if |Distinct(d.val1.rows)| >= 2 then WithNulls(col, d.(op := NotNull))
      else d.(op := Compare(Ne, Plain), val1 := Const(MinOf(d.val1.rows)))
    case _ => d
  }

  lemma OneDistinct(rows: seq<Value>)
    requires |Distinct(rows)| == 1
    ensures MinOf(rows).Dec?
    ensures forall i :: 0 <= i < |rows| && rows[i].Dec? ==> rows[i] == MinOf(rows)
  {
    ExtremesBound(rows);
    var x := Single(Distinct(rows));
    forall i | 0 <= i < |rows| && rows[i].Dec? ensures rows[i].x == x {
      assert rows[i].x in Distinct(rows);
    }
    assert MinOf(rows) in rows;
  }

  lemma NoneDistinct(rows: seq<Value>)
    requires |Distinct(rows)| == 0
    ensures forall i :: 0 <= i < |rows| ==> rows[i].Null?
    ensures MinOf(rows).Null? && MaxOf(rows).Null?
  {
    ExtremesBound(rows);
    InDistinct(rows);
  }

  lemma NoneOfNone()
    ensures Distinct([]) == {}
  {
  }

  lemma InDistinct(rows: seq<Value>)
    ensures forall i :: 0 <= i < |rows| && rows[i].Dec? ==> rows[i].x in Distinct(rows)
  {
  }

  lemma SomeDistinct(rows: seq<Value>, v: int)
    requires |Distinct(rows)| >= 2
    ensures exists i :: 0 <= i < |rows| && HoldsOn(Ne, v, rows[i])
  {
    var one := {v as real};
    if forall i :: 0 <= i < |rows| ==> !HoldsOn(Ne, v, rows[i]) {
      assert Distinct(rows) <= one;
      SubsetSize(Distinct(rows), one);
      assert false;
    }
  }

  lemma Single<T>(s: set<T>) returns (x: T)
    requires |s| == 1
    ensures s == {x}
  {
    x :| x in s;
    assert |s - {x}| == 0;
  }

  lemma ReshapeEqAll(rows: seq<Value>, cell: Cell)
    requires rows != []
    ensures CheckRows(Eq, All, rows, cell)
            <==> |Distinct(rows)| == 1 && !HasNull(rows) && cell.Num? && HoldsOn(Eq, cell.v, MinOf(rows))
  {
    var first := rows[0];
    assert CheckRows(Eq, All, rows, cell) ==> cell.Num? && HoldsOn(Eq, cell.v, first);
    if cell.Num? && CheckRows(Eq, All, rows, cell) {
      AllTheSame(rows, cell.v);
    }
    if |Distinct(rows)| == 1 && !HasNull(rows) {
      OneDistinct(rows);
      assert rows[0] == MinOf(rows);
    }
  }

  lemma AllTheSame(rows: seq<Value>, v: int)
    requires rows != [] && forall i :: 0 <= i < |rows| ==> HoldsOn(Eq, v, rows[i])
    ensures |Distinct(rows)| == 1 && !HasNull(rows)
  {
    assert rows[0].x in Distinct(rows);
    assert Distinct(rows) == {v as real};
  }

  predicate NullBoundSlips(d: Desc, cell: Cell)
    requires Formed(d)
  {
    d.op.NotBetween? && d.val1.value.Null? && d.val2.value.Dec? && cell.Num? && cell.v as real > d.val2.value.x
  }

  /** Everything keeps its meaning but NOT BETWEEN with a null first bound: its rows above the second
      bound are lost. */
  lemma ReshapeKeeps(col: Column, d: Desc, cell: Cell)
    requires Formed(d) && NeedsMore(d) && col.Admits(cell)
    requires (d.op.NotIn? || (d.op.Compare? && d.op.mode.All?)) ==> !HasNull(d.val1.rows)
    ensures Formed(Reshape(col, d))
    ensures Check(Reshape(col, d), cell) == Check(d, cell)
            <==> !NullBoundSlips(d, cell)
  {
    if d.op == Compare(Eq, All) && d.val1.rows != [] {
      ReshapeEqAll(d.val1.rows, cell);
    } else if d.op == Compare(Ne, Any) {
      ReshapeNeAny(col, d, cell);
    }
  }

  lemma ReshapeNeAny(col: Column, d: Desc, cell: Cell)
    requires Formed(d) && d.op == Compare(Ne, Any) && col.Admits(cell)
    ensures Formed(Reshape(col, d)) && Check(Reshape(col, d), cell) == Check(d, cell)
  {
    var rows := d.val1.rows;
    if |Distinct(rows)| == 0 {
      NoneDistinct(rows);
    } else if |Distinct(rows)| == 1 {
      OneDistinct(rows);
      ExtremesBound(rows);
    } else if cell.Num? {
      SomeDistinct(rows, cell.v);
    }
  }

  /** The row that decides a comparison with all or any rows; the constant itself otherwise. */
  function Pivot(d: Desc): Value
    requires Formed(d) && (d.op.Compare? || d.op.Between? || d.op.NotBetween?)
  {
    if d.val1.Const? || !d.op.Compare? then d.val1.value
    else if (d.op.mode.Any? && (d.op.rel.Lt? || d.op.rel.Le?))
      || (d.op.mode.All? && (d.op.rel.Gt? || d.op.rel.Ge?)) then
      MaxOf(d.val1.rows)
    else MinOf(d.val1.rows)
  }

  /** A rounded constant shifts the comparison. */
  function Shifted(rel: Rel, v: int): Rel {
    match rel
    case Lt => if v >= 0 then Le else Lt
    case Le => if v < 0 then Lt else Le
    case Gt => if v < 0 then Ge else Gt
    case Ge => if v >= 0 then Gt else Ge
    case _ => rel
  }

  function FromInt64(v: int): Term {
    Const(if v == NULL_VALUE_64 then Null else Dec(v as real))
  }

  /** TransformOtherThanINsOnNumerics, for comparisons. */
  function ToInterval(d: Desc, rel: Rel, a: Value): Desc {
    var c := EncodeValue64(a);
    if c.rounded && rel.Eq? then d.(op := False)
    else if c.rounded && rel.Ne? then d.(op := NotNull)
    else if c.v == NULL_VALUE_64 then d.(op := False)
    else
      Interval(if c.rounded then Shifted(rel, c.v) else rel, c.v)
  }

  function Interval(rel: Rel, v: int): Desc {
    match rel
    case Eq => Desc(Between, FromInt64(v), FromInt64(v))
    case Ne => Desc(NotBetween, FromInt64(v), FromInt64(v))
    case Lt => Desc(Between, FromInt64(MINUS_INF_64), FromInt64(if v > MINUS_INF_64 then v - 1 else NULL_VALUE_64))
    case Le => Desc(Between, FromInt64(MINUS_INF_64), FromInt64(v))
    case Gt => Desc(Between, FromInt64(if v != PLUS_INF_64 then v + 1 else v), FromInt64(PLUS_INF_64))
    case Ge => Desc(Between, FromInt64(v), FromInt64(PLUS_INF_64))
  }

  /** The same, for BETWEEN and NOT BETWEEN. */
  function ToRange(d: Desc, op: Op, a: Value, b: Value): Desc {
    var c1, c2 := EncodeValue64(a), EncodeValue64(b);
    var v1 := if c1.rounded && c1.v >= 0 then c1.v + 1 else c1.v;
    var v2 := if c2.rounded && c2.v < 0 then c2.v - 1 else c2.v;
    if v1 == NULL_VALUE_64 || (op.Between? && v2 == NULL_VALUE_64) then d.(op := False)
    else Desc(op, FromInt64(v1), FromInt64(v2))
  }

  /** Truncation toward zero takes a constant strictly between -1 and 0 for 0 and then for a positive one. */
  predicate Inner(x: real) {
    -1.0 < x < 0.0
  }

  /** Where a comparison goes wrong: at 0, for such a constant, and everywhere for a "greater than" whose
      constant is at or below the least code, since the next code stands for null. */
  predicate Slips(rel: Rel, x: real, v: int) {
    || (!rel.Eq? && !rel.Ne? && Inner(x) && v == 0)
    || (rel.Gt? && x <= MINUS_INF_64 as real)
  }

  predicate RangeSlips(x1: real, x2: real, v: int) {
    v == 0 && ((Inner(x1) && x2 >= 0.0) || (Inner(x2) && x1 <= 0.0 && !Inner(x1)))
  }

  /** A constant seen from the integers: its floor, and whether there is a fraction above it. */
  predicate HoldsAt(rel: Rel, v: int, f: int, fraction: bool) {
    match rel
    case Eq => !fraction && v == f
    case Ne => fraction || v != f
    case Lt => if fraction then v <= f else v < f
    case Le => v <= f
    case Gt => v > f
    case Ge => if fraction then v > f else v >= f
  }

  lemma FloorBounds(x: real, f: int)
    ensures f == x.Floor <==> f as real <= x < f as real + 1.0
  {
  }

  lemma CastOrder(v: int, w: int)
    ensures (v as real) < (w as real) <==> v < w
    ensures v as real == w as real <==> v == w
    ensures v as real + 1.0 == (v + 1) as real
  {
  }

  lemma HoldsByFloor(rel: Rel, v: int, x: real)
    ensures Holds(rel, v, x) <==> HoldsAt(rel, v, x.Floor, !Integral(x))
  {
    var f := x.Floor;
    FloorBounds(x, f);
    CastOrder(v, f);
    CastOrder(f, v);
    CastOrder(f + 1, v);
    CastOrder(v, f + 1);
    CastOrder(f, f);
  }

  lemma NegatedFloor(x: real)
    ensures Integral(x) ==> (-x).Floor == -(x.Floor)
    ensures !Integral(x) ==> (-x).Floor == -(x.Floor) - 1
  {
    var f := x.Floor;
    FloorBounds(x, f);
    assert (-f) as real == -(f as real);
    CastOrder(-f - 1, 0);
    assert (-f - 1) as real == -(f as real) - 1.0;
    FloorBounds(-x, -f);
    FloorBounds(-x, -f - 1);
  }

  lemma SignByFloor(x: real)
    ensures x >= 0.0 <==> x.Floor >= 0
  {
    FloorBounds(x, x.Floor);
    CastOrder(x.Floor, 0);
    CastOrder(x.Floor + 1, 0);
    CastOrder(0, x.Floor);
    CastOrder(0, x.Floor + 1);
    CastOrder(x.Floor, x.Floor);
  }

  lemma TruncByFloor(x: real)
    ensures Trunc(x) == if x.Floor < 0 && !Integral(x) then x.Floor + 1 else x.Floor
    ensures HasFraction(x) <==> !Integral(x)
  {
    SignByFloor(x);
    NegatedFloor(x);
    FloorBounds(x, x.Floor);
    CastOrder(x.Floor, x.Floor + 1);
  }

  function CodeAt(f: int, fraction: bool): Code {
    var t := if f < 0 && fraction then f + 1 else f;
    if t > PLUS_INF_64 then Code(PLUS_INF_64, false)
    else if t < MINUS_INF_64 then Code(MINUS_INF_64, false)
    else Code(t, fraction)
  }

  /** Everything the encoder asks of a constant, from its floor. */
  lemma ByFloor(x: real, whole: bool)
    requires Decimal(x, whole)
    ensures EncodeValue64(Dec(x)) == CodeAt(x.Floor, !Integral(x))
    ensures Inner(x) <==> x.Floor == -1 && !Integral(x)
    ensures x <= MINUS_INF_64 as real <==> x.Floor < MINUS_INF_64 || (x.Floor == MINUS_INF_64 && Integral(x))
    ensures Integral(x) ==> x.Floor != NULL_VALUE_64
    ensures !Integral(x) ==> -922337203685477581 <= x.Floor <= 922337203685477580
    ensures x >= 0.0 <==> x.Floor >= 0
    ensures x <= 0.0 <==> x.Floor < 0 || (x.Floor == 0 && Integral(x))
  {
    hide Trunc;
    TruncByFloor(x);
    SignByFloor(x);
    HoldsByFloor(Ge, MINUS_INF_64, x);
    HoldsByFloor(Ge, 0, x);
    HoldsByFloor(Lt, -1, x);
    HoldsByFloor(Lt, -922337203685477581, x);
    HoldsByFloor(Gt, 922337203685477581, x);
    HoldsByFloor(Eq, NULL_VALUE_64, x);
  }

  /** An interval of codes as a condition; a bound that is the null code leaves nothing known. */
  lemma IntervalMeans(lo: int, hi: int, cell: Cell)
    ensures FromInt64(lo).Const? && FromInt64(hi).Const?
    ensures Check(Desc(Between, FromInt64(lo), FromInt64(hi)), cell)
            <==> cell.Num? && lo != NULL_VALUE_64 && hi != NULL_VALUE_64 && lo <= cell.v <= hi
    ensures Check(Desc(NotBetween, FromInt64(lo), FromInt64(hi)), cell)
            <==> cell.Num? && ((lo != NULL_VALUE_64 && cell.v < lo) || (hi != NULL_VALUE_64 && cell.v > hi))
  {
    if cell.Num? {
      CastOrder(cell.v, lo);
      CastOrder(hi, cell.v);
    }
  }

  /** Comparisons keep their meaning exactly where they do not slip. */
  lemma ToIntervalKeeps(d: Desc, rel: Rel, a: Value, whole: bool, cell: Cell)
    requires DecimalValue(a, whole) && cell.Valid()
    ensures Formed(ToInterval(d, rel, a))
    ensures Check(ToInterval(d, rel, a), cell) == (cell.Num? && HoldsOn(rel, cell.v, a))
            <==> !(cell.Num? && a.Dec? && Slips(rel, a.x, cell.v))
  {
    hide Trunc, Holds, Integral, Inner, FromInt64, Check, AtLeast, AtMost;
    ConstantsChecked(d, cell);
    if a.Dec? {
      ByFloor(a.x, whole);
      if cell.Num? {
        HoldsByFloor(rel, cell.v, a.x);
      }
      var c := EncodeValue64(a).v;
      IntervalMeans(c, c, cell);
      IntervalMeans(MINUS_INF_64, if c > MINUS_INF_64 then c - 1 else NULL_VALUE_64, cell);
      IntervalMeans(MINUS_INF_64, c, cell);
      IntervalMeans(if c != PLUS_INF_64 then c + 1 else c, PLUS_INF_64, cell);
      IntervalMeans(c, PLUS_INF_64, cell);
    }
  }

  lemma ConstantsChecked(d: Desc, cell: Cell)
    ensures !Check(d.(op := False), cell)
    ensures Check(d.(op := NotNull), cell) <==> cell.Num?
  {
  }

  lemma ToRangeKeeps(d: Desc, op: Op, a: Value, b: Value, whole: bool, cell: Cell)
    requires (op.Between? || op.NotBetween?) && a.Dec? && b.Dec?
    requires DecimalValue(a, whole) && DecimalValue(b, whole) && cell.Valid()
    ensures Formed(ToRange(d, op, a, b))
    ensures Check(ToRange(d, op, a, b), cell) == Check(Desc(op, Const(a), Const(b)), cell)
            <==> !(cell.Num? && RangeSlips(a.x, b.x, cell.v))
  {
    hide Trunc, Holds, Integral, Inner, FromInt64, Check, AtLeast, AtMost;
    ConstantsChecked(d, cell);
    ByFloor(a.x, whole);
    ByFloor(b.x, whole);
    RangeMeans(op, a.x, b.x, cell);
    var c1, c2 := EncodeValue64(a), EncodeValue64(b);
    IntervalMeans(if c1.rounded && c1.v >= 0 then c1.v + 1 else c1.v,
                  if c2.rounded && c2.v < 0 then c2.v - 1 else c2.v, cell);
  }

  predicate WithinFloors(v: int, x1: real, x2: real) {
    HoldsAt(Ge, v, x1.Floor, !Integral(x1)) && HoldsAt(Le, v, x2.Floor, !Integral(x2))
  }

  lemma RangeMeans(op: Op, x1: real, x2: real, cell: Cell)
    requires op.Between? || op.NotBetween?
    ensures Formed(Desc(op, Const(Dec(x1)), Const(Dec(x2))))
    ensures Check(Desc(op, Const(Dec(x1)), Const(Dec(x2))), cell)
            <==> cell.Num? && (op.Between? == WithinFloors(cell.v, x1, x2))
  {
    if cell.Num? {
      HoldsByFloor(Ge, cell.v, x1);
      HoldsByFloor(Le, cell.v, x2);
    }
  }

  function OtherThanIns(d: Desc): Desc
    requires Formed(d) && (d.op.Compare? || d.op.Between? || d.op.NotBetween?)
  {
    if d.op.Compare? then ToInterval(d, d.op.rel, Pivot(d)) else ToRange(d, d.op, d.val1.value, d.val2.value)
  }

  /** A comparison with all or any rows is one with its pivot. */
  lemma PivotDecides(d: Desc, cell: Cell)
    requires Formed(d) && d.op.Compare? && !(d.op.mode != Plain && (d.op.rel.Eq? || d.op.rel.Ne?))
    requires d.op.mode.All? ==> d.val1.rows != [] && !HasNull(d.val1.rows)
    ensures Check(d, cell) <==> cell.Num? && HoldsOn(d.op.rel, cell.v, Pivot(d))
  {
    if d.op.mode.Any? {
      ExtremesBound(d.val1.rows);
    }
  }

  lemma PivotDecimal(d: Desc, whole: bool)
    requires Formed(d) && d.op.Compare? && DecimalTerm(d.val1, whole)
    ensures DecimalValue(Pivot(d), whole)
  {
    if d.val1.Many? {
      ExtremesBound(d.val1.rows);
    }
  }

  /** TransformINs: an empty set is a constant, a single value or an unbroken run of values a range. */
  function Lo(rows: seq<Value>): int {
    EncodeValue64(MinOf(rows)).v
  }

  function Hi(rows: seq<Value>): int {
    EncodeValue64(MaxOf(rows)).v
  }

  predicate LooksUnbroken(col: Column, rows: seq<Value>) {
    !HasNull(rows) && col.whole && 0 < Hi(rows) - Lo(rows) + 1 < 65536 && Hi(rows) - Lo(rows) + 1 == |Distinct(rows)|
  }

  function Ins(col: Column, d: Desc): Desc
    requires Formed(d) && (d.op.In? || d.op.NotIn?)
  {
    var rows := d.val1.rows;
    if |Distinct(rows)| == 0 then
      d.(op := if d.op.NotIn? && !HasNull(rows) then NotNull else False)
    else if |Distinct(rows)| == 1 && !HasNull(rows) then
      var c := EncodeValue64(MinOf(rows));
      if c.rounded then d.(op := if d.op.In? then False else NotNull)
      else Desc(if d.op.In? then Between else NotBetween, FromInt64(c.v), FromInt64(c.v))
    else if LooksUnbroken(col, rows) then
      Desc(if d.op.In? then Between else NotBetween, FromInt64(Lo(rows)), FromInt64(Hi(rows)))
    else d
  }

  /** Values with a fraction can make a broken run look unbroken; then the integers in its gaps are taken
      for members. */
  predicate InsSlip(col: Column, rows: seq<Value>, v: int) {
    |Distinct(rows)| >= 2 && LooksUnbroken(col, rows) && Lo(rows) <= v <= Hi(rows) && Contains(rows, v) != Yes
  }

  lemma MembersMean(rows: seq<Value>, v: int)
    ensures Contains(rows, v) == Yes <==> v as real in Distinct(rows)
  {
    if Contains(rows, v) == Yes {
      var i :| 0 <= i < |rows| && rows[i] == Dec(v as real);
      assert rows[i].x in Distinct(rows);
    }
  }

  lemma MembersBetween(rows: seq<Value>, v: int)
    requires DecimalTerm(Many(rows), true) && Contains(rows, v) == Yes
    ensures Lo(rows) <= v <= Hi(rows)
  {
    hide Trunc, Holds, Integral;
    ExtremesBound(rows);
    var i :| 0 <= i < |rows| && rows[i] == Dec(v as real);
    BoundsOf(MinOf(rows).x, v);
    BoundsOf(MaxOf(rows).x, v);
  }

  lemma BoundsOf(x: real, v: int)
    requires Decimal(x, true)
    ensures x <= v as real ==> EncodeValue64(Dec(x)).v <= v || v < MINUS_INF_64
    ensures x >= v as real ==> EncodeValue64(Dec(x)).v >= v || v > PLUS_INF_64
  {
    hide Trunc, Holds, Integral;
    ByFloor(x, true);
    HoldsOrder(x, v);
  }

  lemma HoldsOrder(x: real, v: int)
    ensures x <= v as real <==> HoldsAt(Ge, v, x.Floor, !Integral(x))
    ensures x >= v as real <==> HoldsAt(Le, v, x.Floor, !Integral(x))
  {
    HoldsByFloor(Ge, v, x);
    HoldsByFloor(Le, v, x);
  }

  lemma InsSingle(col: Column, d: Desc, cell: Cell)
    requires Numeric(col, d) && (d.op.In? || d.op.NotIn?) && cell.Valid()
    requires |Distinct(d.val1.rows)| == 1 && !HasNull(d.val1.rows)
    ensures Formed(Ins(col, d)) && Check(Ins(col, d), cell) == Check(d, cell)
  {
    hide Trunc, Holds, Integral, Distinct, EncodeValue64, FromInt64, MinOf;
    var rows := d.val1.rows;
    var a := MinOf(rows);
    OneDistinct(rows);
    MinIsDecimal(rows, col.whole);
    ByFloor(a.x, col.whole);
    IntervalMeans(EncodeValue64(a).v, EncodeValue64(a).v, cell);
    if cell.Num? {
      HoldsByFloor(Eq, cell.v, a.x);
      SingleContains(rows, a, cell.v);
    }
  }

  lemma MinIsDecimal(rows: seq<Value>, whole: bool)
    requires DecimalTerm(Many(rows), whole) && MinOf(rows).Dec?
    ensures MinOf(rows) in rows && Decimal(MinOf(rows).x, whole)
  {
    ExtremesBound(rows);
  }

  lemma SingleContains(rows: seq<Value>, a: Value, v: int)
    requires a.Dec? && a in rows && !HasNull(rows)
    requires forall i :: 0 <= i < |rows| && rows[i].Dec? ==> rows[i] == a
    ensures Contains(rows, v) == if Holds(Eq, v, a.x) then Yes else No
  {
  }

  /** A null is different from all members of an empty set, but not where that is read as NOT NULL. */
  predicate NullSlips(op: Op, rows: seq<Value>, cell: Cell) {
    (op.NotIn? || op == Compare(Ne, All)) && rows == [] && cell.NullCell?
  }

  /** A set condition keeps its meaning exactly where it does not slip. */
  lemma InsKeeps(col: Column, d: Desc, cell: Cell)
    requires Numeric(col, d) && (d.op.In? || d.op.NotIn?) && cell.Valid()
    ensures Formed(Ins(col, d))
    ensures Check(Ins(col, d), cell) == Check(d, cell)
            <==> !(cell.Num? && InsSlip(col, d.val1.rows, cell.v)) && !NullSlips(d.op, d.val1.rows, cell)
  {
    hide Trunc, Holds, Integral, Distinct, EncodeValue64, FromInt64, MinOf, MaxOf, Lo, Hi;
    var rows := d.val1.rows;
    NoneOfNone();
    if |Distinct(rows)| == 0 {
      NoneDistinct(rows);
    } else if |Distinct(rows)| == 1 && !HasNull(rows) {
      InsSingle(col, d, cell);
    } else if LooksUnbroken(col, rows) {
      IntervalMeans(Lo(rows), Hi(rows), cell);
      EndsNotNull(rows);
      if cell.Num? && Contains(rows, cell.v) == Yes {
        MembersBetween(rows, cell.v);
      }
    }
  }

  lemma SomeValue(rows: seq<Value>)
    ensures MinOf(rows).Null? ==> |Distinct(rows)| == 0
    ensures MinOf(rows).Dec? ==> MaxOf(rows).Dec? && MinOf(rows) in rows && MaxOf(rows) in rows
  {
    ExtremesBound(rows);
    if MinOf(rows).Null? {
      assert Distinct(rows) == {};
    }
  }

  lemma EndsNotNull(rows: seq<Value>)
    requires DecimalTerm(Many(rows), true) && |Distinct(rows)| >= 1
    ensures Lo(rows) != NULL_VALUE_64 && Hi(rows) != NULL_VALUE_64
  {
    hide Trunc, Integral, Distinct, MinOf, MaxOf;
    SomeValue(rows);
    ByFloor(MinOf(rows).x, true);
    ByFloor(MaxOf(rows).x, true);
  }

  /** A run that looks unbroken is, and nothing slips, if and only if all its values are integers: a set of
      integers with as many members as its span is the whole span. */
  lemma UnbrokenIffIntegers(col: Column, rows: seq<Value>)
    requires DecimalTerm(Many(rows), true) && |Distinct(rows)| >= 2 && LooksUnbroken(col, rows)
    ensures (forall v :: !InsSlip(col, rows, v)) <==> (forall x :: x in Distinct(rows) ==> Integral(x))
  {
    hide Trunc, Holds, Distinct, EncodeValue64, MinOf, MaxOf, Lo, Hi;
    var s, r := Distinct(rows), Span(Lo(rows), Hi(rows));
    SpanCount(Lo(rows), Hi(rows));
    if forall x :: x in s ==> Integral(x) {
      forall x | x in s ensures x in r {
        MemberInSpan(rows, x);
      }
      SameSize(s, r);
      forall v | Lo(rows) <= v <= Hi(rows) ensures Contains(rows, v) == Yes {
        MembersMean(rows, v);
        SpanMembers(Lo(rows), Hi(rows), v);
      }
    }
    if forall v :: !InsSlip(col, rows, v) {
      forall x | x in r ensures x in s {
        SpanIntegers(Lo(rows), Hi(rows), x);
        SpanMembers(Lo(rows), Hi(rows), x.Floor);
        assert !InsSlip(col, rows, x.Floor);
        MembersMean(rows, x.Floor);
      }
      SameSize(r, s);
      forall x | x in s ensures Integral(x) {
        SpanIntegers(Lo(rows), Hi(rows), x);
      }
    }
  }

  /** An unbroken run of fewer than 65536 integers always looks like one. */
  lemma RunLooksUnbroken(col: Column, rows: seq<Value>, lo: int, hi: int)
    requires col.whole && !HasNull(rows) && DecimalTerm(Many(rows), true)
    requires lo <= hi < lo + 65535 && Distinct(rows) == Span(lo, hi)
    ensures LooksUnbroken(col, rows) && Lo(rows) == lo && Hi(rows) == hi
  {
    hide Trunc, Holds, Distinct, EncodeValue64, MinOf, MaxOf, Integral, HasNull, Span;
    SpanCount(lo, hi);
    SpanMembers(lo, hi, lo);
    SpanMembers(lo, hi, hi);
    MembersMean(rows, lo);
    MembersMean(rows, hi);
    MembersBetween(rows, lo);
    MembersBetween(rows, hi);
    SomeValue(rows);
    InDistinct(rows);
    CodeInSpan(MinOf(rows).x, lo, hi);
    CodeInSpan(MaxOf(rows).x, lo, hi);
  }

  lemma CodeInSpan(x: real, lo: int, hi: int)
    requires x in Span(lo, hi) && Decimal(x, true)
    ensures lo <= EncodeValue64(Dec(x)).v <= hi
  {
    hide Trunc, Holds, Span;
    SpanIntegers(lo, hi, x);
    SpanMembers(lo, hi, x.Floor);
    ByFloor(x, true);
    HoldsByFloor(Ge, PLUS_INF_64, x);
    HoldsByFloor(Le, PLUS_INF_64, x);
    HoldsByFloor(Le, MINUS_INF_64, x);
  }

  lemma MemberInSpan(rows: seq<Value>, x: real)
    requires DecimalTerm(Many(rows), true) && x in Distinct(rows) && Integral(x)
    ensures x in Span(Lo(rows), Hi(rows))
  {
    hide Trunc, Holds, Lo, Hi;
    MembersMean(rows, x.Floor);
    MembersBetween(rows, x.Floor);
    SpanMembers(Lo(rows), Hi(rows), x.Floor);
  }

  function Span(lo: int, hi: int): set<real>
    decreases hi - lo + 1
  {
    if lo > hi then {} else Span(lo, hi - 1) + {hi as real}
  }

  lemma {:induction false} SpanMembers(lo: int, hi: int, v: int)
    ensures v as real in Span(lo, hi) <==> lo <= v <= hi
    decreases hi - lo + 1
  {
    if lo <= hi {
      SpanMembers(lo, hi - 1, v);
      CastOrder(v, hi);
    }
  }

  lemma {:induction false} SpanIntegers(lo: int, hi: int, x: real)
    requires x in Span(lo, hi)
    ensures Integral(x)
    decreases hi - lo + 1
  {
    if x != hi as real {
      SpanIntegers(lo, hi - 1, x);
    }
  }

  lemma {:induction false} SpanCount(lo: int, hi: int)
    requires lo <= hi + 1
    ensures |Span(lo, hi)| == hi - lo + 1
    decreases hi - lo + 1
  {
    if lo <= hi {
      SpanCount(lo, hi - 1);
      SpanMembers(lo, hi - 1, hi);
    }
  }

  lemma SameSize(a: set<real>, b: set<real>)
    requires a <= b && |a| == |b|
    ensures a == b
  {
    assert b == a + (b - a);
  }

  /** The encoder as a whole. */
  function Encode(col: Column, d: Desc): Desc
    requires Formed(d)
  {
    var d1 := WithNulls(col, d);
    if !NeedsMore(d1) then d1
    else
      var d2 := Reshape(col, d1);
      if !NeedsMore(d2) then d2
      else if d2.op.In? || d2.op.NotIn? then Ins(col, d2)
      else OtherThanIns(d2)
  }

  predicate Ordering(rel: Rel) {
    !rel.Eq? && !rel.Ne?
  }

  predicate Membership(op: Op) {
    op.In? || op.NotIn? || op == Compare(Eq, Any) || op == Compare(Ne, All)
  }

  predicate BoundsSlip(op: Op, a: Value, b: Value, v: int) {
    if a.Null? then op.NotBetween? && b.Dec? && v as real > b.x
    else if b.Null? then op.NotBetween? && Slips(Lt, a.x, v)
    else RangeSlips(a.x, b.x, v)
  }

  /** Everything that goes wrong, read off the condition and the cell. */
  predicate Exception(col: Column, d: Desc, cell: Cell)
    requires Formed(d)
  {
    if d.op.IsNull? then col.empty
    else if cell.NullCell? then Membership(d.op) && NullSlips(d.op, d.val1.rows, cell)
    else if Membership(d.op) then InsSlip(col, d.val1.rows, cell.v)
    else if d.op.Compare? then
      Ordering(d.op.rel) && Pivot(d).Dec? && Slips(d.op.rel, Pivot(d).x, cell.v)
        && (d.op.mode.All? ==> !HasNull(d.val1.rows))
    else
      (d.op.Between? || d.op.NotBetween?) && BoundsSlip(d.op, d.val1.value, d.val2.value, cell.v)
  }

  predicate NoNullInAll(d: Desc)
    requires Formed(d)
  {
    (d.op.NotIn? || (d.op.Compare? && d.op.mode.All?)) ==> !HasNull(d.val1.rows)
  }

  lemma AfterNulls(col: Column, d: Desc)
    requires Formed(d)
    ensures NeedsMore(WithNulls(col, d)) ==> WithNulls(col, d) == d && NeedsMore(d) && NoNullInAll(d)
  {
  }

  lemma SettledByNulls(col: Column, d: Desc, cell: Cell)
    requires Formed(d) && !NeedsMore(WithNulls(col, d))
    ensures Exception(col, d, cell) <==> d.op.IsNull? && col.empty
  {
  }

  /** The rewrite selects the same rows, except in exactly these cases. */
  lemma EncodeKeeps(col: Column, d: Desc, cell: Cell)
    requires Numeric(col, d) && col.Admits(cell)
    ensures Formed(Encode(col, d))
    ensures Check(Encode(col, d), cell) == Check(d, cell) <==> !Exception(col, d, cell)
  {
    hide Check, Exception, Ins, OtherThanIns, Reshape, WithNulls, HasNull;
    WithNullsKeeps(col, d, cell);
    if NeedsMore(WithNulls(col, d)) {
      AfterNulls(col, d);
      if Membership(d.op) {
        MembershipKeeps(col, d, cell);
      } else if d.op.Compare? {
        CompareKeeps(col, d, cell);
      } else {
        BoundsKeep(col, d, cell);
      }
    } else {
      SettledByNulls(col, d, cell);
    }
  }

  ghost predicate RestKeeps(col: Column, d: Desc, cell: Cell)
    requires Formed(d) && NeedsMore(d)
  {
    var d2 := Reshape(col, d);
    && Formed(d2)
    && var e := if !NeedsMore(d2) then d2 else if d2.op.In? || d2.op.NotIn? then Ins(col, d2) else OtherThanIns(d2);
    Formed(e) && (Check(e, cell) == Check(d, cell) <==> !Exception(col, d, cell))
  }

  lemma MembershipKeeps(col: Column, d: Desc, cell: Cell)
    requires Numeric(col, d) && col.Admits(cell) && Membership(d.op)
    ensures RestKeeps(col, d, cell)
  {
    hide Ins, InsSlip, HasNull, CheckRows;
    InsKeeps(col, Reshape(col, d), cell);
  }

  lemma CompareKeeps(col: Column, d: Desc, cell: Cell)
    requires Numeric(col, d) && col.Admits(cell) && d.op.Compare? && !Membership(d.op) && NoNullInAll(d)
    ensures RestKeeps(col, d, cell)
  {
    hide Slips, HasNull, ToInterval, Distinct, MinOf, MaxOf;
    var d2 := Reshape(col, d);
    ReshapeKeeps(col, d, cell);
    PivotDecimal(d, col.whole);
    NoExtremes();
    if d2.op.Compare? {
      OnlyOrderings(d2.op.rel, Pivot(d2), cell);
      PivotDecimal(d2, col.whole);
      ToIntervalKeeps(d2, d2.op.rel, Pivot(d2), col.whole, cell);
      PivotDecides(d2, cell);
    }
  }

  lemma NoExtremes()
    ensures MinOf([]) == MaxOf([]) == Null
  {
  }

  lemma OnlyOrderings(rel: Rel, a: Value, cell: Cell)
    ensures cell.Num? && a.Dec? && Slips(rel, a.x, cell.v) ==> Ordering(rel)
  {
  }

  lemma BoundsKeep(col: Column, d: Desc, cell: Cell)
    requires Numeric(col, d) && col.Admits(cell) && (d.op.Between? || d.op.NotBetween?)
    ensures RestKeeps(col, d, cell)
  {
    hide Slips, RangeSlips, ToInterval, ToRange;
    var a, b := d.val1.value, d.val2.value;
    ReshapeKeeps(col, d, cell);
    if a.Dec? && b.Dec? {
      ToRangeKeeps(d, d.op, a, b, col.whole, cell);
    } else if a.Dec? && d.op.NotBetween? {
      ToIntervalKeeps(d.(op := Compare(Lt, Plain)), Lt, a, col.whole, cell);
    }
  }

  /** A bound the packs can be evaluated against: null, or an integer of the 64-bit range. */
  predicate CodeBound(t: Term) {
    && t.Const?
    && (t.value.Dec? ==>
        Integral(t.value.x) && MINUS_INF_64 as real <= t.value.x <= PLUS_INF_64 as real)
  }

  /** The form packs are evaluated in. No comparison is left; the bounds of a range are codes, and only what was
      a range can come out with nothing between them; a set that is left is the one that was given, and neither
      empty, nor a single value, nor an unbroken run; a null test is left only where nulls are possible and are
      not all there is. */
  predicate Evaluable(col: Column, d: Desc, e: Desc)
    requires Formed(d)
  {
    match e.op
    case Between => RangeLeft(d, e) && (d.op.Between? || Upright(e.val1.value, e.val2.value))
    case NotBetween => RangeLeft(d, e) && (d.op.NotBetween? || Upright(e.val1.value, e.val2.value))
    case In => SetLeft(col, d, e)
    case NotIn => SetLeft(col, d, e) && !HasNull(e.val1.rows)
    case IsNull => d.op.IsNull? && (col.additionalNulls || col.nullsPossible) && !col.nullsOnly && !col.empty
    case NotNull => d.op.NotNull? ==> (col.additionalNulls || col.nullsPossible) && !col.nullsOnly
    case True => true
    case False => true
    case Compare(_, _) => false
  }

  predicate RangeLeft(d: Desc, e: Desc)
    requires Formed(d)
  {
    CodeBound(e.val1) && CodeBound(e.val2) && (Membership(d.op) ==> |Distinct(d.val1.rows)| < 65536)
  }

  predicate Upright(a: Value, b: Value) {
    a.Null? || b.Null? || a.x <= b.x
  }

  predicate SetLeft(col: Column, d: Desc, e: Desc)
    requires Formed(d)
  {
    && Membership(d.op) && e.val1 == d.val1
    && (|Distinct(e.val1.rows)| >= 2 || (|Distinct(e.val1.rows)| == 1 && HasNull(e.val1.rows)))
    && !LooksUnbroken(col, e.val1.rows)
  }

  lemma CodeIsBound(v: int)
    requires MINUS_INF_64 <= v <= PLUS_INF_64
    ensures CodeBound(FromInt64(v))
  {
    FloorBounds(v as real, v);
    CastOrder(v, MINUS_INF_64);
    CastOrder(PLUS_INF_64, v);
  }

  lemma CodesUpright(v: int, w: int)
    requires v <= w
    ensures Upright(FromInt64(v).value, FromInt64(w).value)
  {
    CastOrder(w, v);
  }

  /** Codes stay in the 64-bit range, and rounded ones well inside it. */
  lemma CodeInRange(a: Value, whole: bool)
    requires DecimalValue(a, whole)
    ensures var c := EncodeValue64(a);
            MINUS_INF_64 <= c.v <= PLUS_INF_64 && (c.rounded ==> MINUS_INF_64 < c.v < PLUS_INF_64)
  {
    hide EncodeValue64, Integral;
    if a.Dec? {
      ByFloor(a.x, whole);
    } else {
      NullCode();
    }
  }

  lemma NullCode()
    ensures EncodeValue64(Null) == Code(NULL_VALUE_64, false)
  {
  }

  lemma IntervalEvaluable(rel: Rel, v: int)
    requires MINUS_INF_64 <= v <= PLUS_INF_64
    ensures var e := Interval(rel, v);
            && CodeBound(e.val1) && CodeBound(e.val2)
            && (e.op.Between? || e.op.NotBetween?) && Upright(e.val1.value, e.val2.value)
  {
    hide CodeBound, Upright;
    CodeIsBound(v);
    CodeIsBound(MINUS_INF_64);
    CodeIsBound(PLUS_INF_64);
    CodeIsBound(NULL_VALUE_64);
    CodesUpright(v, v);
    CodesUpright(MINUS_INF_64, v);
    CodesUpright(v, PLUS_INF_64);
    if v > MINUS_INF_64 {
      CodeIsBound(v - 1);
      CodesUpright(MINUS_INF_64, v - 1);
    } else {
      CodesUpright(MINUS_INF_64, NULL_VALUE_64);
    }
    if v < PLUS_INF_64 {
      CodeIsBound(v + 1);
      CodesUpright(v + 1, PLUS_INF_64);
    }
  }

  lemma OthersEvaluable(col: Column, d: Desc, r: Desc)
    requires Formed(d) && Formed(r) && DecimalTerm(r.val1, col.whole) && DecimalTerm(r.val2, col.whole)
    requires r.op.Compare? || r.op.Between? || r.op.NotBetween?
    requires (r.op.Between? ==> d.op.Between?) && (r.op.NotBetween? ==> d.op.NotBetween?) && !d.op.NotNull?
    requires !Membership(d.op)
    ensures Evaluable(col, d, OtherThanIns(r))
  {
    hide CodeBound, Upright, EncodeValue64, Interval, Pivot, Decimal, SetLeft, MinOf, MaxOf, FromInt64;
    if r.op.Compare? {
      PivotDecimal(r, col.whole);
      CodeInRange(Pivot(r), col.whole);
      var c := EncodeValue64(Pivot(r));
      IntervalEvaluable(if c.rounded then Shifted(r.op.rel, c.v) else r.op.rel, c.v);
    } else {
      RangeEvaluable(r, r.op, r.val1.value, r.val2.value, col.whole);
    }
  }

  lemma RangeEvaluable(d: Desc, op: Op, a: Value, b: Value, whole: bool)
    requires (op.Between? || op.NotBetween?) && DecimalValue(a, whole) && DecimalValue(b, whole)
    ensures var e := ToRange(d, op, a, b);
            e.op.False? || (e.op == op && CodeBound(e.val1) && CodeBound(e.val2))
  {
    hide CodeBound, EncodeValue64, Decimal, FromInt64;
    CodeInRange(a, whole);
    CodeInRange(b, whole);
    var c1, c2 := EncodeValue64(a), EncodeValue64(b);
    CodeIsBound(if c1.rounded && c1.v >= 0 then c1.v + 1 else c1.v);
    CodeIsBound(if c2.rounded && c2.v < 0 then c2.v - 1 else c2.v);
  }

  lemma InsEvaluable(col: Column, d: Desc, r: Desc)
    requires Formed(d) && Formed(r) && DecimalTerm(r.val1, col.whole) && (r.op.In? || r.op.NotIn?)
    requires Membership(d.op) && r.val1 == d.val1 && (r.op.NotIn? ==> !HasNull(r.val1.rows))
    ensures Evaluable(col, d, Ins(col, r))
  {
    hide CodeBound, Upright, EncodeValue64, Decimal, MinOf, MaxOf, FromInt64, Distinct, HasNull;
    var rows := r.val1.rows;
    ExtremesDecimal(rows, col.whole);
    CodeInRange(MinOf(rows), col.whole);
    CodeInRange(MaxOf(rows), col.whole);
    CodeIsBound(Lo(rows));
    CodeIsBound(Hi(rows));
    CodesUpright(Lo(rows), Lo(rows));
    if Lo(rows) <= Hi(rows) {
      CodesUpright(Lo(rows), Hi(rows));
    }
  }

  lemma ExtremesDecimal(rows: seq<Value>, whole: bool)
    requires DecimalTerm(Many(rows), whole)
    ensures DecimalValue(MinOf(rows), whole) && DecimalValue(MaxOf(rows), whole)
  {
    ExtremesBound(rows);
  }

  lemma ReshapedFrom(col: Column, d: Desc)
    requires Numeric(col, d) && NeedsMore(d)
    ensures var r := Reshape(col, d);
            && Formed(r) && DecimalTerm(r.val1, col.whole) && DecimalTerm(r.val2, col.whole)
            && (r.op.Between? ==> d.op.Between?) && (r.op.NotBetween? ==> d.op.NotBetween?)
            && (r.op.In? || r.op.NotIn? ==> Membership(d.op) && r.val1 == d.val1)
            && (r.op.NotIn? ==> d.op.NotIn? || d.op == Compare(Ne, All))
            && (Membership(d.op) ==> r.op.In? || r.op.NotIn?)
            && (!NeedsMore(r) ==> !r.op.IsNull?)
  {
    hide Decimal, Distinct, HasNull, MinOf, MaxOf;
    match d.val1
    case Many(rows) => ExtremesDecimal(rows, col.whole);
    case _ =>
  }

  /** Whatever the condition, the rewrite brings it into that form. */
  lemma EncodeEvaluable(col: Column, d: Desc)
    requires Numeric(col, d)
    ensures Evaluable(col, d, Encode(col, d))
  {
    hide Reshape, Ins, OtherThanIns, Decimal, Distinct, HasNull;
    var d1 := WithNulls(col, d);
    if NeedsMore(d1) {
      AfterNulls(col, d);
      ReshapedFrom(col, d);
      var r := Reshape(col, d);
      if NeedsMore(r) {
        if r.op.In? || r.op.NotIn? {
          InsEvaluable(col, d, r);
        } else {
          OthersEvaluable(col, d, r);
        }
      }
    }
  }

  /** In particular, an unbroken run of integers becomes a range. */
  lemma RunsBecomeRanges(col: Column, d: Desc, lo: int, hi: int)
    requires Numeric(col, d) && Membership(d.op) && col.whole && !HasNull(d.val1.rows)
    requires lo <= hi < lo + 65535 && Distinct(d.val1.rows) == Span(lo, hi)
    ensures Encode(col, d).op.Between? || Encode(col, d).op.NotBetween?
    ensures Encode(col, d).val1 == FromInt64(lo) && Encode(col, d).val2 == FromInt64(hi)
  {
    hide Span, Distinct, HasNull, EncodeValue64, MinOf, MaxOf, FromInt64, Decimal, Lo, Hi;
    var rows := d.val1.rows;
    RunLooksUnbroken(col, rows, lo, hi);
    SpanCount(lo, hi);
    if |Distinct(rows)| == 1 {
      forall x | x in Distinct(rows) ensures Integral(x) {
        SpanIntegers(lo, hi, x);
      }
      OneOfRun(rows);
    }
  }

  lemma OneOfRun(rows: seq<Value>)
    requires |Distinct(rows)| == 1 && DecimalTerm(Many(rows), true) && Lo(rows) == Hi(rows)
    requires forall x :: x in Distinct(rows) ==> Integral(x)
    ensures EncodeValue64(MinOf(rows)) == Code(Lo(rows), false)
  {
    OneDistinct(rows);
    ExtremesBound(rows);
    InDistinct(rows);
    ByFloor(MinOf(rows).x, true);
  }

  ghost predicate Differs(col: Column, d: Desc, cell: Cell) {
    Numeric(col, d) && col.Admits(cell) && Formed(Encode(col, d)) && Check(Encode(col, d), cell) != Check(d, cell)
  }

  /** One instance of each: a <= -0.5 selects 0. */
  lemma FractionTaken(col: Column)
    requires col.Admits(Num(0))
    ensures Differs(col, Desc(Compare(Le, Plain), Const(Dec(-0.5)), Nothing), Num(0))
  {
    hide Encode, Check;
    EncodeKeeps(col, Desc(Compare(Le, Plain), Const(Dec(-0.5)), Nothing), Num(0));
  }

  /** a > c selects nothing when c is the least code. */
  lemma LeastCodeLosesAll(col: Column, v: int)
    requires col.Admits(Num(v))
    ensures Differs(col, Desc(Compare(Gt, Plain), Const(Dec(MINUS_INF_64 as real)), Nothing), Num(v))
  {
    hide Encode, Check;
    EncodeKeeps(col, Desc(Compare(Gt, Plain), Const(Dec(MINUS_INF_64 as real)), Nothing), Num(v));
  }

  /** a NOT BETWEEN NULL AND 5 does not select 7. */
  lemma NullBoundLosesRows(col: Column)
    requires col.Admits(Num(7))
    ensures Differs(col, Desc(NotBetween, Const(Null), Const(Dec(5.0))), Num(7))
  {
    hide Encode, Check;
    EncodeKeeps(col, Desc(NotBetween, Const(Null), Const(Dec(5.0))), Num(7));
  }

  /** a IN (1.5, 2) selects 1. */
  lemma GapTaken(col: Column)
    requires col.Admits(Num(1)) && col.whole
    ensures Differs(col, Desc(In, Many([Dec(1.5), Dec(2.0)]), Nothing), Num(1))
  {
    hide Encode, Check;
    var rows := [Dec(1.5), Dec(2.0)];
    HalfAndTwo();
    EncodeKeeps(col, Desc(In, Many(rows), Nothing), Num(1));
  }

  lemma HalfAndTwo()
    ensures var rows := [Dec(1.5), Dec(2.0)];
            Lo(rows) == 1 && Hi(rows) == 2 && |Distinct(rows)| == 2 && Contains(rows, 1) == No
  {
    var rows := [Dec(1.5), Dec(2.0)];
    assert rows[1..] == [Dec(2.0)];
    assert MinOf([Dec(2.0)]) == MaxOf([Dec(2.0)]) == Dec(2.0);
    assert MinOf(rows) == Dec(1.5) && MaxOf(rows) == Dec(2.0);
    assert rows[0].x in Distinct(rows) && rows[1].x in Distinct(rows);
    assert Distinct(rows) == {1.5, 2.0};
  }

  /** a NOT IN (a subquery without rows) does not select a null, nor does a <> ALL of it. */
  lemma NullOutOfNothingLost(col: Column, op: Op)
    requires col.Admits(NullCell) && (op == NotIn || op == Compare(Ne, All))
    ensures Differs(col, Desc(op, Many([]), Nothing), NullCell)
  {
    hide Encode, Check;
    EncodeKeeps(col, Desc(op, Many([]), Nothing), NullCell);
  }

  /** a IS NULL does not select the null that an outer join adds to an empty table. */
  lemma JoinedNullLost(col: Column)
    requires col.empty && col.additionalNulls
    ensures Differs(col, Desc(IsNull, Nothing, Nothing), NullCell)
  {
    hide Encode, Check;
    EncodeKeeps(col, Desc(IsNull, Nothing, Nothing), NullCell);
  }
}

/** The encoder itself, which overwrites the descriptor step by step. */
module ConditionEncoders {
  import opened Conditions
  import opened ConditionEncoding

  class Descriptor {
    var op: Op
    var val1: Term
    var val2: Term

    constructor (op: Op, val1: Term, val2: Term)
      ensures View() == Desc(op, val1, val2)
    {
      this.op, this.val1, this.val2 := op, val1, val2;
    }

    ghost function View(): Desc
      reads this
    {
      Desc(op, val1, val2)
    }
  }

  class ConditionEncoder {
    const col: Column
    const desc: Descriptor

    constructor (col: Column, desc: Descriptor)
      ensures this.col == col && this.desc == desc
    {
      this.col, this.desc := col, desc;
    }

    method TransformWithRespectToNulls()
      requires Formed(desc.View())
      modifies desc
      ensures desc.View() == WithNulls(col, old(desc.View()))
    {
      var possible := col.additionalNulls || col.nullsPossible;
      if desc.op.IsNull? {
        if !possible || col.empty {
          desc.op := False;
        } else if col.nullsOnly {
          desc.op := True;
        }
      } else if desc.op.NotNull? {
        if !possible {
          desc.op := True;
        } else if col.nullsOnly {
          desc.op := False;
        }
      }
      if (desc.op.NotIn? || (desc.op.Compare? && desc.op.mode.All?)) && HasNull(desc.val1.rows) {
        desc.op := False;
      }
    }

    method DescriptorTransformation()
      requires Formed(desc.View()) && NeedsMore(desc.View())
      modifies desc
      ensures desc.View() == Reshape(col, old(desc.View()))
    {
      if desc.op.In? || desc.op.NotIn? {
        return;
      }
      if desc.op == Compare(Eq, Any) {
        desc.op := In;
      }
      if desc.op == Compare(Ne, All) {
        desc.op := NotIn;
      }
      NullOperands();
      if desc.op.Compare? && desc.op.mode != Plain {
        ReduceRows();
      }
    }

    /** Operands that are null. */
    method NullOperands()
      requires Formed(desc.View()) && NeedsMore(desc.View())
      modifies desc
      ensures desc.val1 == old(desc.val1) && desc.val2 == old(desc.val2)
      ensures var d := old(desc.View());
              desc.op == if (d.op.Compare? && d.op.mode.Plain?) || d.op.Between? || d.op.NotBetween?
                         then Reshape(col, d).op else d.op
    {
      if desc.val1.Const? && desc.val1.value.Null? && !desc.op.In? && !desc.op.NotIn? {
        desc.op := False;
      } else if desc.op.Between? && desc.val2.value.Null? {
        desc.op := False;
      } else if desc.op.NotBetween? && desc.val2.value.Null? {
        desc.op := Compare(Lt, Plain);
      }
    }

    /** Comparisons with all or any rows that come down to one value or a constant. */
    method ReduceRows()
      requires Formed(desc.View()) && desc.op.Compare? && desc.op.mode != Plain
      requires desc.op != Compare(Eq, Any) && desc.op != Compare(Ne, All)
      modifies desc
      ensures desc.View() == Reshape(col, old(desc.View()))
    {
      hide Distinct, MinOf;
      var rows := desc.val1.rows;
      NoneOfNone();
      if desc.op.mode.All? && |rows| == 0 {
        desc.op := True;
        return;
      }
      if desc.op == Compare(Eq, All) {
        if |Distinct(rows)| == 1 && !HasNull(rows) {
          desc.op, desc.val1 := Compare(Eq, Plain), Const(MinOf(rows));
        } else {
          desc.op := False;
        }
      } else if desc.op == Compare(Ne, Any) {
        if |rows| == 0 || |Distinct(rows)| == 0 {
          desc.op := False;
        } else if |Distinct(rows)| >= 2 {
          desc.op := NotNull;
          TransformWithRespectToNulls();
        } else {
          desc.op, desc.val1 := Compare(Ne, Plain), Const(MinOf(rows));
        }
      }
    }

    method TransformINs()
      requires Formed(desc.View()) && (desc.op.In? || desc.op.NotIn?)
      modifies desc
      ensures desc.View() == Ins(col, old(desc.View()))
    {
      hide Distinct, MinOf, MaxOf, EncodeValue64, HasNull;
      var rows, distinct := desc.val1.rows, |Distinct(desc.val1.rows)|;
      if distinct == 0 {
        if desc.op.In? {
          desc.op := False;
        } else if !HasNull(rows) {
          desc.op := NotNull;
        } else {
          desc.op := False;
        }
      } else if distinct == 1 && !HasNull(rows) {
        var c := EncodeValue64(MinOf(rows));
        if c.rounded {
          desc.op := if desc.op.In? then False else NotNull;
        } else {
          desc.val1, desc.val2 := FromInt64(c.v), FromInt64(c.v);
          desc.op := if desc.op.In? then Between else NotBetween;
        }
      } else if !HasNull(rows) {
        var min, max := EncodeValue64(MinOf(rows)).v, EncodeValue64(MaxOf(rows)).v;
        var span := max - min + 1;
        if col.whole && span > 0 && span < 65536 && span == distinct {
          desc.val1, desc.val2 := FromInt64(min), FromInt64(max);
          desc.op := if desc.op.In? then Between else NotBetween;
        }
      }
    }

    method TransformOtherThanINsOnNumerics()
      requires Formed(desc.View()) && (desc.op.Compare? || desc.op.Between? || desc.op.NotBetween?)
      requires desc.op.NotBetween? ==> desc.val2.value.Dec?
      modifies desc
      ensures desc.View() == OtherThanIns(old(desc.View()))
    {
      hide EncodeValue64, MinOf, MaxOf, FromInt64;
      var c1 := EncodeValue64(Pivot(Desc(desc.op, desc.val1, desc.val2)));
      var c2 := Code(NULL_VALUE_64, false);
      NullEncoded();
      if desc.val2.Const? && desc.val2.value.Dec? {
        c2 := EncodeValue64(desc.val2.value);
      }
      var v1, v2 := c1.v, c2.v;
      if c1.rounded {
        if desc.op.Compare? && desc.op.rel.Eq? {
          desc.op := False;
          return;
        }
        if desc.op.Compare? && desc.op.rel.Ne? {
          desc.op := NotNull;
          return;
        }
        if desc.op.Compare? {
          Shift(v1);
        } else if v1 >= 0 {
          v1 := v1 + 1;
        }
      }
      if c2.rounded && (desc.op.Between? || desc.op.NotBetween?) && v2 < 0 {
        v2 := v2 - 1;
      }
      if v1 == NULL_VALUE_64 || (desc.op.Between? && v2 == NULL_VALUE_64) {
        desc.op := False;
        return;
      }
      Bound(v1, v2);
    }

    /** One after another, as the operators are listed. */
    method Shift(v1: int)
      requires desc.op.Compare?
      modifies desc`op
      ensures desc.op.Compare? && desc.op.rel == Shifted(old(desc.op.rel), v1)
    {
      if desc.op.rel.Lt? && v1 >= 0 {
        desc.op := Compare(Le, Plain);
      }
      if desc.op.rel.Le? && v1 < 0 {
        desc.op := Compare(Lt, Plain);
      }
      if desc.op.rel.Gt? && v1 < 0 {
        desc.op := Compare(Ge, Plain);
      }
      if desc.op.rel.Ge? && v1 >= 0 {
        desc.op := Compare(Gt, Plain);
      }
    }

    /** The bounds of the interval, and the operator that stands for it. */
    method Bound(w1: int, w2: int)
      requires desc.op.Compare? || desc.op.Between? || desc.op.NotBetween?
      requires desc.op.Compare? ==> w2 == NULL_VALUE_64
      modifies desc
      ensures var op := old(desc.op);
              desc.View() == if op.Compare? then Interval(op.rel, w1) else Desc(op, FromInt64(w1), FromInt64(w2))
    {
      hide FromInt64;
      var v1, v2 := w1, w2;
      var negated := desc.op.NotBetween? || (desc.op.Compare? && desc.op.rel.Ne?);
      if desc.op.Compare? {
        if desc.op.rel.Eq? || desc.op.rel.Ne? {
          v2 := v1;
        }
        if desc.op.rel.Lt? {
          if v1 > MINUS_INF_64 {
            v2 := v1 - 1;
          }
          v1 := MINUS_INF_64;
        }
        if desc.op.rel.Gt? {
          if v1 != PLUS_INF_64 {
            v1 := v1 + 1;
          }
          v2 := PLUS_INF_64;
        }
        if desc.op.rel.Le? {
          v2 := v1;
          v1 := MINUS_INF_64;
        }
        if desc.op.rel.Ge? {
          v2 := PLUS_INF_64;
        }
      }
      desc.op := if negated then NotBetween else Between;
      desc.val1, desc.val2 := FromInt64(v1), FromInt64(v2);
    }

    /** The whole rewrite: for every row the column can have, the new condition selects it exactly when the
        old one did, but for the exceptions. */
    method DoEncode()
      requires Numeric(col, desc.View())
      modifies desc
      ensures desc.View() == Encode(col, old(desc.View())) && Formed(desc.View())
      ensures Evaluable(col, old(desc.View()), desc.View())
      ensures forall cell :: col.Admits(cell) ==>
                (Check(desc.View(), cell) == Check(old(desc.View()), cell) <==> !Exception(col, old(desc.View()), cell))
    {
      hide Reshape, WithNulls, Ins, OtherThanIns, Check, Exception, NeedsMore, Evaluable;
      ghost var d := desc.View();
      EncodeEvaluable(col, d);
      AnyCellKept(col, d);
      TransformWithRespectToNulls();
      if desc.op.IsNull? || desc.op.NotNull? || desc.op.False? || desc.op.True? {
        Settled(desc.View());
        return;
      }
      Unsettled(desc.View());
      DescriptorTransformation();
      if desc.op.IsNull? || desc.op.NotNull? || desc.op.False? || desc.op.True? {
        Settled(desc.View());
        return;
      }
      Unsettled(desc.View());
      ReshapedBounds(col, WithNulls(col, d));
      if desc.op.In? || desc.op.NotIn? {
        TransformINs();
      } else {
        TransformOtherThanINsOnNumerics();
      }
    }
  }

  lemma AnyCellKept(col: Column, d: Desc)
    requires Numeric(col, d)
    ensures Formed(Encode(col, d))
    ensures forall cell :: col.Admits(cell) ==>
              (Check(Encode(col, d), cell) == Check(d, cell) <==> !Exception(col, d, cell))
  {
    hide Encode, Check, Exception;
    EncodedFormed(col, d);
    forall cell | col.Admits(cell)
      ensures Check(Encode(col, d), cell) == Check(d, cell) <==> !Exception(col, d, cell)
    {
      EncodeKeeps(col, d, cell);
    }
  }

  lemma EncodedFormed(col: Column, d: Desc)
    requires Numeric(col, d)
    ensures Formed(Encode(col, d))
  {
    hide WithNulls, Reshape, Ins, OtherThanIns, NeedsMore, Formed;
    var d1 := WithNulls(col, d);
    if NeedsMore(d1) && NeedsMore(Reshape(col, d1)) {
      RewriteFormed(col, Reshape(col, d1));
    }
  }

  lemma RewriteFormed(col: Column, d: Desc)
    requires Formed(d) && NeedsMore(d)
    ensures if d.op.In? || d.op.NotIn? then Formed(Ins(col, d)) else Formed(OtherThanIns(d))
  {
    hide EncodeValue64, MinOf, MaxOf, Distinct, HasNull;
  }

  lemma Settled(d: Desc)
    requires d.op.IsNull? || d.op.NotNull? || d.op.False? || d.op.True?
    ensures !NeedsMore(d)
  {
  }

  lemma Unsettled(d: Desc)
    requires !(d.op.IsNull? || d.op.NotNull? || d.op.False? || d.op.True?)
    ensures NeedsMore(d)
  {
  }

  lemma ReshapedBounds(col: Column, d: Desc)
    requires Formed(d) && NeedsMore(d) && NeedsMore(Reshape(col, d))
    ensures var r := Reshape(col, d);
            (r.op.In? || r.op.NotIn? || r.op.Compare? || r.op.Between? || r.op.NotBetween?)
            && (r.op.NotBetween? ==> r.val2.value.Dec?)
  {
  }

  lemma NullEncoded()
    ensures EncodeValue64(Null) == Code(NULL_VALUE_64, false)
  {
  }
}
