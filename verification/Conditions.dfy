/** Conditions on one column and what they mean, as rows are checked against them. Constants are exact
    decimal numbers in units of the column's last decimal place, so that a cell is an integer. */
module Conditions {
  const PLUS_INF_64: int := 0x7FFF_FFFF_FFFF_FFFF
  const MINUS_INF_64: int := -0x8000_0000_0000_0000
  const NULL_VALUE_64: int := MINUS_INF_64 + 1

  datatype Rel = Eq | Ne | Lt | Le | Gt | Ge

  datatype Mode = Plain | All | Any

  /** O_LESS is Compare(Lt, Plain), O_LESS_ANY is Compare(Lt, Any), and so on. */
  datatype Op = Compare(rel: Rel, mode: Mode) | IsNull | NotNull | Between | NotBetween | In | NotIn | False | True

  datatype Value = Null | Dec(x: real)

  /** No operand, a constant, or the rows of a list or subquery. */
  datatype Term = Nothing | Const(value: Value) | Many(rows: seq<Value>)

  datatype Cell = NullCell | Num(v: int) {
    predicate Valid() {
      Num? ==> NULL_VALUE_64 < v < PLUS_INF_64
    }
  }

  datatype Desc = Desc(op: Op, val1: Term, val2: Term)

  datatype Tri = Yes | No | Unknown

  predicate Holds(rel: Rel, v: int, x: real) {
    match rel
    case Eq => v as real == x
    case Ne => v as real != x
    case Lt => (v as real) < x
    case Le => v as real <= x
    case Gt => v as real > x
    case Ge => v as real >= x
  }

  predicate HasNull(rows: seq<Value>) {
    exists i :: 0 <= i < |rows| && rows[i].Null?
  }

  function Contains(rows: seq<Value>, v: int): Tri {
    if exists i :: 0 <= i < |rows| && rows[i] == Dec(v as real) then Yes
    else if HasNull(rows) then Unknown else No
  }

  function Lesser(a: Value, b: Value): Value {
    if a.Null? then b else if b.Null? then a else if a.x <= b.x then a else b
  }

  function Greater(a: Value, b: Value): Value {
    if a.Null? then b else if b.Null? then a else if a.x >= b.x then a else b
  }

  /** The least and greatest value that is not null; null if there is none. */
  function MinOf(rows: seq<Value>): Value {
    if rows == [] then Null else Lesser(rows[0], MinOf(rows[1..]))
  }

  function MaxOf(rows: seq<Value>): Value {
    if rows == [] then Null else Greater(rows[0], MaxOf(rows[1..]))
  }

  predicate HoldsOn(rel: Rel, v: int, a: Value) {
    a.Dec? && Holds(rel, v, a.x)
  }

  /** Comparisons with all or any rows, by the least or greatest row where that decides. */
  predicate CheckRows(rel: Rel, mode: Mode, rows: seq<Value>, cell: Cell)
    requires mode != Plain
  {
    match (rel, mode)
    case (Eq, All) => forall i :: 0 <= i < |rows| ==> cell.Num? && HoldsOn(Eq, cell.v, rows[i])
    case (Eq, Any) => cell.Num? && Contains(rows, cell.v) == Yes
    case (Ne, All) => |rows| == 0 || (cell.Num? && Contains(rows, cell.v) == No)
    case (Ne, Any) => cell.Num? && exists i :: 0 <= i < |rows| && HoldsOn(Ne, cell.v, rows[i])
    case (_, All) =>
      |rows| == 0
      || (cell.Num? && !HasNull(rows) && HoldsOn(rel, cell.v, if rel.Lt? || rel.Le? then MinOf(rows) else MaxOf(rows)))
    case (_, Any) =>
      |rows| != 0 && cell.Num? && HoldsOn(rel, cell.v, if rel.Lt? || rel.Le? then MaxOf(rows) else MinOf(rows))
  }

  function AtLeast(v: int, a: Value): Tri {
    if a.Null? then Unknown else if v as real >= a.x then Yes else No
  }

  function AtMost(v: int, a: Value): Tri {
    if a.Null? then Unknown else if v as real <= a.x then Yes else No
  }

  predicate Unused(t: Term) {
    t == Nothing || t == Const(Null)
  }

  /** Operands fit the operator. */
  predicate Formed(d: Desc) {
    match d.op
    case Compare(_, Plain) => d.val1.Const? && Unused(d.val2)
    case Compare(_, _) => d.val1.Many? && Unused(d.val2)
    case Between => d.val1.Const? && d.val2.Const?
    case NotBetween => d.val1.Const? && d.val2.Const?
    case In => d.val1.Many?
    case NotIn => d.val1.Many?
    case _ => true
  }

  /** Whether a row is selected. */
  predicate Check(d: Desc, cell: Cell)
    requires Formed(d)
  {
    match d.op
    case True => true
    case False => false
    case IsNull => cell.NullCell?
    case NotNull => cell.Num?
    case Compare(rel, Plain) => cell.Num? && HoldsOn(rel, cell.v, d.val1.value)
    case Compare(rel, mode) => CheckRows(rel, mode, d.val1.rows, cell)
    case In => CheckRows(Eq, Any, d.val1.rows, cell)
    case NotIn => CheckRows(Ne, All, d.val1.rows, cell)
    case Between => cell.Num? && AtLeast(cell.v, d.val1.value) == Yes && AtMost(cell.v, d.val2.value) == Yes
    case NotBetween => cell.Num? && (AtLeast(cell.v, d.val1.value) == No || AtMost(cell.v, d.val2.value) == No)
  }

  /** What SQL means by a comparison with all or any rows: true of the whole set only if known to be true
      of every row, or of some row. */
  ghost predicate SqlRows(rel: Rel, mode: Mode, rows: seq<Value>, cell: Cell) {
    if mode.All? then forall i :: 0 <= i < |rows| ==> cell.Num? && HoldsOn(rel, cell.v, rows[i])
    else exists i :: 0 <= i < |rows| && cell.Num? && HoldsOn(rel, cell.v, rows[i])
  }

  lemma {:induction false} ExtremesBound(rows: seq<Value>)
    ensures forall i :: 0 <= i < |rows| && rows[i].Dec? ==>
              MinOf(rows).Dec? && MinOf(rows).x <= rows[i].x && MaxOf(rows).Dec? && MaxOf(rows).x >= rows[i].x
    ensures MinOf(rows).Dec? ==> MinOf(rows) in rows
    ensures MaxOf(rows).Dec? ==> MaxOf(rows) in rows
    ensures MinOf(rows).Dec? <==> MaxOf(rows).Dec?
  {
    if rows != [] {
      ExtremesBound(rows[1..]);
      assert rows == [rows[0]] + rows[1..];
    }
  }

  /** Rows are selected as SQL has it, nulls and empty sets included. */
  lemma CheckedAsSql(rel: Rel, mode: Mode, rows: seq<Value>, cell: Cell)
    requires mode != Plain
    ensures CheckRows(rel, mode, rows, cell) == SqlRows(rel, mode, rows, cell)
  {
    ExtremesBound(rows);
    if rows != [] && !HasNull(rows) {
      assert rows[0].Dec?;
    }
  }
}
