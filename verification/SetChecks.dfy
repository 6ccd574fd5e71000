/** How an IN that the rewrite leaves in place is checked row by row, when its set is a subquery: by the code of
    the row, which the subquery takes for a number of its own scale. */
module SetChecks {
  import opened Conditions
  import opened ConditionEncoding
  import opened DecimalCodes

  /** The row's code in a column of `places` decimal places, among the rows of a subquery of `own` places. */
  predicate CheckCode(op: Op, rows: seq<Value>, cell: Cell, places: nat, own: nat)
    requires op.In? || op.NotIn?
  {
    match cell
    case NullCell => op.NotIn? && |rows| == 0
    case Num(v) =>
      var read := Dec(InUnits(v, own, places));
      if op.In? then read in rows else read !in rows && !HasNull(rows)
  }

  ghost predicate Agrees(op: Op, cell: Cell, places: nat, own: nat)
    requires op.In? || op.NotIn?
  {
    forall rows ::
      CheckCode(op, rows, cell, places, own) == Check(Desc(op, Many(rows), Nothing), cell)
  }

  /** The check is that of the values, for all subqueries, if and only if the scales are equal or the scale does
      not matter to the row. */
  lemma AgreesIff(op: Op, cell: Cell, places: nat, own: nat)
    requires op.In? || op.NotIn?
    ensures Agrees(op, cell, places, own) <==> cell.NullCell? || cell.v == 0 || places == own
  {
    hide InUnits;
    if cell.Num? {
      ReadAsItself(cell.v, own, places);
      var read := InUnits(cell.v, own, places);
      if read == cell.v as real {
        forall rows
          ensures CheckCode(op, rows, cell, places, own) == Check(Desc(op, Many(rows), Nothing), cell)
        {
          assert Dec(read) in rows <==> exists i :: 0 <= i < |rows| && rows[i] == Dec(cell.v as real);
        }
      } else {
        var one := [Dec(cell.v as real)];
        assert one[0] == Dec(cell.v as real);
        assert CheckCode(op, one, cell, places, own) != Check(Desc(op, Many(one), Nothing), cell);
      }
    }
  }

  lemma ReadAsItself(v: int, own: nat, places: nat)
    ensures InUnits(v, own, places) == v as real <==> v == 0 || places == own
  {
    if own <= places {
      AboveTen(places - own);
      TimesOne(v, Pow10(places - own));
    } else {
      AboveTen(own - places);
      OverOne(v as real, Pow10(own - places) as real);
    }
  }

  lemma AboveTen(n: nat)
    ensures Pow10(n) == 1 <==> n == 0
  {
  }

  lemma TimesOne(v: int, p: nat)
    requires p > 0
    ensures v * p == v <==> v == 0 || p == 1
  {
    assert v * p - v == v * (p - 1);
  }

  lemma OverOne(x: real, p: real)
    requires p > 0.0
    ensures x / p == x <==> x == 0.0 || p == 1.0
  {
    var y := x / p;
    assert y * p == x;
    var a := if x < 0.0 then -x else x;
    if a > 0.0 {
      RealOrder(1.0, p, a);
      RealOrder(p, 1.0, a);
      assert y == x ==> p * a == a;
    }
  }

  /** a IN (1.5, 2.5, 9) of a subquery with one decimal place, on an integer column: the rewrite leaves it, and 15
      is taken for 1.5. */
  lemma FifteenTaken(col: Column)
    ensures var d := Desc(In, Many([Dec(1.5), Dec(2.5), Dec(9.0)]), Nothing);
            Encode(col, d) == d && !Check(d, Num(15)) && CheckCode(In, d.val1.rows, Num(15), 0, 1)
  {
    var rows := [Dec(1.5), Dec(2.5), Dec(9.0)];
    ThreeRows();
    assert Pow10(1) == 10;
    assert InUnits(15, 1, 0) == 1.5;
    assert rows[0] == Dec(1.5);
  }

  lemma ThreeRows()
    ensures var rows := [Dec(1.5), Dec(2.5), Dec(9.0)];
            Lo(rows) == 1 && Hi(rows) == 9 && |Distinct(rows)| == 3 && Contains(rows, 15) == No
  {
    var rows := [Dec(1.5), Dec(2.5), Dec(9.0)];
    assert rows[1..] == [Dec(2.5), Dec(9.0)] && rows[1..][1..] == [Dec(9.0)];
    assert MinOf([Dec(9.0)]) == MaxOf([Dec(9.0)]) == Dec(9.0);
    assert MinOf(rows) == Dec(1.5) && MaxOf(rows) == Dec(9.0);
    assert rows[0].x in Distinct(rows) && rows[1].x in Distinct(rows) && rows[2].x in Distinct(rows);
    assert Distinct(rows) == {1.5, 2.5, 9.0};
  }
}
