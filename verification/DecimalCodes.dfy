/** How a decimal constant becomes a 64-bit code: a value with a scale is multiplied or divided by ten until
    it has the column's scale. */
module DecimalCodes {
  import opened Arith
  import opened Conditions
  import opened ConditionEncoding

  function Pow10(n: nat): (r: nat)
    ensures r >= 1
  {
    if n == 0 then 1 else 10 * Pow10(n - 1)
  }

  /** The constant in units of the column's last decimal place. */
  function InUnits(value: int, scale: nat, places: nat): real {
    if scale <= places then (value * Pow10(places - scale)) as real
    else value as real / Pow10(scale - places) as real
  }

  /** Division that truncates toward zero. */
  function Quotient(v: int, p: nat): int
    requires p > 0
  {
    if v >= 0 then Div(v, p) else -Div(-v, p)
  }

  /** Floor division and its remainder. */
  function Div(v: int, p: nat): int
    requires p > 0
  {
    v / p
  }

  function Mod(v: int, p: nat): int
    requires p > 0
  {
    v % p
  }

  lemma DivOfZero()
    ensures Div(0, 10) == 0
  {
  }

  lemma DivSign(v: int, p: nat)
    requires p > 0 && v >= 0
    ensures Div(v, p) >= 0
  {
    var q := v / p;
    assert v < q * p + p;
    if q < 0 {
      MulMonotone(q, -1, p);
    }
  }

  lemma RealOrder(a: real, b: real, c: real)
    requires c > 0.0
    ensures a < b <==> a * c < b * c
  {
  }

  lemma CastProduct(a: int, b: int)
    ensures (a * b) as real == a as real * b as real
  {
  }

  lemma QuotientFloor(v: int, p: nat)
    requires p > 0
    ensures (v as real / p as real).Floor == Div(v, p)
    ensures Integral(v as real / p as real) <==> Mod(v, p) == 0
  {
    var x, q, m := v as real / p as real, v / p, v % p;
    assert v == q * p + m;
    CastProduct(q, p);
    assert v as real == q as real * p as real + m as real;
    assert x * p as real == v as real;
    QuotientBounds(x, q, m, p);
    FloorBounds(x, q);
  }

  lemma QuotientBounds(x: real, q: int, m: int, p: nat)
    requires 0 <= m < p && x * p as real == q as real * p as real + m as real
    ensures q as real <= x < q as real + 1.0
    ensures x == q as real <==> m == 0
  {
    var r, c := m as real, p as real;
    assert 0.0 <= r < c;
    assert r == 0.0 <==> m == 0;
    RealBounds(x, q as real, r, c);
  }

  lemma RealBounds(x: real, y: real, r: real, c: real)
    requires 0.0 <= r < c && x * c == y * c + r
    ensures y <= x < y + 1.0
    ensures x == y <==> r == 0.0
  {
    assert (y + 1.0) * c == y * c + c;
    RealOrder(x, y, c);
    RealOrder(y, x, c);
    RealOrder(x, y + 1.0, c);
  }

  lemma QuotientByFloor(v: int, p: nat)
    requires p > 0
    ensures Quotient(v, p) == if Div(v, p) < 0 && Mod(v, p) != 0 then Div(v, p) + 1 else Div(v, p)
  {
    hide Div, Mod;
    if v < 0 {
      NegatedQuotient(v, p);
    } else {
      DivSign(v, p);
    }
  }

  lemma NegatedQuotient(v: int, p: nat)
    requires p > 0 && v < 0
    ensures Div(v, p) < 0
    ensures Div(-v, p) == if Mod(v, p) == 0 then -Div(v, p) else -Div(v, p) - 1
  {
    var q, m := v / p, v % p;
    assert v == q * p + m;
    if q >= 0 {
      MulMonotone(0, q, p);
      assert false;
    }
    if m == 0 {
      assert -v == (-q) * p;
      DivUnique(-v, p, -q, 0);
    } else {
      assert -v == (-q - 1) * p + (p - m);
      DivUnique(-v, p, -q - 1, p - m);
    }
  }

  lemma EncodeByFloor(x: real)
    ensures EncodeValue64(Dec(x)) == CodeAt(x.Floor, !Integral(x))
  {
    hide Trunc, Integral;
    TruncByFloor(x);
  }

  lemma WholeByFloor(n: int)
    ensures (n as real).Floor == n && Integral(n as real)
  {
    FloorBounds(n as real, n);
  }

  /** Dividing by ten again. */
  lemma QuotientAgain(v: int, p: nat)
    requires p > 0
    ensures Quotient(Quotient(v, p), 10) == Quotient(v, 10 * p)
    ensures Mod(v, 10 * p) != 0 <==> Mod(v, p) != 0 || Mod(Quotient(v, p), 10) != 0
  {
    hide Div, Mod;
    if v >= 0 {
      DivSign(v, p);
      NatAgain(v, p);
    } else {
      DivSign(-v, p);
      DivOfZero();
      NatAgain(-v, p);
      SignlessRemainder(v, p);
      SignlessRemainder(v, 10 * p);
      SignlessRemainder(Quotient(v, p), 10);
    }
  }

  lemma NatAgain(n: nat, p: nat)
    requires p > 0
    ensures Div(Div(n, p), 10) == Div(n, 10 * p)
    ensures Mod(n, 10 * p) != 0 <==> Mod(n, p) != 0 || Mod(Div(n, p), 10) != 0
  {
    var q, m := n / p, n % p;
    var k, l := q / 10, q % 10;
    assert n == q * p + m && q == 10 * k + l;
    assert q * p == k * (10 * p) + l * p;
    MulMonotone(l, 9, p);
    MulMonotone(0, l, p);
    DivUnique(n, 10 * p, k, l * p + m);
    if l > 0 {
      MulMonotone(1, l, p);
    }
  }

  lemma SignlessRemainder(v: int, p: nat)
    requires p > 0
    ensures Mod(v, p) == 0 <==> Mod(-v, p) == 0
  {
    var q, m := v / p, v % p;
    assert v == q * p + m;
    if m == 0 {
      assert -v == (-q) * p + 0;
      DivUnique(-v, p, -q, 0);
    } else {
      assert -v == (-q - 1) * p + (p - m);
      DivUnique(-v, p, -q - 1, p - m);
    }
  }

  /** The two loops compute the truncated, saturated code of the constant. */
  method EncodeDecimal(value: int, scale: nat, places: nat) returns (c: Code)
    requires MINUS_INF_64 <= value <= PLUS_INF_64
    ensures c == EncodeValue64(Dec(InUnits(value, scale, places)))
  {
    hide EncodeValue64, Pow10, Quotient, InUnits, Mod;
    var vv, vp, rounded := value, scale, false;
    while vp < places
      invariant scale <= vp && (scale <= places ==> vp <= places) && (vp > places ==> vp == scale)
      invariant MINUS_INF_64 <= vv <= PLUS_INF_64
      invariant vp <= places ==> vv * Pow10(places - vp) == value * Pow10(places - scale)
      invariant vp > places ==> vv == value
    {
      PowTenTimes(vv, places - vp);
      if vv < -922337203685477580 || vv > 922337203685477580 {
        Saturates(vv, places - vp, value, scale, places);
        return Code(if vv < 0 then MINUS_INF_64 else PLUS_INF_64, false);
      }
      vv := vv * 10;
      vp := vp + 1;
    }
    StartDividing(value);
    while vp > places
      invariant places <= vp <= scale || vp == places
      invariant vp < scale || rounded == false
      invariant scale > places ==>
                  vv == Quotient(value, Pow10(scale - vp)) && (rounded <==> Mod(value, Pow10(scale - vp)) != 0)
      invariant scale <= places ==> !rounded && vp == places && vv * Pow10(0) == value * Pow10(places - scale)
      invariant MINUS_INF_64 <= vv <= PLUS_INF_64
    {
      QuotientAgain(value, Pow10(scale - vp));
      PowTenNext(scale - vp);
      QuotientSmaller(vv);
      if Mod(vv, 10) != 0 {
        rounded := true;
      }
      vv := Quotient(vv, 10);
      vp := vp - 1;
    }
    Encoded(value, scale, places, vv, rounded);
    return Code(vv, rounded);
  }

  lemma PowTenTimes(v: int, k: nat)
    requires k > 0
    ensures v * Pow10(k) == v * 10 * Pow10(k - 1)
  {
  }

  lemma PowTenNext(k: nat)
    ensures Pow10(k + 1) == 10 * Pow10(k)
  {
  }

  lemma StartDividing(v: int)
    ensures Pow10(0) == 1 && Quotient(v, 1) == v && Mod(v, 1) == 0
  {
  }

  lemma QuotientSmaller(v: int)
    requires MINUS_INF_64 <= v <= PLUS_INF_64
    ensures MINUS_INF_64 <= Quotient(v, 10) <= PLUS_INF_64
  {
  }

  lemma Saturates(vv: int, k: nat, value: int, scale: nat, places: nat)
    requires k > 0 && scale <= places && (vv < -922337203685477580 || vv > 922337203685477580)
    requires vv * Pow10(k) == value * Pow10(places - scale)
    ensures EncodeValue64(Dec(InUnits(value, scale, places)))
              == Code(if vv < 0 then MINUS_INF_64 else PLUS_INF_64, false)
  {
    hide EncodeValue64;
    var n := value * Pow10(places - scale);
    WholeByFloor(n);
    EncodeByFloor(n as real);
    PowTenTimes(vv, k);
    if vv > 0 {
      MulMonotone(1, Pow10(k - 1), vv * 10);
    } else {
      MulMonotone(1, Pow10(k - 1), -(vv * 10));
      assert vv * 10 * Pow10(k - 1) == -(-(vv * 10) * Pow10(k - 1));
    }
  }

  lemma Encoded(value: int, scale: nat, places: nat, vv: int, rounded: bool)
    requires MINUS_INF_64 <= value <= PLUS_INF_64 && MINUS_INF_64 <= vv <= PLUS_INF_64
    requires scale <= places ==> !rounded && vv * Pow10(0) == value * Pow10(places - scale)
    requires scale > places ==>
               vv == Quotient(value, Pow10(scale - places)) && (rounded <==> Mod(value, Pow10(scale - places)) != 0)
    ensures EncodeValue64(Dec(InUnits(value, scale, places))) == Code(vv, rounded)
  {
    hide EncodeValue64, Quotient, Div, Mod;
    EncodeByFloor(InUnits(value, scale, places));
    if scale <= places {
      WholeByFloor(value * Pow10(places - scale));
    } else {
      var p := Pow10(scale - places);
      QuotientFloor(value, p);
      QuotientByFloor(value, p);
    }
  }

  /** Every constant is a decimal as the rewrite supposes. */
  lemma ConstantsAreDecimals(value: int, scale: nat, places: nat)
    requires MINUS_INF_64 <= value <= PLUS_INF_64 && value != NULL_VALUE_64
    ensures Decimal(InUnits(value, scale, places), places == 0)
  {
    hide Pow10;
    if scale <= places {
      var n := value * Pow10(places - scale);
      WholeByFloor(n);
      TensDiffer(value, places - scale);
    } else {
      FractionsSmall(value, scale - places);
    }
  }

  lemma TensDiffer(value: int, k: nat)
    requires value != NULL_VALUE_64
    ensures value * Pow10(k) != NULL_VALUE_64 && (k == 0 ==> value * Pow10(k) == value)
  {
    if k > 0 {
      var m := value * Pow10(k - 1);
      assert value * Pow10(k) == 10 * m;
    }
  }

  lemma FractionsSmall(value: int, k: nat)
    requires MINUS_INF_64 <= value <= PLUS_INF_64 && k > 0
    ensures var x := value as real / Pow10(k) as real; -922337203685477581.0 < x < 922337203685477581.0
  {
    var p := Pow10(k) as real;
    assert p >= 10.0;
    var x := value as real / p;
    assert x * p == value as real;
    RealOrder(-922337203685477581.0, x, p);
    RealOrder(x, 922337203685477581.0, p);
    RealOrder(9.0, p, 922337203685477581.0);
  }
}
