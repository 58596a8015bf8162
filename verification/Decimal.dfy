/** Decimal shifts, magnitudes of weighted digit strings, and the two roundings the
    arithmetic promises: half away from zero, and toward zero. */
module Decimal {
  import opened Radix

  /** x times ten to the power e, for e of either sign. */
  ghost function Shift(x: real, e: int): real
    decreases if e < 0 then -e else e
  {
    if e == 0 then x else if e > 0 then Shift(x * 10.0, e - 1) else Shift(x / 10.0, e + 1)
  }

  lemma {:induction false} ShiftSucc(x: real, e: int)
    ensures Shift(x, e + 1) == Shift(x * 10.0, e) == Shift(x, e) * 10.0
    ensures Shift(x, e) == Shift(x / 10.0, e + 1)
    decreases if e < 0 then -e else e
  {
    if e > 0 {
      ShiftSucc(x * 10.0, e - 1);
      ShiftSucc(x, e - 1);
    } else if e < 0 {
      ShiftSucc(x / 10.0, e + 1);
      if e < -1 { ShiftSucc(x, e + 1); }
    }
  }

  lemma {:induction false} ShiftAdd(x: real, a: int, b: int)
    ensures Shift(Shift(x, a), b) == Shift(x, a + b)
    decreases if b < 0 then -b else b
  {
    if b > 0 {
      ShiftAdd(x * 10.0, a, b - 1);
      ShiftSucc(x, a);
      ShiftSucc(x, a + b - 1);
    } else if b < 0 {
      ShiftAdd(x / 10.0, a, b + 1);
      ShiftSucc(x / 10.0, a);
      ShiftSucc(x / 10.0, a + b);
    }
  }

  lemma ShiftBack(x: real, e: int)
    ensures Shift(Shift(x, e), -e) == x
  {
    ShiftAdd(x, e, -e);
  }

  lemma {:induction false} ShiftSum(x: real, y: real, e: int)
    ensures Shift(x + y, e) == Shift(x, e) + Shift(y, e)
    ensures Shift(x - y, e) == Shift(x, e) - Shift(y, e)
    decreases if e < 0 then -e else e
  {
    if e > 0 { ShiftSum(x * 10.0, y * 10.0, e - 1); } else if e < 0 { ShiftSum(x / 10.0, y / 10.0, e + 1); }
  }

  lemma {:induction false} ShiftMul(x: real, y: real, e: int)
    ensures Shift(x * y, e) == x * Shift(y, e)
    decreases if e < 0 then -e else e
  {
    if e > 0 {
      var z := y * 10.0;
      ShiftMul(x, z, e - 1);
      var p, q := x * y, x * z;
      assert p * 10.0 == q;
      assert Shift(p, e) == Shift(p * 10.0, e - 1) == Shift(q, e - 1);
      SameFactor(x, Shift(z, e - 1), Shift(y, e));
    } else if e < 0 {
      var z := y / 10.0;
      ShiftMul(x, z, e + 1);
      var p, q := x * y, x * z;
      assert p / 10.0 == q;
      assert Shift(p, e) == Shift(p / 10.0, e + 1) == Shift(q, e + 1);
      SameFactor(x, Shift(z, e + 1), Shift(y, e));
    }
  }

  lemma SameFactor(x: real, y: real, z: real)
    requires y == z
    ensures x * y == x * z
  {
  }

  lemma {:induction false} ShiftZero(e: int)
    ensures Shift(0.0, e) == 0.0
    decreases if e < 0 then -e else e
  {
    if e > 0 { ShiftZero(e - 1); } else if e < 0 { ShiftZero(e + 1); }
  }

  lemma {:induction false} ShiftLt(x: real, y: real, e: int)
    ensures x < y <==> Shift(x, e) < Shift(y, e)
    ensures x <= y <==> Shift(x, e) <= Shift(y, e)
    decreases if e < 0 then -e else e
  {
    if e > 0 { ShiftLt(x * 10.0, y * 10.0, e - 1); } else if e < 0 { ShiftLt(x / 10.0, y / 10.0, e + 1); }
  }

  lemma ShiftPositive(x: real, e: int)
    ensures x > 0.0 <==> Shift(x, e) > 0.0
    ensures x >= 0.0 <==> Shift(x, e) >= 0.0
  {
    ShiftZero(e);
    ShiftLt(0.0, x, e);
  }

  lemma {:induction false} ShiftGrow(x: real, a: int, b: int)
    requires x >= 0.0 && a <= b
    ensures Shift(x, a) <= Shift(x, b)
    decreases b - a
  {
    if a < b {
      ShiftGrow(x, a, b - 1);
      ShiftSucc(x, b - 1);
      ShiftPositive(x, b - 1);
    }
  }

  /** The integer 10^k. */
  ghost function TenNat(k: nat): (p: nat)
    ensures p >= 1
  {
    if k == 0 then 1 else TenNat(k - 1) * 10
  }

  lemma {:induction false} ShiftTenNat(n: int, k: nat)
    ensures Shift(n as real, k) == (n * TenNat(k)) as real
    decreases k
  {
    if k > 0 {
      ShiftTenNat(n, k - 1);
      ShiftSucc(n as real, k - 1);
      TimesTen(n, TenNat(k - 1));
    }
  }

  lemma TimesTen(x: int, t: int)
    ensures x * (t * 10) == x * t * 10 && ((x * t) as real) * 10.0 == (x * t * 10) as real
  {
  }

  lemma {:induction false} ShiftLift(n: int, k: nat)
    ensures Shift(n as real, 4 * k) == Lift(n, k) as real
    decreases k
  {
    if k > 0 {
      ShiftLift(n, k - 1);
      var x := n as real;
      ShiftSucc(x, 4 * k - 4);
      ShiftSucc(x, 4 * k - 3);
      ShiftSucc(x, 4 * k - 2);
      ShiftSucc(x, 4 * k - 1);
      LiftSucc(n, k - 1);
    }
  }

  /** The product, under a name: equal factors then give equal products without any algebra. */
  ghost function Mult(x: real, y: real): real { x * y }

  ghost predicate IsInteger(x: real) { x == x.Floor as real }

  ghost function AbsR(x: real): real { if x < 0.0 then -x else x }

  lemma FloorIs(x: real, k: int)
    requires k as real <= x < k as real + 1.0
    ensures x.Floor == k
  {
  }

  lemma IntegerIs(x: real, k: int)
    requires x == k as real
    ensures IsInteger(x)
  {
  }

  /** The magnitude of the digits s whose first digit has weight w: sum of s[i] * NBASE^(w-i). */
  ghost function Mag(s: seq<int>, w: int): real {
    Shift(Nat(s) as real, 4 * (w + 1 - |s|))
  }

  lemma MagIs(s: seq<int>, w: int, n: int, e: int)
    requires Nat(s) == n && 4 * (w + 1 - |s|) == e
    ensures Mag(s, w) == Shift(n as real, e)
  {
  }

  /** x >= 0 rounded to the nearest multiple of 10^-s, a tie going up. */
  ghost function RoundMag(x: real, s: int): real {
    Shift((Shift(x, s) + 0.5).Floor as real, -s)
  }

  /** x rounded at s decimals, halves away from zero. s may be negative. */
  ghost function RoundAt(x: real, s: int): real {
    if x < 0.0 then -RoundMag(-x, s) else RoundMag(x, s)
  }

  /** x >= 0 cut down to a multiple of 10^-s. */
  ghost function TruncMag(x: real, s: int): real {
    Shift(Shift(x, s).Floor as real, -s)
  }

  /** x cut off toward zero at s decimals. s may be negative. */
  ghost function TruncAt(x: real, s: int): real {
    if x < 0.0 then -TruncMag(-x, s) else TruncMag(x, s)
  }

  /** x is a multiple of 10^-s. */
  ghost predicate OnGrid(x: real, s: int) { IsInteger(Shift(x, s)) }

  lemma RoundIs(x: real, s: int, k: int)
    requires k as real - 0.5 <= Shift(x, s) < k as real + 0.5
    ensures RoundMag(x, s) == Shift(k as real, -s)
  {
    FloorIs(Shift(x, s) + 0.5, k);
  }

  lemma TruncIs(x: real, s: int, k: int)
    requires k as real <= Shift(x, s) < k as real + 1.0
    ensures TruncMag(x, s) == Shift(k as real, -s)
  {
    FloorIs(Shift(x, s), k);
  }

  /** Values already on the grid are kept by both roundings. */
  lemma GridKept(x: real, s: int)
    requires OnGrid(x, s)
    ensures RoundMag(x, s) == x == TruncMag(x, s)
  {
    RoundIs(x, s, Shift(x, s).Floor);
    ShiftBack(x, s);
  }

  lemma ShiftOnGrid(k: int, s: int)
    ensures OnGrid(Shift(k as real, -s), s)
  {
    ShiftBack(k as real, -s);
    IntegerIs(k as real, k);
  }

  lemma RoundedOnGrid(x: real, s: int)
    ensures OnGrid(RoundMag(x, s), s) && OnGrid(TruncMag(x, s), s)
  {
    ShiftOnGrid((Shift(x, s) + 0.5).Floor, s);
    ShiftOnGrid(Shift(x, s).Floor, s);
  }

  lemma GridZero(s: int)
    ensures OnGrid(0.0, s)
  {
    ShiftZero(s);
    IntegerIs(0.0, 0);
  }

  lemma GridNegated(x: real, s: int)
    requires OnGrid(x, s)
    ensures OnGrid(-x, s)
  {
    GridZero(s);
    GridSum(0.0, x, s);
  }

  /** Rounded values lie on the grid. */
  lemma RoundAtOnGrid(v: real, s: int)
    ensures OnGrid(RoundAt(v, s), s)
  {
    var m := if v < 0.0 then -v else v;
    RoundedOnGrid(m, s);
    if v < 0.0 { GridNegated(RoundMag(m, s), s); }
  }

  /** No point of the grid but zero is less than a unit from zero. */
  lemma GridPointBelow(d: real, s: int)
    requires OnGrid(d, s) && 0.0 <= d < Shift(1.0, -s)
    ensures d == 0.0
  {
    ShiftBack(1.0, -s);
    ShiftLt(d, Shift(1.0, -s), s);
    ShiftPositive(d, s);
    ShiftBack(d, s);
    ShiftZero(-s);
  }

  /** Two points of the grid less than a unit apart are one. */
  lemma GridPointsApart(x: real, y: real, s: int)
    requires OnGrid(x, s) && OnGrid(y, s) && AbsR(x - y) < Shift(1.0, -s)
    ensures x == y
  {
    GridSum(x, y, s);
    GridSum(y, x, s);
    if x >= y { GridPointBelow(x - y, s); } else { GridPointBelow(y - x, s); }
  }

  lemma RoundError(x: real, s: int)
    ensures AbsR(RoundMag(x, s) - x) <= Shift(0.5, -s)
  {
    var y := Shift(x, s);
    var k := (y + 0.5).Floor as real;
    ShiftBack(x, s);
    ShiftSum(k, y, -s);
    ShiftSum(y, k, -s);
    ShiftLt(k - y, 0.5, -s);
    ShiftLt(y - k, 0.5, -s);
  }

  lemma FinerGrid(x: real, s: int, t: int)
    requires s <= t && OnGrid(x, s)
    ensures OnGrid(x, t)
  {
    var k := Shift(x, s).Floor;
    ShiftAdd(x, s, t - s);
    ShiftTenNat(k, t - s);
    IntegerIs(Shift(x, t), k * TenNat(t - s));
  }

  lemma GridSum(x: real, y: real, s: int)
    requires OnGrid(x, s) && OnGrid(y, s)
    ensures OnGrid(x + y, s) && OnGrid(x - y, s)
  {
    ShiftSum(x, y, s);
    IntegerIs(Shift(x + y, s), Shift(x, s).Floor + Shift(y, s).Floor);
    IntegerIs(Shift(x - y, s), Shift(x, s).Floor - Shift(y, s).Floor);
  }

  /** The same magnitude read at a lower exponent: digits followed by zeros. */
  lemma MagRescale(s: seq<int>, w: int, e: int)
    requires e <= w + 1 - |s|
    ensures Mag(s, w) == Shift(Lift(Nat(s), w + 1 - |s| - e) as real, 4 * e)
  {
    var k := w + 1 - |s| - e;
    ShiftAdd(Nat(s) as real, 4 * k, 4 * e);
    ShiftLift(Nat(s), k);
  }

  lemma MagDropFirst(s: seq<int>, w: int)
    requires s != [] && s[0] == 0
    ensures Mag(s[1..], w - 1) == Mag(s, w)
  {
    NatCons(s);
    LiftZero(|s| - 1);
  }

  lemma MagDropLast(s: seq<int>, w: int)
    requires s != [] && s[|s| - 1] == 0
    ensures Mag(s[..|s| - 1], w) == Mag(s, w)
  {
    var t, e := s[..|s| - 1], w + 1 - |s|;
    MagRescale(t, w, e);
    assert w + 1 - |t| - e == 1;
    SegSame(s, t, 0, |t|);
    assert Nat(s) == Lift(Nat(t), 1);
  }

  /** A digit string of weight w lies below NBASE^(w+1). */
  lemma MagBound(s: seq<int>, w: int)
    requires AllDigits(s)
    ensures 0.0 <= Mag(s, w) < Shift(1.0, 4 * (w + 1))
  {
    var e := 4 * (w + 1 - |s|);
    NatBound(s);
    ShiftLift(1, |s|);
    ShiftAdd(1.0, 4 * |s|, e);
    ShiftLt(Nat(s) as real, Lift(1, |s|) as real, e);
    ShiftPositive(Nat(s) as real, e);
  }

  /** With a nonzero first digit it is at least NBASE^w. */
  lemma MagLeadBound(s: seq<int>, w: int)
    requires AllDigits(s) && s != [] && s[0] != 0
    ensures Shift(1.0, 4 * w) <= Mag(s, w)
  {
    var e := 4 * (w + 1 - |s|);
    assert Lift(1, |s| - 1) <= Nat(s) by {
      NatLeadBound(s);
      assert IsDigit(s[0]);
      LiftLt(1, s[0], |s| - 1);
    }
    ShiftLift(1, |s| - 1);
    ShiftAdd(1.0, 4 * (|s| - 1), e);
    ShiftLt(Lift(1, |s| - 1) as real, Nat(s) as real, e);
  }
}
