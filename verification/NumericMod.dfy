/** Remainder, ceiling and floor of numeric variables (mod_var, ceil_var, floor_var). */
module NumericMod {
  import opened Basics
  import opened Radix
  import opened Decimal
  import opened Numerics
  import opened NumericRound
  import opened NumericAdd
  import opened NumericDiv
  import opened NumericMul

  /** A stripped number with d decimals has no more NBASE digits after the point than d needs. */
  lemma GridLength(s: seq<int>, w: int, d: int)
    requires AllDigits(s) && s != [] && s[|s| - 1] != 0 && OnGrid(Mag(s, w), d)
    ensures |s| <= w + 1 + FractionDigits(d)
  {
    var c, n := FractionDigits(d), |s|;
    if n > w + 1 + c {
      var k := n - w - 1 - c;
      assert IsDigit(s[n - 1]) && Nat(s) % NBASE == s[n - 1];
      FinerGrid(Mag(s, w), d, 4 * c);
      ShiftAdd(Nat(s) as real, 4 * (w + 1 - n), 4 * c);
      var j := Shift(Nat(s) as real, -4 * k).Floor;
      ShiftBack(Nat(s) as real, -4 * k);
      ShiftLift(j, k);
      LiftSucc(j, k - 1);
    }
  }

  /** The multiplication inside mod_var cuts off nothing. */
  lemma ModKeepsAll(y: Num, q: Num)
    requires y.Finite() && y.Stripped() && OnGrid(y.Magnitude(), y.dscale)
    requires q.Finite() && q.Stripped() && OnGrid(q.Magnitude(), 0)
    ensures KeepsAll(y, q, y.dscale)
  {
    if y.n > 0 && q.n > 0 {
      assert y.Ds()[y.n - 1] == y.b[y.lo + y.n - 1];
      assert q.Ds()[q.n - 1] == q.b[q.lo + q.n - 1];
      GridLength(y.Ds(), y.weight, y.dscale);
      GridLength(q.Ds(), q.weight, 0);
    }
  }

  lemma GridProduct(a: real, d: int, b: real, p: real)
    requires OnGrid(a, d) && IsInteger(b) && p == b * a
    ensures OnGrid(p, d)
  {
    var j, k := Shift(a, d).Floor, b.Floor;
    ShiftMul(b, a, d);
    assert (k * j) as real == b * Shift(a, d);
    IntegerIs(Shift(p, d), k * j);
  }

  lemma MagProductOnGrid(s: seq<int>, w1: int, t: seq<int>, w2: int, d: int)
    requires AllDigits(s) && AllDigits(t) && OnGrid(Mag(s, w1), 0) && OnGrid(Mag(t, w2), d)
    ensures MagProduct(s, w1, t, w2) >= 0.0 && OnGrid(MagProduct(s, w1, t, w2), d)
  {
    MagBound(s, w1);
    MagBound(t, w2);
    SignedProduct(Mag(s, w1), Mag(t, w2));
    GridProduct(Mag(t, w2), d, Mag(s, w1), MagProduct(s, w1, t, w2));
  }

  lemma ProductOnGrid(y: Num, q: Num) returns (p: real)
    requires y.Finite() && OnGrid(y.Magnitude(), y.dscale) && q.Finite() && OnGrid(q.Magnitude(), 0)
    ensures p >= 0.0 && OnGrid(p, y.dscale) && (Times(y, q) == p || Times(y, q) == -p)
  {
    p := MagProduct(q.Ds(), q.weight, y.Ds(), y.weight);
    MagProductOnGrid(q.Ds(), q.weight, y.Ds(), y.weight, y.dscale);
    ProductSign(y, q);
  }

  /** A product on the grid is kept by the rounding. */
  lemma ExactProduct(v: real, p: real, r: Num, n: nat, d: int)
    requires r.InBuffer() && IsProduct(v, n, true, r, d) && p >= 0.0 && OnGrid(p, d) && (v == p || v == -p)
    ensures r.Value() == v && OnGrid(r.Magnitude(), d)
  {
    GridKept(p, d);
    ValueSign(r);
  }

  /** r is the remainder of x by y: what is left after the quotient cut off toward zero. */
  ghost predicate IsRemainder(x: real, y: real, r: real) {
    && y != 0.0
    && r == x - Mult(y, TruncAt(x / y, 0))
    && AbsR(r) < AbsR(y)
    && (r == 0.0 || (r > 0.0 <==> x > 0.0))
  }

  lemma RemainderRange(x: real, y: real, z: real, q: real, r: real)
    requires y != 0.0 && z == x / y && q == TruncAt(z, 0) && r == x - Mult(y, q)
    ensures IsRemainder(x, y, r)
  {
    RatioIs(x, y, z);
    var f := z - q;
    assert -1.0 < f < 1.0 && (z >= 0.0 ==> f >= 0.0) && (z <= 0.0 ==> f <= 0.0);
    FractionTimes(f, y);
    SignOfRatio(x, y, z);
    assert r == f * y;
  }

  lemma FractionTimes(f: real, y: real)
    requires -1.0 < f < 1.0 && y != 0.0
    ensures AbsR(f * y) < AbsR(y)
    ensures f * y > 0.0 <==> (f > 0.0 && y > 0.0) || (f < 0.0 && y < 0.0)
    ensures f * y == 0.0 <==> f == 0.0
  {
    var p := f * y;
    SignOfRatio(p, y, f);
    if y > 0.0 { ProperFraction(f, y, p); } else { ProperFraction(f, -y, -p); }
  }

  lemma ProperFraction(f: real, y: real, p: real)
    requires -1.0 < f < 1.0 && y > 0.0 && p == f * y
    ensures -y < p < y
  {
    var a, b := 1.0 - f, 1.0 + f;
    SignOfProduct(y, a);
    SignOfProduct(y, b);
    assert y * a == y - p;
    assert y * b == y + p;
  }

  lemma SignOfRatio(x: real, y: real, z: real)
    requires y != 0.0 && x == z * y
    ensures x > 0.0 <==> (z > 0.0 && y > 0.0) || (z < 0.0 && y < 0.0)
    ensures x == 0.0 <==> z == 0.0
  {
    if z > 0.0 {
      SignOfProduct(z, y);
    } else if z < 0.0 {
      SignOfProduct(-z, y);
      assert (-z) * y == -x;
    }
  }

  lemma SignOfProduct(z: real, y: real)
    requires z > 0.0
    ensures y > 0.0 <==> z * y > 0.0
    ensures y < 0.0 <==> z * y < 0.0
  {
  }

  lemma QuotientInteger(x: Num, y: Num, q: Num)
    requires IsRatio(x, y, q, 0, false)
    ensures OnGrid(q.Magnitude(), 0)
  {
    var z := x.Value() / y.Value();
    ValueSign(q);
    RoundedOnGrid(if z < 0.0 then -z else z, 0);
    if q.Value() < 0.0 || q.Magnitude() == 0.0 { ShiftZero(0); }
  }

  /** A product rounded at d decimals is exact if and only if it lies on the grid, unless so many digits were cut
      off that the bound on the error says nothing. */
  lemma ProductExact(v: real, r: Num, n: nat, keeps: bool, d: int)
    requires r.InBuffer() && IsProduct(v, n, keeps, r, d) && (keeps || n < HALF_NBASE)
    ensures r.Value() == v <==> OnGrid(v, d)
  {
    if OnGrid(v, d) {
      if keeps {
        GridKept(v, d);
        GridNegated(v, d);
        GridKept(-v, d);
      } else {
        ErrorBelowUnit(n, d);
        GridPointsApart(r.Value(), v, d);
      }
    }
  }

  lemma ErrorBelowUnit(n: nat, d: int)
    requires n < HALF_NBASE
    ensures Shift(0.5, -d) + CutError(n, d) < Shift(1.0, -d)
  {
    var x := n as real;
    ShiftLift(1, 1);
    ShiftAdd(x, -4, -d);
    ShiftTenth(x);
    ShiftLt(Shift(x, -4), 0.5, -d);
    ShiftSum(0.5, 0.5, -d);
  }

  lemma ShiftTenth(x: real)
    ensures Shift(x, -4) == x / 10000.0
  {
    ShiftSucc(x, -4);
    ShiftSucc(x, -3);
    ShiftSucc(x, -2);
    ShiftSucc(x, -1);
  }

  /** The divisor is such that the multiplication inside mod_var keeps enough digits. */
  ghost predicate ModReliable(y: Num) {
    y.n < HALF_NBASE || y.Normal()
  }

  /** tmp := v2 * tmp for an integer tmp, at the scale of v2: the multiplication inside mod_var. */
  method MulInteger(v2: Numeric, tmp: Numeric)
    requires v2 != tmp && v2.Get().Finite()
    requires tmp.Get().Finite() && tmp.Get().Stripped() && OnGrid(tmp.Get().Magnitude(), 0)
    modifies tmp
    ensures fresh(tmp.buf) && tmp.Get().Finite() && tmp.Get().Stripped() && tmp.dscale == v2.dscale
    ensures var v := Times(v2.Get(), old(tmp.Get()));
      && (tmp.Get().Value() == v ==> OnGrid(v, v2.dscale))
      && (ModReliable(v2.Get()) && OnGrid(v, v2.dscale) ==> tmp.Get().Value() == v)
    ensures v2.Get().Normal() ==> tmp.Get().Normal() && tmp.Get().Value() == Times(v2.Get(), old(tmp.Get()))
  {
    ghost var y, q := v2.Get(), tmp.Get();
    MulVar(v2, tmp, tmp, v2.dscale);
    ProductOfInteger(y, q, tmp.Get());
  }

  lemma ProductOfInteger(y: Num, q: Num, r: Num)
    requires y.Finite() && q.Finite() && q.Stripped() && OnGrid(q.Magnitude(), 0) && r.InBuffer() && r.Stripped()
    requires IsProduct(Times(y, q), Min(y.n, q.n), KeepsAll(y, q, y.dscale), r, y.dscale)
    ensures r.Value() == Times(y, q) ==> OnGrid(Times(y, q), y.dscale)
    ensures ModReliable(y) && OnGrid(Times(y, q), y.dscale) ==> r.Value() == Times(y, q)
    ensures y.Normal() ==> r.Normal() && r.Value() == Times(y, q)
  {
    var v, n := Times(y, q), Min(y.n, q.n);
    if y.Normal() {
      ModKeepsAll(y, q);
      var p := ProductOnGrid(y, q);
      ExactProduct(v, p, r, n, y.dscale);
    }
    if KeepsAll(y, q, y.dscale) || n < HALF_NBASE { ProductExact(v, r, n, KeepsAll(y, q, y.dscale), y.dscale); }
  }

  lemma ModResult(x: Num, y: Num, q: Num, v: real)
    requires x.InBuffer() && y.InBuffer() && IsRatio(x, y, q, 0, false)
    ensures IsRemainder(x.Value(), y.Value(), v) <==> v == x.Value() - Times(y, q)
  {
    if v == x.Value() - Times(y, q) { RemainderRange(x.Value(), y.Value(), x.Value() / y.Value(), q.Value(), v); }
  }

  /** The divisor times the quotient cut off toward zero shows no more decimals than the divisor's scale. */
  ghost predicate ModOnGrid(x: Num, y: Num)
    requires x.InBuffer() && y.InBuffer() && y.Value() != 0.0
  {
    OnGrid(Mult(y.Value(), TruncAt(x.Value() / y.Value(), 0)), y.dscale)
  }

  /** result := v1 mod v2; result may be v1 or v2. For a divisor of less than 5000 digits or in normal form, the
      remainder is exact if and only if the product that is subtracted lies on the divisor's grid, as it does for
      every divisor in normal form. */
  method ModVar(v1: Numeric, v2: Numeric, result: Numeric) returns (ok: bool)
    requires v1.Get().Finite() && v2.Get().Finite()
    modifies result
    ensures ok <==> old(v2.ndigits > 0 && v2.buf[v2.digits] != 0)
    ensures !ok ==> result.Get() == old(result.Get())
    ensures ok ==> result.Get().Finite() && result.dscale == Max(old(v1.dscale), old(v2.dscale))
    ensures ok ==> old(v2.Get().Value()) != 0.0
    ensures ok && old(v2.Get().Normal()) ==>
      IsRemainder(old(v1.Get().Value()), old(v2.Get().Value()), result.Get().Value())
    ensures ok && IsRemainder(old(v1.Get().Value()), old(v2.Get().Value()), result.Get().Value()) ==>
      old(ModOnGrid(v1.Get(), v2.Get()))
    ensures ok && old(ModReliable(v2.Get()) && ModOnGrid(v1.Get(), v2.Get())) ==>
      IsRemainder(old(v1.Get().Value()), old(v2.Get().Value()), result.Get().Value())
    ensures ok && old(v1.Get().Normal() && v2.Get().Normal()) ==> result.Get().Normal()
  {
    ghost var x, y := v1.Get(), v2.Get();
    var tmp := new Numeric();
    ok := DivVar(v1, v2, tmp, 0, false);
    if !ok { return; }
    ghost var q := tmp.Get();
    QuotientInteger(x, y, q);
    MulInteger(v2, tmp);
    ModResult(x, y, q, x.Value() - tmp.Get().Value());
    SubVar(v1, tmp, result);
  }

  /** One mod 0.7, written with scale 0: the product 0.7 is rounded to 1, and the remainder comes out as 0. */
  lemma ModOffGrid(x: Num, y: Num)
    requires x.b == [0, 1] && x.lo == 1 && x.n == 1 && x.weight == 0 && x.sign == NUMERIC_POS
    requires y.b == [0, 7000] && y.lo == 1 && y.n == 1 && y.weight == -1 && y.sign == NUMERIC_POS && y.dscale == 0
    ensures x.Finite() && y.Finite() && x.Value() == 1.0 && y.Value() == 0.7 && !ModOnGrid(x, y)
  {
    assert x.Ds() == [1] && y.Ds() == [7000];
    OneValue();
    assert Nat([7000]) == 7000;
    ShiftTenth(7000.0);
    TruncIs(1.0 / 0.7, 0, 1);
    assert Mult(0.7, 1.0) == 0.7;
  }

  ghost function Ceiling(x: real): real { -((-x).Floor as real) }

  /** Cutting off toward zero is the ceiling below zero and the floor above; one more step goes
      the other way unless x is an integer. */
  lemma StepFromTrunc(x: real, t: real)
    requires t == TruncAt(x, 0)
    ensures x >= 0.0 ==> x.Floor as real == t && Ceiling(x) == if x == t then t else t + 1.0
    ensures x <= 0.0 ==> Ceiling(x) == t && x.Floor as real == if x == t then t else t - 1.0
  {
    assert t == if x < 0.0 then -((-x).Floor as real) else x.Floor as real;
    var y := -x;
    if x >= 0.0 {
      FloorIs(y, if x == t then -x.Floor else -x.Floor - 1);
    } else {
      FloorIs(x, if x == t then -y.Floor else -y.Floor - 1);
    }
  }

  lemma OneValue()
    ensures Mag([1], 0) == 1.0
  {
    assert Nat([1]) == 1;
  }

  /** The constant one. */
  method One() returns (one: Numeric)
    ensures fresh(one) && fresh(one.buf) && one.Get().Finite() && one.Get().Value() == 1.0 && one.dscale == 0
  {
    one := new Numeric();
    AllocVar(one, 1);
    one.buf[1] := 1;
    assert one.Get().Ds() == [1];
    OneValue();
  }

  /** A zero that is written with digits, all after the point, is taken for a fraction. */
  ghost predicate HiddenZero(x: Num) {
    x.InBuffer() && x.n > 0 && x.weight < 0 && x.Magnitude() == 0.0
  }

  /** One is added for the ceiling (sign plus) or subtracted for the floor (sign minus). */
  ghost predicate Steps(x: Num, sign: int)
    requires x.InBuffer()
  {
    x.sign == sign && (x.Value() != TruncAt(x.Value(), 0) || HiddenZero(x))
  }

  /** The digits before the point, taken alone, are stripped. */
  ghost predicate CutStripped(x: Num)
    requires x.InBuffer()
  {
    if x.weight < 0 then true
    else if x.n == 0 then x.weight == 0 && x.sign == NUMERIC_POS
    else x.b[x.lo] != 0 && x.b[x.lo + Min(x.n, x.weight + 1) - 1] != 0
  }

  /** The one-digit zero of weight -1 and plus sign is a hidden zero: its ceiling is 0, and comes out as 1. */
  lemma HiddenZeroExample(x: Num)
    requires x.b == [0, 0] && x.lo == 1 && x.n == 1 && x.weight == -1 && x.sign == NUMERIC_POS
    ensures x.Finite() && HiddenZero(x) && x.Value() == 0.0 && Ceiling(x.Value()) == 0.0
  {
    OneZeroDigit(x);
    FloorIs(-0.0, 0);
  }

  /** -12340000.5 for the ceiling, and 12340000.5 for the floor: a normal form whose result keeps a zero digit. */
  lemma UnstrippedExample(x: Num, sign: int)
    requires x.b == [0, 1234, 0, 5000] && x.lo == 1 && x.n == 3 && x.weight == 1 && x.dscale == 1
    requires {x.sign, sign} == {NUMERIC_POS, NUMERIC_NEG}
    ensures x.Normal() && x.Magnitude() == 12340000.5 && !Steps(x, sign) && !CutStripped(x)
  {
    var s, m := x.Ds(), 12340000.5;
    assert s == [1234, 0, 5000];
    assert Seg(s, 0, 1) == 1234 && Seg(s, 0, 2) == 12340000 && Nat(s) == 123400005000;
    ShiftSucc(m, 0);
    ShiftSucc(m, 1);
    ShiftSucc(m, 2);
    ShiftSucc(m, 3);
    ShiftBack(m, 4);
    IntegerIs(Shift(m, 1), 123400005);
  }

  /** result := the least integer not below v, but one more for a hidden zero with a plus sign. */
  method CeilVar(v: Numeric, result: Numeric)
    requires v.Get().Finite()
    modifies result
    ensures fresh(result.buf) && result.Get().Finite() && result.dscale == 0
    ensures result.Get().Value()
         == Ceiling(old(v.Get().Value())) + if old(HiddenZero(v.Get()) && v.sign == NUMERIC_POS) then 1.0 else 0.0
    ensures result.Get().Stripped() <==> old(Steps(v.Get(), NUMERIC_POS) || CutStripped(v.Get()))
  {
    ghost var x := v.Get();
    var tmp, differs := CutAndCompare(v);
    StepFromTrunc(x.Value(), tmp.Get().Value());
    ValueSign(x);
    if v.sign == NUMERIC_POS && differs {
      var one := One();
      AddVar(tmp, one, tmp);
    }
    ghost var r := tmp.Get();
    result.Assign(tmp);
    SameStripped(result.Get(), r);
  }

  /** result := the greatest integer not above v, but one less for a hidden zero with a minus sign. */
  method FloorVar(v: Numeric, result: Numeric)
    requires v.Get().Finite()
    modifies result
    ensures fresh(result.buf) && result.Get().Finite() && result.dscale == 0
    ensures result.Get().Value()
         == old(v.Get().Value()).Floor as real - if old(HiddenZero(v.Get()) && v.sign == NUMERIC_NEG) then 1.0 else 0.0
    ensures result.Get().Stripped() <==> old(Steps(v.Get(), NUMERIC_NEG) || CutStripped(v.Get()))
  {
    ghost var x := v.Get();
    var tmp, differs := CutAndCompare(v);
    StepFromTrunc(x.Value(), tmp.Get().Value());
    ValueSign(x);
    if v.sign == NUMERIC_NEG && differs {
      var one := One();
      SubVar(tmp, one, tmp);
    }
    ghost var r := tmp.Get();
    result.Assign(tmp);
    SameStripped(result.Get(), r);
  }

  /** Cutting a copy at the point. */
  lemma CopyCut(x: Num, y: Num)
    requires x.InBuffer() && y.InBuffer() && y.Same(x)
    ensures CutAtPoint(y).Stripped() <==> CutStripped(x)
  {
    var s := x.Ds();
    assert s == y.Ds() && x.n == y.n == |s|;
    if x.weight >= 0 && x.n > 0 {
      var i := Min(x.n, x.weight + 1) - 1;
      assert s[0] == x.b[x.lo] == y.b[y.lo];
      assert s[i] == x.b[x.lo + i] == y.b[y.lo + i];
    }
  }

  /** When a variable and what is left of it before the point are compared rightly. */
  lemma CutReliable(x: Num, t: Num)
    requires x.Finite() && t.InBuffer() && (t.n > 0 ==> t.sign == x.sign) && (t.n == 0 <==> x.n == 0 || x.weight < 0)
    ensures CmpReliable(x, t) <==> !HiddenZero(x)
  {
    ValueSign(x);
  }

  method TruncatedCopy(v: Numeric) returns (tmp: Numeric)
    requires v.Get().Finite()
    ensures fresh(tmp) && fresh(tmp.buf) && tmp.Get().Finite() && tmp.dscale == 0
    ensures tmp.Get().Value() == TruncAt(v.Get().Value(), 0)
    ensures CmpReliable(v.Get(), tmp.Get()) <==> !HiddenZero(v.Get())
    ensures tmp.Get().Stripped() <==> CutStripped(v.Get())
  {
    tmp := new Numeric.Copy(v);
    ghost var y := tmp.Get();
    CopyCut(v.Get(), y);
    TruncVar(tmp, 0);
    CutReliable(v.Get(), tmp.Get());
  }

  /** v cut off toward zero, and whether that is told apart from v. */
  method CutAndCompare(v: Numeric) returns (tmp: Numeric, differs: bool)
    requires v.Get().Finite()
    ensures fresh(tmp) && fresh(tmp.buf) && tmp.Get().Finite() && tmp.dscale == 0
    ensures tmp.Get().Value() == TruncAt(v.Get().Value(), 0) && (tmp.Get().Stripped() <==> CutStripped(v.Get()))
    ensures differs <==> v.Get().Value() != tmp.Get().Value() || HiddenZero(v.Get())
  {
    tmp := TruncatedCopy(v);
    var c := CmpVar(v, tmp);
    differs := c != 0;
    HiddenCut(v.Get(), tmp.Get().Value());
  }

  lemma HiddenCut(x: Num, t: real)
    requires x.InBuffer() && t == TruncAt(x.Value(), 0)
    ensures HiddenZero(x) ==> x.Value() == 0.0 == t
  {
    ZeroRounds(0);
  }
}
