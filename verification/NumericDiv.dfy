/** Division of numeric variables (div_var): exact to rscale decimals, rounded or truncated. */
module NumericDiv {
  import opened Basics
  import opened Radix
  import opened Decimal
  import opened Numerics
  import opened NumericRound
  import opened LongDivision

  /** NBASE digits that cover rscale decimals. */
  function FractionDigits(rscale: int): (c: int)
    ensures 4 * c >= rscale
  {
    CDiv(rscale + DEC_DIGITS - 1, DEC_DIGITS)
  }

  /** Truncating at a finer grid first changes nothing. */
  lemma TruncTrunc(z: real, a: int, b: int)
    requires b <= a
    ensures TruncMag(TruncMag(z, a), b) == TruncMag(z, b)
  {
    var k, m := Shift(z, a).Floor, Shift(z, b).Floor;
    ShiftTenNat(m, a - b);
    IntegerIs(Shift(m as real, a - b), m * TenNat(a - b));
    FinerFloor(z, a, b, m as real, k);
    ShiftAdd(k as real, -a, b);
    FinerUpper(z, a, b, k);
    TruncIs(TruncMag(z, a), b, m);
  }

  /** Rounding sees the same value after a truncation at any strictly finer grid. */
  lemma RoundTrunc(z: real, a: int, b: int)
    requires b < a
    ensures RoundMag(TruncMag(z, a), b) == RoundMag(z, b)
  {
    var k, m := Shift(z, a).Floor, (Shift(z, b) + 0.5).Floor;
    HalfOnFinerGrid(m, a - b);
    FinerFloor(z, a, b, m as real - 0.5, k);
    ShiftAdd(k as real, -a, b);
    FinerUpper(z, a, b, k);
    RoundIs(TruncMag(z, a), b, m);
  }

  lemma FinerFloor(z: real, a: int, b: int, m: real, k: int)
    requires b <= a && m <= Shift(z, b) && IsInteger(Shift(m, a - b)) && k == Shift(z, a).Floor
    ensures m <= Shift(k as real, b - a)
  {
    var u := Shift(m, a - b);
    ShiftLt(m, Shift(z, b), a - b);
    ShiftAdd(z, b, a - b);
    IntegerBelow(u, Shift(z, a));
    ShiftLt(u, k as real, b - a);
    ShiftAdd(m, a - b, b - a);
  }

  lemma IntegerBelow(u: real, v: real)
    requires IsInteger(u) && u <= v
    ensures u <= v.Floor as real
  {
    assert u.Floor <= v.Floor;
  }

  lemma FinerUpper(z: real, a: int, b: int, k: int)
    requires k == Shift(z, a).Floor
    ensures Shift(k as real, b - a) <= Shift(z, b)
  {
    ShiftLt(k as real, Shift(z, a), b - a);
    ShiftAdd(z, a, b - a);
  }

  lemma HalfOnFinerGrid(m: int, k: int)
    requires k >= 1
    ensures IsInteger(Shift(m as real - 0.5, k))
  {
    var x := m as real - 0.5;
    ShiftSucc(x, k - 1);
    assert x * 10.0 == (10 * m - 5) as real;
    ShiftTenNat(10 * m - 5, k - 1);
    IntegerIs(Shift(x, k), (10 * m - 5) * TenNat(k - 1));
  }

  /** The digit quotient brackets the real one. */
  lemma QuotientBracket(q: int, s: seq<int>, w1: int, g: nat, t: seq<int>, w2: int, f: nat, e: int)
    requires IsQuotient(q, Nat(s), g, Nat(t), f)
    requires e + w1 - w2 == g - f + |s| - |t|
    ensures q as real * Mag(t, w2) <= Shift(Mag(s, w1), 4 * e) < (q + 1) as real * Mag(t, w2)
  {
    var a, b, h := Nat(s), Nat(t), 4 * (w1 + 1 - |s| + e - g);
    ShiftLift(a, g);
    ShiftAdd(a as real, 4 * g, h);
    ShiftAdd(a as real, 4 * (w1 + 1 - |s|), 4 * e);
    MultipleAt(q, b, f, h, 4 * (w2 + 1 - |t|));
    MultipleAt(q + 1, b, f, h, 4 * (w2 + 1 - |t|));
    ShiftLt(Lift(q * b, f) as real, Lift(a, g) as real, h);
    ShiftLt(Lift(a, g) as real, Lift((q + 1) * b, f) as real, h);
  }

  lemma MultipleAt(q: int, b: int, f: nat, h: int, e: int)
    requires 4 * f + h == e
    ensures Shift(Lift(q * b, f) as real, h) == q as real * Shift(b as real, e)
  {
    var x, y := q as real, b as real;
    ShiftLift(q * b, f);
    ShiftAdd((q * b) as real, 4 * f, h);
    assert (q * b) as real == x * y;
    ShiftMul(x, y, e);
  }

  /** Dividing the bracket by the divisor. */
  lemma QuotientTruncated(q: int, x: real, y: real, e: int)
    requires y > 0.0 && q as real * y <= Shift(x, e) < (q + 1) as real * y
    ensures TruncMag(x / y, e) == Shift(q as real, -e)
  {
    var z := x / y;
    var u, v := Shift(z, e), Shift(x, e);
    ShiftQuotient(x, y, z, e);
    DivideBy(q as real, u, y, v);
    DivideBy((q + 1) as real, u, y, v);
    TruncIs(z, e, q);
  }

  lemma ShiftQuotient(x: real, y: real, z: real, e: int)
    requires y > 0.0 && z == x / y
    ensures Shift(x, e) == y * Shift(z, e)
  {
    var p := y * z;
    assert p == x;
    ShiftMul(y, z, e);
  }

  lemma DivideBy(a: real, u: real, y: real, v: real)
    requires y > 0.0 && v == y * u
    ensures a * y <= v <==> a <= u
  {
  }

  /** The digits div_var computes before it rounds: the quotient cut off after k digits. */
  lemma UnroundedQuotient(r: Num, s: seq<int>, w1: int, t: seq<int>, w2: int, len: nat)
    requires r.InBuffer() && r.lo == 1 && |r.b| == 1 + r.n && DigitsIn(r.b, 1, 1 + r.n)
    requires r.weight == w1 - w2 && |s| < len && r.n + |t| <= len && Mag(t, w2) > 0.0
    requires IsQuotient(Seg(r.b, 1, 1 + r.n), Nat(s), len - 1 - |s|, Nat(t), len - r.n - |t|)
    ensures r.Sound() && r.Magnitude() == TruncMag(Mag(s, w1) / Mag(t, w2), 4 * (r.n - 1 - r.weight))
  {
    var q, e := Seg(r.b, 1, 1 + r.n), r.n - 1 - r.weight;
    MagOfSeg(r, 1, 1 + r.n, -4 * e);
    QuotientBracket(q, s, w1, len - 1 - |s|, t, w2, len - r.n - |t|, e);
    QuotientTruncated(q, Mag(s, w1), Mag(t, w2), 4 * e);
  }

  /** r is x / y at rscale decimals: rounded half away from zero, or cut off toward zero. */
  ghost predicate IsRatio(x: Num, y: Num, r: Num, rscale: int, round: bool) {
    && x.InBuffer() && y.InBuffer() && y.Value() != 0.0 && r.Finite() && r.dscale == rscale
    && r.Value() == if round then RoundAt(x.Value() / y.Value(), rscale) else TruncAt(x.Value() / y.Value(), rscale)
  }

  /** Rounding the cut-off quotient rounds the quotient itself. */
  lemma RatioRounded(x: Num, y: Num, q: Num, r: Num, a: int, rscale: int, round: bool)
    requires x.Finite() && y.Finite() && y.Magnitude() > 0.0 && q.Finite()
    requires q.sign == (if x.sign == y.sign then NUMERIC_POS else NUMERIC_NEG)
    requires q.Magnitude() == TruncMag(x.Magnitude() / y.Magnitude(), a)
    requires if round then rscale < a && RoundsTo(q, r, rscale) else rscale <= a && TruncatesTo(q, r, rscale)
    ensures IsRatio(x, y, r, rscale, round)
  {
    ValueSign(x);
    ValueSign(y);
    ValueSign(q);
    var z := x.Magnitude() / y.Magnitude();
    if round { RoundTrunc(z, a, rscale); } else { TruncTrunc(z, a, rscale); }
    RatioSign(x, y, z);
    ZeroRounds(rscale);
  }

  lemma RatioSign(x: Num, y: Num, z: real)
    requires x.Finite() && y.Finite() && y.Magnitude() > 0.0 && x.Magnitude() >= 0.0 && z == x.Magnitude() / y.Magnitude()
    ensures y.Value() != 0.0 && z >= 0.0
    ensures x.Value() / y.Value() == if x.sign == y.sign then z else -z
  {
    SignedRatio(x.Magnitude(), y.Magnitude(), z);
  }

  lemma SignedRatio(a: real, b: real, z: real)
    requires a >= 0.0 && b > 0.0 && z == a / b
    ensures z >= 0.0 && -a / b == -z && a / -b == -z && -a / -b == z
  {
    RatioIs(a, b, z);
    if z < 0.0 { ScaleLt(z, 0.0, b); }
    RatioIs(-a, b, -z);
    RatioIs(a, -b, -z);
    RatioIs(-a, -b, z);
  }

  lemma RatioIs(a: real, b: real, z: real)
    requires b != 0.0
    ensures a == z * b <==> a / b == z
  {
  }

  lemma ScaleLt(a: real, b: real, c: real)
    requires a < b && c > 0.0
    ensures a * c < b * c
  {
  }

  lemma ZeroRounds(s: int)
    ensures RoundMag(0.0, s) == 0.0 == TruncMag(0.0, s)
  {
    ShiftZero(s);
    ShiftZero(-s);
  }

  lemma ZeroRatio(x: Num, y: Num, rscale: int, round: bool)
    requires x.Finite() && x.n == 0 && y.Finite() && y.Magnitude() > 0.0
    ensures IsRatio(x, y, Num([], 0, 0, 0, NUMERIC_POS, rscale), rscale, round)
  {
    ZeroValue(x);
    ZeroValue(Num([], 0, 0, 0, NUMERIC_POS, rscale));
    RatioSign(x, y, 0.0);
    ZeroRounds(rscale);
  }

  /** The quotient digits of v1 / v2, k of them, in a fresh buffer of result. */
  method DivUnrounded(v1: Numeric, v2: Numeric, result: Numeric, k: nat)
    requires v1.Get().Finite() && v2.Get().Finite() && v2.ndigits > 0 && v2.buf[v2.digits] != 0
    modifies result
    ensures fresh(result.buf) && result.Get().Finite() && result.Get().Spare()
    ensures result.sign == if old(v1.sign == v2.sign) then NUMERIC_POS else NUMERIC_NEG
    ensures old(v2.Get().Magnitude()) > 0.0
    ensures result.Get().Magnitude()
         == TruncMag(old(v1.Get().Magnitude()) / old(v2.Get().Magnitude()), 4 * (k - 1 - old(v1.weight - v2.weight)))
  {
    ghost var y := v2.Get();
    ValueSign(y);
    var s, t := v1.buf[..][v1.digits..v1.digits + v1.ndigits], v2.buf[..][v2.digits..v2.digits + v2.ndigits];
    var w1, w2, sign := v1.weight, v2.weight, if v1.sign == v2.sign then NUMERIC_POS else NUMERIC_NEG;
    AllocVar(result, k);
    DivideInto(s, w1, t, w2, k, result.buf);
    ghost var b := result.buf[..];
    result.weight, result.sign := w1 - w2, sign;
    assert result.Get() == Num(b, 1, k, w1 - w2, sign, result.dscale);
  }

  /** res[1..] := the first k digits of the quotient. */
  method DivideInto(s: seq<int>, w1: int, t: seq<int>, w2: int, k: nat, res: array<int>)
    requires AllDigits(s) && AllDigits(t) && t != [] && t[0] != 0 && res.Length == k + 1 && Mag(t, w2) > 0.0
    modifies res
    ensures res[0] == old(res[0])
    ensures var r := Num(res[..], 1, k, w1 - w2, NUMERIC_POS, 0);
      r.Sound() && r.Magnitude() == TruncMag(Mag(s, w1) / Mag(t, w2), 4 * (k - 1 - (w1 - w2)))
  {
    DivDigits(s, t, k, res);
    UnroundedQuotient(Num(res[..], 1, k, w1 - w2, NUMERIC_POS, 0), s, w1, t, w2, Max(k + |t|, |s|) + 1);
  }

  /** result := v1 / v2, exact to rscale decimals; result may be v1 or v2. A divisor without a
      nonzero first digit is refused as a division by zero. */
  method DivVar(v1: Numeric, v2: Numeric, result: Numeric, rscale: int, round: bool) returns (ok: bool)
    requires v1.Get().Finite() && v2.Get().Finite()
    modifies result
    ensures ok <==> old(v2.ndigits > 0 && v2.buf[v2.digits] != 0)
    ensures !ok ==> result.Get() == old(result.Get()) && result.buf == old(result.buf)
    ensures ok ==> fresh(result.buf) && IsRatio(old(v1.Get()), old(v2.Get()), result.Get(), rscale, round)
    ensures ok ==> result.Get().Stripped()
  {
    if v2.ndigits == 0 || v2.buf[v2.digits] == 0 { return false; }
    ghost var x, y := v1.Get(), v2.Get();
    if v1.ndigits == 0 {
      ValueSign(y);
      ZeroVar(result);
      result.dscale := rscale;
      ZeroRatio(x, y, rscale, round);
      return true;
    }
    var weight := v1.weight - v2.weight;
    var k := Max(weight + 1 + FractionDigits(rscale), 1) + if round then 1 else 0;
    DivUnrounded(v1, v2, result, k);
    ghost var q := result.Get();
    if round { RoundVar(result, rscale); } else { TruncVar(result, rscale); }
    RatioRounded(x, y, q, result.Get(), 4 * (k - 1 - weight), rscale, round);
    StripVar(result);
    return true;
  }
}
