/** Conversions between numeric variables and 64-bit integers, with the overflow checks they use. */
module NumericInt64 {
  import opened Basics
  import opened Radix
  import opened Decimal
  import opened Numerics
  import opened NumericRound

  const INT32_MAX := 0x7fff_ffff
  const INT32_MIN := -0x8000_0000
  const INT64_MAX := 0x7fff_ffff_ffff_ffff
  const INT64_MIN := -0x8000_0000_0000_0000

  type int64 = x: int | -0x8000_0000_0000_0000 <= x <= 0x7fff_ffff_ffff_ffff

  ghost predicate InRange(x: int) { INT64_MIN <= x <= INT64_MAX }

  /** The portable test for overflow of a * b. */
  predicate MulOverflows(a: int64, b: int64) {
    && (a > INT32_MAX || a < INT32_MIN || b > INT32_MAX || b < INT32_MIN)
    && a != 0 && a != 1 && b != 0 && b != 1
    && ((a > 0 && b > 0 && a > CDiv(INT64_MAX, b))
        || (a > 0 && b < 0 && b < CDiv(INT64_MIN, a))
        || (a < 0 && b > 0 && a < CDiv(INT64_MIN, b))
        || (a < 0 && b < 0 && a < CDiv(INT64_MAX, b)))
  }

  /** The portable test for overflow of a - b. */
  predicate SubOverflows(a: int64, b: int64) {
    (a < 0 && b > 0 && a < INT64_MIN + b) || (a > 0 && b < 0 && a > INT64_MAX + b)
  }

  lemma AboveQuotient(x: int, y: int, m: int)
    requires y > 0 && m >= 0
    ensures x > m / y <==> x * y > m
  {
    var q := m / y;
    if x > q { MulLe(q + 1, x, y); } else { MulLe(x, q, y); }
  }

  /** Products of 32-bit values fit 64 bits. */
  lemma SmallProduct(a: int, b: int)
    requires INT32_MIN <= a <= INT32_MAX && INT32_MIN <= b <= INT32_MAX
    ensures InRange(a * b)
  {
    var m := 0x8000_0000;
    var x, y := if a < 0 then -a else a, if b < 0 then -b else b;
    MulLe(x, m, y);
    MulLe(y, m, m);
    assert a * b == x * y || a * b == -(x * y);
  }

  lemma SignedProductRange(x: int, y: int)
    requires 1 <= x && 1 <= y
    ensures x > INT64_MAX / y <==> x * y > INT64_MAX
    ensures y > -INT64_MIN / x <==> -(x * y) < INT64_MIN
    ensures x > -INT64_MIN / y <==> -(x * y) < INT64_MIN
    ensures x * y >= 1
  {
    AboveQuotient(x, y, INT64_MAX);
    AboveQuotient(y, x, -INT64_MIN);
    AboveQuotient(x, y, -INT64_MIN);
    MulLe(1, x, y);
  }

  lemma SignOfProduct(m: int, n: int, x: int, y: int)
    requires x == (if m < 0 then -m else m) && y == if n < 0 then -n else n
    ensures m * n == if (m < 0) == (n < 0) then x * y else -(x * y)
  {
  }

  /** The multiplication test is exact on all operands. */
  lemma MulOverflowsExact(a: int64, b: int64)
    ensures MulOverflows(a, b) <==> !InRange(a * b)
  {
    var m: int, n: int := a, b;
    if INT32_MIN <= a <= INT32_MAX && INT32_MIN <= b <= INT32_MAX {
      SmallProduct(m, n);
    } else if a != 0 && b != 0 {
      var x, y := if m < 0 then -m else m, if n < 0 then -n else n;
      SignedProductRange(x, y);
      SignOfProduct(m, n, x, y);
    }
  }

  /** The subtraction test misses exactly one case: zero minus the least integer. */
  lemma SubOverflowsExact(a: int64, b: int64)
    ensures (SubOverflows(a, b) <==> !InRange(a - b)) <==> !(a == 0 && b == INT64_MIN)
  {
    if a == 0 && b == INT64_MIN { assert a - b == -INT64_MIN; }
  }

  lemma SubOverflowMissed()
    ensures !SubOverflows(0, INT64_MIN) && !InRange(0 - INT64_MIN)
  {
    SubOverflowsExact(0, INT64_MIN);
  }

  /** A prefix followed by anything denotes at least the prefix. */
  lemma {:induction false} PrefixGrows(d: seq<int>, i: nat)
    requires i <= |d| && AllDigits(d)
    ensures 0 <= Seg(d, 0, i) <= Nat(d)
    ensures i < |d| ==> Seg(d, 0, i) * NBASE <= Nat(d)
    decreases |d| - i
  {
    SegBound(d, 0, i);
    if i < |d| {
      PrefixGrows(d, i + 1);
      assert IsDigit(d[i]);
    }
  }

  /** The digits s followed by zeros down to weight 0. */
  ghost function Whole(s: seq<int>, w: int): seq<int>
    requires |s| <= w + 1
  {
    s + Zeros(w + 1 - |s|)
  }

  lemma WholeMag(s: seq<int>, w: int)
    requires |s| <= w + 1 && AllDigits(s)
    ensures AllDigits(Whole(s, w)) && |Whole(s, w)| == w + 1 && Mag(s, w) == Nat(Whole(s, w)) as real
  {
    var z := Zeros(w + 1 - |s|);
    NatConcat(s, z);
    NatAllZero(z);
    ShiftLift(Nat(s), w + 1 - |s|);
  }

  /** Accumulates the integer as a negative number; fails exactly if it leaves the 64-bit range. */
  method Accumulate(s: seq<int>, w: int) returns (ok: bool, val: int64)
    requires AllDigits(s) && 1 <= |s| <= w + 1
    ensures ok <==> INT64_MIN <= -Nat(Whole(s, w))
    ensures ok ==> val == -Nat(Whole(s, w))
  {
    ghost var d := Whole(s, w);
    WholeMag(s, w);
    assert IsDigit(s[0]) && Seg(d, 0, 1) == s[0];
    val := -s[0];
    var i := 1;
    while i <= w
      invariant 1 <= i <= w + 1 && val == -Seg(d, 0, i)
    {
      PrefixGrows(d, i);
      PrefixGrows(d, i + 1);
      MulOverflowsExact(val, NBASE);
      if MulOverflows(val, NBASE) { return false, 0; }
      var v: int := val;
      val := v * NBASE;
      if i < |s| {
        assert IsDigit(s[i]) && d[i] == s[i];
        var x: int64 := s[i];
        SubOverflowsExact(val, x);
        if SubOverflows(val, x) { return false, 0; }
        val := val - s[i];
      }
      i := i + 1;
    }
    ok := true;
  }

  lemma RoundedInteger(v: real)
    ensures IsInteger(RoundAt(v, 0)) && IsInteger(AbsR(RoundAt(v, 0)))
  {
    RoundedOnGrid(if v < 0.0 then -v else v, 0);
    var m := RoundMag(if v < 0.0 then -v else v, 0);
    IntegerIs(-m, -m.Floor);
  }

  /** An integer in stripped form has no digits after the point. */
  lemma IntegerDigits(r: Num)
    requires r.Finite() && r.Stripped() && r.n > 0 && IsInteger(r.Magnitude())
    ensures 0 <= r.weight && r.n <= r.weight + 1
  {
    var s, w := r.Ds(), r.weight;
    var k := r.n - w - 1;
    ValueSign(r);
    if k > 0 {
      var j := r.Magnitude().Floor;
      assert IsDigit(s[r.n - 1]) && s[r.n - 1] == r.b[r.lo + r.n - 1] && Nat(s) % NBASE == s[r.n - 1];
      ShiftBack(Nat(s) as real, -4 * k);
      ShiftLift(j, k);
      LiftSucc(j, k - 1);
    }
  }

  /** What the conversion rounds to, as digits and a sign. */
  lemma RoundedDigits(v: real, r: Num)
    requires r.Finite() && r.Stripped() && r.n > 0 && r.Value() == RoundAt(v, 0)
    ensures 0 <= r.weight && r.n <= r.weight + 1
    ensures RoundAt(v, 0) == (if r.sign == NUMERIC_NEG then -Nat(Whole(r.Ds(), r.weight)) else Nat(Whole(r.Ds(), r.weight))) as real
  {
    RoundedInteger(v);
    ValueSign(r);
    IntegerDigits(r);
    WholeMag(r.Ds(), r.weight);
  }

  /** The variable rounded to an integer, in stripped form. */
  method RoundedCopy(v: Numeric) returns (rounded: Numeric)
    requires v.Get().Finite()
    ensures fresh(rounded) && fresh(rounded.buf) && rounded.Get().Finite() && rounded.Get().Stripped()
    ensures rounded.Get().Value() == RoundAt(v.Get().Value(), 0)
  {
    rounded := new Numeric.Copy(v);
    RoundVar(rounded, 0);
    StripVar(rounded);
  }

  /** The digits of v rounded to an integer. */
  method RoundedParts(v: Numeric) returns (s: seq<int>, w: int, neg: bool)
    requires v.Get().Finite()
    ensures AllDigits(s) && (s == [] ==> RoundAt(v.Get().Value(), 0) == 0.0)
    ensures s != [] ==> |s| <= w + 1
    ensures s != [] ==> var x := Nat(Whole(s, w)); RoundAt(v.Get().Value(), 0) == (if neg then -x else x) as real
  {
    var rounded := RoundedCopy(v);
    ghost var r := rounded.Get();
    s := rounded.buf[..][rounded.digits..rounded.digits + rounded.ndigits];
    assert s == r.Ds();
    w, neg := rounded.weight, rounded.sign == NUMERIC_NEG;
    if rounded.ndigits == 0 {
      ZeroValue(r);
    } else {
      RoundedDigits(v.Get().Value(), r);
    }
  }

  /** Converts to a 64-bit integer, rounding halves away from zero; fails exactly if the rounded
      value does not fit. */
  method NumericToInt64(v: Numeric) returns (ok: bool, result: int64)
    requires v.Get().Finite()
    ensures ok <==> InRange(RoundAt(v.Get().Value(), 0).Floor)
    ensures ok ==> result as real == RoundAt(v.Get().Value(), 0)
  {
    var s, w, neg := RoundedParts(v);
    if s == [] { return true, 0; }
    ok, result := Accumulate(s, w);
    ghost var x := Nat(Whole(s, w));
    if ok && !neg {
      if result == INT64_MIN { return false, 0; }
      result := -result;
    }
  }

  /** Stores the NBASE digits of uval at the end of a; returns the place of the first. */
  method StoreUnsigned(a: array<int>, uval0: int) returns (ptr: nat)
    requires a.Length >= 2 && 0 < uval0 < Lift(1, a.Length - 1)
    modifies a
    ensures 1 <= ptr < a.Length && DigitsIn(a[..], ptr, a.Length) && Seg(a[..], ptr, a.Length) == uval0
    ensures a[ptr] != 0 && a[a.Length - 1] == uval0 % NBASE
  {
    var uval := uval0;
    ptr := a.Length;
    while true
      invariant 1 < ptr <= a.Length && 0 < uval < Lift(1, ptr - 1)
      invariant DigitsIn(a[..], ptr, a.Length) && Seg(a[..], ptr, a.Length) + Lift(uval, a.Length - ptr) == uval0
      invariant if ptr == a.Length then uval == uval0 else a[a.Length - 1] == uval0 % NBASE
      decreases ptr
    {
      ghost var c := a[..];
      ptr := ptr - 1;
      var newuval := uval / NBASE;
      a[ptr] := uval - newuval * NBASE;
      DigitStored(c, a[..], ptr, uval, newuval, uval0);
      QuotientShrinks(uval, newuval, ptr - 1);
      uval := newuval;
      if uval == 0 { break; }
    }
    LiftZero(a.Length - ptr);
  }

  lemma DigitStored(c: seq<int>, b: seq<int>, i: nat, uval: int, rest: int, total: int)
    requires i < |c| == |b| && (forall j :: i < j < |b| ==> b[j] == c[j]) && b[i] == uval - rest * NBASE
    requires Seg(c, i + 1, |c|) + Lift(uval, |c| - 1 - i) == total
    ensures Seg(b, i, |b|) + Lift(rest, |b| - i) == total
  {
    var k := |b| - 1 - i;
    SegCons(b, i, |b|);
    SegSame(c, b, i + 1, |b|);
    LiftSum(b[i], rest * NBASE, k);
    assert Lift(rest, k + 1) == Lift(rest * NBASE, k);
  }

  lemma QuotientShrinks(uval: int, rest: int, k: nat)
    requires rest == uval / NBASE && 0 < uval < Lift(1, k + 1)
    ensures 0 <= rest < Lift(1, k) && (rest > 0 ==> k > 0)
  {
    LiftSucc(1, k);
  }

  lemma FivePlaces()
    ensures Lift(1, 5) == 100_000_000_000_000_000_000
  {
    LiftSucc(1, 1);
    LiftSucc(1, 2);
    LiftSucc(1, 3);
    LiftSucc(1, 4);
  }

  /** v := val. The digits are exact but not stripped: a multiple of NBASE keeps its zero digits. */
  method Int64ToNumeric(val: int64, v: Numeric)
    requires val > INT64_MIN
    modifies v
    ensures fresh(v.buf) && v.Get().Finite() && v.Get().Value() == val as real && v.dscale == 0
    ensures v.Get().Stripped() <==> val == 0 || val % NBASE != 0
  {
    AllocVar(v, 5);
    var uval: int := val;
    if val < 0 { uval := -uval; }
    v.sign := if val < 0 then NUMERIC_NEG else NUMERIC_POS;
    v.dscale := 0;
    if val == 0 {
      v.ndigits, v.weight := 0, 0;
      ZeroValue(v.Get());
      return;
    }
    FivePlaces();
    var ptr := StoreUnsigned(v.buf, uval);
    ghost var b := v.buf[..];
    var n := 6 - ptr;
    StoredValue(b, n, val);
    v.digits, v.ndigits, v.weight := ptr, n, n - 1;
    assert v.Get() == Num(b, 6 - n, n, n - 1, v.sign, 0);
  }

  lemma StoredValue(b: seq<int>, n: nat, val: int)
    requires |b| == 6 && 1 <= n <= 5 && DigitsIn(b, 6 - n, 6) && b[6 - n] != 0 && val != 0
    requires var u := if val < 0 then -val else val; Seg(b, 6 - n, 6) == u && b[5] == u % NBASE
    ensures var r := Num(b, 6 - n, n, n - 1, if val < 0 then NUMERIC_NEG else NUMERIC_POS, 0);
      r.Finite() && r.Value() == val as real && (r.Stripped() <==> val % NBASE != 0)
  {
    MagOfSeg(Num(b, 6 - n, n, n - 1, if val < 0 then NUMERIC_NEG else NUMERIC_POS, 0), 6 - n, 6, 0);
    NegatedMod(val);
  }

  lemma NegatedMod(x: int)
    ensures x % NBASE != 0 <==> (-x) % NBASE != 0
  {
  }

  /** Every 64-bit integer above the least one survives the trip through a numeric. */
  method ThroughNumeric(val: int64) returns (ok: bool, result: int64)
    requires val > INT64_MIN
    ensures ok && result == val
  {
    var v := new Numeric();
    Int64ToNumeric(val, v);
    IntegerIs(val as real, val);
    IntegerIs(-(val as real), -(val as int));
    GridKept(if val < 0 then -(val as real) else val as real, 0);
    ok, result := NumericToInt64(v);
  }
}
