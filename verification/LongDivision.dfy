/** The digit loops of div_var: the one-digit path, and Knuth's Algorithm D (section 4.3.1 of
    volume 2 of The Art of Computer Programming) with its estimate, subtraction and add-back. */
module LongDivision {
  import opened Basics
  import opened Radix

  lemma MulSum(a: int, b: int, c: int)
    ensures a * (b + c) == a * b + a * c
    ensures a * (b - c) == a * b - a * c
  {
  }

  /** d times a suffix, one place longer. */
  lemma ScaledSuffix(b: seq<int>, i: nat, hi: nat, d: int)
    requires i < hi <= |b|
    ensures d * Seg(b, i, hi) == Lift(d * b[i], hi - 1 - i) + d * Seg(b, i + 1, hi)
  {
    SegCons(b, i, hi);
    LiftMul(d, b[i], hi - 1 - i);
    MulSum(d, Lift(b[i], hi - 1 - i), Seg(b, i + 1, hi));
  }

  /** One place of a loop that carries x = digit + NBASE * out to the next place. */
  lemma PlaceOut(b: seq<int>, i: nat, hi: nat, digit: int, out: int, x: int)
    requires i < hi <= |b| && b[i] == digit && x == digit + out * NBASE
    ensures Seg(b, i, hi) + Lift(out, hi - i) == Lift(x, hi - 1 - i) + Seg(b, i + 1, hi)
  {
    SegCons(b, i, hi);
    LiftSum(digit, out * NBASE, hi - 1 - i);
    assert Lift(out, hi - i) == Lift(out * NBASE, hi - 1 - i);
  }

  ghost predicate SameOutside(b: seq<int>, c: seq<int>, lo: int, hi: int) {
    |b| == |c| && forall i :: 0 <= i < |b| && !(lo <= i < hi) ==> b[i] == c[i]
  }

  /** a[lo..hi] := d * a[lo..hi], the carry out of the top returned. */
  method ScaleUp(a: array<int>, lo: nat, hi: nat, d: int32) returns (carry: int32)
    requires lo <= hi <= a.Length && DigitsIn(a[..], lo, hi) && 1 <= d <= HALF_NBASE
    modifies a
    ensures SameOutside(old(a[..]), a[..], lo, hi) && DigitsIn(a[..], lo, hi) && 0 <= carry < d
    ensures Seg(a[..], lo, hi) + Lift(carry, hi - lo) == d * old(Seg(a[..], lo, hi))
  {
    ghost var b := a[..];
    var i := hi;
    carry := 0;
    while i > lo
      invariant lo <= i <= hi && 0 <= carry < d
      invariant SameOutside(b, a[..], i, hi) && DigitsIn(a[..], lo, hi)
      invariant Seg(a[..], i, hi) + Lift(carry, hi - i) == d * Seg(b, i, hi)
    {
      i := i - 1;
      ghost var c, was := a[..], carry;
      assert IsDigit(c[i]) && c[i] == b[i];
      DigitTimes(a[i], d);
      carry := carry + a[i] * d;
      a[i] := carry % NBASE;
      carry := carry / NBASE;
      ScaleStep(b, c, a[..], i, hi, d, was, carry);
    }
  }

  lemma ScaleStep(b: seq<int>, c: seq<int>, e: seq<int>, i: nat, hi: nat, d: int, cin: int, cout: int)
    requires i < hi <= |b| == |c| == |e| && (forall k :: i < k < hi ==> e[k] == c[k]) && e[i] == b[i] * d + cin - cout * NBASE
    requires Seg(c, i + 1, hi) + Lift(cin, hi - 1 - i) == d * Seg(b, i + 1, hi)
    ensures Seg(e, i, hi) + Lift(cout, hi - i) == d * Seg(b, i, hi)
  {
    PlaceOut(e, i, hi, e[i], cout, b[i] * d + cin);
    SegSame(c, e, i + 1, hi);
    ScaledSuffix(b, i, hi, d);
    LiftSum(b[i] * d, cin, hi - 1 - i);
  }

  lemma DigitTimes(x: int, d: int)
    requires IsDigit(x) && 0 <= d <= NBASE
    ensures 0 <= x * d <= (NBASE - 1) * d == NBASE * d - d
  {
    MulLe(x, NBASE - 1, d);
    MulLe(0, x, d);
  }

  /** One place: u less x times qhat, with the carry of the product and the borrow of the difference. */
  method MulSubDigit(u: int32, x: int32, qhat: int32, carry: int32, borrow: int32)
    returns (digit: int32, carry': int32, borrow': int32)
    requires IsDigit(u) && IsDigit(x) && 0 < qhat < NBASE && 0 <= carry < NBASE && -1 <= borrow <= 0
    ensures IsDigit(digit) && 0 <= carry' < NBASE && -1 <= borrow' <= 0 && (x == 0 ==> carry' == 0)
    ensures digit == u + (borrow - carry) - x * qhat - (borrow' - carry') * NBASE
  {
    DigitTimes(x, qhat);
    carry' := carry + x * qhat;
    borrow' := borrow - carry' % NBASE;
    carry' := carry' / NBASE;
    borrow' := borrow' + u;
    if borrow' < 0 {
      digit, borrow' := borrow' + NBASE, -1;
    } else {
      digit, borrow' := borrow', 0;
    }
  }

  /** dividend[j..j+n+1] := itself minus qhat * divisor[0..n+1]; a borrow of -1 says it wrapped. */
  method MulSub(dividend: array<int>, j: nat, divisor: array<int>, n: nat, qhat: int32) returns (borrow: int32)
    requires dividend != divisor && j + n + 1 <= dividend.Length && n + 1 == divisor.Length
    requires DigitsIn(dividend[..], j, j + n + 1) && DigitsIn(divisor[..], 0, n + 1) && divisor[0] == 0
    requires 0 < qhat < NBASE
    modifies dividend
    ensures SameOutside(old(dividend[..]), dividend[..], j, j + n + 1)
    ensures DigitsIn(dividend[..], j, j + n + 1) && -1 <= borrow <= 0
    ensures Seg(dividend[..], j, j + n + 1) + Lift(borrow, n + 1)
         == old(Seg(dividend[..], j, j + n + 1)) - qhat * Seg(divisor[..], 0, n + 1)
  {
    ghost var b, v, hi := dividend[..], divisor[..], j + n + 1;
    var carry: int32, i := 0, n + 1;
    borrow := 0;
    while i > 0
      invariant 0 <= i <= n + 1 && 0 <= carry < NBASE && -1 <= borrow <= 0 && (i == 0 ==> carry == 0)
      invariant divisor[..] == v && SameOutside(b, dividend[..], j + i, hi) && DigitsIn(dividend[..], j, hi)
      invariant Seg(dividend[..], j + i, hi) + Lift(borrow - carry, n + 1 - i)
             == Seg(b, j + i, hi) - qhat * Seg(v, i, n + 1)
    {
      i := i - 1;
      ghost var c, carried := dividend[..], borrow - carry;
      assert IsDigit(v[i]) && IsDigit(c[j + i]) && c[j + i] == b[j + i];
      var digit;
      digit, carry, borrow := MulSubDigit(dividend[j + i], divisor[i], qhat, carry, borrow);
      dividend[j + i] := digit;
      MulSubStep(b, c, dividend[..], v, j, i, n, qhat, carried, borrow - carry);
    }
  }

  lemma MulSubStep(b: seq<int>, c: seq<int>, e: seq<int>, v: seq<int>, j: nat, i: nat, n: nat, q: int, cin: int, cout: int)
    requires i <= n && |v| == n + 1 && j + n + 1 <= |b| == |c| == |e|
    requires forall k :: j + i < k < j + n + 1 ==> e[k] == c[k]
    requires e[j + i] == b[j + i] + cin - v[i] * q - cout * NBASE
    requires Seg(c, j + i + 1, j + n + 1) + Lift(cin, n - i) == Seg(b, j + i + 1, j + n + 1) - q * Seg(v, i + 1, n + 1)
    ensures Seg(e, j + i, j + n + 1) + Lift(cout, n + 1 - i) == Seg(b, j + i, j + n + 1) - q * Seg(v, i, n + 1)
  {
    var k, hi := n - i, j + n + 1;
    PlaceOut(e, j + i, hi, e[j + i], cout, b[j + i] + cin - q * v[i]);
    SegSame(c, e, j + i + 1, hi);
    SegCons(b, j + i, hi);
    ScaledSuffix(v, i, n + 1, q);
    LiftSum(b[j + i] + cin, q * v[i], k);
    LiftSum(b[j + i], cin, k);
  }

  /** dividend[j..j+n+1] := itself plus divisor[0..n+1]. */
  method AddBack(dividend: array<int>, j: nat, divisor: array<int>, n: nat) returns (carry: int32)
    requires dividend != divisor && j + n + 1 <= dividend.Length && n + 1 == divisor.Length
    requires DigitsIn(dividend[..], j, j + n + 1) && DigitsIn(divisor[..], 0, n + 1)
    modifies dividend
    ensures SameOutside(old(dividend[..]), dividend[..], j, j + n + 1)
    ensures DigitsIn(dividend[..], j, j + n + 1) && 0 <= carry <= 1
    ensures Seg(dividend[..], j, j + n + 1) + Lift(carry, n + 1)
         == old(Seg(dividend[..], j, j + n + 1)) + Seg(divisor[..], 0, n + 1)
  {
    ghost var b, v, hi := dividend[..], divisor[..], j + n + 1;
    var i := n + 1;
    carry := 0;
    while i > 0
      invariant 0 <= i <= n + 1 && 0 <= carry <= 1
      invariant divisor[..] == v && SameOutside(b, dividend[..], j + i, hi) && DigitsIn(dividend[..], j, hi)
      invariant Seg(dividend[..], j + i, hi) + Lift(carry, n + 1 - i) == Seg(b, j + i, hi) + Seg(v, i, n + 1)
    {
      i := i - 1;
      ghost var c, carried := dividend[..], carry;
      assert IsDigit(v[i]) && IsDigit(c[j + i]) && c[j + i] == b[j + i];
      carry := carry + dividend[j + i] + divisor[i];
      if carry >= NBASE {
        dividend[j + i] := carry - NBASE;
        carry := 1;
      } else {
        dividend[j + i] := carry;
        carry := 0;
      }
      AddBackStep(b, c, dividend[..], v, j, i, n, carried, carry);
    }
  }

  lemma AddBackStep(b: seq<int>, c: seq<int>, e: seq<int>, v: seq<int>, j: nat, i: nat, n: nat, cin: int, cout: int)
    requires i <= n && |v| == n + 1 && j + n + 1 <= |b| == |c| == |e|
    requires forall k :: j + i < k < j + n + 1 ==> e[k] == c[k]
    requires e[j + i] == b[j + i] + cin + v[i] - cout * NBASE
    requires Seg(c, j + i + 1, j + n + 1) + Lift(cin, n - i) == Seg(b, j + i + 1, j + n + 1) + Seg(v, i + 1, n + 1)
    ensures Seg(e, j + i, j + n + 1) + Lift(cout, n + 1 - i) == Seg(b, j + i, j + n + 1) + Seg(v, i, n + 1)
  {
    var k, hi := n - i, j + n + 1;
    PlaceOut(e, j + i, hi, e[j + i], cout, b[j + i] + cin + v[i]);
    SegSame(c, e, j + i + 1, hi);
    SegCons(b, j + i, hi);
    SegCons(v, i, n + 1);
    LiftSum(b[j + i] + cin, v[i], k);
    LiftSum(b[j + i], cin, k);
  }

  /** What the estimate is: the quotient of the first three dividend digits by the first two divisor
      digits, capped at the largest digit. */
  ghost predicate IsEstimate(qhat: int, top3: int, top2: int) {
    && 0 <= qhat < NBASE
    && qhat * top2 <= top3
    && (qhat == NBASE - 1 || top3 < (qhat + 1) * top2)
  }

  method FirstEstimate(u0: int32, next2digits: int32, d1: int32) returns (qhat: int32)
    requires IsDigit(d1) && HALF_NBASE <= d1 && 0 <= u0 <= d1
    requires u0 * NBASE <= next2digits < (u0 + 1) * NBASE
    ensures 0 <= qhat < NBASE && 0 <= next2digits - qhat * d1 < 2 * NBASE
    ensures qhat == NBASE - 1 || next2digits - qhat * d1 < d1
  {
    if u0 == d1 {
      qhat := NBASE - 1;
      assert qhat * d1 == NBASE * d1 - d1;
    } else {
      MulLe(u0 + 1, d1, NBASE);
      QuotientBelow(next2digits, d1);
      qhat := next2digits / d1;
    }
  }

  /** Estimates the next quotient digit; the loop takes at most two steps. */
  method Estimate(u0: int32, u1: int32, u2: int32, d1: int32, d2: int32) returns (qhat: int32, ghost steps: nat)
    requires IsDigit(u0) && IsDigit(u1) && IsDigit(u2) && IsDigit(d1) && IsDigit(d2)
    requires HALF_NBASE <= d1 && u0 <= d1
    ensures IsEstimate(qhat, (u0 * NBASE + u1) * NBASE + u2, d1 * NBASE + d2)
    ensures steps <= 2
  {
    var next2digits: int32 := u0 * NBASE + u1;
    qhat := FirstEstimate(u0, next2digits, d1);
    ghost var r := next2digits - qhat * d1;
    steps := 0;
    DigitTimes(d2, qhat);
    var left: int32, right: int32 := d2 * qhat, (next2digits - qhat * d1) * NBASE + u2;
    while left > right
      invariant 0 <= qhat < NBASE && r == next2digits - qhat * d1
      invariant left == d2 * qhat && 0 <= left <= NBASE * qhat - qhat && right == r * NBASE + u2
      invariant steps <= 2 && steps * HALF_NBASE <= r < 2 * NBASE
      invariant steps == 0 ==> qhat == NBASE - 1 || r < d1
      invariant steps > 0 ==> d2 * (qhat + 1) > (r - d1) * NBASE + u2
      decreases qhat
    {
      assert qhat > 0 && r < NBASE;
      OneLess(qhat, d1);
      OneLess(qhat, d2);
      qhat := qhat - 1;
      r, steps := r + d1, steps + 1;
      DigitTimes(d2, qhat);
      left, right := d2 * qhat, (next2digits - qhat * d1) * NBASE + u2;
    }
    EstimateExact(qhat, next2digits, u2, d1, d2, steps);
  }

  lemma OneLess(q: int, d: int)
    ensures (q - 1) * d == q * d - d
    ensures d * ((q - 1) + 1) == d * q
  {
  }

  lemma QuotientBelow(x: int, d: int)
    requires 0 <= x < d * NBASE && d > 0
    ensures 0 <= x / d < NBASE && 0 <= x - x / d * d < d
  {
    var q := x / d;
    if q >= NBASE { MulLe(NBASE, q, d); }
  }

  lemma EstimateExact(qhat: int, next2: int, u2: int, d1: int, d2: int, steps: nat)
    requires IsDigit(u2) && IsDigit(d2) && 0 <= qhat < NBASE && d1 > 0
    requires d2 * qhat <= (next2 - qhat * d1) * NBASE + u2
    requires steps == 0 ==> qhat == NBASE - 1 || next2 - qhat * d1 < d1
    requires steps > 0 ==> d2 * (qhat + 1) > (next2 - qhat * d1 - d1) * NBASE + u2
    ensures IsEstimate(qhat, next2 * NBASE + u2, d1 * NBASE + d2)
  {
    var p := qhat * d1;
    assert qhat * (d1 * NBASE + d2) == p * NBASE + d2 * qhat;
    assert (qhat + 1) * (d1 * NBASE + d2) == p * NBASE + d2 * qhat + d1 * NBASE + d2;
    assert d2 * (qhat + 1) == d2 * qhat + d2;
    MulLe(0, d2, qhat);
  }

  /** The estimate is not too small. */
  lemma EstimateHigh(qhat: int, u: int, v: int, top3: int, top2: int, t: int)
    requires IsEstimate(qhat, top3, top2) && t > 0 && u < (top3 + 1) * t && top2 * t <= v && u < NBASE * v
    ensures u < (qhat + 1) * v
  {
    if qhat < NBASE - 1 {
      MulLe(top3 + 1, (qhat + 1) * top2, t);
      MulLe(top2 * t, v, qhat + 1);
      Associate(qhat + 1, top2, t);
    }
  }

  lemma Associate(a: int, b: int, c: int)
    ensures a * b * c == a * (b * c)
  {
  }

  /** The estimate is at most one too large. */
  lemma EstimateLow(qhat: int, u: int, v: int, top3: int, top2: int, t: int)
    requires IsEstimate(qhat, top3, top2) && HALF_NBASE * NBASE <= top2 && t > 0
    requires top3 * t <= u && top2 * t <= v < (top2 + 1) * t
    ensures qhat * v < u + v
  {
    MulLe(qhat * top2, top3, t);
    TimesTop(qhat, v, top2, t);
    UnitsBelow(qhat, v, top2, t);
  }

  lemma TimesTop(q: int, v: int, top: int, t: int)
    requires 0 <= q && v < (top + 1) * t
    ensures q * v <= q * top * t + q * t
  {
    MulLe(v, (top + 1) * t, q);
    Associate(q, top + 1, t);
    SumTimes(q * top, q, t);
  }

  lemma UnitsBelow(q: int, v: int, top: int, t: int)
    requires q <= NBASE && HALF_NBASE * NBASE <= top && t > 0 && top * t <= v
    ensures q * t < v
  {
    MulLe(q, NBASE, t);
    MulLe(HALF_NBASE * NBASE, top, t);
  }

  lemma SumTimes(a: int, b: int, c: int)
    ensures (a + b) * c == a * c + b * c
  {
  }

  /** Knuth's theorem: the estimate is the quotient digit or one more. */
  lemma EstimateOneOff(qhat: int, u: int, v: int, top3: int, top2: int, t: int)
    requires IsEstimate(qhat, top3, top2) && HALF_NBASE * NBASE <= top2 && t > 0
    requires top3 * t <= u < (top3 + 1) * t && top2 * t <= v < (top2 + 1) * t
    requires u < NBASE * v
    ensures (qhat - 1) * v < u < (qhat + 1) * v
  {
    EstimateHigh(qhat, u, v, top3, top2, t);
    EstimateLow(qhat, u, v, top3, top2, t);
    SumTimes(qhat, -1, v);
  }

  /** A divisor with its leading zero: normalised so that its first digit is at least NBASE/2. */
  ghost predicate IsDivisor(v: seq<int>, n: nat) {
    2 <= n && |v| == n + 1 && DigitsIn(v, 0, n + 1) && v[0] == 0 && v[1] >= HALF_NBASE
  }

  /** The dividend digits j..j+n+1, of which the first n lie below the divisor. */
  ghost predicate IsWindow(b: seq<int>, j: nat, v: seq<int>, n: nat)
    requires IsDivisor(v, n)
  {
    j + n + 1 <= |b| && DigitsIn(b, j, j + n + 1) && Seg(b, j, j + n) < Seg(v, 1, n + 1)
  }

  lemma WindowBelow(b: seq<int>, j: nat, v: seq<int>, n: nat)
    requires IsDivisor(v, n) && IsWindow(b, j, v, n)
    ensures Seg(b, j, j + n + 1) < NBASE * Seg(v, 1, n + 1)
    ensures b[j] <= v[1] && Seg(v, 0, n + 1) == Seg(v, 1, n + 1) < Lift(1, n)
  {
    assert IsDigit(b[j + n]);
    SegLeadingZero(v, 0, n + 1);
    SegBound(v, 1, n + 1);
    FirstBelow(b, j, v, n);
  }

  /** The first digit of the window does not exceed that of the divisor. */
  lemma FirstBelow(b: seq<int>, j: nat, v: seq<int>, n: nat)
    requires IsDivisor(v, n) && IsWindow(b, j, v, n)
    ensures b[j] <= v[1]
  {
    SegCons(b, j, j + n);
    SegBound(b, j + 1, j + n);
    SegCons(v, 1, n + 1);
    SegBound(v, 2, n + 1);
    LiftSum(v[1], 1, n - 1);
    LiftLt(b[j], v[1] + 1, n - 1);
  }

  /** k digits on top of m more: the whole lies between the top and its successor. */
  lemma TopDigits(b: seq<int>, lo: nat, mid: nat, hi: nat)
    requires lo <= mid <= hi <= |b| && DigitsIn(b, mid, hi)
    ensures Seg(b, lo, mid) * Lift(1, hi - mid) <= Seg(b, lo, hi) < (Seg(b, lo, mid) + 1) * Lift(1, hi - mid)
  {
    SegSplit(b, lo, mid, hi);
    SegBound(b, mid, hi);
    LiftMul(Seg(b, lo, mid), 1, hi - mid);
    LiftMul(Seg(b, lo, mid) + 1, 1, hi - mid);
    LiftSum(Seg(b, lo, mid), 1, hi - mid);
  }

  /** Knuth's theorem on the digits at hand. */
  lemma EstimateOfWindow(b: seq<int>, j: nat, v: seq<int>, n: nat, qhat: int)
    requires IsDivisor(v, n) && IsWindow(b, j, v, n)
    requires IsEstimate(qhat, (b[j] * NBASE + b[j + 1]) * NBASE + b[j + 2], v[1] * NBASE + v[2])
    ensures var u, w := Seg(b, j, j + n + 1), Seg(v, 1, n + 1); (qhat - 1) * w < u < (qhat + 1) * w
  {
    var t := Lift(1, n - 2);
    LiftSign(1, n - 2);
    TopThree(b, j);
    TopTwo(v);
    TopDigits(b, j, j + 3, j + n + 1);
    TopDigits(v, 1, 3, n + 1);
    WindowBelow(b, j, v, n);
    EstimateOneOff(qhat, Seg(b, j, j + n + 1), Seg(v, 1, n + 1), Seg(b, j, j + 3), Seg(v, 1, 3), t);
  }

  lemma TopThree(b: seq<int>, j: nat)
    requires j + 3 <= |b|
    ensures Seg(b, j, j + 3) == (b[j] * NBASE + b[j + 1]) * NBASE + b[j + 2]
  {
    assert Seg(b, j, j + 1) == b[j];
    assert Seg(b, j, j + 2) == b[j] * NBASE + b[j + 1];
  }

  lemma TopTwo(v: seq<int>)
    requires |v| >= 3
    ensures Seg(v, 1, 3) == v[1] * NBASE + v[2]
  {
    assert Seg(v, 1, 2) == v[1];
  }

  /** A remainder below the divisor leaves a zero in its top place. */
  lemma TopDigitZero(b: seq<int>, j: nat, n: nat, r: int)
    requires j + n + 1 <= |b| && DigitsIn(b, j, j + n + 1) && Seg(b, j, j + n + 1) == r < Lift(1, n)
    ensures b[j] == 0 && Seg(b, j + 1, j + n + 1) == r
  {
    SegCons(b, j, j + n + 1);
    SegBound(b, j + 1, j + n + 1);
    assert IsDigit(b[j]);
    if b[j] > 0 { LiftLt(1, b[j], n); }
    LiftZero(n);
  }

  /** The quotient digit q with its remainder left in the dividend. */
  ghost predicate IsQuotientStep(b: seq<int>, c: seq<int>, j: nat, v: seq<int>, n: nat, q: int)
    requires IsDivisor(v, n) && IsWindow(b, j, v, n) && |c| == |b|
  {
    && 0 <= q < NBASE && DigitsIn(c, j, j + n + 1)
    && Seg(b, j, j + n + 1) == q * Seg(v, 1, n + 1) + Seg(c, j + 1, j + n + 1)
    && Seg(c, j + 1, j + n + 1) < Seg(v, 1, n + 1)
  }

  lemma StepNothing(b: seq<int>, j: nat, v: seq<int>, n: nat)
    requires IsDivisor(v, n) && IsWindow(b, j, v, n) && Seg(b, j, j + n + 1) < Seg(v, 1, n + 1)
    ensures IsQuotientStep(b, b, j, v, n, 0)
  {
    WindowBelow(b, j, v, n);
    TopDigitZero(b, j, n, Seg(b, j, j + n + 1));
  }

  lemma NextTwoZero(b: seq<int>, j: nat, v: seq<int>, n: nat)
    requires IsDivisor(v, n) && IsWindow(b, j, v, n) && b[j] == 0 && b[j + 1] == 0
    ensures Seg(b, j, j + n + 1) < Seg(v, 1, n + 1)
  {
    SegLeadingZero(b, j, j + n + 1);
    SegLeadingZero(b, j + 1, j + n + 1);
    SegBound(b, j + 2, j + n + 1);
    SegCons(v, 1, n + 1);
    SegBound(v, 2, n + 1);
    LiftLt(1, v[1], n - 1);
  }

  lemma StepNoBorrow(b: seq<int>, c: seq<int>, j: nat, v: seq<int>, n: nat, q: int)
    requires IsDivisor(v, n) && IsWindow(b, j, v, n) && |c| == |b| && 0 <= q < NBASE && DigitsIn(c, j, j + n + 1)
    requires var w := Seg(v, 1, n + 1);
      Seg(c, j, j + n + 1) == Seg(b, j, j + n + 1) - q * w && Seg(b, j, j + n + 1) < (q + 1) * w
    ensures IsQuotientStep(b, c, j, v, n, q)
  {
    var w := Seg(v, 1, n + 1);
    WindowBelow(b, j, v, n);
    assert (q + 1) * w == q * w + w;
    TopDigitZero(c, j, n, Seg(c, j, j + n + 1));
  }

  /** After a borrow the estimate was one too large, and adding back carries out of the top. */
  lemma StepBorrow(b: seq<int>, c: seq<int>, e: seq<int>, j: nat, v: seq<int>, n: nat, q: int, carry: int)
    requires IsDivisor(v, n) && IsWindow(b, j, v, n) && |c| == |b| == |e| && 0 < q < NBASE
    requires DigitsIn(c, j, j + n + 1) && DigitsIn(e, j, j + n + 1) && 0 <= carry <= 1
    requires var w, u := Seg(v, 1, n + 1), Seg(b, j, j + n + 1);
      && (q - 1) * w < u
      && Seg(c, j, j + n + 1) - Lift(1, n + 1) == u - q * w
      && Seg(e, j, j + n + 1) + Lift(carry, n + 1) == Seg(c, j, j + n + 1) + w
    ensures carry == 1 && IsQuotientStep(b, e, j, v, n, q - 1)
  {
    var w := Seg(v, 1, n + 1);
    OneLess(q, w);
    SegBound(c, j, j + n + 1);
    SegBound(e, j, j + n + 1);
    LiftZero(n + 1);
    assert carry == 1;
    StepNoBorrow(b, e, j, v, n, q - 1);
  }

  /** One round of the main loop: the j'th quotient digit and the remainder it leaves. */
  method DivStep(dividend: array<int>, j: nat, divisor: array<int>, n: nat) returns (qhat: int32)
    requires dividend != divisor && IsDivisor(divisor[..], n) && IsWindow(dividend[..], j, divisor[..], n)
    modifies dividend
    ensures SameOutside(old(dividend[..]), dividend[..], j, j + n + 1)
    ensures IsQuotientStep(old(dividend[..]), dividend[..], j, divisor[..], n, qhat)
  {
    ghost var b, v := dividend[..], divisor[..];
    WindowBelow(b, j, v, n);
    assert IsDigit(b[j]) && IsDigit(b[j + 1]) && IsDigit(b[j + 2]) && IsDigit(v[1]) && IsDigit(v[2]);
    if dividend[j] * NBASE + dividend[j + 1] == 0 {
      NextTwoZero(b, j, v, n);
      StepNothing(b, j, v, n);
      return 0;
    }
    ghost var steps;
    qhat, steps := Estimate(dividend[j], dividend[j + 1], dividend[j + 2], divisor[1], divisor[2]);
    EstimateOfWindow(b, j, v, n, qhat);
    if qhat == 0 {
      StepNothing(b, j, v, n);
      return 0;
    }
    var borrow := MulSub(dividend, j, divisor, n, qhat);
    LiftZero(n + 1);
    if borrow != 0 {
      ghost var c := dividend[..];
      qhat := qhat - 1;
      var carry := AddBack(dividend, j, divisor, n);
      LiftSum(0, 1, n + 1);
      StepBorrow(b, c, dividend[..], j, v, n, qhat + 1, carry);
      assert carry == 1;
    } else {
      StepNoBorrow(b, dividend[..], j, v, n, qhat);
    }
  }

  /** The division equation carried one digit further. */
  lemma DivisionGrows(a: int, q: int, v: int, r: int, x: int, q': int, r': int)
    requires a == q * v + r && r * NBASE + x == q' * v + r'
    ensures a * NBASE + x == (q * NBASE + q') * v + r'
  {
    assert (q * NBASE + q') * v == q * v * NBASE + q' * v;
  }

  /** The fast path for a one-digit divisor d: res[1..1+k] := dividend[0..k+1] / d. */
  method ShortDivide(dividend: array<int>, d: int32, res: array<int>, k: nat)
    requires dividend != res && k + 1 <= dividend.Length && k + 1 <= res.Length && 0 < d < NBASE
    requires DigitsIn(dividend[..], 0, k + 1) && dividend[0] == 0
    modifies res
    ensures res[0] == old(res[0]) && DigitsIn(res[..], 1, 1 + k)
    ensures Seg(res[..], 1, 1 + k) == Seg(dividend[..], 0, k + 1) / d
  {
    ghost var b := dividend[..];
    var carry: int32, i := 0, 0;
    assert Seg(b, 0, 1) == b[0];
    while i < k
      invariant 0 <= i <= k && 0 <= carry < d && dividend[..] == b
      invariant res[0] == old(res[0]) && DigitsIn(res[..], 1, 1 + i)
      invariant Seg(b, 0, i + 1) == Seg(res[..], 1, 1 + i) * d + carry
    {
      ghost var c, r := res[..], carry;
      assert IsDigit(b[i + 1]);
      MulLe(carry, d - 1, NBASE);
      carry := carry * NBASE + dividend[i + 1];
      QuotientBelow(carry, d);
      var q: int32 := carry / d;
      DivisionGrows(Seg(b, 0, i + 1), Seg(c, 1, 1 + i), d, r, b[i + 1], q, carry % d);
      res[1 + i] := q;
      carry := carry % d;
      SegSame(c, res[..], 1, 1 + i);
      i := i + 1;
    }
    DivModIs(Seg(b, 0, k + 1), d, Seg(res[..], 1, 1 + k), carry);
  }

  /** After j quotient digits: c holds them, and the window at j of the dividend d is the remainder of the
      first j + n digits of b. */
  ghost predicate IsPartial(b: seq<int>, d: seq<int>, c: seq<int>, w: int, n: nat, k: nat, j: nat) {
    && j <= k && k + n <= |b| == |d| && 1 + k <= |c|
    && SameOutside(b, d, 0, j + n) && DigitsIn(d, j, k + n) && DigitsIn(c, 1, 1 + j)
    && 0 <= Seg(d, j, j + n) < w && Seg(b, 0, j + n) == Seg(c, 1, 1 + j) * w + Seg(d, j, j + n)
  }

  lemma PartialGrows(b: seq<int>, d: seq<int>, d': seq<int>, c: seq<int>, c': seq<int>, v: seq<int>, n: nat, k: nat, j: nat, q: int)
    requires IsDivisor(v, n) && j < k && IsPartial(b, d, c, Seg(v, 1, n + 1), n, k, j) && IsWindow(d, j, v, n)
    requires SameOutside(d, d', j, j + n + 1) && IsQuotientStep(d, d', j, v, n, q) && c' == c[1 + j := q]
    ensures IsPartial(b, d', c', Seg(v, 1, n + 1), n, k, j + 1)
  {
    var w := Seg(v, 1, n + 1);
    DivisionGrows(Seg(b, 0, j + n), Seg(c, 1, 1 + j), w, Seg(d, j, j + n), b[j + n], q, Seg(d', j + 1, j + n + 1));
    SegSame(c, c', 1, 1 + j);
    SegBound(d', j + 1, j + n + 1);
  }

  /** The multiple-place algorithm: res[1..1+k] := dividend[0..k+n] / divisor. */
  method LongDivide(dividend: array<int>, divisor: array<int>, n: nat, res: array<int>, k: nat)
    requires dividend != divisor && dividend != res && divisor != res
    requires IsDivisor(divisor[..], n) && k + n <= dividend.Length && k + 1 <= res.Length
    requires DigitsIn(dividend[..], 0, k + n) && Seg(dividend[..], 0, n) < Seg(divisor[..], 1, n + 1)
    modifies dividend, res
    ensures res[0] == old(res[0]) && DigitsIn(res[..], 1, 1 + k)
    ensures 0 < Seg(divisor[..], 1, n + 1)
    ensures Seg(res[..], 1, 1 + k) == old(Seg(dividend[..], 0, k + n)) / Seg(divisor[..], 1, n + 1)
  {
    ghost var b, v := dividend[..], divisor[..];
    ghost var w := Seg(v, 1, n + 1);
    SegBound(b, 0, n);
    var j := 0;
    while j < k
      invariant divisor[..] == v && res[0] == old(res[0])
      invariant IsPartial(b, dividend[..], res[..], w, n, k, j)
    {
      ghost var c, d := res[..], dividend[..];
      var q := DivStep(dividend, j, divisor, n);
      res[1 + j] := q;
      PartialGrows(b, d, dividend[..], c, res[..], v, n, k, j, q);
      j := j + 1;
    }
    DivModIs(Seg(b, 0, k + n), w, Seg(res[..], 1, 1 + k), Seg(dividend[..], k, k + n));
  }

  /** Knuth's scale factor brings the first divisor digit to NBASE/2 or more without overflowing it. */
  lemma ScaleFactor(v: int)
    requires 1 <= v < HALF_NBASE
    ensures var d := NBASE / (v + 1); 2 <= d <= HALF_NBASE && d * (v + 1) <= NBASE && d * v >= HALF_NBASE
  {
    var d := NBASE / (v + 1);
    assert d * (v + 1) <= NBASE < d * (v + 1) + (v + 1);
    assert d * (v + 1) == d * v + d;
    if v >= 2500 {
      if d < 2 { MulLe(d, 1, v + 1); }
      MulLe(2, d, v);
    } else if v >= 1667 {
      if d > 5 { MulLe(6, d, v + 1); }
      if d < 2 { MulLe(d, 1, v + 1); }
    } else if v >= 2 {
      if d > 3333 { MulLe(3334, d, v + 1); }
      if d < 2 { MulLe(d, 1, v + 1); }
    } else {
      assert d == 5000;
    }
  }

  lemma ScaleBounds(x: int, d: int, s: int, k: nat)
    requires Lift(x, k) <= s < Lift(x + 1, k) && d >= 1 && d * (x + 1) <= NBASE && d * x >= HALF_NBASE
    ensures Lift(HALF_NBASE, k) <= d * s < Lift(1, k + 1)
  {
    MulLe(Lift(x, k), s, d);
    MulLt(s, Lift(x + 1, k), d);
    LiftMul(d, x, k);
    LiftMul(d, x + 1, k);
    LiftLt(HALF_NBASE, d * x, k);
    LiftLt(NBASE, d * (x + 1), k);
  }

  lemma NoCarry(x: int, carry: int, k: nat, y: int)
    requires 0 <= x && 0 <= carry && x + Lift(carry, k) == y < Lift(1, k)
    ensures carry == 0 && x == y
  {
    LiftLt(carry, 1, k);
    LiftZero(k);
  }

  lemma ScaledDivisor(v: seq<int>, w: seq<int>, n: nat, d: int, carry: int)
    requires 2 <= n && |v| == |w| == n + 1 && DigitsIn(v, 1, n + 1) && DigitsIn(w, 1, n + 1) && 0 <= carry
    requires 1 <= v[1] < HALF_NBASE && d == NBASE / (v[1] + 1)
    requires Seg(w, 1, n + 1) + Lift(carry, n) == d * Seg(v, 1, n + 1)
    ensures carry == 0 && w[1] >= HALF_NBASE && Seg(w, 1, n + 1) == d * Seg(v, 1, n + 1)
  {
    ScaleFactor(v[1]);
    FirstDigit(v, n);
    ScaleBounds(v[1], d, Seg(v, 1, n + 1), n - 1);
    SegBound(w, 1, n + 1);
    NoCarry(Seg(w, 1, n + 1), carry, n, d * Seg(v, 1, n + 1));
    FirstDigit(w, n);
    LiftLt(HALF_NBASE, w[1] + 1, n - 1);
  }

  lemma FirstDigit(v: seq<int>, n: nat)
    requires 1 <= n && |v| == n + 1 && DigitsIn(v, 1, n + 1)
    ensures Lift(v[1], n - 1) <= Seg(v, 1, n + 1) < Lift(v[1] + 1, n - 1)
  {
    SegCons(v, 1, n + 1);
    SegBound(v, 2, n + 1);
    LiftSum(v[1], 1, n - 1);
  }

  lemma ScaledDividend(b: seq<int>, c: seq<int>, m: nat, d: int, carry: int)
    requires 1 <= m <= |b| == |c| && DigitsIn(b, 0, m) && DigitsIn(c, 0, m) && b[0] == 0
    requires forall i :: m <= i < |b| ==> b[i] == 0 && c[i] == 0
    requires 0 <= carry && 0 < d <= NBASE && Seg(c, 0, m) + Lift(carry, m) == d * Seg(b, 0, m)
    ensures carry == 0 && Seg(c, 0, |c|) == d * Seg(b, 0, |b|)
  {
    SegLeadingZero(b, 0, m);
    SegBound(b, 1, m);
    ScaleBelow(d, Seg(b, 0, m), m - 1);
    SegBound(c, 0, m);
    NoCarry(Seg(c, 0, m), carry, m, d * Seg(b, 0, m));
    PaddedScale(b, c, m, d);
  }

  lemma ScaleBelow(d: int, s: int, k: nat)
    requires 0 < d <= NBASE && s < Lift(1, k)
    ensures d * s < Lift(1, k + 1)
  {
    MulLt(s, Lift(1, k), d);
    LiftMul(d, 1, k);
    LiftLt(NBASE, d, k);
  }

  lemma PaddedScale(b: seq<int>, c: seq<int>, m: nat, d: int)
    requires m <= |b| == |c| && Seg(c, 0, m) == d * Seg(b, 0, m)
    requires forall i :: m <= i < |b| ==> b[i] == 0 && c[i] == 0
    ensures Seg(c, 0, |c|) == d * Seg(b, 0, |b|)
  {
    SegSplit(b, 0, m, |b|);
    SegSplit(c, 0, m, |c|);
    SegAllZero(b, m, |b|);
    SegAllZero(c, m, |c|);
    LiftMul(d, Seg(b, 0, m), |b| - m);
  }

  /** Scales dividend and divisor by one factor so that the divisor is fit for the main loop. */
  method Normalise(dividend: array<int>, m: nat, divisor: array<int>, n: nat) returns (ghost d: int)
    requires dividend != divisor && 2 <= n && divisor.Length == n + 1 && 1 <= m <= dividend.Length
    requires DigitsIn(divisor[..], 0, n + 1) && divisor[0] == 0 && divisor[1] >= 1
    requires DigitsIn(dividend[..], 0, m) && dividend[0] == 0
    requires forall i :: m <= i < dividend.Length ==> dividend[i] == 0
    modifies dividend, divisor
    ensures IsDivisor(divisor[..], n) && DigitsIn(dividend[..], 0, dividend.Length) && d >= 1
    ensures Seg(divisor[..], 1, n + 1) == d * old(Seg(divisor[..], 1, n + 1))
    ensures Seg(dividend[..], 0, dividend.Length) == d * old(Seg(dividend[..], 0, dividend.Length))
  {
    d := 1;
    if divisor[1] < HALF_NBASE {
      ghost var b, v := dividend[..], divisor[..];
      ScaleFactor(divisor[1]);
      var factor: int32 := NBASE / (divisor[1] + 1);
      var carry := ScaleUp(divisor, 1, n + 1, factor);
      ScaledDivisor(v, divisor[..], n, factor, carry);
      assert carry == 0;
      ghost var w := divisor[..];
      carry := ScaleUp(dividend, 0, m, factor);
      ScaledDividend(b, dividend[..], m, factor, carry);
      assert carry == 0 && divisor[..] == w;
      d := factor;
    }
  }

  /** q is the quotient of a by b, both moved up by whole places: a * NBASE^g / (b * NBASE^f). */
  ghost predicate IsQuotient(q: int, a: int, g: nat, b: int, f: nat) {
    Lift(q * b, f) <= Lift(a, g) < Lift((q + 1) * b, f)
  }

  lemma Bracket(p: int, q: int, v: int, f: nat, x: int)
    requires q * v <= p < (q + 1) * v && Lift(p, f) <= x < Lift(p + 1, f)
    ensures Lift(q * v, f) <= x < Lift((q + 1) * v, f)
  {
    LiftLt(q * v, p, f);
    LiftLt((q + 1) * v, p + 1, f);
  }

  lemma Unscale(d: int, x: int, f: nat, y: int)
    requires d >= 1
    ensures Lift(d * x, f) <= d * y <==> Lift(x, f) <= y
  {
    LiftMul(d, x, f);
    if Lift(x, f) <= y { MulLe(Lift(x, f), y, d); } else { MulLt(y, Lift(x, f), d); }
  }

  /** The quotient of the first places of the scaled dividend is the quotient of the whole. */
  lemma PrefixQuotient(c: seq<int>, k: nat, d: int, a: int, g: nat, b: int, q: int)
    requires k <= |c| && DigitsIn(c, 0, |c|) && d >= 1 && d * b > 0
    requires Seg(c, 0, |c|) == d * Lift(a, g) && q == Seg(c, 0, k) / (d * b)
    ensures IsQuotient(q, a, g, b, |c| - k)
  {
    var p, v, f := Seg(c, 0, k), d * b, |c| - k;
    SegSplit(c, 0, k, |c|);
    SegBound(c, k, |c|);
    LiftSum(p, 1, f);
    DivBracket(p, v);
    Bracket(p, q, v, f, d * Lift(a, g));
    UnscaleMultiple(d, q, b, v, f, Lift(a, g));
    UnscaleMultiple(d, q + 1, b, v, f, Lift(a, g));
  }

  lemma UnscaleMultiple(d: int, q: int, b: int, v: int, f: nat, y: int)
    requires d >= 1 && v == d * b
    ensures Lift(q * v, f) <= d * y <==> Lift(q * b, f) <= y
  {
    var x := q * b;
    assert q * v == d * x;
    Unscale(d, x, f, y);
  }

  lemma DivBracket(p: int, v: int)
    requires v > 0
    ensures p / v * v <= p < (p / v + 1) * v
  {
    assert (p / v + 1) * v == p / v * v + v;
  }

  /** The first n digits of the scaled dividend lie below the scaled divisor. */
  lemma FirstWindow(c: seq<int>, n: nat, d: int, b: int, x: int)
    requires 1 <= n <= |c| && DigitsIn(c, 0, |c|) && d >= 1 && b >= Lift(1, n - 1)
    requires Seg(c, 0, |c|) == d * x && x < Lift(1, |c| - 1)
    ensures Seg(c, 0, n) < d * b
  {
    var m := |c| - n;
    SegSplit(c, 0, n, |c|);
    SegBound(c, n, |c|);
    LiftLift(1, n - 1, m);
    LiftLt(Lift(1, n - 1), b, m);
    MulLt(x, Lift(b, m), d);
    LiftMul(d, b, m);
    LiftLt(Seg(c, 0, n), d * b, m);
  }

  /** The workspace: a zero, the digits of s, and zeros to the end. */
  ghost predicate Loaded(c: seq<int>, s: seq<int>) {
    && |s| < |c| && c[0] == 0 && DigitsIn(c, 0, |c|)
    && (forall i :: 0 <= i < |s| ==> c[1 + i] == s[i])
    && (forall i :: |s| < i < |c| ==> c[i] == 0)
  }

  lemma Workspace(c: seq<int>, s: seq<int>)
    requires Loaded(c, s)
    ensures Seg(c, 0, |c|) == Seg(c, 1, |c|) == Lift(Nat(s), |c| - 1 - |s|)
  {
    SegLeadingZero(c, 0, |c|);
    SegSplit(c, 1, 1 + |s|, |c|);
    SegAllZero(c, 1 + |s|, |c|);
    SegMoved(s, 0, |s|, c, 1);
  }

  method LoadDigits(s: seq<int>, len: nat) returns (a: array<int>)
    requires |s| < len && AllDigits(s)
    ensures fresh(a) && a.Length == len && Loaded(a[..], s)
  {
    a := new int[len](i => if 1 <= i <= |s| then s[i - 1] else 0);
    forall i | 0 <= i < len ensures IsDigit(a[..][i]) {
      if 1 <= i <= |s| { assert IsDigit(s[i - 1]); }
    }
  }

  lemma LeadPositive(t: seq<int>)
    requires AllDigits(t) && t != [] && t[0] != 0
    ensures Nat(t) >= Lift(1, |t| - 1) >= 1
  {
    NatLeadBound(t);
    assert IsDigit(t[0]);
    LiftLt(1, t[0], |t| - 1);
    LiftSign(1, |t| - 1);
  }

  /** The multiple-place path, from loaded workspaces. */
  method DivByMany(s: seq<int>, t: seq<int>, dividend: array<int>, divisor: array<int>, k: nat, res: array<int>)
    requires dividend != divisor && dividend != res && divisor != res
    requires AllDigits(s) && AllDigits(t) && |t| >= 2 && t[0] != 0 && res.Length == k + 1
    requires Loaded(dividend[..], s) && Loaded(divisor[..], t)
    requires dividend.Length >= k + |t| && divisor.Length == |t| + 1
    modifies dividend, divisor, res
    ensures res[0] == old(res[0]) && DigitsIn(res[..], 1, 1 + k)
    ensures IsQuotient(Seg(res[..], 1, 1 + k), Nat(s), dividend.Length - 1 - |s|, Nat(t), dividend.Length - k - |t|)
  {
    ghost var g := dividend.Length - 1 - |s|;
    ghost var d := ScaleBoth(s, t, dividend, divisor, g);
    ghost var c := dividend[..];
    LongDivide(dividend, divisor, |t|, res, k);
    PrefixQuotient(c, k + |t|, d, Nat(s), g, Nat(t), Seg(res[..], 1, 1 + k));
  }

  /** Scales the loaded operands, so that the first window of the dividend is below the divisor. */
  method ScaleBoth(s: seq<int>, t: seq<int>, dividend: array<int>, divisor: array<int>, ghost g: nat) returns (ghost d: int)
    requires dividend != divisor && AllDigits(s) && AllDigits(t) && |t| >= 2 && t[0] != 0
    requires Loaded(dividend[..], s) && Loaded(divisor[..], t)
    requires dividend.Length >= |t| && divisor.Length == |t| + 1 && g == dividend.Length - 1 - |s|
    modifies dividend, divisor
    ensures IsDivisor(divisor[..], |t|) && DigitsIn(dividend[..], 0, dividend.Length) && d >= 1 && Nat(t) > 0
    ensures Seg(divisor[..], 1, |t| + 1) == d * Nat(t) && d * Nat(t) > 0
    ensures Seg(dividend[..], 0, dividend.Length) == d * Lift(Nat(s), g)
    ensures Seg(dividend[..], 0, |t|) < Seg(divisor[..], 1, |t| + 1)
  {
    Workspace(dividend[..], s);
    Workspace(divisor[..], t);
    NatBound(s);
    LeadPositive(t);
    BelowTop(Nat(s), |s|, dividend.Length - 1);
    d := Normalise(dividend, |s| + 1, divisor, |t|);
    MulLt(0, d, Nat(t));
    FirstWindow(dividend[..], |t|, d, Nat(t), Lift(Nat(s), g));
  }

  /** res[1..1+k] := the first k quotient digits of s by t, t having a nonzero first digit. */
  method DivDigits(s: seq<int>, t: seq<int>, k: nat, res: array<int>)
    requires AllDigits(s) && AllDigits(t) && t != [] && t[0] != 0 && res.Length == k + 1
    modifies res
    ensures res[0] == old(res[0]) && DigitsIn(res[..], 1, 1 + k)
    ensures var len := Max(k + |t|, |s|) + 1;
      IsQuotient(Seg(res[..], 1, 1 + k), Nat(s), len - 1 - |s|, Nat(t), len - k - |t|)
  {
    var n, len := |t|, Max(k + |t|, |s|) + 1;
    var dividend := LoadDigits(s, len);
    var divisor := LoadDigits(t, n + 1);
    if n == 1 {
      Workspace(dividend[..], s);
      LeadPositive(t);
      assert Nat(t) == t[0] && IsDigit(t[0]);
      ShortDivide(dividend, divisor[1], res, k);
      PrefixQuotient(dividend[..], k + 1, 1, Nat(s), len - 1 - |s|, Nat(t), Seg(res[..], 1, 1 + k));
    } else {
      DivByMany(s, t, dividend, divisor, k, res);
    }
  }

  lemma BelowTop(x: int, n: nat, m: nat)
    requires x < Lift(1, n) && n <= m
    ensures Lift(x, m - n) < Lift(1, m)
  {
    LiftLt(x, Lift(1, n), m - n);
    LiftLift(1, n, m - n);
  }
}
