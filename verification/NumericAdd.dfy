/** Comparison, addition and subtraction of numeric variables. */
module NumericAdd {
  import opened Basics
  import opened Radix
  import opened Decimal
  import opened Numerics

  /** The magnitude of the digits of s from place i on. */
  ghost function Tail(s: seq<int>, i: nat, w: int): real
    requires i <= |s|
  {
    Shift(Seg(s, i, |s|) as real, 4 * (w + 1 - |s|))
  }

  lemma TailStep(s: seq<int>, i: nat, w: int)
    requires i < |s|
    ensures Tail(s, i, w) == Shift(s[i] as real, 4 * (w - i)) + Tail(s, i + 1, w)
    ensures s[i] == 0 ==> Tail(s, i, w) == Tail(s, i + 1, w)
  {
    var k, e := |s| - 1 - i, 4 * (w + 1 - |s|);
    SegCons(s, i, |s|);
    ShiftSum(Lift(s[i], k) as real, Seg(s, i + 1, |s|) as real, e);
    ShiftLift(s[i], k);
    ShiftAdd(s[i] as real, 4 * k, e);
    ShiftZero(4 * (w - i));
  }

  lemma TailBound(s: seq<int>, i: nat, w: int)
    requires i <= |s| && AllDigits(s)
    ensures 0.0 <= Tail(s, i, w) < Shift(1.0, 4 * (w + 1 - i))
    ensures i == |s| ==> Tail(s, i, w) == 0.0
  {
    var k, e := |s| - i, 4 * (w + 1 - |s|);
    SegBound(s, i, |s|);
    ShiftPositive(Seg(s, i, |s|) as real, e);
    ShiftLt(Seg(s, i, |s|) as real, Lift(1, k) as real, e);
    ShiftLift(1, k);
    ShiftAdd(1.0, 4 * k, e);
    ShiftZero(e);
  }

  /** A nonzero digit makes the tail at least one unit of that place. */
  lemma TailLead(s: seq<int>, i: nat, w: int)
    requires i < |s| && AllDigits(s) && s[i] != 0
    ensures Tail(s, i, w) >= Shift(1.0, 4 * (w - i)) > 0.0
  {
    TailStep(s, i, w);
    TailBound(s, i + 1, w);
    assert IsDigit(s[i]);
    ShiftLt(1.0, s[i] as real, 4 * (w - i));
    ShiftPositive(1.0, 4 * (w - i));
  }

  lemma TailGap(s: seq<int>, i: nat, w: int, t: seq<int>, j: nat, v: int)
    requires i < |s| && j <= |t| && AllDigits(s) && AllDigits(t)
    requires s[i] != 0 && w - i > v - j
    ensures Tail(s, i, w) > Tail(t, j, v)
  {
    TailLead(s, i, w);
    TailBound(t, j, v);
    ShiftGrow(1.0, 4 * (v + 1 - j), 4 * (w - i));
  }

  lemma TailDiff(s: seq<int>, i: nat, w: int, t: seq<int>, j: nat, v: int)
    requires i < |s| && j < |t| && AllDigits(s) && AllDigits(t) && w - i == v - j
    ensures s[i] > t[j] ==> Tail(s, i, w) > Tail(t, j, v)
    ensures s[i] == t[j] ==> Tail(s, i, w) - Tail(t, j, v) == Tail(s, i + 1, w) - Tail(t, j + 1, v)
  {
    var e := 4 * (w - i);
    TailStep(s, i, w);
    TailStep(t, j, v);
    TailBound(s, i + 1, w);
    TailBound(t, j + 1, v);
    if s[i] > t[j] {
      ShiftSum(t[j] as real, 1.0, e);
      ShiftLt(t[j] as real + 1.0, s[i] as real, e);
    }
  }

  function Sign(x: real): int { if x < 0.0 then -1 else if x > 0.0 then 1 else 0 }

  /** Skips the digits of s above weight v: those before the first digit that t can have. */
  method SkipHigh(s: seq<int>, w: int, v: int) returns (i: nat, nonzero: bool)
    requires AllDigits(s)
    ensures i <= |s| && Tail(s, i, w) == Mag(s, w)
    ensures if nonzero then i < |s| && s[i] != 0 && w - i > v else w - i <= v || i == |s|
    ensures i > 0 ==> w - i >= v
  {
    i, nonzero := 0, false;
    while w - i > v && i < |s|
      invariant i <= |s| && Tail(s, i, w) == Mag(s, w)
      invariant i > 0 ==> w - i >= v
    {
      if s[i] != 0 {
        nonzero := true;
        return;
      }
      TailStep(s, i, w);
      i := i + 1;
    }
  }

  /** Is any digit of s from place i on nonzero? */
  method AnyNonzero(s: seq<int>, i0: nat, w: int) returns (nonzero: bool)
    requires i0 <= |s| && AllDigits(s)
    ensures nonzero <==> Tail(s, i0, w) > 0.0
  {
    var i := i0;
    while i < |s|
      invariant i0 <= i <= |s| && Tail(s, i, w) == Tail(s, i0, w)
    {
      if s[i] != 0 {
        TailLead(s, i, w);
        return true;
      }
      TailStep(s, i, w);
      i := i + 1;
    }
    TailBound(s, i, w);
    return false;
  }

  /** Compares the digits s and t place by place while both last. */
  method CmpAligned(s: seq<int>, i0: nat, w: int, t: seq<int>, j0: nat, v: int) returns (i: nat, j: nat, c: int)
    requires i0 <= |s| && j0 <= |t| && AllDigits(s) && AllDigits(t) && w - i0 == v - j0
    ensures i <= |s| && j <= |t|
    ensures c != 0 ==> c == Sign(Tail(s, i0, w) - Tail(t, j0, v))
    ensures c == 0 ==> i == |s| || j == |t|
    ensures c == 0 ==> Tail(s, i0, w) - Tail(t, j0, v) == Tail(s, i, w) - Tail(t, j, v)
  {
    i, j, c := i0, j0, 0;
    while i < |s| && j < |t|
      invariant i0 <= i <= |s| && j0 <= j <= |t| && w - i == v - j
      invariant Tail(s, i0, w) - Tail(t, j0, v) == Tail(s, i, w) - Tail(t, j, v)
    {
      TailDiff(s, i, w, t, j, v);
      TailDiff(t, j, v, s, i, w);
      var stat := s[i] - t[j];
      if stat != 0 {
        c := if stat > 0 then 1 else -1;
        return;
      }
      i, j := i + 1, j + 1;
    }
  }

  /** Compares magnitudes; zero digits at either end of either number make no difference. */
  method CmpAbs(s: seq<int>, w: int, t: seq<int>, v: int) returns (c: int)
    requires AllDigits(s) && AllDigits(t)
    ensures c == Sign(Mag(s, w) - Mag(t, v))
  {
    var i, high := SkipHigh(s, w, v);
    assert Tail(t, 0, v) == Mag(t, v);
    if high {
      TailGap(s, i, w, t, 0, v);
      return 1;
    }
    var j: nat, high2 := 0, false;
    j, high2 := SkipHigh(t, v, w - i);
    if high2 {
      TailGap(t, j, v, s, i, w);
      return -1;
    }
    if w - i == v - j {
      i, j, c := CmpAligned(s, i, w, t, j, v);
      if c != 0 { return; }
    }
    var more := AnyNonzero(s, i, w);
    TailBound(s, i, w);
    TailBound(t, j, v);
    if more { return 1; }
    more := AnyNonzero(t, j, v);
    return if more then -1 else 0;
  }

  /** When the comparison of signed values is right: a zero that is decided on its sign or on its
      digit count, rather than on its digits, must have no digits. */
  ghost predicate CmpReliable(x: Num, y: Num)
    requires x.InBuffer() && y.InBuffer()
  {
    if x.n == 0 then y.n == 0 || y.Magnitude() > 0.0
    else if y.n == 0 then x.Magnitude() > 0.0
    else x.sign == y.sign || x.Magnitude() > 0.0 || y.Magnitude() > 0.0
  }

  /** A zero that kept a digit and a zero without digits are equal, but not compared so. */
  lemma CmpMisled(x: Num, y: Num)
    requires x.b == [0, 0] && x.lo == 1 && x.n == 1 && x.sign == NUMERIC_POS
    requires y.b == [] && y.lo == 0 && y.n == 0 && y.sign == NUMERIC_POS
    ensures x.Finite() && y.Finite() && x.Value() == y.Value() && !CmpReliable(x, y)
  {
    OneZeroDigit(x);
    ZeroValue(y);
  }

  /** Compares signed values; exact just when zeroes have been truncated to no digits where it matters. */
  method CmpVar(v1: Numeric, v2: Numeric) returns (c: int)
    requires v1.Get().Finite() && v2.Get().Finite()
    ensures c == Sign(v1.Get().Value() - v2.Get().Value()) <==> CmpReliable(v1.Get(), v2.Get())
  {
    ghost var x, y := v1.Get(), v2.Get();
    ValueSign(x);
    ValueSign(y);
    if v1.ndigits == 0 { ZeroValue(x); }
    if v2.ndigits == 0 { ZeroValue(y); }
    if v1.ndigits == 0 {
      if v2.ndigits == 0 { return 0; }
      return if v2.sign == NUMERIC_NEG then 1 else -1;
    }
    if v2.ndigits == 0 {
      return if v1.sign == NUMERIC_POS then 1 else -1;
    }
    if v1.sign == NUMERIC_POS {
      if v2.sign == NUMERIC_NEG { return 1; }
      c := CmpAbsVar(v1, v2);
    } else {
      if v2.sign == NUMERIC_POS { return -1; }
      c := CmpAbsVar(v2, v1);
    }
  }

  method CmpAbsVar(v1: Numeric, v2: Numeric) returns (c: int)
    requires v1.Get().Sound() && v2.Get().Sound()
    ensures c == Sign(v1.Get().Magnitude() - v2.Get().Magnitude())
  {
    var s, t := v1.buf[..][v1.digits..v1.digits + v1.ndigits], v2.buf[..][v2.digits..v2.digits + v2.ndigits];
    c := CmpAbs(s, v1.weight, t, v2.weight);
  }

  /** The digits of s as seen by a result of n digits whose place i holds the place i + d of s. */
  ghost function Aligned(s: seq<int>, d: int, n: nat): (a: seq<int>)
    ensures |a| == n && forall i :: 0 <= i < n ==> a[i] == if 0 <= i + d < |s| then s[i + d] else 0
  {
    seq(n, i requires 0 <= i < n => if 0 <= i + d < |s| then s[i + d] else 0)
  }

  /** Every digit of s that the window [d, d + n) misses is zero. */
  ghost predicate Covered(s: seq<int>, d: int, n: nat) {
    forall i :: 0 <= i < |s| && !(d <= i < d + n) ==> s[i] == 0
  }

  /** Looking through a window that misses only zeros keeps the magnitude. */
  lemma AlignedMag(s: seq<int>, w: int, d: int, n: nat)
    requires Covered(s, d, n)
    ensures Mag(Aligned(s, d, n), w - d) == Mag(s, w)
  {
    var a := Aligned(s, d, n);
    var lo, hi := Max(0, d), Min(|s|, d + n);
    if lo < hi {
      AlignedPart(s, w, d, a, lo, hi);
    } else {
      NatAllZero(s);
      NatAllZero(a);
      ShiftZero(4 * (w + 1 - |s|));
      ShiftZero(4 * (w - d + 1 - n));
    }
  }

  lemma AlignedPart(s: seq<int>, w: int, d: int, a: seq<int>, lo: nat, hi: nat)
    requires lo <= hi <= |s| && d <= lo && hi - d <= |a|
    requires forall i :: lo <= i < hi ==> s[i] == a[i - d]
    requires forall i :: 0 <= i < |s| && !(lo <= i < hi) ==> s[i] == 0
    requires forall i :: 0 <= i < |a| && !(lo <= i + d < hi) ==> a[i] == 0
    ensures Mag(a, w - d) == Mag(s, w)
  {
    var l, h := lo - d, hi - d;
    StripMag(s, w, lo, hi);
    StripMag(a, w - d, l, h);
    assert s[lo..hi] == a[l..h];
  }

  lemma AlignedDigits(s: seq<int>, d: int, n: nat)
    requires AllDigits(s)
    ensures AllDigits(Aligned(s, d, n))
  {
  }

  /** One place of a sum or difference: what leaves it moves one place up. */
  lemma CarryStep(b: seq<int>, c: seq<int>, x: seq<int>, y: seq<int>, i: nat, off: nat, n: nat, carry: int, out: int)
    requires i < n == |x| == |y| && off + n == |b| == |c|
    requires forall j :: off + i < j < off + n ==> c[j] == b[j]
    requires c[off + i] == x[i] + y[i] + carry - out * NBASE
    requires Seg(b, off + i + 1, off + n) + Lift(carry, n - i - 1) == Seg(x, i + 1, n) + Seg(y, i + 1, n)
    ensures Seg(c, off + i, off + n) + Lift(out, n - i) == Seg(x, i, n) + Seg(y, i, n)
  {
    var k := n - i - 1;
    SegCons(x, i, n);
    SegCons(y, i, n);
    SegCons(c, off + i, off + n);
    SegSame(b, c, off + i + 1, off + n);
    LiftSum(x[i] + y[i] + carry, out * NBASE, k);
    LiftSum(x[i] + y[i], carry, k);
    LiftSum(x[i], y[i], k);
    assert Lift(out, k + 1) == Lift(out * NBASE, k);
  }

  /** The digit at place i, zero outside. */
  function DigitOrZero(s: seq<int>, i: int): int {
    if 0 <= i < |s| then s[i] else 0
  }

  /** One place of an addition. */
  method AddPlace(s: seq<int>, i1: int, t: seq<int>, i2: int, carry: int32) returns (digit: int32, carry': int32)
    requires AllDigits(s) && AllDigits(t) && 0 <= carry <= 1
    ensures IsDigit(digit) && 0 <= carry' <= 1 && digit == DigitOrZero(s, i1) + DigitOrZero(t, i2) + carry - carry' * NBASE
  {
    assert 0 <= i1 < |s| ==> IsDigit(s[i1]);
    assert 0 <= i2 < |t| ==> IsDigit(t[i2]);
    carry' := carry;
    if 0 <= i1 < |s| { carry' := carry' + s[i1]; }
    if 0 <= i2 < |t| { carry' := carry' + t[i2]; }
    if carry' >= NBASE {
      digit, carry' := carry' - NBASE, 1;
    } else {
      digit, carry' := carry', 0;
    }
  }

  /** One place of a subtraction. */
  method SubPlace(s: seq<int>, i1: int, t: seq<int>, i2: int, borrow: int32) returns (digit: int32, borrow': int32)
    requires AllDigits(s) && AllDigits(t) && -1 <= borrow <= 0
    ensures IsDigit(digit) && -1 <= borrow' <= 0 && digit == DigitOrZero(s, i1) - DigitOrZero(t, i2) + borrow - borrow' * NBASE
  {
    assert 0 <= i1 < |s| ==> IsDigit(s[i1]);
    assert 0 <= i2 < |t| ==> IsDigit(t[i2]);
    borrow' := borrow;
    if 0 <= i1 < |s| { borrow' := borrow' + s[i1]; }
    if 0 <= i2 < |t| { borrow' := borrow' - t[i2]; }
    if borrow' < 0 {
      digit, borrow' := borrow' + NBASE, -1;
    } else {
      digit, borrow' := borrow', 0;
    }
  }

  /** The carry loop: res[1..] := s + t, seen through windows at d1 and d2. */
  method AddDigits(s: seq<int>, d1: int, t: seq<int>, d2: int, res: array<int>)
    requires AllDigits(s) && AllDigits(t) && res.Length >= 2 && d1 < 0 && d2 < 0
    modifies res
    ensures res[0] == old(res[0]) && DigitsIn(res[..], 1, res.Length)
    ensures Seg(res[..], 1, res.Length) == Nat(Aligned(s, d1, res.Length - 1)) + Nat(Aligned(t, d2, res.Length - 1))
  {
    var n := res.Length - 1;
    ghost var x, y := Aligned(s, d1, n), Aligned(t, d2, n);
    AlignedDigits(s, d1, n);
    AlignedDigits(t, d2, n);
    var carry: int32, i := 0, n;
    while i > 0
      invariant 0 <= i <= n && 0 <= carry <= 1 && (i == 0 ==> carry == 0)
      invariant res[0] == old(res[0]) && DigitsIn(res[..], 1 + i, 1 + n)
      invariant Seg(res[..], 1 + i, 1 + n) + Lift(carry, n - i) == Seg(x, i, n) + Seg(y, i, n)
    {
      i := i - 1;
      assert IsDigit(x[i]) && IsDigit(y[i]);
      ghost var b, c := res[..], carry;
      var digit;
      digit, carry := AddPlace(s, i + d1, t, i + d2, carry);
      res[1 + i] := digit;
      CarryStep(b, res[..], x, y, i, 1, n, c, carry);
    }
    assert Lift(0, n) == 0 by { LiftZero(n); }
  }

  /** The borrow loop: res[1..] := s - t; borrowOut is -1 exactly if t is the larger. */
  method SubDigits(s: seq<int>, d1: int, t: seq<int>, d2: int, res: array<int>) returns (borrow: int32)
    requires AllDigits(s) && AllDigits(t) && res.Length >= 1
    modifies res
    ensures res[0] == old(res[0]) && DigitsIn(res[..], 1, res.Length) && -1 <= borrow <= 0
    ensures Seg(res[..], 1, res.Length) + Lift(borrow, res.Length - 1)
         == Nat(Aligned(s, d1, res.Length - 1)) - Nat(Aligned(t, d2, res.Length - 1))
  {
    var n := res.Length - 1;
    ghost var x, y := Aligned(s, d1, n), Aligned(t, d2, n);
    ghost var z := Negated(y);
    AlignedDigits(s, d1, n);
    AlignedDigits(t, d2, n);
    var i := n;
    borrow := 0;
    while i > 0
      invariant 0 <= i <= n && -1 <= borrow <= 0
      invariant res[0] == old(res[0]) && DigitsIn(res[..], 1 + i, 1 + n)
      invariant Seg(res[..], 1 + i, 1 + n) + Lift(borrow, n - i) == Seg(x, i, n) + Seg(z, i, n)
    {
      i := i - 1;
      assert IsDigit(x[i]) && IsDigit(y[i]);
      ghost var b, c := res[..], borrow;
      var digit;
      digit, borrow := SubPlace(s, i + d1, t, i + d2, borrow);
      res[1 + i] := digit;
      CarryStep(b, res[..], x, z, i, 1, n, c, borrow);
    }
    SegNegated(y, n);
  }

  ghost function Negated(s: seq<int>): (r: seq<int>)
    ensures |r| == |s| && forall i :: 0 <= i < |s| ==> r[i] == -s[i]
  {
    seq(|s|, i requires 0 <= i < |s| => -s[i])
  }

  lemma {:induction false} SegNegated(s: seq<int>, hi: nat)
    requires hi <= |s|
    ensures Seg(Negated(s), 0, hi) == -Seg(s, 0, hi)
  {
    if hi > 0 { SegNegated(s, hi - 1); }
  }

  /** The layout add_abs and sub_abs give their result: n digits below weight w. */
  lemma ResultMag(r: Num, s: seq<int>, v: int, t: seq<int>, u: int, d1: int, d2: int, sum: bool)
    requires r.InBuffer() && r.lo == 1 && r.lo + r.n == |r.b| && DigitsIn(r.b, 1, |r.b|)
    requires Covered(s, d1, r.n) && Covered(t, d2, r.n) && d1 == v - r.weight && d2 == u - r.weight
    requires Seg(r.b, 1, |r.b|) == Nat(Aligned(s, d1, r.n)) + if sum then Nat(Aligned(t, d2, r.n)) else -Nat(Aligned(t, d2, r.n))
    ensures r.Sound() && r.Magnitude() == Mag(s, v) + if sum then Mag(t, u) else -Mag(t, u)
  {
    var x, y, e := Nat(Aligned(s, d1, r.n)) as real, Nat(Aligned(t, d2, r.n)) as real, 4 * (r.weight + 1 - r.n);
    MagOfSeg(r, 1, |r.b|, e);
    AlignedMag(s, v, d1, r.n);
    AlignedMag(t, u, d2, r.n);
    ShiftSum(x, y, e);
  }

  /** result := the digits after the spare place of res, stripped. */
  method Install(result: Numeric, res: array<int>, weight: int, dscale: int)
    requires res.Length >= 1 && res[0] == 0 && Num(res[..], 1, res.Length - 1, weight, NUMERIC_POS, 0).Sound()
    modifies result
    ensures result.buf == res && res[..] == old(res[..])
    ensures result.Get().Sound() && result.Get().Stripped() && result.Get().Spare() && result.dscale == dscale
    ensures result.Get().Magnitude() == old(Num(res[..], 1, res.Length - 1, weight, NUMERIC_POS, 0).Magnitude())
  {
    ghost var r := Num(res[..], 1, res.Length - 1, weight, result.sign, dscale);
    result.ndigits, result.buf, result.digits := res.Length - 1, res, 1;
    result.weight, result.dscale := weight, dscale;
    assert result.Get() == r;
    StripVar(result);
  }

  /** result := |v1| + |v2|, stripped; result may be v1 or v2. The sign is left to the caller. */
  method AddAbs(v1: Numeric, v2: Numeric, result: Numeric)
    requires v1.Get().Sound() && v2.Get().Sound()
    modifies result
    ensures fresh(result.buf) && result.Get().Sound() && result.Get().Stripped() && result.Get().Spare()
    ensures result.Get().Magnitude() == old(v1.Get().Magnitude()) + old(v2.Get().Magnitude())
    ensures result.dscale == Max(old(v1.dscale), old(v2.dscale))
  {
    var s, t := v1.buf[..][v1.digits..v1.digits + v1.ndigits], v2.buf[..][v2.digits..v2.digits + v2.ndigits];
    var w1, w2, dscale := v1.weight, v2.weight, Max(v1.dscale, v2.dscale);
    var res := AddAbsDigits(s, w1, t, w2);
    Install(result, res, Max(w1, w2) + 1, dscale);
  }

  /** The digits of the sum, with one more place in front. */
  method AddAbsDigits(s: seq<int>, w1: int, t: seq<int>, w2: int) returns (res: array<int>)
    requires AllDigits(s) && AllDigits(t)
    ensures fresh(res) && res.Length >= 2 && res[0] == 0
    ensures var r := Num(res[..], 1, res.Length - 1, Max(w1, w2) + 1, NUMERIC_POS, 0);
      r.Sound() && r.Magnitude() == Mag(s, w1) + Mag(t, w2)
  {
    var weight := Max(w1, w2) + 1;
    var rscale := Max(|s| - w1 - 1, |t| - w2 - 1);
    var n := rscale + weight + 1;
    var d1, d2 := rscale + w1 + 1 - n, rscale + w2 + 1 - n;
    res := new int[n + 1];
    res[0] := 0;
    AddDigits(s, d1, t, d2, res);
    ResultMag(Num(res[..], 1, n, weight, NUMERIC_POS, 0), s, w1, t, w2, d1, d2, true);
  }

  lemma {:induction false} TailBelow(s: seq<int>, i: nat, w: int)
    requires i <= |s| && AllDigits(s)
    ensures Tail(s, i, w) <= Mag(s, w)
  {
    if i > 0 {
      TailBelow(s, i - 1, w);
      TailStep(s, i - 1, w);
      assert IsDigit(s[i - 1]);
      ShiftPositive(s[i - 1] as real, 4 * (w - (i - 1)));
    }
  }

  /** A number below NBASE^(v+1) has only zero digits above weight v. */
  lemma HighDigitsZero(s: seq<int>, w: int, v: int, i: nat)
    requires AllDigits(s) && i < |s| && w - i > v && Mag(s, w) < Shift(1.0, 4 * (v + 1))
    ensures s[i] == 0
  {
    if s[i] != 0 {
      TailBelow(s, i, w);
      TailLead(s, i, w);
      ShiftGrow(1.0, 4 * (v + 1), 4 * (w - i));
    }
  }

  lemma ZeroDigits(s: seq<int>, w: int, i: nat)
    requires AllDigits(s) && i < |s| && Mag(s, w) <= 0.0
    ensures s[i] == 0
  {
    if s[i] != 0 {
      TailBelow(s, i, w);
      TailLead(s, i, w);
    }
  }

  /** The minuend's window covers the subtrahend, because the subtrahend is no larger. */
  lemma SubCovered(s: seq<int>, w1: int, t: seq<int>, w2: int, n: nat)
    requires AllDigits(s) && AllDigits(t) && Mag(s, w1) >= Mag(t, w2)
    requires |s| <= n && |t| - w2 - 1 <= n - w1 - 1
    ensures Covered(s, 0, n) && Covered(t, w2 - w1, n)
  {
    MagBound(s, w1);
    forall i | 0 <= i < |t| && !(w2 - w1 <= i < w2 - w1 + n)
      ensures t[i] == 0
    {
      HighDigitsZero(t, w2, w1, i);
    }
  }

  lemma NoBorrow(s: seq<int>, w1: int, t: seq<int>, w2: int, n: nat, borrow: int, x: int)
    requires Covered(s, 0, n) && Covered(t, w2 - w1, n) && Mag(s, w1) >= Mag(t, w2)
    requires -1 <= borrow <= 0 && 0 <= x < Lift(1, n)
    requires x + Lift(borrow, n) == Nat(Aligned(s, 0, n)) - Nat(Aligned(t, w2 - w1, n))
    ensures borrow == 0 && x == Nat(Aligned(s, 0, n)) - Nat(Aligned(t, w2 - w1, n))
  {
    AlignedMag(s, w1, 0, n);
    AlignedMag(t, w2, w2 - w1, n);
    ShiftLt(Nat(Aligned(t, w2 - w1, n)) as real, Nat(Aligned(s, 0, n)) as real, 4 * (w1 + 1 - n));
    LiftZero(n);
    LiftSum(0, 1, n);
  }

  /** The loop run on a single place when the minuend has no digits at all. */
  lemma EmptyMinuend(r: Num, t: seq<int>, w2: int, d1: int, d2: int, borrow: int)
    requires r.InBuffer() && r.lo == 1 && r.n == 1 && |r.b| == 2 && DigitsIn(r.b, 1, 2)
    requires AllDigits(t) && Mag(t, w2) <= 0.0 && -1 <= borrow <= 0
    requires Seg(r.b, 1, 2) + Lift(borrow, 1) == Nat(Aligned([], d1, 1)) - Nat(Aligned(t, d2, 1))
    ensures borrow == 0 && r.Sound() && r.Magnitude() == 0.0 && Mag(t, w2) == 0.0
  {
    forall i | 0 <= i < |t| ensures t[i] == 0 { ZeroDigits(t, w2, i); }
    MagBound(t, w2);
    NatAllZero(Aligned([], d1, 1));
    NatAllZero(Aligned(t, d2, 1));
    SegBound(r.b, 1, 2);
    assert Lift(1, 1) == NBASE && Lift(-1, 1) == -NBASE;
    MagOfSeg(r, 1, 2, 4 * r.weight);
    ShiftZero(4 * r.weight);
  }

  /** result := |v1| - |v2|, stripped; result may be v1 or v2. The sign is left to the caller. */
  method SubAbs(v1: Numeric, v2: Numeric, result: Numeric)
    requires v1.Get().Sound() && v2.Get().Sound()
    requires v1.Get().Magnitude() >= v2.Get().Magnitude()
    modifies result
    ensures fresh(result.buf) && result.Get().Sound() && result.Get().Stripped() && result.Get().Spare()
    ensures result.Get().Magnitude() == old(v1.Get().Magnitude()) - old(v2.Get().Magnitude())
    ensures result.dscale == Max(old(v1.dscale), old(v2.dscale))
  {
    var s, t := v1.buf[..][v1.digits..v1.digits + v1.ndigits], v2.buf[..][v2.digits..v2.digits + v2.ndigits];
    var w1, w2, dscale := v1.weight, v2.weight, Max(v1.dscale, v2.dscale);
    var res := SubAbsDigits(s, w1, t, w2);
    Install(result, res, w1, dscale);
  }

  /** A fresh buffer for s - t: a spare place, then the digits from weight w1 down. */
  method SubAbsDigits(s: seq<int>, w1: int, t: seq<int>, w2: int) returns (res: array<int>)
    requires AllDigits(s) && AllDigits(t) && Mag(s, w1) >= Mag(t, w2)
    ensures fresh(res) && res.Length >= 2 && res[0] == 0
    ensures var r := Num(res[..], 1, res.Length - 1, w1, NUMERIC_POS, 0);
      r.Sound() && r.Magnitude() == Mag(s, w1) - Mag(t, w2)
  {
    var rscale := Max(|s| - w1 - 1, |t| - w2 - 1);
    var n := rscale + w1 + 1;
    if n <= 0 { n := 1; }
    var d1, d2 := rscale + w1 + 1 - n, rscale + w2 + 1 - n;
    res := new int[n + 1];
    res[0] := 0;
    var borrow := SubDigits(s, d1, t, d2, res);
    ghost var r := Num(res[..], 1, n, w1, NUMERIC_POS, 0);
    if d1 == 0 {
      SubCovered(s, w1, t, w2, n);
      SegBound(res[..], 1, 1 + n);
      NoBorrow(s, w1, t, w2, n, borrow, Seg(res[..], 1, 1 + n));
      ResultMag(r, s, w1, t, w2, d1, d2, false);
    } else {
      assert s == [];
      ShiftZero(4 * (w1 + 1));
      EmptyMinuend(r, t, w2, d1, d2, borrow);
    }
    assert borrow == 0;
  }

  /** r holds exactly v, at display scale d. */
  ghost predicate Holds(r: Num, v: real, d: int) {
    r.Finite() && r.Spare() && r.Value() == v && r.dscale == d
  }

  lemma SetSign(r: Num, sign: int)
    requires r.Sound() && (sign == NUMERIC_POS || sign == NUMERIC_NEG)
    ensures var q := r.(sign := sign);
      && q.Finite() && q.Value() == (if sign == NUMERIC_NEG then -r.Magnitude() else r.Magnitude())
      && (r.Stripped() && (sign == NUMERIC_POS || r.Magnitude() != 0.0) ==> q.Stripped())
  {
    if r.n == 0 { ZeroValue(r); }
  }

  /** The difference of the magnitudes: sign gt if v1 is the larger, lt if v2 is. */
  method SubMagnitudes(v1: Numeric, v2: Numeric, result: Numeric, gt: int, lt: int)
    requires v1.Get().Sound() && v2.Get().Sound()
    requires {gt, lt} == {NUMERIC_POS, NUMERIC_NEG}
    modifies result
    ensures fresh(result.buf) && result.Get().InBuffer() && result.Get().Stripped()
    ensures Holds(result.Get(),
                  if gt == NUMERIC_POS then old(v1.Get().Magnitude()) - old(v2.Get().Magnitude())
                  else old(v2.Get().Magnitude()) - old(v1.Get().Magnitude()),
                  Max(old(v1.dscale), old(v2.dscale)))
  {
    var dscale := Max(v1.dscale, v2.dscale);
    var c := CmpAbsVar(v1, v2);
    if c == 0 {
      ZeroVar(result);
      result.dscale := dscale;
      ZeroValue(result.Get());
    } else if c == 1 {
      SubSigned(v1, v2, result, gt);
    } else {
      SubSigned(v2, v1, result, lt);
    }
  }

  method SubSigned(v1: Numeric, v2: Numeric, result: Numeric, sign: int)
    requires v1.Get().Sound() && v2.Get().Sound() && v1.Get().Magnitude() > v2.Get().Magnitude()
    requires sign == NUMERIC_POS || sign == NUMERIC_NEG
    modifies result
    ensures fresh(result.buf) && result.Get().InBuffer() && result.Get().Stripped()
    ensures var m := old(v1.Get().Magnitude()) - old(v2.Get().Magnitude());
      Holds(result.Get(), if sign == NUMERIC_NEG then -m else m, Max(old(v1.dscale), old(v2.dscale)))
  {
    SubAbs(v1, v2, result);
    SetSign(result.Get(), sign);
    result.sign := sign;
  }

  method AddMagnitudes(v1: Numeric, v2: Numeric, result: Numeric, sign: int)
    requires v1.Get().Sound() && v2.Get().Sound()
    requires sign == NUMERIC_POS || sign == NUMERIC_NEG
    modifies result
    ensures fresh(result.buf) && result.Get().InBuffer()
    ensures var m := old(v1.Get().Magnitude()) + old(v2.Get().Magnitude());
      && Holds(result.Get(), if sign == NUMERIC_NEG then -m else m, Max(old(v1.dscale), old(v2.dscale)))
      && (sign == NUMERIC_POS || m != 0.0 ==> result.Get().Stripped())
  {
    AddAbs(v1, v2, result);
    SetSign(result.Get(), sign);
    result.sign := sign;
  }

  /** result := v1 + v2, exactly; result may be v1 or v2. */
  method AddVar(v1: Numeric, v2: Numeric, result: Numeric)
    requires v1.Get().Finite() && v2.Get().Finite()
    modifies result
    ensures fresh(result.buf)
    ensures Holds(result.Get(), old(v1.Get().Value()) + old(v2.Get().Value()), Max(old(v1.dscale), old(v2.dscale)))
    ensures old(v1.Get().Stripped()) || result.Get().Value() != 0.0 ==> result.Get().Stripped()
    ensures old(v1.Get().Normal() && v2.Get().Normal()) ==> result.Get().Normal()
  {
    ghost var x, y := v1.Get(), v2.Get();
    ValueSign(x);
    ValueSign(y);
    if v1.sign == NUMERIC_POS {
      if v2.sign == NUMERIC_POS {
        AddMagnitudes(v1, v2, result, NUMERIC_POS);
      } else {
        SubMagnitudes(v1, v2, result, NUMERIC_POS, NUMERIC_NEG);
      }
    } else {
      if v2.sign == NUMERIC_POS {
        SubMagnitudes(v1, v2, result, NUMERIC_NEG, NUMERIC_POS);
      } else {
        AddMagnitudes(v1, v2, result, NUMERIC_NEG);
      }
    }
    if x.Normal() && y.Normal() { SumIsNormal(x, y, result.Get()); }
  }

  /** result := v1 - v2, exactly; result may be v1 or v2. */
  method SubVar(v1: Numeric, v2: Numeric, result: Numeric)
    requires v1.Get().Finite() && v2.Get().Finite()
    modifies result
    ensures fresh(result.buf)
    ensures Holds(result.Get(), old(v1.Get().Value()) - old(v2.Get().Value()), Max(old(v1.dscale), old(v2.dscale)))
    ensures old(v1.Get().Stripped()) || result.Get().Value() != 0.0 ==> result.Get().Stripped()
    ensures old(v1.Get().Normal() && v2.Get().Normal()) ==> result.Get().Normal()
  {
    ghost var x, y := v1.Get(), v2.Get();
    ValueSign(x);
    ValueSign(y);
    if v1.sign == NUMERIC_POS {
      if v2.sign == NUMERIC_NEG {
        AddMagnitudes(v1, v2, result, NUMERIC_POS);
      } else {
        SubMagnitudes(v1, v2, result, NUMERIC_POS, NUMERIC_NEG);
      }
    } else {
      if v2.sign == NUMERIC_NEG {
        SubMagnitudes(v1, v2, result, NUMERIC_NEG, NUMERIC_POS);
      } else {
        AddMagnitudes(v1, v2, result, NUMERIC_NEG);
      }
    }
    if x.Normal() && y.Normal() { SumIsNormal(x, y, result.Get()); }
  }

  /** Sums and differences of normal forms, once stripped, are normal forms. */
  lemma SumIsNormal(x: Num, y: Num, r: Num)
    requires x.Normal() && y.Normal() && r.InBuffer() && r.Stripped()
    requires Holds(r, x.Value() + y.Value(), Max(x.dscale, y.dscale)) || Holds(r, x.Value() - y.Value(), Max(x.dscale, y.dscale))
    ensures r.Normal()
  {
    var d := r.dscale;
    ValueSign(x);
    ValueSign(y);
    ValueSign(r);
    FinerGrid(x.Magnitude(), x.dscale, d);
    FinerGrid(y.Magnitude(), y.dscale, d);
    GridSum(x.Magnitude(), y.Magnitude(), d);
    GridSum(y.Magnitude(), x.Magnitude(), d);
  }
}
