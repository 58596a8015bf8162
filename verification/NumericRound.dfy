/** Rounding and truncation of a numeric variable in place (round_var, trunc_var). */
module NumericRound {
  import opened Basics
  import opened Radix
  import opened Decimal
  import opened Numerics

  /** The number of NBASE digits that hold di decimal digits. */
  function DigitsWanted(di: nat): nat { (di + DEC_DIGITS - 1) / DEC_DIGITS }

  /** The unit of the last kept decimal inside its NBASE digit, for di % DEC_DIGITS == k. */
  function RoundPower(k: int): int {
    if k == 1 then 1000 else if k == 2 then 100 else if k == 3 then 10 else 0
  }

  /** s[..nd] with k decimals kept in the last digit (all four if k is 0), rounded half up. */
  ghost function RoundedNat(s: seq<int>, nd: nat, k: int): int
    requires 0 <= k < 4 && nd <= |s| && (k == 0 ==> nd < |s|) && (k > 0 ==> nd > 0)
  {
    if k == 0 then Nat(s[..nd]) + if s[nd] >= HALF_NBASE then 1 else 0
    else
      var e := s[nd - 1] % RoundPower(k);
      Nat(s[..nd]) - e + if e >= RoundPower(k) / 2 then RoundPower(k) else 0
  }

  ghost function TruncatedNat(s: seq<int>, nd: nat, k: int): int
    requires 0 <= k < 4 && nd <= |s| && (k > 0 ==> nd > 0)
  {
    if k == 0 then Nat(s[..nd]) else Nat(s[..nd]) - s[nd - 1] % RoundPower(k)
  }

  /** The digits cut off, as a fraction of the last kept digit. */
  ghost function Fraction(s: seq<int>, nd: nat): real
    requires nd <= |s|
  {
    Shift(Nat(s[nd..]) as real, -4 * (|s| - nd))
  }

  lemma FractionBound(s: seq<int>, nd: nat)
    requires AllDigits(s) && nd <= |s|
    ensures 0.0 <= Fraction(s, nd) < 1.0
    ensures nd < |s| ==> (Fraction(s, nd) >= 0.5 <==> s[nd] >= HALF_NBASE)
    ensures nd == |s| ==> Fraction(s, nd) == 0.0
  {
    var t, r := s[nd..], |s| - nd;
    MagBound(t, -1);
    if r > 0 {
      NatLeadBound(t);
      var h := Lift(HALF_NBASE, r - 1);
      assert t[0] == s[nd];
      LiftLt(t[0], HALF_NBASE, r - 1);
      LiftLt(t[0] + 1, HALF_NBASE, r - 1);
      assert s[nd] >= HALF_NBASE <==> Nat(t) >= h;
      ShiftLt(Nat(t) as real, h as real, -4 * r);
      ShiftLift(HALF_NBASE, r - 1);
      ShiftAdd(HALF_NBASE as real, 4 * (r - 1), -4 * r);
      HalfDigit();
    }
  }

  lemma HalfDigit()
    ensures Shift(5000.0, -4) == 0.5
  {
    ShiftSucc(5000.0, -4);
    ShiftSucc(5000.0, -3);
    ShiftSucc(5000.0, -2);
    ShiftSucc(5000.0, -1);
  }

  /** A digit string is its kept part plus the fraction cut off. */
  lemma MagSplit(s: seq<int>, w: int, nd: nat)
    requires nd <= |s|
    ensures Mag(s, w) == Shift(Nat(s[..nd]) as real + Fraction(s, nd), 4 * (w + 1 - nd))
  {
    var h, t, r := Nat(s[..nd]), Nat(s[nd..]), |s| - nd;
    NatSplit(s, nd);
    ShiftLift(h, r);
    ShiftSum(Shift(h as real, 4 * r), t as real, -4 * r);
    ShiftBack(h as real, 4 * r);
    ShiftAdd(Nat(s) as real, -4 * r, 4 * (w + 1 - nd));
  }

  lemma PowerOf(k: int, x: real)
    requires 0 < k < 4
    ensures Shift(x, k - 4) == x / (RoundPower(k) as real)
  {
    ShiftSucc(x, -3);
    ShiftSucc(x, -2);
    ShiftSucc(x, -1);
  }

  lemma ModPower(x: int, d: int, k: int)
    requires 0 < k < 4
    ensures (x * NBASE + d) % RoundPower(k) == d % RoundPower(k)
  {
    var p := RoundPower(k);
    var c := if k == 1 then 10 else if k == 2 then 100 else 1000;
    assert x * c * p == x * NBASE;
    DivModIs(x * NBASE + d, p, x * c + d / p, d % p);
  }

  lemma NatModPower(s: seq<int>, k: int)
    requires 0 < k < 4 && s != [] && AllDigits(s)
    ensures 0 <= Nat(s) && Nat(s) % RoundPower(k) == s[|s| - 1] % RoundPower(k)
  {
    NatBound(s);
    ModPower(Seg(s, 0, |s| - 1), s[|s| - 1], k);
  }

  /** h plus a fraction, in units of p, rounded half up. */
  lemma RoundThousands(h: int, f: real, q: int)
    requires 0.0 <= f < 1.0 && q == h / 1000 + if h % 1000 >= 500 then 1 else 0
    ensures q as real - 0.5 <= (h as real + f) / 1000.0 < q as real + 0.5
    ensures q * 1000 == h - h % 1000 + if h % 1000 >= 500 then 1000 else 0
  {
    var n := q * 1000;
    assert n - 500 <= h <= n + 499;
  }

  lemma RoundHundreds(h: int, f: real, q: int)
    requires 0.0 <= f < 1.0 && q == h / 100 + if h % 100 >= 50 then 1 else 0
    ensures q as real - 0.5 <= (h as real + f) / 100.0 < q as real + 0.5
    ensures q * 100 == h - h % 100 + if h % 100 >= 50 then 100 else 0
  {
    var n := q * 100;
    assert n - 50 <= h <= n + 49;
  }

  lemma RoundTens(h: int, f: real, q: int)
    requires 0.0 <= f < 1.0 && q == h / 10 + if h % 10 >= 5 then 1 else 0
    ensures q as real - 0.5 <= (h as real + f) / 10.0 < q as real + 0.5
    ensures q * 10 == h - h % 10 + if h % 10 >= 5 then 10 else 0
  {
    var n := q * 10;
    assert n - 5 <= h <= n + 4;
  }

  lemma RoundQuotient(h: int, f: real, k: int) returns (q: int)
    requires 0 < k < 4 && 0.0 <= f < 1.0
    ensures var p := RoundPower(k); var e := h % p;
      && q as real - 0.5 <= (h as real + f) / (p as real) < q as real + 0.5
      && q * p == h - e + if e >= p / 2 then p else 0
  {
    if k == 1 {
      q := h / 1000 + if h % 1000 >= 500 then 1 else 0;
      RoundThousands(h, f, q);
    } else if k == 2 {
      q := h / 100 + if h % 100 >= 50 then 1 else 0;
      RoundHundreds(h, f, q);
    } else {
      q := h / 10 + if h % 10 >= 5 then 1 else 0;
      RoundTens(h, f, q);
    }
  }

  lemma RoundCut(s: seq<int>, w: int, rscale: int, nd: nat, k: int)
    requires AllDigits(s) && 0 <= k < 4 && nd <= |s| && (k == 0 ==> nd < |s|) && (k > 0 ==> nd > 0)
    requires 4 * (w + 1) + rscale == if k == 0 then 4 * nd else 4 * nd - 4 + k
    ensures RoundMag(Mag(s, w), rscale) == Shift(RoundedNat(s, nd, k) as real, 4 * (w + 1 - nd))
  {
    var h, f := Nat(s[..nd]), Fraction(s, nd);
    MagSplit(s, w, nd);
    FractionBound(s, nd);
    ShiftAdd(h as real + f, 4 * (w + 1 - nd), rscale);
    if k == 0 {
      RoundIs(Mag(s, w), rscale, RoundedNat(s, nd, k));
    } else {
      PowerOf(k, h as real + f);
      var q := RoundQuotient(h, f, k);
      RoundIs(Mag(s, w), rscale, q);
      NatModPower(s[..nd], k);
      UnshiftPower(q, k, RoundedNat(s, nd, k), -rscale);
    }
  }

  lemma UnshiftPower(q: int, k: int, n: int, e: int)
    requires 0 < k < 4 && q * RoundPower(k) == n
    ensures Shift(q as real, e) == Shift(n as real, e + k - 4)
  {
    PowerOf(k, n as real);
    if k == 1 {
      assert n as real / 1000.0 == q as real;
    } else if k == 2 {
      assert n as real / 100.0 == q as real;
    } else {
      assert n as real / 10.0 == q as real;
    }
    ShiftAdd(n as real, k - 4, e);
    assert k - 4 + e == e + k - 4;
  }

  lemma TruncPower(h: int, f: real, k: int, p: int, q: int)
    requires 0 < k < 4 && 0.0 <= f < 1.0 && p == RoundPower(k) && q == h / p
    ensures q as real <= (h as real + f) / (p as real) < q as real + 1.0 && q * p == h - h % p
  {
    if k == 1 {
      TruncLiteral(h, f, 1000, h % 1000, h / 1000);
    } else if k == 2 {
      TruncLiteral(h, f, 100, h % 100, h / 100);
    } else {
      TruncLiteral(h, f, 10, h % 10, h / 10);
    }
  }

  lemma TruncLiteral(h: int, f: real, p: int, e: int, q: int)
    requires (p == 10 || p == 100 || p == 1000) && 0.0 <= f < 1.0 && h == q * p + e && 0 <= e < p
    ensures q as real <= (h as real + f) / (p as real) < q as real + 1.0
  {
    var x := h as real + f;
    if p == 10 {
      assert 10.0 * (q as real) <= x < 10.0 * (q as real) + 10.0;
    } else if p == 100 {
      assert 100.0 * (q as real) <= x < 100.0 * (q as real) + 100.0;
    } else {
      assert 1000.0 * (q as real) <= x < 1000.0 * (q as real) + 1000.0;
    }
  }

  lemma TruncCut(s: seq<int>, w: int, rscale: int, nd: nat, k: int)
    requires AllDigits(s) && 0 <= k < 4 && nd <= |s| && (k > 0 ==> nd > 0)
    requires 4 * (w + 1) + rscale == if k == 0 then 4 * nd else 4 * nd - 4 + k
    ensures TruncMag(Mag(s, w), rscale) == Shift(TruncatedNat(s, nd, k) as real, 4 * (w + 1 - nd))
  {
    var h, f := Nat(s[..nd]), Fraction(s, nd);
    MagSplit(s, w, nd);
    FractionBound(s, nd);
    ShiftAdd(h as real + f, 4 * (w + 1 - nd), rscale);
    if k == 0 {
      TruncIs(Mag(s, w), rscale, h);
    } else {
      var p := RoundPower(k);
      PowerOf(k, h as real + f);
      NatModPower(s[..nd], k);
      var q := h / p;
      TruncPower(h, f, k, p, q);
      TruncIs(Mag(s, w), rscale, q);
      UnshiftPower(q, k, TruncatedNat(s, nd, k), -rscale);
    }
  }

  /** Nothing is lost when every digit lies within rscale decimals. */
  lemma NothingCut(s: seq<int>, w: int, rscale: int)
    requires 4 * (w + 1) + rscale >= 4 * |s|
    ensures OnGrid(Mag(s, w), rscale)
    ensures RoundMag(Mag(s, w), rscale) == Mag(s, w) == TruncMag(Mag(s, w), rscale)
  {
    var k := 4 * (w + 1) + rscale - 4 * |s|;
    ShiftAdd(Nat(s) as real, 4 * (w + 1 - |s|), rscale);
    ShiftTenNat(Nat(s), k);
    IntegerIs(Shift(Mag(s, w), rscale), Nat(s) * TenNat(k));
    GridKept(Mag(s, w), rscale);
  }

  /** Everything is lost when the first digit lies beyond rscale decimals. */
  lemma AllCut(s: seq<int>, w: int, rscale: int)
    requires AllDigits(s)
    ensures 4 * (w + 1) + rscale < 0 ==> RoundMag(Mag(s, w), rscale) == 0.0
    ensures 4 * (w + 1) + rscale <= 0 ==> TruncMag(Mag(s, w), rscale) == 0.0
  {
    var m, di := Mag(s, w), 4 * (w + 1) + rscale;
    MagBound(s, w);
    ShiftPositive(m, rscale);
    ShiftLt(m, Shift(1.0, 4 * (w + 1)), rscale);
    ShiftAdd(1.0, 4 * (w + 1), rscale);
    ShiftZero(-rscale);
    if di <= 0 {
      ShiftGrow(1.0, di, 0);
      TruncIs(m, rscale, 0);
    }
    if di < 0 {
      ShiftGrow(1.0, di, -1);
      RoundIs(m, rscale, 0);
    }
  }

  /** Adds a carry just above place `at` of the n digits from first, using the spare place before
      them if need be. The result is the place the loop stopped at: -1 if the spare was used. */
  method PropagateCarry(a: array<int>, first: nat, n: nat, at: nat, carryIn: int32) returns (k: int)
    requires 1 <= first && first + n <= a.Length && at <= n && 0 <= carryIn <= 1
    requires DigitsIn(a[..], first, first + n) && a[first - 1] == 0
    modifies a
    ensures -1 <= k <= n && (k >= 0 ==> a[first - 1] == 0)
    ensures DigitsIn(a[..], first - 1, first + n)
    ensures Seg(a[..], first - 1, first + n) == old(Seg(a[..], first - 1, first + n)) + Lift(carryIn, n - at)
  {
    var carry := carryIn;
    k := at;
    LiftZero(n - at);
    while carry != 0
      invariant DigitsIn(a[..], first - 1, first + n)
      invariant -1 <= k <= n && 0 <= carry <= 1
      invariant carry == 1 ==> 0 <= k
      invariant 0 <= k ==> a[first - 1] == 0
      invariant Seg(a[..], first - 1, first + n) + (if carry == 1 then Lift(1, n - k) else 0)
             == old(Seg(a[..], first - 1, first + n)) + Lift(carryIn, n - at)
      decreases k
    {
      k := k - 1;
      ghost var b := a[..];
      var d := a[first + k];
      assert IsDigit(b[first + k]);
      carry := carry + d;
      if carry >= NBASE {
        a[first + k] := carry - NBASE;
        carry := 1;
      } else {
        a[first + k] := carry;
        carry := 0;
      }
      SegUpdate(b, first - 1, first + n, first + k, a[first + k]);
      LiftCarry(d, n - 1 - k);
      assert a[..] == b[first + k := a[first + k]];
    }
  }

  /** One more than a digit: either one more at its place, or zero there and one at the next. */
  lemma LiftCarry(d: int, k: nat)
    ensures Lift((d + 1) - d, k) == Lift(1, k)
    ensures Lift((d + 1 - NBASE) - d, k) == Lift(1, k) - Lift(1, k + 1)
  {
    LiftSum(1, NBASE, k);
  }

  /** Clears the decimals of the last kept digit that are not wanted, and says where a carry goes. */
  method CutLastDigit(a: array<int>, first: nat, n: nat, nd: nat, k: int) returns (at: nat, carry: int32)
    requires 1 <= first && first + n <= a.Length && 0 <= k < 4
    requires nd <= n && (k == 0 ==> nd < n) && (k > 0 ==> nd > 0)
    requires DigitsIn(a[..], first, first + n) && a[first - 1] == 0
    modifies a
    ensures at <= nd && 0 <= carry <= 1
    ensures DigitsIn(a[..], first, first + nd) && a[first - 1] == 0
    ensures Seg(a[..], first - 1, first + nd) + Lift(carry, nd - at) == RoundedNat(old(a[..])[first..first + n], nd, k)
  {
    ghost var b := a[..];
    SegOfKept(b, first, n, nd);
    if k == 0 {
      at := nd;
      carry := if a[first + nd] >= HALF_NBASE then 1 else 0;
    } else {
      at := nd - 1;
      var pow10: int32 := RoundPower(k);
      assert IsDigit(b[first + at]);
      var d: int32 := a[first + at];
      var x: int32;
      x, carry := RoundDigit(d, d % pow10, pow10, k);
      a[first + at] := x;
      SegUpdate(b, first - 1, first + nd, first + at, x);
      assert a[..] == b[first + at := x];
      assert Lift(x - d, 0) == x - d;
    }
  }

  lemma SegOfKept(b: seq<int>, first: nat, n: nat, nd: nat)
    requires 1 <= first && first + n <= |b| && nd <= n && b[first - 1] == 0
    ensures Seg(b, first - 1, first + nd) == Nat(b[first..first + n][..nd])
    ensures nd < n ==> b[first..first + n][nd] == b[first + nd]
    ensures nd > 0 ==> b[first..first + n][nd - 1] == b[first + nd - 1]
  {
    var s := b[first..first + n];
    SegLeadingZero(b, first - 1, first + nd);
    SegIsNat(b, first, first + nd);
    SliceSlice(b, first, n, 0, nd);
    assert s[0..nd] == s[..nd];
    assert forall i :: 0 <= i < n ==> s[i] == b[first + i];
  }

  method RoundDigit(d: int32, extra: int32, pow10: int32, k: int) returns (x: int32, carry: int32)
    requires 0 < k < 4 && pow10 == RoundPower(k) && IsDigit(d) && extra == d % pow10
    ensures IsDigit(x) && 0 <= carry <= 1
    ensures x + Lift(carry, 1) == d - extra + if extra >= pow10 / 2 then pow10 else 0
  {
    x := d - extra;
    carry := 0;
    if extra >= pow10 / 2 {
      x := pow10 + x;
      if x >= NBASE {
        x := x - NBASE;
        carry := 1;
      }
    }
    RoundDigitFits(d, k);
  }

  lemma RoundDigitFits(d: int, k: int)
    requires 0 < k < 4 && IsDigit(d)
    ensures var p := RoundPower(k); 0 <= d % p <= d && d - d % p + p <= NBASE
  {
    if k == 1 {
      assert d - d % 1000 + 1000 == (d / 1000 + 1) * 1000;
    } else if k == 2 {
      assert d - d % 100 + 100 == (d / 100 + 1) * 100;
    } else {
      assert d - d % 10 + 10 == (d / 10 + 1) * 10;
    }
  }

  /** r is x rounded at rscale decimals, halves away from zero. */
  ghost predicate RoundsTo(x: Num, r: Num, rscale: int) {
    x.InBuffer() && r.Finite() && r.dscale == rscale && r.Value() == RoundAt(x.Value(), rscale)
    && (r.n > 0 ==> r.sign == x.sign)
  }

  /** r is x cut off toward zero at rscale decimals. */
  ghost predicate TruncatesTo(x: Num, r: Num, rscale: int) {
    x.InBuffer() && r.Finite() && r.dscale == rscale && r.Value() == TruncAt(x.Value(), rscale)
    && (r.n > 0 ==> r.sign == x.sign) && r.n <= x.n
  }

  lemma RoundValue(x: Num, r: Num, rscale: int)
    requires x.Finite() && r.Finite() && r.dscale == rscale
    requires r.sign == x.sign || (r.n == 0 && r.Magnitude() == 0.0)
    ensures r.Magnitude() == RoundMag(x.Magnitude(), rscale) ==> RoundsTo(x, r, rscale)
    ensures r.Magnitude() == TruncMag(x.Magnitude(), rscale) && r.n <= x.n ==> TruncatesTo(x, r, rscale)
  {
    ValueSign(x);
    if x.Magnitude() == 0.0 {
      ShiftZero(rscale);
      ShiftZero(-rscale);
    }
  }

  lemma RoundAllCut(x: Num, rscale: int)
    requires x.Finite()
    ensures var r := Num(x.b, x.lo, 0, 0, NUMERIC_POS, rscale);
      && (4 * (x.weight + 1) + rscale < 0 ==> RoundsTo(x, r, rscale))
      && (4 * (x.weight + 1) + rscale <= 0 ==> TruncatesTo(x, r, rscale))
  {
    var r := Num(x.b, x.lo, 0, 0, NUMERIC_POS, rscale);
    AllCut(x.Ds(), x.weight, rscale);
    ZeroValue(r);
    RoundValue(x, r, rscale);
  }

  lemma RoundNothingCut(x: Num, rscale: int)
    requires x.Finite() && 4 * (x.weight + 1) + rscale >= 4 * x.n
    ensures RoundsTo(x, x.(dscale := rscale), rscale)
    ensures TruncatesTo(x, x.(dscale := rscale), rscale)
  {
    NothingCut(x.Ds(), x.weight, rscale);
    RoundValue(x, x.(dscale := rscale), rscale);
  }

  /** The buffer c holds the digits of b from first, rounded to nd digits, the last with k decimals;
      if up is set the spare place in front holds the carry. */
  ghost predicate IsRounded(b: seq<int>, c: seq<int>, first: nat, n: nat, nd: nat, k: int, up: bool)
    requires 1 <= first && first + n <= |b| && |c| == |b|
    requires 0 <= k < 4 && nd <= n && (k == 0 ==> nd < n) && (k > 0 ==> nd > 0)
  {
    && DigitsIn(c, first - 1, first + nd) && (up || c[first - 1] == 0)
    && Seg(c, first - 1, first + nd) == RoundedNat(b[first..first + n], nd, k)
  }

  method RoundBuffer(a: array<int>, first: nat, n: nat, nd: nat, k: int) returns (up: bool)
    requires 1 <= first && first + n <= a.Length && 0 <= k < 4
    requires nd <= n && (k == 0 ==> nd < n) && (k > 0 ==> nd > 0)
    requires DigitsIn(a[..], first, first + n) && a[first - 1] == 0
    modifies a
    ensures IsRounded(old(a[..]), a[..], first, n, nd, k, up)
  {
    var at, carry := CutLastDigit(a, first, n, nd, k);
    var stop := PropagateCarry(a, first, nd, at, carry);
    up := stop < 0;
  }

  ghost function RoundedNum(x: Num, c: seq<int>, nd: nat, up: bool, rscale: int): Num
    requires up ==> x.lo >= 1
  {
    if up then Num(c, x.lo - 1, nd + 1, x.weight + 1, x.sign, rscale)
    else Num(c, x.lo, nd, x.weight, x.sign, rscale)
  }

  ghost predicate CutsDigits(x: Num, rscale: int, nd: nat, k: int) {
    && 0 <= k < 4 && nd <= x.n && (k == 0 ==> nd < x.n) && (k > 0 ==> nd > 0)
    && 4 * (x.weight + 1) + rscale == if k == 0 then 4 * nd else 4 * nd - 4 + k
  }

  lemma RoundedUpMag(x: Num, c: seq<int>, rscale: int, nd: nat, e: int)
    requires x.lo >= 1 && x.lo + nd <= |c| && DigitsIn(c, x.lo - 1, x.lo + nd) && e == 4 * (x.weight + 1 - nd)
    ensures var r := RoundedNum(x, c, nd, true, rscale); r.Sound() && r.Magnitude() == Shift(Seg(c, x.lo - 1, x.lo + nd) as real, e)
  {
    MagOfSeg(RoundedNum(x, c, nd, true, rscale), x.lo - 1, x.lo + nd, e);
  }

  lemma RoundedDownMag(x: Num, c: seq<int>, rscale: int, nd: nat, e: int)
    requires x.lo >= 1 && x.lo + nd <= |c| && DigitsIn(c, x.lo - 1, x.lo + nd) && c[x.lo - 1] == 0 && e == 4 * (x.weight + 1 - nd)
    ensures var r := RoundedNum(x, c, nd, false, rscale); r.Sound() && r.Magnitude() == Shift(Seg(c, x.lo - 1, x.lo + nd) as real, e)
  {
    SegLeadingZero(c, x.lo - 1, x.lo + nd);
    MagOfSeg(RoundedNum(x, c, nd, false, rscale), x.lo, x.lo + nd, e);
  }

  lemma RoundedMag(x: Num, c: seq<int>, rscale: int, nd: nat, k: int, up: bool)
    requires x.Finite() && x.Spare() && CutsDigits(x, rscale, nd, k) && |c| == |x.b|
    requires IsRounded(x.b, c, x.lo, x.n, nd, k, up)
    ensures var r := RoundedNum(x, c, nd, up, rscale);
      r.Finite() && r.Magnitude() == Shift(RoundedNat(x.Ds(), nd, k) as real, 4 * (x.weight + 1 - nd))
  {
    var e := 4 * (x.weight + 1 - nd);
    if up {
      RoundedUpMag(x, c, rscale, nd, e);
    } else {
      RoundedDownMag(x, c, rscale, nd, e);
    }
  }

  lemma RoundSomeCut(x: Num, c: seq<int>, rscale: int, nd: nat, k: int, up: bool)
    requires x.Finite() && x.Spare() && CutsDigits(x, rscale, nd, k) && |c| == |x.b|
    requires IsRounded(x.b, c, x.lo, x.n, nd, k, up)
    ensures RoundsTo(x, RoundedNum(x, c, nd, up, rscale), rscale)
  {
    RoundedMag(x, c, rscale, nd, k, up);
    RoundCut(x.Ds(), x.weight, rscale, nd, k);
    RoundValue(x, RoundedNum(x, c, nd, up, rscale), rscale);
  }

  /** The branch that drops digits. */
  method RoundDigits(v: Numeric, rscale: int, nd: nat, k: int)
    requires v.Get().Finite() && v.Get().Spare() && CutsDigits(v.Get(), rscale, nd, k)
    modifies v, v.buf
    ensures v.buf == old(v.buf) && RoundsTo(old(v.Get()), v.Get(), rscale)
  {
    ghost var x := v.Get();
    DigitsOfNum(x);
    var up := RoundBuffer(v.buf, v.digits, v.ndigits, nd, k);
    ghost var c := v.buf[..];
    RoundSomeCut(x, c, rscale, nd, k, up);
    v.ndigits, v.dscale := nd, rscale;
    if up {
      v.digits, v.ndigits, v.weight := v.digits - 1, v.ndigits + 1, v.weight + 1;
    }
    assert v.buf[..] == c;
    assert v.Get() == RoundedNum(x, c, nd, up, rscale);
  }

  /** Rounds in place to rscale decimals, halves away from zero; rscale may be negative. */
  method RoundVar(v: Numeric, rscale: int)
    requires v.Get().Finite() && v.Get().Spare()
    modifies v, v.buf
    ensures v.buf == old(v.buf) && RoundsTo(old(v.Get()), v.Get(), rscale)
    ensures old((v.weight + 1) * DEC_DIGITS + rscale < 0) ==> v.ndigits == 0 && v.weight == 0 && v.sign == NUMERIC_POS
  {
    ghost var x := v.Get();
    var di := (v.weight + 1) * DEC_DIGITS + rscale;
    if di < 0 {
      RoundAllCut(x, rscale);
      v.ndigits, v.weight, v.sign, v.dscale := 0, 0, NUMERIC_POS, rscale;
    } else {
      var nd, k := DigitsWanted(di), di % DEC_DIGITS;
      if nd < v.ndigits || (nd == v.ndigits && k > 0) {
        RoundDigits(v, rscale, nd, k);
      } else {
        RoundNothingCut(x, rscale);
        v.dscale := rscale;
      }
    }
  }

  ghost function TruncatedNum(x: Num, c: seq<int>, nd: nat, rscale: int): Num {
    Num(c, x.lo, nd, x.weight, x.sign, rscale)
  }

  lemma TruncSomeCut(x: Num, c: seq<int>, rscale: int, nd: nat, k: int)
    requires x.Finite() && 0 <= k < 4 && nd <= x.n && (k > 0 ==> nd > 0)
    requires 4 * (x.weight + 1) + rscale == if k == 0 then 4 * nd else 4 * nd - 4 + k
    requires |c| == |x.b| && DigitsIn(c, x.lo, x.lo + nd)
    requires Seg(c, x.lo, x.lo + nd) == TruncatedNat(x.Ds(), nd, k)
    ensures TruncatesTo(x, TruncatedNum(x, c, nd, rscale), rscale)
  {
    var r := TruncatedNum(x, c, nd, rscale);
    SegIsNat(c, x.lo, x.lo + nd);
    DigitsToNum(r);
    MagIs(r.Ds(), r.weight, TruncatedNat(x.Ds(), nd, k), 4 * (x.weight + 1 - nd));
    TruncCut(x.Ds(), x.weight, rscale, nd, k);
    RoundValue(x, r, rscale);
  }

  method TruncLastDigit(a: array<int>, first: nat, n: nat, nd: nat, k: int)
    requires first + n <= a.Length && 0 <= k < 4 && nd <= n && (k > 0 ==> nd > 0)
    requires DigitsIn(a[..], first, first + n)
    modifies a
    ensures DigitsIn(a[..], first, first + nd) && (k == 0 ==> a[..] == old(a[..]))
    ensures Seg(a[..], first, first + nd) == TruncatedNat(old(a[..])[first..first + n], nd, k)
  {
    ghost var b := a[..];
    SegIsNat(b, first, first + nd);
    assert b[first..first + n][..nd] == b[first..first + nd];
    if k > 0 {
      var at, pow10: int32 := first + nd - 1, RoundPower(k);
      var d: int32, extra: int32 := a[at], a[at] % pow10;
      assert IsDigit(b[at]) && b[first..first + n][nd - 1] == d;
      RoundDigitFits(d, k);
      a[at] := d - extra;
      SegUpdate(b, first, first + nd, at, d - extra);
      assert a[..] == b[at := d - extra];
    }
  }

  method TruncDigits(v: Numeric, rscale: int, nd: nat, k: int)
    requires v.Get().Finite() && 0 <= k < 4 && nd <= v.ndigits && (k > 0 ==> nd > 0)
    requires 4 * (v.weight + 1) + rscale == if k == 0 then 4 * nd else 4 * nd - 4 + k
    modifies v, v.buf
    ensures v.buf == old(v.buf) && TruncatesTo(old(v.Get()), v.Get(), rscale)
    ensures k == 0 ==> v.Get() == old(v.Get()).(n := nd, dscale := rscale)
    ensures v.ndigits == nd
  {
    ghost var x := v.Get();
    DigitsOfNum(x);
    TruncLastDigit(v.buf, v.digits, v.ndigits, nd, k);
    ghost var c := v.buf[..];
    TruncSomeCut(x, c, rscale, nd, k);
    v.ndigits, v.dscale := nd, rscale;
    assert v.buf[..] == c;
    assert v.Get() == TruncatedNum(x, c, nd, rscale);
  }

  /** What is left of x when the digits after the point are dropped and nothing else is changed. */
  ghost function CutAtPoint(x: Num): Num {
    if x.weight < 0 then Num(x.b, x.lo, 0, 0, NUMERIC_POS, 0) else x.(n := Min(x.n, x.weight + 1), dscale := 0)
  }

  /** Cuts off in place toward zero at rscale decimals; rscale may be negative. */
  method TruncVar(v: Numeric, rscale: int)
    requires v.Get().Finite()
    modifies v, v.buf
    ensures v.buf == old(v.buf) && TruncatesTo(old(v.Get()), v.Get(), rscale)
    ensures v.ndigits == 0 <==> old(v.ndigits == 0 || (v.weight + 1) * DEC_DIGITS + rscale <= 0)
    ensures rscale == 0 ==> v.Get() == CutAtPoint(old(v.Get()))
  {
    ghost var x := v.Get();
    var di := (v.weight + 1) * DEC_DIGITS + rscale;
    if di <= 0 {
      RoundAllCut(x, rscale);
      v.ndigits, v.weight, v.sign, v.dscale := 0, 0, NUMERIC_POS, rscale;
    } else {
      var nd, k := DigitsWanted(di), di % DEC_DIGITS;
      if nd <= v.ndigits {
        TruncDigits(v, rscale, nd, k);
      } else {
        RoundNothingCut(x, rscale);
        v.dscale := rscale;
      }
    }
  }
}
