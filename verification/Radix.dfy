/** Base-NBASE digit strings, most significant digit first, and the integers they denote. */
module Radix {

  const NBASE := 10000
  const HALF_NBASE := 5000
  const DEC_DIGITS := 4

  /** The C type of the scalars that the arithmetic loops carry. */
  type int32 = x: int | -0x8000_0000 <= x <= 0x7fff_ffff

  ghost predicate IsDigit(x: int) { 0 <= x < NBASE }

  ghost predicate AllDigits(s: seq<int>) { forall i :: 0 <= i < |s| ==> IsDigit(s[i]) }

  /** x times NBASE to the power k: x moved up by k places. Its unfolding stays linear. */
  ghost function Lift(x: int, k: nat): int
    decreases k
  {
    if k == 0 then x else Lift(x * NBASE, k - 1)
  }

  /** The integer a digit string denotes. The entries need not be digits: carries may be pending. */
  ghost function Nat(s: seq<int>): int { Seg(s, 0, |s|) }

  /** The integer the places lo..hi of b denote, without cutting b up: for digits kept in arrays. */
  ghost function Seg(b: seq<int>, lo: int, hi: int): int
    requires 0 <= lo <= hi <= |b|
    decreases hi
  {
    if lo == hi then 0 else Seg(b, lo, hi - 1) * NBASE + b[hi - 1]
  }

  lemma {:induction false} LiftSucc(x: int, k: nat)
    ensures Lift(x, k + 1) == Lift(x, k) * NBASE
    decreases k
  {
    if k > 0 { LiftSucc(x * NBASE, k - 1); }
  }

  lemma {:induction false} LiftLift(x: int, a: nat, b: nat)
    ensures Lift(Lift(x, a), b) == Lift(x, a + b)
    decreases b
  {
    if b > 0 {
      LiftSucc(x, a);
      LiftLift(x * NBASE, a, b - 1);
    }
  }

  lemma {:induction false} LiftSum(x: int, y: int, k: nat)
    ensures Lift(x + y, k) == Lift(x, k) + Lift(y, k)
    ensures Lift(x - y, k) == Lift(x, k) - Lift(y, k)
    decreases k
  {
    if k > 0 { LiftSum(x * NBASE, y * NBASE, k - 1); }
  }

  lemma {:induction false} LiftMul(x: int, y: int, k: nat)
    ensures Lift(x * y, k) == x * Lift(y, k)
    decreases k
  {
    if k > 0 {
      LiftMul(x, y * NBASE, k - 1);
      assert x * (y * NBASE) == x * y * NBASE;
    }
  }

  lemma {:induction false} LiftZero(k: nat)
    ensures Lift(0, k) == 0
  {
    if k > 0 { LiftZero(k - 1); }
  }

  lemma {:induction false} LiftLt(x: int, y: int, k: nat)
    ensures x < y <==> Lift(x, k) < Lift(y, k)
    ensures x <= y <==> Lift(x, k) <= Lift(y, k)
    decreases k
  {
    if k > 0 { LiftLt(x * NBASE, y * NBASE, k - 1); }
  }

  lemma LiftSign(x: int, k: nat)
    ensures 0 < x <==> 0 < Lift(x, k)
    ensures 0 <= x <==> 0 <= Lift(x, k)
  {
    LiftZero(k);
    LiftLt(0, x, k);
  }

  lemma {:induction false} LiftGrow(x: int, a: nat, b: nat)
    requires 0 <= x && a <= b
    ensures Lift(x, a) <= Lift(x, b)
    decreases b
  {
    if a < b {
      LiftGrow(x, a, b - 1);
      LiftSucc(x, b - 1);
      LiftSign(x, b - 1);
    }
  }

  lemma NatConcat(a: seq<int>, b: seq<int>)
    ensures Nat(a + b) == Lift(Nat(a), |b|) + Nat(b)
  {
    NatJoin(a, b, a + b);
  }

  lemma NatJoin(a: seq<int>, b: seq<int>, c: seq<int>)
    requires |c| == |a| + |b|
    requires forall i :: 0 <= i < |a| ==> c[i] == a[i]
    requires forall i :: |a| <= i < |c| ==> c[i] == b[i - |a|]
    ensures Nat(c) == Lift(Nat(a), |b|) + Nat(b)
  {
    SegSplit(c, 0, |a|, |a| + |b|);
    SegSame(c, a, 0, |a|);
    SegMoved(c, |a|, |c|, b, 0);
  }

  lemma NatSplit(s: seq<int>, k: nat)
    requires k <= |s|
    ensures Nat(s) == Lift(Nat(s[..k]), |s| - k) + Nat(s[k..])
  {
    SegSplit(s, 0, k, |s|);
    SegSame(s, s[..k], 0, k);
    SegMoved(s, k, |s|, s[k..], 0);
  }

  lemma NatCons(s: seq<int>)
    requires s != []
    ensures Nat(s) == Lift(s[0], |s| - 1) + Nat(s[1..])
  {
    NatSplit(s, 1);
    assert Seg(s[..1], 0, 1) == s[0];
  }

  lemma {:induction false} SegAllZero(s: seq<int>, lo: nat, hi: nat)
    requires lo <= hi <= |s| && forall i :: lo <= i < hi ==> s[i] == 0
    ensures Seg(s, lo, hi) == 0
    decreases hi
  {
    if lo < hi { SegAllZero(s, lo, hi - 1); }
  }

  lemma NatAllZero(s: seq<int>)
    requires forall i :: 0 <= i < |s| ==> s[i] == 0
    ensures Nat(s) == 0
  {
    SegAllZero(s, 0, |s|);
  }

  lemma NatBound(s: seq<int>)
    requires AllDigits(s)
    ensures 0 <= Nat(s) < Lift(1, |s|)
  {
    SegBound(s, 0, |s|);
  }

  lemma NatLeadBound(s: seq<int>)
    requires AllDigits(s) && s != []
    ensures Lift(s[0], |s| - 1) <= Nat(s) < Lift(s[0] + 1, |s| - 1)
  {
    NatCons(s);
    NatBound(s[1..]);
    LiftSum(s[0], 1, |s| - 1);
  }

  /** Digit strings of one length are determined by what they denote. */
  lemma {:induction false} NatInjective(s: seq<int>, t: seq<int>)
    requires |s| == |t| && AllDigits(s) && AllDigits(t)
    requires Nat(s) == Nat(t)
    ensures s == t
  {
    SegInjective(s, t, |s|);
  }

  lemma {:induction false} SegInjective(s: seq<int>, t: seq<int>, n: nat)
    requires n <= |s| == |t| && AllDigits(s) && AllDigits(t)
    requires Seg(s, 0, n) == Seg(t, 0, n)
    ensures forall i :: 0 <= i < n ==> s[i] == t[i]
  {
    if n > 0 {
      assert IsDigit(s[n - 1]) && IsDigit(t[n - 1]);
      SegInjective(s, t, n - 1);
    }
  }

  ghost predicate DigitsIn(b: seq<int>, lo: int, hi: int)
    requires 0 <= lo <= hi <= |b|
  {
    forall i :: lo <= i < hi ==> IsDigit(b[i])
  }

  lemma {:induction false} SegMoved(b: seq<int>, lo: nat, hi: nat, c: seq<int>, at: nat)
    requires lo <= hi <= |b| && at + hi - lo <= |c|
    requires forall i :: lo <= i < hi ==> b[i] == c[at + i - lo]
    ensures Seg(b, lo, hi) == Seg(c, at, at + hi - lo)
    decreases hi
  {
    if lo < hi { SegMoved(b, lo, hi - 1, c, at); }
  }

  lemma SegIsNat(b: seq<int>, lo: nat, hi: nat)
    requires lo <= hi <= |b|
    ensures Seg(b, lo, hi) == Nat(b[lo..hi])
  {
    SegMoved(b, lo, hi, b[lo..hi], 0);
  }

  lemma {:induction false} SegSame(b: seq<int>, c: seq<int>, lo: nat, hi: nat)
    requires lo <= hi <= |b| && hi <= |c|
    requires forall i :: lo <= i < hi ==> b[i] == c[i]
    ensures Seg(b, lo, hi) == Seg(c, lo, hi)
    decreases hi
  {
    if lo < hi { SegSame(b, c, lo, hi - 1); }
  }

  lemma {:induction false} SegSplit(b: seq<int>, lo: nat, mid: nat, hi: nat)
    requires lo <= mid <= hi <= |b|
    ensures Seg(b, lo, hi) == Lift(Seg(b, lo, mid), hi - mid) + Seg(b, mid, hi)
    decreases hi
  {
    if mid < hi {
      SegSplit(b, lo, mid, hi - 1);
      LiftSucc(Seg(b, lo, mid), hi - 1 - mid);
    }
  }

  /** Peeling off the first place. */
  lemma SegCons(b: seq<int>, lo: nat, hi: nat)
    requires lo < hi <= |b|
    ensures Seg(b, lo, hi) == Lift(b[lo], hi - 1 - lo) + Seg(b, lo + 1, hi)
  {
    SegSplit(b, lo, lo + 1, hi);
    assert Seg(b, lo, lo + 1) == b[lo];
  }

  lemma SegLeadingZero(b: seq<int>, lo: nat, hi: nat)
    requires lo < hi <= |b| && b[lo] == 0
    ensures Seg(b, lo, hi) == Seg(b, lo + 1, hi)
  {
    SegCons(b, lo, hi);
    LiftZero(hi - 1 - lo);
  }

  /** A single write changes the denoted integer by the change of that place. */
  lemma {:induction false} SegUpdate(b: seq<int>, lo: nat, hi: nat, i: nat, x: int)
    requires lo <= i < hi <= |b|
    ensures Seg(b[i := x], lo, hi) == Seg(b, lo, hi) + Lift(x - b[i], hi - 1 - i)
    decreases hi
  {
    if i == hi - 1 {
      SegSame(b, b[i := x], lo, hi - 1);
    } else {
      SegUpdate(b, lo, hi - 1, i, x);
      LiftSucc(x - b[i], hi - 2 - i);
    }
  }

  lemma {:induction false} SegBound(b: seq<int>, lo: nat, hi: nat)
    requires lo <= hi <= |b| && DigitsIn(b, lo, hi)
    ensures 0 <= Seg(b, lo, hi) < Lift(1, hi - lo)
    decreases hi
  {
    if lo < hi {
      SegBound(b, lo, hi - 1);
      LiftSucc(1, hi - 1 - lo);
    }
  }

  lemma MulLe(a: int, b: int, c: int)
    requires a <= b && 0 <= c
    ensures a * c <= b * c
  {
  }

  lemma MulLt(a: int, b: int, c: int)
    requires a < b && 0 < c
    ensures a * c < b * c
  {
  }

  /** Quotient and remainder are determined by the division equation. */
  lemma DivModIs(a: int, p: int, q: int, r: int)
    requires p > 0 && a == q * p + r && 0 <= r < p
    ensures a / p == q && a % p == r
  {
    var q', r' := a / p, a % p;
    assert a == q' * p + r';
    if q' < q { MulLe(q' + 1, q, p); } else if q < q' { MulLe(q + 1, q', p); }
  }
}
