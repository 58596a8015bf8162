/** The numeric variable: a digit buffer with an offset, a count, a weight, a sign and a display
    scale, and the routines that allocate, copy and normalise it. */
module Numerics {
  import opened Basics
  import opened Radix
  import opened Decimal

  const NUMERIC_POS := 0x0000
  const NUMERIC_NEG := 0x4000
  const NUMERIC_NAN := 0xC000

  /** What a numeric variable holds, as a value: the buffer b, whose digits are b[lo..lo + n]. */
  datatype Num = Num(b: seq<int>, lo: nat, n: nat, weight: int, sign: int, dscale: int) {

    ghost predicate InBuffer() { lo + n <= |b| }

    ghost function Ds(): seq<int>
      requires InBuffer()
    {
      b[lo..lo + n]
    }

    /** The place before the first digit is there and holds zero: room for one carry. */
    ghost predicate Spare() { n > 0 ==> 1 <= lo <= |b| && b[lo - 1] == 0 }

    /** The digits are digits. Leading and trailing zero digits are allowed. */
    ghost predicate Sound() { InBuffer() && AllDigits(Ds()) }

    /** Sound, and not NaN. */
    ghost predicate Finite() { Sound() && (sign == NUMERIC_POS || sign == NUMERIC_NEG) }

    ghost function Magnitude(): real
      requires InBuffer()
    {
      Mag(Ds(), weight)
    }

    ghost function Value(): real
      requires InBuffer()
    {
      if sign == NUMERIC_NEG then -Magnitude() else Magnitude()
    }

    /** No zero digit at either end; zero has weight 0 and a plus sign. */
    ghost predicate Stripped()
      requires InBuffer()
    {
      && (n == 0 ==> weight == 0 && sign == NUMERIC_POS)
      && (n > 0 ==> b[lo] != 0 && b[lo + n - 1] != 0)
    }

    /** The normal form: stripped, and no decimals beyond the display scale. */
    ghost predicate Normal() {
      Finite() && Stripped() && dscale >= 0 && OnGrid(Magnitude(), dscale)
    }

    /** Equal as numerics: the same digits, weight, sign and display scale. */
    ghost predicate Same(o: Num)
      requires InBuffer() && o.InBuffer()
    {
      Ds() == o.Ds() && weight == o.weight && sign == o.sign && dscale == o.dscale
    }
  }

  lemma DigitsOfNum(x: Num)
    requires x.Sound()
    ensures DigitsIn(x.b, x.lo, x.lo + x.n)
  {
    assert forall i :: x.lo <= i < x.lo + x.n ==> x.b[i] == x.Ds()[i - x.lo];
  }

  lemma DigitsToNum(x: Num)
    requires x.InBuffer() && DigitsIn(x.b, x.lo, x.lo + x.n)
    ensures AllDigits(x.Ds())
  {
  }

  /** The magnitude read off the buffer. */
  lemma MagOfSeg(x: Num, lo: nat, hi: nat, e: int)
    requires x.InBuffer() && DigitsIn(x.b, x.lo, x.lo + x.n)
    requires x.lo == lo && x.lo + x.n == hi && 4 * (x.weight + 1 - x.n) == e
    ensures AllDigits(x.Ds()) && x.Magnitude() == Shift(Seg(x.b, lo, hi) as real, e)
  {
    SegIsNat(x.b, lo, hi);
  }

  lemma ZeroValue(x: Num)
    requires x.InBuffer() && x.n == 0
    ensures x.Magnitude() == 0.0 && x.Value() == 0.0
  {
    assert x.Ds() == [];
    ShiftZero(4 * (x.weight + 1));
  }

  /** A zero that kept one digit. */
  lemma OneZeroDigit(x: Num)
    requires x.b == [0, 0] && x.lo == 1 && x.n == 1
    ensures x.Sound() && x.Magnitude() == 0.0 && x.Value() == 0.0
  {
    var s := x.Ds();
    assert s == [0];
    NatAllZero(s);
    ShiftZero(4 * x.weight);
  }

  lemma ValueSign(x: Num)
    requires x.Finite()
    ensures x.Magnitude() >= 0.0 && AbsR(x.Value()) == x.Magnitude()
    ensures x.n > 0 && x.b[x.lo] != 0 ==> x.Magnitude() > 0.0
  {
    var s := x.Ds();
    MagBound(s, x.weight);
    if x.n > 0 && x.b[x.lo] != 0 {
      assert s[0] == x.b[x.lo];
      MagLeadBound(s, x.weight);
      ShiftPositive(1.0, 4 * x.weight);
    }
  }

  /** Being stripped depends on the digits, not on where they lie. */
  lemma SameStripped(x: Num, y: Num)
    requires x.InBuffer() && y.InBuffer() && x.Same(y)
    ensures x.n == y.n && (x.Stripped() <==> y.Stripped())
  {
    var s := x.Ds();
    assert s == y.Ds();
    if x.n > 0 {
      assert s[0] == x.b[x.lo] == y.b[y.lo];
      assert s[x.n - 1] == x.b[x.lo + x.n - 1] == y.b[y.lo + x.n - 1];
    }
  }

  lemma WeightFromMagnitude(s: seq<int>, w: int, t: seq<int>, v: int)
    requires AllDigits(s) && s != [] && s[0] != 0
    requires AllDigits(t) && t != [] && t[0] != 0
    requires Mag(s, w) == Mag(t, v)
    ensures w <= v
  {
    MagLeadBound(s, w);
    MagBound(t, v);
    if v < w { ShiftGrow(1.0, 4 * (v + 1), 4 * w); }
  }

  lemma DigitsFromMagnitude(s: seq<int>, t: seq<int>, w: int)
    requires AllDigits(s) && AllDigits(t) && |s| <= |t|
    requires t != [] ==> t[|t| - 1] != 0
    requires Mag(s, w) == Mag(t, w)
    ensures s == t
  {
    var k, e := |t| - |s|, w + 1 - |t|;
    MagRescale(s, w, e);
    ShiftLt(Lift(Nat(s), k) as real, Nat(t) as real, 4 * e);
    var z := Zeros(k);
    NatConcat(s, z);
    NatAllZero(z);
    NatInjective(s + z, t);
  }

  /** The normal form is canonical: value and display scale determine every field. */
  lemma NormalUnique(x: Num, y: Num)
    requires x.Finite() && y.Finite() && x.Stripped() && y.Stripped()
    requires x.Value() == y.Value() && x.dscale == y.dscale
    ensures x.Same(y)
  {
    ValueSign(x);
    ValueSign(y);
    if x.n == 0 { ZeroValue(x); }
    if y.n == 0 { ZeroValue(y); }
    if x.n > 0 && y.n > 0 {
      var s, t := x.Ds(), y.Ds();
      WeightFromMagnitude(s, x.weight, t, y.weight);
      WeightFromMagnitude(t, y.weight, s, x.weight);
      if |s| <= |t| {
        DigitsFromMagnitude(s, t, x.weight);
      } else {
        DigitsFromMagnitude(t, s, x.weight);
      }
    }
  }

  /** The digits of v in a new buffer, after a spare place. */
  method CopyDigits(v: Numeric) returns (newbuf: array<int>)
    requires v.Get().InBuffer()
    ensures fresh(newbuf) && newbuf.Length == v.ndigits + 1 && newbuf[0] == 0 && newbuf[1..] == v.Get().Ds()
  {
    newbuf := new int[v.ndigits + 1];
    newbuf[0] := 0;
    forall i | 0 <= i < v.ndigits { newbuf[i + 1] := v.buf[v.digits + i]; }
  }

  /** A numeric variable. A NULL buffer is an empty one here. */
  class Numeric {
    var ndigits: nat
    var weight: int
    var sign: int
    var dscale: int
    var buf: array<int>  // start of the digit storage
    var digits: nat      // offset in buf of the first digit

    ghost function Get(): Num
      reads this, buf
    {
      Num(buf[..], digits, ndigits, weight, sign, dscale)
    }

    constructor ()
      ensures fresh(buf) && Get() == Num([], 0, 0, 0, NUMERIC_POS, 0)
    {
      ndigits, weight, sign, dscale := 0, 0, NUMERIC_POS, 0;
      buf, digits := new int[0], 0;
    }

    /** A copy has its own buffer, with a fresh spare place. */
    constructor Copy(v: Numeric)
      requires v.Get().InBuffer()
      ensures fresh(buf) && Get().InBuffer() && Get().Spare() && Get().Same(v.Get())
    {
      var newbuf := CopyDigits(v);
      ndigits, weight, sign, dscale := v.ndigits, v.weight, v.sign, v.dscale;
      buf, digits := newbuf, 1;
    }

    method Assign(v: Numeric)
      requires v.Get().InBuffer()
      modifies this
      ensures fresh(buf) && Get().InBuffer() && Get().Spare() && Get().Same(old(v.Get()))
    {
      var newbuf := CopyDigits(v);
      ndigits, weight, sign, dscale := v.ndigits, v.weight, v.sign, v.dscale;
      buf, digits := newbuf, 1;
    }
  }

  method AllocVar(v: Numeric, n: nat)
    modifies v
    ensures fresh(v.buf) && v.buf.Length == n + 1 && v.buf[0] == 0
    ensures v.digits == 1 && v.ndigits == n
    ensures v.weight == old(v.weight) && v.sign == old(v.sign) && v.dscale == old(v.dscale)
  {
    v.buf := new int[n + 1];
    v.buf[0] := 0;
    v.digits := 1;
    v.ndigits := n;
  }

  method ZeroVar(v: Numeric)
    modifies v
    ensures fresh(v.buf) && v.Get() == Num([], 0, 0, 0, NUMERIC_POS, old(v.dscale))
  {
    v.buf, v.digits, v.ndigits := new int[0], 0, 0;
    v.weight, v.sign := 0, NUMERIC_POS;
  }

  /** Zero digits at either end carry no value. */
  lemma {:induction false} StripMag(s: seq<int>, w: int, lo: nat, hi: nat)
    requires lo <= hi <= |s|
    requires forall i :: 0 <= i < lo ==> s[i] == 0
    requires forall i :: hi <= i < |s| ==> s[i] == 0
    ensures Mag(s[lo..hi], w - lo) == Mag(s, w)
    decreases |s|
  {
    if lo > 0 {
      MagDropFirst(s, w);
      StripMag(s[1..], w - 1, lo - 1, hi - 1);
      assert s[1..][lo - 1..hi - 1] == s[lo..hi];
    } else if hi < |s| {
      MagDropLast(s, w);
      StripMag(s[..|s| - 1], w, lo, hi);
      assert s[..|s| - 1][lo..hi] == s[lo..hi];
    } else {
      assert s[lo..hi] == s;
    }
  }

  /** The part [lo..hi) of s left when zeros are cut at both ends. */
  ghost predicate IsStripSpan(s: seq<int>, lo: nat, hi: nat) {
    && lo <= hi <= |s|
    && (forall i :: 0 <= i < lo ==> s[i] == 0)
    && (forall i :: hi <= i < |s| ==> s[i] == 0)
    && (lo < hi ==> s[lo] != 0 && s[hi - 1] != 0)
  }

  ghost function StripTo(x: Num, lo: nat, hi: nat): Num
    requires lo <= hi
  {
    if lo == hi then Num(x.b, x.lo + lo, 0, 0, NUMERIC_POS, x.dscale)
    else Num(x.b, x.lo + lo, hi - lo, x.weight - lo, x.sign, x.dscale)
  }

  /** r is x with the zero digits at both ends removed and nothing else changed. */
  ghost predicate IsStripOf(x: Num, r: Num)
    requires x.InBuffer()
  {
    && r.Sound() && r.Stripped() && (x.Finite() ==> r.Finite())
    && r.Value() == x.Value() && r.Magnitude() == x.Magnitude() && r.dscale == x.dscale
    && (r.n > 0 ==> r.sign == x.sign) && (x.Spare() ==> r.Spare())
  }

  lemma SliceSlice(b: seq<int>, d: nat, n: nat, lo: nat, hi: nat)
    requires d + n <= |b| && lo <= hi <= n
    ensures b[d..d + n][lo..hi] == b[d + lo..d + hi]
  {
    var s := b[d..d + n];
    assert forall i :: 0 <= i < n ==> s[i] == b[d + i];
  }

  lemma StripKeepsMag(x: Num, lo: nat, hi: nat)
    requires x.Sound() && IsStripSpan(x.Ds(), lo, hi)
    ensures var r := StripTo(x, lo, hi);
      r.InBuffer() && AllDigits(r.Ds()) && r.Magnitude() == x.Magnitude()
  {
    var s, r := x.Ds(), StripTo(x, lo, hi);
    StripMag(s, x.weight, lo, hi);
    SliceSlice(x.b, x.lo, x.n, lo, hi);
    assert r.Ds() == s[lo..hi];
    assert forall i :: 0 <= i < hi - lo ==> r.Ds()[i] == s[lo + i];
    if lo == hi {
      ZeroValue(r);
      ShiftZero(4 * (x.weight - lo + 1));
    }
  }

  lemma StripKeepsValue(x: Num, lo: nat, hi: nat)
    requires x.Sound() && IsStripSpan(x.Ds(), lo, hi)
    ensures IsStripOf(x, StripTo(x, lo, hi))
  {
    var s := x.Ds();
    StripKeepsMag(x, lo, hi);
    if lo == hi { ZeroValue(StripTo(x, lo, hi)); }
    assert lo > 0 ==> s[lo - 1] == x.b[x.lo + lo - 1];
    assert lo < hi ==> s[lo] == x.b[x.lo + lo] && s[hi - 1] == x.b[x.lo + hi - 1];
  }

  /** The two loops of the strip: first the leading zeros, then the trailing ones. */
  method StripSpan(a: array<int>, first: nat, n: nat) returns (lo: nat, hi: nat)
    requires first + n <= a.Length
    ensures IsStripSpan(a[first..first + n], lo, hi)
  {
    lo, hi := 0, n;
    while lo < n && a[first + lo] == 0
      invariant lo <= n
      invariant forall i :: first <= i < first + lo ==> a[i] == 0
    {
      lo := lo + 1;
    }
    while hi > lo && a[first + hi - 1] == 0
      invariant lo <= hi <= n
      invariant forall i :: first + hi <= i < first + n ==> a[i] == 0
    {
      hi := hi - 1;
    }
  }

  /** Stripping keeps the value and the display scale and leaves no zero digit at either end. */
  method StripVar(v: Numeric)
    requires v.Get().Sound()
    modifies v
    ensures v.buf == old(v.buf) && IsStripOf(old(v.Get()), v.Get())
  {
    ghost var x := v.Get();
    var lo, hi := StripSpan(v.buf, v.digits, v.ndigits);
    StripKeepsValue(x, lo, hi);
    var weight, sign := v.weight - lo, v.sign;
    if lo == hi { weight, sign := 0, NUMERIC_POS; }
    v.digits, v.ndigits, v.weight, v.sign := v.digits + lo, hi - lo, weight, sign;
    assert v.Get() == StripTo(x, lo, hi);
  }
}
