/** Multiplication of numeric variables (mul_var): schoolbook rows into an array of wide
    accumulators whose carries are propagated only when they threaten to overflow. */
module NumericMul {
  import opened Basics
  import opened Radix
  import opened Decimal
  import opened Numerics
  import opened NumericRound
  import opened NumericDiv
  import LongDivision

  const INT_MAX := 0x7fff_ffff
  const MUL_GUARD_DIGITS := 2
  /** Accumulators are normalised before they exceed this many times NBASE - 1. */
  const MAXDIG := (INT_MAX - INT_MAX / NBASE) / (NBASE - 1)

  /** Every accumulator is non-negative and at most m times the largest digit. */
  ghost predicate AtMost(b: seq<int>, m: int) {
    forall i :: 0 <= i < |b| ==> 0 <= b[i] <= m * (NBASE - 1)
  }

  /** The digits of t that row i reaches in len places. */
  function RowDigits(t: seq<int>, i: nat, len: nat): nat
    requires i + 3 <= len
  {
    Min(|t|, len - i - 2)
  }

  /** What row i adds to the accumulators: x times the digits of t it reaches. */
  ghost function Row(x: int, t: seq<int>, i: nat, len: nat): int
    requires i + 3 <= len
  {
    var m := RowDigits(t, i, len);
    x * Lift(Seg(t, 0, m), len - 2 - i - m)
  }

  /** The sum of the rows i..top of s. */
  ghost function RowSum(s: seq<int>, t: seq<int>, i: nat, top: nat, len: nat): int
    requires i <= top <= |s| && top + 2 <= len
    decreases top - i
  {
    if i == top then 0 else Row(s[i], t, i, len) + RowSum(s, t, i + 1, top, len)
  }

  /** A place grows by y. */
  lemma PlaceGrows(b: seq<int>, k: nat, y: int)
    requires k < |b|
    ensures Seg(b[k := b[k] + y], 0, |b|) == Seg(b, 0, |b|) + Lift(y, |b| - 1 - k)
  {
    SegUpdate(b, 0, |b|, k, b[k] + y);
  }

  /** A row without its first product. */
  lemma RowCons(x: int, t: seq<int>, i: nat, m: nat, g: nat)
    requires i < m <= |t|
    ensures x * Lift(Seg(t, i, m), g) == Lift(x * t[i], m - 1 - i + g) + x * Lift(Seg(t, i + 1, m), g)
  {
    var h := m - 1 - i;
    SegCons(t, i, m);
    LiftSum(Lift(t[i], h), Seg(t, i + 1, m), g);
    LiftLift(t[i], h, g);
    LiftMul(x, t[i], h + g);
    LongDivision.MulSum(x, Lift(t[i], h + g), Lift(Seg(t, i + 1, m), g));
  }

  /** One product added into its place. */
  lemma RowStep(b: seq<int>, x: int, t: seq<int>, i1: nat, i2: nat, m: nat)
    requires i2 < m <= |t| && i1 + 2 + m <= |b|
    ensures var k := i1 + i2 + 2; var g := |b| - 2 - i1 - m;
      Seg(b[k := b[k] + x * t[i2]], 0, |b|) + x * Lift(Seg(t, i2 + 1, m), g)
      == Seg(b, 0, |b|) + x * Lift(Seg(t, i2, m), g)
  {
    var k, g, y := i1 + i2 + 2, |b| - 2 - i1 - m, x * t[i2];
    PlaceGrows(b, k, y);
    RowCons(x, t, i2, m, g);
    assert |b| - 1 - k == m - 1 - i2 + g;
  }

  /** Adds row i1 into the accumulators; none grows by more than x times the largest digit. */
  method AddRow(dig: array<int>, x: int32, t: seq<int>, i1: nat, ghost m: int)
    requires i1 + 3 <= dig.Length && AllDigits(t) && IsDigit(x)
    requires AtMost(dig[..], m) && 0 <= m && m + x <= MAXDIG
    modifies dig
    ensures AtMost(dig[..], m + x)
    ensures Seg(dig[..], 0, dig.Length) == old(Seg(dig[..], 0, dig.Length)) + Row(x, t, i1, dig.Length)
  {
    ghost var b, g := dig[..], dig.Length - 2 - i1 - RowDigits(t, i1, dig.Length);
    var n := RowDigits(t, i1, dig.Length);
    var i2 := n;
    LiftZero(g);
    while i2 > 0
      invariant 0 <= i2 <= n
      invariant forall i :: 0 <= i < i1 + i2 + 2 ==> dig[i] == b[i]
      invariant AtMost(dig[..], m + x)
      invariant Seg(dig[..], 0, dig.Length) == Seg(b, 0, dig.Length) + x * Lift(Seg(t, i2, n), g)
    {
      i2 := i2 - 1;
      ghost var c := dig[..];
      var i := i1 + i2 + 2;
      assert IsDigit(t[i2]);
      RowStep(c, x, t, i1, i2, n);
      RowFits(b[i], x, t[i2], m);
      var sum: int32 := dig[i] + x * t[i2];
      dig[i] := sum;
      assert dig[..] == c[i := sum];
    }
  }

  lemma RowFits(was: int, x: int, y: int, m: int)
    requires 0 <= was <= m * (NBASE - 1) && IsDigit(x) && IsDigit(y) && 0 <= m && m + x <= MAXDIG
    ensures 0 <= was + x * y <= (m + x) * (NBASE - 1) <= INT_MAX
  {
    LongDivision.DigitTimes(y, x);
  }

  /** Propagates all carries in place. They stay within 32 bits, and nothing leaves the top. */
  method NormalizeCarries(dig: array<int>)
    requires AtMost(dig[..], MAXDIG) && Seg(dig[..], 0, dig.Length) < Lift(1, dig.Length)
    modifies dig
    ensures AtMost(dig[..], 1) && Seg(dig[..], 0, dig.Length) == old(Seg(dig[..], 0, dig.Length))
  {
    ghost var b := dig[..];
    var n := dig.Length;
    var carry: int32, i := 0, n;
    while i > 0
      invariant 0 <= i <= n && 0 <= carry <= INT_MAX / NBASE
      invariant forall j :: 0 <= j < i ==> dig[j] == b[j]
      invariant DigitsIn(dig[..], i, n)
      invariant Seg(dig[..], i, n) + Lift(carry, n - i) == Seg(b, i, n)
    {
      i := i - 1;
      ghost var c := dig[..];
      ghost var carried := carry;
      var newdig: int32 := dig[i] + carry;
      if newdig >= NBASE {
        carry := newdig / NBASE;
        newdig := newdig - carry * NBASE;
      } else {
        carry := 0;
      }
      dig[i] := newdig;
      CarryPlace(b, c, dig[..], i, n, carried, carry);
    }
    SegBound(dig[..], 0, n);
    LongDivision.NoCarry(Seg(dig[..], 0, n), carry, n, Seg(b, 0, n));
    assert carry == 0;
    assert forall j :: 0 <= j < n ==> IsDigit(dig[..][j]);
  }

  lemma CarryPlace(b: seq<int>, c: seq<int>, e: seq<int>, i: nat, n: nat, cin: int, cout: int)
    requires i < n && n <= |b| && n <= |c| && n <= |e|
    requires forall j :: i < j < n ==> e[j] == c[j]
    requires e[i] == b[i] + cin - cout * NBASE
    requires Seg(c, i + 1, n) + Lift(cin, n - 1 - i) == Seg(b, i + 1, n)
    ensures Seg(e, i, n) + Lift(cout, n - i) == Seg(b, i, n)
  {
    LongDivision.PlaceOut(e, i, n, e[i], cout, b[i] + cin);
    SegSame(c, e, i + 1, n);
    SegCons(b, i, n);
    LiftSum(b[i], cin, n - 1 - i);
  }

  /** The exact product of t and the digits of s from place i on, in units of the last of len places. */
  ghost function TailProduct(s: seq<int>, t: seq<int>, i: nat, len: int): real
    requires i <= |s|
  {
    Shift((Seg(s, i, |s|) * Nat(t)) as real, 4 * (len - 1 - |s| - |t|))
  }

  /** The exact product of t and the digit at place i of s, in the same units. */
  ghost function RowProduct(x: int, t: seq<int>, i: nat, len: int): real {
    Shift((x * Nat(t)) as real, 4 * (len - 2 - i - |t|))
  }

  lemma TailProductStep(s: seq<int>, t: seq<int>, i: nat, len: int)
    requires i < |s|
    ensures TailProduct(s, t, i, len) == RowProduct(s[i], t, i, len) + TailProduct(s, t, i + 1, len)
  {
    var h, b, e := |s| - 1 - i, Nat(t), 4 * (len - 1 - |s| - |t|);
    SegCons(s, i, |s|);
    var rest, x := Seg(s, i + 1, |s|), b * s[i];
    LiftMul(b, s[i], h);
    LongDivision.MulSum(b, Lift(s[i], h), rest);
    assert Seg(s, i, |s|) * b == Lift(x, h) + rest * b;
    ShiftSum(Lift(x, h) as real, (rest * b) as real, e);
    ShiftLift(x, h);
    ShiftAdd(x as real, 4 * h, e);
  }

  /** A row's exact product is what the row adds plus what it leaves out. */
  lemma RowSplit(x: int, t: seq<int>, i: nat, len: nat)
    requires i + 3 <= len
    ensures var m := RowDigits(t, i, len);
      RowProduct(x, t, i, len) == Row(x, t, i, len) as real + Shift((x * Seg(t, m, |t|)) as real, 4 * (len - 2 - i - |t|))
  {
    var m, e := RowDigits(t, i, len), 4 * (len - 2 - i - |t|);
    var k := |t| - m;
    var head, tail := Seg(t, 0, m), Seg(t, m, |t|);
    var u, v := x * head, x * tail;
    assert x * Nat(t) == Lift(u, k) + v by {
      SegSplit(t, 0, m, |t|);
      LiftMul(x, head, k);
      LongDivision.MulSum(x, Lift(head, k), tail);
    }
    ShiftSum(Lift(u, k) as real, v as real, e);
    ShiftLift(u, k);
    ShiftAdd(u as real, 4 * k, e);
    ShiftLift(u, len - 2 - i - m);
    LiftMul(x, head, len - 2 - i - m);
  }

  /** What a row leaves out is less than one unit of the place before the last. */
  lemma RowError(x: int, t: seq<int>, i: nat, len: nat)
    requires IsDigit(x) && AllDigits(t) && i + 3 <= len
    ensures 0.0 <= RowProduct(x, t, i, len) - Row(x, t, i, len) as real <= NBASE as real
    ensures |t| + i + 2 <= len ==> RowProduct(x, t, i, len) == Row(x, t, i, len) as real
  {
    RowSplit(x, t, i, len);
    RowTail(x, t, RowDigits(t, i, len), 4 * (len - 2 - i - |t|));
  }

  lemma RowTail(x: int, t: seq<int>, m: nat, e: int)
    requires IsDigit(x) && AllDigits(t) && m <= |t| && (m < |t| ==> e == -4 * (|t| - m))
    ensures 0.0 <= Shift((x * Seg(t, m, |t|)) as real, e) <= NBASE as real
    ensures m == |t| ==> Shift((x * Seg(t, m, |t|)) as real, e) == 0.0
  {
    var k := |t| - m;
    ShiftZero(e);
    if k > 0 {
      SegBound(t, m, |t|);
      MulLe(Seg(t, m, |t|), Lift(1, k), x);
      MulLe(0, Seg(t, m, |t|), x);
      LiftMul(x, 1, k);
      ShiftLift(x, k);
      ShiftAdd(x as real, 4 * k, e);
      ShiftLt((x * Seg(t, m, |t|)) as real, Lift(x, k) as real, e);
      ShiftPositive((x * Seg(t, m, |t|)) as real, e);
    }
  }

  lemma ProductBound(s: seq<int>, t: seq<int>, i: nat)
    requires i <= |s| && AllDigits(s) && AllDigits(t)
    ensures 0 <= Seg(s, i, |s|) * Nat(t) < Lift(1, |s| - i + |t|)
  {
    var a, b, k := Seg(s, i, |s|), Nat(t), |s| - i;
    SegBound(s, i, |s|);
    NatBound(t);
    MulLe(0, a, b);
    MulLe(a, Lift(1, k) - 1, b);
    LiftMul(b, 1, k);
    LiftLt(b, Lift(1, |t|), k);
    LiftLift(1, |t|, k);
    LiftSign(1, k);
    if b > 0 { assert (Lift(1, k) - 1) * b < Lift(1, k) * b; } else { LiftSign(1, k + |t|); }
  }

  lemma TailProductBound(s: seq<int>, t: seq<int>, i: nat, len: nat)
    requires i <= |s| && AllDigits(s) && AllDigits(t)
    ensures 0.0 <= TailProduct(s, t, i, len) < Shift(1.0, 4 * (len - 1 - i))
    ensures i == |s| ==> TailProduct(s, t, i, len) == 0.0
  {
    var p, k, e := Seg(s, i, |s|) * Nat(t), |s| - i + |t|, 4 * (len - 1 - |s| - |t|);
    ProductBound(s, t, i);
    ShiftPositive(p as real, e);
    ShiftLt(p as real, Lift(1, k) as real, e);
    ShiftLift(1, k);
    ShiftAdd(1.0, 4 * k, e);
    ShiftZero(e);
  }

  /** How far the rows added can be from the product: less than n units of the place before the last. */
  lemma {:induction false} SumError(s: seq<int>, t: seq<int>, i: nat, top: nat, len: nat)
    requires i <= top && AllDigits(s) && AllDigits(t) && 3 <= len && top == Min(|s|, len - 2)
    ensures 0.0 <= TailProduct(s, t, i, len) - RowSum(s, t, i, top, len) as real <= (NBASE * (|s| - i)) as real
    ensures |s| + |t| + 1 <= len ==> TailProduct(s, t, i, len) == RowSum(s, t, i, top, len) as real
    decreases top - i
  {
    if i == top {
      TailProductBound(s, t, i, len);
      if top < |s| {
        ShiftLift(1, 1);
        assert Lift(1, 1) == NBASE;
        assert 4 * (len - 1 - i) == 4 * 1;
      }
    } else {
      SumError(s, t, i + 1, top, len);
      TailProductStep(s, t, i, len);
      assert IsDigit(s[i]);
      RowError(s[i], t, i, len);
    }
  }

  /** No partial sum of rows reaches the top place. */
  lemma RowSumBound(s: seq<int>, t: seq<int>, i: nat, top: nat, len: nat)
    requires i <= top && AllDigits(s) && AllDigits(t) && 3 <= len && top == Min(|s|, len - 2)
    ensures RowSum(s, t, i, top, len) < Lift(1, len - 1) < Lift(1, len)
  {
    SumError(s, t, i, top, len);
    TailProductBound(s, t, i, len);
    ShiftGrow(1.0, 4 * (len - 1 - i), 4 * (len - 1));
    ShiftLift(1, len - 1);
    LiftSucc(1, len - 1);
    LiftSign(1, len - 1);
  }

  /** All rows, most significant last, with a normalisation whenever the bound is threatened. */
  method AddRows(s: seq<int>, t: seq<int>, dig: array<int>)
    requires AllDigits(s) && AllDigits(t) && 3 <= dig.Length
    requires forall i :: 0 <= i < dig.Length ==> dig[i] == 0
    modifies dig
    ensures AtMost(dig[..], MAXDIG)
    ensures Seg(dig[..], 0, dig.Length) == RowSum(s, t, 0, Min(|s|, dig.Length - 2), dig.Length)
  {
    var len, top := dig.Length, Min(|s|, dig.Length - 2);
    var maxdig: int32, i1 := 0, top;
    SegAllZero(dig[..], 0, len);
    while i1 > 0
      invariant 0 <= i1 <= top && 0 <= maxdig <= MAXDIG && AtMost(dig[..], maxdig)
      invariant Seg(dig[..], 0, len) == RowSum(s, t, i1, top, len)
    {
      RowSumBound(s, t, i1, top, len);
      i1 := i1 - 1;
      assert IsDigit(s[i1]);
      maxdig := AddNextRow(dig, s[i1], t, i1, maxdig);
    }
  }

  /** Adds a row, after normalising if the bound would be passed; a row of zeros is skipped. */
  method AddNextRow(dig: array<int>, x: int32, t: seq<int>, i1: nat, maxdig: int32) returns (maxdig': int32)
    requires i1 + 3 <= dig.Length && AllDigits(t) && IsDigit(x) && 0 <= maxdig <= MAXDIG && AtMost(dig[..], maxdig)
    requires Seg(dig[..], 0, dig.Length) < Lift(1, dig.Length)
    modifies dig
    ensures 0 <= maxdig' <= MAXDIG && AtMost(dig[..], maxdig')
    ensures Seg(dig[..], 0, dig.Length) == old(Seg(dig[..], 0, dig.Length)) + Row(x, t, i1, dig.Length)
  {
    maxdig' := maxdig;
    if x == 0 { return; }
    if maxdig' + x > MAXDIG {
      NormalizeCarries(dig);
      maxdig' := 1;
    }
    AddRow(dig, x, t, i1, maxdig');
    maxdig' := maxdig' + x;
  }

  /** The final carry pass, which stores the digits after the spare place of res. */
  method StoreDigits(dig: array<int>, res: array<int>)
    requires dig != res && AtMost(dig[..], MAXDIG) && Seg(dig[..], 0, dig.Length) < Lift(1, dig.Length)
    requires res.Length == dig.Length + 1
    modifies res
    ensures res[0] == old(res[0]) && DigitsIn(res[..], 1, res.Length)
    ensures Seg(res[..], 1, res.Length) == Seg(dig[..], 0, dig.Length)
  {
    ghost var b := dig[..];
    var n := dig.Length;
    var carry: int32, i := 0, n;
    while i > 0
      invariant 0 <= i <= n && 0 <= carry <= INT_MAX / NBASE
      invariant dig[..] == b && res[0] == old(res[0]) && DigitsIn(res[..], 1 + i, 1 + n)
      invariant Seg(res[..], 1 + i, 1 + n) + Lift(carry, n - i) == Seg(b, i, n)
    {
      i := i - 1;
      ghost var c, carried := res[..], carry;
      var newdig: int32 := dig[i] + carry;
      if newdig >= NBASE {
        carry := newdig / NBASE;
        newdig := newdig - carry * NBASE;
      } else {
        carry := 0;
      }
      res[1 + i] := newdig;
      StorePlace(b, c, res[..], i, n, carried, carry);
    }
    SegBound(res[..], 1, 1 + n);
    LongDivision.NoCarry(Seg(res[..], 1, 1 + n), carry, n, Seg(b, 0, n));
    assert carry == 0;
  }

  lemma StorePlace(b: seq<int>, c: seq<int>, e: seq<int>, i: nat, n: nat, cin: int, cout: int)
    requires i < n && n == |b| && 1 + n == |c| == |e|
    requires forall j :: 1 + i < j < 1 + n ==> e[j] == c[j]
    requires e[1 + i] == b[i] + cin - cout * NBASE
    requires Seg(c, 2 + i, 1 + n) + Lift(cin, n - 1 - i) == Seg(b, i + 1, n)
    ensures Seg(e, 1 + i, 1 + n) + Lift(cout, n - i) == Seg(b, i, n)
  {
    LongDivision.PlaceOut(e, 1 + i, 1 + n, e[1 + i], cout, b[i] + cin);
    SegSame(c, e, 2 + i, 1 + n);
    SegCons(b, i, n);
    LiftSum(b[i], cin, n - 1 - i);
  }

  /** The product of two magnitudes, seen in units of the last of len places below weight w. */
  lemma ProductMag(s: seq<int>, w1: int, t: seq<int>, w2: int, len: int, w: int)
    requires w == w1 + w2 + 2
    ensures MagProduct(s, w1, t, w2) == Shift(TailProduct(s, t, 0, len), 4 * (w + 1 - len))
  {
    var a, b, e1, e2 := Nat(s), Nat(t), 4 * (w1 + 1 - |s|), 4 * (w2 + 1 - |t|);
    var x, y := a as real, b as real;
    ShiftProduct(x, e1, y, e2);
    assert (a * b) as real == x * y;
    ShiftAdd((a * b) as real, 4 * (len - 1 - |s| - |t|), 4 * (w + 1 - len));
    assert e1 + e2 == 4 * (len - 1 - |s| - |t|) + 4 * (w + 1 - len);
  }

  lemma ShiftProduct(x: real, e: int, y: real, f: int)
    ensures Shift(x, e) * Shift(y, f) == Shift(x * y, e + f)
  {
    var u := Shift(x, e);
    ShiftMul(u, y, f);
    ShiftMul(y, x, e);
    var p, q := u * y, x * y;
    assert Shift(q, e) == p;
    ShiftAdd(q, e, f);
  }

  /** The product of two magnitudes. */
  ghost function MagProduct(s: seq<int>, w1: int, t: seq<int>, w2: int): real { Mult(Mag(s, w1), Mag(t, w2)) }

  /** The exact product of two numerics. */
  ghost function Times(x: Num, y: Num): real
    requires x.InBuffer() && y.InBuffer()
  {
    Mult(x.Value(), y.Value())
  }

  /** The number of places mul_var computes for nonzero operands, before the minimum is taken. */
  function MaxDigits(w1: int, w2: int, rscale: int): int {
    (w1 + w2 + 2) + 1 + FractionDigits(rscale) + MUL_GUARD_DIGITS
  }

  /** No input digit is cut off. */
  ghost predicate KeepsAll(x: Num, y: Num, rscale: int) {
    x.n == 0 || y.n == 0 || x.n + y.n + 1 <= MaxDigits(x.weight, y.weight, rscale)
  }

  /** The most that cutting input digits can cost, for n digits in the shorter operand. */
  ghost function CutError(n: nat, rscale: int): real { Shift(n as real, -rscale - 4) }

  /** r is the product v at rscale decimals: rounded half away from zero if no input digit was cut
      off, and in any case on the grid and within half a unit plus n/10000 of a unit, n the shorter length. */
  ghost predicate IsProduct(v: real, n: nat, keeps: bool, r: Num, rscale: int) {
    && r.Finite() && r.dscale == rscale && OnGrid(r.Value(), rscale)
    && (keeps ==> r.Value() == RoundAt(v, rscale))
    && AbsR(r.Value() - v) <= Shift(0.5, -rscale) + CutError(n, rscale)
  }

  /** m, computed before rounding, falls short of the product p only by digits cut off. */
  ghost predicate IsCutProduct(p: real, m: real, n: nat, keeps: bool, rscale: int) {
    0.0 <= p - m <= CutError(n, rscale) && (keeps ==> m == p)
  }

  lemma CutUnit(n: nat, w: int, len: int, rscale: int)
    requires len == w + 1 + FractionDigits(rscale) + MUL_GUARD_DIGITS
    ensures Shift((NBASE * n) as real, 4 * (w + 1 - len)) <= CutError(n, rscale)
  {
    var c, x := FractionDigits(rscale), n as real;
    ShiftLift(n, 1);
    assert Lift(n, 1) == n * NBASE;
    ShiftAdd(x, 4, 4 * (w + 1 - len));
    ShiftGrow(x, -4 * c - 4, -rscale - 4);
  }

  /** The digits mul_var computes before it rounds. */
  lemma UnroundedProduct(r: Num, s: seq<int>, t: seq<int>, w1: int, w2: int, rscale: int)
    requires AllDigits(s) && AllDigits(t)
    requires r.InBuffer() && r.lo == 1 && |r.b| == 1 + r.n && DigitsIn(r.b, 1, 1 + r.n) && 3 <= r.n
    requires r.weight == w1 + w2 + 2 && r.n == Min(|s| + |t| + 1, MaxDigits(w1, w2, rscale))
    requires Seg(r.b, 1, 1 + r.n) == RowSum(s, t, 0, Min(|s|, r.n - 2), r.n)
    ensures r.Sound()
    ensures IsCutProduct(Shift(TailProduct(s, t, 0, r.n), 4 * (r.weight + 1 - r.n)), r.Magnitude(), |s|,
                         |s| + |t| + 1 <= MaxDigits(w1, w2, rscale), rscale)
  {
    var len, e := r.n, 4 * (r.weight + 1 - r.n);
    var x, p := Seg(r.b, 1, 1 + len) as real, TailProduct(s, t, 0, len);
    MagOfSeg(r, 1, 1 + len, e);
    SumError(s, t, 0, Min(|s|, len - 2), len);
    CutScaled(p, x, |s|, e, r.weight, len, rscale);
  }

  lemma CutScaled(p: real, x: real, n: nat, e: int, w: int, len: int, rscale: int)
    requires 0.0 <= p - x <= (NBASE * n) as real && e == 4 * (w + 1 - len)
    requires len == w + 1 + FractionDigits(rscale) + MUL_GUARD_DIGITS || p == x
    ensures 0.0 <= Shift(p, e) - Shift(x, e) <= CutError(n, rscale)
  {
    ShiftSum(p, x, e);
    ShiftPositive(p - x, e);
    ShiftLt(p - x, (NBASE * n) as real, e);
    if p == x {
      ShiftPositive(n as real, -rscale - 4);
    } else {
      CutUnit(n, w, len, rscale);
    }
  }

  /** Rounding the computed digits. */
  lemma ProductRounded(v: real, p: real, n: nat, keeps: bool, q: Num, r: Num, rscale: int)
    requires q.Finite() && p >= 0.0 && v == if q.sign == NUMERIC_NEG then -p else p
    requires IsCutProduct(p, q.Magnitude(), n, keeps, rscale) && RoundsTo(q, r, rscale)
    ensures IsProduct(v, n, keeps, r, rscale)
  {
    ValueSign(q);
    RoundError(q.Magnitude(), rscale);
    RoundAtOnGrid(q.Value(), rscale);
    ZeroRounds(rscale);
  }

  lemma ZeroProduct(n: nat, keeps: bool, rscale: int)
    ensures IsProduct(0.0, n, keeps, Num([], 0, 0, 0, NUMERIC_POS, rscale), rscale)
  {
    ZeroValue(Num([], 0, 0, 0, NUMERIC_POS, rscale));
    ZeroRounds(rscale);
    GridZero(rscale);
    ShiftPositive(0.5, -rscale);
    ShiftPositive(n as real, -rscale - 4);
  }

  /** When every input digit lies beyond the guard digits, zero is close enough. */
  lemma TinyProduct(v: real, n: nat, rscale: int)
    requires AbsR(v) <= CutError(n, rscale)
    ensures IsProduct(v, n, false, Num([], 0, 0, 0, NUMERIC_POS, rscale), rscale)
  {
    ZeroValue(Num([], 0, 0, 0, NUMERIC_POS, rscale));
    GridZero(rscale);
    ShiftPositive(0.5, -rscale);
  }

  lemma TinyBound(a: real, w1: int, b: real, w2: int, n: nat, rscale: int)
    requires 0.0 <= a <= Shift(1.0, 4 * (w1 + 1)) && 0.0 <= b <= Shift(1.0, 4 * (w2 + 1)) && n >= 1
    requires MaxDigits(w1, w2, rscale) < 3
    ensures 0.0 <= a * b <= CutError(n, rscale)
  {
    var e, f := 4 * (w1 + 1), 4 * (w2 + 1);
    ProductBelow(a, Shift(1.0, e), b, Shift(1.0, f));
    ShiftProduct(1.0, e, 1.0, f);
    ShiftGrow(1.0, e + f, -rscale - 4);
    ShiftLt(1.0, n as real, -rscale - 4);
  }

  lemma ProductBelow(a: real, u: real, b: real, v: real)
    requires 0.0 <= a <= u && 0.0 <= b <= v
    ensures 0.0 <= a * b <= u * v
  {
    assert a * b <= u * b;
    assert u * b <= u * v;
  }

  /** The product has the product of the magnitudes, in either order, and the sign mul_var gives it. */
  lemma ProductSign(x: Num, y: Num)
    requires x.Finite() && y.Finite()
    ensures var p := MagProduct(x.Ds(), x.weight, y.Ds(), y.weight);
      && p == MagProduct(y.Ds(), y.weight, x.Ds(), x.weight)
      && Times(x, y) == if x.sign == y.sign then p else -p
  {
    SignedTimes(x.Value(), x.Magnitude(), x.sign == NUMERIC_NEG, y.Value(), y.Magnitude(), y.sign == NUMERIC_NEG);
  }

  lemma SignedTimes(v: real, a: real, n: bool, w: real, b: real, m: bool)
    requires v == (if n then -a else a) && w == if m then -b else b
    ensures Mult(a, b) == Mult(b, a) && Mult(v, w) == if n == m then Mult(a, b) else -Mult(a, b)
  {
  }

  lemma TimesZero(x: Num, y: Num)
    requires x.Finite() && y.Finite() && (x.n == 0 || y.n == 0)
    ensures Times(x, y) == 0.0
  {
    if x.n == 0 { ZeroValue(x); } else { ZeroValue(y); }
  }

  lemma SignedProduct(a: real, b: real)
    requires a >= 0.0 && b >= 0.0
    ensures a * b >= 0.0 && a * b == b * a && (-a) * b == -(a * b) && a * (-b) == -(a * b) && (-a) * (-b) == a * b
  {
  }

  /** The digits of the product in a fresh buffer of result, computed to n places. */
  method MulUnrounded(s: seq<int>, w1: int, t: seq<int>, w2: int, result: Numeric, n: nat, sign: int, rscale: int)
    requires AllDigits(s) && AllDigits(t) && 3 <= n == Min(|s| + |t| + 1, MaxDigits(w1, w2, rscale))
    requires sign == NUMERIC_POS || sign == NUMERIC_NEG
    modifies result
    ensures fresh(result.buf) && result.Get().Finite() && result.Get().Spare() && result.sign == sign
    ensures IsCutProduct(MagProduct(s, w1, t, w2), result.Get().Magnitude(), |s|,
                         |s| + |t| + 1 <= MaxDigits(w1, w2, rscale), rscale)
  {
    var dig := new int[n](_ => 0);
    AddRows(s, t, dig);
    RowSumBound(s, t, 0, Min(|s|, n - 2), n);
    AllocVar(result, n);
    StoreDigits(dig, result.buf);
    ghost var b := result.buf[..];
    result.weight, result.sign := w1 + w2 + 2, sign;
    assert result.buf[..] == b;
    UnroundedProduct(result.Get(), s, t, w1, w2, rscale);
    ProductMag(s, w1, t, w2, n, w1 + w2 + 2);
  }

  /** Nonzero operands, the shorter first. */
  method MulOrdered(s: seq<int>, w1: int, t: seq<int>, w2: int, sign: int, result: Numeric, rscale: int)
    requires AllDigits(s) && AllDigits(t) && 1 <= |s| <= |t|
    requires sign == NUMERIC_POS || sign == NUMERIC_NEG
    modifies result
    ensures fresh(result.buf) && result.Get().InBuffer() && result.Get().Stripped()
    ensures var p := MagProduct(s, w1, t, w2);
      IsProduct(if sign == NUMERIC_NEG then -p else p, |s|, |s| + |t| + 1 <= MaxDigits(w1, w2, rscale), result.Get(), rscale)
  {
    ghost var p, keeps := MagProduct(s, w1, t, w2), |s| + |t| + 1 <= MaxDigits(w1, w2, rscale);
    ghost var v := if sign == NUMERIC_NEG then -p else p;
    ProductRange(s, w1, t, w2, rscale);
    var len := Min(|s| + |t| + 1, MaxDigits(w1, w2, rscale));
    if len < 3 {
      TinyProduct(v, |s|, rscale);
      ZeroVar(result);
      result.dscale := rscale;
    } else {
      MulUnrounded(s, w1, t, w2, result, len, sign, rscale);
      ghost var q := result.Get();
      RoundVar(result, rscale);
      ProductRounded(v, p, |s|, keeps, q, result.Get(), rscale);
      StripVar(result);
    }
  }

  lemma ProductRange(s: seq<int>, w1: int, t: seq<int>, w2: int, rscale: int)
    requires AllDigits(s) && AllDigits(t) && 1 <= |s|
    ensures MagProduct(s, w1, t, w2) >= 0.0
    ensures MaxDigits(w1, w2, rscale) < 3 ==> MagProduct(s, w1, t, w2) <= CutError(|s|, rscale)
  {
    var a, b := Mag(s, w1), Mag(t, w2);
    MagBound(s, w1);
    MagBound(t, w2);
    ProductBelow(a, a, b, b);
    if MaxDigits(w1, w2, rscale) < 3 { TinyBound(a, w1, b, w2, |s|, rscale); }
  }

  method MulZero(result: Numeric, rscale: int, ghost n: nat)
    modifies result
    ensures fresh(result.buf) && result.Get().InBuffer() && result.Get().Stripped()
    ensures IsProduct(0.0, n, true, result.Get(), rscale)
  {
    ZeroVar(result);
    result.dscale := rscale;
    ZeroProduct(n, true, rscale);
  }

  /** The operand with fewer digits comes first. */
  method MulNonzero(v1: Numeric, v2: Numeric, result: Numeric, rscale: int)
    requires v1.Get().Finite() && v2.Get().Finite() && v1.ndigits > 0 && v2.ndigits > 0
    modifies result
    ensures fresh(result.buf) && result.Get().InBuffer() && result.Get().Stripped()
    ensures IsProduct(Times(old(v1.Get()), old(v2.Get())), old(Min(v1.ndigits, v2.ndigits)),
                      old(KeepsAll(v1.Get(), v2.Get(), rscale)), result.Get(), rscale)
  {
    ghost var x, y := v1.Get(), v2.Get();
    var s, t := v1.buf[..][v1.digits..v1.digits + v1.ndigits], v2.buf[..][v2.digits..v2.digits + v2.ndigits];
    var sign := if v1.sign == v2.sign then NUMERIC_POS else NUMERIC_NEG;
    ProductSign(x, y);
    if v1.ndigits > v2.ndigits {
      MulOrdered(t, v2.weight, s, v1.weight, sign, result, rscale);
    } else {
      MulOrdered(s, v1.weight, t, v2.weight, sign, result, rscale);
    }
  }

  /** result := v1 * v2 at rscale decimals; result may be v1 or v2. */
  method MulVar(v1: Numeric, v2: Numeric, result: Numeric, rscale: int)
    requires v1.Get().Finite() && v2.Get().Finite()
    modifies result
    ensures fresh(result.buf) && result.Get().InBuffer() && result.Get().Stripped()
    ensures IsProduct(Times(old(v1.Get()), old(v2.Get())), old(Min(v1.ndigits, v2.ndigits)),
                      old(KeepsAll(v1.Get(), v2.Get(), rscale)), result.Get(), rscale)
  {
    ghost var x, y := v1.Get(), v2.Get();
    if v1.ndigits == 0 || v2.ndigits == 0 {
      TimesZero(x, y);
      MulZero(result, rscale, Min(x.n, y.n));
    } else {
      MulNonzero(v1, v2, result, rscale);
    }
  }
}
