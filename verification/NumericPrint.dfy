/** Printing numeric variables (get_str_from_var), and the round trip through text. */
module NumericPrint {
  import opened Basics
  import opened Radix
  import opened Decimal
  import opened DecimalText
  import opened Numerics
  import opened NumericText
  import NumericDiv
  import NumericRound

  /** The integer a string of decimal digits denotes. */
  ghost function TextValue(t: string): int
    requires AllDec(t)
  {
    Dec(DigitValues(t, 0, |t|), 0, |t|)
  }

  lemma AppendDigit(t: string, d: int)
    requires AllDec(t) && 0 <= d <= 9
    ensures AllDec(t + [DecimalChar(d)]) && TextValue(t + [DecimalChar(d)]) == TextValue(t) * 10 + d
  {
    var u := t + [DecimalChar(d)];
    DecMoved(DigitValues(t, 0, |t|), 0, |t|, DigitValues(u, 0, |u|), 0);
  }

  /** The first k digits of s, zeros beyond its end, as an integer; none if k is not positive. */
  ghost function Pre(s: seq<int>, k: int): int
    decreases k
  {
    if k <= 0 then 0 else Pre(s, k - 1) * NBASE + if k - 1 < |s| then s[k - 1] else 0
  }

  /** The decimal digits of an NBASE digit. */
  ghost predicate IsSplit(x: int, d1: int, d2: int, d3: int, d4: int) {
    && 0 <= d1 <= 9 && 0 <= d2 <= 9 && 0 <= d3 <= 9 && 0 <= d4 <= 9
    && x == ((d1 * 10 + d2) * 10 + d3) * 10 + d4
  }

  method SplitDigit(x: int) returns (d1: int, d2: int, d3: int, d4: int)
    requires IsDigit(x)
    ensures IsSplit(x, d1, d2, d3, d4)
  {
    var dig := x;
    d1 := dig / 1000;
    dig := dig - d1 * 1000;
    d2 := dig / 100;
    dig := dig - d2 * 100;
    d3 := dig / 10;
    d4 := dig - d3 * 10;
  }

  /** Appends all four decimals of x. */
  method PutFour(t: string, x: int) returns (u: string)
    requires AllDec(t) && IsDigit(x)
    ensures AllDec(u) && |u| == |t| + 4 && t <= u && TextValue(u) == TextValue(t) * NBASE + x
  {
    var d1, d2, d3, d4 := SplitDigit(x);
    var u1 := t + [DecimalChar(d1)];
    var u2 := u1 + [DecimalChar(d2)];
    var u3 := u2 + [DecimalChar(d3)];
    AppendDigit(t, d1);
    AppendDigit(u1, d2);
    AppendDigit(u2, d3);
    AppendDigit(u3, d4);
    u := u3 + [DecimalChar(d4)];
  }

  method PutIf(t: string, d: int, put: bool) returns (u: string)
    requires AllDec(t) && 0 <= d <= 9 && (!put ==> t == "" && d == 0)
    ensures AllDec(u) && |u| == (if put then |t| + 1 else |t|) && TextValue(u) == TextValue(t) * 10 + d
    ensures t <= u && (t == "" && put ==> u == [DecimalChar(d)])
  {
    AppendDigit(t, d);
    u := if put then t + [DecimalChar(d)] else t;
  }

  /** The number of decimals of an NBASE digit without its leading zeros. */
  function Width(x: int): (n: nat)
    ensures 1 <= n <= 4
  {
    if x >= 1000 then 4 else if x >= 100 then 3 else if x >= 10 then 2 else 1
  }

  /** The number of digits printed before the point. */
  function WholeLength(s: seq<int>, w: int): (n: nat)
    ensures 1 <= n <= Max(1, 4 * (w + 1))
  {
    if w < 0 then 1 else 4 * w + Width(if s != [] then s[0] else 0)
  }

  /** The decimals of x with leading zeros left out, but at least one. */
  method PutFirst(x: int) returns (u: string)
    requires IsDigit(x)
    ensures AllDec(u) && |u| == Width(x) && TextValue(u) == x && (|u| > 1 ==> u[0] != '0')
  {
    var d1, d2, d3, d4 := SplitDigit(x);
    u := PutIf("", d1, d1 > 0);
    var putit := d1 > 0 || d2 > 0;
    u := PutIf(u, d2, putit);
    putit := putit || d3 > 0;
    u := PutIf(u, d3, putit);
    u := PutIf(u, d4, true);
  }

  /** The digits before the point: at least one, and no leading zero if the first digit is not zero. */
  method WholePart(s: seq<int>, w: int) returns (t: string)
    requires AllDigits(s)
    ensures AllDec(t) && TextValue(t) == Pre(s, w + 1) && |t| == WholeLength(s, w)
    ensures w <= 0 || (s != [] && s[0] != 0) ==> |t| > 1 ==> t[0] != '0'
  {
    if w < 0 {
      t := PutIf("", 0, true);
      return;
    }
    assert s != [] ==> IsDigit(s[0]);
    t := PutFirst(if 0 < |s| then s[0] else 0);
    assert s != [] && s[0] != 0 ==> t[0] != '0' by { if s != [] && s[0] != 0 { FirstNonzero(t, s[0]); } }
    var d := 1;
    while d <= w
      invariant 1 <= d <= w + 1 && AllDec(t) && TextValue(t) == Pre(s, d)
      invariant |t| == WholeLength(s, d - 1)
      invariant s != [] && s[0] != 0 ==> t[0] != '0'
      invariant d == 1 ==> |t| > 1 ==> t[0] != '0'
    {
      assert d < |s| ==> IsDigit(s[d]);
      t := PutFour(t, if d < |s| then s[d] else 0);
      d := d + 1;
    }
  }

  /** A one-digit text of a nonzero number is not zero. */
  lemma FirstNonzero(t: string, x: int)
    requires AllDec(t) && t != "" && TextValue(t) == x != 0 && (|t| > 1 ==> t[0] != '0')
    ensures t[0] != '0'
  {
    if |t| == 1 {
      var d := DigitValues(t, 0, 1);
      assert Dec(d, 0, 1) == d[0];
    }
  }

  /** The digits after the point, a multiple of four of them, appended to the whole part t. */
  method FractionPart(s: seq<int>, w: int, t: string, dscale: nat) returns (u: string, ghost m: nat)
    requires AllDigits(s) && AllDec(t) && TextValue(t) == Pre(s, w + 1)
    ensures AllDec(u) && t <= u && |u| == |t| + 4 * m && m == (dscale + 3) / 4
    ensures TextValue(u) == Pre(s, w + 1 + m)
  {
    u, m := t, 0;
    var d, i := w + 1, 0;
    while i < dscale
      invariant i == 4 * m && d == w + 1 + m && m <= (dscale + 3) / 4
      invariant AllDec(u) && t <= u && |u| == |t| + i && TextValue(u) == Pre(s, d)
    {
      assert 0 <= d < |s| ==> IsDigit(s[d]);
      u := PutFour(u, if 0 <= d < |s| then s[d] else 0);
      d, i, m := d + 1, i + 4, m + 1;
    }
  }

  lemma {:induction false} PreIsNat(s: seq<int>, k: nat)
    requires |s| <= k
    ensures Pre(s, k) == Lift(Nat(s), k - |s|)
    decreases k
  {
    if |s| < k {
      PreIsNat(s, k - 1);
      LiftSucc(Nat(s), k - 1 - |s|);
    } else {
      PreIsSeg(s, k);
    }
  }

  lemma {:induction false} PreIsSeg(s: seq<int>, k: nat)
    requires k <= |s|
    ensures Pre(s, k) == Seg(s, 0, k)
  {
    if k > 0 { PreIsSeg(s, k - 1); }
  }

  /** With enough digits printed, nothing of the magnitude is missing. */
  lemma PrintedMag(s: seq<int>, w: int, m: nat)
    requires |s| <= w + 1 + m
    ensures Pre(s, w + 1 + m) as real == Shift(Mag(s, w), 4 * m)
  {
    var k := w + 1 + m;
    PreIsNat(s, k);
    ShiftAdd(Nat(s) as real, 4 * (w + 1 - |s|), 4 * m);
    ShiftLift(Nat(s), k - |s|);
  }

  /** The digits printed are those of the magnitude cut off at 4m decimals. */
  lemma PrintedCut(s: seq<int>, w: int, m: nat)
    requires AllDigits(s)
    ensures Pre(s, w + 1 + m) as real == Shift(TruncMag(Mag(s, w), 4 * m), 4 * m)
  {
    var k := w + 1 + m;
    if |s| <= k {
      PrintedMag(s, w, m);
      IntegerIs(Shift(Mag(s, w), 4 * m), Pre(s, k));
      GridKept(Mag(s, w), 4 * m);
    } else if k >= 0 {
      PrefixPrinted(s, w, m, k);
    } else {
      NothingPrinted(s, w, m);
    }
  }

  lemma PrefixPrinted(s: seq<int>, w: int, m: nat, k: nat)
    requires AllDigits(s) && k == w + 1 + m < |s|
    ensures Pre(s, k) as real == Shift(TruncMag(Mag(s, w), 4 * m), 4 * m)
  {
    NumericRound.TruncCut(s, w, 4 * m, k, 0);
    PreIsSeg(s, k);
    SegIsNat(s, 0, k);
    assert s[0..k] == s[..k];
    ShiftBack(Pre(s, k) as real, -4 * m);
  }

  lemma NothingPrinted(s: seq<int>, w: int, m: nat)
    requires AllDigits(s) && w + 1 + m < 0
    ensures Shift(TruncMag(Mag(s, w), 4 * m), 4 * m) == 0.0
  {
    var u := Shift(1.0, 4 * (w + 1));
    MagBound(s, w);
    ShiftPositive(Mag(s, w), 4 * m);
    ShiftLt(Mag(s, w), u, 4 * m);
    ShiftAdd(1.0, 4 * (w + 1), 4 * m);
    ShiftGrow(1.0, 4 * (w + 1 + m), -4);
    ShiftSucc(1.0, -4);
    ShiftSucc(1.0, -3);
    ShiftSucc(1.0, -2);
    ShiftSucc(1.0, -1);
    TruncIs(Mag(s, w), 4 * m, 0);
    ShiftZero(-4 * m);
    ShiftZero(4 * m);
  }

  lemma {:induction false} DecSplit(d: seq<int>, lo: nat, mid: nat, hi: nat)
    requires lo <= mid <= hi <= |d| && AllDecimal(d)
    ensures Dec(d, lo, hi) == Dec(d, lo, mid) * TenNat(hi - mid) + Dec(d, mid, hi)
    ensures 0 <= Dec(d, mid, hi) < TenNat(hi - mid)
    decreases hi
  {
    if mid < hi {
      DecSplit(d, lo, mid, hi - 1);
      TimesTen(Dec(d, lo, mid), TenNat(hi - 1 - mid));
    }
  }

  lemma TextDigits(t: string)
    requires AllDec(t)
    ensures AllDecimal(DigitValues(t, 0, |t|))
  {
  }

  /** Cutting the excess decimals leaves the exact value when the value has no more decimals. */
  lemma CutText(u: string, j: nat)
    requires AllDec(u) && j <= |u|
    ensures AllDec(u[..|u| - j])
    ensures TextValue(u[..|u| - j]) * TenNat(j) <= TextValue(u) < TextValue(u[..|u| - j]) * TenNat(j) + TenNat(j)
  {
    var d, n := DigitValues(u, 0, |u|), |u| - j;
    TextDigits(u);
    DecSplit(d, 0, n, |u|);
    DecMoved(DigitValues(u[..n], 0, n), 0, n, d, 0);
  }

  /** Cutting j decimals off the digits at a decimals cuts the number off at b = a - j decimals. */
  lemma CutDigits(x: real, a: int, b: int, j: nat, n: int, q: int)
    requires a == b + j && n as real == Shift(TruncMag(x, a), a) && q * TenNat(j) <= n < q * TenNat(j) + TenNat(j)
    ensures q as real == Shift(TruncMag(x, b), b)
  {
    var t := TruncMag(x, a);
    var y := Shift(t, b);
    ShiftAdd(t, b, j);
    ShiftTenNat(q, j);
    ShiftTenNat(1, j);
    ShiftSum(q as real, 1.0, j);
    ShiftBack(y, j);
    ShiftBack(q as real, j);
    ShiftBack(q as real + 1.0, j);
    ShiftLt(n as real, Shift(q as real + 1.0, j), 0 - j);
    ShiftLt(Shift(q as real, j), n as real, 0 - j);
    TruncIs(t, b, q);
    NumericDiv.TruncTrunc(x, a, b);
    ShiftBack(q as real, -b);
  }

  /** The text of a number: a sign, digits, and, if there are decimals, a point and the decimals. */
  ghost function Text(neg: bool, digits: string, nwhole: nat): string
    requires nwhole <= |digits|
  {
    (if neg then "-" else "") + digits[..nwhole] + if nwhole < |digits| then "." + digits[nwhole..] else ""
  }

  /** The literal that such a text is. */
  ghost function TextLiteral(neg: bool, digits: string, nwhole: nat): Literal
    requires AllDec(digits) && nwhole <= |digits|
  {
    Literal(neg, DigitValues(digits, 0, nwhole), DigitValues(digits, nwhole, |digits|), 0, |Text(neg, digits, nwhole)|)
  }

  lemma SameDigits(s: string, lo: nat, hi: nat, t: string, lo': nat, hi': nat)
    requires lo <= hi <= |s| && lo' <= hi' <= |t| && s[lo..hi] == t[lo'..hi'] && AllDec(t)
    ensures forall j :: lo <= j < hi ==> IsDecimal(s[j])
    ensures DigitValues(s, lo, hi) == DigitValues(t, lo', hi')
  {
    forall j | lo <= j < hi ensures IsDecimal(s[j]) && s[j] == t[j - lo + lo'] {
      assert s[j] == s[lo..hi][j - lo] == t[lo'..hi'][j - lo];
    }
  }

  /** Where the parts of a printed number lie. */
  lemma TextParts(neg: bool, digits: string, nwhole: nat, t: string, p: nat, a: nat)
    requires 1 <= nwhole <= |digits| && t == Text(neg, digits, nwhole) && p == (if neg then 1 else 0) && a == p + nwhole
    ensures a <= |t| && t[p..a] == digits[0..nwhole] && At(t, 0) == if neg then '-' else digits[0]
    ensures nwhole < |digits| ==> a < |t| && t[a] == '.' && t[a + 1..|t|] == digits[nwhole..|digits|]
    ensures nwhole == |digits| ==> a == |t|
  {
  }

  lemma TextReads(neg: bool, digits: string, nwhole: nat)
    requires AllDec(digits) && 1 <= nwhole <= |digits|
    ensures ReadLiteral(Text(neg, digits, nwhole), 0) == Some(TextLiteral(neg, digits, nwhole))
  {
    var t := Text(neg, digits, nwhole);
    var p := if neg then 1 else 0;
    var a, point := p + nwhole, nwhole < |digits|;
    TextParts(neg, digits, nwhole, t, p, a);
    SameDigits(t, p, a, digits, 0, nwhole);
    if point { SameDigits(t, a + 1, |t|, digits, nwhole, |digits|); }
    assert IsDecimal(t[p]) && IsDecimal(digits[0]);
    ScannedLiteral(ScanOf(t, p, a, |t|, point), 0, false);
    assert neg <==> At(t, 0) == '-';
    LiteralIs(t, neg, p, a, digits, nwhole);
  }

  /** A mantissa that the text ends with. */
  lemma LiteralIs(t: string, neg: bool, p: nat, a: nat, digits: string, nwhole: nat)
    requires AllDec(digits) && nwhole <= |digits| && t == Text(neg, digits, nwhole)
    requires p <= a <= |t| && (forall j :: p <= j < a ==> IsDecimal(t[j])) && (forall j :: a < j < |t| ==> IsDecimal(t[j]))
    requires DigitValues(t, p, a) == DigitValues(digits, 0, nwhole) && (a < |t| <==> nwhole < |digits|)
    requires a < |t| ==> DigitValues(t, a + 1, |t|) == DigitValues(digits, nwhole, |digits|)
    ensures LiteralAt(t, neg, p, a, |t|) == Some(TextLiteral(neg, digits, nwhole))
  {
    assert ReadExponent(t, |t|) == Some((0, |t|));
    if a == |t| { assert DigitValues(digits, nwhole, |digits|) == []; }
  }

  lemma TextLiteralMag(neg: bool, digits: string, nwhole: nat, m: real)
    requires AllDec(digits) && nwhole <= |digits|
    requires TextValue(digits) as real == Shift(m, |digits| - nwhole)
    ensures TextLiteral(neg, digits, nwhole).Magnitude() == m
  {
    var l := TextLiteral(neg, digits, nwhole);
    assert l.Digits() == DigitValues(digits, 0, |digits|);
    ShiftBack(m, |digits| - nwhole);
  }

  /** Cutting off the excess digits. */
  lemma CutOut(sign: string, whole: string, digits: string, dscale: nat)
    requires whole <= digits && |whole| + dscale <= |digits|
    ensures var out := sign + whole + "." + digits[|whole|..];
      var shown := digits[..|whole| + dscale];
      out[..|sign| + |whole| + 1 + dscale] == sign + shown[..|whole|] + ("." + shown[|whole|..])
  {
    assert digits[..|whole| + dscale][..|whole|] == whole;
    assert digits[..|whole| + dscale][|whole|..] == digits[|whole|..][..dscale];
  }

  /** text shows the digits s of weight w with d decimals. all is every digit that was written, nwhole of them
      before the point and m times four after it, the excess after the last decimal included. */
  ghost predicate Shows(text: string, neg: bool, s: seq<int>, w: int, d: nat, all: string, nwhole: nat, m: nat) {
    && m == (d + 3) / 4 && nwhole == WholeLength(s, w) && |all| == nwhole + 4 * m
    && AllDec(all) && TextValue(all) == Pre(s, w + 1 + m)
    && text == Text(neg, all[..nwhole + d], nwhole)
  }

  lemma ShowsWhole(text: string, neg: bool, s: seq<int>, w: int, whole: string)
    requires AllDec(whole) && TextValue(whole) == Pre(s, w + 1) && |whole| == WholeLength(s, w)
    requires text == (if neg then "-" else "") + whole
    ensures Shows(text, neg, s, w, 0, whole, |whole|, 0)
  {
    assert whole[..|whole|] == whole;
    assert text + "" == text;
  }

  lemma ShowsAll(text: string, neg: bool, s: seq<int>, w: int, d: nat, whole: string, digits: string, m: nat)
    requires d > 0 && AllDec(digits) && whole <= digits && |digits| == |whole| + 4 * m && m == (d + 3) / 4
    requires TextValue(digits) == Pre(s, w + 1 + m) && |whole| == WholeLength(s, w)
    requires var sign := if neg then "-" else "";
      text == (sign + whole + "." + digits[|whole|..])[..|sign| + |whole| + 1 + d]
    ensures Shows(text, neg, s, w, d, digits, |whole|, m)
  {
    CutOut(if neg then "-" else "", whole, digits, d);
  }

  /** The characters for digits s below weight w, with dscale decimals; used counts the characters of the
      buffer that were written, the terminator included. */
  method PrintDigits(neg: bool, s: seq<int>, w: int, dscale: int)
    returns (text: string, ghost d: nat, ghost all: string, ghost nwhole: nat, ghost m: nat, ghost used: nat)
    requires AllDigits(s)
    ensures d == Max(0, dscale) && Shows(text, neg, s, w, d, all, nwhole, m)
    ensures w <= 0 || (s != [] && s[0] != 0) ==> nwhole > 1 ==> all[0] != '0'
    ensures used == Used(neg, nwhole, dscale) && 2 <= |text| + 1 <= used
  {
    var whole := WholePart(s, w);
    var out := (if neg then "-" else "") + whole;
    d, all, nwhole, m := Max(0, dscale), whole, |whole|, 0;
    if dscale > 0 {
      var digits;
      digits, m := FractionPart(s, w, whole, dscale);
      all := digits;
      out := out + "." + digits[|whole|..];
      var end := (if neg then 1 else 0) + |whole| + 1 + dscale;
      text := out[..end];
      used := Max(|out|, end + 1);
      ShowsAll(text, neg, s, w, d, whole, digits, m);
    } else {
      text := out;
      used := |out| + 1;
      ShowsWhole(text, neg, s, w, whole);
    }
  }

  /** The characters written: the sign, the digits before the point, and the point and the digits after it
      in fours; and the terminator, which goes over the excess digits if there are any. */
  function Used(neg: bool, nwhole: nat, dscale: int): (n: nat) {
    (if neg then 1 else 0) + nwhole +
    if dscale > 0 then 1 + Max(4 * ((dscale + 3) / 4), dscale + 1) else 1
  }

  /** The size of the buffer that is allocated. */
  function Allocated(weight: int, dscale: int): (n: int) {
    Max(1, (weight + 1) * DEC_DIGITS) + dscale + DEC_DIGITS + 2
  }

  /** When the text fits the buffer: for a scale of -5 or less it depends on the sign and on how many digits
      stand before the point. */
  ghost predicate FitsBuffer(x: Num)
    requires x.InBuffer()
  {
    x.dscale > 0
    || x.dscale + 5 >= (if x.sign == NUMERIC_NEG then 1 else 0) + WholeLength(x.Ds(), x.weight) - Max(1, 4 * (x.weight + 1))
  }

  lemma BufferExact(x: Num, nwhole: nat, used: nat)
    requires x.InBuffer() && nwhole == WholeLength(x.Ds(), x.weight) && used == Used(x.sign == NUMERIC_NEG, nwhole, x.dscale)
    ensures used <= Allocated(x.weight, x.dscale) <==> FitsBuffer(x)
  {
  }

  /** A scale of -4 or more is always served. */
  lemma BufferEnough(x: Num)
    requires x.InBuffer() && x.dscale >= -4
    ensures FitsBuffer(x)
  {
  }

  /** Rounding a fraction at -10 decimals leaves a zero for which nothing is allocated, and two characters
      are written. */
  method BufferTooSmall(v: Numeric) returns (text: string, ghost used: nat)
    requires v.Get().Finite() && v.Get().Spare() && v.weight == -1
    modifies v, v.buf
    ensures v.Get().Finite() && !FitsBuffer(v.Get())
    ensures Allocated(v.weight, v.dscale) == 0 && used >= 2
  {
    NumericRound.RoundVar(v, -10);
    text, used := GetStrFromVar(v);
  }

  /** The text, read from its start to its end, is the number x cut off at its display scale, and shows that many
      decimals. */
  ghost predicate ShowsCut(x: Num, text: string)
    requires x.InBuffer()
  {
    var r, d := ReadLiteral(text, 0), Max(0, x.dscale);
    r.Some? && r.value.end == |text| && r.value.Value() == TruncAt(x.Value(), d) && r.value.Scale() == d
  }

  /** The text, read from its start to its end, is x. */
  ghost predicate IsPrinted(x: Num, text: string) {
    var r := ReadLiteral(text, 0);
    r.Some? && r.value.end == |text| && Denotes(x, r.value)
  }

  lemma PrintedText(x: Num, text: string, d: nat, all: string, nwhole: nat, m: nat)
    requires x.Finite() && d == Max(0, x.dscale)
    requires Shows(text, x.sign == NUMERIC_NEG, x.Ds(), x.weight, d, all, nwhole, m)
    ensures ShowsCut(x, text)
  {
    var neg, digits := x.sign == NUMERIC_NEG, all[..nwhole + d];
    Printed(x.Ds(), x.weight, d, nwhole, all, m, neg);
    TextReads(neg, digits, nwhole);
    CutSign(x, d);
  }

  /** Cutting off a value cuts off its magnitude. */
  lemma CutSign(x: Num, d: int)
    requires x.Finite()
    ensures TruncAt(x.Value(), d) == if x.sign == NUMERIC_NEG then -TruncMag(x.Magnitude(), d) else TruncMag(x.Magnitude(), d)
  {
    ValueSign(x);
    NumericDiv.ZeroRounds(d);
  }

  /** The text of a normal form denotes it. */
  lemma NormalIsShown(x: Num, text: string)
    requires x.Normal() && ShowsCut(x, text)
    ensures IsPrinted(x, text)
  {
    GridKept(x.Magnitude(), x.dscale);
    CutSign(x, x.dscale);
  }

  /** A minus sign exactly for a negative sign, digits, and, if there are decimals, a point with d digits after it. No
      zero leads, if tidy, but one before the point. */
  ghost predicate IsPlain(text: string, neg: bool, d: nat, tidy: bool) {
    var p, a := if neg then 1 else 0, if d > 0 then |text| - d - 1 else |text|;
    && p < a && (neg ==> text[0] == '-') && (d > 0 ==> text[a] == '.')
    && (forall i :: p <= i < |text| && i != a ==> IsDecimal(text[i]))
    && (tidy && a > p + 1 ==> text[p] != '0')
  }

  lemma ShownPlainly(text: string, neg: bool, d: nat, digits: string, nwhole: nat, tidy: bool)
    requires 1 <= nwhole && |digits| == nwhole + d && AllDec(digits) && text == Text(neg, digits, nwhole)
    requires tidy ==> nwhole > 1 ==> digits[0] != '0'
    ensures IsPlain(text, neg, d, tidy)
  {
    var p := if neg then 1 else 0;
    TextParts(neg, digits, nwhole, text, p, p + nwhole);
    assert forall i :: p <= i < p + nwhole ==> text[i] == text[p..p + nwhole][i - p];
    assert d > 0 ==> forall i :: p + nwhole < i < |text| ==> text[i] == text[p + nwhole + 1..|text|][i - p - nwhole - 1];
  }

  ghost predicate PlainlyShown(x: Num, text: string)
    requires x.InBuffer()
  {
    IsPlain(text, x.sign == NUMERIC_NEG, Max(0, x.dscale), x.Stripped())
  }

  lemma PrintedPlainly(x: Num, text: string, d: nat, all: string, nwhole: nat, m: nat)
    requires x.InBuffer() && d == Max(0, x.dscale)
    requires Shows(text, x.sign == NUMERIC_NEG, x.Ds(), x.weight, d, all, nwhole, m)
    requires x.weight <= 0 || (x.Ds() != [] && x.Ds()[0] != 0) ==> nwhole > 1 ==> all[0] != '0'
    ensures PlainlyShown(x, text)
  {
    assert x.n > 0 ==> x.Ds()[0] == x.b[x.lo];
    ShownPlainly(text, x.sign == NUMERIC_NEG, d, all[..nwhole + d], nwhole, x.Stripped());
  }

  /** Prints v, cut off at its display scale; used is the number of characters of the buffer that are written. */
  method GetStrFromVar(v: Numeric) returns (text: string, ghost used: nat)
    requires v.Get().Finite()
    ensures 2 <= |text| + 1 <= used && (used <= Allocated(v.weight, v.dscale) <==> FitsBuffer(v.Get()))
    ensures PlainlyShown(v.Get(), text) && ShowsCut(v.Get(), text)
    ensures v.Get().Normal() ==> IsPrinted(v.Get(), text)
  {
    var s := v.buf[..][v.digits..v.digits + v.ndigits];
    ghost var d, all, nwhole, m;
    text, d, all, nwhole, m, used := PrintDigits(v.sign == NUMERIC_NEG, s, v.weight, v.dscale);
    BufferExact(v.Get(), nwhole, used);
    PrintedText(v.Get(), text, d, all, nwhole, m);
    PrintedPlainly(v.Get(), text, d, all, nwhole, m);
    if v.Get().Normal() { NormalIsShown(v.Get(), text); }
  }

  /** The digits printed denote the magnitude cut off at d decimals. */
  lemma Printed(s: seq<int>, w: int, d: nat, nwhole: nat, all: string, m: nat, neg: bool)
    requires AllDigits(s) && m == (d + 3) / 4
    requires AllDec(all) && |all| == nwhole + 4 * m && TextValue(all) == Pre(s, w + 1 + m)
    ensures var digits := all[..nwhole + d];
      AllDec(digits) && TextLiteral(neg, digits, nwhole).Magnitude() == TruncMag(Mag(s, w), d)
  {
    var j, digits := 4 * m - d, all[..nwhole + d];
    PrintedCut(s, w, m);
    CutText(all, j);
    assert all[..|all| - j] == digits;
    CutDigits(Mag(s, w), 4 * m, d, j, TextValue(all), TextValue(digits));
    TextLiteralMag(neg, digits, nwhole, TruncMag(Mag(s, w), d));
  }

  /** Reading the printed text of a normal form gives the same digits, weight, sign and scale. */
  method ThroughText(v: Numeric) returns (w: Numeric, end: Option<nat>, text: string)
    requires v.Get().Normal()
    ensures end == Some(|text|) && w.Get().InBuffer() && w.Get().Same(v.Get())
  {
    ghost var used;
    text, used := GetStrFromVar(v);
    w := new Numeric();
    end := SetVarFromStr(text, 0, w);
    NormalUnique(w.Get(), v.Get());
  }
}
