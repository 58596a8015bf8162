/** Reading numeric variables from text (set_var_from_str, and the constructor from text). */
module NumericText {
  import opened Basics
  import opened Radix
  import opened Decimal
  import opened DecimalText
  import opened Numerics

  /** The mantissa at p: digits p..a, then, if there is a point at a, digits a+1..b. */
  ghost predicate IsMantissa(s: string, p: nat, a: nat, b: nat) {
    && p <= a <= b <= |s|
    && (forall j :: p <= j < a ==> IsDecimal(s[j]))
    && (forall j :: a < j < b ==> IsDecimal(s[j]))
    && (a < b ==> s[a] == '.')
  }

  /** The digits of a mantissa, the point left out. */
  ghost function MantissaDigits(s: string, p: nat, a: nat, b: nat): (d: seq<int>)
    requires IsMantissa(s, p, a, b)
    ensures |d| == if a < b then b - p - 1 else b - p
  {
    DigitValues(s, p, a) + if a < b then DigitValues(s, a + 1, b) else []
  }

  /** One more digit before the point. */
  lemma WholeGrows(s: string, p: nat, b: nat)
    requires b < |s| && IsMantissa(s, p, b, b) && IsDecimal(s[b])
    ensures IsMantissa(s, p, b + 1, b + 1)
    ensures MantissaDigits(s, p, b + 1, b + 1) == MantissaDigits(s, p, b, b) + [DecimalValue(s[b])]
  {
  }

  /** One more digit after the point. */
  lemma FractionGrows(s: string, p: nat, a: nat, b: nat)
    requires a < b < |s| && IsMantissa(s, p, a, b) && IsDecimal(s[b])
    ensures IsMantissa(s, p, a, b + 1)
    ensures MantissaDigits(s, p, a, b + 1) == MantissaDigits(s, p, a, b) + [DecimalValue(s[b])]
  {
    var d := DigitValues(s, a + 1, b);
    assert DigitValues(s, a + 1, b + 1) == d + [DecimalValue(s[b])];
    Regroup(DigitValues(s, p, a), d, [DecimalValue(s[b])]);
  }

  /** The point. */
  lemma PointRead(s: string, p: nat, b: nat)
    requires b < |s| && IsMantissa(s, p, b, b) && s[b] == '.'
    ensures IsMantissa(s, p, b, b + 1) && MantissaDigits(s, p, b, b + 1) == MantissaDigits(s, p, b, b)
  {
    assert DigitValues(s, b + 1, b + 1) == [];
  }

  /** dec holds four zeros and then the digits d. */
  ghost predicate HoldsDigits(dec: seq<int>, d: seq<int>) {
    && DEC_DIGITS + |d| <= |dec|
    && (forall k :: 0 <= k < DEC_DIGITS ==> dec[k] == 0)
    && (forall k :: 0 <= k < |d| ==> dec[DEC_DIGITS + k] == d[k])
  }

  method PushDigit(dec: array<int>, n: nat, v: int, ghost d: seq<int>)
    requires HoldsDigits(dec[..], d) && |d| == n && DEC_DIGITS + n < dec.Length
    modifies dec
    ensures HoldsDigits(dec[..], d + [v])
  {
    ghost var c := dec[..];
    dec[DEC_DIGITS + n] := v;
    assert dec[..] == c[DEC_DIGITS + n := v];
  }

  /** Where the mantissa loop stands: p..end has been read, the point, if any, being at a, and dec holds the
      digits. */
  datatype Position = Position(s: string, p: nat, a: nat, end: nat, point: bool, dec: seq<int>) {
    ghost predicate Valid() {
      && IsMantissa(s, p, a, end) && (if point then a < end else a == end)
      && HoldsDigits(dec, MantissaDigits(s, p, a, end))
    }

    ghost function Decimals(): (n: int) {
      if point then end - a - 1 else 0
    }
  }

  type Scan = x: Position | x.Valid() ghost witness Position("", 0, 0, 0, false, [0, 0, 0, 0])

  ghost function Found(x: Scan): (d: seq<int>)
    ensures |d| == x.a - x.p + x.Decimals()
  {
    MantissaDigits(x.s, x.p, x.a, x.end)
  }

  /** The position after a mantissa. */
  ghost function ScanOf(s: string, p: nat, a: nat, end: nat, point: bool): (x: Scan)
    requires IsMantissa(s, p, a, end) && (if point then a < end else a == end)
    ensures x.s == s && x.p == p && x.a == a && x.end == end && x.point == point
  {
    Position(s, p, a, end, point, [0, 0, 0, 0] + MantissaDigits(s, p, a, end))
  }

  lemma ScanStart(s: string, p: nat, lead: bool, dec: seq<int>)
    requires p <= |s| && (lead ==> At(s, p) == '.') && DEC_DIGITS <= |dec|
    requires forall k :: 0 <= k < DEC_DIGITS ==> dec[k] == 0
    ensures Position(s, p, p, if lead then p + 1 else p, lead, dec).Valid()
  {
  }

  /** The point is read. */
  lemma ScanPoint(x: Scan)
    requires x.end < |x.s| && x.s[x.end] == '.' && !x.point
    ensures x.(end := x.end + 1, point := true).Valid()
  {
    PointRead(x.s, x.p, x.end);
  }

  /** A digit is read and stored. */
  lemma ScanDigit(x: Scan, dec: seq<int>)
    requires x.end < |x.s| && IsDecimal(x.s[x.end]) && HoldsDigits(dec, Found(x) + [DecimalValue(x.s[x.end])])
    ensures x.(a := if x.point then x.a else x.a + 1, end := x.end + 1, dec := dec).Valid()
  {
    if x.point { FractionGrows(x.s, x.p, x.a, x.end); } else { WholeGrows(x.s, x.p, x.end); }
  }

  /** Reads digits and at most one point from p on, a leading point being given; a second point is an
      error. */
  method ScanMantissa(s: string, p: nat, lead: bool, dec: array<int>)
    returns (ok: bool, end: nat, nwhole: nat, nfrac: nat, ghost x: Scan)
    requires p <= |s| && (lead ==> At(s, p) == '.') && dec.Length >= |s| - p + 2 * DEC_DIGITS
    requires forall k :: 0 <= k < DEC_DIGITS ==> dec[k] == 0
    modifies dec
    ensures x.s == s && x.p == p && x.end == end && !IsDecimal(At(s, end)) && (lead ==> x.a == p && x.point)
    ensures if ok then At(s, end) != '.' else x.point && At(s, end) == '.'
    ensures nwhole == x.a - p && nfrac == x.Decimals() && dec[..] == x.dec
  {
    var havePoint := lead;
    end, nwhole, nfrac := if lead then p + 1 else p, 0, 0;
    ScanStart(s, p, lead, dec[..]);
    x := Position(s, p, p, end, lead, dec[..]);
    while end < |s|
      invariant x.s == s && x.p == p && x.end == end && x.point == havePoint && (lead ==> x.a == p && havePoint)
      invariant nwhole == x.a - p && nfrac == x.Decimals() && dec[..] == x.dec
    {
      if IsDecimal(s[end]) {
        PushDigit(dec, nwhole + nfrac, DecimalValue(s[end]), Found(x));
        ScanDigit(x, dec[..]);
        x := x.(a := if x.point then x.a else x.a + 1, end := x.end + 1, dec := dec[..]);
        if havePoint { nfrac := nfrac + 1; } else { nwhole := nwhole + 1; }
      } else if s[end] == '.' {
        if havePoint { return false, end, nwhole, nfrac, x; }
        ScanPoint(x);
        x := x.(end := x.end + 1, point := true);
        havePoint := true;
      } else {
        break;
      }
      end := end + 1;
    }
    ok := true;
  }

  lemma DigitAppended(s: string, q: nat, e: nat)
    requires q <= e < |s| && forall j :: q <= j <= e ==> IsDecimal(s[j])
    ensures Dec(DigitValues(s, q, e + 1), 0, e + 1 - q) == Dec(DigitValues(s, q, e), 0, e - q) * 10 + DecimalValue(s[e])
  {
    var d, d' := DigitValues(s, q, e), DigitValues(s, q, e + 1);
    DecMoved(d, 0, e - q, d', 0);
    assert d'[e - q] == DecimalValue(s[e]);
  }

  /** Reads decimal digits to their end. */
  method ReadDigits(s: string, q: nat) returns (n: int, e: nat)
    requires q <= |s|
    ensures e == DigitsEnd(s, q) && var d := DigitValues(s, q, e); n == Dec(d, 0, |d|)
  {
    e, n := q, 0;
    while e < |s| && IsDecimal(s[e])
      invariant q <= e <= |s| && (forall j :: q <= j < e ==> IsDecimal(s[j]))
      invariant n == Dec(DigitValues(s, q, e), 0, e - q)
    {
      DigitAppended(s, q, e);
      n := n * 10 + DecimalValue(s[e]);
      e := e + 1;
    }
    DigitsEndIs(s, q, e);
  }

  /** The first place at or after i that is not blank. */
  method SkipSpaces(s: string, i: nat) returns (p: nat)
    requires i <= |s|
    ensures p == SpacesEnd(s, i)
  {
    p := i;
    while p < |s| && IsSpace(s[p])
      invariant i <= p <= |s| && SpacesEnd(s, p) == SpacesEnd(s, i)
    {
      p := p + 1;
    }
  }

  /** Reads a long in base ten, as strtol does. */
  method ReadLong(s: string, i: nat) returns (r: Option<(int, nat)>)
    requires i <= |s|
    ensures r == ReadInteger(s, i)
  {
    var p := SkipSpaces(s, i);
    var q := if At(s, p) == '+' || At(s, p) == '-' then p + 1 else p;
    if !IsDecimal(At(s, q)) { return None; }
    var n, e := ReadDigits(s, q);
    return Some((if At(s, p) == '-' then -n else n, e));
  }

  method ReadExp(s: string, i: nat) returns (r: Option<(int, nat)>)
    requires i <= |s|
    ensures r == ReadExponent(s, i)
  {
    if At(s, i) != 'e' && At(s, i) != 'E' { return Some((0, i)); }
    r := ReadLong(s, i + 1);
    if r.Some? && (r.value.0 >= EXPONENT_LIMIT || r.value.0 <= -EXPONENT_LIMIT) { r := None; }
  }

  /** The weight of the NBASE digit that holds the decimal digit of weight dweight. */
  function WeightOf(dweight: int): (w: int)
    ensures 4 * w <= dweight < 4 * w + 4
  {
    if dweight >= 0 then (dweight + 1 + DEC_DIGITS - 1) / DEC_DIGITS - 1
    else -((-dweight - 1) / DEC_DIGITS + 1)
  }

  /** Packs decimal digits four by four into the digits after the spare place of res. */
  method PackDigits(dec: array<int>, start: nat, res: array<int>)
    requires dec != res && res.Length >= 1 && start + 4 * (res.Length - 1) <= dec.Length
    requires forall i :: start <= i < start + 4 * (res.Length - 1) ==> 0 <= dec[i] <= 9
    modifies res
    ensures res[0] == old(res[0]) && DigitsIn(res[..], 1, res.Length)
    ensures Seg(res[..], 1, res.Length) == Dec(dec[..], start, start + 4 * (res.Length - 1))
  {
    ghost var b := dec[..];
    var n, k, i := res.Length - 1, 0, start;
    while k < n
      invariant 0 <= k <= n && i == start + 4 * k && dec[..] == b
      invariant res[0] == old(res[0]) && DigitsIn(res[..], 1, 1 + k)
      invariant Seg(res[..], 1, 1 + k) == Dec(b, start, i)
    {
      ghost var c := res[..];
      res[1 + k] := ((dec[i] * 10 + dec[i + 1]) * 10 + dec[i + 2]) * 10 + dec[i + 3];
      SegSame(c, res[..], 1, 1 + k);
      FourDigits(b, start, i);
      i, k := i + 4, k + 1;
    }
  }

  lemma FourDigits(b: seq<int>, lo: nat, i: nat)
    requires lo <= i && i + 4 <= |b|
    ensures Dec(b, lo, i + 4) == Dec(b, lo, i) * NBASE + (((b[i] * 10 + b[i + 1]) * 10 + b[i + 2]) * 10 + b[i + 3])
  {
    assert Dec(b, lo, i + 2) == (Dec(b, lo, i) * 10 + b[i]) * 10 + b[i + 1];
  }

  lemma {:induction false} DecTrailingZeros(b: seq<int>, lo: nat, hi: nat, z: nat)
    requires lo <= hi && hi + z <= |b| && forall i :: hi <= i < hi + z ==> b[i] == 0
    ensures Dec(b, lo, hi + z) == Dec(b, lo, hi) * TenNat(z)
  {
    if z > 0 {
      DecTrailingZeros(b, lo, hi, z - 1);
      TimesTen(Dec(b, lo, hi), TenNat(z - 1));
    }
  }

  /** dec is four zeros, the digits d, and three more zeros. */
  ghost predicate IsPadded(dec: seq<int>, d: seq<int>) {
    && HoldsDigits(dec, d) && DEC_DIGITS + |d| + 3 <= |dec|
    && (forall k :: DEC_DIGITS + |d| <= k < DEC_DIGITS + |d| + 3 ==> dec[k] == 0)
  }

  lemma PaddedDec(dec: seq<int>, d: seq<int>, offset: nat, z: nat)
    requires IsPadded(dec, d) && offset <= 4 && z <= 3
    ensures Dec(dec, 4 - offset, 4 + |d| + z) == Dec(d, 0, |d|) * TenNat(z)
  {
    DecTrailingZeros(dec, 4 - offset, 4 + |d|, z);
    DecLeadingZeros(dec, 4 - offset, 4, 4 + |d|);
    DecMoved(d, 0, |d|, dec, 4);
  }

  /** The packed digits hold the literal's magnitude, aligned on NBASE digits. */
  lemma PackedMag(r: Num, dec: seq<int>, d: seq<int>, dweight: int, offset: nat)
    requires IsPadded(dec, d) && r.InBuffer() && r.lo == 1 && |r.b| == 1 + r.n && DigitsIn(r.b, 1, 1 + r.n)
    requires r.weight == WeightOf(dweight) && offset == (r.weight + 1) * 4 - (dweight + 1)
    requires r.n == (|d| + offset + 3) / 4
    requires 4 - offset + 4 * r.n <= |dec| && Seg(r.b, 1, 1 + r.n) == Dec(dec, 4 - offset, 4 - offset + 4 * r.n)
    ensures r.Sound() && r.Magnitude() == Shift(Dec(d, 0, |d|) as real, dweight + 1 - |d|)
  {
    var z := 4 * r.n - offset - |d|;
    var e, x := 4 * (r.weight + 1 - r.n), Dec(d, 0, |d|);
    MagOfSeg(r, 1, 1 + r.n, e);
    assert 4 - offset + 4 * r.n == 4 + |d| + z;
    PaddedDec(dec, d, offset, z);
    ShiftTenNat(x, z);
    ShiftAdd(x as real, z, e);
    assert z + e == dweight + 1 - |d|;
  }

  /** Where the mantissa of a literal ends, the digits before the point and after it being maximal. */
  lemma MantissaEnds(x: Scan, lead: bool)
    requires !IsDecimal(At(x.s, x.end)) && (lead ==> x.a == x.p && x.point)
    ensures !lead ==> DigitsEnd(x.s, x.p) == x.a
    ensures x.point ==> At(x.s, x.a) == '.' && DigitsEnd(x.s, x.a + 1) == x.end
    ensures !x.point ==> x.a == x.end
  {
    if !lead { DigitsEndIs(x.s, x.p, x.a); }
    if x.point { DigitsEndIs(x.s, x.a + 1, x.end); }
  }

  /** What the scan found is the mantissa of the literal. */
  lemma ScannedLiteral(x: Scan, cp: nat, lead: bool)
    requires cp <= |x.s| && x.p == (if At(x.s, cp) == '+' || At(x.s, cp) == '-' then cp + 1 else cp)
    requires lead == (At(x.s, x.p) == '.') && IsDecimal(At(x.s, if lead then x.p + 1 else x.p))
    requires !IsDecimal(At(x.s, x.end)) && (lead ==> x.a == x.p && x.point) && (At(x.s, x.end) != '.' || x.point)
    ensures ReadLiteral(x.s, cp) ==
      if At(x.s, x.end) == '.' then None else LiteralAt(x.s, At(x.s, cp) == '-', x.p, x.a, x.end)
  {
    MantissaEnds(x, lead);
  }

  /** Its digits and counts. */
  lemma LiteralParts(x: Scan, neg: bool)
    ensures var l, e := LiteralAt(x.s, neg, x.p, x.a, x.end), ReadExponent(x.s, x.end);
      if e.None? then l.None? else
        l.Some? && CountsOf(Counts(neg, x.a - x.p, x.Decimals(), e.value.0, e.value.1), l.value) && l.value.Digits() == Found(x)
  {
  }

  /** A literal's magnitude shows no more decimals than its scale. */
  lemma LiteralOnGrid(l: Literal)
    ensures OnGrid(l.Magnitude(), l.Scale())
  {
    var x, e, d := Dec(l.Digits(), 0, |l.Digits()|), l.exponent - |l.frac|, l.Scale();
    ShiftAdd(x as real, e, d);
    ShiftTenNat(x, e + d);
    IntegerIs(Shift(l.Magnitude(), d), x * TenNat(e + d));
  }

  method Clear(a: array<int>, lo: nat, n: nat)
    requires lo + n <= a.Length
    modifies a
    ensures forall i :: 0 <= i < a.Length ==> a[i] == if lo <= i < lo + n then 0 else old(a[i])
  {
    forall i | lo <= i < lo + n { a[i] := 0; }
  }

  /** Packs the digits d, of which the first has decimal weight dweight. */
  method PackLiteral(dec: array<int>, ghost d: seq<int>, ndec: nat, dweight: int, neg: bool, dscale: int, dest: Numeric,
                     ghost e: int)
    requires IsPadded(dec[..], d) && AllDecimal(d) && |d| == ndec && e == dweight + 1 - |d|
    modifies dest
    ensures fresh(dest.buf) && dest.Get().Finite() && dest.dscale == dscale
    ensures dest.sign == if neg then NUMERIC_NEG else NUMERIC_POS
    ensures dest.Get().Magnitude() == Shift(Dec(d, 0, |d|) as real, e)
  {
    var weight := WeightOf(dweight);
    var offset := (weight + 1) * DEC_DIGITS - (dweight + 1);
    var n := (ndec + offset + DEC_DIGITS - 1) / DEC_DIGITS;
    AllocVar(dest, n);
    PaddedDecimal(dec[..], d);
    PackDigits(dec, DEC_DIGITS - offset, dest.buf);
    ghost var b := dest.buf[..];
    dest.sign, dest.weight, dest.dscale := if neg then NUMERIC_NEG else NUMERIC_POS, weight, dscale;
    assert dest.buf[..] == b;
    PackedMag(dest.Get(), dec[..], d, dweight, offset);
  }

  /** dest := the literal l, whose digits are in dec and whose first digit has decimal weight dweight. */
  method LoadLiteral(dec: array<int>, ghost l: Literal, ndec: nat, dweight: int, neg: bool, dscale: int, dest: Numeric)
    requires IsPadded(dec[..], l.Digits()) && AllDecimal(l.Digits()) && |l.Digits()| == ndec
    requires l.exponent - |l.frac| == dweight + 1 - ndec && neg == l.neg && dscale == l.Scale()
    modifies dest
    ensures fresh(dest.buf) && Denotes(dest.Get(), l)
  {
    ghost var e := l.exponent - |l.frac|;
    PackLiteral(dec, l.Digits(), ndec, dweight, neg, dscale, dest, e);
    assert dest.Get().Magnitude() == l.Magnitude();
    StripVar(dest);
    LoadedDenotes(dest.Get(), l);
  }

  lemma PaddedDecimal(dec: seq<int>, d: seq<int>)
    requires IsPadded(dec, d) && AllDecimal(d)
    ensures forall i :: 0 <= i < DEC_DIGITS + |d| + 3 ==> 0 <= dec[i] <= 9
  {
    forall i | 0 <= i < DEC_DIGITS + |d| + 3 ensures 0 <= dec[i] <= 9 {
      if DEC_DIGITS <= i < DEC_DIGITS + |d| { assert dec[DEC_DIGITS + (i - DEC_DIGITS)] == d[i - DEC_DIGITS]; }
    }
  }

  /** The mantissa loop with its padding on both sides. */
  method ScanPadded(s: string, p: nat, lead: bool)
    returns (ok: bool, end: nat, nwhole: nat, nfrac: nat, dec: array<int>, ghost x: Scan)
    requires p <= |s| && (lead ==> At(s, p) == '.')
    ensures fresh(dec) && x.s == s && x.p == p && x.end == end && !IsDecimal(At(s, end)) && (lead ==> x.a == p && x.point)
    ensures if ok then At(s, end) != '.' else x.point && At(s, end) == '.'
    ensures nwhole == x.a - p && nfrac == x.Decimals() && IsPadded(dec[..], Found(x))
  {
    dec := new int[|s| - p + 2 * DEC_DIGITS];
    Clear(dec, 0, DEC_DIGITS);
    ok, end, nwhole, nfrac, x := ScanMantissa(s, p, lead, dec);
    Clear(dec, DEC_DIGITS + nwhole + nfrac, DEC_DIGITS - 1);
  }

  lemma MantissaDecimal(s: string, p: nat, a: nat, b: nat)
    requires IsMantissa(s, p, a, b)
    ensures AllDecimal(MantissaDigits(s, p, a, b))
  {
  }

  /** The counts the reader takes from a literal. */
  datatype Counts = Counts(neg: bool, nwhole: nat, nfrac: nat, exponent: int, end: nat)

  ghost predicate CountsOf(c: Counts, l: Literal) {
    c == Counts(l.neg, |l.whole|, |l.frac|, l.exponent, l.end)
  }

  /** Reads the literal at cp: its digits, padded for packing, and its counts. */
  method ScanLiteral(s: string, cp: nat) returns (r: Option<Counts>, dec: array<int>)
    requires cp <= |s|
    ensures fresh(dec) && (r.None? <==> ReadLiteral(s, cp).None?)
    ensures r.Some? ==> var l := ReadLiteral(s, cp).value;
      CountsOf(r.value, l) && IsPadded(dec[..], l.Digits()) && AllDecimal(l.Digits())
  {
    var p := if At(s, cp) == '+' || At(s, cp) == '-' then cp + 1 else cp;
    var lead := At(s, p) == '.';
    if IsDecimal(At(s, if lead then p + 1 else p)) {
      r, dec := ScanRest(s, cp, p, lead);
    } else {
      r, dec := None, new int[0];
    }
  }

  /** Reads the literal whose mantissa starts at p. */
  method ScanRest(s: string, cp: nat, p: nat, lead: bool) returns (r: Option<Counts>, dec: array<int>)
    requires cp <= |s| && p == (if At(s, cp) == '+' || At(s, cp) == '-' then cp + 1 else cp)
    requires lead == (At(s, p) == '.') && IsDecimal(At(s, if lead then p + 1 else p))
    ensures fresh(dec) && (r.None? <==> ReadLiteral(s, cp).None?)
    ensures r.Some? ==> var l := ReadLiteral(s, cp).value;
      CountsOf(r.value, l) && IsPadded(dec[..], l.Digits()) && AllDecimal(l.Digits())
  {
    ghost var x: Scan;
    var ok, e, nwhole, nfrac;
    ok, e, nwhole, nfrac, dec, x := ScanPadded(s, p, lead);
    ScannedLiteral(x, cp, lead);
    LiteralParts(x, At(s, cp) == '-');
    MantissaDecimal(s, p, x.a, e);
    r := None;
    if ok {
      var exp := ReadExp(s, e);
      if exp.Some? { r := Some(Counts(At(s, cp) == '-', nwhole, nfrac, exp.value.0, exp.value.1)); }
    }
  }

  /** r is the literal l in normal form. */
  ghost predicate Denotes(r: Num, l: Literal) {
    r.Normal() && r.Value() == l.Value() && r.dscale == l.Scale()
  }

  lemma LoadedDenotes(r: Num, l: Literal)
    requires r.Finite() && r.Stripped() && r.dscale == l.Scale() && r.Magnitude() == l.Magnitude()
    requires r.Value() == if l.neg then -r.Magnitude() else r.Magnitude()
    ensures Denotes(r, l)
  {
    LiteralOnGrid(l);
  }

  /** Reads the literal at cp into dest; returns the place after it, or none if it is malformed. */
  method SetVarFromStr(s: string, cp: nat, dest: Numeric) returns (end: Option<nat>)
    requires cp <= |s|
    modifies dest
    ensures end.None? <==> ReadLiteral(s, cp).None?
    ensures end.None? ==> dest.Get() == old(dest.Get())
    ensures end.Some? ==> var l := ReadLiteral(s, cp).value; end.value == l.end && Denotes(dest.Get(), l)
    ensures dest.buf == old(dest.buf) || fresh(dest.buf)
  {
    var r, dec := ScanLiteral(s, cp);
    if r.None? { return None; }
    var c := r.value;
    ghost var l := ReadLiteral(s, cp).value;
    LoadLiteral(dec, l, c.nwhole + c.nfrac, c.nwhole - 1 + c.exponent, c.neg, Max(0, c.nfrac - c.exponent), dest);
    return Some(c.end);
  }

  /** The text starts with "NaN", in any case. */
  predicate StartsNaN(s: string, i: nat) {
    i + 3 <= |s| && s[i] in "nN" && s[i + 1] in "aA" && s[i + 2] in "nN"
  }

  /** The literal ends within the text. */
  lemma LiteralEnds(s: string, cp: nat)
    requires cp <= |s| && ReadLiteral(s, cp).Some?
    ensures ReadLiteral(s, cp).value.end <= |s|
  {
  }

  lemma NaNIsNoLiteral(s: string, i: nat)
    requires StartsNaN(s, i)
    ensures ReadLiteral(s, i).None?
  {
    assert At(s, i) == s[i];
  }

  /** Reads the number at cp, which blanks may follow; NaN if it is malformed or something else follows. */
  method ReadNumber(s: string, cp: nat, v: Numeric)
    requires cp == SpacesEnd(s, 0)
    modifies v
    ensures v.sign == NUMERIC_NAN <==> ReadText(s).None?
    ensures ReadText(s).Some? ==> Denotes(v.Get(), ReadText(s).value)
    ensures v.buf == old(v.buf) || fresh(v.buf)
  {
    var end := SetVarFromStr(s, cp, v);
    if end.None? {
      v.sign := NUMERIC_NAN;
      return;
    }
    LiteralEnds(s, cp);
    var rest := SkipSpaces(s, end.value);
    if rest < |s| { v.sign := NUMERIC_NAN; }
  }

  /** A variable from a text: the number it denotes, blanks around it allowed, and NaN for every other text. */
  method FromText(s: string) returns (v: Numeric)
    ensures fresh(v) && fresh(v.buf)
    ensures v.sign == NUMERIC_NAN <==> ReadText(s).None?
    ensures ReadText(s).Some? ==> Denotes(v.Get(), ReadText(s).value)
  {
    v := new Numeric();
    var cp := SkipSpaces(s, 0);
    if StartsNaN(s, cp) {
      NaNIsNoLiteral(s, cp);
      v.sign := NUMERIC_NAN;
    } else {
      ReadNumber(s, cp, v);
    }
  }

  /** The text of zero. */
  lemma ZeroText()
    ensures ReadText("0").Some? && ReadText("0").value.Value() == 0.0 && ReadText("0").value.Scale() == 0
  {
    var s := "0";
    assert At(s, 0) == '0' && At(s, 1) == '\0';
    ScannedLiteral(ScanOf(s, 0, 1, 1, false), 0, false);
    LiteralParts(ScanOf(s, 0, 1, 1, false), false);
    ZeroLiteral(ReadLiteral(s, 0).value);
  }

  lemma ZeroLiteral(l: Literal)
    requires l.Digits() == [0] && l.frac == [] && l.exponent == 0
    ensures l.Value() == 0.0 && l.Scale() == 0
  {
    assert Dec([0], 0, 1) == 0;
    ShiftZero(0);
  }
}
