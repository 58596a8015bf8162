/** Ranges on the wire (the parameter encoders and decoders of int4range, int8range and numrange). */
module WireRange {
  import opened Basics
  import opened Numerics
  import opened Wire
  import Radix

  /** Bit k of the flags, seen in two's complement; p is 2^k. */
  predicate BitSet(f: int, p: int)
    requires p > 0
  {
    f / p % 2 == 1
  }

  /** The flags say that the lower bound is there: not empty, not infinite, not null. */
  predicate HasLower(f: int) {
    !BitSet(f, 0x01) && !BitSet(f, 0x08) && !BitSet(f, 0x20)
  }

  predicate HasUpper(f: int) {
    !BitSet(f, 0x01) && !BitSet(f, 0x10) && !BitSet(f, 0x40)
  }

  /** The bounds present depend on the low eight bits alone, so on what the flag byte keeps. */
  lemma LowBitsDecide(f: int, g: int)
    requires f % 256 == g % 256
    ensures HasLower(f) == HasLower(g) && HasUpper(f) == HasUpper(g)
  {
    SameBit(f, g, 0x01, 128);
    SameBit(f, g, 0x08, 16);
    SameBit(f, g, 0x10, 8);
    SameBit(f, g, 0x20, 4);
    SameBit(f, g, 0x40, 2);
  }

  /** Adding a multiple of 256 leaves the bit of value p, where 256 is a multiple of 2p. */
  lemma SameBit(f: int, g: int, p: int, c: int)
    requires f % 256 == g % 256 && p > 0 && 256 == 2 * c * p
    ensures BitSet(f, p) == BitSet(g, p)
  {
    var k, q, r := f / 256 - g / 256, g / p, g % p;
    assert f == g + 256 * k && g == q * p + r;
    Multiplied(k, c, p, q);
    Quotient(f, p, q + 2 * (c * k), r);
    Parity(q, c * k);
  }

  lemma Quotient(f: int, p: int, q: int, r: int)
    requires p > 0 && f == q * p + r && 0 <= r < p
    ensures f / p == q
  {
    Radix.DivModIs(f, p, q, r);
  }

  lemma Parity(q: int, m: int)
    ensures (q + 2 * m) % 2 == q % 2
  {
  }

  lemma Multiplied(k: int, c: int, p: int, q: int)
    requires 256 == 2 * c * p
    ensures (q + 2 * (c * k)) * p == q * p + 256 * k
  {
    assert 2 * (c * k) * p == (2 * c * p) * k;
  }

  // ---- the flags by name

  /** The flags of a range. */
  datatype Flags = Flags(empty: bool, lbInc: bool, ubInc: bool, lbInf: bool, ubInf: bool, lbNull: bool, ubNull: bool,
                         containEmpty: bool) {
    /** As the flag byte holds them. */
    function Value(): (f: byte) {
      One(empty) + 2 * One(lbInc) + 4 * One(ubInc) + 8 * One(lbInf) + 16 * One(ubInf) + 32 * One(lbNull)
      + 64 * One(ubNull) + 128 * One(containEmpty)
    }

    predicate Lower() {
      !empty && !lbInf && !lbNull
    }

    predicate Upper() {
      !empty && !ubInf && !ubNull
    }
  }

  /** A bound is there exactly if the range is not empty, and that bound neither infinite nor null. */
  lemma FlagsDecide(f: int, x: Flags)
    requires f % 256 == x.Value()
    ensures (HasLower(f) <==> x.Lower()) && (HasUpper(f) <==> x.Upper())
  {
    LowBitsDecide(f, x.Value());
    BitsDecide(x.Value(), One(x.empty), One(x.lbInc), One(x.ubInc), One(x.lbInf), One(x.ubInf), One(x.lbNull), One(x.ubNull),
      One(x.containEmpty));
  }

  function One(b: bool): (n: nat)
    ensures n <= 1
  {
    if b then 1 else 0
  }

  lemma BitsDecide(v: int, a: nat, b: nat, c: nat, d: nat, e: nat, g: nat, h: nat, i: nat)
    requires a <= 1 && b <= 1 && c <= 1 && d <= 1 && e <= 1 && g <= 1 && h <= 1 && i <= 1
    requires v == a + 2 * b + 4 * c + 8 * d + 16 * e + 32 * g + 64 * h + 128 * i
    ensures (BitSet(v, 0x01) <==> a == 1) && (BitSet(v, 0x08) <==> d == 1) && (BitSet(v, 0x10) <==> e == 1)
    ensures (BitSet(v, 0x20) <==> g == 1) && (BitSet(v, 0x40) <==> h == 1)
  {
    var lo := a + 2 * b + 4 * c;
    BitOf(v, 0x01, 0, a, b + 2 * c + 4 * d + 8 * e + 16 * g + 32 * h + 64 * i);
    BitOf(v, 0x08, lo, d, e + 2 * g + 4 * h + 8 * i);
    BitOf(v, 0x10, lo + 8 * d, e, g + 2 * h + 4 * i);
    BitOf(v, 0x20, lo + 8 * d + 16 * e, g, h + 2 * i);
    BitOf(v, 0x40, lo + 8 * d + 16 * e + 32 * g, h, i);
  }

  /** The bit of value p is d. */
  lemma BitOf(v: int, p: int, low: int, d: int, high: int)
    requires p > 0 && 0 <= low < p && 0 <= d <= 1 && v == low + p * (d + 2 * high)
    ensures BitSet(v, p) <==> d == 1
  {
    Radix.DivModIs(v, p, d + 2 * high, low);
  }

  ghost function BoundBytes(present: bool, payload: seq<byte>): (b: seq<byte>) {
    if present then IntBytes(|payload|, 4) + payload else []
  }

  /** A range on the wire: the flag byte, and each bound that is there with its length before it. */
  ghost function RangeBytes(f: int, lb: seq<byte>, ub: seq<byte>): (b: seq<byte>) {
    IntBytes(f, 1) + BoundBytes(HasLower(f), lb) + BoundBytes(HasUpper(f), ub)
  }

  /** A range with its flags by name: one byte, and each bound that is there, behind its length in four bytes. */
  ghost function Layout(x: Flags, lb: seq<byte>, ub: seq<byte>): (b: seq<byte>) {
    [x.Value()] + (if x.Lower() then IntBytes(|lb|, 4) + lb else []) + (if x.Upper() then IntBytes(|ub|, 4) + ub else [])
  }

  /** What is sent, whatever the flags. */
  lemma LayoutIs(f: int, lb: seq<byte>, ub: seq<byte>)
    ensures forall x: Flags :: f % 256 == x.Value() ==> RangeBytes(f, lb, ub) == Layout(x, lb, ub)
  {
    assert IntBytes(f / 256, 0) == [] && IntBytes(f, 1) == [f % 256];
    forall x: Flags | f % 256 == x.Value() ensures RangeBytes(f, lb, ub) == Layout(x, lb, ub) {
      FlagsDecide(f, x);
    }
  }

  lemma RangeParts(b: seq<byte>, f: int, lb: seq<byte>, ub: seq<byte>)
    requires b == RangeBytes(f, lb, ub)
    ensures |b| >= 1 && b[0] == f % 256
    ensures At(b, 1, BoundBytes(HasLower(f), lb))
    ensures At(b, 1 + |BoundBytes(HasLower(f), lb)|, BoundBytes(HasUpper(f), ub))
    ensures |b| == 1 + |BoundBytes(HasLower(f), lb)| + |BoundBytes(HasUpper(f), ub)|
  {
    var p, q := BoundBytes(HasLower(f), lb), BoundBytes(HasUpper(f), ub);
    assert IntBytes(f / 256, 0) == [] && IntBytes(f, 1) == [f % 256];
    ThreeParts(b, IntBytes(f, 1), p, q);
    assert b[0] == b[..1][0];
  }

  // ---- ranges of numerics

  method PutNumericBound(buf: array<byte>, out: nat, r: Num, ghost done: seq<byte>) returns (end: nat)
    requires r.InBuffer() && out + 4 + 2 * (4 + r.n) <= buf.Length && buf[..out] == done
    modifies buf
    ensures end == out + 4 + 2 * (4 + r.n) && buf[..end] == done + BoundBytes(true, NumericBytes(r))
  {
    var len := 2 * (4 + r.n);
    end := PutInt(buf, out, len, 4, done);
    end := PutNumeric(buf, end, r, done + IntBytes(len, 4));
    Regroup(done, IntBytes(len, 4), NumericBytes(r));
  }

  /** The parameter of a range: a buffer of exactly the bytes it needs. */
  method EncodeNumRange(flags: int, lb: Numeric, ub: Numeric) returns (val: array<byte>)
    requires lb.Get().InBuffer() && ub.Get().InBuffer()
    ensures fresh(val) && val[..] == RangeBytes(flags, NumericBytes(lb.Get()), NumericBytes(ub.Get()))
    ensures forall x: Flags :: flags % 256 == x.Value() ==>
      val[..] == Layout(x, NumericBytes(lb.Get()), NumericBytes(ub.Get()))
  {
    LayoutIs(flags, NumericBytes(lb.Get()), NumericBytes(ub.Get()));
    var r := Fields(lb);
    var s := Fields(ub);
    var len := 1;
    if HasLower(flags) { len := len + 4 + 2 * (4 + r.n); }
    if HasUpper(flags) { len := len + 4 + 2 * (4 + s.n); }
    val := new byte[len];
    ghost var p, q := BoundBytes(HasLower(flags), NumericBytes(r)), BoundBytes(HasUpper(flags), NumericBytes(s));
    var out := PutInt(val, 0, flags, 1, []);
    if HasLower(flags) { out := PutNumericBound(val, out, r, IntBytes(flags, 1)); }
    assert val[..out] == IntBytes(flags, 1) + p;
    if HasUpper(flags) { out := PutNumericBound(val, out, s, IntBytes(flags, 1) + p); }
    assert val[..out] == IntBytes(flags, 1) + p + q;
    assert val[..] == val[..out];
  }

  /** Reads a numeric with its length before it; returns the place after it. */
  method GetNumericBound(b: seq<byte>, pos: nat, ghost r: Num) returns (v: Numeric, end: nat)
    requires FitsWire(r) && At(b, pos, BoundBytes(true, NumericBytes(r)))
    ensures fresh(v) && fresh(v.buf) && v.Get().InBuffer() && v.Get().Same(r) && end == pos + 4 + 2 * (4 + r.n)
  {
    AtParts(b, pos, IntBytes(2 * (4 + r.n), 4), NumericBytes(r));
    LengthFits(r.n);
    IntAt(b, pos, 2 * (4 + r.n), 4);
    var len := GetInt(b, pos, 4);
    NumericCodec(b, pos + 4, r);
    v := DecodeNumeric(b, pos + 4, len, true);
    end := pos + 4 + len;
  }

  /** Reads the range that the bounds lo and hi encode. The flag byte is read as a signed character. */
  method DecodeNumRange(b: seq<byte>, ghost f: int, ghost lo: Num, ghost hi: Num)
    returns (flags: int, lb: Numeric, ub: Numeric, end: nat)
    requires lo.InBuffer() && hi.InBuffer() && b == RangeBytes(f, NumericBytes(lo), NumericBytes(hi))
    requires (HasLower(f) ==> FitsWire(lo)) && (HasUpper(f) ==> FitsWire(hi))
    ensures flags % 256 == f % 256 && end == |b| && fresh(lb) && fresh(ub)
    ensures HasLower(flags) == HasLower(f) && HasUpper(flags) == HasUpper(f)
    ensures HasLower(f) ==> lb.Get().InBuffer() && lb.Get().Same(lo)
    ensures HasUpper(f) ==> ub.Get().InBuffer() && ub.Get().Same(hi)
  {
    RangeParts(b, f, NumericBytes(lo), NumericBytes(hi));
    flags := GetInt(b, 0, 1);
    FlagByte(b, f);
    LowBitsDecide(flags, f);
    end := 1;
    if HasLower(flags) {
      lb, end := GetNumericBound(b, end, lo);
    } else {
      lb := new Numeric();
    }
    if HasUpper(flags) {
      ub, end := GetNumericBound(b, end, hi);
    } else {
      ub := new Numeric();
    }
  }

  lemma FlagByte(b: seq<byte>, f: int)
    requires |b| >= 1 && b[0] == f % 256
    ensures GetInt(b, 0, 1) % 256 == f % 256
  {
    assert b[0..1] == [b[0]];
  }

  /** A range sent and received keeps its flags and the bounds that the flags say are there. */
  method ThroughWire(f: int, lo: Numeric, hi: Numeric) returns (flags: int, lb: Numeric, ub: Numeric, size: nat, end: nat)
    requires FitsWire(lo.Get()) && FitsWire(hi.Get())
    ensures flags % 256 == f % 256 && end == size && fresh(lb) && fresh(ub)
    ensures HasLower(f) ==> lb.Get().InBuffer() && lb.Get().Same(lo.Get())
    ensures HasUpper(f) ==> ub.Get().InBuffer() && ub.Get().Same(hi.Get())
  {
    var val := EncodeNumRange(f, lo, hi);
    size := val.Length;
    flags, lb, ub, end := DecodeNumRange(val[..], f, lo.Get(), hi.Get());
  }

  // ---- ranges of integers

  /** The parameter of an int4range (width 4) or an int8range (width 8). */
  method EncodeIntRange(flags: int, lb: int, ub: int, width: nat) returns (val: array<byte>)
    requires width == 4 || width == 8
    ensures fresh(val) && val[..] == RangeBytes(flags, IntBytes(lb, width), IntBytes(ub, width))
    ensures forall x: Flags :: flags % 256 == x.Value() ==> val[..] == Layout(x, IntBytes(lb, width), IntBytes(ub, width))
  {
    LayoutIs(flags, IntBytes(lb, width), IntBytes(ub, width));
    var len := 1;
    if HasLower(flags) { len := len + 4 + width; }
    if HasUpper(flags) { len := len + 4 + width; }
    val := new byte[len];
    ghost var p, q := BoundBytes(HasLower(flags), IntBytes(lb, width)), BoundBytes(HasUpper(flags), IntBytes(ub, width));
    var out := PutInt(val, 0, flags, 1, []);
    if HasLower(flags) { out := PutIntBound(val, out, lb, width, IntBytes(flags, 1)); }
    assert val[..out] == IntBytes(flags, 1) + p;
    if HasUpper(flags) { out := PutIntBound(val, out, ub, width, IntBytes(flags, 1) + p); }
    assert val[..out] == IntBytes(flags, 1) + p + q;
    assert val[..] == val[..out];
  }

  method PutIntBound(buf: array<byte>, out: nat, x: int, width: nat, ghost done: seq<byte>) returns (end: nat)
    requires out + 4 + width <= buf.Length && buf[..out] == done
    modifies buf
    ensures end == out + 4 + width && buf[..end] == done + BoundBytes(true, IntBytes(x, width))
  {
    end := PutInt(buf, out, width, 4, done);
    end := PutInt(buf, end, x, width, done + IntBytes(width, 4));
    Regroup(done, IntBytes(width, 4), IntBytes(x, width));
  }

  method GetIntBound(b: seq<byte>, pos: nat, width: nat, ghost x: int) returns (y: int, end: nat)
    requires (width == 4 || width == 8) && Fits(x, width) && At(b, pos, BoundBytes(true, IntBytes(x, width)))
    ensures y == x && end == pos + 4 + width
  {
    AtParts(b, pos, IntBytes(width, 4), IntBytes(x, width));
    assert Half(4) == 0x8000_0000;
    IntAt(b, pos, width, 4);
    IntAt(b, pos + 4, x, width);
    var len := GetInt(b, pos, 4);
    y, end := GetInt(b, pos + 4, width), pos + 4 + len;
  }

  /** Reads the range of the integers lo and hi; a bound that is not there reads as 0. */
  method DecodeIntRange(b: seq<byte>, width: nat, ghost f: int, ghost lo: int, ghost hi: int)
    returns (flags: int, lb: int, ub: int, end: nat)
    requires (width == 4 || width == 8) && b == RangeBytes(f, IntBytes(lo, width), IntBytes(hi, width))
    requires (HasLower(f) ==> Fits(lo, width)) && (HasUpper(f) ==> Fits(hi, width))
    ensures flags % 256 == f % 256 && end == |b|
    ensures lb == (if HasLower(f) then lo else 0) && ub == (if HasUpper(f) then hi else 0)
  {
    RangeParts(b, f, IntBytes(lo, width), IntBytes(hi, width));
    flags := GetInt(b, 0, 1);
    FlagByte(b, f);
    LowBitsDecide(flags, f);
    end, lb, ub := 1, 0, 0;
    if HasLower(flags) { lb, end := GetIntBound(b, end, width, lo); }
    if HasUpper(flags) { ub, end := GetIntBound(b, end, width, hi); }
  }
}
