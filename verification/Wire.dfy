/** The binary wire format: integers and numerics (swap2, swap4, swap8, new_parameter(numeric), pgval_to_numeric). */
module Wire {
  import opened Basics
  import opened Numerics
  import opened Radix
  import DecimalText
  import NumericText

  // ---- integers

  /** x in n bytes, the highest first, in two's complement; higher bits are cut off. */
  function IntBytes(x: int, n: nat): (b: seq<byte>)
    ensures |b| == n
    decreases n, x
  {
    if n == 0 then [] else IntBytes(x / 256, n - 1) + [x % 256]
  }

  /** The signed integer that bytes hold. */
  function Signed(b: seq<byte>): (x: int) {
    if b == [] then 0
    else if |b| == 1 then if b[0] < 128 then b[0] else b[0] - 256
    else Signed(b[..|b| - 1]) * 256 + b[|b| - 1]
  }

  /** Half the number of values of n bytes. */
  function Half(n: nat): (h: int)
    ensures h >= 1
  {
    if n == 0 then 1 else if n == 1 then 128 else Half(n - 1) * 256
  }

  predicate Fits(x: int, n: nat) {
    -Half(n) <= x < Half(n)
  }

  lemma {:induction false} IntRoundTrip(x: int, n: nat)
    requires n >= 1 && Fits(x, n)
    ensures Signed(IntBytes(x, n)) == x
    decreases n
  {
    if n > 1 {
      IntRoundTrip(x / 256, n - 1);
      assert IntBytes(x, n)[..n - 1] == IntBytes(x / 256, n - 1);
    } else {
      assert IntBytes(x / 256, 0) == [];
    }
  }

  /** b holds the bytes part at pos. */
  ghost predicate At(b: seq<byte>, pos: nat, part: seq<byte>) {
    pos + |part| <= |b| && b[pos..pos + |part|] == part
  }

  lemma ThreeParts(b: seq<byte>, p: seq<byte>, q: seq<byte>, r: seq<byte>)
    requires b == p + q + r
    ensures |b| == |p| + |q| + |r| && b[..|p|] == p && At(b, |p|, q) && At(b, |p| + |q|, r)
  {
  }

  lemma AtParts(b: seq<byte>, pos: nat, p: seq<byte>, q: seq<byte>)
    requires At(b, pos, p + q)
    ensures At(b, pos, p) && At(b, pos + |p|, q)
  {
    var s := b[pos..pos + |p| + |q|];
    assert s[..|p|] == p && s[|p|..] == q;
  }

  /** Reads n bytes at pos. */
  function GetInt(b: seq<byte>, pos: nat, n: nat): (x: int)
    requires pos + n <= |b|
  {
    Signed(b[pos..pos + n])
  }

  lemma IntAt(b: seq<byte>, pos: nat, x: int, n: nat)
    requires n >= 1 && Fits(x, n) && At(b, pos, IntBytes(x, n))
    ensures pos + n <= |b| && GetInt(b, pos, n) == x
  {
    IntRoundTrip(x, n);
  }

  /** Stores x in n bytes at the cursor. */
  method PutInt(buf: array<byte>, out: nat, x: int, n: nat, ghost done: seq<byte>) returns (end: nat)
    requires out + n <= buf.Length && buf[..out] == done
    modifies buf
    ensures end == out + n && buf[..end] == done + IntBytes(x, n)
  {
    var b, i := IntBytes(x, n), 0;
    while i < n
      invariant 0 <= i <= n && buf[..out + i] == done + b[..i]
    {
      buf[out + i] := b[i];
      i := i + 1;
    }
    end := out + n;
    assert b[..n] == b;
  }

  // ---- numerics

  function DigitBytes(s: seq<int>): (b: seq<byte>)
    ensures |b| == 2 * |s|
  {
    if s == [] then [] else DigitBytes(s[..|s| - 1]) + IntBytes(s[|s| - 1], 2)
  }

  function HeaderBytes(r: Num): (b: seq<byte>)
    ensures |b| == 8
  {
    IntBytes(r.n, 2) + IntBytes(r.weight, 2) + IntBytes(r.sign, 2) + IntBytes(r.dscale, 2)
  }

  /** A numeric on the wire: the count, the weight, the sign, the display scale and the digits. */
  function NumericBytes(r: Num): (b: seq<byte>)
    requires r.InBuffer()
    ensures |b| == 2 * (4 + r.n) && b == HeaderBytes(r) + DigitBytes(r.Ds())
  {
    HeaderBytes(r) + DigitBytes(r.b[r.lo..r.lo + r.n])
  }

  /** Every field fits its two bytes. */
  ghost predicate FitsWire(r: Num) {
    && r.InBuffer() && Fits(r.n, 2) && Fits(r.weight, 2) && Fits(r.sign, 2) && Fits(r.dscale, 2)
    && forall i :: 0 <= i < |r.Ds()| ==> Fits(r.Ds()[i], 2)
  }

  /** A finite numeric whose count, weight and scale fit can be sent. */
  lemma FiniteFits(r: Num)
    requires r.Finite() && Fits(r.n, 2) && Fits(r.weight, 2) && Fits(r.dscale, 2)
    ensures FitsWire(r)
  {
    assert Half(2) == 32768;
    forall i | 0 <= i < |r.Ds()| ensures Fits(r.Ds()[i], 2) {
      assert IsDigit(r.Ds()[i]);
    }
  }

  lemma LengthFits(n: nat)
    requires Fits(n, 2)
    ensures Fits(2 * (4 + n), 4)
  {
    assert Half(2) == 32768 && Half(3) == 8388608;
  }

  method PutDigits(buf: array<byte>, out: nat, r: Num, ghost done: seq<byte>) returns (end: nat)
    requires r.InBuffer() && out + 2 * r.n <= buf.Length && buf[..out] == done
    modifies buf
    ensures end == out + 2 * r.n && buf[..end] == done + DigitBytes(r.Ds())
  {
    ghost var s, d := r.Ds(), done;
    var i := 0;
    end := out;
    while i < r.n
      invariant 0 <= i <= r.n && end == out + 2 * i && buf[..end] == d && d == done + DigitBytes(s[..i])
    {
      end := PutInt(buf, end, r.b[r.lo + i], 2, d);
      d := d + IntBytes(s[i], 2);
      DigitsGrow(s, i);
      i := i + 1;
    }
    assert s[..i] == s;
  }

  lemma DigitsGrow(s: seq<int>, i: nat)
    requires i < |s|
    ensures DigitBytes(s[..i + 1]) == DigitBytes(s[..i]) + IntBytes(s[i], 2)
  {
    assert s[..i + 1][..i] == s[..i];
  }

  method PutHeader(buf: array<byte>, out: nat, r: Num, ghost done: seq<byte>) returns (end: nat)
    requires out + 8 <= buf.Length && buf[..out] == done
    modifies buf
    ensures end == out + 8 && buf[..end] == done + HeaderBytes(r)
  {
    ghost var d := done;
    end := PutInt(buf, out, r.n, 2, d);
    d := d + IntBytes(r.n, 2);
    end := PutInt(buf, end, r.weight, 2, d);
    d := d + IntBytes(r.weight, 2);
    end := PutInt(buf, end, r.sign, 2, d);
    d := d + IntBytes(r.sign, 2);
    end := PutInt(buf, end, r.dscale, 2, d);
    d := d + IntBytes(r.dscale, 2);
    Joined(done, IntBytes(r.n, 2), IntBytes(r.weight, 2), IntBytes(r.sign, 2), IntBytes(r.dscale, 2));
  }

  lemma Joined(a: seq<byte>, b: seq<byte>, c: seq<byte>, d: seq<byte>, e: seq<byte>)
    ensures a + b + c + d + e == a + (b + c + d + e)
  {
  }

  /** Writes a numeric at the cursor. */
  method PutNumeric(buf: array<byte>, out: nat, r: Num, ghost done: seq<byte>) returns (end: nat)
    requires r.InBuffer() && out + 2 * (4 + r.n) <= buf.Length && buf[..out] == done
    modifies buf
    ensures end == out + 2 * (4 + r.n) && buf[..end] == done + NumericBytes(r)
  {
    end := PutHeader(buf, out, r, done);
    end := PutDigits(buf, end, r, done + HeaderBytes(r));
    Regroup(done, HeaderBytes(r), DigitBytes(r.Ds()));
  }

  /** The fields of a numeric variable. */
  method Fields(v: Numeric) returns (r: Num)
    ensures r == v.Get()
  {
    r := Num(v.buf[..], v.digits, v.ndigits, v.weight, v.sign, v.dscale);
  }

  /** The parameter of a numeric: a buffer of exactly the bytes it needs. */
  method EncodeNumeric(v: Numeric) returns (val: array<byte>)
    requires v.Get().InBuffer()
    ensures fresh(val) && val.Length == 2 * (4 + v.ndigits) && val[..] == NumericBytes(v.Get())
  {
    var r := Fields(v);
    val := new byte[2 * (4 + r.n)];
    var end := PutNumeric(val, 0, r, []);
    assert val[..] == val[..end];
  }

  // ---- reading numerics

  /** The four fields in front of the digits. */
  lemma HeaderAt(b: seq<byte>, pos: nat, r: Num)
    requires FitsWire(r) && At(b, pos, HeaderBytes(r))
    ensures pos + 8 <= |b| && GetInt(b, pos, 2) == r.n && GetInt(b, pos + 2, 2) == r.weight
    ensures GetInt(b, pos + 4, 2) == r.sign && GetInt(b, pos + 6, 2) == r.dscale
  {
    AtParts(b, pos, IntBytes(r.n, 2) + IntBytes(r.weight, 2) + IntBytes(r.sign, 2), IntBytes(r.dscale, 2));
    AtParts(b, pos, IntBytes(r.n, 2) + IntBytes(r.weight, 2), IntBytes(r.sign, 2));
    AtParts(b, pos, IntBytes(r.n, 2), IntBytes(r.weight, 2));
    IntAt(b, pos, r.n, 2);
    IntAt(b, pos + 2, r.weight, 2);
    IntAt(b, pos + 4, r.sign, 2);
    IntAt(b, pos + 6, r.dscale, 2);
  }

  /** A numeric as a value, without its buffer. */
  datatype NumericValue = NumericValue(digits: seq<int>, weight: int, sign: int, dscale: int) {
    function AsNum(): (r: Num)
      ensures r.InBuffer() && r.Ds() == digits
    {
      assert digits[0..|digits|] == digits;
      Num(digits, 0, |digits|, weight, sign, dscale)
    }
  }

  ghost function ValueOf(r: Num): (v: NumericValue)
    requires r.InBuffer()
  {
    NumericValue(r.Ds(), r.weight, r.sign, r.dscale)
  }

  /** There is a numeric at pos: its header, a count that is not negative, and as many digits. */
  predicate HoldsNumeric(b: seq<byte>, pos: nat) {
    pos + 8 <= |b| && 0 <= GetInt(b, pos, 2) && pos + 8 + 2 * GetInt(b, pos, 2) <= |b|
  }

  function DigitsAt(b: seq<byte>, pos: nat, n: nat): (s: seq<int>)
    requires pos + 2 * n <= |b|
    ensures |s| == n
  {
    if n == 0 then [] else DigitsAt(b, pos, n - 1) + [GetInt(b, pos + 2 * (n - 1), 2)]
  }

  /** The numeric at pos. */
  function NumericAt(b: seq<byte>, pos: nat): (v: NumericValue)
    requires HoldsNumeric(b, pos)
  {
    NumericValue(DigitsAt(b, pos + 8, GetInt(b, pos, 2)), GetInt(b, pos + 2, 2), GetInt(b, pos + 4, 2), GetInt(b, pos + 6, 2))
  }

  /** What was encoded is there. */
  lemma NumericCodec(b: seq<byte>, pos: nat, r: Num)
    requires FitsWire(r) && At(b, pos, NumericBytes(r))
    ensures HoldsNumeric(b, pos) && NumericAt(b, pos) == ValueOf(r)
  {
    AtParts(b, pos, HeaderBytes(r), DigitBytes(r.Ds()));
    HeaderAt(b, pos, r);
    DigitsRead(b, pos + 8, r.Ds());
  }

  lemma {:induction false} DigitsRead(b: seq<byte>, pos: nat, s: seq<int>)
    requires At(b, pos, DigitBytes(s)) && forall i :: 0 <= i < |s| ==> Fits(s[i], 2)
    ensures DigitsAt(b, pos, |s|) == s
  {
    if s != [] {
      var k := |s| - 1;
      AtParts(b, pos, DigitBytes(s[..k]), IntBytes(s[k], 2));
      IntAt(b, pos + 2 * k, s[k], 2);
      DigitsRead(b, pos, s[..k]);
      assert s == s[..k] + [s[k]];
    }
  }

  method GetDigits(b: seq<byte>, pos: nat, n: nat) returns (a: array<int>)
    requires pos + 2 * n <= |b|
    ensures fresh(a) && a[..] == [0] + DigitsAt(b, pos, n)
  {
    a := new int[n + 1];
    a[0] := 0;
    var i := 0;
    while i < n
      invariant 0 <= i <= n && a[..i + 1] == [0] + DigitsAt(b, pos, i)
    {
      a[i + 1] := GetInt(b, pos + 2 * i, 2);
      i := i + 1;
    }
    assert a[..] == a[..i + 1];
  }

  /** The binary form: the numeric at pos. */
  method GetNumeric(b: seq<byte>, pos: nat) returns (v: Numeric)
    requires HoldsNumeric(b, pos)
    ensures fresh(v) && fresh(v.buf) && v.Get().InBuffer() && v.Get().Spare() && ValueOf(v.Get()) == NumericAt(b, pos)
  {
    v := new Numeric();
    v.ndigits := GetInt(b, pos, 2);
    v.weight, v.sign, v.dscale := GetInt(b, pos + 2, 2), GetInt(b, pos + 4, 2), GetInt(b, pos + 6, 2);
    v.buf := GetDigits(b, pos + 8, v.ndigits);
    v.digits := 1;
    assert v.Get().Ds() == NumericAt(b, pos).digits;
  }

  /** The characters of a value in text form. */
  function Chars(b: seq<byte>): (s: string)
    ensures |s| == |b|
  {
    seq(|b|, i requires 0 <= i < |b| => b[i] as char)
  }

  /** Reads a numeric of len bytes at pos: zero for NULL, whose length is -1; else the number that the text
      denotes, or NaN; else the binary form. */
  method DecodeNumeric(b: seq<byte>, pos: nat, len: int, binary: bool) returns (v: Numeric)
    requires len >= -1 && (len >= 0 ==> if binary then HoldsNumeric(b, pos) else pos + len <= |b|)
    ensures fresh(v) && fresh(v.buf)
    ensures len == -1 ==> v.Get().Normal() && v.Get().Value() == 0.0 && v.dscale == 0
    ensures len >= 0 && binary ==> v.Get().InBuffer() && v.Get().Spare() && ValueOf(v.Get()) == NumericAt(b, pos)
    ensures len >= 0 && !binary ==>
      var l := DecimalText.ReadText(Chars(b[pos..pos + len]));
      if l.None? then v.sign == NUMERIC_NAN else NumericText.Denotes(v.Get(), l.value)
  {
    if len == -1 {
      NumericText.ZeroText();
      v := NumericText.FromText("0");
    } else if !binary {
      v := NumericText.FromText(Chars(b[pos..pos + len]));
    } else {
      v := GetNumeric(b, pos);
    }
  }

  // ---- bytes by place

  /** Two bytes, the high one first. */
  lemma TwoBytes(x: int)
    ensures IntBytes(x, 2) == [x / 256 % 256, x % 256]
  {
    assert IntBytes(x / 256, 1) == IntBytes(x / 256 / 256, 0) + [x / 256 % 256];
  }

  /** Four bytes, the highest first. */
  lemma FourBytes(x: int)
    ensures IntBytes(x, 4) == [x / 16777216 % 256, x / 65536 % 256, x / 256 % 256, x % 256]
  {
    TwoBytes(x / 65536);
    assert x / 256 / 256 == x / 65536 && x / 65536 / 256 == x / 16777216;
    assert IntBytes(x, 4) == IntBytes(x / 65536, 2) + [x / 256 % 256] + [x % 256];
  }

  /** Negative numbers are in two's complement. */
  lemma {:induction false} NegativeBytes(x: int, n: nat)
    requires n >= 1 && -Half(n) <= x < 0
    ensures IntBytes(x, n) == IntBytes(x + 2 * Half(n), n) && IntBytes(x, n)[0] >= 128
    decreases n
  {
    if n > 1 {
      assert (x + 2 * Half(n)) / 256 == x / 256 + 2 * Half(n - 1) && (x + 2 * Half(n)) % 256 == x % 256;
      NegativeBytes(x / 256, n - 1);
    } else {
      assert IntBytes(x / 256, 0) == [] && IntBytes((x + 256) / 256, 0) == [];
    }
  }

  lemma Front(h: seq<byte>, d: seq<byte>, i: nat, j: nat)
    requires i <= j <= |h|
    ensures (h + d)[i..j] == h[i..j]
  {
  }

  lemma Back(h: seq<byte>, d: seq<byte>, i: nat, j: nat, k: nat, m: nat)
    requires i <= j <= |d| && k == |h| + i && m == |h| + j
    ensures (h + d)[k..m] == d[i..j]
  {
  }

  lemma {:induction false} DigitBytesAt(s: seq<int>, k: nat)
    requires k < |s|
    ensures DigitBytes(s)[2 * k..2 * k + 2] == IntBytes(s[k], 2)
    decreases |s|
  {
    var n := |s| - 1;
    var t, d := DigitBytes(s[..n]), IntBytes(s[n], 2);
    if k < n {
      DigitBytesAt(s[..n], k);
      Front(t, d, 2 * k, 2 * k + 2);
    } else {
      Back(t, d, 0, 2, 2 * k, 2 * k + 2);
      assert d[0..2] == d;
    }
  }

  lemma HeaderLayout(r: Num)
    ensures var h := HeaderBytes(r);
      && h[0..2] == [r.n / 256 % 256, r.n % 256] && h[2..4] == [r.weight / 256 % 256, r.weight % 256]
      && h[4..6] == [r.sign / 256 % 256, r.sign % 256] && h[6..8] == [r.dscale / 256 % 256, r.dscale % 256]
  {
    TwoBytes(r.n);
    TwoBytes(r.weight);
    TwoBytes(r.sign);
    TwoBytes(r.dscale);
  }

  /** Where the digits of a numeric are, two bytes each. */
  lemma DigitLayout(r: Num, k: nat)
    requires r.InBuffer() && k < r.n
    ensures NumericBytes(r)[8 + 2 * k..10 + 2 * k] == [r.Ds()[k] / 256 % 256, r.Ds()[k] % 256]
  {
    DigitBytesAt(r.Ds(), k);
    TwoBytes(r.Ds()[k]);
    Back(HeaderBytes(r), DigitBytes(r.Ds()), 2 * k, 2 * k + 2, 8 + 2 * k, 10 + 2 * k);
  }

  /** Where the other fields are, two bytes each: the count, the weight, the sign and the scale. The sign is 0x4000 for a
      negative number, and 0xc000 for NaN. */
  lemma NumericLayout(r: Num)
    requires r.InBuffer()
    ensures var b := NumericBytes(r);
      && b[0..2] == [r.n / 256 % 256, r.n % 256] && b[2..4] == [r.weight / 256 % 256, r.weight % 256]
      && b[6..8] == [r.dscale / 256 % 256, r.dscale % 256]
      && (r.sign == NUMERIC_POS ==> b[4..6] == [0, 0]) && (r.sign == NUMERIC_NEG ==> b[4..6] == [0x40, 0])
      && (r.sign == NUMERIC_NAN ==> b[4..6] == [0xc0, 0])
  {
    var h, d := HeaderBytes(r), DigitBytes(r.Ds());
    HeaderLayout(r);
    Front(h, d, 0, 2);
    Front(h, d, 2, 4);
    Front(h, d, 4, 6);
    Front(h, d, 6, 8);
  }
}
