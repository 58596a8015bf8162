/** Decimal literals as the numeric parser reads them: what text is accepted, and the decimal it denotes. */
module DecimalText {
  import opened Basics
  import opened Decimal

  /** Half of INT_MAX, the bound on exponents. */
  const EXPONENT_LIMIT := 0x7fff_ffff / 2

  /** The character at i; past the end lies the terminating NUL. */
  function At(s: string, i: nat): char { if i < |s| then s[i] else '\0' }

  predicate IsDecimal(c: char) { '0' <= c <= '9' }

  predicate IsSpace(c: char) { c == ' ' || '\t' <= c <= '\r' }

  /** All characters are decimal digits. */
  ghost predicate AllDec(s: string) {
    forall i :: 0 <= i < |s| ==> IsDecimal(s[i])
  }

  function DecimalValue(c: char): (d: int)
    requires IsDecimal(c)
    ensures 0 <= d <= 9
  {
    c as int - '0' as int
  }

  function DecimalChar(d: int): (c: char)
    requires 0 <= d <= 9
    ensures IsDecimal(c) && DecimalValue(c) == d
  {
    (d + '0' as int) as char
  }

  /** The first place at or after i that holds no decimal digit. */
  ghost function DigitsEnd(s: string, i: nat): (e: nat)
    requires i <= |s|
    ensures i <= e <= |s| && !IsDecimal(At(s, e))
    ensures forall j :: i <= j < e ==> IsDecimal(s[j])
    decreases |s| - i
  {
    if i < |s| && IsDecimal(s[i]) then DigitsEnd(s, i + 1) else i
  }

  lemma {:induction false} DigitsEndIs(s: string, i: nat, e: nat)
    requires i <= e <= |s| && !IsDecimal(At(s, e)) && forall j :: i <= j < e ==> IsDecimal(s[j])
    ensures DigitsEnd(s, i) == e
    decreases e - i
  {
    if i < e { DigitsEndIs(s, i + 1, e); }
  }

  ghost function SpacesEnd(s: string, i: nat): (e: nat)
    requires i <= |s|
    ensures i <= e <= |s|
    decreases |s| - i
  {
    if i < |s| && IsSpace(s[i]) then SpacesEnd(s, i + 1) else i
  }

  /** The decimal digits at lo..hi of s. */
  ghost function DigitValues(s: string, lo: nat, hi: nat): (d: seq<int>)
    requires lo <= hi <= |s| && forall j :: lo <= j < hi ==> IsDecimal(s[j])
    ensures |d| == hi - lo && forall j :: 0 <= j < |d| ==> d[j] == DecimalValue(s[lo + j])
  {
    seq(hi - lo, j requires 0 <= j < hi - lo => DecimalValue(s[lo + j]))
  }

  /** The integer the decimal digits at lo..hi of d denote. */
  ghost function Dec(d: seq<int>, lo: int, hi: int): int
    requires 0 <= lo <= hi <= |d|
    decreases hi
  {
    if lo == hi then 0 else Dec(d, lo, hi - 1) * 10 + d[hi - 1]
  }

  ghost predicate AllDecimal(d: seq<int>) { forall i :: 0 <= i < |d| ==> 0 <= d[i] <= 9 }

  lemma {:induction false} DecMoved(b: seq<int>, lo: nat, hi: nat, c: seq<int>, at: nat)
    requires lo <= hi <= |b| && at + hi - lo <= |c|
    requires forall i :: lo <= i < hi ==> b[i] == c[at + i - lo]
    ensures Dec(b, lo, hi) == Dec(c, at, at + hi - lo)
    decreases hi
  {
    if lo < hi { DecMoved(b, lo, hi - 1, c, at); }
  }

  /** Leading zeros denote nothing. */
  lemma {:induction false} DecLeadingZeros(b: seq<int>, lo: nat, mid: nat, hi: nat)
    requires lo <= mid <= hi <= |b| && forall i :: lo <= i < mid ==> b[i] == 0
    ensures Dec(b, lo, hi) == Dec(b, mid, hi)
    decreases hi
  {
    if mid < hi {
      DecLeadingZeros(b, lo, mid, hi - 1);
    } else if lo < hi {
      DecLeadingZeros(b, lo, mid - 1, hi - 1);
    }
  }

  /** A literal: sign, digits before and after the point, exponent, and where it ends. */
  datatype Literal = Literal(neg: bool, whole: seq<int>, frac: seq<int>, exponent: int, end: nat) {
    ghost function Digits(): seq<int> { whole + frac }

    /** The number written. */
    ghost function Magnitude(): real {
      Shift(Dec(Digits(), 0, |Digits()|) as real, exponent - |frac|)
    }

    ghost function Value(): real { if neg then -Magnitude() else Magnitude() }

    /** The decimals shown: those written, less the exponent, and never negative. */
    ghost function Scale(): int { Max(0, |frac| - exponent) }
  }

  /** What strtol reads in base ten: spaces, a sign, and digits; none if there is no digit. */
  ghost function ReadInteger(s: string, i: nat): Option<(int, nat)>
    requires i <= |s|
  {
    var p := SpacesEnd(s, i);
    var q := if At(s, p) == '+' || At(s, p) == '-' then p + 1 else p;
    if !IsDecimal(At(s, q)) then None
    else
      var e := DigitsEnd(s, q);
      var d := DigitValues(s, q, e);
      var n := Dec(d, 0, |d|);
      Some((if At(s, p) == '-' then -n else n, e))
  }

  /** The exponent after the mantissa that ends at i, zero if there is none; none if it is malformed
      or too large. */
  ghost function ReadExponent(s: string, i: nat): Option<(int, nat)>
    requires i <= |s|
  {
    if At(s, i) != 'e' && At(s, i) != 'E' then Some((0, i))
    else
      var r := ReadInteger(s, i + 1);
      if r.Some? && -EXPONENT_LIMIT < r.value.0 < EXPONENT_LIMIT then r else None
  }

  /** The literal at place cp of s: a sign, digits with at most one point and at least one digit right
      after the sign or the leading point, and an exponent. */
  ghost function ReadLiteral(s: string, cp: nat): Option<Literal>
    requires cp <= |s|
  {
    var p := if At(s, cp) == '+' || At(s, cp) == '-' then cp + 1 else cp;
    if IsDecimal(At(s, if At(s, p) == '.' then p + 1 else p)) then ReadMantissa(s, At(s, cp) == '-', p) else None
  }

  /** The literal whose mantissa starts at p; none if it has a second point. */
  ghost function ReadMantissa(s: string, neg: bool, p: nat): Option<Literal>
    requires p <= |s| && IsDecimal(At(s, if At(s, p) == '.' then p + 1 else p))
  {
    var a := if At(s, p) == '.' then p else DigitsEnd(s, p);
    var point := At(s, a) == '.';
    var b := if point then DigitsEnd(s, a + 1) else a;
    if point && At(s, b) == '.' then None else LiteralAt(s, neg, p, a, b)
  }

  /** The literal whose mantissa is digits p..a and, if a < b, a point at a and digits a+1..b. */
  ghost function LiteralAt(s: string, neg: bool, p: nat, a: nat, b: nat): Option<Literal>
    requires p <= a <= b <= |s|
    requires (forall j :: p <= j < a ==> IsDecimal(s[j])) && (forall j :: a < j < b ==> IsDecimal(s[j]))
  {
    var x := ReadExponent(s, b);
    if x.None? then None
    else
      Some(Literal(neg, DigitValues(s, p, a), if a < b then DigitValues(s, a + 1, b) else [], x.value.0, x.value.1))
  }

  /** The literal that a whole text is, blanks around it allowed. */
  ghost function ReadText(s: string): Option<Literal> {
    var l := ReadLiteral(s, SpacesEnd(s, 0));
    if l.Some? && l.value.end <= |s| && SpacesEnd(s, l.value.end) == |s| then l else None
  }
}
