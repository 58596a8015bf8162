/** The texts that are read as numbers, as a grammar: which they are, and the number and scale each one denotes. */
module NumericGrammar {
  import opened Basics
  import opened Decimal
  import opened DecimalText
  import opened Numerics
  import opened NumericText

  // ---- the grammar

  /** White space of the C locale: space, tab, line feed, vertical tab, form feed and carriage return. */
  ghost predicate IsBlank(c: char) {
    c == ' ' || c == '\t' || c == '\n' || c as int == 11 || c as int == 12 || c == '\r'
  }

  ghost predicate Blank(s: string) {
    forall i :: 0 <= i < |s| ==> IsBlank(s[i])
  }

  ghost predicate IsSign(s: string) {
    s == "" || s == "+" || s == "-"
  }

  /** The natural number that decimal digits write. */
  ghost function Written(t: string): (n: nat)
    requires AllDec(t)
  {
    if t == [] then 0 else Written(t[..|t| - 1]) * 10 + DecimalValue(t[|t| - 1])
  }

  /** An exponent: a letter, blanks, a sign and digits. */
  datatype Power = Power(letter: char, blanks: string, sign: string, digits: string) {
    ghost predicate Legal() {
      && (letter == 'e' || letter == 'E') && Blank(blanks) && IsSign(sign)
      && digits != [] && AllDec(digits) && Written(digits) < 1073741823
    }

    ghost function Text(): (s: string) {
      [letter] + (blanks + (sign + digits))
    }

    ghost function Exponent(): (e: int)
      requires AllDec(digits)
    {
      var n: int := Written(digits);
      if sign == "-" then -n else n
    }
  }

  /** A number: blanks, a sign, digits with at most one point and not without a digit, an exponent, and blanks. */
  datatype Form = Form(lead: string, sign: string, whole: string, frac: Option<string>, power: Option<Power>, trail: string) {
    ghost predicate Legal() {
      && Blank(lead) && IsSign(sign) && AllDec(whole) && Blank(trail)
      && (frac.Some? ==> AllDec(frac.value)) && (power.Some? ==> power.value.Legal())
      && whole + Decimals() != []
    }

    ghost function Decimals(): (d: string) {
      if frac.None? then [] else frac.value
    }

    ghost function FracText(): (s: string) {
      if frac.None? then [] else "." + frac.value
    }

    ghost function PowerText(): (s: string) {
      if power.None? then [] else power.value.Text()
    }

    ghost function Text(): (s: string) {
      lead + (sign + (whole + (FracText() + (PowerText() + trail))))
    }

    ghost function Exponent(): (e: int)
      requires power.Some? ==> AllDec(power.value.digits)
    {
      if power.None? then 0 else power.value.Exponent()
    }

    /** All digits as an integer, shifted by the exponent less the decimals, with the sign. */
    ghost function Value(): (x: real)
      requires Legal()
    {
      var m := Shift(Written(whole + Decimals()) as real, Exponent() - |Decimals()|);
      if sign == "-" then -m else m
    }

    ghost function Scale(): (d: int)
      requires Legal()
    {
      Max(0, |Decimals()| - Exponent())
    }
  }

  type LegalForm = f: Form | f.Legal() ghost witness Form("", "", "0", None, None, "")

  // ---- parts of a text

  /** The part stands in s at i. */
  ghost predicate Stands(s: string, i: nat, part: string) {
    i + |part| <= |s| && s[i..i + |part|] == part
  }

  lemma Parts(s: string, i: nat, p: string, q: string)
    requires Stands(s, i, p + q)
    ensures Stands(s, i, p) && Stands(s, i + |p|, q)
  {
    var t := s[i..i + |p + q|];
    assert t[..|p|] == p && t[|p|..] == q;
  }

  lemma Chars(s: string, i: nat, part: string)
    requires Stands(s, i, part)
    ensures forall j :: 0 <= j < |part| ==> s[i + j] == part[j]
  {
    forall j | 0 <= j < |part| ensures s[i + j] == part[j] {
      assert s[i..i + |part|][j] == s[i + j];
    }
  }

  lemma BlankIsSpace(s: string)
    ensures Blank(s) <==> forall i :: 0 <= i < |s| ==> IsSpace(s[i])
  {
  }

  lemma {:induction false} SpacesEndIs(s: string, i: nat, e: nat)
    requires i <= e <= |s| && (e < |s| ==> !IsSpace(s[e])) && forall j :: i <= j < e ==> IsSpace(s[j])
    ensures SpacesEnd(s, i) == e
    decreases e - i
  {
    if i < e { SpacesEndIs(s, i + 1, e); }
  }

  lemma {:induction false} SpacesAre(s: string, i: nat)
    requires i <= |s|
    ensures var e := SpacesEnd(s, i); (e < |s| ==> !IsSpace(s[e])) && Blank(s[i..e])
    decreases |s| - i
  {
    if i < |s| && IsSpace(s[i]) {
      SpacesAre(s, i + 1);
      assert s[i..SpacesEnd(s, i)] == [s[i]] + s[i + 1..SpacesEnd(s, i)];
    }
  }

  /** Blanks that stand at i, and after which something else comes. */
  lemma BlanksRead(s: string, i: nat, blanks: string)
    requires Stands(s, i, blanks) && Blank(blanks) && (i + |blanks| < |s| ==> !IsSpace(s[i + |blanks|]))
    ensures SpacesEnd(s, i) == i + |blanks|
  {
    Chars(s, i, blanks);
    assert forall j :: i <= j < i + |blanks| ==> s[j] == blanks[j - i];
    SpacesEndIs(s, i, i + |blanks|);
  }

  lemma {:induction false} WrittenIsDec(t: string, d: seq<int>)
    requires AllDec(t) && d == DigitValues(t, 0, |t|)
    ensures Written(t) == Dec(d, 0, |d|)
    decreases |t|
  {
    if t != [] {
      var n := |t| - 1;
      var u := t[..n];
      WrittenIsDec(u, DigitValues(u, 0, n));
      DecMoved(DigitValues(u, 0, n), 0, n, d, 0);
    }
  }

  /** Digits that stand at i, up to j. */
  lemma DigitsStand(s: string, i: nat, t: string, j: nat)
    requires Stands(s, i, t) && AllDec(t) && j == i + |t|
    ensures (forall k :: i <= k < j ==> IsDecimal(s[k])) && DigitValues(s, i, j) == DigitValues(t, 0, |t|)
  {
    Chars(s, i, t);
    assert forall k :: i <= k < j ==> s[k] == t[k - i];
  }

  // ---- reading

  lemma MantissaExtent(s: string, p: nat, a: nat, b: nat)
    requires IsMantissa(s, p, a, b) && (p < a || a + 1 < b) && !IsDecimal(At(s, b)) && At(s, b) != '.'
    ensures a == (if At(s, p) == '.' then p else DigitsEnd(s, p)) && (At(s, p) == '.' <==> p == a)
    ensures b == (if At(s, a) == '.' then DigitsEnd(s, a + 1) else a) && IsDecimal(At(s, if p == a then p + 1 else p))
  {
    if p < a { DigitsEndIs(s, p, a); }
    if a < b { DigitsEndIs(s, a + 1, b); }
  }

  lemma LiteralIsMantissa(s: string, cp: nat, p: nat)
    requires cp <= |s| && p == (if At(s, cp) == '+' || At(s, cp) == '-' then cp + 1 else cp) && p <= |s|
    requires IsDecimal(At(s, if At(s, p) == '.' then p + 1 else p))
    ensures ReadLiteral(s, cp) == ReadMantissa(s, At(s, cp) == '-', p)
  {
  }

  /** A mantissa from p to b, its point, if any, at a, is read whatever follows that is no digit and no point. */
  lemma MantissaRead(s: string, cp: nat, p: nat, a: nat, b: nat)
    requires cp <= p && IsMantissa(s, p, a, b) && p == if At(s, cp) == '+' || At(s, cp) == '-' then cp + 1 else cp
    requires (p < a || a + 1 < b) && !IsDecimal(At(s, b)) && At(s, b) != '.'
    ensures ReadLiteral(s, cp) == LiteralAt(s, At(s, cp) == '-', p, a, b)
  {
    MantissaExtent(s, p, a, b);
    LiteralIsMantissa(s, cp, p);
    MantissaIs(s, At(s, cp) == '-', p, a, b);
  }

  /** A sign and digits. */
  lemma SignedRead(s: string, p: nat, sign: string, digits: string, q: nat, e: nat)
    requires Stands(s, p, sign + digits) && IsSign(sign) && digits != [] && AllDec(digits) && !IsDecimal(At(s, e))
    requires q == p + |sign| && e == q + |digits|
    ensures p < |s| && !IsSpace(s[p]) && (At(s, p) == '-' <==> sign == "-")
    ensures q == (if At(s, p) == '+' || At(s, p) == '-' then p + 1 else p) && IsDecimal(At(s, q))
    ensures DigitsEnd(s, q) == e && DigitValues(s, q, e) == DigitValues(digits, 0, |digits|)
  {
    Parts(s, p, sign, digits);
    Chars(s, p, sign);
    Chars(s, q, digits);
    assert s[q] == digits[0];
    assert sign != "" ==> s[p] == sign[0];
    DigitsStand(s, q, digits, e);
    DigitsEndIs(s, q, e);
  }

  lemma IntegerIs(s: string, i: nat, p: nat, q: nat, e: nat, neg: bool, d: seq<int>, n: int)
    requires i <= |s| && p == SpacesEnd(s, i) && (At(s, p) == '-' <==> neg)
    requires q == (if At(s, p) == '+' || At(s, p) == '-' then p + 1 else p) && IsDecimal(At(s, q))
    requires DigitsEnd(s, q) == e && DigitValues(s, q, e) == d && n == Dec(d, 0, |d|)
    ensures ReadInteger(s, i) == Some((if neg then -n else n, e))
  {
  }

  lemma SignedInteger(s: string, i: nat, p: nat, sign: string, digits: string, n: int, e: nat)
    requires i <= |s| && p == SpacesEnd(s, i) && IsSign(sign) && digits != [] && AllDec(digits) && !IsDecimal(At(s, e))
    requires Stands(s, p, sign + digits) && e == p + |sign| + |digits| && n == Written(digits)
    ensures ReadInteger(s, i) == Some((if sign == "-" then -n else n, e))
  {
    var q, d := p + |sign|, DigitValues(digits, 0, |digits|);
    SignedRead(s, p, sign, digits, q, e);
    WrittenIsDec(digits, d);
    IntegerIs(s, i, p, q, e, sign == "-", d, n);
  }

  lemma SignedFirst(s: string, p: nat, sign: string, digits: string)
    requires Stands(s, p, sign + digits) && IsSign(sign) && digits != [] && AllDec(digits)
    ensures p < |s| && !IsSpace(s[p])
  {
    Chars(s, p, sign + digits);
    assert s[p] == (sign + digits)[0];
  }

  /** The exponent at b, after its letter. */
  lemma PowerInteger(s: string, b: nat, r: Power, p: nat, e: nat)
    requires r.Legal() && Stands(s, b, r.blanks) && Stands(s, p, r.sign + r.digits) && !IsDecimal(At(s, e))
    requires p == b + |r.blanks| && e == p + |r.sign| + |r.digits|
    ensures ReadInteger(s, b) == Some((r.Exponent(), e))
  {
    SignedFirst(s, p, r.sign, r.digits);
    BlanksRead(s, b, r.blanks);
    SignedInteger(s, b, p, r.sign, r.digits, Written(r.digits), e);
  }

  lemma PowerRead(s: string, b: nat, r: Power, e: nat)
    requires r.Legal() && Stands(s, b, r.Text()) && e == b + |r.Text()| && !IsDecimal(At(s, e))
    ensures ReadExponent(s, b) == Some((r.Exponent(), e))
  {
    Parts(s, b, [r.letter], r.blanks + (r.sign + r.digits));
    Chars(s, b, [r.letter]);
    assert s[b] == [r.letter][0];
    Parts(s, b + 1, r.blanks, r.sign + r.digits);
    PowerInteger(s, b + 1, r, b + 1 + |r.blanks|, e);
  }

  /** Where the parts of the text of f are: the sign at cp, digits at p, the point at a, the exponent at b, and
      what follows it at e. */
  datatype Places = Places(cp: nat, p: nat, a: nat, b: nat, e: nat)

  ghost predicate Placed(f: LegalForm, s: string, x: Places) {
    && x.cp == |f.lead| && x.p == x.cp + |f.sign| && x.a == x.p + |f.whole| && x.b == x.a + |f.FracText()|
    && x.e == x.b + |f.PowerText()| && |s| == x.e + |f.trail|
    && Stands(s, 0, f.lead) && Stands(s, x.cp, f.sign) && Stands(s, x.p, f.whole) && Stands(s, x.a, f.FracText())
    && Stands(s, x.b, f.PowerText()) && Stands(s, x.e, f.trail)
  }

  lemma ThreeParts(s: string, i: nat, t: string, u: string, v: string, j: nat, k: nat)
    requires Stands(s, i, t + (u + v)) && j == i + |t| && k == j + |u|
    ensures Stands(s, i, t) && Stands(s, j, u) && Stands(s, k, v)
  {
    Parts(s, i, t, u + v);
    Parts(s, j, u, v);
  }

  lemma SixParts(s: string, x: Places, t: string, u: string, v: string, w: string, y: string, z: string)
    requires s == t + (u + (v + (w + (y + z))))
    requires x.cp == |t| && x.p == x.cp + |u| && x.a == x.p + |v| && x.b == x.a + |w| && x.e == x.b + |y|
    ensures Stands(s, 0, t) && Stands(s, x.cp, u) && Stands(s, x.p, v) && Stands(s, x.a, w)
    ensures Stands(s, x.b, y) && Stands(s, x.e, z) && |s| == x.e + |z|
  {
    assert Stands(s, 0, s);
    ThreeParts(s, 0, t, u, v + (w + (y + z)), x.cp, x.p);
    ThreeParts(s, x.p, v, w, y + z, x.a, x.b);
    Parts(s, x.b, y, z);
  }

  lemma FormPlaces(f: LegalForm) returns (x: Places)
    ensures Placed(f, f.Text(), x)
  {
    var cp, m := |f.lead|, |f.whole|;
    var b := cp + |f.sign| + m + |f.FracText()|;
    x := Places(cp, cp + |f.sign|, cp + |f.sign| + m, b, b + |f.PowerText()|);
    SixParts(f.Text(), x, f.lead, f.sign, f.whole, f.FracText(), f.PowerText(), f.trail);
  }

  /** A sign before something else. */
  lemma SignStands(s: string, cp: nat, sign: string, p: nat)
    requires Stands(s, cp, sign) && IsSign(sign) && p == cp + |sign| && p < |s| && (IsDecimal(s[p]) || s[p] == '.')
    ensures cp < |s| && !IsSpace(s[cp]) && (At(s, cp) == '-' <==> sign == "-")
    ensures p == if At(s, cp) == '+' || At(s, cp) == '-' then cp + 1 else cp
  {
    Chars(s, cp, sign);
    if sign != "" { assert s[cp] == sign[0]; }
  }

  lemma FormBody(f: LegalForm, s: string, x: Places)
    requires Placed(f, s, x)
    ensures x.p < |s| && (IsDecimal(s[x.p]) || s[x.p] == '.')
  {
    if f.whole != [] {
      Chars(s, x.p, f.whole);
      assert s[x.p] == f.whole[0];
    } else {
      Chars(s, x.a, f.FracText());
      assert s[x.a] == f.FracText()[0];
    }
  }

  lemma FormSign(f: LegalForm, s: string, x: Places)
    requires Placed(f, s, x)
    ensures x.cp < |s| && !IsSpace(s[x.cp]) && (At(s, x.cp) == '-' <==> f.sign == "-")
    ensures x.p == if At(s, x.cp) == '+' || At(s, x.cp) == '-' then x.cp + 1 else x.cp
  {
    FormBody(f, s, x);
    SignStands(s, x.cp, f.sign, x.p);
  }

  /** The blanks in front. */
  lemma FormLead(f: LegalForm, s: string, x: Places)
    requires Placed(f, s, x)
    ensures SpacesEnd(s, 0) == x.cp
  {
    FormSign(f, s, x);
    BlanksRead(s, 0, f.lead);
  }

  lemma FormTrail(f: LegalForm, s: string, x: Places)
    requires Placed(f, s, x)
    ensures At(s, x.e) != '.' && At(s, x.e) != 'e' && At(s, x.e) != 'E' && !IsDecimal(At(s, x.e)) && SpacesEnd(s, x.e) == |s|
  {
    Chars(s, x.e, f.trail);
    assert f.trail != [] ==> s[x.e] == f.trail[0];
    BlanksRead(s, x.e, f.trail);
  }

  lemma LetterStands(s: string, b: nat, r: Power)
    requires Stands(s, b, r.Text())
    ensures b < |s| && s[b] == r.letter
  {
    Chars(s, b, r.Text());
    assert r.Text()[0] == r.letter;
  }

  /** What follows the mantissa. */
  lemma FormRest(f: LegalForm, s: string, x: Places)
    requires Placed(f, s, x)
    ensures !IsDecimal(At(s, x.b)) && At(s, x.b) != '.'
    ensures f.power.None? ==> At(s, x.b) != 'e' && At(s, x.b) != 'E' && x.b == x.e
  {
    if f.power.Some? {
      LetterStands(s, x.b, f.power.value);
    } else {
      FormTrail(f, s, x);
    }
  }

  lemma FormPower(f: LegalForm, s: string, x: Places)
    requires Placed(f, s, x)
    ensures ReadExponent(s, x.b) == Some((f.Exponent(), x.e))
  {
    FormRest(f, s, x);
    FormTrail(f, s, x);
    if f.power.Some? { PowerRead(s, x.b, f.power.value, x.e); }
  }

  lemma PointStands(s: string, a: nat, frac: string, b: nat)
    requires Stands(s, a, "." + frac) && AllDec(frac) && b == a + 1 + |frac|
    ensures s[a] == '.' && (forall k :: a + 1 <= k < b ==> IsDecimal(s[k]))
    ensures DigitValues(s, a + 1, b) == DigitValues(frac, 0, |frac|)
  {
    Parts(s, a, ".", frac);
    Chars(s, a, ".");
    assert s[a] == "."[0];
    DigitsStand(s, a + 1, frac, b);
  }

  lemma FormDigits(f: LegalForm, s: string, x: Places)
    requires Placed(f, s, x)
    ensures IsMantissa(s, x.p, x.a, x.b) && DigitValues(s, x.p, x.a) == DigitValues(f.whole, 0, |f.whole|)
    ensures x.a < x.b <==> f.frac.Some?
    ensures x.a < x.b ==> DigitValues(s, x.a + 1, x.b) == DigitValues(f.frac.value, 0, |f.frac.value|)
  {
    DigitsStand(s, x.p, f.whole, x.a);
    if f.frac.Some? { PointStands(s, x.a, f.frac.value, x.b); }
  }

  /** The literal that a text of the grammar is, up to its end at e. */
  ghost function LiteralOf(f: LegalForm, e: nat): (l: Literal) {
    var w, d := f.whole, f.Decimals();
    Literal(f.sign == "-", DigitValues(w, 0, |w|), DigitValues(d, 0, |d|), f.Exponent(), e)
  }

  lemma LiteralAtIs(s: string, p: nat, a: nat, b: nat, l: Literal)
    requires IsMantissa(s, p, a, b) && ReadExponent(s, b) == Some((l.exponent, l.end))
    requires DigitValues(s, p, a) == l.whole && l.frac == if a < b then DigitValues(s, a + 1, b) else []
    ensures LiteralAt(s, l.neg, p, a, b) == Some(l)
  {
  }

  lemma FormFields(f: LegalForm, s: string, x: Places, l: Literal)
    requires Placed(f, s, x) && l == LiteralOf(f, x.e)
    ensures IsMantissa(s, x.p, x.a, x.b) && DigitValues(s, x.p, x.a) == l.whole
    ensures l.frac == if x.a < x.b then DigitValues(s, x.a + 1, x.b) else []
  {
    FormDigits(f, s, x);
  }

  /** The exponent of the literal. */
  lemma FormExponent(f: LegalForm, s: string, x: Places, l: Literal)
    requires Placed(f, s, x) && l == LiteralOf(f, x.e)
    ensures ReadExponent(s, x.b) == Some((l.exponent, l.end))
  {
    FormPower(f, s, x);
  }

  /** What a mantissa and the exponent behind it must be for the literal l to be read. */
  ghost predicate Shows(s: string, x: Places, l: Literal) {
    && x.cp <= x.p && x.p == (if At(s, x.cp) == '+' || At(s, x.cp) == '-' then x.cp + 1 else x.cp)
    && (At(s, x.cp) == '-' <==> l.neg) && IsMantissa(s, x.p, x.a, x.b) && (x.p < x.a || x.a + 1 < x.b)
    && DigitValues(s, x.p, x.a) == l.whole && l.frac == (if x.a < x.b then DigitValues(s, x.a + 1, x.b) else [])
    && !IsDecimal(At(s, x.b)) && At(s, x.b) != '.' && ReadExponent(s, x.b) == Some((l.exponent, l.end))
  }

  lemma LiteralRead(s: string, x: Places, l: Literal)
    requires Shows(s, x, l)
    ensures ReadLiteral(s, x.cp) == Some(l)
  {
    LiteralAtIs(s, x.p, x.a, x.b, l);
    MantissaRead(s, x.cp, x.p, x.a, x.b);
  }

  lemma FormShows(f: LegalForm, s: string, x: Places, l: Literal)
    requires Placed(f, s, x) && l == LiteralOf(f, x.e)
    ensures Shows(s, x, l)
  {
    FormSign(f, s, x);
    FormRest(f, s, x);
    FormExponent(f, s, x, l);
    FormFields(f, s, x, l);
  }

  lemma FormLiteral(f: LegalForm, s: string, x: Places, l: Literal)
    requires Placed(f, s, x) && l == LiteralOf(f, x.e)
    ensures ReadLiteral(s, x.cp) == Some(l)
  {
    FormShows(f, s, x, l);
    LiteralRead(s, x, l);
  }

  lemma FormText(f: LegalForm, s: string, x: Places, l: Literal)
    requires Placed(f, s, x) && l == LiteralOf(f, x.e)
    ensures ReadText(s) == Some(l)
  {
    FormLead(f, s, x);
    FormTrail(f, s, x);
    FormLiteral(f, s, x, l);
  }

  lemma LiteralDenotes(f: LegalForm, e: nat)
    ensures LiteralOf(f, e).Value() == f.Value() && LiteralOf(f, e).Scale() == f.Scale()
  {
    var w, d := f.whole, f.Decimals();
    var t := w + d;
    var l := LiteralOf(f, e);
    assert l.Digits() == DigitValues(t, 0, |t|);
    WrittenIsDec(t, l.Digits());
  }

  /** Every text of the grammar is read, as the number it denotes with the scale it shows. */
  lemma FormReads(f: LegalForm)
    ensures var l := ReadText(f.Text()); l.Some? && l.value.Value() == f.Value() && l.value.Scale() == f.Scale()
  {
    var x := FormPlaces(f);
    FormText(f, f.Text(), x, LiteralOf(f, x.e));
    LiteralDenotes(f, x.e);
  }

  // ---- every text that is read is of the grammar

  lemma SliceDigits(s: string, i: nat, j: nat)
    requires i <= j <= |s| && forall k :: i <= k < j ==> IsDecimal(s[k])
    ensures AllDec(s[i..j]) && DigitValues(s[i..j], 0, j - i) == DigitValues(s, i, j)
  {
  }

  lemma SliceSign(s: string, i: nat, j: nat)
    requires i <= |s| && j == if At(s, i) == '+' || At(s, i) == '-' then i + 1 else i
    ensures j <= |s| && IsSign(s[i..j])
  {
    if j > i { assert s[i..j] == [s[i]]; }
  }

  lemma Join3(s: string, i: nat, j: nat, k: nat, m: nat)
    requires i <= j <= k <= m <= |s|
    ensures s[i..m] == s[i..j] + (s[j..k] + s[k..m])
  {
  }

  lemma IntegerParts(s: string, i: nat, p: nat, q: nat, e: nat)
    requires i <= |s| && p == SpacesEnd(s, i) && q == if At(s, p) == '+' || At(s, p) == '-' then p + 1 else p
    requires ReadInteger(s, i).Some? && e == ReadInteger(s, i).value.1
    ensures p <= q < e <= |s| && e == DigitsEnd(s, q)
    ensures var d := DigitValues(s, q, e); ReadInteger(s, i).value.0 == if At(s, p) == '-' then -Dec(d, 0, |d|) else Dec(d, 0, |d|)
  {
  }

  /** The integer of a text that was read. */
  lemma ParseInteger(s: string, i: nat, e: nat) returns (blanks: string, sign: string, digits: string)
    requires i <= |s| && ReadInteger(s, i).Some? && e == ReadInteger(s, i).value.1
    ensures i <= e <= |s| && s[i..e] == blanks + (sign + digits)
    ensures Blank(blanks) && IsSign(sign) && digits != [] && AllDec(digits)
    ensures ReadInteger(s, i).value.0 == if sign == "-" then -(Written(digits) as int) else Written(digits)
  {
    var p := SpacesEnd(s, i);
    var q := if At(s, p) == '+' || At(s, p) == '-' then p + 1 else p;
    IntegerParts(s, i, p, q, e);
    SpacesAre(s, i);
    SliceSign(s, p, q);
    SliceDigits(s, q, e);
    blanks, sign, digits := s[i..p], s[p..q], s[q..e];
    WrittenIsDec(digits, DigitValues(s, q, e));
    Join3(s, i, p, q, e);
    SignIs(s, p, q);
  }

  lemma SignIs(s: string, p: nat, q: nat)
    requires p <= |s| && q == (if At(s, p) == '+' || At(s, p) == '-' then p + 1 else p)
    ensures q <= |s| && (At(s, p) == '-' <==> s[p..q] == "-")
  {
    if q > p { assert s[p..q] == [s[p]]; }
  }

  lemma ExponentLimit(s: string, b: nat)
    requires b < |s| && (s[b] == 'e' || s[b] == 'E') && ReadExponent(s, b).Some?
    ensures ReadInteger(s, b + 1) == ReadExponent(s, b) && -1073741823 < ReadExponent(s, b).value.0 < 1073741823
  {
  }

  lemma PowerLegal(r: Power)
    requires (r.letter == 'e' || r.letter == 'E') && Blank(r.blanks) && IsSign(r.sign) && r.digits != [] && AllDec(r.digits)
    requires -1073741823 < r.Exponent() < 1073741823
    ensures r.Legal()
  {
  }

  /** The exponent of a text that was read. */
  lemma ParsePower(s: string, b: nat, e: nat) returns (r: Power)
    requires b < |s| && (s[b] == 'e' || s[b] == 'E') && ReadExponent(s, b).Some? && e == ReadExponent(s, b).value.1
    ensures b <= e <= |s| && r.Legal() && s[b..e] == r.Text()
  {
    ExponentLimit(s, b);
    var blanks, sign, digits := ParseInteger(s, b + 1, e);
    r := Power(s[b], blanks, sign, digits);
    PowerLegal(r);
    FirstOf(s, b, e);
  }

  lemma FirstOf(s: string, b: nat, e: nat)
    requires b < e <= |s|
    ensures s[b..e] == [s[b]] + s[b + 1..e]
  {
  }

  /** The exponent, if there is one. */
  lemma ParseEnd(s: string, b: nat) returns (r: Option<Power>, e: nat)
    requires b <= |s| && ReadExponent(s, b).Some?
    ensures b <= e <= |s| && e == ReadExponent(s, b).value.1 && (r.Some? ==> r.value.Legal())
    ensures s[b..e] == if r.None? then [] else r.value.Text()
  {
    e := ReadExponent(s, b).value.1;
    if At(s, b) == 'e' || At(s, b) == 'E' {
      var x := ParsePower(s, b, e);
      r := Some(x);
    } else {
      r := None;
    }
  }

  /** The digits and the point. */
  lemma ParseMantissa(s: string, p: nat, a: nat, b: nat) returns (frac: Option<string>)
    requires IsMantissa(s, p, a, b)
    ensures AllDec(s[p..a]) && (frac.Some? ==> AllDec(frac.value) && |frac.value| == b - a - 1)
    ensures s[a..b] == (if frac.None? then [] else "." + frac.value)
  {
    SliceDigits(s, p, a);
    if a < b {
      SliceDigits(s, a + 1, b);
      frac := Some(s[a + 1..b]);
      assert s[a..b] == [s[a]] + s[a + 1..b];
    } else {
      frac := None;
    }
  }

  lemma SignEnds(s: string, cp: nat, p: nat)
    requires cp <= |s| && p == if At(s, cp) == '+' || At(s, cp) == '-' then cp + 1 else cp
    ensures cp <= p <= |s|
  {
  }

  lemma MantissaEnds(s: string, p: nat, a: nat, b: nat)
    requires p <= |s| && a == if At(s, p) == '.' then p else DigitsEnd(s, p)
    requires a <= |s| && b == if At(s, a) == '.' then DigitsEnd(s, a + 1) else a
    ensures IsMantissa(s, p, a, b)
  {
  }

  lemma DigitFound(s: string, p: nat, a: nat, b: nat)
    requires IsMantissa(s, p, a, b) && IsDecimal(At(s, if At(s, p) == '.' then p + 1 else p))
    requires a == if At(s, p) == '.' then p else DigitsEnd(s, p)
    requires b == if At(s, a) == '.' then DigitsEnd(s, a + 1) else a
    ensures p < a || a + 1 < b
  {
  }

  /** Where the parts of the mantissa of a literal are. */
  lemma MantissaIs(s: string, neg: bool, p: nat, a: nat, b: nat)
    requires p <= |s| && IsDecimal(At(s, if At(s, p) == '.' then p + 1 else p)) && IsMantissa(s, p, a, b)
    requires a == if At(s, p) == '.' then p else DigitsEnd(s, p)
    requires b == if At(s, a) == '.' then DigitsEnd(s, a + 1) else a
    ensures ReadMantissa(s, neg, p) == if At(s, a) == '.' && At(s, b) == '.' then None else LiteralAt(s, neg, p, a, b)
  {
  }

  lemma LiteralStart(s: string, cp: nat, p: nat)
    requires cp <= |s| && p == (if At(s, cp) == '+' || At(s, cp) == '-' then cp + 1 else cp) && ReadLiteral(s, cp).Some?
    ensures p <= |s| && IsDecimal(At(s, if At(s, p) == '.' then p + 1 else p))
    ensures ReadLiteral(s, cp) == ReadMantissa(s, At(s, cp) == '-', p)
  {
  }

  lemma MantissaParts(s: string, cp: nat) returns (p: nat, a: nat, b: nat)
    requires cp <= |s| && ReadLiteral(s, cp).Some?
    ensures cp <= p && IsMantissa(s, p, a, b) && (p < a || a + 1 < b)
    ensures p == if At(s, cp) == '+' || At(s, cp) == '-' then cp + 1 else cp
    ensures ReadExponent(s, b).Some? && ReadExponent(s, b).value.1 == ReadLiteral(s, cp).value.end
  {
    p := if At(s, cp) == '+' || At(s, cp) == '-' then cp + 1 else cp;
    SignEnds(s, cp, p);
    a := if At(s, p) == '.' then p else DigitsEnd(s, p);
    b := if At(s, a) == '.' then DigitsEnd(s, a + 1) else a;
    MantissaEnds(s, p, a, b);
    LiteralStart(s, cp, p);
    DigitFound(s, p, a, b);
    MantissaIs(s, At(s, cp) == '-', p, a, b);
    LiteralAtEnd(s, At(s, cp) == '-', p, a, b);
  }

  lemma LiteralAtEnd(s: string, neg: bool, p: nat, a: nat, b: nat)
    requires IsMantissa(s, p, a, b) && LiteralAt(s, neg, p, a, b).Some?
    ensures ReadExponent(s, b).Some? && ReadExponent(s, b).value.1 == LiteralAt(s, neg, p, a, b).value.end
  {
  }

  /** The parts put together. */
  lemma Assembled(s: string, f: Form, cp: nat, p: nat, a: nat, b: nat, e: nat)
    requires cp <= p <= a <= b <= e <= |s| && f.lead == s[..cp] && f.sign == s[cp..p] && f.whole == s[p..a]
    requires f.FracText() == s[a..b] && f.PowerText() == s[b..e] && f.trail == s[e..]
    ensures f.Text() == s
  {
    Join3(s, 0, cp, p, |s|);
    Join3(s, p, a, b, |s|);
    Join3(s, b, e, |s|, |s|);
    assert s[b..] == s[b..e] + s[e..];
    assert s[0..cp] == s[..cp] && s[0..|s|] == s;
  }

  lemma ParseParts(s: string, cp: nat, p: nat, a: nat, b: nat, e: nat) returns (f: Form)
    requires cp <= |s| && p == (if At(s, cp) == '+' || At(s, cp) == '-' then cp + 1 else cp)
    requires IsMantissa(s, p, a, b) && (p < a || a + 1 < b) && ReadExponent(s, b).Some? && ReadExponent(s, b).value.1 == e
    ensures b <= e <= |s| && f.Text() == s && f.lead == s[..cp] && f.trail == s[e..]
    ensures Blank(f.lead) && Blank(f.trail) ==> f.Legal()
  {
    SliceSign(s, cp, p);
    var frac := ParseMantissa(s, p, a, b);
    var power, end := ParseEnd(s, b);
    f := Form(s[..cp], s[cp..p], s[p..a], frac, power, s[e..]);
    SomeDigit(f, p, a, b);
    Assembled(s, f, cp, p, a, b, e);
  }

  lemma SomeDigit(f: Form, p: nat, a: nat, b: nat)
    requires |f.whole| == a - p && |f.FracText()| == b - a && (p < a || a + 1 < b)
    ensures f.whole + f.Decimals() != []
  {
    assert |f.whole + f.Decimals()| > 0;
  }

  lemma BlankEnds(s: string, cp: nat, e: nat)
    requires SpacesEnd(s, 0) == cp && e <= |s| && SpacesEnd(s, e) == |s|
    ensures cp <= |s| && Blank(s[..cp]) && Blank(s[e..])
  {
    SpacesAre(s, 0);
    SpacesAre(s, e);
    assert s[0..cp] == s[..cp] && s[e..|s|] == s[e..];
  }

  lemma ParseForm(s: string, cp: nat, e: nat) returns (f: Form)
    requires cp <= |s| && e <= |s| && Blank(s[..cp]) && Blank(s[e..])
    requires ReadLiteral(s, cp).Some? && ReadLiteral(s, cp).value.end == e
    ensures f.Legal() && f.Text() == s
  {
    var p, a, b := MantissaParts(s, cp);
    f := ParseParts(s, cp, p, a, b, e);
  }

  /** Every text that is read is of the grammar, and denotes what is read. */
  lemma AcceptedIsForm(s: string) returns (f: LegalForm)
    requires ReadText(s).Some?
    ensures f.Text() == s && ReadText(s).value.Value() == f.Value() && ReadText(s).value.Scale() == f.Scale()
  {
    var cp := SpacesEnd(s, 0);
    var e := ReadLiteral(s, cp).value.end;
    BlankEnds(s, cp, e);
    f := ParseForm(s, cp, e);
    FormReads(f);
  }

  /** A text is read exactly if it is of the grammar. */
  lemma AcceptedExactly(s: string)
    ensures ReadText(s).Some? <==> exists f: LegalForm :: f.Text() == s
  {
    if ReadText(s).Some? {
      var f := AcceptedIsForm(s);
    }
    forall f: LegalForm | f.Text() == s ensures ReadText(s).Some? {
      FormReads(f);
    }
  }

  // ---- exponents

  ghost function Signed(sign: string, m: real): (x: real) {
    if sign == "-" then -m else m
  }

  lemma ShiftSigned(sign: string, x: real, e: int)
    ensures Shift(Signed(sign, x), e) == Signed(sign, Shift(x, e))
  {
    ShiftSum(0.0, x, e);
    ShiftZero(e);
  }

  /** An exponent shifts the number, and takes decimals from its scale. */
  lemma PowerShifts(m: LegalForm, r: Power, f: Form)
    requires m.power.None? && r.Legal() && f == m.(power := Some(r))
    ensures f.Legal() && f.Value() == Shift(m.Value(), r.Exponent()) && f.Scale() == Max(0, |m.Decimals()| - r.Exponent())
  {
    var x, d := Written(m.whole + m.Decimals()) as real, |m.Decimals()|;
    ShiftAdd(x, -d, r.Exponent());
    ShiftSigned(m.sign, Shift(x, -d), r.Exponent());
  }

  lemma PowerText(m: LegalForm, r: Power)
    requires m.power.None? && m.trail == []
    ensures m.(power := Some(r)).Text() == m.Text() + r.Text()
  {
    var t := r.Text();
    Regroup(m.lead, m.sign + (m.whole + m.FracText()), t);
    Regroup(m.sign, m.whole + m.FracText(), t);
    Regroup(m.whole, m.FracText(), t);
    assert [] + m.trail == [] && m.FracText() + [] == m.FracText() && t + [] == t;
  }

  /** The text is the number x with the scale d. */
  ghost predicate ReadsAs(s: string, x: real, d: int) {
    var l := ReadText(s);
    l.Some? && l.value.Value() == x && l.value.Scale() == d
  }

  /** What the text of m and an exponent are read as. */
  lemma PowerIsRead(m: LegalForm, r: Power, text: string, v: real, k: int)
    requires m.power.None? && m.trail == [] && r.Legal() && text == m.Text() + r.Text()
    requires v == Shift(m.Value(), r.Exponent()) && k == Max(0, |m.Decimals()| - r.Exponent())
    ensures ReadsAs(text, v, k)
  {
    var f := m.(power := Some(r));
    PowerShifts(m, r, f);
    PowerText(m, r);
    FormReads(f);
  }

  lemma PlainPower(e: char, sign: string, d: string) returns (r: Power)
    requires (e == 'e' || e == 'E') && IsSign(sign) && d != [] && AllDec(d) && Written(d) < 1073741823
    ensures r.Legal() && r.Text() == [e] + (sign + d) && r.sign == sign && r.digits == d
  {
    r := Power(e, "", sign, d);
    assert "" + (sign + d) == sign + d;
  }

  /** A number followed by "e" or "E", a plus sign or none, and digits is multiplied by that power of ten; with a minus
      sign before the digits it is divided by it. */
  lemma ExponentSigns(m: LegalForm, e: char, sign: string, d: string, n: int, text: string)
    requires m.power.None? && m.trail == [] && (e == 'e' || e == 'E') && d != [] && AllDec(d) && n == Written(d)
    requires (sign == "" || sign == "+" || sign == "-") && n < 1073741823 && text == m.Text() + ([e] + (sign + d))
    ensures sign != "-" ==> ReadsAs(text, Shift(m.Value(), n), Max(0, |m.Decimals()| - n))
    ensures sign == "-" ==> ReadsAs(text, Shift(m.Value(), -n), |m.Decimals()| + n)
  {
    var r := PlainPower(e, sign, d);
    var k := if sign == "-" then -n else n;
    assert r.Exponent() == k;
    PowerIsRead(m, r, text, Shift(m.Value(), k), Max(0, |m.Decimals()| - k));
  }

  /** A variable from a text of the grammar. */
  method ReadForm(s: string, ghost f: LegalForm) returns (v: Numeric)
    requires s == f.Text()
    ensures fresh(v) && v.Get().Normal() && v.Get().Value() == f.Value() && v.dscale == f.Scale()
  {
    FormReads(f);
    v := FromText(s);
  }
}
