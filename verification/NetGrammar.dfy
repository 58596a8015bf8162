/** The texts that the reader of IPv6 addresses accepts, as a grammar, and what they denote. */
module NetGrammar {
  import opened Basics
  import opened DecimalText
  import opened NetParse

  // ---- parts

  ghost predicate AllHex(s: string) {
    forall i :: 0 <= i < |s| ==> HexValue(s[i]) >= 0
  }

  /** The number that hexadecimal digits add to val. */
  ghost function HexRead(val: nat, s: string): (v: nat)
    requires AllHex(s)
    decreases |s|
  {
    if s == [] then val else HexRead(val * 16 + HexValue(s[0]), s[1..])
  }

  /** A word: one to four hexadecimal digits. */
  ghost predicate IsGroup(g: string) {
    1 <= |g| <= 4 && AllHex(g)
  }

  ghost predicate AllGroups(gs: seq<string>) {
    forall i :: 0 <= i < |gs| ==> IsGroup(gs[i])
  }

  ghost function DecRead(val: nat, s: string): (v: nat)
    requires AllDec(s)
    decreases |s|
  {
    if s == [] then val else DecRead(val * 10 + DecimalValue(s[0]), s[1..])
  }

  /** A decimal number without leading zeros. */
  ghost predicate IsNumber(s: string) {
    s != [] && AllDec(s) && (|s| > 1 ==> s[0] != '0')
  }

  /** An octet, or nothing, which counts as zero. */
  ghost predicate IsOctet(o: string) {
    o == [] || (IsNumber(o) && DecRead(0, o) <= 255)
  }

  ghost predicate AllOctets(os: seq<string>) {
    forall i :: 0 <= i < |os| ==> IsOctet(os[i])
  }

  ghost predicate IsPrefix(p: Option<string>) {
    p.Some? ==> IsNumber(p.value) && DecRead(0, p.value) <= 128
  }

  // ---- texts

  /** Words, each with a colon after it. */
  ghost function Words(gs: seq<string>): (s: string) {
    if gs == [] then [] else gs[0] + (":" + Words(gs[1..]))
  }

  ghost function WordsBytes(gs: seq<string>): (b: seq<byte>)
    requires AllGroups(gs)
    ensures |b| == 2 * |gs|
  {
    if gs == [] then [] else WordBytes(HexRead(0, gs[0])) + WordsBytes(gs[1..])
  }

  ghost function Dots(os: seq<string>): (s: string)
    requires os != []
  {
    if |os| == 1 then os[0] else os[0] + ("." + Dots(os[1..]))
  }

  ghost predicate AllBytes(os: seq<string>) {
    forall i :: 0 <= i < |os| ==> AllDec(os[i]) && DecRead(0, os[i]) <= 255
  }

  ghost function OctetBytes(os: seq<string>): (b: seq<byte>)
    requires AllBytes(os)
    ensures |b| == |os|
  {
    if os == [] then [] else [DecRead(0, os[0])] + OctetBytes(os[1..])
  }

  ghost function PrefixText(p: Option<string>): (s: string) {
    if p.None? then [] else "/" + p.value
  }

  /** What stands after the last colon. */
  datatype Tail = Nothing | Group(g: string) | Quad(os: seq<string>) {
    ghost predicate Legal(prefix: Option<string>) {
      match this
      case Nothing => true
      case Group(g) => IsGroup(g)
      case Quad(os) => 2 <= |os| <= 4 && AllOctets(os) && (prefix.None? ==> os[|os| - 1] != [])
    }

    ghost function Text(): (s: string)
      requires Quad? ==> os != []
    {
      match this
      case Nothing => []
      case Group(g) => g
      case Quad(os) => Dots(os)
    }

    /** A quad with less than four octets is filled with zeros. */
    ghost function Bytes(prefix: Option<string>): (b: seq<byte>)
      requires Legal(prefix)
      ensures |b| == if Nothing? then 0 else if Group? then 2 else 4
    {
      match this
      case Nothing => []
      case Group(g) => WordBytes(HexRead(0, g))
      case Quad(os) => OctetBytes(os) + Zeros(4 - |os|)
    }
  }

  /** A text: words, the double colon if there is one, more words, the tail, and the prefix length. */
  datatype Form = Form(left: seq<string>, gap: bool, right: seq<string>, tail: Tail, prefix: Option<string>) {
    ghost predicate Legal() {
      && AllGroups(left) && AllGroups(right) && tail.Legal(prefix) && IsPrefix(prefix)
      && (!gap ==> right == [])
      && (tail.Nothing? && prefix.None? ==> gap && right == [])
      && if gap then Size() < 16 else Size() == 16
    }

    /** The number of bytes written out. */
    ghost function Size(): (n: int)
      requires tail.Legal(prefix)
    {
      2 * |left| + 2 * |right| + |tail.Bytes(prefix)|
    }
  }

  /** The texts that are accepted. */
  type LegalForm = f: Form | f.Legal() ghost witness Form([], true, [], Nothing, None)

  /** The text after the words on the left. */
  ghost function RestText(f: LegalForm): (s: string) {
    (if f.gap then ":" + Words(f.right) else []) + (f.tail.Text() + PrefixText(f.prefix))
  }

  /** The text; a double colon in front is the only one that brings both its colons with it. */
  ghost function FormText(f: LegalForm): (s: string) {
    (if f.gap && f.left == [] then ":" else []) + (Words(f.left) + RestText(f))
  }

  ghost function BitsOf(p: Option<string>): (n: int)
    requires IsPrefix(p)
  {
    if p.None? then 128 else DecRead(0, p.value)
  }

  /** The address and the prefix length: zeros stand for the double colon. */
  ghost function Denoted(f: LegalForm): (r: (seq<byte>, int)) {
    (WordsBytes(f.left) + Zeros(16 - f.Size()) + (WordsBytes(f.right) + f.tail.Bytes(f.prefix)), BitsOf(f.prefix))
  }

  lemma DenotedIs(f: LegalForm, l: seq<byte>, r: seq<byte>, e: seq<byte>)
    requires l == WordsBytes(f.left) && r == WordsBytes(f.right) && e == f.tail.Bytes(f.prefix)
    ensures |l| + |r| + |e| <= 16 && Denoted(f) == (l + Zeros(16 - |l| - |r| - |e|) + (r + e), BitsOf(f.prefix))
  {
  }

  /** The texts of sections 2.2 and 2.3 of RFC 4291: quads are complete, and no colon stands before the prefix
      length but those of a double colon. */
  ghost predicate Strict(f: LegalForm) {
    && (f.tail.Quad? ==> |f.tail.os| == 4 && forall i :: 0 <= i < 4 ==> f.tail.os[i] != [])
    && (f.tail.Nothing? ==> f.gap && f.right == [])
  }

  // ---- reading numbers

  lemma {:induction false} DecGrows(val: nat, s: string)
    requires AllDec(s)
    ensures DecRead(val, s) >= val && (val > 0 && s != [] ==> DecRead(val, s) > val)
    decreases |s|
  {
    if s != [] { DecGrows(val * 10 + DecimalValue(s[0]), s[1..]); }
  }

  lemma {:induction false} BitsRead(s: string, val: nat, n: nat)
    requires AllDec(s) && DecRead(val, s) <= 128 && (n > 0 && s != [] ==> val > 0)
    requires n == 0 && |s| > 1 ==> s[0] != '0'
    ensures BitsFrom(s, val, n) == if s == [] && n == 0 then None else Some(DecRead(val, s))
    decreases |s|
  {
    if s != [] {
      var val' := val * 10 + DecimalValue(s[0]);
      DecGrows(val', s[1..]);
      BitsRead(s[1..], val', n + 1);
    }
  }

  lemma {:induction false} QuadDigits(o: string, rest: string, val: byte, n: nat, octets: seq<byte>)
    requires |octets| <= 4 && AllDec(o) && DecRead(val, o) <= 255 && (n > 0 && o != [] ==> val > 0)
    requires n == 0 && |o| > 1 ==> o[0] != '0'
    ensures QuadFrom(o + rest, val, n, octets) == QuadFrom(rest, DecRead(val, o), n + |o|, octets)
    decreases |o|
  {
    if o == [] {
      assert o + rest == rest;
    } else {
      var val' := val * 10 + DecimalValue(o[0]);
      DecGrows(val', o[1..]);
      assert (o + rest)[1..] == o[1..] + rest;
      QuadDigits(o[1..], rest, val', n + 1, octets);
    }
  }

  lemma PrefixRead(p: Option<string>)
    requires IsPrefix(p) && p.Some?
    ensures PrefixText(p)[0] == '/' && BitsFrom(PrefixText(p)[1..], 0, 0) == Some(DecRead(0, p.value))
  {
    assert PrefixText(p)[1..] == p.value;
    BitsRead(p.value, 0, 0);
  }

  /** The end of a quad. */
  lemma QuadEnds(val: byte, n: nat, p: Option<string>, octets: seq<byte>)
    requires |octets| <= 3 && IsPrefix(p) && (p.None? ==> n > 0)
    ensures QuadFrom(PrefixText(p), val, n, octets)
         == Some((octets + [val], if p.None? then -1 else DecRead(0, p.value)))
  {
    if p.Some? { PrefixRead(p); }
  }

  lemma QuadDot(val: byte, n: nat, rest: string, octets: seq<byte>)
    requires |octets| <= 3
    ensures QuadFrom("." + rest, val, n, octets) == QuadFrom(rest, 0, 0, octets + [val])
  {
    assert ("." + rest)[1..] == rest;
  }

  lemma QuadLast(o: string, p: Option<string>, octets: seq<byte>)
    requires |octets| <= 3 && IsOctet(o) && IsPrefix(p) && (p.None? ==> o != [])
    ensures QuadFrom(o + PrefixText(p), 0, 0, octets)
         == Some((octets + [DecRead(0, o)], if p.None? then -1 else DecRead(0, p.value)))
  {
    QuadDigits(o, PrefixText(p), 0, 0, octets);
    QuadEnds(DecRead(0, o), |o|, p, octets);
  }

  lemma {:induction false} QuadRead(os: seq<string>, p: Option<string>, octets: seq<byte>)
    requires os != [] && |octets| + |os| <= 4 && AllOctets(os) && IsPrefix(p) && (p.None? ==> os[|os| - 1] != [])
    ensures QuadFrom(Dots(os) + PrefixText(p), 0, 0, octets)
         == Some((octets + OctetBytes(os), if p.None? then -1 else DecRead(0, p.value)))
    decreases |os|
  {
    var o, end := os[0], PrefixText(p);
    if |os| == 1 {
      QuadLast(o, p, octets);
      assert OctetBytes(os[1..]) == [] && OctetBytes(os) == [DecRead(0, o)];
    } else {
      var v: byte, rest := DecRead(0, o), Dots(os[1..]) + end;
      assert Dots(os) + end == o + ("." + rest);
      QuadDigits(o, "." + rest, 0, 0, octets);
      QuadDot(v, |o|, rest, octets);
      QuadRead(os[1..], p, octets + [v]);
      Regroup(octets, [v], OctetBytes(os[1..]));
    }
  }

  // ---- reading words

  type Reading = Option<(seq<byte>, int)>

  /** The bytes and the double colon that the reader has met fit together. */
  ghost predicate Fits(out: seq<byte>, colon: Option<nat>) {
    |out| <= 16 && (colon.Some? ==> colon.value <= |out|)
  }

  /** The reader at the start of a word, or of the tail. */
  ghost function Fresh(s: string, out: seq<byte>, colon: Option<nat>): (st: Reader)
    requires Fits(out, colon)
  {
    State(s, out, colon, 0, 0, false)
  }

  /** What the reader makes of the text s from there on. */
  ghost function Reads(s: string, out: seq<byte>, colon: Option<nat>): (r: Reading)
    requires Fits(out, colon)
  {
    ReadFrom(s, Fresh(s, out, colon))
  }

  /** The reader when the digits g have been read. */
  ghost function AfterHex(g: string, st: Reader): (r: Reader)
    requires AllHex(g) && st.digits + |g| <= 4
  {
    st.(val := HexRead(st.val, g), digits := st.digits + |g|, saw := st.saw || g != [])
  }

  lemma {:induction false} ReadHex(g: string, rest: string, st: Reader)
    requires AllHex(g) && st.digits + |g| <= 4
    ensures ReadFrom(g + rest, st) == ReadFrom(rest, AfterHex(g, st))
    decreases |g|
  {
    if g == [] {
      assert g + rest == rest && AfterHex(g, st) == st;
    } else {
      var s := g + rest;
      assert s[0] == g[0] && s[1..] == g[1..] + rest;
      var st' := AfterDigit(s, st);
      ReadHex(g[1..], rest, st');
      assert AfterHex(g[1..], st') == AfterHex(g, st);
    }
  }

  lemma ColonAfterWord(rest: string, st: Reader)
    requires st.saw && |st.out| <= 14 && rest != []
    ensures ReadFrom(":" + rest, st) == ReadFrom(rest, Flush(st, rest))
  {
    assert (":" + rest)[1..] == rest;
  }

  /** One word and its colon. */
  lemma WordRead(g: string, rest: string, out: seq<byte>, colon: Option<nat>)
    requires IsGroup(g) && rest != [] && Fits(out, colon) && |out| <= 14
    ensures Reads(g + (":" + rest), out, colon) == Reads(rest, out + WordBytes(HexRead(0, g)), colon)
  {
    var st := Fresh(g + (":" + rest), out, colon);
    ReadHex(g, ":" + rest, st);
    ColonAfterWord(rest, AfterHex(g, st));
  }

  lemma {:induction false} WordsRead(gs: seq<string>, rest: string, out: seq<byte>, colon: Option<nat>)
    requires AllGroups(gs) && rest != [] && Fits(out, colon) && |out| + 2 * |gs| <= 16
    ensures Reads(Words(gs) + rest, out, colon) == Reads(rest, out + WordsBytes(gs), colon)
    decreases |gs|
  {
    if gs == [] {
      assert Words(gs) + rest == rest && out + WordsBytes(gs) == out;
    } else {
      var g, more := gs[0], Words(gs[1..]) + rest;
      var b := WordBytes(HexRead(0, g));
      assert Words(gs) + rest == g + (":" + more);
      WordRead(g, more, out, colon);
      WordsRead(gs[1..], rest, out + b, colon);
      Regroup(out, b, WordsBytes(gs[1..]));
    }
  }

  /** The second of two colons. */
  lemma GapRead(rest: string, out: seq<byte>)
    requires |out| <= 16
    ensures Reads(":" + rest, out, None) == Reads(rest, out, Some(|out|))
  {
    assert (":" + rest)[1..] == rest;
  }

  // ---- reading the tail

  /** The end of the text, or the prefix length. */
  lemma EndRead(p: Option<string>, st: Reader)
    requires IsPrefix(p)
    ensures ReadFrom(PrefixText(p), st) == Finish(st, BitsOf(p))
  {
    if p.Some? { PrefixRead(p); }
  }

  lemma GroupRead(g: string, p: Option<string>, out: seq<byte>, colon: Option<nat>)
    requires IsGroup(g) && IsPrefix(p) && Fits(out, colon) && |out| <= 14
    ensures Reads(g + PrefixText(p), out, colon) == Expand(out + WordBytes(HexRead(0, g)), colon, BitsOf(p))
  {
    var st := Fresh(g + PrefixText(p), out, colon);
    ReadHex(g, PrefixText(p), st);
    EndRead(p, AfterHex(g, st));
  }

  lemma AtDot(s: string, st: Reader)
    requires s != [] && s[0] == '.'
    ensures ReadFrom(s, st) == FinishQuad(st)
  {
  }

  lemma OctetIsHex(o: string)
    requires IsOctet(o)
    ensures AllHex(o) && |o| <= 3
  {
    if |o| > 3 {
      DecGrows(DecimalValue(o[0]), o[1..]);
      var a, b, c := DecimalValue(o[0]), DecimalValue(o[1]), DecimalValue(o[2]);
      assert DecRead(0, o) == DecRead(a, o[1..]) == DecRead(a * 10 + b, o[1..][1..]);
      assert DecRead(a * 10 + b, o[1..][1..]) == DecRead((a * 10 + b) * 10 + c, o[1..][1..][1..]);
      DecGrows(((a * 10 + b) * 10 + c) * 10 + DecimalValue(o[3]), o[1..][1..][1..][1..]);
    }
  }

  /** The first octet is taken for a word until its dot is seen. */
  lemma DotsRead(os: seq<string>, end: string, st: Reader)
    requires |os| >= 2 && IsOctet(os[0]) && st.digits == 0
    ensures ReadFrom(Dots(os) + end, st) == FinishQuad(st)
  {
    var rest := "." + (Dots(os[1..]) + end);
    assert Dots(os) + end == os[0] + rest;
    OctetIsHex(os[0]);
    ReadHex(os[0], rest, st);
    AtDot(rest, AfterHex(os[0], st));
  }

  lemma QuadTailRead(os: seq<string>, p: Option<string>, out: seq<byte>, colon: Option<nat>)
    requires Quad(os).Legal(p) && IsPrefix(p) && Fits(out, colon) && |out| <= 12
    ensures Reads(Dots(os) + PrefixText(p), out, colon) == Expand(out + Quad(os).Bytes(p), colon, BitsOf(p))
  {
    var s := Dots(os) + PrefixText(p);
    DotsRead(os, PrefixText(p), Fresh(s, out, colon));
    QuadFinishes(os, p, Fresh(s, out, colon));
  }

  lemma QuadFinishes(os: seq<string>, p: Option<string>, st: Reader)
    requires Quad(os).Legal(p) && IsPrefix(p) && |st.out| <= 12 && st.tok == Dots(os) + PrefixText(p)
    ensures FinishQuad(st) == Expand(st.out + Quad(os).Bytes(p), st.colon, BitsOf(p))
  {
    var b, zeros := OctetBytes(os), Zeros(4 - |os|);
    QuadRead(os, p, []);
    assert [] + b == b && Quad(os).Bytes(p) == b + zeros;
    Regroup(st.out, b, zeros);
  }

  lemma TailRead(tail: Tail, p: Option<string>, out: seq<byte>, colon: Option<nat>)
    requires tail.Legal(p) && IsPrefix(p) && Fits(out, colon) && |out| + |tail.Bytes(p)| <= 16
    ensures Reads(tail.Text() + PrefixText(p), out, colon) == Expand(out + tail.Bytes(p), colon, BitsOf(p))
  {
    match tail
    case Nothing =>
      var s := PrefixText(p);
      assert [] + s == s && out + [] == out;
      EndRead(p, Fresh(s, out, colon));
    case Group(g) => GroupRead(g, p, out, colon);
    case Quad(os) => QuadTailRead(os, p, out, colon);
  }

  // ---- every text of the grammar is accepted

  lemma PlainRead(f: LegalForm)
    requires !f.gap
    ensures ReadFrom(FormText(f), Start(FormText(f))) == Some(Denoted(f))
  {
    var s := f.tail.Text() + PrefixText(f.prefix);
    var b := WordsBytes(f.left);
    PlainText(f, s);
    TailNonEmpty(f, s);
    WordsRead(f.left, s, [], None);
    assert [] + b == b;
    TailRead(f.tail, f.prefix, b, None);
    PlainBytes(f, b, f.tail.Bytes(f.prefix));
  }

  lemma PlainText(f: LegalForm, s: string)
    requires !f.gap && s == f.tail.Text() + PrefixText(f.prefix)
    ensures FormText(f) == Words(f.left) + s
  {
    assert [] + s == s;
    assert [] + (Words(f.left) + s) == Words(f.left) + s;
  }

  lemma PlainBytes(f: LegalForm, b: seq<byte>, e: seq<byte>)
    requires !f.gap && b == WordsBytes(f.left) && e == f.tail.Bytes(f.prefix)
    ensures Denoted(f) == (b + e, BitsOf(f.prefix)) && |b + e| == 16
  {
    assert WordsBytes(f.right) == [];
    assert b + Zeros(0) + ([] + e) == b + e;
  }

  lemma GapFormRead(f: LegalForm, more: string)
    requires f.gap && more == Words(f.right) + (f.tail.Text() + PrefixText(f.prefix))
    ensures Reads(Words(f.left) + (":" + more), [], None) == Some(Denoted(f))
  {
    var l := WordsBytes(f.left);
    WordsRead(f.left, ":" + more, [], None);
    assert [] + l == l;
    GapRead(more, l);
    RightRead(f, more, l);
    GapExpands(l, WordsBytes(f.right), f.tail.Bytes(f.prefix), BitsOf(f.prefix));
  }

  lemma RightRead(f: LegalForm, more: string, l: seq<byte>)
    requires f.gap && more == Words(f.right) + (f.tail.Text() + PrefixText(f.prefix)) && l == WordsBytes(f.left)
    ensures Reads(more, l, Some(|l|)) == Expand(l + WordsBytes(f.right) + f.tail.Bytes(f.prefix), Some(|l|), BitsOf(f.prefix))
  {
    var r, s := WordsBytes(f.right), f.tail.Text() + PrefixText(f.prefix);
    if f.right == [] {
      assert more == s && l + r == l;
    } else {
      TailNonEmpty(f, s);
      WordsRead(f.right, s, l, Some(|l|));
    }
    TailRead(f.tail, f.prefix, l + r, Some(|l|));
  }

  lemma TailNonEmpty(f: LegalForm, s: string)
    requires s == f.tail.Text() + PrefixText(f.prefix) && !(f.tail.Nothing? && f.prefix.None?)
    ensures s != []
  {
  }

  lemma GapExpands(l: seq<byte>, r: seq<byte>, e: seq<byte>, bits: int)
    requires |l| + |r| + |e| < 16
    ensures Expand(l + r + e, Some(|l|), bits) == Some((l + Zeros(16 - |l| - |r| - |e|) + (r + e), bits))
  {
    assert (l + r + e)[..|l|] == l && (l + r + e)[|l|..] == r + e;
  }

  lemma NoLeadingColon(f: LegalForm)
    requires (f.gap ==> f.left != [])
    ensures FormText(f) != [] && FormText(f)[0] != ':'
  {
    if f.left != [] { WordsFirst(f.left, RestText(f)); }
  }

  /** A text without a double colon. */
  lemma PlainFormReads(f: LegalForm)
    requires !f.gap
    ensures ReadIPv6(FormText(f)) == Some(Denoted(f))
  {
    PlainRead(f);
    NoLeadingColon(f);
  }

  lemma GapRest(f: LegalForm, more: string)
    requires f.gap && more == Words(f.right) + (f.tail.Text() + PrefixText(f.prefix))
    ensures RestText(f) == ":" + more
  {
    Regroup(":", Words(f.right), f.tail.Text() + PrefixText(f.prefix));
  }

  /** A text with a double colon after some word. */
  lemma InnerGapReads(f: LegalForm, more: string)
    requires f.gap && f.left != [] && more == Words(f.right) + (f.tail.Text() + PrefixText(f.prefix))
    ensures ReadIPv6(FormText(f)) == Some(Denoted(f))
  {
    GapFormRead(f, more);
    GapRest(f, more);
    NoLeadingColon(f);
    assert FormText(f) == Words(f.left) + (":" + more);
  }

  /** A text that starts with the double colon. */
  lemma LeadingGapReads(f: LegalForm, more: string)
    requires f.gap && f.left == [] && more == Words(f.right) + (f.tail.Text() + PrefixText(f.prefix))
    ensures ReadIPv6(FormText(f)) == Some(Denoted(f))
  {
    GapFormRead(f, more);
    GapRest(f, more);
    assert Words(f.left) + (":" + more) == ":" + more;
    LeadingColons(":" + more);
  }

  lemma LeadingColons(s: string)
    requires s != [] && s[0] == ':'
    ensures ReadIPv6(":" + s) == Reads(s, [], None)
  {
    assert (":" + s)[1..] == s;
  }

  /** Every legal text is accepted, with what it denotes. */
  lemma FormReads(f: LegalForm)
    ensures ReadIPv6(FormText(f)) == Some(Denoted(f))
  {
    var more := Words(f.right) + (f.tail.Text() + PrefixText(f.prefix));
    if !f.gap {
      PlainFormReads(f);
    } else if f.left == [] {
      LeadingGapReads(f, more);
    } else {
      InnerGapReads(f, more);
    }
  }

  // ---- every accepted text is of the grammar

  lemma {:induction false} DecAppend(val: nat, s: string, c: char)
    requires AllDec(s) && IsDecimal(c)
    ensures DecRead(val, s + [c]) == DecRead(val, s) * 10 + DecimalValue(c)
    decreases |s|
  {
    if s == [] {
      assert s + [c] == [c] && [c][1..] == [];
    } else {
      assert (s + [c])[1..] == s[1..] + [c];
      DecAppend(val * 10 + DecimalValue(s[0]), s[1..], c);
    }
  }

  /** One more digit after the digits o, which are worth val. */
  lemma OneMore(o: string, c: char)
    requires (o == [] || IsNumber(o)) && IsDecimal(c) && (o != [] ==> DecRead(0, o) != 0)
    ensures IsNumber(o + [c]) && DecRead(0, o + [c]) == DecRead(0, o) * 10 + DecimalValue(c)
  {
    DecAppend(0, o, c);
  }

  /** The digits o and then s are a prefix length that was accepted. */
  lemma {:induction false} ParseBits(o: string, s: string)
    requires (o == [] || IsNumber(o)) && BitsFrom(s, DecRead(0, o), |o|).Some?
    ensures IsNumber(o + s) && (DecRead(0, o) <= 128 ==> DecRead(0, o + s) <= 128)
    decreases |s|
  {
    if s == [] {
      assert o + s == o;
    } else {
      OneMore(o, s[0]);
      ParseBits(o + [s[0]], s[1..]);
      assert o + [s[0]] + s[1..] == o + s;
    }
  }

  /** The octets of a quad after k others, and its prefix length. */
  ghost predicate IsQuad(os: seq<string>, p: Option<string>, k: nat) {
    os != [] && k + |os| <= 4 && AllOctets(os) && IsPrefix(p) && (p.None? ==> os[|os| - 1] != [])
  }

  /** An octet before a dot and the octets after it. */
  lemma DotsCons(o: string, more: seq<string>, p: Option<string>, s: string)
    requires more != [] && s == Dots(more) + PrefixText(p)
    ensures o + ("." + s) == Dots([o] + more) + PrefixText(p)
  {
    var os := [o] + more;
    assert os[1..] == more;
    assert Dots(os) + PrefixText(p) == o + ("." + (Dots(more) + PrefixText(p)));
  }

  lemma QuadCons(o: string, more: seq<string>, p: Option<string>, k: nat)
    requires IsOctet(o) && IsQuad(more, p, k + 1)
    ensures IsQuad([o] + more, p, k)
  {
    var os := [o] + more;
    assert os[|os| - 1] == more[|more| - 1];
  }

  /** The prefix length after a slash that was accepted. */
  lemma ParsePrefix(s: string) returns (p: Option<string>)
    requires s != [] && s[0] == '/' && BitsFrom(s[1..], 0, 0).Some?
    ensures p.Some? && IsPrefix(p) && s == PrefixText(p)
  {
    p := Some(s[1..]);
    ParseBits([], s[1..]);
    assert [] + s[1..] == s[1..];
  }

  /** Reading one more digit of an octet. */
  lemma QuadStep(s: string, val: byte, n: nat, octets: seq<byte>) returns (next: byte)
    requires |octets| <= 4 && QuadFrom(s, val, n, octets).Some? && s != [] && IsDecimal(s[0])
    ensures (n != 0 ==> val != 0) && next == val * 10 + DecimalValue(s[0]) && QuadFrom(s[1..], next, n + 1, octets).Some?
  {
    next := val * 10 + DecimalValue(s[0]);
  }

  /** The last octet of a quad. */
  lemma ParseLast(o: string, val: byte, s: string, octets: seq<byte>) returns (p: Option<string>)
    requires IsOctet(o) && val == DecRead(0, o) && |octets| <= 4 && QuadFrom(s, val, |o|, octets).Some?
    requires s == [] || s[0] == '/'
    ensures IsQuad([o], p, |octets|) && s == PrefixText(p)
  {
    if s == [] { p := None; } else { p := ParsePrefix(s); }
  }

  /** The octets of a quad that was accepted; o are the digits of the first one that have been read. */
  lemma {:induction false} ParseQuad(o: string, val: byte, s: string, octets: seq<byte>)
    returns (os: seq<string>, p: Option<string>)
    requires IsOctet(o) && val == DecRead(0, o) && |octets| <= 4 && QuadFrom(s, val, |o|, octets).Some?
    ensures IsQuad(os, p, |octets|) && o + s == Dots(os) + PrefixText(p)
    decreases |s|
  {
    if s == [] || s[0] == '/' {
      p := ParseLast(o, val, s, octets);
      os := [o];
    } else {
      var c, rest := s[0], s[1..];
      assert s == [c] + rest;
      if IsDecimal(c) {
        var next := QuadStep(s, val, |o|, octets);
        OneMore(o, c);
        os, p := ParseQuad(o + [c], next, rest, octets);
        Regroup(o, [c], rest);
      } else {
        os, p := ParseQuad([], 0, rest, octets + [val]);
        assert [] + rest == rest;
        QuadCons(o, os, p, |octets|);
        DotsCons(o, os, p, rest);
        os := [o] + os;
      }
    }
  }

  /** How many hexadecimal digits s starts with. */
  ghost function HexLen(s: string): (n: nat)
    ensures n <= |s| && AllHex(s[..n]) && (n < |s| ==> HexValue(s[n]) < 0)
  {
    if s == [] || HexValue(s[0]) < 0 then 0 else 1 + HexLen(s[1..])
  }

  /** The reader takes the digits at the start, which are four at most. */
  lemma {:induction false} TakeHex(s: string, st: Reader)
    requires ReadFrom(s, st).Some?
    ensures st.digits + HexLen(s) <= 4
    decreases |s|
  {
    if s != [] && HexValue(s[0]) >= 0 {
      TakeHex(s[1..], st.(val := st.val * 16 + HexValue(s[0]), digits := st.digits + 1, saw := true));
    }
  }

  /** The text up to the first character that is no digit. */
  lemma SplitHex(s: string, st: Reader, h: nat)
    requires ReadFrom(s, st).Some? && h == HexLen(s)
    ensures st.digits + h <= 4 && ReadFrom(s, st) == ReadFrom(s[h..], AfterHex(s[..h], st))
  {
    TakeHex(s, st);
    assert s == s[..h] + s[h..];
    ReadHex(s[..h], s[h..], st);
  }

  /** s does not start with a word and its colon. */
  ghost predicate NoWord(s: string) {
    var h := HexLen(s);
    h == 0 || h == |s| || s[h] != ':'
  }

  /** The first word of a text that was accepted. */
  lemma FirstWord(s: string, out: seq<byte>, colon: Option<nat>) returns (g: string, more: string)
    requires Fits(out, colon) && Reads(s, out, colon).Some? && !NoWord(s)
    ensures IsGroup(g) && more != [] && s == g + (":" + more) && |out| <= 14
    ensures Reads(s, out, colon) == Reads(more, out + WordBytes(HexRead(0, g)), colon)
  {
    var h := HexLen(s);
    g, more := s[..h], s[h + 1..];
    SplitHex(s, Fresh(s, out, colon), h);
    assert s[h..] == ":" + more && s == g + (":" + more);
    WordRead(g, more, out, colon);
  }

  lemma WordsBytesCons(g: string, gs: seq<string>)
    requires IsGroup(g) && AllGroups(gs)
    ensures AllGroups([g] + gs) && WordsBytes([g] + gs) == WordBytes(HexRead(0, g)) + WordsBytes(gs)
  {
    assert ([g] + gs)[1..] == gs;
  }

  lemma WordsCons(g: string, gs: seq<string>, rest: string)
    ensures Words([g] + gs) + rest == g + (":" + (Words(gs) + rest))
  {
    assert ([g] + gs)[1..] == gs;
  }

  /** The words in front of a text that was accepted. */
  lemma {:induction false} ParseWords(s: string, out: seq<byte>, colon: Option<nat>) returns (gs: seq<string>, rest: string)
    requires Fits(out, colon) && Reads(s, out, colon).Some?
    ensures AllGroups(gs) && s == Words(gs) + rest && NoWord(rest) && (gs != [] ==> rest != [])
    ensures |out| + 2 * |gs| <= 16 && Reads(s, out, colon) == Reads(rest, out + WordsBytes(gs), colon)
    decreases |s|
  {
    if NoWord(s) {
      gs, rest := [], s;
      assert out + WordsBytes(gs) == out;
    } else {
      var g, more := FirstWord(s, out, colon);
      gs, rest := ParseWords(more, out + WordBytes(HexRead(0, g)), colon);
      WordsCons(g, gs, rest);
      WordsBytesCons(g, gs);
      Regroup(out, WordBytes(HexRead(0, g)), WordsBytes(gs));
      gs := [g] + gs;
    }
  }

  /** The text from the first character that is no digit, the digits before it being a group or none. */
  lemma AfterDigits(s: string, out: seq<byte>, colon: Option<nat>, h: nat) returns (st: Reader)
    requires Fits(out, colon) && Reads(s, out, colon).Some? && h == HexLen(s)
    ensures h <= 4 && st.tok == s && st.out == out && st.saw == (h > 0) && ReadFrom(s[h..], st).Some?
  {
    SplitHex(s, Fresh(s, out, colon), h);
    st := AfterHex(s[..h], Fresh(s, out, colon));
  }

  /** A tail that is a group or nothing. */
  lemma ParseGroup(s: string, h: nat, st: Reader) returns (tail: Tail, p: Option<string>)
    requires h == HexLen(s) <= 4 && st.saw == (h > 0) && ReadFrom(s[h..], st).Some?
    requires h < |s| ==> s[h] != '.' && s[h] != ':'
    ensures tail == (if h == 0 then Nothing else Group(s[..h])) && tail.Legal(p) && IsPrefix(p)
    ensures s == tail.Text() + PrefixText(p) && (p.None? <==> h == |s|) && (h > 0 ==> |st.out| <= 14)
  {
    tail := if h == 0 then Nothing else Group(s[..h]);
    assert s == s[..h] + s[h..];
    if h == |s| {
      p := None;
    } else {
      p := ParsePrefix(s[h..]);
    }
  }

  /** The tail of a text that was accepted. */
  lemma ParseTail(s: string, out: seq<byte>, colon: Option<nat>) returns (tail: Tail, p: Option<string>)
    requires Fits(out, colon) && Reads(s, out, colon).Some? && NoWord(s) && (s == [] || s[0] != ':')
    ensures tail.Legal(p) && IsPrefix(p) && s == tail.Text() + PrefixText(p)
    ensures |out| + |tail.Bytes(p)| <= 16 && (s == [] <==> tail.Nothing? && p.None?)
  {
    var h := HexLen(s);
    var st := AfterDigits(s, out, colon, h);
    if h < |s| && s[h] == '.' {
      tail, p := ParseQuadTail(s, h);
    } else {
      tail, p := ParseGroup(s, h, st);
    }
  }

  /** The dot is neither in an octet nor in a prefix length. */
  lemma NoDot(o: string, p: Option<string>, h: nat)
    requires IsOctet(o) && IsPrefix(p) && h < |o + PrefixText(p)|
    ensures (o + PrefixText(p))[h] != '.'
  {
    var end := PrefixText(p);
    assert (o + end)[h] == if h < |o| then o[h] else end[h - |o|];
  }

  lemma ParseQuadTail(s: string, h: nat) returns (tail: Tail, p: Option<string>)
    requires h < |s| && s[h] == '.' && QuadFrom(s, 0, 0, []).Some?
    ensures tail.Quad? && tail.Legal(p) && IsPrefix(p) && s == tail.Text() + PrefixText(p)
  {
    var os;
    os, p := ParseQuad([], 0, s, []);
    assert [] + s == s;
    if |os| == 1 { NoDot(os[0], p, h); }
    tail := Quad(os);
  }

  /** After the words on the left, without a double colon. */
  lemma ParsePlain(left: seq<string>, rest: string) returns (f: LegalForm)
    requires AllGroups(left) && 2 * |left| <= 16 && NoWord(rest) && (if rest == [] then left == [] else rest[0] != ':')
    requires Reads(rest, WordsBytes(left), None).Some?
    ensures !f.gap && f.left == left && RestText(f) == rest
  {
    var b := WordsBytes(left);
    var tail, p := ParseTail(rest, b, None);
    TailRead(tail, p, b, None);
    f := Form(left, false, [], tail, p);
    assert [] + rest == rest;
  }

  /** After the words on the left and a double colon. */
  lemma ParseGap(left: seq<string>, rest: string) returns (f: LegalForm)
    requires AllGroups(left) && 2 * |left| <= 16
    requires Reads(rest, WordsBytes(left), Some(2 * |left|)).Some?
    ensures f.gap && f.left == left && RestText(f) == ":" + rest
  {
    var b, colon := WordsBytes(left), Some(2 * |left|);
    var right, end := ParseWords(rest, b, colon);
    var c := b + WordsBytes(right);
    assert end == [] || end[0] != ':';
    var tail, p := ParseTail(end, c, colon);
    TailRead(tail, p, c, colon);
    f := Form(left, true, right, tail, p);
    Regroup(":", Words(right), end);
  }

  lemma ParseFrom(s: string) returns (f: LegalForm)
    requires Reads(s, [], None).Some?
    ensures s == Words(f.left) + RestText(f)
  {
    var left, rest := ParseWords(s, [], None);
    assert [] + WordsBytes(left) == WordsBytes(left);
    if rest != [] && rest[0] == ':' {
      assert rest == ":" + rest[1..];
      GapRead(rest[1..], WordsBytes(left));
      f := ParseGap(left, rest[1..]);
    } else {
      f := ParsePlain(left, rest);
    }
  }

  /** A colon in front is accepted only before another one. */
  lemma LeadingRest(s: string, rest: string)
    requires ReadIPv6(s).Some? && s != [] && s[0] == ':' && rest == s[1..]
    ensures s == ":" + rest && Reads(rest, [], None).Some? && rest != [] && rest[0] == ':'
  {
    assert s == ":" + s[1..];
  }

  lemma LeadingForm(s: string) returns (f: LegalForm)
    requires ReadIPv6(s).Some? && s != [] && s[0] == ':'
    ensures FormText(f) == s
  {
    var rest := s[1..];
    LeadingRest(s, rest);
    f := ParseFrom(rest);
    LeadingColon(rest, f);
  }

  /** Every text that is accepted is legal, and denotes what the reader makes of it. */
  lemma AcceptedIsForm(s: string) returns (f: LegalForm)
    requires ReadIPv6(s).Some?
    ensures FormText(f) == s && ReadIPv6(s) == Some(Denoted(f))
  {
    if s != [] && s[0] == ':' {
      f := LeadingForm(s);
    } else {
      f := ParseFrom(s);
      NoColon(s, f);
    }
    FormReads(f);
  }

  /** Without a colon in front, a double colon comes after some word. */
  lemma NoColon(s: string, f: LegalForm)
    requires s == Words(f.left) + RestText(f) && (s == [] || s[0] != ':')
    ensures FormText(f) == s
  {
    if f.gap && f.left == [] { RestFirst(f, s); }
  }

  lemma RestFirst(f: LegalForm, s: string)
    requires f.gap && f.left == [] && s == Words(f.left) + RestText(f)
    ensures s != [] && s[0] == ':'
  {
  }

  lemma WordsFirst(gs: seq<string>, rest: string)
    requires AllGroups(gs) && gs != []
    ensures HexValue((Words(gs) + rest)[0]) >= 0
  {
    assert IsGroup(gs[0]) && (Words(gs) + rest)[0] == gs[0][0];
  }

  /** A colon in front can only be the second of a double colon. */
  lemma LeadingColon(s: string, f: LegalForm)
    requires s != [] && s[0] == ':' && s == Words(f.left) + RestText(f)
    ensures f.gap && f.left == [] && FormText(f) == ":" + s
  {
    if f.left != [] { WordsFirst(f.left, RestText(f)); }
  }

  /** A text is accepted exactly if it is one of the grammar. */
  lemma AcceptedExactly(s: string)
    ensures ReadIPv6(s).Some? <==> exists f: LegalForm :: FormText(f) == s
  {
    if ReadIPv6(s).Some? {
      var f := AcceptedIsForm(s);
    }
    forall f: LegalForm | FormText(f) == s ensures ReadIPv6(s).Some? {
      FormReads(f);
    }
  }

  lemma OneTwo(os: seq<string>)
    requires os == ["1", "2"]
    ensures AllOctets(os) && Dots(os) == "1.2" && OctetBytes(os) == [1, 2]
  {
    assert DecRead(0, "1") == 1 && DecRead(0, "2") == 2;
    assert os[1..] == ["2"];
    assert OctetBytes(os[1..]) == [2];
  }

  /** A text of a double colon and a tail. */
  lemma GapOnly(f: LegalForm, tail: string)
    requires f.gap && f.left == [] && tail == Words(f.right) + (f.tail.Text() + PrefixText(f.prefix))
    ensures FormText(f) == "::" + tail
  {
    Regroup(":", Words(f.right), f.tail.Text() + PrefixText(f.prefix));
    assert FormText(f) == ":" + ([] + (":" + tail));
  }

  /** "::1.2" is accepted and denotes ::1.2.0.0. */
  lemma ShortQuad(os: seq<string>) returns (f: LegalForm)
    requires os == ["1", "2"]
    ensures FormText(f) == "::1.2" && !Strict(f) && Denoted(f) == (Zeros(12) + [1, 2, 0, 0], 128)
  {
    OneTwo(os);
    f := Form([], true, [], Quad(os), None);
    assert [] + ("1.2" + []) == "1.2";
    GapOnly(f, "1.2");
    assert [1, 2] + Zeros(2) == [1, 2, 0, 0];
    assert [] + Zeros(12) + ([] + [1, 2, 0, 0]) == Zeros(12) + [1, 2, 0, 0];
  }

  /** "::1:/64" is accepted, the colon before the slash notwithstanding. */
  lemma ColonBeforeSlash(gs: seq<string>) returns (f: LegalForm)
    requires gs == ["1"]
    ensures FormText(f) == "::1:/64" && !Strict(f) && Denoted(f) == (Zeros(14) + [0, 1], 64)
  {
    OneWord(gs);
    SixtyFour("64");
    f := Form([], true, gs, Nothing, Some("64"));
    assert "1:" + ([] + ("/" + "64")) == "1:/64";
    GapOnly(f, "1:/64");
    assert [] + Zeros(14) + ([0, 1] + []) == Zeros(14) + [0, 1];
  }

  lemma OneWord(gs: seq<string>)
    requires gs == ["1"]
    ensures AllGroups(gs) && Words(gs) == "1:" && WordsBytes(gs) == [0, 1]
  {
    assert HexRead(0, "1") == 1;
    assert Words(gs[1..]) == [];
  }

  lemma SixtyFour(s: string)
    requires s == "64"
    ensures IsNumber(s) && DecRead(0, s) == 64
  {
    assert s[1..] == "4" && s[1..][1..] == [];
    assert DecRead(0, s) == DecRead(6, s[1..]) == DecRead(64, s[1..][1..]);
  }
}
