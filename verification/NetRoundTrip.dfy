/** Reading the printed text of an IPv6 address gives the address and its prefix length. */
module NetRoundTrip {
  import opened Basics
  import opened NetParse
  import opened NetGrammar
  import opened NetPrint
  import Radix

  // ---- numerals

  lemma {:induction false} HexAppend(val: nat, s: string, c: char)
    requires AllHex(s) && HexValue(c) >= 0
    ensures AllHex(s + [c]) && HexRead(val, s + [c]) == HexRead(val, s) * 16 + HexValue(c)
    decreases |s|
  {
    if s == [] {
      assert s + [c] == [c] && [c][1..] == [];
    } else {
      assert (s + [c])[1..] == s[1..] + [c];
      HexAppend(val * 16 + HexValue(s[0]), s[1..], c);
    }
  }

  lemma {:induction false} HexNumeral(n: nat)
    ensures AllHex(Numeral(n, 16)) && HexRead(0, Numeral(n, 16)) == n
  {
    if n < 16 {
      assert Numeral(n, 16)[1..] == [];
    } else {
      HexNumeral(n / 16);
      HexAppend(0, Numeral(n / 16, 16), DigitChar(n % 16));
    }
  }

  lemma {:induction false} DecNumeral(n: nat)
    ensures IsNumber(Numeral(n, 10)) && DecRead(0, Numeral(n, 10)) == n
  {
    if n < 10 {
      assert Numeral(n, 10)[1..] == [];
    } else {
      DecNumeral(n / 10);
      OneMore(Numeral(n / 10, 10), DigitChar(n % 10));
    }
  }

  lemma WordNumeral(w: nat)
    requires w < 65536
    ensures IsGroup(Numeral(w, 16)) && HexRead(0, Numeral(w, 16)) == w
  {
    HexNumeral(w);
    WordLength(w, 4);
  }

  lemma OctetNumeral(o: byte)
    ensures IsOctet(Numeral(o, 10)) && Numeral(o, 10) != [] && DecRead(0, Numeral(o, 10)) == o
  {
    DecNumeral(o);
  }

  // ---- the parts of a printed text

  /** The words i..j as numerals. */
  ghost function Groups(x: Address, i: nat, j: nat): (gs: seq<string>)
    requires i <= j <= 8
    ensures |gs| == j - i
    decreases j - i
  {
    if i == j then [] else [Numeral(Word(x, i), 16)] + Groups(x, i + 1, j)
  }

  lemma WordOfBytes(x: Address, i: nat)
    requires i < 8
    ensures WordBytes(Word(x, i)) == x.a[2 * i..2 * i + 2]
  {
    var w, hi: int, lo: int := Word(x, i), x.a[2 * i], x.a[2 * i + 1];
    Radix.DivModIs(w, 256, hi, lo);
    Radix.DivModIs(hi, 256, 0, hi);
    assert x.a[2 * i..2 * i + 2] == [x.a[2 * i], x.a[2 * i + 1]];
  }

  lemma Slices(a: seq<byte>, i: nat, k: nat, j: nat)
    requires i <= k <= j <= |a|
    ensures a[i..j] == a[i..k] + a[k..j]
  {
  }

  /** They denote the bytes 2i..2j. */
  lemma {:induction false} GroupsBytes(x: Address, i: nat, j: nat)
    requires i <= j <= 8
    ensures AllGroups(Groups(x, i, j)) && WordsBytes(Groups(x, i, j)) == x.a[2 * i..2 * j]
    decreases j - i
  {
    if i < j {
      var g, gs := Numeral(Word(x, i), 16), Groups(x, i + 1, j);
      WordNumeral(Word(x, i));
      GroupsBytes(x, i + 1, j);
      WordOfBytes(x, i);
      WordsBytesCons(g, gs);
      Slices(x.a, 2 * i, 2 * i + 2, 2 * j);
    }
  }

  /** Octets as numerals. */
  ghost function Octets(o: seq<byte>): (os: seq<string>)
    ensures |os| == |o|
  {
    if o == [] then [] else [Numeral(o[0], 10)] + Octets(o[1..])
  }

  lemma {:induction false} OctetsDenote(o: seq<byte>)
    ensures AllOctets(Octets(o)) && OctetBytes(Octets(o)) == o
    ensures forall i :: 0 <= i < |o| ==> Octets(o)[i] != []
  {
    if o != [] {
      var os := Octets(o);
      OctetNumeral(o[0]);
      OctetsDenote(o[1..]);
      assert os[1..] == Octets(o[1..]);
      assert o == [o[0]] + o[1..];
    }
  }

  lemma {:induction false} DottedIsDots(o: seq<byte>)
    requires o != []
    ensures Dotted(o) == Dots(Octets(o))
  {
    var os := Octets(o);
    if |o| > 1 {
      DottedIsDots(o[1..]);
      assert os[1..] == Octets(o[1..]);
    }
  }

  /** What is printed after the last colon. */
  ghost function TailOf(x: Address): (t: Tail) {
    if x.base != -1 && x.base + x.len == 8 then Nothing
    else if Embeds(x) then Quad(Octets(x.a[12..16]))
    else Group(Numeral(Word(x, 7), 16))
  }

  /** The first word that the tail holds. */
  ghost function TailStart(x: Address): (i: nat)
    ensures i <= 8
  {
    if x.base != -1 && x.base + x.len == 8 then 8 else if Embeds(x) then 6 else 7
  }

  lemma TailDenotes(x: Address, p: Option<string>)
    ensures TailOf(x).Legal(p) && TailOf(x).Bytes(p) == x.a[2 * TailStart(x)..16]
  {
    WordNumeral(Word(x, 7));
    WordOfBytes(x, 7);
    OctetsDenote(x.a[12..16]);
    assert x.a[12..16] + Zeros(0) == x.a[12..16];
  }

  ghost function PrefixOf(bits: Prefix): (p: Option<string>) {
    if bits == -1 || bits == 128 then None else Some(Numeral(bits, 10))
  }

  lemma PrefixDenotes(bits: Prefix)
    ensures IsPrefix(PrefixOf(bits)) && BitsOf(PrefixOf(bits)) == (if bits == -1 then 128 else bits)
    ensures PrefixText(PrefixOf(bits)) == Suffix(bits)
  {
    if bits != -1 { DecNumeral(bits); }
  }

  /** The end of the words on the left, and the start of those on the right. */
  ghost function LeftEnd(x: Address): (m: nat)
    ensures m <= TailStart(x)
  {
    if x.base == -1 then TailStart(x) else x.base
  }

  ghost function RightStart(x: Address): (k: nat)
    ensures LeftEnd(x) <= k <= TailStart(x)
  {
    if x.base == -1 then TailStart(x) else x.base + x.len
  }

  /** The printed text as one of the grammar. */
  ghost function FormOf(x: Address, bits: Prefix): (f: Form) {
    Form(Groups(x, 0, LeftEnd(x)), x.base != -1, Groups(x, RightStart(x), TailStart(x)), TailOf(x), PrefixOf(bits))
  }

  lemma FormIsLegal(x: Address, bits: Prefix)
    ensures FormOf(x, bits).Legal()
  {
    TailDenotes(x, PrefixOf(bits));
    PrefixDenotes(bits);
    GroupsBytes(x, 0, LeftEnd(x));
    GroupsBytes(x, RightStart(x), TailStart(x));
  }

  // ---- the printed text

  /** A word with a word after it. */
  lemma FromStep(x: Address, i: nat)
    requires i < 7 && !x.InRun(i) && !x.InRun(i + 1) && !(i == 6 && Embeds(x))
    ensures From(x, i) == Numeral(Word(x, i), 16) + (":" + From(x, i + 1))
  {
    assert After(x, i + 1) == ":" + From(x, i + 1);
  }

  /** The tail. */
  lemma FromTail(x: Address, t: nat)
    requires t == TailStart(x)
    ensures !x.InRun(t) && From(x, t) == TailOf(x).Text()
  {
    if t == 6 { DottedIsDots(x.a[12..16]); }
    if t == 7 { assert After(x, 8) == []; }
  }

  /** From a word after the run on. */
  lemma {:induction false} FromIsWords(x: Address, i: nat, t: nat, tail: string)
    requires (x.base == -1 || x.base + x.len <= i) && i <= t == TailStart(x) && tail == TailOf(x).Text()
    ensures From(x, i) == Words(Groups(x, i, t)) + tail
    decreases t - i
  {
    if i == t {
      FromTail(x, t);
    } else {
      FromStep(x, i);
      FromIsWords(x, i + 1, t, tail);
      WordsCons(Numeral(Word(x, i), 16), Groups(x, i + 1, t), tail);
    }
  }

  /** The word before the run. */
  lemma FromAtRun(x: Address, i: nat, rest: string)
    requires x.base != -1 && i + 1 == x.base && rest == From(x, x.base + x.len)
    ensures From(x, i) == Numeral(Word(x, i), 16) + (":" + (":" + rest))
  {
    assert After(x, i + 1) == "::" + rest;
    assert "::" + rest == ":" + (":" + rest);
  }

  /** From a word before the run on. */
  lemma {:induction false} FromBeforeRun(x: Address, i: nat, rest: string)
    requires x.base != -1 && i < x.base && rest == From(x, x.base + x.len)
    ensures From(x, i) == Words(Groups(x, i, x.base)) + (":" + rest)
    decreases x.base - i
  {
    var g, gs := Numeral(Word(x, i), 16), Groups(x, i + 1, x.base);
    WordsCons(g, gs, ":" + rest);
    if i + 1 == x.base {
      FromAtRun(x, i, rest);
      assert Words(gs) + (":" + rest) == ":" + rest;
    } else {
      FromStep(x, i);
      FromBeforeRun(x, i + 1, rest);
    }
  }

  /** The text of an address with a run. */
  lemma TextWithRun(x: Address, rest: string, left: seq<string>)
    requires x.base != -1 && rest == From(x, x.base + x.len) && left == Groups(x, 0, x.base)
    ensures Text(x) == (if x.base == 0 then ":" else []) + (Words(left) + (":" + rest))
  {
    if x.base == 0 {
      assert "::" + rest == ":" + ([] + (":" + rest));
    } else {
      FromBeforeRun(x, 0, rest);
    }
  }

  lemma Rearranged(c: string, left: string, right: string, tail: string, end: string)
    ensures c + (left + (":" + (right + tail))) + end == c + (left + ((":" + right) + (tail + end)))
  {
  }

  /** The text of an address without a run: words and the tail. */
  lemma PlainParts(x: Address, left: seq<string>, tail: string)
    requires x.base == -1 && left == Groups(x, 0, TailStart(x)) && tail == TailOf(x).Text()
    ensures Text(x) == Words(left) + tail
  {
    FromIsWords(x, 0, TailStart(x), tail);
  }

  lemma AfterRun(x: Address, right: seq<string>, tail: string)
    requires x.base != -1 && right == Groups(x, x.base + x.len, TailStart(x)) && tail == TailOf(x).Text()
    ensures From(x, x.base + x.len) == Words(right) + tail
  {
    FromIsWords(x, x.base + x.len, TailStart(x), tail);
  }

  /** The text of an address with a run: words, the colon of the run, more words, and the tail. */
  lemma RunParts(x: Address, left: seq<string>, right: seq<string>, tail: string)
    requires x.base != -1 && left == Groups(x, 0, x.base) && right == Groups(x, x.base + x.len, TailStart(x))
    requires tail == TailOf(x).Text()
    ensures Text(x) == (if x.base == 0 then ":" else []) + (Words(left) + (":" + (Words(right) + tail)))
  {
    AfterRun(x, right, tail);
    TextWithRun(x, Words(right) + tail, left);
  }

  lemma PlainText(f: LegalForm, text: string, tail: string, end: string)
    requires !f.gap && tail == f.tail.Text() && end == PrefixText(f.prefix) && text == Words(f.left) + tail
    ensures text + end == FormText(f)
  {
    Regroup(Words(f.left), tail, end);
    assert [] + (tail + end) == tail + end;
    assert [] + (Words(f.left) + (tail + end)) == Words(f.left) + (tail + end);
  }

  lemma GapText(f: LegalForm, c: string, text: string, tail: string, end: string)
    requires f.gap && c == (if f.left == [] then ":" else []) && tail == f.tail.Text() && end == PrefixText(f.prefix)
    requires text == c + (Words(f.left) + (":" + (Words(f.right) + tail)))
    ensures text + end == FormText(f)
  {
    Rearranged(c, Words(f.left), Words(f.right), tail, end);
  }

  lemma TextIsForm(x: Address, bits: Prefix, f: LegalForm)
    requires f == FormOf(x, bits)
    ensures Text(x) + Suffix(bits) == FormText(f)
  {
    PrefixDenotes(bits);
    if x.base == -1 {
      PlainParts(x, f.left, f.tail.Text());
      PlainText(f, Text(x), f.tail.Text(), Suffix(bits));
    } else {
      RunParts(x, f.left, f.right, f.tail.Text());
      GapText(f, if x.base == 0 then ":" else [], Text(x), f.tail.Text(), Suffix(bits));
    }
  }

  // ---- the round trip

  /** The words of the run are zero. */
  ghost predicate RunIsZero(x: Address) {
    x.base != -1 ==> forall k :: 2 * x.base <= k < 2 * (x.base + x.len) ==> x.a[k] == 0
  }

  lemma Pieces(a: seq<byte>, m: nat, k: nat, t: nat)
    requires |a| == 16 && m <= k <= t <= 16 && forall i :: m <= i < k ==> a[i] == 0
    ensures a == a[0..m] + Zeros(k - m) + (a[k..t] + a[t..16])
  {
  }

  lemma RunOfBytes(x: Address, m: nat, k: nat)
    requires RunIsZero(x) && m == 2 * LeftEnd(x) && k == 2 * RightStart(x)
    ensures forall i :: m <= i < k ==> x.a[i] == 0
  {
  }

  lemma FormDenotes(x: Address, bits: Prefix, f: LegalForm)
    requires RunIsZero(x) && f == FormOf(x, bits)
    ensures Denoted(f) == (x.a, if bits == -1 then 128 else bits)
  {
    var m, k, t := LeftEnd(x), RightStart(x), TailStart(x);
    TailDenotes(x, f.prefix);
    PrefixDenotes(bits);
    GroupsBytes(x, 0, m);
    GroupsBytes(x, k, t);
    RunOfBytes(x, 2 * m, 2 * k);
    JoinBytes(f, x.a, 2 * m, 2 * k, 2 * t);
  }

  lemma JoinBytes(f: LegalForm, a: seq<byte>, m: nat, k: nat, t: nat)
    requires |a| == 16 && m <= k <= t <= 16 && forall i :: m <= i < k ==> a[i] == 0
    requires WordsBytes(f.left) == a[0..m] && WordsBytes(f.right) == a[k..t] && f.tail.Bytes(f.prefix) == a[t..16]
    ensures Denoted(f) == (a, BitsOf(f.prefix))
  {
    DenotedIs(f, a[0..m], a[k..t], a[t..16]);
    Pieces(a, m, k, t);
  }

  /** For every address, every run of zero words and every prefix length, the text reads back. */
  lemma TextReads(x: Address, bits: Prefix)
    requires RunIsZero(x)
    ensures ReadIPv6(Text(x) + Suffix(bits)) == Some((x.a, if bits == -1 then 128 else bits))
  {
    FormIsLegal(x, bits);
    var f: LegalForm := FormOf(x, bits);
    TextIsForm(x, bits, f);
    FormReads(f);
    FormDenotes(x, bits, f);
  }

  /** What is printed is as sections 2.2 and 2.3 of RFC 4291 have it. */
  lemma PrintedIsStrict(x: Address, bits: Prefix, f: LegalForm)
    requires f == FormOf(x, bits)
    ensures Strict(f)
  {
    OctetsDenote(x.a[12..16]);
  }

  /** Printing any address with any prefix length and reading the text gives them back. */
  method ThroughText(a: seq<byte>, bits: nat) returns (text: string, r: Option<(seq<byte>, int)>)
    requires |a| == 16 && bits <= 128
    ensures r == Some((a, bits))
  {
    ghost var base, len;
    var printed;
    printed, base, len := NtopIPv6(a, bits, BUFFER_SIZE);
    text := printed.value;
    r := PtonIPv6(text);
    RunOfWords(a, base, len);
    TextReads(Shape(a, base, len), bits);
  }

  lemma RunOfWords(a: seq<byte>, base: int, len: int)
    requires |a| == 16 && Shape(a, base, len).Legal() && IsCompressed(AddressWords(a), base, len)
    ensures RunIsZero(Shape(a, base, len))
  {
    if base != -1 {
      forall k | 2 * base <= k < 2 * (base + len) ensures a[k] == 0 {
        assert AddressWords(a)[k / 2] == 0;
      }
    }
  }
}
