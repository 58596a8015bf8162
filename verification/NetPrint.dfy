/** Printing IPv6 addresses (decoct, inet_net_ntop_ipv6). */
module NetPrint {
  import opened Basics
  import opened DecimalText
  import opened NetParse
  import Radix

  // ---- numerals

  function DigitChar(d: nat): (c: char)
    requires d < 16
    ensures HexValue(c) == d && (d < 10 ==> IsDecimal(c) && DecimalValue(c) == d)
  {
    if d < 10 then (d + '0' as int) as char else (d - 10 + 'a' as int) as char
  }

  /** n without leading zeros, as the printf formats "%u" and "%x" write it. */
  function Numeral(n: nat, base: nat): (s: string)
    requires base == 10 || base == 16
    ensures |s| >= 1 && HexValue(s[0]) >= 0
  {
    if n < base then [DigitChar(n)] else Numeral(n / base, base) + [DigitChar(n % base)]
  }

  lemma OctetLength(n: byte)
    ensures |Numeral(n, 10)| <= 3
  {
    assert n / 10 < 26 && n / 10 / 10 < 3;
    if n >= 10 { assert |Numeral(n / 10, 10)| <= 2; }
  }

  lemma {:induction false} WordLength(w: nat, k: nat)
    requires 1 <= k <= 4 && w < (if k == 1 then 16 else if k == 2 then 256 else if k == 3 then 4096 else 65536)
    ensures |Numeral(w, 16)| <= k
  {
    if w >= 16 { WordLength(w / 16, k - 1); }
  }

  // ---- zero runs

  const WORDS := 8

  ghost predicate IsRun(w: seq<nat>, base: int, len: int) {
    0 <= base && 1 <= len && base + len <= |w| && forall k :: base <= k < base + len ==> w[k] == 0
  }

  /** Among the runs that end by `end`, (base, len) is the longest, and the first of that length;
      base is -1 if there is none. */
  ghost predicate Leads(w: seq<nat>, end: int, base: int, len: int) {
    && (base == -1 || (IsRun(w, base, len) && base + len <= end))
    && forall b, l :: IsRun(w, b, l) && b + l <= end ==> base != -1 && (l < len || (l == len && base <= b))
  }

  /** (base, len) is the run that a double colon replaces: the first of the longest runs of zero words,
      if that has at least two words (sections 4.2.2 and 4.2.3 of RFC 5952). */
  ghost predicate IsCompressed(w: seq<nat>, base: int, len: int) {
    if base == -1 then forall b, l :: IsRun(w, b, l) ==> l < 2
    else len >= 2 && Leads(w, |w|, base, len)
  }

  /** The current run ends here: from `from` to i the words are zero, and from is not preceded by one. */
  lemma RunEnds(w: seq<nat>, from: nat, i: nat, base: int, len: int)
    requires from < i <= |w| && (forall k :: from <= k < i ==> w[k] == 0) && (from == 0 || w[from - 1] != 0)
    requires Leads(w, from, base, len)
    ensures if base == -1 || i - from > len then Leads(w, i, from, i - from) else Leads(w, i, base, len)
  {
    assert IsRun(w, from, i - from);
    forall b, l | IsRun(w, b, l) && b + l <= i ensures b + l <= from || (from <= b && l <= i - from) {
    }
  }

  lemma RunAbsent(w: seq<nat>, i: nat, base: int, len: int)
    requires i < |w| && w[i] != 0 && Leads(w, i, base, len)
    ensures Leads(w, i + 1, base, len)
  {
    forall b, l | IsRun(w, b, l) && b + l <= i + 1 ensures b + l <= i {
    }
  }

  /** Finds the longest run of zero words; -1 if there is none of two or more. */
  method FindRun(w: array<nat>) returns (base: int, len: int)
    requires w.Length == WORDS
    ensures IsCompressed(w[..], base, len)
  {
    var curBase, curLen := -1, 0;
    base, len := -1, 0;
    var i := 0;
    while i < WORDS
      invariant 0 <= i <= WORDS
      invariant Leads(w[..], if curBase == -1 then i else curBase, base, len)
      invariant curBase == -1 ==> i == 0 || w[i - 1] != 0
      invariant curBase != -1 ==> 0 <= curBase < i && curLen == i - curBase && (curBase == 0 || w[curBase - 1] != 0)
      invariant curBase != -1 ==> forall k :: curBase <= k < i ==> w[k] == 0
    {
      if w[i] == 0 {
        if curBase == -1 { curBase, curLen := i, 1; } else { curLen := curLen + 1; }
      } else {
        if curBase != -1 {
          RunEnds(w[..], curBase, i, base, len);
          if base == -1 || curLen > len { base, len := curBase, curLen; }
          curBase := -1;
        }
        RunAbsent(w[..], i, base, len);
      }
      i := i + 1;
    }
    if curBase != -1 {
      RunEnds(w[..], curBase, i, base, len);
      if base == -1 || curLen > len { base, len := curBase, curLen; }
    }
    if base != -1 && len < 2 { base := -1; }
  }

  // ---- the printed form

  /** An address with the run its text leaves out; base is -1 if it leaves out none. */
  datatype Shape = Shape(a: seq<byte>, base: int, len: int) {
    predicate Legal() {
      |a| == 16 && (base == -1 || (0 <= base && 1 <= len && base + len <= 8))
    }

    predicate InRun(i: int) {
      base != -1 && base <= i < base + len
    }
  }

  type Address = x: Shape | x.Legal() witness Shape(Zeros(16), -1, 0)

  function Word(x: Address, i: nat): (w: nat)
    requires i < 8
    ensures w < 65536
  {
    256 * (x.a[2 * i] as int) + x.a[2 * i + 1]
  }

  /** The last two words are printed as a dotted quad. */
  predicate Embeds(x: Address) {
    x.base == 0 && (x.len == 6 || (x.len == 5 && Word(x, 5) == 0xffff))
  }

  /** The words from i on, a word outside the run being due; empty after the last. */
  function From(x: Address, i: nat): (s: string)
    requires i <= 8 && !x.InRun(i)
    ensures i < 8 ==> |s| >= 1 && HexValue(s[0]) >= 0
    decreases 8 - i, 0
  {
    if i == 8 then []
    else if i == 6 && Embeds(x) then Dotted(x.a[12..16])
    else Numeral(Word(x, i), 16) + After(x, i + 1)
  }

  /** What follows the word before i. */
  function After(x: Address, i: nat): (s: string)
    requires 1 <= i <= 8 && !x.InRun(i - 1)
    decreases 8 - i, 1
  {
    if i == x.base then "::" + From(x, x.base + x.len)
    else if i == 8 then []
    else ":" + From(x, i)
  }

  function Text(x: Address): (s: string) {
    if x.base == 0 then "::" + From(x, x.len) else From(x, 0)
  }

  /** Minus one for no prefix length. */
  type Prefix = bits: int | -1 <= bits <= 128

  /** Octets in decimal, separated by dots. */
  function Dotted(o: seq<byte>): (s: string)
    requires o != []
    ensures |s| >= 1 && HexValue(s[0]) >= 0
  {
    if |o| == 1 then Numeral(o[0], 10) else Numeral(o[0], 10) + ("." + Dotted(o[1..]))
  }

  function Suffix(bits: Prefix): (s: string)
  {
    if bits == -1 || bits == 128 then [] else "/" + Numeral(bits, 10)
  }

  // ---- printing

  /** Dotted octets end with the last one, after the others and their dots. */
  lemma {:induction false} DottedAtLeast(o: seq<byte>)
    requires o != []
    ensures |Dotted(o)| >= |Numeral(o[|o| - 1], 10)| + 2 * (|o| - 1)
  {
    if |o| > 1 { DottedAtLeast(o[1..]); }
  }

  /** The octets before the last one, with the dots after them. */
  function LeadLength(o: seq<byte>): (n: int)
    requires o != []
  {
    |Dotted(o)| - |Numeral(o[|o| - 1], 10)|
  }

  /** Prints the octets of src with dots between them, each while more than five characters are left: so
      exactly if that many are left before the last one. */
  method DecOct(src: seq<byte>, room: int) returns (r: Option<string>)
    requires |src| == 4
    ensures r == if room - LeadLength(src) > 5 then Some(Dotted(src)) else None
  {
    var b, size, text := 0, room, "";
    assert src[0..] == src;
    while b < 4
      invariant 0 <= b <= 4 && size == room - |text| && (b == 4 ==> room - LeadLength(src) > 5)
      invariant text + DottedTail(src, b) == Dotted(src)
    {
      TailAtLeast(src, b);
      if size <= 5 { return None; }
      DottedStep(src, b);
      var octet := Octet(src, b);
      Append(text, octet, DottedTail(src, b + 1), DottedTail(src, b));
      text, size, b := text + octet, size - |octet|, b + 1;
    }
    assert text + [] == text;
    r := Some(text);
  }

  /** Octet b and the dot after it. */
  function Octet(o: seq<byte>, b: nat): (s: string)
    requires b < |o|
  {
    Numeral(o[b], 10) + if b + 1 < |o| then "." else ""
  }

  ghost function DottedTail(o: seq<byte>, b: nat): (s: string)
    requires b <= |o|
  {
    if b == |o| then [] else Dotted(o[b..])
  }

  lemma TailAtLeast(o: seq<byte>, b: nat)
    requires b < |o|
    ensures var n := |Numeral(o[|o| - 1], 10)|;
      |DottedTail(o, b)| >= n + 2 * (|o| - 1 - b) && (b == |o| - 1 ==> |DottedTail(o, b)| == n)
  {
    assert o[b..][|o| - 1 - b] == o[|o| - 1];
    DottedAtLeast(o[b..]);
  }

  lemma DottedStep(o: seq<byte>, b: nat)
    requires b < |o|
    ensures DottedTail(o, b) == Octet(o, b) + DottedTail(o, b + 1) && |Octet(o, b)| <= 4
  {
    OctetLength(o[b]);
    assert o[b..][1..] == o[b + 1..];
    if b + 1 < |o| { assert Octet(o, b) + Dotted(o[b + 1..]) == Numeral(o[b], 10) + ("." + Dotted(o[b + 1..])); }
  }

  /** The source's test for an encapsulated IPv4 address at word i. */
  predicate IsEncapsulated(i: int, base: int, len: int, w: seq<nat>)
    requires |w| == 8
  {
    i == 6 && base == 0 && (len == 6 || (len == 7 && w[7] != 1) || (len == 5 && w[5] == 0xffff))
  }

  /** Joins the bytes of an address into words. */
  method MakeWords(src: seq<byte>) returns (w: array<nat>)
    requires |src| == 16
    ensures fresh(w) && w.Length == WORDS
    ensures forall k :: 0 <= k < 8 ==> w[k] == Word(Shape(src, -1, 0), k)
  {
    w := new nat[WORDS](_ => 0);
    var i := 0;
    while i < 16
      invariant 0 <= i <= 16
      invariant forall k :: 0 <= k < i / 2 ==> w[k] == Word(Shape(src, -1, 0), k)
      invariant i % 2 == 1 ==> w[i / 2] == 256 * (src[i - 1] as int)
      invariant forall k :: (i + 1) / 2 <= k < 8 ==> w[k] == 0
    {
      w[i / 2] := w[i / 2] + src[i] as int * (if i % 2 == 0 then 256 else 1);
      i := i + 1;
    }
  }

  /** The text still to come before word i, the loop of the printer having passed the words before it. */
  ghost function TextFrom(x: Address, i: nat): (s: string)
    requires i <= 8
  {
    if x.InRun(i) then (if i == x.base then "::" else ":") + From(x, x.base + x.len)
    else if i == 8 then if x.base != -1 && x.base + x.len == 8 then ":" else ""
    else (if i == 0 then "" else ":") + From(x, i)
  }

  /** A word in the run leaves one colon, at its start. */
  lemma TailInRun(x: Address, i: nat)
    requires i < 8 && x.InRun(i)
    ensures TextFrom(x, i) == (if i == x.base then ":" else "") + TextFrom(x, i + 1)
  {
    assert ":" + ":" == "::";
    Regroup(":", ":", From(x, x.base + x.len));
  }

  lemma AfterIsText(x: Address, i: nat)
    requires 1 <= i <= 8 && !x.InRun(i - 1)
    ensures After(x, i) == TextFrom(x, i)
  {
  }

  lemma FromWord(x: Address, i: nat)
    requires i < 8 && !x.InRun(i) && !(i == 6 && Embeds(x))
    ensures From(x, i) == Numeral(Word(x, i), 16) + TextFrom(x, i + 1)
  {
    AfterIsText(x, i + 1);
  }

  /** A word outside the run is printed after a colon, unless it comes first. */
  lemma TailWord(x: Address, i: nat)
    requires i < 8 && !x.InRun(i) && !(i == 6 && Embeds(x))
    ensures TextFrom(x, i) == (if i == 0 then "" else ":") + Numeral(Word(x, i), 16) + TextFrom(x, i + 1)
  {
    var c := if i == 0 then "" else ":";
    FromWord(x, i);
    assert TextFrom(x, i) == c + From(x, i);
    Regroup(c, Numeral(Word(x, i), 16), TextFrom(x, i + 1));
  }

  lemma QuadLength(o: seq<byte>)
    requires |o| == 4
    ensures |Dotted(o)| <= 15
  {
    OctetLength(o[0]);
    OctetLength(o[1]);
    OctetLength(o[2]);
    OctetLength(o[3]);
    assert o[1..][1..] == o[2..] && o[2..][1..] == o[3..];
    assert |Dotted(o[3..])| <= 3 && |Dotted(o[2..])| <= 7 && |Dotted(o[1..])| <= 11;
  }

  /** A word takes at most five characters. */
  lemma StepLength(x: Address, i: nat)
    requires i < 8 && !Embeds(x)
    ensures |TextFrom(x, i)| <= 5 + |TextFrom(x, i + 1)|
  {
    if x.InRun(i) {
      TailInRun(x, i);
    } else {
      TailWord(x, i);
      WordLength(Word(x, i), 4);
    }
  }

  lemma {:induction false} PlainLength(x: Address, i: nat)
    requires i <= 8 && !Embeds(x)
    ensures |TextFrom(x, i)| <= 5 * (8 - i) + 1
    decreases 8 - i
  {
    if i < 8 {
      StepLength(x, i);
      PlainLength(x, i + 1);
    }
  }

  lemma EmbeddedLength(x: Address)
    requires Embeds(x)
    ensures |Text(x)| <= 22
  {
    QuadLength(x.a[12..16]);
    if x.len == 5 {
      WordLength(Word(x, 5), 4);
      assert After(x, 6) == ":" + From(x, 6);
    }
  }

  /** The text starts at word 0, and is short enough for the printer's buffers. */
  lemma TextLength(x: Address)
    ensures TextFrom(x, 0) == Text(x) && |Text(x)| <= 41 && (Embeds(x) ==> |Text(x)| <= 22)
  {
    assert "" + Text(x) == Text(x);
    if Embeds(x) { EmbeddedLength(x); } else { PlainLength(x, 0); }
  }

  ghost function AddressWords(a: seq<byte>): (w: seq<nat>)
    requires |a| == 16
    ensures |w| == 8
  {
    seq(8, i requires 0 <= i < 8 => Word(Shape(a, -1, 0), i))
  }

  const BUFFER_SIZE := 50

  /** The test for an encapsulated address holds at word 6 alone, and never after a run of seven. */
  lemma EncapsulatedTail(x: Address, i: nat)
    requires i < 8 && !x.InRun(i)
    ensures IsEncapsulated(i, x.base, x.len, AddressWords(x.a)) <==> i == 6 && Embeds(x)
    ensures i == 6 && Embeds(x) ==> TextFrom(x, i) == ":" + Dotted(x.a[12..16])
  {
    assert AddressWords(x.a)[5] == Word(x, 5);
  }

  lemma PieceTail(x: Address, i: nat, w: seq<nat>, piece: string)
    requires i < 8 && w == AddressWords(x.a) && (x.InRun(i) || !IsEncapsulated(i, x.base, x.len, w))
    requires piece == Piece(w, x.base, x.len, i)
    ensures TextFrom(x, i) == piece + TextFrom(x, i + 1)
  {
    if x.InRun(i) {
      TailInRun(x, i);
    } else {
      EncapsulatedTail(x, i);
      TailWord(x, i);
    }
  }

  lemma Append(text: string, piece: string, rest: string, tail: string)
    requires tail == piece + rest
    ensures text + tail == text + piece + rest
  {
  }

  /** The dotted quad after the colon, for which there is room. */
  method PrintQuad(src: seq<byte>, text: string, i: nat, ghost x: Address) returns (text': string)
    requires i == 6 && x.a == src && Embeds(x) && !x.InRun(i) && |text| <= 22
    ensures text' == text + TextFrom(x, i)
  {
    EncapsulatedTail(x, i);
    QuadLength(src[12..16]);
    Append(text, ":", Dotted(src[12..16]), TextFrom(x, i));
    text' := text + ":";
    var quad := DecOct(src[12..16], BUFFER_SIZE - |text'|);
    text' := text' + quad.value;
  }

  /** What a turn of the loop adds, unless it prints a quad. */
  function Piece(w: seq<nat>, base: int, len: int, i: nat): (s: string)
    requires i < |w|
  {
    if base != -1 && base <= i < base + len then if i == base then ":" else ""
    else (if i == 0 then "" else ":") + Numeral(w[i], 16)
  }

  /** Prints word i; after a quad there is nothing more to print. */
  method PrintTurn(src: seq<byte>, w: seq<nat>, base: int, len: int, i: nat, text: string, ghost x: Address)
    returns (text': string, done: bool)
    requires i < 8 && |src| == 16 && w == AddressWords(src) && x == Shape(src, base, len) && (Embeds(x) ==> |text| <= 22)
    ensures done ==> text' == text + TextFrom(x, i)
    ensures !done ==> text' + TextFrom(x, i + 1) == text + TextFrom(x, i)
  {
    var inRun := base != -1 && base <= i < base + len;
    if !inRun && IsEncapsulated(i, base, len, w) {
      EncapsulatedTail(x, i);
      text' := PrintQuad(src, text, i, x);
      done := true;
    } else {
      PieceTail(x, i, w, Piece(w, base, len, i));
      Append(text, Piece(w, base, len, i), TextFrom(x, i + 1), TextFrom(x, i));
      text', done := text + Piece(w, base, len, i), false;
    }
  }

  /** Prints the words of an address. */
  method PrintWords(src: seq<byte>, w: seq<nat>, base: int, len: int) returns (text: string)
    requires |src| == 16 && w == AddressWords(src) && Shape(src, base, len).Legal()
    ensures text == Text(Shape(src, base, len))
  {
    ghost var x: Address := Shape(src, base, len);
    ghost var all := Text(x);
    TextLength(x);
    text := "";
    var i, done := 0, false;
    while i < 8 && !done
      invariant 0 <= i <= 8 && if done then text == all else text + TextFrom(x, i) == all
    {
      text, done := PrintTurn(src, w, base, len, i, text, x);
      i := i + 1;
    }
    if !done {
      LastColon(x);
      text := text + if base != -1 && base + len == 8 then ":" else "";
    }
  }

  lemma LastColon(x: Address)
    ensures TextFrom(x, 8) == if x.base != -1 && x.base + x.len == 8 then ":" else ""
  {
  }

  // ---- dotted quads

  /** An IPv4 address mapped into IPv6: ten zero bytes and two that are 255. */
  ghost predicate IsMapped(a: seq<byte>)
    requires |a| == 16
  {
    (forall i :: 0 <= i < 10 ==> a[i] == 0) && a[10] == 255 && a[11] == 255
  }

  /** An IPv4 address behind twelve zero bytes, of which the first two bytes are not both zero. */
  ghost predicate IsCompatible(a: seq<byte>)
    requires |a| == 16
  {
    (forall i :: 0 <= i < 12 ==> a[i] == 0) && (a[12] != 0 || a[13] != 0)
  }

  lemma WordOf(a: seq<byte>, i: nat)
    requires |a| == 16 && i < 8
    ensures var w := AddressWords(a)[i];
      (w == 0 <==> a[2 * i] == 0 && a[2 * i + 1] == 0) && (w == 0xffff <==> a[2 * i] == 255 && a[2 * i + 1] == 255)
  {
  }

  lemma ZeroWords(a: seq<byte>, n: nat)
    requires |a| == 16 && n <= 8
    ensures (forall i :: 0 <= i < 2 * n ==> a[i] == 0) <==> (forall k :: 0 <= k < n ==> AddressWords(a)[k] == 0)
  {
    forall k | 0 <= k < n ensures AddressWords(a)[k] == 0 <==> a[2 * k] == 0 && a[2 * k + 1] == 0 {
      WordOf(a, k);
    }
    if forall k :: 0 <= k < n ==> AddressWords(a)[k] == 0 {
      forall i | 0 <= i < 2 * n ensures a[i] == 0 {
        assert AddressWords(a)[i / 2] == 0;
      }
    }
  }

  /** A run of n words at the start, n being five or more, is compressed if the next word is not zero. */
  lemma LeadingRun(w: seq<nat>, n: nat, base: int, len: int)
    requires |w| == 8 && 5 <= n < 8 && IsRun(w, 0, n) && w[n] != 0 && IsCompressed(w, base, len)
    ensures base == 0 && len == n
  {
    assert base != -1 && len >= n;
    assert IsRun(w, base, len);
    assert !(base <= n < base + len);
  }

  /** After a compressed run comes a word that is not zero. */
  lemma RunIsWhole(w: seq<nat>, base: int, len: int)
    requires IsCompressed(w, base, len) && base == 0 && len < |w|
    ensures w[len] != 0
  {
    assert IsRun(w, base, len);
    if w[len] == 0 { assert IsRun(w, 0, len + 1); }
  }

  /** The addresses that are printed with a dotted quad. */
  lemma QuadAddresses(a: seq<byte>, base: int, len: int)
    requires |a| == 16 && IsCompressed(AddressWords(a), base, len) && Shape(a, base, len).Legal()
    ensures Embeds(Shape(a, base, len)) <==> IsMapped(a) || IsCompatible(a)
    ensures IsMapped(a) ==> base == 0 && len == 5
    ensures IsCompatible(a) ==> base == 0 && len == 6
  {
    var w := AddressWords(a);
    ZeroWords(a, 5);
    ZeroWords(a, 6);
    WordOf(a, 5);
    WordOf(a, 6);
    if IsMapped(a) { LeadingRun(w, 5, base, len); }
    if IsCompatible(a) { LeadingRun(w, 6, base, len); }
    if Embeds(Shape(a, base, len)) {
      assert IsRun(w, base, len);
      RunIsWhole(w, base, len);
    }
  }

  lemma QuadTexts(a: seq<byte>, base: int, len: int)
    requires |a| == 16 && IsCompressed(AddressWords(a), base, len) && Shape(a, base, len).Legal()
    ensures IsMapped(a) ==> Text(Shape(a, base, len)) == "::ffff:" + Dotted(a[12..16])
    ensures IsCompatible(a) ==> Text(Shape(a, base, len)) == "::" + Dotted(a[12..16])
  {
    var x: Address := Shape(a, base, len);
    QuadAddresses(a, base, len);
    if IsMapped(a) {
      FourFs();
      assert Word(x, 5) == 0xffff;
      assert From(x, 5) == "ffff" + After(x, 6) && After(x, 6) == ":" + Dotted(a[12..16]);
    }
  }

  lemma FourFs()
    ensures Numeral(0xffff, 16) == "ffff"
  {
    assert Numeral(0xf, 16) == "f" && Numeral(0xff, 16) == "ff" && Numeral(0xfff, 16) == "fff";
  }

  ghost predicate NoDot(s: string) {
    forall i :: 0 <= i < |s| ==> s[i] != '.'
  }

  lemma {:induction false} NumeralNoDot(n: nat, base: nat)
    requires base == 10 || base == 16
    ensures NoDot(Numeral(n, base))
    decreases n
  {
    if n >= base { NumeralNoDot(n / base, base); }
  }

  lemma StepNoDot(x: Address, i: nat)
    requires i < 8 && !Embeds(x) && NoDot(TextFrom(x, i + 1))
    ensures NoDot(TextFrom(x, i))
  {
    if x.InRun(i) {
      TailInRun(x, i);
      NoDotJoined(if i == x.base then ":" else "", TextFrom(x, i + 1));
    } else {
      var c, w := if i == 0 then "" else ":", Numeral(Word(x, i), 16);
      TailWord(x, i);
      NumeralNoDot(Word(x, i), 16);
      NoDotJoined(c, w);
      NoDotJoined(c + w, TextFrom(x, i + 1));
    }
  }

  lemma {:induction false} TailNoDot(x: Address, i: nat)
    requires i <= 8 && !Embeds(x)
    ensures NoDot(TextFrom(x, i))
    decreases 8 - i
  {
    if i < 8 {
      TailNoDot(x, i + 1);
      StepNoDot(x, i);
    }
  }

  lemma {:induction false} QuadHasDot(o: seq<byte>)
    requires |o| > 1
    ensures !NoDot(Dotted(o))
  {
    var n := |Numeral(o[0], 10)|;
    assert Dotted(o)[n] == '.';
  }

  lemma NoDotJoined(s: string, t: string)
    ensures NoDot(s + t) <==> NoDot(s) && NoDot(t)
  {
    var u := s + t;
    assert forall i :: 0 <= i < |s| ==> u[i] == s[i];
    assert forall i :: 0 <= i < |t| ==> u[|s| + i] == t[i];
  }

  lemma SuffixNoDot(bits: Prefix)
    ensures NoDot(Suffix(bits))
  {
    if bits != -1 { NumeralNoDot(bits, 10); }
  }

  lemma EmbeddedDot(x: Address)
    requires Embeds(x)
    ensures !NoDot(Text(x))
  {
    var q, n := Dotted(x.a[12..16]), |Text(x)|;
    EmbeddedEnds(x);
    QuadHasDot(x.a[12..16]);
    assert Text(x) == Text(x)[..n - |q|] + q;
    NoDotJoined(Text(x)[..n - |q|], q);
  }

  /** A printed text has a dot exactly if a dotted quad is embedded. */
  lemma DotsShown(x: Address, bits: Prefix)
    ensures NoDot(Text(x) + Suffix(bits)) <==> !Embeds(x)
  {
    TextLength(x);
    SuffixNoDot(bits);
    NoDotJoined(Text(x), Suffix(bits));
    if Embeds(x) { EmbeddedDot(x); } else { TailNoDot(x, 0); }
  }

  /** The text of an address with a quad ends in the quad. */
  lemma EmbeddedEnds(x: Address)
    requires Embeds(x)
    ensures var n, q := |Text(x)|, Dotted(x.a[12..16]); n >= |q| && Text(x)[n - |q|..] == q
  {
    if x.len == 5 { assert After(x, 6) == ":" + From(x, 6); }
  }

  /** Prints an IPv6 address, and its prefix length unless that is -1 or 128. */
  method NtopIPv6(src: seq<byte>, bits: int, size: nat) returns (r: Option<string>, ghost base: int, ghost len: int)
    requires |src| == 16
    ensures !(-1 <= bits <= 128) ==> r == None
    ensures -1 <= bits <= 128 ==> IsCompressed(AddressWords(src), base, len) && Shape(src, base, len).Legal()
    ensures -1 <= bits <= 128 ==>
      var text := Text(Shape(src, base, len)) + Suffix(bits);
      |text| + 1 <= BUFFER_SIZE && r == if |text| > size then None else Some(text)
    ensures r.Some? ==> (|r.value| + 1 <= size <==> |r.value| != size)
    ensures -1 <= bits <= 128 && size >= BUFFER_SIZE ==> r.Some? && |r.value| + 1 <= size
    ensures r.Some? && IsMapped(src) ==> r.value == "::ffff:" + Dotted(src[12..16]) + Suffix(bits)
    ensures r.Some? && IsCompatible(src) ==> r.value == "::" + Dotted(src[12..16]) + Suffix(bits)
    ensures r.Some? ==> (NoDot(r.value) <==> !IsMapped(src) && !IsCompatible(src))
  {
    if bits < -1 || bits > 128 { return None, -1, 0; }
    var w := MakeWords(src);
    assert w[..] == AddressWords(src);
    var runBase, runLen := FindRun(w);
    assert runBase != -1 ==> IsRun(AddressWords(src), runBase, runLen);
    base, len := runBase, runLen;
    var text := PrintWords(src, w[..], runBase, runLen);
    TextLength(Shape(src, base, len));
    QuadAddresses(src, base, len);
    QuadTexts(src, base, len);
    DotsShown(Shape(src, base, len), bits);
    if bits != -1 && bits != 128 {
      OctetLength(bits);
      text := text + ("/" + Numeral(bits, 10));
    } else {
      assert text + Suffix(bits) == text;
    }
    r := if |text| > size then None else Some(text);
  }

  /** A destination of exactly the length of the text is accepted, and the terminator goes past its end: "::"
      is printed into two characters. */
  method DestinationOverrun() returns (r: Option<string>)
    ensures r == Some("::") && |r.value| + 1 > 2
  {
    ghost var base, len;
    var a := Zeros(16);
    r, base, len := NtopIPv6(a, 128, 2);
    assert IsRun(AddressWords(a), 0, 8);
    assert IsCompressed(AddressWords(a), base, len);
    assert base == 0 && len == 8;
    assert Text(Shape(a, 0, 8)) + Suffix(128) == "::";
  }

  // ---- digits

  /** The digits are lower-case where they are printed, and of either case where they are read. */
  lemma DigitsAre(d: nat)
    requires d < 16
    ensures DigitChar(d) == "0123456789abcdef"[d]
    ensures forall c :: HexValue(c) == d <==> c == "0123456789abcdef"[d] || c == "0123456789ABCDEF"[d]
  {
  }

  /** A byte of three decimal digits. */
  lemma OctetDigits(n: byte)
    requires n >= 100
    ensures Numeral(n, 10) == [DigitChar(n / 100), DigitChar(n / 10 % 10), DigitChar(n % 10)]
  {
    var m := n / 10;
    assert m / 10 == n / 100 && 1 <= m / 10 < 3;
    assert Numeral(m, 10) == [DigitChar(m / 10)] + [DigitChar(m % 10)];
  }

  /** One more digit. */
  lemma NumeralStep(n: nat, base: nat, q: nat, d: nat)
    requires (base == 10 || base == 16) && n == q * base + d && d < base && q >= 1
    ensures Numeral(n, base) == Numeral(q, base) + [DigitChar(d)]
  {
    Radix.DivModIs(n, base, q, d);
  }

  /** A word of four hexadecimal digits. */
  lemma WordDigits(w: nat, k: nat, hi: nat, a: nat, b: nat, c: nat, d: nat)
    requires 1 <= a < 16 && b < 16 && c < 16 && d < 16 && hi == a * 16 + b && k == hi * 16 + c && w == k * 16 + d
    ensures Numeral(w, 16) == [DigitChar(a), DigitChar(b), DigitChar(c), DigitChar(d)]
  {
    assert Numeral(a, 16) == [DigitChar(a)];
    NumeralStep(hi, 16, a, b);
    assert Numeral(hi, 16) == [DigitChar(a), DigitChar(b)];
    NumeralStep(k, 16, hi, c);
    assert Numeral(k, 16) == [DigitChar(a), DigitChar(b), DigitChar(c)];
    NumeralStep(w, 16, k, d);
  }

  /** A text that starts with a word of four digits starts with the two digits of each of the first two bytes. */
  lemma FirstBytesShown(x: Address, a: nat, b: nat, c: nat, d: nat)
    requires x.base != 0 && 1 <= a < 16 && b < 16 && c < 16 && d < 16
    requires x.a[0] == 16 * a + b && x.a[1] == 16 * c + d
    ensures [DigitChar(a), DigitChar(b), DigitChar(c), DigitChar(d)] <= Text(x)
  {
    var hi: nat := x.a[0];
    WordDigits(Word(x, 0), hi * 16 + c, hi, a, b, c, d);
    assert Text(x) == Numeral(Word(x, 0), 16) + After(x, 1);
  }
}
