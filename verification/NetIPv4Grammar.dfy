/** The texts that the reader of IPv4 addresses accepts, as a grammar, and the round trip through text. */
module NetIPv4Grammar {
  import opened Basics
  import opened DecimalText
  import opened NetGrammar
  import opened NetIPv4
  import opened NetPrint
  import opened NetRoundTrip
  import NetOrder

  // ---- the grammar

  /** Decimal digits, with leading zeros or without. */
  ghost predicate IsDigits(o: string) {
    o != [] && AllDec(o)
  }

  ghost predicate AllWritten(os: seq<string>) {
    forall i :: 0 <= i < |os| ==> IsDigits(os[i]) && DecRead(0, os[i]) <= 255
  }

  /** A text: octets with dots between them, perhaps one more dot, and perhaps a prefix length. */
  datatype Form4 = Form4(os: seq<string>, dot: bool, prefix: Option<string>) {
    /** The int that the reader gathers; -1 if there is no prefix. */
    ghost function Gathered(): (w: int)
      requires prefix.Some? ==> IsDigits(prefix.value)
    {
      if prefix.None? then -1 else Wrapped(DecRead(0, prefix.value))
    }

    ghost predicate Legal() {
      && 1 <= |os| <= 4 && AllWritten(os) && (prefix.Some? ==> IsDigits(prefix.value))
      && var bits := PrefixFrom(Gathered(), |os|); bits.Some? && CDiv(bits.value, 8) <= |os|
    }
  }

  type LegalForm4 = f: Form4 | f.Legal() ghost witness Example()

  ghost function Example(): (f: Form4)
    ensures f.Legal()
  {
    assert DecRead(0, "0") == 0;
    Form4(["0", "0", "0", "0"], false, None)
  }

  /** What follows the octets. */
  ghost function EndText(f: LegalForm4): (s: string) {
    (if f.dot then "." else []) + NetGrammar.PrefixText(f.prefix)
  }

  ghost function FormText4(f: LegalForm4): (s: string) {
    Dots(f.os) + EndText(f)
  }

  /** The address, missing octets being zero, and the prefix length. */
  ghost function Denoted4(f: LegalForm4): (r: (seq<byte>, int)) {
    (OctetBytes(f.os) + Zeros(4 - |f.os|), PrefixFrom(f.Gathered(), |f.os|).value)
  }

  // ---- reading

  lemma {:induction false} NumberRead(o: string, rest: string, val: nat)
    requires AllDec(o) && (rest == [] || !IsDecimal(rest[0]))
    ensures ReadNumber(o + rest, val) == (DecRead(val, o), rest)
    decreases |o|
  {
    if o == [] {
      assert o + rest == rest;
    } else {
      assert (o + rest)[1..] == o[1..] + rest;
      NumberRead(o[1..], rest, val * 10 + DecimalValue(o[0]));
    }
  }

  /** An octet and what follows it. */
  lemma OctetRead(o: string, rest: string, octets: seq<byte>)
    requires IsDigits(o) && DecRead(0, o) <= 255 && |octets| < 4 && (rest == [] || rest[0] == '/' || rest[0] == '.')
    ensures ReadOctets(o + rest, octets) ==
      var b := octets + [DecRead(0, o)];
      if rest == [] || rest[0] == '/' then Some((b, rest)) else ReadOctets(rest[1..], b)
  {
    assert (o + rest)[0] == o[0];
    NumberRead(o, rest, 0);
  }

  /** The last octet, the dot after it if there is one, and the rest. */
  lemma LastOctet(o: string, dot: bool, p: Option<string>, octets: seq<byte>)
    requires IsDigits(o) && DecRead(0, o) <= 255 && |octets| < 4
    ensures ReadOctets(o + ((if dot then "." else []) + NetGrammar.PrefixText(p)), octets)
         == Some((octets + [DecRead(0, o)], NetGrammar.PrefixText(p)))
  {
    var end := NetGrammar.PrefixText(p);
    if dot {
      assert ("." + end)[1..] == end;
      OctetRead(o, "." + end, octets);
    } else {
      assert [] + end == end;
      OctetRead(o, end, octets);
    }
  }

  lemma {:induction false} OctetsRead(os: seq<string>, dot: bool, p: Option<string>, octets: seq<byte>)
    requires os != [] && AllWritten(os) && |octets| + |os| <= 4
    ensures ReadOctets(Dots(os) + ((if dot then "." else []) + NetGrammar.PrefixText(p)), octets)
         == Some((octets + OctetBytes(os), NetGrammar.PrefixText(p)))
    decreases |os|
  {
    var end := (if dot then "." else []) + NetGrammar.PrefixText(p);
    if |os| == 1 {
      LastOctet(os[0], dot, p, octets);
      assert OctetBytes(os[1..]) == [] && OctetBytes(os) == [DecRead(0, os[0])];
    } else {
      var o, rest := os[0], Dots(os[1..]) + end;
      Regroup(o, "." + Dots(os[1..]), end);
      Regroup(".", Dots(os[1..]), end);
      OctetRead(o, "." + rest, octets);
      assert ("." + rest)[1..] == rest;
      OctetsRead(os[1..], dot, p, octets + [DecRead(0, o)]);
      Regroup(octets, [DecRead(0, o)], OctetBytes(os[1..]));
    }
  }

  lemma PrefixRead4(p: Option<string>, octets: seq<byte>)
    requires octets != [] && (p.Some? ==> IsDigits(p.value))
    ensures ReadPrefix(octets, NetGrammar.PrefixText(p))
         == PrefixFrom(if p.None? then -1 else Wrapped(DecRead(0, p.value)), |octets|)
  {
    if p.Some? {
      var s := NetGrammar.PrefixText(p);
      assert s[1..] == p.value + [] && s[1] == p.value[0];
      NumberRead(p.value, [], 0);
    }
  }

  /** Every legal text is accepted, with what it denotes. */
  lemma FormReads4(f: LegalForm4)
    ensures ReadIPv4(FormText4(f)) == Some(Denoted4(f))
  {
    var b := OctetBytes(f.os);
    OctetsRead(f.os, f.dot, f.prefix, []);
    assert [] + b == b;
    PrefixRead4(f.prefix, b);
  }

  // ---- every accepted text is of the grammar

  /** How many decimal digits s starts with. */
  ghost function DecLen(s: string): (n: nat)
    ensures n <= |s| && AllDec(s[..n]) && (n < |s| ==> !IsDecimal(s[n]))
  {
    if s == [] || !IsDecimal(s[0]) then 0 else 1 + DecLen(s[1..])
  }

  /** The digits in front, and the number they are. */
  lemma SplitNumber(s: string, h: nat)
    requires h == DecLen(s)
    ensures s == s[..h] + s[h..] && ReadNumber(s, 0) == (DecRead(0, s[..h]), s[h..])
  {
    assert s == s[..h] + s[h..];
    NumberRead(s[..h], s[h..], 0);
  }

  lemma BytesCons(o: string, os: seq<string>)
    requires IsDigits(o) && DecRead(0, o) <= 255 && AllWritten(os)
    ensures AllWritten([o] + os) && OctetBytes([o] + os) == [DecRead(0, o)] + OctetBytes(os)
  {
    assert ([o] + os)[1..] == os;
  }

  lemma DotsCons4(o: string, os: seq<string>, end: string)
    requires os != []
    ensures Dots([o] + os) + end == o + ("." + (Dots(os) + end))
  {
    assert ([o] + os)[1..] == os;
    Regroup(o, "." + Dots(os), end);
    Regroup(".", Dots(os), end);
  }

  /** The octets in front of a text that was accepted. */
  lemma {:induction false} ParseOctets(s: string, octets: seq<byte>) returns (os: seq<string>, dot: bool, rest: string)
    requires |octets| <= 4 && s != [] && IsDecimal(s[0]) && ReadOctets(s, octets).Some?
    ensures os != [] && AllWritten(os) && |octets| + |os| <= 4 && s == Dots(os) + ((if dot then "." else []) + rest)
    ensures ReadOctets(s, octets) == Some((octets + OctetBytes(os), rest))
    decreases |s|
  {
    var h := DecLen(s);
    var o, more := s[..h], s[h..];
    SplitNumber(s, h);
    var v: byte := DecRead(0, o);
    BytesCons(o, []);
    assert [o] + [] == [o] && [v] + [] == [v];
    if more == [] || more[0] == '/' {
      os, dot, rest := [o], false, more;
      assert [] + more == more;
    } else {
      var next := more[1..];
      assert more == "." + next;
      if next == [] || !IsDecimal(next[0]) {
        os, dot, rest := [o], true, next;
      } else {
        os, dot, rest := ParseOctets(next, octets + [v]);
        BytesCons(o, os);
        Regroup(octets, [v], OctetBytes(os));
        DotsCons4(o, os, (if dot then "." else []) + rest);
        os := [o] + os;
      }
    }
  }

  /** The prefix length of a text that was accepted. */
  lemma ParsePrefix4(octets: seq<byte>, rest: string) returns (p: Option<string>)
    requires octets != [] && ReadPrefix(octets, rest).Some?
    ensures (p.Some? ==> IsDigits(p.value)) && rest == NetGrammar.PrefixText(p)
  {
    if rest == [] {
      p := None;
    } else {
      p := Some(rest[1..]);
      SplitNumber(rest[1..], DecLen(rest[1..]));
      assert rest == "/" + rest[1..];
    }
  }

  /** Every text that is accepted is legal, and denotes what the reader makes of it. */
  lemma AcceptedIsForm4(s: string) returns (f: LegalForm4)
    requires ReadIPv4(s).Some?
    ensures FormText4(f) == s && ReadIPv4(s) == Some(Denoted4(f))
  {
    assert s != [] && IsDecimal(s[0]);
    var os, dot, rest := ParseOctets(s, []);
    var b := OctetBytes(os);
    assert [] + b == b;
    var p := ParsePrefix4(b, rest);
    PrefixRead4(p, b);
    f := Form4(os, dot, p);
    FormReads4(f);
  }

  /** A text is accepted exactly if it is one of the grammar. */
  lemma AcceptedExactly4(s: string)
    ensures ReadIPv4(s).Some? <==> exists f: LegalForm4 :: FormText4(f) == s
  {
    if ReadIPv4(s).Some? {
      var f := AcceptedIsForm4(s);
    }
    forall f: LegalForm4 | FormText4(f) == s ensures ReadIPv4(s).Some? {
      FormReads4(f);
    }
  }

  // ---- prefix lengths as they are written

  /** The prefix length n is read as it is written, or refused as it should be, exactly if it fits an int or the
      int that is left of it is refused as well. */
  lemma PrefixAsWritten(n: nat, octets: nat, low: nat)
    requires low == n % 0x1_0000_0000
    ensures PrefixFrom(Wrapped(n), octets) == (if n <= 32 then Some(n) else None)
       <==> n <= 0x7fff_ffff || 32 < low <= 0x7fff_ffff || (low == 0xffff_ffff && octets != 4)
  {
    NetOrder.ModShift(low, 0x1_0000_0000, n / 0x1_0000_0000);
    assert Wrapped(n) == Wrapped(low);
  }

  // ---- addresses written out

  /** The text of octets, with a dot after them or without, and a prefix length if one is given. */
  ghost function Written(o: seq<byte>, dot: bool, n: Option<nat>): (s: string)
    requires o != []
  {
    Dotted(o) + ((if dot then "." else []) + if n.None? then [] else "/" + Numeral(n.value, 10))
  }

  /** What every such text is read as: the dot makes no difference, and the prefix length is the int left of it. */
  lemma WrittenReads(o: seq<byte>, dot: bool, n: Option<nat>, bits: Option<int>)
    requires 1 <= |o| <= 4 && bits == PrefixFrom(if n.None? then -1 else Wrapped(n.value), |o|)
    ensures ReadIPv4(Written(o, dot, n))
         == if bits.None? || CDiv(bits.value, 8) > |o| then None else Some((o + Zeros(4 - |o|), bits.value))
  {
    var p := if n.None? then None else Some(Numeral(n.value, 10));
    if n.Some? { DecNumeral(n.value); }
    OctetsDenote(o);
    DottedIsDots(o);
    OctetsRead(Octets(o), dot, p, []);
    assert [] + o == o;
    PrefixRead4(p, o);
  }

  /** Any address with /4294967304 after it is accepted with the prefix length 8: the int overflows. */
  lemma OverflowAccepted(a: seq<byte>, n: nat)
    requires |a| == 4 && n == 4294967304
    ensures ReadIPv4(Written(a, false, Some(n))) == Some((a, 8))
  {
    WrittenReads(a, false, Some(n), Some(8));
    assert a + Zeros(0) == a;
  }

  /** A dot after the last octet is ignored, also if octets are missing: "1.2.3.4." and "1.2.3./24" are accepted. */
  lemma DotIgnored(o: seq<byte>, n: Option<nat>)
    requires 1 <= |o| <= 4
    ensures ReadIPv4(Written(o, true, n)) == ReadIPv4(Written(o, false, n))
    ensures |o| == 4 && n == None ==> ReadIPv4(Written(o, true, n)) == Some((o, 32))
    ensures |o| == 3 && n == Some(24) ==> ReadIPv4(Written(o, true, n)) == Some((o + [0], 24))
  {
    var bits := PrefixFrom(if n.None? then -1 else Wrapped(n.value), |o|);
    WrittenReads(o, true, n, bits);
    WrittenReads(o, false, n, bits);
    assert o + Zeros(0) == o && Zeros(1) == [0];
  }

  // ---- the round trip

  /** Every address and prefix length reads back. */
  lemma TextReads4(a: seq<byte>, bits: nat)
    requires |a| == 4 && bits <= 32
    ensures ReadIPv4(Dotted(a) + NetIPv4.PrefixText(bits)) == Some((a, bits))
  {
    var n := if bits == 32 then None else Some(bits);
    WrittenReads(a, false, n, Some(bits));
    assert [] + NetIPv4.PrefixText(bits) == NetIPv4.PrefixText(bits) && a + Zeros(0) == a;
  }

  /** Printing any address with any prefix length and reading the text gives them back. */
  method ThroughText(a: seq<byte>, bits: nat) returns (text: string, r: Option<(seq<byte>, int)>)
    requires |a| == 4 && bits <= 32
    ensures r == Some((a, bits))
  {
    TwentyEnough(a, bits, BUFFER_SIZE);
    var printed := NtopIPv4(a, bits, BUFFER_SIZE);
    text := printed.value;
    r := PtonIPv4(text);
    TextReads4(a, bits);
  }
}
