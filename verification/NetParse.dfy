/** Reading IPv6 addresses (getbits, getv4, inet_cidr_pton_ipv6). */
module NetParse {
  import opened Basics
  import opened DecimalText

  /** The value of a hexadecimal digit of either case, or -1. */
  function HexValue(c: char): (v: int)
    ensures -1 <= v < 16
    ensures IsDecimal(c) ==> v == DecimalValue(c)
  {
    if '0' <= c <= '9' then c as int - '0' as int
    else if 'a' <= c <= 'f' then c as int - 'a' as int + 10
    else if 'A' <= c <= 'F' then c as int - 'A' as int + 10
    else -1
  }

  // ---- prefix lengths

  /** The prefix length in s, after n digits worth val; no leading zeros, at most 128. */
  function BitsFrom(s: string, val: nat, n: nat): (r: Option<nat>)
    ensures r.Some? && val <= 128 ==> r.value <= 128
  {
    if s == [] then if n == 0 then None else Some(val)
    else if !IsDecimal(s[0]) || (n != 0 && val == 0) then None
    else if val * 10 + DecimalValue(s[0]) > 128 then None
    else BitsFrom(s[1..], val * 10 + DecimalValue(s[0]), n + 1)
  }

  method GetBits(s: string, start: nat) returns (r: Option<nat>)
    requires start <= |s|
    ensures r == BitsFrom(s[start..], 0, 0)
  {
    var val, n, i := 0, 0, start;
    while i < |s|
      invariant start <= i <= |s| && 0 <= val <= 128 && n >= 0
      invariant BitsFrom(s[i..], val, n) == BitsFrom(s[start..], 0, 0)
    {
      assert s[i..][1..] == s[i + 1..];
      if !IsDecimal(s[i]) || (n != 0 && val == 0) { return None; }
      n, val := n + 1, val * 10 + DecimalValue(s[i]);
      if val > 128 { return None; }
      i := i + 1;
    }
    assert s[i..] == [];
    r := if n == 0 then None else Some(val);
  }

  // ---- dotted quads

  /** The octets of a dotted quad and its prefix length, -1 if it has none. Missing octets are not an
      error here: the destination was cleared before. */
  function QuadFrom(s: string, val: byte, n: nat, octets: seq<byte>): (r: Option<(seq<byte>, int)>)
    requires |octets| <= 4
    ensures r.Some? ==> |octets| < |r.value.0| <= 4 && -1 <= r.value.1 <= 128
    decreases |s|
  {
    if s == [] then if n == 0 || |octets| > 3 then None else Some((octets + [val], -1))
    else if IsDecimal(s[0]) then
      if n != 0 && val == 0 then None
      else if val * 10 + DecimalValue(s[0]) > 255 then None
      else QuadFrom(s[1..], val * 10 + DecimalValue(s[0]), n + 1, octets)
    else if (s[0] == '.' || s[0] == '/') && |octets| <= 3 then
      if s[0] == '.' then QuadFrom(s[1..], 0, 0, octets + [val])
      else match BitsFrom(s[1..], 0, 0) case Some(bits) => Some((octets + [val], bits)) case None => None
    else None
  }

  /** dst is b with the octets written from p on. */
  ghost predicate Written(dst: seq<byte>, b: seq<byte>, p: nat, octets: seq<byte>) {
    p + |octets| <= |b| && dst == b[..p] + octets + b[p + |octets|..]
  }

  method StoreOctet(dst: array<byte>, p: nat, k: nat, val: byte, ghost b: seq<byte>, ghost octets: seq<byte>)
    requires Written(dst[..], b, p, octets) && |octets| == k && p + k < dst.Length
    modifies dst
    ensures Written(dst[..], b, p, octets + [val])
  {
    ghost var c := dst[..];
    dst[p + k] := val;
    assert dst[..] == c[..p + k] + [val] + c[p + k + 1..];
  }

  /** One turn of the reader of quads. */
  lemma QuadTurn(s: string, val: byte, n: nat, octets: seq<byte>)
    requires s != [] && |octets| <= 4
    ensures QuadFrom(s, val, n, octets) ==
      if IsDecimal(s[0]) then
        var v := val * 10 + DecimalValue(s[0]);
        if (n != 0 && val == 0) || v > 255 then None else QuadFrom(s[1..], v, n + 1, octets)
      else if (s[0] != '.' && s[0] != '/') || |octets| > 3 then None
      else if s[0] == '.' then QuadFrom(s[1..], 0, 0, octets + [val])
      else match BitsFrom(s[1..], 0, 0) case Some(bits) => Some((octets + [val], bits)) case None => None
  {
  }

  /** The digits and dots from start on; the octets before the last dot are written. */
  method ReadQuad(s: string, start: nat, dst: array<byte>, p: nat, ghost b: seq<byte>)
    returns (ok: bool, i: nat, val: byte, n: nat, k: nat, ghost octets: seq<byte>)
    requires start <= |s| && p + 4 <= dst.Length && dst[..] == b
    modifies dst
    ensures start <= i <= |s| && |octets| == k <= 4 && Written(dst[..], b, p, octets)
    ensures var all := QuadFrom(s[start..], 0, 0, []); if ok then QuadFrom(s[i..], val, n, octets) == all else all == None
    ensures ok && i < |s| ==> !IsDecimal(s[i]) && s[i] != '.'
  {
    ok, i, val, n, k, octets := true, start, 0, 0, 0, [];
    ghost var all := QuadFrom(s[start..], 0, 0, []);
    while ok && i < |s| && (IsDecimal(s[i]) || s[i] == '.')
      invariant start <= i <= |s| && |octets| == k <= 4 && Written(dst[..], b, p, octets)
      invariant if ok then QuadFrom(s[i..], val, n, octets) == all else all == None
    {
      QuadTurn(s[i..], val, n, octets);
      assert s[i..][1..] == s[i + 1..];
      if IsDecimal(s[i]) {
        var v: int := val * 10 + DecimalValue(s[i]);
        ok := (n == 0 || val != 0) && v <= 255;
        if ok { n, val := n + 1, v; }
      } else {
        ok := k <= 3;
        if ok {
          StoreOctet(dst, p, k, val, b, octets);
          octets := octets + [val];
          k, val, n := k + 1, 0, 0;
        }
      }
      i := i + 1;
    }
  }

  /** Writes the octets from p on, at most four. */
  method GetV4(s: string, start: nat, dst: array<byte>, p: nat) returns (r: Option<int>, ghost octets: seq<byte>)
    requires start <= |s| && p + 4 <= dst.Length
    modifies dst
    ensures QuadFrom(s[start..], 0, 0, []) == if r.None? then None else Some((octets, r.value))
    ensures |octets| <= 4 && Written(dst[..], old(dst[..]), p, octets)
  {
    ghost var b := dst[..];
    var ok, i, val, n, k;
    ok, i, val, n, k, octets := ReadQuad(s, start, dst, p, b);
    r := None;
    if !ok || k > 3 || (i == |s| && n == 0) || (i < |s| && s[i] != '/') { return; }
    StoreOctet(dst, p, k, val, b, octets);
    octets := octets + [val];
    if i == |s| { return Some(-1), octets; }
    QuadTurn(s[i..], val, n, octets[..k]);
    assert s[i..][1..] == s[i + 1..] && octets[..k] + [val] == octets;
    var bits := GetBits(s, i + 1);
    if bits.Some? { r := Some(bits.value); }
  }

  // ---- IPv6

  function WordBytes(w: nat): (b: seq<byte>)
    ensures |b| == 2
  {
    [w / 256 % 256, w % 256]
  }

  /** Where the reader of an IPv6 address stands: the text of the current group, the bytes written, the
      place of the double colon, and the group read so far. */
  datatype State = State(tok: string, out: seq<byte>, colon: Option<nat>, val: nat, digits: nat, saw: bool) {
    ghost predicate Valid() {
      |out| <= 16 && (colon.Some? ==> colon.value <= |out|) && digits <= 4
    }
  }

  type Reader = st: State | st.Valid() ghost witness State([], [], None, 0, 0, false)

  /** The group is written and the next one starts. */
  ghost function Flush(st: Reader, rest: string): (r: Reader)
    requires |st.out| <= 14
  {
    State(rest, st.out + WordBytes(st.val), st.colon, 0, 0, false)
  }

  /** Fills the gap of a double colon with zeros; there must be one exactly when bytes are missing. */
  ghost function Expand(out: seq<byte>, colon: Option<nat>, bits: int): (r: Option<(seq<byte>, int)>)
    requires |out| <= 16 && (colon.Some? ==> colon.value <= |out|)
    ensures r.Some? ==> |r.value.0| == 16
  {
    if |out| == 16 then if colon.Some? then None else Some((out, bits))
    else if colon.None? then None
    else Some((out[..colon.value] + Zeros(16 - |out|) + out[colon.value..], bits))
  }

  /** The end of the text: the last group is written and the double colon expanded. */
  ghost function Finish(st: Reader, bits: int): (r: Option<(seq<byte>, int)>)
    ensures r.Some? ==> |r.value.0| == 16
  {
    var b := if bits == -1 then 128 else bits;
    if !st.saw then Expand(st.out, st.colon, b)
    else if |st.out| > 14 then None
    else Expand(st.out + WordBytes(st.val), st.colon, b)
  }

  /** The end of a text whose last group is a dotted quad. */
  ghost function FinishQuad(st: Reader): (r: Option<(seq<byte>, int)>)
    ensures r.Some? ==> |r.value.0| == 16
  {
    if |st.out| > 12 then None
    else match QuadFrom(st.tok, 0, 0, [])
      case None => None
      case Some((octets, bits)) =>
        Finish(st.(out := st.out + octets + Zeros(4 - |octets|), saw := false), bits)
  }

  ghost function FinishBits(rest: string, st: Reader): (r: Option<(seq<byte>, int)>)
    ensures r.Some? ==> |r.value.0| == 16
  {
    match BitsFrom(rest, 0, 0) case None => None case Some(bits) => Finish(st, bits)
  }

  /** What the reader does with a character: it stops with a result, or goes on. */
  datatype Turn = Stop(r: Option<(seq<byte>, int)>) | Go(next: Reader)

  /** The turn of the reader at the start of s. */
  ghost function TurnAt(s: string, st: Reader): (t: Turn)
    requires s != []
    ensures t.Stop? && t.r.Some? ==> |t.r.value.0| == 16
  {
    if HexValue(s[0]) >= 0 then
      if st.digits == 4 then Stop(None)
      else Go(st.(val := st.val * 16 + HexValue(s[0]), digits := st.digits + 1, saw := true))
    else if s[0] == ':' && !st.saw then
      if st.colon.Some? then Stop(None) else Go(st.(tok := s[1..], colon := Some(|st.out|)))
    else if s[0] == ':' then
      if |s| == 1 || |st.out| > 14 then Stop(None) else Go(Flush(st, s[1..]))
    else if s[0] == '.' then Stop(FinishQuad(st))
    else if s[0] == '/' then Stop(FinishBits(s[1..], st))
    else Stop(None)
  }

  /** The address and prefix length read from the rest s of a text. */
  ghost function ReadFrom(s: string, st: Reader): (r: Option<(seq<byte>, int)>)
    ensures r.Some? ==> |r.value.0| == 16
    decreases |s|
  {
    if s == [] then Finish(st, -1)
    else
      var t := TurnAt(s, st);
      if t.Stop? then t.r else ReadFrom(s[1..], t.next)
  }

  ghost function Start(s: string): (st: Reader)
  {
    State(s, [], None, 0, 0, false)
  }

  /** The address and prefix length that an IPv6 text denotes; none if it is malformed. */
  ghost function ReadIPv6(s: string): (r: Option<(seq<byte>, int)>)
    ensures r.Some? ==> |r.value.0| == 16
  {
    if s != [] && s[0] == ':' then
      if |s| == 1 || s[1] != ':' then None else ReadFrom(s[1..], Start(s[1..]))
    else ReadFrom(s, Start(s))
  }

  /** tmp holds the bytes written so far and zeros. */
  ghost predicate Holds(tmp: seq<byte>, out: seq<byte>) {
    |out| <= 16 && tmp == out + Zeros(16 - |out|)
  }

  method WriteWord(tmp: array<byte>, tp: nat, val: nat, ghost out: seq<byte>)
    requires tmp.Length == 16 && Holds(tmp[..], out) && |out| == tp <= 14
    modifies tmp
    ensures Holds(tmp[..], out + WordBytes(val))
  {
    ghost var b := tmp[..];
    var hi: byte, lo: byte := val / 256 % 256, val % 256;
    tmp[tp] := hi;
    tmp[tp + 1] := lo;
    assert tmp[..] == b[..tp] + [hi, lo] + b[tp + 2..];
  }

  /** Moves the bytes after the double colon to the end, clearing their old places. */
  method ShiftTail(tmp: array<byte>, colonp: nat, tp: nat)
    requires tmp.Length == 16 && colonp <= tp < 16 && forall k :: tp <= k < 16 ==> tmp[k] == 0
    modifies tmp
    ensures tmp[..] == old(tmp[..])[..colonp] + Zeros(16 - tp) + old(tmp[..])[colonp..tp]
  {
    ghost var b := tmp[..];
    var n, i := tp - colonp, 1;
    while i <= n
      invariant 1 <= i <= n + 1
      invariant forall k :: 0 <= k <= tp - i ==> tmp[k] == b[k]
      invariant forall k :: tp - i < k <= 16 - i ==> tmp[k] == 0
      invariant forall k :: 16 - i < k < 16 ==> tmp[k] == b[k - (16 - tp)]
    {
      tmp[16 - i] := tmp[tp - i];
      tmp[tp - i] := 0;
      i := i + 1;
    }
  }

  lemma QuadHeld(tmp: seq<byte>, tmp': seq<byte>, out: seq<byte>, octets: seq<byte>)
    requires Holds(tmp, out) && |out| <= 12 && |octets| <= 4 && Written(tmp', tmp, |out|, octets)
    ensures Holds(tmp', out + octets + Zeros(4 - |octets|))
  {
  }

  /** The end of the text: writes the last group and expands the double colon in place. */
  method Conclude(tmp: array<byte>, tp: nat, val: nat, saw: bool, colon: Option<nat>, bits: int, ghost st: Reader)
    returns (r: Option<(seq<byte>, int)>)
    requires tmp.Length == 16 && Holds(tmp[..], st.out) && |st.out| == tp
    requires st.val == val && st.saw == saw && st.colon == colon
    modifies tmp
    ensures r == Finish(st, bits)
  {
    var end := tp;
    ghost var out := st.out;
    if saw {
      if tp + 2 > 16 { return None; }
      WriteWord(tmp, tp, val, out);
      out := out + WordBytes(val);
      end := tp + 2;
    }
    var b := if bits == -1 then 128 else bits;
    if colon.Some? {
      if end == 16 { return None; }
      assert tmp[..][colon.value..end] == out[colon.value..];
      assert tmp[..][..colon.value] == out[..colon.value];
      ShiftTail(tmp, colon.value, end);
    } else {
      if end != 16 { return None; }
      assert tmp[..] == out;
    }
    r := Some((tmp[..], b));
  }

  /** Reads an IPv6 address with an optional prefix length. */
  method PtonIPv6(src: string) returns (r: Option<(seq<byte>, int)>)
    ensures r == ReadIPv6(src)
  {
    if src != [] && src[0] == ':' {
      if |src| == 1 || src[1] != ':' { return None; }
      r := ReadGroups(src, 1);
    } else {
      assert src[0..] == src;
      r := ReadGroups(src, 0);
    }
  }

  /** The reader after a digit. */
  ghost function AfterDigit(s: string, st: Reader): (r: Reader)
    requires s != [] && HexValue(s[0]) >= 0 && st.digits < 4
    ensures ReadFrom(s, st) == ReadFrom(s[1..], r)
  {
    st.(val := st.val * 16 + HexValue(s[0]), digits := st.digits + 1, saw := true)
  }

  /** The turn of the reader at a colon. */
  lemma ColonTurn(src: string, i: nat, st: Reader)
    requires i < |src| && src[i] == ':'
    ensures ReadFrom(src[i..], st) ==
      var rest := src[i + 1..];
      if !st.saw then if st.colon.Some? then None else ReadFrom(rest, st.(tok := rest, colon := Some(|st.out|)))
      else if i + 1 == |src| || |st.out| > 14 then None else ReadFrom(rest, Flush(st, rest))
  {
    assert src[i..][1..] == src[i + 1..];
  }

  /** A colon: after a word it ends the word, which is written; otherwise it is the second of a double colon. */
  method AtColon(src: string, i: nat, tmp: array<byte>, tp: nat, val: nat, saw: bool, colon: Option<nat>, ghost st: Reader)
    returns (ok: bool, tp': nat, colon': Option<nat>, ghost st': Reader)
    requires i < |src| && src[i] == ':' && tmp.Length == 16 && Holds(tmp[..], st.out) && |st.out| == tp
    requires st.val == val && st.saw == saw && st.colon == colon
    modifies tmp
    ensures Holds(tmp[..], st'.out) && tp' == |st'.out|
    ensures if ok then ReadFrom(src[i..], st) == ReadFrom(src[i + 1..], st') else ReadFrom(src[i..], st) == None
    ensures st'.tok == src[i + 1..] && st'.colon == colon' && !st'.saw
    ensures ok ==> st'.val == (if saw then 0 else val) && st'.digits == (if saw then 0 else st.digits)
  {
    ColonTurn(src, i, st);
    ok, tp', colon', st' := true, tp, colon, st.(tok := src[i + 1..], saw := false);
    if !saw {
      if colon.Some? { return false, tp, colon, st'; }
      colon' := Some(tp);
      st' := st.(tok := src[i + 1..], colon := colon');
    } else {
      if i + 1 == |src| || tp + 2 > 16 { return false, tp, colon, st'; }
      WriteWord(tmp, tp, val, st.out);
      st' := Flush(st, src[i + 1..]);
      tp' := tp + 2;
    }
  }

  /** A digit: it is taken into the word, unless that has four already. */
  method AtDigit(src: string, i: nat, val: nat, digits: nat, ghost st: Reader)
    returns (ok: bool, val': nat, digits': nat, ghost st': Reader)
    requires i < |src| && HexValue(src[i]) >= 0 && st.val == val && st.digits == digits
    ensures ok ==> ReadFrom(src[i..], st) == ReadFrom(src[i + 1..], st')
    ensures !ok ==> ReadFrom(src[i..], st) == None
    ensures ok ==> st'.val == val' && st'.digits == digits' && st'.saw
    ensures st'.tok == st.tok && st'.out == st.out && st'.colon == st.colon
  {
    ghost var s := src[i..];
    assert s[0] == src[i] && s[1..] == src[i + 1..];
    val', digits' := val * 16 + HexValue(src[i]), digits + 1;
    ok, st' := digits' <= 4, st;
    if ok { st' := AfterDigit(s, st); }
  }

  /** The reader's variables agree with st; curtok is where the token began. */
  ghost predicate Agrees(st: Reader, src: string, curtok: nat, val: nat, digits: nat, saw: bool) {
    curtok <= |src| && st.tok == src[curtok..] && st.val == val && st.digits == digits && st.saw == saw
  }

  /** A digit or a colon at i. */
  method TakeChar(src: string, i: nat, curtok: nat, tmp: array<byte>, tp: nat, val: nat, digits: nat, saw: bool,
      colon: Option<nat>, ghost st: Reader)
    returns (ok: bool, curtok': nat, tp': nat, val': nat, digits': nat, saw': bool, colon': Option<nat>, ghost st': Reader)
    requires curtok <= i < |src| && (HexValue(src[i]) >= 0 || src[i] == ':') && Agrees(st, src, curtok, val, digits, saw)
    requires tmp.Length == 16 && Holds(tmp[..], st.out) && tp == |st.out| && st.colon == colon
    modifies tmp
    ensures curtok <= curtok' <= i + 1 && Holds(tmp[..], st'.out) && tp' == |st'.out| && st'.colon == colon'
    ensures ok ==> Agrees(st', src, curtok', val', digits', saw')
    ensures ReadFrom(src[i..], st) == if ok then ReadFrom(src[i + 1..], st') else None
  {
    curtok', tp', saw', colon' := curtok, tp, true, colon;
    if src[i] != ':' {
      ok, val', digits', st' := AtDigit(src, i, val, digits, st);
    } else {
      ok, tp', colon', st' := AtColon(src, i, tmp, tp, val, saw, colon, st);
      curtok', saw' := i + 1, false;
      val', digits' := if saw then 0 else val, if saw then 0 else digits;
    }
  }

  /** The words and colons from start on, up to the first other character. */
  method ReadWords(src: string, start: nat, tmp: array<byte>)
    returns (ok: bool, i: nat, curtok: nat, tp: nat, val: nat, saw: bool, colon: Option<nat>, ghost st: Reader)
    requires start <= |src| && tmp.Length == 16 && Holds(tmp[..], [])
    modifies tmp
    ensures start <= curtok <= i <= |src| && Holds(tmp[..], st.out) && tp == |st.out| && st.colon == colon
    ensures ok ==> st.tok == src[curtok..] && st.val == val && st.saw == saw
    ensures var all := ReadFrom(src[start..], Start(src[start..])); if ok then ReadFrom(src[i..], st) == all else all == None
    ensures ok && i < |src| ==> HexValue(src[i]) < 0 && src[i] != ':'
  {
    st := Start(src[start..]);
    ghost var all := ReadFrom(src[start..], st);
    var digits := 0;
    ok, i, curtok, tp, val, saw, colon := true, start, start, 0, 0, false, None;
    while i < |src| && (HexValue(src[i]) >= 0 || src[i] == ':')
      invariant start <= curtok <= i <= |src| && Holds(tmp[..], st.out) && tp == |st.out| && st.colon == colon
      invariant ok && Agrees(st, src, curtok, val, digits, saw) && ReadFrom(src[i..], st) == all
    {
      ok, curtok, tp, val, digits, saw, colon, st := TakeChar(src, i, curtok, tmp, tp, val, digits, saw, colon, st);
      i := i + 1;
      if !ok { return; }
    }
  }

  /** Reads the text from start on. */
  method ReadGroups(src: string, start: nat) returns (r: Option<(seq<byte>, int)>)
    requires start <= |src|
    ensures r == ReadFrom(src[start..], Start(src[start..]))
  {
    var tmp := new byte[16](_ => 0);
    var ok, i, curtok, tp, val, saw, colon;
    ghost var st;
    ok, i, curtok, tp, val, saw, colon, st := ReadWords(src, start, tmp);
    if !ok { return None; }
    r := ReadEnd(src, i, curtok, tmp, tp, val, saw, colon, st);
  }

  /** The text from the first character on that is neither a digit nor a colon. */
  method ReadEnd(src: string, i: nat, curtok: nat, tmp: array<byte>, tp: nat, val: nat, saw: bool, colon: Option<nat>,
                 ghost st: Reader)
    returns (r: Option<(seq<byte>, int)>)
    requires curtok <= i <= |src| && (i < |src| ==> HexValue(src[i]) < 0 && src[i] != ':')
    requires tmp.Length == 16 && Holds(tmp[..], st.out) && |st.out| == tp
    requires st.tok == src[curtok..] && st.val == val && st.saw == saw && st.colon == colon
    modifies tmp
    ensures r == ReadFrom(src[i..], st)
  {
    if i < |src| {
      assert src[i..] == [src[i]] + src[i + 1..];
      r := ReadLast(src, i + 1, src[i], curtok, tmp, tp, val, saw, colon, st);
    } else {
      assert src[i..] == [];
      r := Conclude(tmp, tp, val, saw, colon, -1, st);
    }
  }

  /** The text from a dot or a slash on. */
  method ReadLast(src: string, i: nat, ch: char, curtok: nat, tmp: array<byte>, tp: nat, val: nat, saw: bool,
                  colon: Option<nat>, ghost st: Reader)
    returns (r: Option<(seq<byte>, int)>)
    requires curtok <= i <= |src| && HexValue(ch) < 0 && ch != ':'
    requires tmp.Length == 16 && Holds(tmp[..], st.out) && |st.out| == tp
    requires st.tok == src[curtok..] && st.val == val && st.saw == saw && st.colon == colon
    modifies tmp
    ensures r == ReadFrom([ch] + src[i..], st)
  {
    assert ([ch] + src[i..])[1..] == src[i..];
    if ch == '.' && tp + 4 <= 16 {
      ghost var b := tmp[..];
      var bits, octets := GetV4(src, curtok, tmp, tp);
      if bits.None? { return None; }
      QuadHeld(b, tmp[..], st.out, octets);
      r := Conclude(tmp, tp + 4, val, false, colon, bits.value,
                    st.(out := st.out + octets + Zeros(4 - |octets|), saw := false));
    } else if ch == '/' {
      var bits := GetBits(src, i);
      if bits.None? { return None; }
      r := Conclude(tmp, tp, val, saw, colon, bits.value, st);
    } else {
      r := None;
    }
  }
}
