/** Printing and reading IPv4 addresses (inet_net_ntop_ipv4, inet_net_pton_ipv4). */
module NetIPv4 {
  import opened Basics
  import opened DecimalText
  import opened NetPrint
  import NetOrder

  // ---- what a text denotes

  /** The number that the digits at the start of s add to val, and the text after it. */
  function ReadNumber(s: string, val: nat): (r: (nat, string)) {
    if s == [] || !IsDecimal(s[0]) then (val, s) else ReadNumber(s[1..], val * 10 + DecimalValue(s[0]))
  }

  lemma {:induction false} NumberGrows(s: string, val: nat)
    ensures ReadNumber(s, val).0 >= val && |ReadNumber(s, val).1| <= |s|
    decreases |s|
  {
    if s != [] && IsDecimal(s[0]) { NumberGrows(s[1..], val * 10 + DecimalValue(s[0])); }
  }

  /** Octets separated by dots, up to the end, a slash, or a character that starts no octet. */
  ghost function ReadOctets(s: string, octets: seq<byte>): (r: Option<(seq<byte>, string)>)
    requires |octets| <= 4
    ensures r.Some? ==> |r.value.0| <= 4
    decreases |s|
  {
    if s == [] || !IsDecimal(s[0]) then Some((octets, s))
    else
      var (n, rest) := ReadNumber(s, 0);
      NumberGrows(s, 0);
      if n > 255 || |octets| == 4 then None
      else if rest == [] || rest[0] == '/' then Some((octets + [n], rest))
      else if rest[0] != '.' then None
      else ReadOctets(rest[1..], octets + [n])
  }

  /** The int that two's complement leaves of x. */
  function Wrapped(x: int): (w: int)
    ensures -0x8000_0000 <= w <= 0x7fff_ffff && (-0x8000_0000 <= x <= 0x7fff_ffff ==> w == x)
  {
    (x + 0x8000_0000) % 0x1_0000_0000 - 0x8000_0000
  }

  /** The prefix length that an int gathered from digits stands for: -1 also marks a prefix that was not given,
      which is 32 if all four octets were. */
  function PrefixFrom(w: int, octets: nat): (r: Option<int>) {
    if w > 32 || (w == -1 && octets != 4) then None else Some(if w == -1 then 32 else w)
  }

  /** The prefix length after the octets, gathered in an int that may overflow. */
  ghost function ReadPrefix(octets: seq<byte>, rest: string): (r: Option<int>)
    ensures r.Some? ==> r.value <= 32
  {
    if |rest| >= 2 && rest[0] == '/' && IsDecimal(rest[1]) && octets != [] then
      var (n, end) := ReadNumber(rest[1..], 0);
      if end == [] then PrefixFrom(Wrapped(n), |octets|) else None
    else if rest == [] then PrefixFrom(-1, |octets|)
    else None
  }

  /** The address and prefix length an IPv4 text denotes. Missing octets are zero, if the prefix does not
      reach past the octets that were given. */
  ghost function ReadIPv4(s: string): (r: Option<(seq<byte>, int)>)
    ensures r.Some? ==> |r.value.0| == 4 && r.value.1 <= 32
  {
    match ReadOctets(s, [])
    case None => None
    case Some((octets, rest)) =>
      var bits := ReadPrefix(octets, rest);
      if bits.None? || octets == [] || CDiv(bits.value, 8) > |octets| then None
      else Some((octets + Zeros(4 - |octets|), bits.value))
  }

  // ---- reading

  /** Reads the digits from i on; gives up once the number exceeds the limit. */
  method GetNumber(s: string, i: nat, limit: nat) returns (ok: bool, val: nat, j: nat)
    requires i < |s| && IsDecimal(s[i])
    ensures ok <==> ReadNumber(s[i..], 0).0 <= limit
    ensures ok ==> i < j <= |s| && ReadNumber(s[i..], 0) == (val, s[j..])
  {
    val, j := 0, i;
    while j < |s| && IsDecimal(s[j])
      invariant i <= j <= |s| && (j == i ==> val == 0) && val <= limit
      invariant ReadNumber(s[j..], val) == ReadNumber(s[i..], 0)
    {
      assert s[j..][1..] == s[j + 1..];
      val := val * 10 + DecimalValue(s[j]);
      if val > limit {
        NumberGrows(s[j + 1..], val);
        return false, val, j;
      }
      j := j + 1;
    }
    ok := true;
  }

  /** dst holds the octets read so far. */
  method GetOctets(s: string, dst: array<byte>) returns (ok: bool, k: nat, i: nat)
    requires dst.Length == 4
    modifies dst
    ensures ok <==> ReadOctets(s, []).Some?
    ensures ok ==> k <= 4 && i <= |s| && ReadOctets(s, []) == Some((dst[..k], s[i..]))
  {
    k, i, ok := 0, 0, true;
    ghost var octets: seq<byte> := [];
    assert s[0..] == s;
    while i < |s| && IsDecimal(s[i])
      invariant 0 <= k <= 4 && i <= |s| && ok && octets == dst[..k]
      invariant ReadOctets(s[i..], octets) == ReadOctets(s, [])
    {
      NumberGrows(s[i..], 0);
      var small, val, j := GetNumber(s, i, 255);
      if !small || k == 4 { return false, k, i; }
      dst[k] := val;
      k, octets := k + 1, octets + [val];
      assert dst[..k] == octets;
      if j == |s| || s[j] == '/' { return true, k, j; }
      if s[j] != '.' { return false, k, j; }
      assert s[j..][1..] == s[j + 1..];
      i := j + 1;
    }
  }

  lemma WrappedStep(x: int, d: int)
    ensures Wrapped(Wrapped(x) * 10 + d) == Wrapped(x * 10 + d)
  {
    var m, h := 0x1_0000_0000, 0x8000_0000;
    var q := (x + h) / m;
    assert Wrapped(x) == x - q * m;
    Remainder(x * 10 + d + h, -10 * q, m);
    assert Wrapped(x) * 10 + d + h == x * 10 + d + h + (-10 * q) * m;
  }

  lemma Remainder(x: int, q: int, m: int)
    requires m > 0
    ensures (x + q * m) % m == x % m
  {
    NetOrder.ModShift(x, m, q);
  }

  /** Gathers the digits from i on in an int. */
  method GatherBits(s: string, i: nat) returns (bits: int, j: nat)
    requires i < |s| && IsDecimal(s[i])
    ensures i < j <= |s| && ReadNumber(s[i..], 0).1 == s[j..] && bits == Wrapped(ReadNumber(s[i..], 0).0)
  {
    bits, j := 0, i;
    ghost var n: nat := 0;
    while j < |s| && IsDecimal(s[j])
      invariant i <= j <= |s| && (j == i ==> n == 0) && bits == Wrapped(n)
      invariant ReadNumber(s[j..], n) == ReadNumber(s[i..], 0)
    {
      assert s[j..][1..] == s[j + 1..];
      WrappedStep(n, DecimalValue(s[j]));
      bits := Wrapped(bits * 10 + DecimalValue(s[j]));
      n := n * 10 + DecimalValue(s[j]);
      j := j + 1;
    }
  }

  method GetPrefix(s: string, i: nat, k: nat, ghost octets: seq<byte>) returns (r: Option<int>)
    requires i <= |s| && |octets| == k
    ensures r == ReadPrefix(octets, s[i..])
  {
    var bits, j := -1, i;
    if i + 1 < |s| && s[i] == '/' && IsDecimal(s[i + 1]) && k > 0 {
      assert s[i..][1..] == s[i + 1..];
      bits, j := GatherBits(s, i + 1);
    }
    r := if j == |s| then PrefixFrom(bits, k) else None;
  }

  /** Reads an IPv4 address with an optional prefix length. */
  method PtonIPv4(src: string) returns (r: Option<(seq<byte>, int)>)
    ensures r == ReadIPv4(src)
  {
    var dst := new byte[4];
    var ok, k, i := GetOctets(src, dst);
    if !ok { return None; }
    ghost var octets := dst[..k];
    var bits := GetPrefix(src, i, k, octets);
    if bits.None? || k == 0 || CDiv(bits.value, 8) > k { return None; }
    var n := k;
    while n < 4
      invariant k <= n <= 4 && dst[..n] == octets + Zeros(n - k)
    {
      dst[n] := 0;
      n := n + 1;
    }
    assert dst[..] == dst[..n];
    r := Some((dst[..], bits.value));
  }

  // ---- printing

  function PrefixText(bits: nat): (s: string) {
    if bits == 32 then [] else "/" + Numeral(bits, 10)
  }

  /** Prints four octets, each while more than five characters are left: so exactly if that many are left
      before the last one and its dot. */
  method PrintOctets(src: seq<byte>, room: nat) returns (r: Option<string>)
    requires |src| == 4
    ensures r == if room - LeadLength(src) > 4 then Some(Dotted(src)) else None
    ensures r.Some? ==> |r.value| + 1 <= room
  {
    var b, text := 0, "";
    assert src[0..] == src;
    while b < 4
      invariant 0 <= b <= 4 && (b > 0 ==> |text| + 1 < room) && (b == 4 ==> room - LeadLength(src) > 4)
      invariant text + LeadingDots(src, b) == Dotted(src)
    {
      TailAtLeast(src, b);
      if room - |text| <= 5 { return None; }
      LeadingStep(src, b);
      var octet := (if b == 0 then "" else ".") + Numeral(src[b], 10);
      OctetLength(src[b]);
      Append(text, octet, LeadingDots(src, b + 1), LeadingDots(src, b));
      text, b := text + octet, b + 1;
    }
    assert text + [] == text;
    r := Some(text);
  }

  /** The room that printing takes: beyond what is printed, up to five characters must be left. */
  predicate HasRoom(src: seq<byte>, bits: nat, room: nat)
    requires |src| == 4
  {
    room - LeadLength(src) > 4 && (bits != 32 ==> room - |Dotted(src)| > 4)
  }

  /** Twenty characters are enough for every address. */
  lemma TwentyEnough(src: seq<byte>, bits: nat, room: nat)
    requires |src| == 4 && room >= 20
    ensures HasRoom(src, bits, room)
  {
    QuadLength(src);
  }

  /** Prints an address, and its prefix length unless that is 32, exactly if the prefix length is good and
      there is room. What is printed leaves room for the terminator. */
  method NtopIPv4(src: seq<byte>, bits: int, room: nat) returns (r: Option<string>)
    requires |src| == 4
    ensures r == if 0 <= bits <= 32 && HasRoom(src, bits, room) then Some(Dotted(src) + PrefixText(bits)) else None
    ensures r.Some? ==> |r.value| + 1 <= room
  {
    if bits < 0 || bits > 32 { return None; }
    r := PrintOctets(src, room);
    if r.None? { return; }
    var text := r.value;
    if bits != 32 {
      if room - |text| <= 4 { return None; }
      PrefixLength(bits);
      text := text + ("/" + Numeral(bits, 10));
    } else {
      assert text + PrefixText(bits) == text;
    }
    r := Some(text);
  }

  lemma PrefixLength(bits: nat)
    requires bits <= 32
    ensures |Numeral(bits, 10)| <= 2
  {
    if bits >= 10 { assert |Numeral(bits / 10, 10)| == 1; }
  }

  /** Octets from b on, each after a dot, but for the first. */
  ghost function LeadingDots(o: seq<byte>, b: nat): (s: string)
    requires b <= |o|
  {
    if b == |o| then [] else (if b == 0 then "" else ".") + Dotted(o[b..])
  }

  lemma LeadingStep(o: seq<byte>, b: nat)
    requires b < |o|
    ensures LeadingDots(o, b) == (if b == 0 then "" else ".") + Numeral(o[b], 10) + LeadingDots(o, b + 1)
  {
    assert o[b..][1..] == o[b + 1..];
    if b + 1 < |o| {
      Append(if b == 0 then "" else ".", Numeral(o[b], 10), LeadingDots(o, b + 1), Dotted(o[b..]));
    }
  }
}
