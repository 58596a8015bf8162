/** The order of network addresses (bitncmp, network_cmp_internal, address_ok). */
module NetOrder {
  import opened Basics
  import Radix

  function Pow2(k: nat): (p: int)
    ensures p >= 1
  {
    if k == 0 then 1 else 2 * Pow2(k - 1)
  }

  /** The k low bits of x, the highest first. */
  function Bits(x: int, k: nat): (s: seq<bool>)
    ensures |s| == k
    decreases k, x
  {
    if k == 0 then [] else [x >= Pow2(k - 1)] + Bits(if x >= Pow2(k - 1) then x - Pow2(k - 1) else x, k - 1)
  }

  /** The bits of a run of bytes, in network order. */
  function AllBits(d: seq<byte>): (s: seq<bool>)
    ensures |s| == 8 * |d|
  {
    if d == [] then [] else Bits(d[0], 8) + AllBits(d[1..])
  }

  /** The order of bit strings: by the first bit that differs, a proper prefix first. */
  function Lex(s: seq<bool>, t: seq<bool>): (c: int)
    ensures -1 <= c <= 1
  {
    if s == [] then if t == [] then 0 else -1
    else if t == [] then 1
    else if s[0] == t[0] then Lex(s[1..], t[1..])
    else if s[0] then 1 else -1
  }

  function Sign(x: int): (s: int) {
    if x < 0 then -1 else if x > 0 then 1 else 0
  }

  // ---- bit strings are totally ordered

  lemma {:induction false} LexZero(s: seq<bool>, t: seq<bool>)
    ensures Lex(s, t) == 0 <==> s == t
  {
    if s != [] && t != [] && s[0] == t[0] {
      LexZero(s[1..], t[1..]);
      assert s == [s[0]] + s[1..] && t == [t[0]] + t[1..];
    }
  }

  lemma {:induction false} LexAntisymmetric(s: seq<bool>, t: seq<bool>)
    ensures Lex(s, t) == -Lex(t, s)
  {
    if s != [] && t != [] && s[0] == t[0] { LexAntisymmetric(s[1..], t[1..]); }
  }

  lemma {:induction false} LexTransitive(s: seq<bool>, t: seq<bool>, u: seq<bool>)
    requires Lex(s, t) <= 0 && Lex(t, u) <= 0
    ensures Lex(s, u) <= 0 && (Lex(s, t) < 0 || Lex(t, u) < 0 ==> Lex(s, u) < 0)
  {
    if s != [] && t != [] && u != [] && s[0] == t[0] == u[0] { LexTransitive(s[1..], t[1..], u[1..]); }
  }

  /** A difference between the heads decides; equal heads leave the tails. */
  lemma {:induction false} LexAppend(s: seq<bool>, s': seq<bool>, t: seq<bool>, t': seq<bool>)
    requires |s| == |t|
    ensures Lex(s + s', t + t') == if Lex(s, t) != 0 then Lex(s, t) else Lex(s', t')
  {
    if s == [] {
      assert s + s' == s' && t + t' == t';
    } else {
      assert (s + s')[1..] == s[1..] + s' && (t + t')[1..] == t[1..] + t';
      LexAppend(s[1..], s', t[1..], t');
    }
  }

  /** Strings cut at m1 and m2: first the common length, then the lengths. */
  lemma LexPrefixes(s: seq<bool>, t: seq<bool>, m1: nat, m2: nat)
    requires m1 <= |s| && m2 <= |t|
    ensures var m := if m1 <= m2 then m1 else m2;
      Lex(s[..m1], t[..m2]) == if Lex(s[..m], t[..m]) != 0 then Lex(s[..m], t[..m]) else Sign(m1 - m2)
  {
    var m := if m1 <= m2 then m1 else m2;
    assert s[..m1] == s[..m] + s[m..m1] && t[..m2] == t[..m] + t[m..m2];
    LexAppend(s[..m], s[m..m1], t[..m], t[m..m2]);
  }

  // ---- bytes and their bits

  /** Numbers below 2^k are ordered as their bits. */
  lemma {:induction false} BitsOrder(x: int, y: int, k: nat)
    requires 0 <= x < Pow2(k) && 0 <= y < Pow2(k)
    ensures Lex(Bits(x, k), Bits(y, k)) == Sign(x - y)
  {
    if k > 0 {
      var h := Pow2(k - 1);
      BitsOrder(if x >= h then x - h else x, if y >= h then y - h else y, k - 1);
    }
  }

  lemma ByteOrder(x: byte, y: byte)
    ensures Lex(Bits(x, 8), Bits(y, 8)) == Sign(x - y)
  {
    assert Pow2(8) == 256;
    BitsOrder(x, y, 8);
  }

  /** Doubling shifts the bits up by one. */
  lemma {:induction false} BitsDouble(x: int, k: nat)
    requires 0 <= x < Pow2(k)
    ensures Bits(2 * x, k + 1) == Bits(x, k) + [false]
  {
    if k > 0 {
      var h := Pow2(k - 1);
      BitsDouble(if x >= h then x - h else x, k - 1);
    }
  }

  /** The bits of x: the high one, then those of x shifted up. */
  lemma BitsShift(x: int, k: nat, m: nat)
    requires 1 <= m <= k && 0 <= x < Pow2(k)
    ensures var h := Pow2(k - 1);
      Bits(x, k)[..m] == [x >= h] + Bits(if x >= h then 2 * (x - h) else 2 * x, k)[..m - 1]
  {
    var h := Pow2(k - 1);
    BitsDouble(if x >= h then x - h else x, k - 1);
  }

  lemma {:induction false} AllBitsAppend(d: seq<byte>, e: seq<byte>)
    ensures AllBits(d + e) == AllBits(d) + AllBits(e)
  {
    if d == [] {
      assert d + e == e;
    } else {
      assert (d + e)[1..] == d[1..] + e;
      AllBitsAppend(d[1..], e);
    }
  }

  lemma FirstBits(d: seq<byte>, k: nat)
    requires d != [] && k <= 8
    ensures AllBits(d)[..k] == Bits(d[0], 8)[..k]
  {
  }

  /** The first n bits: n / 8 whole bytes and the top of the next one. */
  lemma BitsPrefix(d: seq<byte>, n: nat)
    requires n <= 8 * |d|
    ensures AllBits(d)[..n] ==
      AllBits(d[..n / 8]) + if n % 8 == 0 then [] else Bits(d[n / 8], 8)[..n % 8]
  {
    var b, k := n / 8, n % 8;
    SplitBits(d, b);
    Take(AllBits(d[..b]), AllBits(d[b..]), n, k);
    if k != 0 { FirstBits(d[b..], k); }
  }

  lemma SplitBits(d: seq<byte>, b: nat)
    requires b <= |d|
    ensures AllBits(d) == AllBits(d[..b]) + AllBits(d[b..])
  {
    assert d == d[..b] + d[b..];
    AllBitsAppend(d[..b], d[b..]);
  }

  lemma Take(s: seq<bool>, t: seq<bool>, n: nat, k: nat)
    requires n == |s| + k && k <= |t|
    ensures (s + t)[..n] == s + t[..k]
  {
  }

  lemma {:induction false} AllBitsInjective(d: seq<byte>, e: seq<byte>)
    requires AllBits(d) == AllBits(e)
    ensures d == e
  {
    if d != [] && e != [] {
      assert Bits(d[0], 8) == AllBits(d)[..8] == AllBits(e)[..8] == Bits(e[0], 8);
      assert AllBits(d[1..]) == AllBits(d)[8..] == AllBits(e)[8..] == AllBits(e[1..]);
      AllBitsInjective(d[1..], e[1..]);
      LexZero(Bits(d[0], 8), Bits(e[0], 8));
      ByteOrder(d[0], e[0]);
      assert d == [d[0]] + d[1..] && e == [e[0]] + e[1..];
    }
  }

  // ---- comparison

  /** The C library's memcmp over the first n bytes. */
  method MemCmp(l: seq<byte>, r: seq<byte>, n: nat) returns (x: int)
    requires n <= |l| && n <= |r|
    ensures Sign(x) == Lex(AllBits(l[..n]), AllBits(r[..n]))
  {
    var i := 0;
    LexZero(AllBits(l[..0]), AllBits(r[..0]));
    while i < n
      invariant 0 <= i <= n
      invariant Lex(AllBits(l[..i]), AllBits(r[..i])) == 0
    {
      FirstBytes(l, r, i);
      if l[i] != r[i] {
        RestIgnored(l, r, i + 1, n);
        return l[i] as int - r[i] as int;
      }
      i := i + 1;
    }
    x := 0;
  }

  lemma FirstBytes(l: seq<byte>, r: seq<byte>, i: nat)
    requires i < |l| && i < |r| && Lex(AllBits(l[..i]), AllBits(r[..i])) == 0
    ensures Lex(AllBits(l[..i + 1]), AllBits(r[..i + 1])) == Sign(l[i] as int - r[i] as int)
  {
    assert l[..i + 1] == l[..i] + [l[i]] && r[..i + 1] == r[..i] + [r[i]];
    AllBitsAppend(l[..i], [l[i]]);
    AllBitsAppend(r[..i], [r[i]]);
    LexAppend(AllBits(l[..i]), Bits(l[i], 8), AllBits(r[..i]), Bits(r[i], 8));
    ByteOrder(l[i], r[i]);
    assert AllBits([l[i]]) == Bits(l[i], 8) && AllBits([r[i]]) == Bits(r[i], 8);
  }

  lemma RestIgnored(l: seq<byte>, r: seq<byte>, i: nat, n: nat)
    requires i <= n <= |l| && n <= |r| && Lex(AllBits(l[..i]), AllBits(r[..i])) != 0
    ensures Lex(AllBits(l[..n]), AllBits(r[..n])) == Lex(AllBits(l[..i]), AllBits(r[..i]))
  {
    assert l[..n] == l[..i] + l[i..n] && r[..n] == r[..i] + r[i..n];
    AllBitsAppend(l[..i], l[i..n]);
    AllBitsAppend(r[..i], r[i..n]);
    LexAppend(AllBits(l[..i]), AllBits(l[i..n]), AllBits(r[..i]), AllBits(r[i..n]));
  }

  lemma ByteShift(x: byte, x': byte, m: nat)
    requires 1 <= m <= 8 && x' == if x >= 128 then 2 * (x - 128) else 2 * x
    ensures Bits(x, 8)[..m] == [x >= 128] + Bits(x', 8)[..m - 1]
  {
    assert Pow2(7) == 128 && Pow2(8) == 256;
    BitsShift(x, 8, m);
  }

  lemma LexCons(p: bool, s: seq<bool>, q: bool, t: seq<bool>)
    ensures Lex([p] + s, [q] + t) == if p != q then if p then 1 else -1 else Lex(s, t)
  {
    assert ([p] + s)[1..] == s && ([q] + t)[1..] == t;
  }

  /** One turn of the bit loop: the high bits decide, or both bytes are shifted. */
  lemma BitStep(x: byte, y: byte, m: nat)
    requires 1 <= m <= 8
    ensures Lex(Bits(x, 8)[..m], Bits(y, 8)[..m]) ==
      if (x >= 128) != (y >= 128) then if x >= 128 then 1 else -1
      else Lex(Bits(Low(2 * x), 8)[..m - 1], Bits(Low(2 * y), 8)[..m - 1])
  {
    LowOfDouble(x);
    LowOfDouble(y);
    ByteShift(x, Low(2 * x), m);
    ByteShift(y, Low(2 * y), m);
    LexCons(x >= 128, Bits(Low(2 * x), 8)[..m - 1], y >= 128, Bits(Low(2 * y), 8)[..m - 1]);
  }

  /** x seen as an unsigned char. */
  function Low(x: nat): (b: byte)
  {
    x % 256
  }

  lemma LowOfDouble(x: byte)
    ensures Low(2 * x) == if x >= 128 then 2 * (x - 128) else 2 * x
  {
    Radix.DivModIs(2 * x, 256, if x >= 128 then 1 else 0, if x >= 128 then 2 * x - 256 else 2 * x);
  }

  lemma LowDouble(x: nat)
    ensures Low(2 * Low(x)) == Low(2 * x)
  {
    LowOfDouble(Low(x));
    Radix.DivModIs(2 * x, 256, 2 * (x / 256) + (if Low(x) >= 128 then 1 else 0), Low(2 * Low(x)));
  }

  /** Compares the top m bits of two bytes, shifting them left in wider registers. */
  method BitLoop(l: byte, r: byte, m: nat) returns (x: int)
    requires m < 8
    ensures x == Lex(Bits(l, 8)[..m], Bits(r, 8)[..m])
  {
    var lb: nat, rb: nat, b: nat := l, r, m;
    assert Low(lb) == l && Low(rb) == r;
    while b > 0
      invariant b <= 8
      invariant Lex(Bits(Low(lb), 8)[..b], Bits(Low(rb), 8)[..b]) == Lex(Bits(l, 8)[..m], Bits(r, 8)[..m])
    {
      BitStep(Low(lb), Low(rb), b);
      if (Low(lb) >= 128) != (Low(rb) >= 128) {
        return if Low(lb) >= 128 then 1 else -1;
      }
      LowDouble(lb);
      LowDouble(rb);
      lb, rb, b := 2 * lb, 2 * rb, b - 1;
    }
    x := 0;
  }

  /** Compares the first n bits of l and r as bit strings. */
  method BitNCmp(l: seq<byte>, r: seq<byte>, n: nat) returns (x: int)
    requires n <= 8 * |l| && n <= 8 * |r|
    ensures Sign(x) == Lex(AllBits(l)[..n], AllBits(r)[..n])
  {
    var b := n / 8;
    BitsPrefix(l, n);
    BitsPrefix(r, n);
    x := MemCmp(l, r, b);
    if n % 8 == 0 {
      assert AllBits(l)[..n] == AllBits(l[..b]) && AllBits(r)[..n] == AllBits(r[..b]);
      return;
    }
    LexAppend(AllBits(l[..b]), Bits(l[b], 8)[..n % 8], AllBits(r[..b]), Bits(r[b], 8)[..n % 8]);
    if x != 0 { return; }
    x := BitLoop(l[b], r[b], n % 8);
  }

  datatype Family = NoFamily | Inet | Inet6

  /** A cidr or inet value: sixteen bytes of storage, of which IPv4 uses the first four. */
  datatype Net = Net(family: Family, mask: byte, data: seq<byte>) {
    function Width(): (w: nat) {
      if family == Inet then 32 else 128
    }

    ghost predicate Legal() {
      |data| == 16 && mask <= Width()
    }

    /** The address bits the family uses. */
    ghost function Address(): (s: seq<bool>)
      requires Legal()
      ensures |s| == Width()
    {
      AllBits(data)[..Width()]
    }

    /** The network part: the address cut at the mask. */
    ghost function Network(): (s: seq<bool>)
      requires Legal()
      ensures |s| == mask
    {
      Address()[..mask]
    }
  }

  const AF_INET := 2

  /** The family numbers compared; a value without family ranks with IPv6. */
  function Rank(f: Family): (r: int) {
    if f == Inet then AF_INET else AF_INET + 1
  }

  /** The reference order: family, then network with a shorter prefix first, then address. */
  ghost function Order(a: Net, b: Net): (c: int)
    requires a.Legal() && b.Legal()
  {
    if Rank(a.family) != Rank(b.family) then Sign(Rank(a.family) - Rank(b.family))
    else if Lex(a.Network(), b.Network()) != 0 then Lex(a.Network(), b.Network())
    else Lex(a.Address(), b.Address())
  }

  /** a and b are of one family, so that their bits are compared. */
  predicate Comparable(a: Net, b: Net) {
    a.family == b.family || Rank(a.family) != Rank(b.family)
  }

  method NetworkCmp(a: Net, b: Net) returns (x: int)
    requires a.Legal() && b.Legal()
    ensures Comparable(a, b) ==> Sign(x) == Order(a, b)
    ensures !Comparable(a, b) ==> x == 0
  {
    if a.family != b.family { return Rank(a.family) - Rank(b.family); }
    var m := if a.mask <= b.mask then a.mask else b.mask;
    NetworkOrder(a, b, m);
    x := BitNCmp(a.data, b.data, m);
    if x != 0 { return; }
    if a.mask != b.mask { return a.mask - b.mask; }
    x := BitNCmp(a.data, b.data, a.Width());
  }

  lemma NetworkOrder(a: Net, b: Net, m: nat)
    requires a.Legal() && b.Legal() && a.family == b.family && m == if a.mask <= b.mask then a.mask else b.mask
    ensures Lex(a.Network(), b.Network()) ==
      var c := Lex(AllBits(a.data)[..m], AllBits(b.data)[..m]);
      if c != 0 then c else Sign(a.mask - b.mask)
  {
    LexPrefixes(AllBits(a.data), AllBits(b.data), a.mask, b.mask);
    assert a.Network() == AllBits(a.data)[..a.mask] && b.Network() == AllBits(b.data)[..b.mask];
  }

  // ---- the order of addresses is total

  lemma SameAddress(a: Net, b: Net)
    requires a.Legal() && b.Legal() && a.family == b.family
    ensures a.Address() == b.Address() <==> a.data[..a.Width() / 8] == b.data[..b.Width() / 8]
  {
    var w := a.Width();
    BitsPrefix(a.data, w);
    BitsPrefix(b.data, w);
    assert a.Address() == AllBits(a.data[..w / 8]) && b.Address() == AllBits(b.data[..w / 8]);
    if a.Address() == b.Address() { AllBitsInjective(a.data[..w / 8], b.data[..w / 8]); }
  }

  /** The comparison says "equal" exactly for the same family, mask and address bits. */
  lemma OrderZero(a: Net, b: Net)
    requires a.Legal() && b.Legal() && Comparable(a, b)
    ensures Order(a, b) == 0 <==>
      a.family == b.family && a.mask == b.mask && a.data[..a.Width() / 8] == b.data[..b.Width() / 8]
  {
    if Rank(a.family) == Rank(b.family) {
      LexZero(a.Network(), b.Network());
      LexZero(a.Address(), b.Address());
      SameAddress(a, b);
    }
  }

  lemma OrderAntisymmetric(a: Net, b: Net)
    requires a.Legal() && b.Legal()
    ensures Order(a, b) == -Order(b, a)
  {
    LexAntisymmetric(a.Network(), b.Network());
    LexAntisymmetric(a.Address(), b.Address());
  }

  lemma OrderTransitive(a: Net, b: Net, c: Net)
    requires a.Legal() && b.Legal() && c.Legal()
    requires Order(a, b) <= 0 && Order(b, c) <= 0
    ensures Order(a, c) <= 0 && (Order(a, b) < 0 || Order(b, c) < 0 ==> Order(a, c) < 0)
  {
    if Rank(a.family) == Rank(b.family) == Rank(c.family) {
      LexTransitive(a.Network(), b.Network(), c.Network());
      if Lex(a.Network(), b.Network()) == 0 == Lex(b.Network(), c.Network()) {
        LexTransitive(a.Address(), b.Address(), c.Address());
      }
    }
  }

  /** A default value, which has no family, compares equal to every IPv6 value, whatever its bits. */
  method FamilyIgnored(a: Net, b: Net) returns (x: int)
    requires a.Legal() && b.Legal() && a.family == NoFamily && b.family == Inet6
    ensures x == 0
  {
    x := NetworkCmp(a, b);
  }

  // ---- address_ok

  /** The top bit does not change the remainder by a lower power. */
  lemma TopBitModulo(x: int, y: int, k: nat, n: nat)
    requires 1 <= n <= k && y == (if x >= Pow2(k - 1) then x - Pow2(k - 1) else x)
    ensures x % Pow2(k - n) == y % Pow2(k - n)
  {
    PowDivides(k - 1, k - n);
    if x >= Pow2(k - 1) { ModShift(y, Pow2(k - n), Pow2(n - 1)); }
  }

  /** Dropping the top n bits leaves the remainder by 2^(k-n). */
  lemma {:induction false} LowBits(x: int, k: nat, n: nat)
    requires 0 <= x < Pow2(k) && n <= k
    ensures Bits(x, k)[n..] == Bits(x % Pow2(k - n), k - n)
  {
    if n == 0 {
      assert Bits(x, k)[0..] == Bits(x, k);
      SmallMod(x, Pow2(k));
    } else {
      var h := Pow2(k - 1);
      var y := if x >= h then x - h else x;
      LowBits(y, k - 1, n - 1);
      TopBitModulo(x, y, k, n);
      assert Bits(x, k) == [x >= h] + Bits(y, k - 1);
      assert Bits(x, k)[n..] == Bits(y, k - 1)[n - 1..];
    }
  }

  lemma SmallMod(x: int, m: int)
    requires 0 <= x < m
    ensures x % m == x
  {
  }

  lemma ModShift(x: int, m: int, q: int)
    requires m > 0
    ensures (x + q * m) % m == x % m
  {
    var d, r := x / m, x % m;
    assert (d + q) * m == d * m + q * m;
    Radix.DivModIs(x + q * m, m, d + q, r);
  }

  lemma {:induction false} PowDivides(k: nat, j: nat)
    requires j <= k
    ensures Pow2(k) == Pow2(k - j) * Pow2(j)
  {
    if j < k { PowDivides(k - 1, j); }
  }

  ghost predicate NoneSet(s: seq<bool>) {
    forall i :: 0 <= i < |s| ==> !s[i]
  }

  lemma {:induction false} BitsNoneSet(x: int, k: nat)
    requires 0 <= x < Pow2(k)
    ensures NoneSet(Bits(x, k)) <==> x == 0
  {
    if k > 0 {
      var h := Pow2(k - 1);
      var y := if x >= h then x - h else x;
      BitsNoneSet(y, k - 1);
      NoneSetAppend([x >= h], Bits(y, k - 1));
      assert NoneSet([x >= h]) ==> ![x >= h][0];
    }
  }

  lemma NoneSetAppend(s: seq<bool>, t: seq<bool>)
    ensures NoneSet(s + t) <==> NoneSet(s) && NoneSet(t)
  {
    if NoneSet(s + t) {
      forall i | 0 <= i < |s| ensures !s[i] { assert s[i] == (s + t)[i]; }
      forall i | 0 <= i < |t| ensures !t[i] { assert t[i] == (s + t)[|s| + i]; }
    }
  }

  lemma ByteTail(x: byte, k: nat)
    requires k < 8
    ensures NoneSet(Bits(x, 8)[k..]) <==> x % Pow2(8 - k) == 0
  {
    assert Pow2(8) == 256;
    LowBits(x, 8, k);
    BitsNoneSet(x % Pow2(8 - k), 8 - k);
  }

  /** The bits of d from n on: the low bits of byte n / 8, and the bytes after it. */
  lemma HostBits(d: seq<byte>, n: nat)
    requires n < 8 * |d|
    ensures NoneSet(AllBits(d)[n..]) <==> d[n / 8] % Pow2(8 - n % 8) == 0 && NoneSet(AllBits(d[n / 8 + 1..]))
  {
    HostByte(d, n, n / 8, n % 8);
  }

  lemma HostByte(d: seq<byte>, n: nat, b: nat, k: nat)
    requires n == 8 * b + k && k < 8 && b < |d|
    ensures NoneSet(AllBits(d)[n..]) <==> d[b] % Pow2(8 - k) == 0 && NoneSet(AllBits(d[b + 1..]))
  {
    var s, rest := Bits(d[b], 8), AllBits(d[b + 1..]);
    SplitBits(d, b);
    NextByte(d, b);
    Drop(AllBits(d[..b]), s, rest, n, k);
    NoneSetAppend(s[k..], rest);
    ByteTail(d[b], k);
  }

  lemma NextByte(d: seq<byte>, b: nat)
    requires b < |d|
    ensures AllBits(d[b..]) == Bits(d[b], 8) + AllBits(d[b + 1..])
  {
    assert d[b..][1..] == d[b + 1..];
  }

  lemma Drop(r: seq<bool>, s: seq<bool>, t: seq<bool>, n: nat, k: nat)
    requires n == |r| + k && k <= |s|
    ensures (r + (s + t))[n..] == s[k..] + t
  {
  }

  /** Accepts an address exactly when no bit after the mask is set. The byte mask 0xff >> n keeps the
      remainder by 2^(8-n). */
  method AddressOk(a: seq<byte>, bits: nat) returns (ok: bool)
    requires (|a| == 4 || |a| == 16) && bits <= 8 * |a|
    ensures ok <==> NoneSet(AllBits(a)[bits..])
  {
    if bits == 8 * |a| { return true; }
    HostBits(a, bits);
    var i, modulus := bits / 8, Pow2(8 - bits % 8);
    assert Pow2(8) == 256;
    while i < |a|
      invariant 0 <= i <= |a| && modulus >= 1
      invariant NoneSet(AllBits(a)[bits..]) <==> (i < |a| ==> a[i] % modulus == 0 && NoneSet(AllBits(a[i + 1..])))
    {
      if a[i] % modulus != 0 { return false; }
      modulus := Pow2(8);
      if i + 1 < |a| { HostBits(a[i + 1..], 0); }
      i := i + 1;
    }
    ok := true;
  }
}
