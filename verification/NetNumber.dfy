/** The order of addresses and the check for host bits, told in numbers. */
module NetNumber {
  import opened Basics
  import opened NetOrder
  import Radix

  /** Bytes as one number, the highest first. */
  ghost function Number(d: seq<byte>): (n: nat) {
    if d == [] then 0 else Number(d[..|d| - 1]) * 256 + d[|d| - 1]
  }

  /** The bits of a number are those of its high part and those of its low part. */
  lemma {:induction false} BitsJoin(q: int, i: nat, r: int, j: nat)
    requires 0 <= q < Pow2(i) && 0 <= r < Pow2(j)
    ensures Bits(q * Pow2(j) + r, i + j) == Bits(q, i) + Bits(r, j)
    decreases i
  {
    if i > 0 {
      var h, p := Pow2(i - 1), Pow2(j);
      var q' := if q >= h then q - h else q;
      PowDivides(i - 1 + j, j);
      HighPart(q, h, r, p);
      BitsJoin(q', i - 1, r, j);
    }
  }

  lemma HighPart(q: int, h: int, r: int, p: int)
    requires 0 <= r < p && h >= 1
    ensures q * p + r >= h * p <==> q >= h
    ensures q * p + r - h * p == (q - h) * p + r
  {
    if q >= h { Ordered(h, q, p); } else { Ordered(q + 1, h, p); }
  }

  lemma Ordered(x: int, y: int, p: int)
    requires x <= y && p >= 0
    ensures x * p <= y * p
  {
  }

  lemma {:induction false} NumberBits(d: seq<byte>)
    ensures Number(d) < Pow2(8 * |d|) && AllBits(d) == Bits(Number(d), 8 * |d|)
    decreases |d|
  {
    if d != [] {
      var k := |d| - 1;
      NumberBits(d[..k]);
      assert d == d[..k] + [d[k]];
      AllBitsAppend(d[..k], [d[k]]);
      assert AllBits([d[k]]) == Bits(d[k], 8);
      ByteJoin(Number(d[..k]), 8 * k, d[k]);
    }
  }

  lemma ByteJoin(q: int, i: nat, r: byte)
    requires 0 <= q < Pow2(i)
    ensures q * 256 + r < Pow2(i + 8) && Bits(q * 256 + r, i + 8) == Bits(q, i) + Bits(r, 8)
  {
    assert Pow2(8) == 256;
    BitsJoin(q, i, r, 8);
    PowDivides(i + 8, 8);
    Below(q, Pow2(i), r);
  }

  lemma Below(q: int, p: int, r: int)
    requires 0 <= q < p && 0 <= r < 256
    ensures q * 256 + r < p * 256
  {
  }

  lemma Divided(x: int, p: int) returns (q: int, r: int)
    requires p >= 1
    ensures q == x / p && r == x % p && x == q * p + r && 0 <= r < p
  {
    q, r := x / p, x % p;
  }

  /** The first m bits of a number are those of its high part. */
  lemma TopBits(x: int, m: nat, j: nat, p: int)
    requires p == Pow2(j) && 0 <= x < Pow2(m + j)
    ensures 0 <= x / p < Pow2(m) && Bits(x, m + j)[..m] == Bits(x / p, m)
  {
    var q, r := Divided(x, p);
    PowDivides(m + j, j);
    QuotientBelow(q, r, p, Pow2(m));
    BitsJoin(q, m, r, j);
    Front(Bits(q, m), Bits(r, j), m);
  }

  lemma Front(s: seq<bool>, t: seq<bool>, m: nat)
    requires |s| == m
    ensures (s + t)[..m] == s
  {
  }

  /** The first m bits of bytes are those of their number without its low bits. */
  lemma PrefixNumber(d: seq<byte>, m: nat, p: int)
    requires m <= 8 * |d| && p == Pow2(8 * |d| - m)
    ensures 0 <= Number(d) / p < Pow2(m) && AllBits(d)[..m] == Bits(Number(d) / p, m)
  {
    NumberBits(d);
    TopBits(Number(d), m, 8 * |d| - m, p);
  }

  lemma QuotientBelow(q: int, r: int, p: int, n: int)
    requires p >= 1 && 0 <= r < p && 0 <= q * p + r < n * p
    ensures 0 <= q < n
  {
    if q >= n { Ordered(n, q, p); }
    if q < 0 { Ordered(q, -1, p); }
  }

  /** Bit strings of one length are ordered as numbers. */
  lemma PrefixOrder(d: seq<byte>, e: seq<byte>, m: nat, p: int)
    requires |d| == |e| && m <= 8 * |d| && p == Pow2(8 * |d| - m)
    ensures Lex(AllBits(d)[..m], AllBits(e)[..m]) == Sign(Number(d) / p - Number(e) / p)
  {
    PrefixNumber(d, m, p);
    PrefixNumber(e, m, p);
    BitsOrder(Number(d) / p, Number(e) / p, m);
  }

  /** The address as a number. */
  ghost function AddressNumber(a: Net): (n: nat)
    requires a.Legal()
  {
    Number(a.data[..a.Width() / 8])
  }

  lemma DataPrefix(a: Net, m: nat)
    requires a.Legal() && m <= a.Width()
    ensures AllBits(a.data)[..m] == AllBits(a.data[..a.Width() / 8])[..m]
  {
    SplitBits(a.data, a.Width() / 8);
  }

  lemma AddressPrefix(a: Net, b: Net, m: nat, p: int)
    requires a.Legal() && b.Legal() && a.family == b.family && m <= a.Width() && p == Pow2(a.Width() - m)
    ensures Lex(AllBits(a.data)[..m], AllBits(b.data)[..m]) == Sign(AddressNumber(a) / p - AddressNumber(b) / p)
  {
    var k := a.Width() / 8;
    DataPrefix(a, m);
    DataPrefix(b, m);
    PrefixOrder(a.data[..k], b.data[..k], m, p);
  }

  /** Two values of one family are ordered by the bits that both masks keep, as numbers; then the shorter prefix comes
      first; then the lower address. */
  lemma OrderIs(a: Net, b: Net, p: int)
    requires a.Legal() && b.Legal() && a.family == b.family && p == Pow2(a.Width() - Min(a.mask, b.mask))
    ensures var x, y := AddressNumber(a) / p, AddressNumber(b) / p;
      Order(a, b) ==
        if x < y then -1 else if x > y then 1
        else if a.mask < b.mask then -1 else if a.mask > b.mask then 1
        else if AddressNumber(a) < AddressNumber(b) then -1 else if AddressNumber(a) > AddressNumber(b) then 1 else 0
  {
    var m := if a.mask <= b.mask then a.mask else b.mask;
    NetworkOrder(a, b, m);
    AddressPrefix(a, b, m, p);
    assert Pow2(0) == 1;
    AddressPrefix(a, b, a.Width(), 1);
  }

  /** IPv4 comes before IPv6, and before a value without family. */
  lemma FamilyOrder(a: Net, b: Net)
    requires a.Legal() && b.Legal() && a.family == Inet && b.family != Inet
    ensures Order(a, b) == -1 && Order(b, a) == 1 && Comparable(a, b)
  {
  }

  /** No bit after the mask is set exactly if the address is a multiple of two to the power of the bits left. */
  lemma HostNumber(a: seq<byte>, bits: nat)
    requires bits <= 8 * |a|
    ensures NoneSet(AllBits(a)[bits..]) <==> Number(a) % Pow2(8 * |a| - bits) == 0
  {
    var k := 8 * |a|;
    NumberBits(a);
    LowBits(Number(a), k, bits);
    BitsNoneSet(Number(a) % Pow2(k - bits), k - bits);
  }
}
