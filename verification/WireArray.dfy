/** Arrays on the wire (new_parameter_gen, pgval_to_array). */
module WireArray {
  import opened Basics
  import opened Numerics
  import opened Wire

  /** The size and the lower bound of each dimension. */
  ghost function DimBytes(dims: seq<int>, lbounds: seq<int>): (b: seq<byte>)
    requires |dims| == |lbounds|
    ensures |b| == 8 * |dims|
  {
    if dims == [] then []
    else
      var k := |dims| - 1;
      DimBytes(dims[..k], lbounds[..k]) + (IntBytes(dims[k], 4) + IntBytes(lbounds[k], 4))
  }

  /** Each element with its length before it. */
  ghost function ElementBytes(elems: seq<seq<byte>>): (b: seq<byte>) {
    if elems == [] then []
    else
      var k := |elems| - 1;
      ElementBytes(elems[..k]) + (IntBytes(|elems[k]|, 4) + elems[k])
  }

  /** An array on the wire, of elements that are given by their bytes. */
  datatype Image = Image(dims: seq<int>, lbounds: seq<int>, nulls: int, oid: int, elems: seq<seq<byte>>) {
    ghost function Header(): (b: seq<byte>)
      ensures |b| == 12
    {
      IntBytes(|dims|, 4) + IntBytes(nulls, 4) + IntBytes(oid, 4)
    }

    ghost function Bytes(): (b: seq<byte>)
      requires |dims| == |lbounds|
    {
      Header() + DimBytes(dims, lbounds) + ElementBytes(elems)
    }

    /** Sizes and lengths fit their four bytes, and there are as many elements as the dimensions say. */
    ghost predicate Legal() {
      && |dims| == |lbounds| && Fits(|dims|, 4) && Fits(oid, 4) && |elems| == Count(dims)
      && (forall i :: 0 <= i < |dims| ==> Fits(dims[i], 4))
      && (forall i :: 0 <= i < |elems| ==> Fits(|elems[i]|, 4))
    }
  }

  function Product(dims: seq<int>): (p: int) {
    if dims == [] then 1 else Product(dims[..|dims| - 1]) * dims[|dims| - 1]
  }

  /** The number of elements; an array without dimensions has none. */
  function Count(dims: seq<int>): (n: int) {
    if dims == [] then 0 else Product(dims)
  }

  // ---- encoding

  ghost function Payloads<T>(elems: seq<T>, enc: T -> seq<byte>): (p: seq<seq<byte>>)
    ensures |p| == |elems|
  {
    seq(|elems|, i requires 0 <= i < |elems| => enc(elems[i]))
  }

  ghost function Ones(n: nat): (s: seq<int>)
    ensures |s| == n
  {
    seq(n, i => 1)
  }

  /** What the encoder sends: lower bounds of one and no nulls. */
  ghost function Sent<T>(dims: seq<int>, elems: seq<T>, oid: int, enc: T -> seq<byte>): (r: Image) {
    Image(dims, Ones(|dims|), 0, oid, Payloads(elems, enc))
  }

  /** What is sent starts with the number of dimensions, a zero for no nulls, and the type of the elements. */
  lemma HeaderSent<T>(dims: seq<int>, elems: seq<T>, oid: int, enc: T -> seq<byte>, b: seq<byte>)
    requires b == Sent(dims, elems, oid, enc).Bytes()
    ensures |b| >= 12 && b[0..4] == IntBytes(|dims|, 4) && b[4..8] == [0, 0, 0, 0] && b[8..12] == IntBytes(oid, 4)
  {
    var h := Sent(dims, elems, oid, enc).Header();
    FourBytes(0);
    assert b[..12] == h;
    assert h[0..4] == IntBytes(|dims|, 4) && h[4..8] == IntBytes(0, 4) && h[8..12] == IntBytes(oid, 4);
  }

  lemma DimsSent<T>(dims: seq<int>, elems: seq<T>, oid: int, enc: T -> seq<byte>, b: seq<byte>, ones: seq<int>)
    requires b == Sent(dims, elems, oid, enc).Bytes() && ones == Ones(|dims|)
    ensures At(b, 12, DimBytes(dims, ones)) && forall k :: 0 <= k < |dims| ==> ones[k] == 1
  {
    var r := Sent(dims, elems, oid, enc);
    ThreeParts(b, r.Header(), DimBytes(dims, r.lbounds), ElementBytes(r.elems));
  }

  lemma OneAt(b: seq<byte>, p: nat)
    requires At(b, p, IntBytes(1, 4))
    ensures At(b, p, [0, 0, 0, 1])
  {
    FourBytes(1);
  }

  /** Then comes the size of each dimension with its lower bound, which is one. */
  lemma DimSent<T>(dims: seq<int>, elems: seq<T>, oid: int, enc: T -> seq<byte>, b: seq<byte>, k: nat, p: nat)
    requires b == Sent(dims, elems, oid, enc).Bytes() && k < |dims| && p == 12 + 8 * k
    ensures At(b, p, IntBytes(dims[k], 4)) && At(b, p + 4, [0, 0, 0, 1])
  {
    var ones := Ones(|dims|);
    DimsSent(dims, elems, oid, enc, b, ones);
    DimPlace(b, 12, dims, ones, k, p);
    OneAt(b, p + 4);
  }

  /** Then comes each element behind its length. */
  lemma ElementSent<T>(dims: seq<int>, elems: seq<T>, oid: int, enc: T -> seq<byte>, b: seq<byte>, i: nat)
    requires b == Sent(dims, elems, oid, enc).Bytes() && i < |elems|
    ensures var p := Payloads(elems, enc);
      At(b, 12 + 8 * |dims| + |ElementBytes(p[..i])|, IntBytes(|enc(elems[i])|, 4) + enc(elems[i]))
  {
    var r := Sent(dims, elems, oid, enc);
    ThreeParts(b, r.Header(), DimBytes(dims, r.lbounds), ElementBytes(r.elems));
    ElementAt(b, 12 + 8 * |dims|, r.elems, i);
  }

  /** How many elements an array of one or two dimensions has. */
  lemma CountIs(m: int, n: int)
    ensures Count([]) == 0 && Count([n]) == n && Count([m, n]) == m * n
  {
    assert [n][..0] == [] && [m, n][..1] == [m] && [m][..0] == [];
    assert Product([n]) == n && Product([m]) == m;
  }

  method EncodeDims(dims: seq<int>) returns (b: seq<byte>)
    ensures b == DimBytes(dims, Ones(|dims|))
  {
    b := [];
    ghost var ones := Ones(|dims|);
    var i := 0;
    while i < |dims|
      invariant 0 <= i <= |dims| && b == DimBytes(dims[..i], ones[..i])
    {
      DimsGrow(dims, ones, i);
      b := b + IntBytes(dims[i], 4);
      b := b + IntBytes(1, 4);
      i := i + 1;
    }
    assert dims[..i] == dims && ones[..i] == ones;
  }

  lemma DimsGrow(dims: seq<int>, lbounds: seq<int>, i: nat)
    requires i < |dims| == |lbounds|
    ensures DimBytes(dims[..i + 1], lbounds[..i + 1]) ==
      DimBytes(dims[..i], lbounds[..i]) + IntBytes(dims[i], 4) + IntBytes(lbounds[i], 4)
  {
    assert dims[..i + 1][..i] == dims[..i] && lbounds[..i + 1][..i] == lbounds[..i];
    Regroup(DimBytes(dims[..i], lbounds[..i]), IntBytes(dims[i], 4), IntBytes(lbounds[i], 4));
  }

  lemma ElementsGrow(elems: seq<seq<byte>>, i: nat)
    requires i < |elems|
    ensures ElementBytes(elems[..i + 1]) == ElementBytes(elems[..i]) + IntBytes(|elems[i]|, 4) + elems[i]
    ensures ElementBytes(elems[..i + 1]) == ElementBytes(elems[..i]) + (IntBytes(|elems[i]|, 4) + elems[i])
  {
    assert elems[..i + 1][..i] == elems[..i];
    Regroup(ElementBytes(elems[..i]), IntBytes(|elems[i]|, 4), elems[i]);
  }

  method EncodeElements<T>(elems: seq<T>, enc: T -> seq<byte>) returns (b: seq<byte>)
    ensures b == ElementBytes(Payloads(elems, enc))
  {
    b := [];
    ghost var p := Payloads(elems, enc);
    var i := 0;
    while i < |elems|
      invariant 0 <= i <= |elems| && b == ElementBytes(p[..i])
    {
      var val := enc(elems[i]);
      ElementsGrow(p, i);
      b := b + IntBytes(|val|, 4);
      b := b + val;
      i := i + 1;
    }
    assert p[..i] == p;
  }

  /** The parameter of an array. */
  method EncodeArray<T>(dims: seq<int>, elems: seq<T>, oid: int, enc: T -> seq<byte>) returns (b: seq<byte>)
    ensures b == Sent(dims, elems, oid, enc).Bytes()
  {
    b := IntBytes(|dims|, 4) + IntBytes(0, 4) + IntBytes(oid, 4);
    var d := EncodeDims(dims);
    var e := EncodeElements(elems, enc);
    b := b + d + e;
  }

  // ---- decoding

  lemma {:induction false} DimPlace(b: seq<byte>, pos: nat, dims: seq<int>, lbounds: seq<int>, i: nat, p: nat)
    requires i < |dims| == |lbounds| && At(b, pos, DimBytes(dims, lbounds)) && p == pos + 8 * i
    ensures At(b, p, IntBytes(dims[i], 4)) && At(b, p + 4, IntBytes(lbounds[i], 4))
    decreases |dims|
  {
    var k := |dims| - 1;
    AtParts(b, pos, DimBytes(dims[..k], lbounds[..k]), IntBytes(dims[k], 4) + IntBytes(lbounds[k], 4));
    if i == k {
      AtParts(b, p, IntBytes(dims[k], 4), IntBytes(lbounds[k], 4));
    } else {
      DimPlace(b, pos, dims[..k], lbounds[..k], i, p);
    }
  }

  lemma DimAt(b: seq<byte>, pos: nat, dims: seq<int>, lbounds: seq<int>, i: nat, p: nat)
    requires i < |dims| == |lbounds| && At(b, pos, DimBytes(dims, lbounds)) && Fits(dims[i], 4) && p == pos + 8 * i
    ensures p + 8 <= |b| && GetInt(b, p, 4) == dims[i]
  {
    DimPlace(b, pos, dims, lbounds, i, p);
    IntAt(b, p, dims[i], 4);
  }

  lemma {:induction false} ElementAt(b: seq<byte>, pos: nat, elems: seq<seq<byte>>, i: nat)
    requires i < |elems| && At(b, pos, ElementBytes(elems))
    ensures At(b, pos + |ElementBytes(elems[..i])|, IntBytes(|elems[i]|, 4) + elems[i])
    decreases |elems|
  {
    var k := |elems| - 1;
    AtParts(b, pos, ElementBytes(elems[..k]), IntBytes(|elems[k]|, 4) + elems[k]);
    if i < k {
      ElementAt(b, pos, elems[..k], i);
      assert elems[..k][..i] == elems[..i];
    }
  }

  method DecodeDims(b: seq<byte>, pos: nat, n: nat, ghost dims: seq<int>, ghost lbounds: seq<int>)
    returns (sizes: seq<int>, count: int)
    requires n == |dims| == |lbounds| && At(b, pos, DimBytes(dims, lbounds))
    requires forall i :: 0 <= i < |dims| ==> Fits(dims[i], 4)
    ensures sizes == dims && count == Count(dims)
  {
    sizes, count := [], if n > 0 then 1 else 0;
    var i := 0;
    while i < n
      invariant 0 <= i <= n && sizes == dims[..i] && (n > 0 ==> count == Product(dims[..i])) && (n == 0 ==> count == 0)
    {
      DimAt(b, pos, dims, lbounds, i, pos + 8 * i);
      var size := GetInt(b, pos + 8 * i, 4);
      assert dims[..i + 1][..i] == dims[..i];
      count, sizes := count * size, sizes + [size];
      i := i + 1;
    }
    assert dims[..i] == dims;
  }

  method DecodeElement<T>(b: seq<byte>, pos: nat, dec: seq<byte> -> T, ghost elem: seq<byte>) returns (value: T, end: nat)
    requires At(b, pos, IntBytes(|elem|, 4) + elem) && Fits(|elem|, 4)
    ensures value == dec(elem) && end == pos + 4 + |elem|
  {
    AtParts(b, pos, IntBytes(|elem|, 4), elem);
    IntAt(b, pos, |elem|, 4);
    var len := GetInt(b, pos, 4);
    value, end := dec(b[pos + 4..pos + 4 + len]), pos + 4 + len;
  }

  method DecodeElements<T>(b: seq<byte>, pos: nat, n: nat, dec: seq<byte> -> T, ghost elems: seq<seq<byte>>)
    returns (values: seq<T>, end: nat)
    requires n == |elems| && At(b, pos, ElementBytes(elems)) && forall i :: 0 <= i < n ==> Fits(|elems[i]|, 4)
    ensures |values| == n && (forall i :: 0 <= i < n ==> values[i] == dec(elems[i]))
    ensures end == pos + |ElementBytes(elems)|
  {
    values, end := [], pos;
    var i := 0;
    while i < n
      invariant 0 <= i <= n && end == pos + |ElementBytes(elems[..i])|
      invariant |values| == i && forall j :: 0 <= j < i ==> values[j] == dec(elems[j])
    {
      ElementAt(b, pos, elems, i);
      ElementsGrow(elems, i);
      var value;
      value, end := DecodeElement(b, end, dec, elems[i]);
      values, i := values + [value], i + 1;
    }
    assert elems[..i] == elems;
  }

  /** The three integers at the start. */
  lemma HeaderAt(b: seq<byte>, r: Image)
    requires r.Legal() && b == r.Bytes()
    ensures |b| >= 12 && GetInt(b, 0, 4) == |r.dims| && GetInt(b, 8, 4) == r.oid
    ensures At(b, 12, DimBytes(r.dims, r.lbounds)) && At(b, 12 + 8 * |r.dims|, ElementBytes(r.elems))
    ensures |b| == 12 + 8 * |r.dims| + |ElementBytes(r.elems)|
  {
    ThreeParts(b, r.Header(), DimBytes(r.dims, r.lbounds), ElementBytes(r.elems));
    assert At(b, 0, r.Header());
    AtParts(b, 0, IntBytes(|r.dims|, 4) + IntBytes(r.nulls, 4), IntBytes(r.oid, 4));
    AtParts(b, 0, IntBytes(|r.dims|, 4), IntBytes(r.nulls, 4));
    IntAt(b, 0, |r.dims|, 4);
    IntAt(b, 8, r.oid, 4);
  }

  /** Reads an array: its sizes, and its elements in order; end is the place after the last one. */
  method DecodeArray<T>(b: seq<byte>, dec: seq<byte> -> T, ghost r: Image) returns (sizes: seq<int>, values: seq<T>, end: nat)
    requires r.Legal() && b == r.Bytes()
    ensures sizes == r.dims && |values| == |r.elems| && end == |b|
    ensures forall i :: 0 <= i < |values| ==> values[i] == dec(r.elems[i])
  {
    HeaderAt(b, r);
    var n := GetInt(b, 0, 4);
    var count;
    sizes, count := DecodeDims(b, 12, n, r.dims, r.lbounds);
    values, end := DecodeElements(b, 12 + 8 * n, count, dec, r.elems);
  }

  /** With an element codec that round-trips, so does the array. */
  method ThroughWire<T>(dims: seq<int>, elems: seq<T>, oid: int, enc: T -> seq<byte>, dec: seq<byte> -> T)
    returns (sizes: seq<int>, values: seq<T>, size: nat, end: nat)
    requires |elems| == Count(dims) && Fits(|dims|, 4) && Fits(oid, 4)
    requires forall i :: 0 <= i < |dims| ==> Fits(dims[i], 4)
    requires forall i :: 0 <= i < |elems| ==> Fits(|enc(elems[i])|, 4) && dec(enc(elems[i])) == elems[i]
    ensures sizes == dims && values == elems && end == size
  {
    var b := EncodeArray(dims, elems, oid, enc);
    ghost var r := Sent(dims, elems, oid, enc);
    sizes, values, end := DecodeArray(b, dec, r);
    size := |b|;
  }

  // ---- arrays of integers and of numerics

  /** Arrays of int4 (width 4) and int8 (width 8) keep their sizes and elements. */
  method IntsThroughWire(dims: seq<int>, elems: seq<int>, oid: int, width: nat)
    returns (sizes: seq<int>, values: seq<int>, size: nat, end: nat)
    requires width == 4 || width == 8
    requires |elems| == Count(dims) && Fits(|dims|, 4) && Fits(oid, 4)
    requires forall i :: 0 <= i < |dims| ==> Fits(dims[i], 4)
    requires forall i :: 0 <= i < |elems| ==> Fits(elems[i], width)
    ensures sizes == dims && values == elems && end == size
  {
    var enc, dec := (x: int) => IntBytes(x, width), (b: seq<byte>) => Signed(b);
    forall i | 0 <= i < |elems| ensures dec(enc(elems[i])) == elems[i] {
      IntRoundTrip(elems[i], width);
    }
    sizes, values, size, end := ThroughWire(dims, elems, oid, enc, dec);
  }

  /** The numeric that bytes hold, as the decoder reads it. */
  function NumericOf(b: seq<byte>): (v: NumericValue) {
    if HoldsNumeric(b, 0) then NumericAt(b, 0) else NumericValue([], 0, NUMERIC_POS, 0)
  }

  lemma NumericElement(v: NumericValue)
    requires FitsWire(v.AsNum())
    ensures var b := NumericBytes(v.AsNum()); Fits(|b|, 4) && NumericOf(b) == v
  {
    var b := NumericBytes(v.AsNum());
    assert At(b, 0, b);
    NumericCodec(b, 0, v.AsNum());
    LengthFits(|v.digits|);
  }

  /** Arrays of numerics keep their sizes and elements. */
  method NumericsThroughWire(dims: seq<int>, elems: seq<NumericValue>, oid: int)
    returns (sizes: seq<int>, values: seq<NumericValue>, size: nat, end: nat)
    requires |elems| == Count(dims) && Fits(|dims|, 4) && Fits(oid, 4)
    requires forall i :: 0 <= i < |dims| ==> Fits(dims[i], 4)
    requires forall i :: 0 <= i < |elems| ==> FitsWire(elems[i].AsNum())
    ensures sizes == dims && values == elems && end == size
  {
    var enc, dec := (v: NumericValue) => NumericBytes(v.AsNum()), (b: seq<byte>) => NumericOf(b);
    forall i | 0 <= i < |elems| ensures Fits(|enc(elems[i])|, 4) && dec(enc(elems[i])) == elems[i] {
      NumericElement(elems[i]);
    }
    sizes, values, size, end := ThroughWire(dims, elems, oid, enc, dec);
  }
}
