/**
 The AgentX encodings of RFC 2741, section 5: object identifiers, search ranges, octet strings and
 variable bindings, in both byte orders. Encoders demand what `struct.pack` demands (every field in
 the range of its format letter); decoders take any bytes and raise as `struct.unpack` does.

 Each encoding is shown to be exact: a buffer decodes to `x` if and only if `x` is well formed and the
 buffer starts with the encoding of `x`.
 */
module Encodings {
  import opened Results
  import opened OidOrder

  type Byte = b: int | 0 <= b < 256

  datatype Endian = Network | Little

  datatype CodecError = StructError | ValueError | IndexError

  const UINT16 := 0x1_0000
  const UINT32 := 0x1_0000_0000
  const UINT64 := 0x1_0000_0000_0000_0000

  const INTERNET_PREFIX: Oid := [1, 3, 6, 1]

  // ----- fixed-width integers -----

  function Pow256(width: nat): (n: nat)
    ensures n > 0
  {
    if width == 0 then 1 else 256 * Pow256(width - 1)
  }

  /** The `width` bytes of `n`: most significant first in network order, least significant first otherwise. */
  function Pack(e: Endian, n: nat, width: nat): (bs: seq<Byte>)
    requires n < Pow256(width)
    ensures |bs| == width
  {
    if width == 0 then []
    else if e == Network then Pack(e, n / 256, width - 1) + [n % 256]
    else [n % 256] + Pack(e, n / 256, width - 1)
  }

  function Unpack(e: Endian, bs: seq<Byte>): (n: nat)
    ensures n < Pow256(|bs|)
  {
    if bs == [] then 0
    else
      var last := |bs| - 1;
      if e == Network then 256 * Unpack(e, bs[..last]) + bs[last]
      else 256 * Unpack(e, bs[1..]) + bs[0]
  }

  lemma {:induction false} UnpackPack(e: Endian, n: nat, width: nat)
    requires n < Pow256(width)
    ensures Unpack(e, Pack(e, n, width)) == n
  {
    if width != 0 {
      UnpackPack(e, n / 256, width - 1);
      var bs, inner := Pack(e, n, width), Pack(e, n / 256, width - 1);
      if e == Network {
        assert bs[..width - 1] == inner;
      } else {
        assert bs[1..] == inner;
      }
    }
  }

  lemma PackStep(e: Endian, q: nat, b: Byte, width: nat)
    requires q < Pow256(width)
    ensures 256 * q + b < Pow256(width + 1)
    ensures Pack(e, 256 * q + b, width + 1)
            == if e == Network then Pack(e, q, width) + [b] else [b] + Pack(e, q, width)
  {
    var n := 256 * q + b;
    assert n / 256 == q && n % 256 == b;
  }

  /** The low byte of a byte string, and the rest of it. */
  function LowByte(e: Endian, bs: seq<Byte>): Byte
    requires bs != []
  {
    if e == Network then bs[|bs| - 1] else bs[0]
  }

  function HighBytes(e: Endian, bs: seq<Byte>): (rest: seq<Byte>)
    requires bs != []
    ensures |rest| == |bs| - 1
  {
    if e == Network then bs[..|bs| - 1] else bs[1..]
  }

  lemma LowAndHigh(e: Endian, bs: seq<Byte>)
    requires bs != []
    ensures bs == if e == Network then HighBytes(e, bs) + [LowByte(e, bs)] else [LowByte(e, bs)] + HighBytes(e, bs)
    ensures Unpack(e, bs) == 256 * Unpack(e, HighBytes(e, bs)) + LowByte(e, bs)
  {
  }

  lemma {:induction false} PackUnpack(e: Endian, bs: seq<Byte>)
    ensures Pack(e, Unpack(e, bs), |bs|) == bs
    decreases |bs|
  {
    if bs != [] {
      var rest := HighBytes(e, bs);
      LowAndHigh(e, bs);
      PackUnpack(e, rest);
      PackStep(e, Unpack(e, rest), LowByte(e, bs), |rest|);
    }
  }

  // ----- cutting buffers apart -----

  /** Python's `s[:n]` and `s[n:]`, which stop at the end of `s`. */
  function Take<T>(s: seq<T>, n: nat): seq<T> {
    if n <= |s| then s[..n] else s
  }

  function Drop<T>(s: seq<T>, n: nat): seq<T> {
    if n <= |s| then s[n..] else []
  }

  /** A buffer starts with two blocks when it starts with the first and its rest with the second. */
  lemma StartsWithTwo<T>(bs: seq<T>, a: seq<T>, b: seq<T>)
    ensures a + b <= bs <==> a <= bs && b <= Drop(bs, |a|)
  {
    if a <= bs && b <= Drop(bs, |a|) {
      assert bs == a + Drop(bs, |a|);
    }
    if a + b <= bs {
      assert bs == a + (b + bs[|a + b|..]);
    }
  }

  lemma BlockAt<T>(bs: seq<T>, i: nat, a: seq<T>)
    requires i + |a| <= |bs|
    ensures a <= Drop(bs, i) <==> bs[i..i + |a|] == a
  {
    assert bs[i..i + |a|] == bs[i..][..|a|];
  }

  lemma DropTwice<T>(bs: seq<T>, m: nat, n: nat)
    ensures Drop(Drop(bs, m), n) == Drop(bs, m + n)
  {
  }

  /** A fixed-width field is read back from a buffer exactly when the buffer starts with its bytes. */
  lemma FieldExact(bs: seq<Byte>, e: Endian, n: nat, width: nat)
    requires |bs| >= width && n < Pow256(width)
    ensures Unpack(e, bs[..width]) == n <==> Pack(e, n, width) <= bs
  {
    var field := bs[..width];
    PackUnpack(e, field);
    if Pack(e, n, width) <= bs {
      assert field == Pack(e, n, width);
      UnpackPack(e, n, width);
    }
  }

  // ----- runs of 32-bit integers -----

  predicate AllUint32(xs: seq<nat>) {
    forall i :: 0 <= i < |xs| ==> xs[i] < UINT32
  }

  function PackAll(e: Endian, xs: seq<nat>): (bs: seq<Byte>)
    requires AllUint32(xs)
    ensures |bs| == 4 * |xs|
  {
    if xs == [] then [] else Pack(e, xs[0], 4) + PackAll(e, xs[1..])
  }

  function UnpackAll(e: Endian, bs: seq<Byte>, n: nat): (xs: seq<nat>)
    requires |bs| == 4 * n
    ensures |xs| == n && AllUint32(xs)
  {
    if n == 0 then [] else [Unpack(e, bs[..4])] + UnpackAll(e, bs[4..], n - 1)
  }

  lemma {:induction false} UnpackPackAll(e: Endian, xs: seq<nat>)
    requires AllUint32(xs)
    ensures UnpackAll(e, PackAll(e, xs), |xs|) == xs
  {
    if xs != [] {
      UnpackPack(e, xs[0], 4);
      UnpackPackAll(e, xs[1..]);
      var bs := PackAll(e, xs);
      assert bs[..4] == Pack(e, xs[0], 4) && bs[4..] == PackAll(e, xs[1..]);
    }
  }

  lemma {:induction false} PackUnpackAll(e: Endian, bs: seq<Byte>, n: nat)
    requires |bs| == 4 * n
    ensures PackAll(e, UnpackAll(e, bs, n)) == bs
  {
    if n != 0 {
      PackUnpack(e, bs[..4]);
      PackUnpackAll(e, bs[4..], n - 1);
      var xs := UnpackAll(e, bs, n);
      assert xs[1..] == UnpackAll(e, bs[4..], n - 1);
      assert bs == bs[..4] + bs[4..];
    }
  }

  // ----- object identifiers (section 5.1) -----

  datatype ObjectIdentifier = ObjectIdentifier(nSubid: nat, prefix: nat, incl: nat, reserved: nat, subids: Oid) {

    /** The fields are in the ranges `struct.pack` accepts and the count is the number of sub-ids. */
    predicate WellFormed() {
      nSubid == |subids| && nSubid < 256 && prefix < 256 && incl < 256 && reserved < 256 && AllUint32(subids)
    }

    function Size(): nat {
      4 + 4 * nSubid
    }

    /** A non-zero prefix byte x stands for the five sub-ids 1.3.6.1.x. */
    function ToTuple(): Oid {
      (if prefix == 0 then [] else INTERNET_PREFIX + [prefix]) + subids
    }

    function ToBytes(e: Endian): seq<Byte>
      requires WellFormed()
    {
      [nSubid, prefix, incl, reserved] + PackAll(e, subids)
    }

    /** The same identifier with its last sub-id increased by one. */
    function Inc(): Result<ObjectIdentifier, CodecError> {
      if subids == [] then Raised(IndexError)
      else Ok(this.(subids := Increased(subids)))
    }
  }

  function Increased(o: Oid): Oid
    requires o != []
  {
    o[..|o| - 1] + [o[|o| - 1] + 1]
  }

  function OidFromIterable(o: Oid): Result<ObjectIdentifier, CodecError> {
    if Take(o, 4) != INTERNET_PREFIX then Ok(ObjectIdentifier(|o|, 0, 0, 0, o))
    else if |o| == 4 then Raised(IndexError)
    else Ok(ObjectIdentifier(|o| - 5, o[4], 0, 0, o[5..]))
  }

  /** Checkable on the tuple alone: it is not 1.3.6.1 itself and does not continue with a zero. */
  predicate Representable(o: Oid) {
    Take(o, 4) == INTERNET_PREFIX ==> |o| > 4 && o[4] != 0
  }

  /** Exactly which tuples survive the trip through the compressed form. */
  lemma FromIterableFaithful(o: Oid)
    ensures Representable(o) <==> OidFromIterable(o).Ok? && OidFromIterable(o).value.ToTuple() == o
  {
    if Take(o, 4) == INTERNET_PREFIX && |o| > 4 {
      assert o == o[..4] + [o[4]] + o[5..];
      if o[4] == 0 {
        assert |o[5..]| < |o|;
      }
    } else if Take(o, 4) != INTERNET_PREFIX {
      assert [] + o == o;
    }
  }

  function OidFromBytes(bs: seq<Byte>, e: Endian): Result<ObjectIdentifier, CodecError> {
    if |bs| < 4 then Raised(StructError)
    else
      var n: nat := bs[0];
      if |bs| < 4 + 4 * n then Raised(StructError)
      else Ok(ObjectIdentifier(n, bs[1], bs[2], bs[3], UnpackAll(e, bs[4..4 + 4 * n], n)))
  }

  lemma OidSize(o: ObjectIdentifier, e: Endian)
    requires o.WellFormed()
    ensures |o.ToBytes(e)| == o.Size() && o.Size() % 4 == 0
  {
  }

  /** A buffer decodes to `o` exactly when `o` is well formed and its encoding is what the buffer starts with. */
  lemma OidExact(bs: seq<Byte>, e: Endian, o: ObjectIdentifier)
    ensures OidFromBytes(bs, e) == Ok(o) <==> o.WellFormed() && o.ToBytes(e) <= bs
  {
    if OidFromBytes(bs, e).Ok? {
      var n: nat := bs[0];
      PackUnpackAll(e, bs[4..4 + 4 * n], n);
      assert bs[..4 + 4 * n] == [bs[0], bs[1], bs[2], bs[3]] + bs[4..4 + 4 * n];
    }
    if o.WellFormed() && o.ToBytes(e) <= bs {
      assert bs[4..4 + 4 * o.nSubid] == o.ToBytes(e)[4..] == PackAll(e, o.subids);
      UnpackPackAll(e, o.subids);
      var h := o.ToBytes(e);
      assert h[0] == o.nSubid && h[1] == o.prefix && h[2] == o.incl && h[3] == o.reserved;
    }
  }

  /** The half-open interval from an OID to its increment is exactly the OID's subtree. */
  lemma {:induction false} IncrementBoundsSubtree(w: Oid, o: Oid)
    requires w != []
    ensures Le(w, o) && Lt(o, Increased(w)) <==> Under(w, o)
  {
    var up := Increased(w);
    if |w| == 1 {
      assert up == [w[0] + 1] && w == [w[0]];
      if o != [] {
        assert o == [o[0]] + o[1..];
        assert w[1..] == [] && up[1..] == [];
        assert Lt(w[1..], o[1..]) <==> o[1..] != [];
        assert !Lt(o[1..], up[1..]);
      }
    } else {
      assert up[0] == w[0] && up[1..] == Increased(w[1..]);
      if o != [] && o[0] == w[0] {
        IncrementBoundsSubtree(w[1..], o[1..]);
        assert w == [w[0]] + w[1..] && o == [o[0]] + o[1..];
      }
    }
  }

  /** Hence the range a Get request built from `o` covers is the subtree named by `o`. */
  lemma IncCoversSubtree(o: ObjectIdentifier, x: Oid)
    ensures o.Inc().Ok? <==> o.subids != []
    ensures o.Inc().Ok? ==>
              (Le(o.ToTuple(), x) && Lt(x, o.Inc().value.ToTuple()) <==> Under(o.ToTuple(), x))
  {
    if o.subids != [] {
      var p := if o.prefix == 0 then [] else INTERNET_PREFIX + [o.prefix];
      assert o.Inc().value.ToTuple() == Increased(o.ToTuple());
      IncrementBoundsSubtree(o.ToTuple(), x);
    }
  }

  // ----- search ranges (section 5.2) -----

  datatype SearchRange = SearchRange(start: ObjectIdentifier, end: ObjectIdentifier) {
    predicate WellFormed() {
      start.WellFormed() && end.WellFormed()
    }

    function Size(): nat {
      start.Size() + end.Size()
    }

    function ToBytes(e: Endian): seq<Byte>
      requires WellFormed()
    {
      start.ToBytes(e) + end.ToBytes(e)
    }
  }

  function RangeFromBytes(bs: seq<Byte>, e: Endian): Result<SearchRange, CodecError> {
    match OidFromBytes(bs, e)
    case Raised(error) => Raised(error)
    case Ok(start) =>
      match OidFromBytes(Drop(bs, start.Size()), e)
      case Raised(error) => Raised(error)
      case Ok(end) => Ok(SearchRange(start, end))
  }

  lemma RangeSize(sr: SearchRange, e: Endian)
    requires sr.WellFormed()
    ensures |sr.ToBytes(e)| == sr.Size() && sr.Size() % 4 == 0
  {
    OidSize(sr.start, e);
    OidSize(sr.end, e);
  }

  lemma RangeExact(bs: seq<Byte>, e: Endian, sr: SearchRange)
    ensures RangeFromBytes(bs, e) == Ok(sr) <==> sr.WellFormed() && sr.ToBytes(e) <= bs
  {
    var rest := Drop(bs, sr.start.Size());
    OidExact(bs, e, sr.start);
    OidExact(rest, e, sr.end);
    if sr.WellFormed() {
      OidSize(sr.start, e);
      StartsWithTwo(bs, sr.start.ToBytes(e), sr.end.ToBytes(e));
    }
  }

  // ----- octet strings (section 5.3) -----

  /** Python's `//`, which rounds down. */
  function PyFloorDiv(a: int, b: int): int
    requires b != 0
  {
    if b > 0 then a / b else (-a) / (-b)
  }

  /** Python's `%`: the remainder takes the sign of the divisor. */
  function PyMod(a: int, b: int): (r: int)
    requires b != 0
    ensures b > 0 ==> 0 <= r < b
    ensures b < 0 ==> b < r <= 0
  {
    if b > 0 then a % b else -((-a) % (-b))
  }

  /** It is what rounding down leaves, and lies between zero and the divisor. */
  lemma PyModExact(a: int, b: int)
    requires b != 0
    ensures a == b * PyFloorDiv(a, b) + PyMod(a, b)
    ensures if b > 0 then 0 <= PyMod(a, b) < b else b < PyMod(a, b) <= 0
  {
    if b < 0 {
      assert -a == (-b) * ((-a) / (-b)) + (-a) % (-b);
    }
  }

  function Pad4(length: nat): (n: nat) {
    -PyMod(length, -4)
  }

  /** Padding is the least number of bytes that reaches a multiple of four. */
  lemma PadReachesMultipleOfFour(length: nat)
    ensures Pad4(length) < 4 && (length + Pad4(length)) % 4 == 0
  {
  }

  datatype OctetString = OctetString(length: nat, data: seq<Byte>, padding: seq<Byte>) {
    predicate WellFormed() {
      length == |data| && length < UINT32 && |padding| == Pad4(length)
    }

    function Size(): nat {
      4 + length + Pad4(length)
    }

    function ToBytes(e: Endian): seq<Byte>
      requires WellFormed()
    {
      Pack(e, length, 4) + (data + padding)
    }
  }

  function OctetsFromString(data: seq<Byte>): OctetString {
    OctetString(|data|, data, seq(Pad4(|data|), _ => 0))
  }

  function OctetsFromBytes(bs: seq<Byte>, e: Endian): Result<OctetString, CodecError> {
    if |bs| < 4 then Raised(StructError)
    else
      var n := Unpack(e, bs[..4]);
      if |bs| < 4 + n + Pad4(n) then Raised(StructError)
      else Ok(OctetString(n, bs[4..4 + n], bs[4 + n..4 + n + Pad4(n)]))
  }

  lemma OctetsSize(s: OctetString, e: Endian)
    requires s.WellFormed()
    ensures |s.ToBytes(e)| == s.Size() && s.Size() % 4 == 0
  {
    PadReachesMultipleOfFour(s.length);
  }

  lemma OctetsExact(bs: seq<Byte>, e: Endian, s: OctetString)
    ensures OctetsFromBytes(bs, e) == Ok(s) <==> s.WellFormed() && s.ToBytes(e) <= bs
  {
    if s.WellFormed() && |bs| >= 4 {
      FieldExact(bs, e, s.length, 4);
      OctetsStart(bs, e, s);
    }
  }

  /** The encoding, part by part: its length, its octets and its padding. */
  lemma OctetsStart(bs: seq<Byte>, e: Endian, s: OctetString)
    requires s.WellFormed() && |bs| >= 4
    ensures s.ToBytes(e) <= bs
            <==> var n, p := s.length, |s.padding|;
                 && Pack(e, n, 4) <= bs && |bs| >= 4 + n + p
                 && bs[4..4 + n] == s.data && bs[4 + n..4 + n + p] == s.padding
  {
    OctetsSize(s, e);
    StartsWithTwo(bs, Pack(e, s.length, 4), s.data + s.padding);
    StartsWithTwo(bs[4..], s.data, s.padding);
    var n, p := s.length, |s.padding|;
    if |bs| >= 4 + n + p {
      BlockAt(bs, 4, s.data);
      BlockAt(bs, 4 + n, s.padding);
      DropTwice(bs, 4, n);
    }
  }

  // ----- variable bindings (section 5.4) -----

  datatype ValueType =
    | Integer | OctetStr | Null | ObjectId | IpAddress | Counter32 | Gauge32 | TimeTicks | Opaque | Counter64
    | NoSuchObject | NoSuchInstance | EndOfMibView

  function TypeCode(t: ValueType): nat {
    match t
    case Integer => 2
    case OctetStr => 4
    case Null => 5
    case ObjectId => 6
    case IpAddress => 64
    case Counter32 => 65
    case Gauge32 => 66
    case TimeTicks => 67
    case Opaque => 68
    case Counter64 => 70
    case NoSuchObject => 128
    case NoSuchInstance => 129
    case EndOfMibView => 130
  }

  function TypeFromCode(n: nat): Result<ValueType, CodecError> {
    match n
    case 2 => Ok(Integer)
    case 4 => Ok(OctetStr)
    case 5 => Ok(Null)
    case 6 => Ok(ObjectId)
    case 64 => Ok(IpAddress)
    case 65 => Ok(Counter32)
    case 66 => Ok(Gauge32)
    case 67 => Ok(TimeTicks)
    case 68 => Ok(Opaque)
    case 70 => Ok(Counter64)
    case 128 => Ok(NoSuchObject)
    case 129 => Ok(NoSuchInstance)
    case 130 => Ok(EndOfMibView)
    case _ => Raised(ValueError)
  }

  /** How the data of a type travels: the source's lists FOUR_BYTE_TYPES, OCTET_STRINGS and EMPTY_TYPES. */
  datatype Layout = FourBytes | EightBytes | AsOid | AsOctets | NoBytes

  function LayoutOf(t: ValueType): Layout {
    match t
    case Integer | Counter32 | Gauge32 | TimeTicks => FourBytes
    case Counter64 => EightBytes
    case ObjectId => AsOid
    case IpAddress | Opaque | OctetStr => AsOctets
    case Null | NoSuchObject | NoSuchInstance | EndOfMibView => NoBytes
  }

  datatype Data = IntData(n: int) | OctetData(s: OctetString) | OidData(o: ObjectIdentifier) | NoData {

    /** The data has the shape its layout calls for; integers are unbounded until they are packed. */
    predicate Fits(layout: Layout) {
      match layout
      case FourBytes | EightBytes => IntData?
      case AsOid => OidData? && o.WellFormed()
      case AsOctets => OctetData? && s.WellFormed()
      case NoBytes => NoData?
    }

    function Size(layout: Layout): nat
      requires Fits(layout)
    {
      match layout
      case FourBytes => 4
      case EightBytes => 8
      case AsOid => o.Size()
      case AsOctets => s.Size()
      case NoBytes => 0
    }

    function ToBytes(layout: Layout, e: Endian): seq<Byte>
      requires Fits(layout)
    {
      match layout
      case FourBytes => Pack(e, n % UINT32, 4)
      case EightBytes => Pack(e, n % UINT64, 8)
      case AsOid => o.ToBytes(e)
      case AsOctets => s.ToBytes(e)
      case NoBytes => []
    }

    /** What the wire can carry: integers reduced to their 32 or 64 bits. */
    function Reduced(layout: Layout): Data {
      match layout
      case FourBytes => if IntData? then IntData(n % UINT32) else this
      case EightBytes => if IntData? then IntData(n % UINT64) else this
      case _ => this
    }
  }

  function UnpackData(layout: Layout, bs: seq<Byte>, e: Endian): Result<Data, CodecError> {
    match layout
    case FourBytes => if |bs| < 4 then Raised(StructError) else Ok(IntData(Unpack(e, bs[..4])))
    case EightBytes => if |bs| < 8 then Raised(StructError) else Ok(IntData(Unpack(e, bs[..8])))
    case AsOid => (
      match OidFromBytes(bs, e)
      case Ok(o) => Ok(OidData(o))
      case Raised(error) => Raised(error))
    case AsOctets => (
      match OctetsFromBytes(bs, e)
      case Ok(s) => Ok(OctetData(s))
      case Raised(error) => Raised(error))
    case NoBytes => Ok(NoData)
  }

  lemma DataSize(d: Data, layout: Layout, e: Endian)
    requires d.Fits(layout)
    ensures |d.ToBytes(layout, e)| == d.Size(layout) && d.Size(layout) % 4 == 0
  {
    match layout
    case AsOid => OidSize(d.o, e);
    case AsOctets => OctetsSize(d.s, e);
    case _ =>
  }

  lemma IntExact(bs: seq<Byte>, e: Endian, d: Data, width: nat)
    ensures |bs| >= width && d == IntData(Unpack(e, bs[..width]))
            <==> d.IntData? && 0 <= d.n < Pow256(width) && Pack(e, d.n, width) <= bs
  {
    if |bs| >= width && d.IntData? && 0 <= d.n < Pow256(width) {
      FieldExact(bs, e, d.n, width);
    }
  }

  lemma ReducedExact(bs: seq<Byte>, e: Endian, d: Data, width: nat, modulus: nat)
    requires modulus == Pow256(width) && modulus > 0
    requires d.IntData? ==> 0 <= d.n % modulus < modulus && (d.n % modulus == d.n <==> 0 <= d.n < modulus)
    ensures |bs| >= width && d == IntData(Unpack(e, bs[..width]))
            <==> d.IntData? && d.n % modulus == d.n && Pack(e, d.n % modulus, width) <= bs
  {
    IntExact(bs, e, d, width);
  }

  lemma FourBytesExact(bs: seq<Byte>, e: Endian, d: Data)
    ensures UnpackData(FourBytes, bs, e) == Ok(d)
            <==> d.Fits(FourBytes) && d.Reduced(FourBytes) == d && d.ToBytes(FourBytes, e) <= bs
  {
    ReducedExact(bs, e, d, 4, UINT32);
  }

  lemma EightBytesExact(bs: seq<Byte>, e: Endian, d: Data)
    ensures UnpackData(EightBytes, bs, e) == Ok(d)
            <==> d.Fits(EightBytes) && d.Reduced(EightBytes) == d && d.ToBytes(EightBytes, e) <= bs
  {
    ReducedExact(bs, e, d, 8, UINT64);
  }

  lemma DataExact(layout: Layout, bs: seq<Byte>, e: Endian, d: Data)
    ensures UnpackData(layout, bs, e) == Ok(d)
            <==> d.Fits(layout) && d.Reduced(layout) == d && d.ToBytes(layout, e) <= bs
  {
    match layout
    case FourBytes => FourBytesExact(bs, e, d);
    case EightBytes => EightBytesExact(bs, e, d);
    case AsOid =>
      if d.OidData? {
        OidExact(bs, e, d.o);
      }
    case AsOctets =>
      if d.OctetData? {
        OctetsExact(bs, e, d.s);
      }
    case NoBytes =>
  }

  datatype VarBind = VarBind(type_: ValueType, reserved: nat, name: ObjectIdentifier, data: Data) {

    predicate WellFormed() {
      reserved < UINT16 && name.WellFormed() && data.Fits(LayoutOf(type_))
    }

    function Size(): nat
      requires WellFormed()
    {
      4 + name.Size() + data.Size(LayoutOf(type_))
    }

    function ToBytes(e: Endian): seq<Byte>
      requires WellFormed()
    {
      TagBytes(TypeCode(type_), reserved, e) + (name.ToBytes(e) + data.ToBytes(LayoutOf(type_), e))
    }

    function Reduced(): VarBind {
      this.(data := data.Reduced(LayoutOf(type_)))
    }
  }

  function TagBytes(code: nat, reserved: nat, e: Endian): (bs: seq<Byte>)
    requires code < UINT16 && reserved < UINT16
    ensures |bs| == 4
  {
    Pack(e, code, 2) + Pack(e, reserved, 2)
  }

  function VarBindFromBytes(bs: seq<Byte>, e: Endian): Result<VarBind, CodecError> {
    if |bs| < 4 then Raised(StructError)
    else
      var code, reserved := Unpack(e, bs[..2]), Unpack(e, bs[2..4]);
      match OidFromBytes(bs[4..], e)
      case Raised(error) => Raised(error)
      case Ok(name) =>
        match TypeFromCode(code)
        case Raised(error) => Raised(error)
        case Ok(t) =>
          match UnpackData(LayoutOf(t), Drop(bs, 4 + name.Size()), e)
          case Raised(error) => Raised(error)
          case Ok(data) => Ok(VarBind(t, reserved, name, data))
  }

  lemma TypeCodeExact(n: nat, t: ValueType)
    ensures TypeFromCode(n) == Ok(t) <==> TypeCode(t) == n
  {
  }

  lemma TagExact(bs: seq<Byte>, e: Endian, code: nat, reserved: nat)
    requires |bs| >= 4 && code < UINT16 && reserved < UINT16
    ensures TagBytes(code, reserved, e) <= bs <==> Unpack(e, bs[..2]) == code && Unpack(e, bs[2..4]) == reserved
  {
    FieldExact(bs, e, code, 2);
    FieldExact(bs[2..], e, reserved, 2);
    assert bs[2..][..2] == bs[2..4];
    StartsWithTwo(bs, Pack(e, code, 2), Pack(e, reserved, 2));
  }

  lemma VarBindSize(v: VarBind, e: Endian)
    requires v.WellFormed()
    ensures |v.ToBytes(e)| == v.Size() && v.Size() % 4 == 0 && v.Size() >= 8
  {
    OidSize(v.name, e);
    DataSize(v.data, LayoutOf(v.type_), e);
    SumOfMultiples(v.name.Size(), v.data.Size(LayoutOf(v.type_)));
  }

  lemma SumOfMultiples(a: nat, b: nat)
    requires a % 4 == 0 && b % 4 == 0
    ensures (4 + a + b) % 4 == 0
  {
  }

  /**
   A buffer decodes to a binding exactly when the binding is well formed, its integers fit their wire
   width and the buffer starts with its encoding.
   */
  lemma VarBindExact(bs: seq<Byte>, e: Endian, v: VarBind)
    ensures VarBindFromBytes(bs, e) == Ok(v) <==> v.WellFormed() && v.Reduced() == v && v.ToBytes(e) <= bs
  {
    VarBindParts(bs, e, v);
    if v.WellFormed() {
      VarBindSize(v, e);
      if |bs| >= 4 {
        VarBindStarts(bs, e, v);
      }
    }
    if |bs| >= 4 {
      PartsExact(bs, e, v);
    }
  }

  /** The four fields read one after another from the buffer are those of `v`. */
  predicate Parts(bs: seq<Byte>, e: Endian, v: VarBind)
    requires |bs| >= 4
  {
    && Unpack(e, bs[..2]) == TypeCode(v.type_) && Unpack(e, bs[2..4]) == v.reserved
    && OidFromBytes(bs[4..], e) == Ok(v.name)
    && UnpackData(LayoutOf(v.type_), Drop(bs[4..], v.name.Size()), e) == Ok(v.data)
  }

  lemma VarBindParts(bs: seq<Byte>, e: Endian, v: VarBind)
    ensures VarBindFromBytes(bs, e) == Ok(v) <==> |bs| >= 4 && Parts(bs, e, v)
  {
    if |bs| >= 4 {
      DropTwice(bs, 4, v.name.Size());
      if VarBindFromBytes(bs, e) == Ok(v) {
        TypeCodeExact(Unpack(e, bs[..2]), v.type_);
      }
      if Parts(bs, e, v) {
        TypeCodeExact(TypeCode(v.type_), v.type_);
        assert TypeFromCode(Unpack(e, bs[..2])) == Ok(v.type_);
      }
    }
  }

  lemma PartsExact(bs: seq<Byte>, e: Endian, v: VarBind)
    requires |bs| >= 4
    ensures Parts(bs, e, v)
            <==> && v.WellFormed() && v.Reduced() == v
                 && TagBytes(TypeCode(v.type_), v.reserved, e) <= bs
                 && v.name.ToBytes(e) <= bs[4..]
                 && v.data.ToBytes(LayoutOf(v.type_), e) <= Drop(bs[4..], v.name.Size())
  {
    if v.reserved < UINT16 {
      TagExact(bs, e, TypeCode(v.type_), v.reserved);
    }
    OidExact(bs[4..], e, v.name);
    DataExact(LayoutOf(v.type_), Drop(bs[4..], v.name.Size()), e, v.data);
  }

  lemma VarBindStarts(bs: seq<Byte>, e: Endian, v: VarBind)
    requires v.WellFormed() && |bs| >= 4
    ensures v.ToBytes(e) <= bs
            <==> && TagBytes(TypeCode(v.type_), v.reserved, e) <= bs
                 && v.name.ToBytes(e) <= bs[4..]
                 && v.data.ToBytes(LayoutOf(v.type_), e) <= Drop(bs[4..], v.name.Size())
  {
    var tag, name, data := TagBytes(TypeCode(v.type_), v.reserved, e), v.name.ToBytes(e),
                           v.data.ToBytes(LayoutOf(v.type_), e);
    OidSize(v.name, e);
    StartsWithTwo(bs, tag, name + data);
    StartsWithTwo(bs[4..], name, data);
  }

  lemma ReducedSameData(d: Data, layout: Layout, e: Endian)
    requires d.Fits(layout)
    ensures d.Reduced(layout).Fits(layout) && d.Reduced(layout).Reduced(layout) == d.Reduced(layout)
    ensures d.Reduced(layout).ToBytes(layout, e) == d.ToBytes(layout, e)
  {
    if layout == FourBytes {
      assert d.n % UINT32 % UINT32 == d.n % UINT32;
    } else if layout == EightBytes {
      assert d.n % UINT64 % UINT64 == d.n % UINT64;
    }
  }

  lemma ReducedSameBytes(v: VarBind, e: Endian)
    requires v.WellFormed()
    ensures v.Reduced().WellFormed() && v.Reduced().Reduced() == v.Reduced()
    ensures v.Reduced().ToBytes(e) == v.ToBytes(e)
  {
    ReducedSameData(v.data, LayoutOf(v.type_), e);
  }

  /** Encoding reduces integers to their wire width, so decoding gives the reduced binding back. */
  lemma VarBindRoundTrip(v: VarBind, e: Endian, rest: seq<Byte>)
    requires v.WellFormed()
    ensures VarBindFromBytes(v.ToBytes(e) + rest, e) == Ok(v.Reduced())
  {
    ReducedSameBytes(v, e);
    VarBindExact(v.ToBytes(e) + rest, e, v.Reduced());
  }

  // ----- building a binding from an application value -----

  /** What a MIB entry's callable returns, before it is wrapped for the wire. */
  datatype RawValue = RawInt(n: int) | RawBytes(bytes: seq<Byte>) | RawOid(oid: Oid)

  /** The callable returns values of the kind its entry declares. */
  predicate Fits(t: ValueType, raw: RawValue) {
    match LayoutOf(t)
    case FourBytes | EightBytes => raw.RawInt?
    case AsOctets => raw.RawBytes?
    case AsOid => raw.RawOid?
    case NoBytes => true
  }

  function FromTypecast(t: ValueType, name: Oid, raw: RawValue): Result<VarBind, CodecError>
    requires Fits(t, raw)
  {
    match OidFromIterable(name)
    case Raised(error) => Raised(error)
    case Ok(id) =>
      match LayoutOf(t)
      case AsOctets => Ok(VarBind(t, 0, id, OctetData(OctetsFromString(raw.bytes))))
      case AsOid => (
        match OidFromIterable(raw.oid)
        case Raised(error) => Raised(error)
        case Ok(o) => Ok(VarBind(t, 0, id, OidData(o))))
      case NoBytes => Ok(VarBind(t, 0, id, NoData))
      case FourBytes | EightBytes => Ok(VarBind(t, 0, id, IntData(raw.n)))
  }

  /** Every OID but the internet prefix itself has a compressed form. */
  predicate Compressible(o: Oid) {
    o != [1, 3, 6, 1]
  }

  /** The octet string is these octets, with zeros up to a multiple of four. */
  ghost predicate IsText(s: OctetString, bytes: seq<Byte>) {
    && s.length == |bytes| && s.data == bytes && |s.padding| < 4 && (|bytes| + |s.padding|) % 4 == 0
    && forall i :: 0 <= i < |s.padding| ==> s.padding[i] == 0
  }

  /** The identifier is this OID, and counts its sub-ids right. */
  predicate IsOid(id: ObjectIdentifier, o: Oid) {
    id.nSubid == |id.subids| && id.incl == 0 && id.reserved == 0 && (Representable(o) ==> id.ToTuple() == o)
  }

  /** What a binding's data is for the value a callable gave. */
  ghost predicate Carries(t: ValueType, d: Data, raw: RawValue) {
    match t
    case Integer | Counter32 | Gauge32 | TimeTicks | Counter64 => raw.RawInt? && d == IntData(raw.n)
    case OctetStr | IpAddress | Opaque => raw.RawBytes? && d.OctetData? && IsText(d.s, raw.bytes)
    case ObjectId => raw.RawOid? && d.OidData? && IsOid(d.o, raw.oid)
    case Null | NoSuchObject | NoSuchInstance | EndOfMibView => d == NoData
  }

  /** The same once it has been on the wire: integers are modulo 2^32, and counters of 64 bits modulo 2^64. */
  ghost predicate WireCarries(t: ValueType, d: Data, raw: RawValue) {
    match t
    case Integer | Counter32 | Gauge32 | TimeTicks => raw.RawInt? && d == IntData(raw.n % 0x1_0000_0000)
    case Counter64 => raw.RawInt? && d == IntData(raw.n % 0x1_0000_0000_0000_0000)
    case _ => Carries(t, d, raw)
  }

  /** An answer with the value, under the name; it raises only where an OID has no compressed form. */
  ghost predicate Says(r: Result<VarBind, CodecError>, t: ValueType, name: Oid, raw: RawValue) {
    && (r.Ok? <==> Compressible(name) && (t == ObjectId && raw.RawOid? ==> Compressible(raw.oid)))
    && (r.Ok? ==>
          && r.value.type_ == t && r.value.reserved == 0 && IsOid(r.value.name, name)
          && Carries(t, r.value.data, raw))
  }

  lemma TextGiven(bytes: seq<Byte>)
    ensures IsText(OctetsFromString(bytes), bytes)
  {
    PadReachesMultipleOfFour(|bytes|);
  }

  lemma OidGiven(o: Oid)
    ensures OidFromIterable(o).Ok? <==> Compressible(o)
    ensures OidFromIterable(o).Ok? ==> IsOid(OidFromIterable(o).value, o)
  {
    FromIterableFaithful(o);
    CompressibleExactly(o);
  }

  lemma TypecastSays(t: ValueType, name: Oid, raw: RawValue)
    requires Fits(t, raw)
    ensures Says(FromTypecast(t, name, raw), t, name, raw)
  {
    OidGiven(name);
    match raw
    case RawOid(o) => OidGiven(o);
    case RawBytes(bytes) => TextGiven(bytes);
    case RawInt(_) =>
  }

  lemma CompressibleExactly(o: Oid)
    ensures OidFromIterable(o).Ok? <==> Compressible(o)
  {
    if |o| == 4 {
      assert Take(o, 4) == o;
    }
    if |o| < 4 {
      assert Take(o, 4) == o;
    }
  }

  lemma ReducedCarries(v: VarBind, raw: RawValue)
    requires Carries(v.type_, v.data, raw)
    ensures WireCarries(v.type_, v.Reduced().data, raw)
  {
  }
}
