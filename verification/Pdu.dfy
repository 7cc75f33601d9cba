/**
 AgentX PDUs of RFC 2741, section 6: the header, the protocol data units the subagent implements,
 their encodings, and the decoder that cuts them off a byte stream one after another. Decoding reads
 fields from the front of the bytes that remain; the specification functions here return the value
 read together with what remains.
 */
module Pdu {
  import opened Results
  import opened OidOrder
  import opened Encodings

  const HEADER_LENGTH := 20

  type Parsed<+T> = Result<(T, seq<Byte>), CodecError>

  // ----- reading one field and keeping the rest -----

  lemma CutExact<T>(bs: seq<T>, a: seq<T>, rest: seq<T>)
    ensures bs == a + rest <==> a <= bs && rest == Drop(bs, |a|)
  {
    if a <= bs && rest == Drop(bs, |a|) {
      assert bs == a + bs[|a|..];
    }
  }

  lemma Regroup<T>(a: seq<T>, b: seq<T>, c: seq<T>)
    ensures (a + b) + c == a + (b + c)
  {
  }

  function ReadOid(bs: seq<Byte>, e: Endian): Parsed<ObjectIdentifier> {
    match OidFromBytes(bs, e)
    case Raised(error) => Raised(error)
    case Ok(o) => Ok((o, Drop(bs, o.Size())))
  }

  lemma ReadOidExact(bs: seq<Byte>, e: Endian, o: ObjectIdentifier, rest: seq<Byte>)
    ensures ReadOid(bs, e) == Ok((o, rest)) <==> o.WellFormed() && bs == o.ToBytes(e) + rest
  {
    OidExact(bs, e, o);
    if o.WellFormed() {
      OidSize(o, e);
      CutExact(bs, o.ToBytes(e), rest);
    }
  }

  function ReadOctets(bs: seq<Byte>, e: Endian): Parsed<OctetString> {
    match OctetsFromBytes(bs, e)
    case Raised(error) => Raised(error)
    case Ok(s) => Ok((s, Drop(bs, s.Size())))
  }

  lemma ReadOctetsExact(bs: seq<Byte>, e: Endian, s: OctetString, rest: seq<Byte>)
    ensures ReadOctets(bs, e) == Ok((s, rest)) <==> s.WellFormed() && bs == s.ToBytes(e) + rest
  {
    OctetsExact(bs, e, s);
    if s.WellFormed() {
      OctetsSize(s, e);
      CutExact(bs, s.ToBytes(e), rest);
    }
  }

  function ReadRange(bs: seq<Byte>, e: Endian): Parsed<SearchRange> {
    match RangeFromBytes(bs, e)
    case Raised(error) => Raised(error)
    case Ok(sr) => Ok((sr, Drop(bs, sr.Size())))
  }

  lemma ReadRangeExact(bs: seq<Byte>, e: Endian, sr: SearchRange, rest: seq<Byte>)
    ensures ReadRange(bs, e) == Ok((sr, rest)) <==> sr.WellFormed() && bs == sr.ToBytes(e) + rest
  {
    RangeExact(bs, e, sr);
    if sr.WellFormed() {
      RangeSize(sr, e);
      CutExact(bs, sr.ToBytes(e), rest);
    }
  }

  function ReadVarBind(bs: seq<Byte>, e: Endian): Parsed<VarBind> {
    match VarBindFromBytes(bs, e)
    case Raised(error) => Raised(error)
    case Ok(v) =>
      VarBindExact(bs, e, v);
      Ok((v, Drop(bs, v.Size())))
  }

  predicate OnWire(v: VarBind) {
    v.WellFormed() && v.Reduced() == v
  }

  lemma ReadVarBindExact(bs: seq<Byte>, e: Endian, v: VarBind, rest: seq<Byte>)
    ensures ReadVarBind(bs, e) == Ok((v, rest)) <==> OnWire(v) && bs == v.ToBytes(e) + rest
  {
    VarBindExact(bs, e, v);
    if v.WellFormed() {
      VarBindSize(v, e);
      CutExact(bs, v.ToBytes(e), rest);
    }
  }

  /** A field of a fixed number of raw bytes. */
  function ReadRaw(bs: seq<Byte>, n: nat): Parsed<seq<Byte>> {
    if |bs| < n then Raised(StructError) else Ok((bs[..n], bs[n..]))
  }

  lemma ReadRawExact(bs: seq<Byte>, n: nat, a: seq<Byte>, rest: seq<Byte>)
    ensures ReadRaw(bs, n) == Ok((a, rest)) <==> |a| == n && bs == a + rest
  {
    CutExact(bs, a, rest);
  }

  // ----- runs of items read until a byte budget is used up -----

  /** `read` undoes `encode` on well-formed items, consuming at least one byte. */
  ghost predicate Codec<T(!new)>(read: seq<Byte> -> Parsed<T>, encode: T -> seq<Byte>, wellFormed: T -> bool) {
    && (forall bs, x, rest :: ReadsBack(read, encode, wellFormed, bs, x, rest))
    && (forall x :: NonEmpty(encode, wellFormed, x))
  }

  ghost predicate ReadsBack<T>(read: seq<Byte> -> Parsed<T>, encode: T -> seq<Byte>, wellFormed: T -> bool,
                               bs: seq<Byte>, x: T, rest: seq<Byte>)
  {
    read(bs) == Ok((x, rest)) <==> wellFormed(x) && bs == encode(x) + rest
  }

  ghost predicate NonEmpty<T>(encode: T -> seq<Byte>, wellFormed: T -> bool, x: T) {
    wellFormed(x) ==> encode(x) != []
  }

  ghost predicate Shrinking<T>(read: seq<Byte> -> Parsed<T>) {
    forall bs :: read(bs).Ok? ==> |read(bs).value.1| < |bs|
  }

  lemma CodecShrinks<T(!new)>(read: seq<Byte> -> Parsed<T>, encode: T -> seq<Byte>, wellFormed: T -> bool)
    requires Codec(read, encode, wellFormed)
    ensures Shrinking(read)
  {
    forall bs | read(bs).Ok? ensures |read(bs).value.1| < |bs| {
      var (x, rest) := read(bs).value;
      assert ReadsBack(read, encode, wellFormed, bs, x, rest) && NonEmpty(encode, wellFormed, x);
    }
  }

  /**
   The reading loop of the request and response PDUs: it goes on while bytes remain and fewer bytes
   than the budget have been read.
   */
  function ReadMany<T>(read: seq<Byte> -> Parsed<T>, bs: seq<Byte>, budget: int): Parsed<seq<T>>
    requires Shrinking(read)
    decreases |bs|
  {
    if bs == [] || budget <= 0 then Ok(([], bs))
    else
      match read(bs)
      case Raised(error) => Raised(error)
      case Ok((x, rest)) =>
        match ReadMany(read, rest, budget - (|bs| - |rest|))
        case Raised(error) => Raised(error)
        case Ok((xs, left)) => Ok(([x] + xs, left))
  }

  function Concat<T>(encode: T -> seq<Byte>, xs: seq<T>): seq<Byte> {
    if xs == [] then [] else encode(xs[0]) + Concat(encode, xs[1..])
  }

  predicate All<T>(p: T -> bool, xs: seq<T>) {
    forall i :: 0 <= i < |xs| ==> p(xs[i])
  }

  /** The loop stops after exactly these items: the budget outlasts all but the last, and no more. */
  predicate Stops<T>(encode: T -> seq<Byte>, xs: seq<T>, budget: int, more: bool) {
    && (xs != [] ==> budget > |Concat(encode, xs[..|xs| - 1])|)
    && (!more || budget <= |Concat(encode, xs)|)
  }

  lemma StopsStep<T>(encode: T -> seq<Byte>, x: T, xs: seq<T>, budget: int, more: bool)
    ensures Stops(encode, [x] + xs, budget, more)
            <==> budget > 0 && Stops(encode, xs, budget - |encode(x)|, more)
  {
    var all := [x] + xs;
    assert all[1..] == xs;
    if xs == [] {
      assert all[..|all| - 1] == [];
    } else {
      var front := all[..|all| - 1];
      assert front[1..] == xs[..|xs| - 1] && front[0] == x;
    }
  }

  lemma AllStep<T>(p: T -> bool, x: T, xs: seq<T>)
    ensures All(p, [x] + xs) <==> p(x) && All(p, xs)
  {
    if All(p, [x] + xs) {
      assert ([x] + xs)[0] == x;
      forall i | 0 <= i < |xs| ensures p(xs[i]) {
        assert ([x] + xs)[i + 1] == xs[i];
      }
    }
  }

  /**
   The loop returns these items and leaves `rest` exactly when the bytes are the items' encodings
   followed by `rest` and the budget stops it there.
   */
  lemma {:induction false} ReadManyExact<T(!new)>(
      read: seq<Byte> -> Parsed<T>, encode: T -> seq<Byte>, wellFormed: T -> bool,
      bs: seq<Byte>, budget: int, xs: seq<T>, rest: seq<Byte>)
    requires Codec(read, encode, wellFormed) && Shrinking(read)
    ensures ReadMany(read, bs, budget) == Ok((xs, rest))
            <==> All(wellFormed, xs) && bs == Concat(encode, xs) + rest && Stops(encode, xs, budget, rest != [])
    decreases |xs|
  {
    if xs == [] {
      assert Concat(encode, xs) + rest == rest;
    } else {
      var x, tail := xs[0], xs[1..];
      var after := Concat(encode, tail) + rest;
      assert xs == [x] + tail;
      StopsStep(encode, x, tail, budget, rest != []);
      AllStep(wellFormed, x, tail);
      Regroup(encode(x), Concat(encode, tail), rest);
      ReadManyExact(read, encode, wellFormed, after, budget - |encode(x)|, tail, rest);
      if ReadMany(read, bs, budget) == Ok((xs, rest)) {
        var (first, left) := read(bs).value;
        assert ReadsBack(read, encode, wellFormed, bs, first, left);
        ReadManyExact(read, encode, wellFormed, left, budget - (|bs| - |left|), tail, rest);
      } else if wellFormed(x) && bs == encode(x) + after {
        assert ReadsBack(read, encode, wellFormed, bs, x, after);
      }
    }
  }

  // The two instances: search ranges and variable bindings.

  function RangeReader(e: Endian): seq<Byte> -> Parsed<SearchRange> {
    bs => ReadRange(bs, e)
  }

  function RangeEncoder(e: Endian): SearchRange -> seq<Byte> {
    (sr: SearchRange) => if sr.WellFormed() then sr.ToBytes(e) else []
  }

  function RangeCheck(): SearchRange -> bool {
    (sr: SearchRange) => sr.WellFormed()
  }

  lemma RangeReads(e: Endian, bs: seq<Byte>, sr: SearchRange, rest: seq<Byte>)
    ensures ReadsBack(RangeReader(e), RangeEncoder(e), RangeCheck(), bs, sr, rest)
  {
    ReadRangeExact(bs, e, sr, rest);
  }

  lemma RangeNonEmpty(e: Endian, sr: SearchRange)
    ensures NonEmpty(RangeEncoder(e), RangeCheck(), sr)
  {
    if sr.WellFormed() {
      RangeSize(sr, e);
    }
  }

  lemma RangeCodec(e: Endian)
    ensures Codec(RangeReader(e), RangeEncoder(e), RangeCheck()) && Shrinking(RangeReader(e))
  {
    forall bs, sr: SearchRange, rest ensures ReadsBack(RangeReader(e), RangeEncoder(e), RangeCheck(), bs, sr, rest) {
      RangeReads(e, bs, sr, rest);
    }
    forall sr: SearchRange ensures NonEmpty(RangeEncoder(e), RangeCheck(), sr) {
      RangeNonEmpty(e, sr);
    }
    CodecShrinks(RangeReader(e), RangeEncoder(e), RangeCheck());
  }

  function VarBindReader(e: Endian): seq<Byte> -> Parsed<VarBind> {
    bs => ReadVarBind(bs, e)
  }

  function VarBindEncoder(e: Endian): VarBind -> seq<Byte> {
    (v: VarBind) => if v.WellFormed() then v.ToBytes(e) else []
  }

  function VarBindCheck(): VarBind -> bool {
    (v: VarBind) => OnWire(v)
  }

  lemma VarBindReads(e: Endian, bs: seq<Byte>, v: VarBind, rest: seq<Byte>)
    ensures ReadsBack(VarBindReader(e), VarBindEncoder(e), VarBindCheck(), bs, v, rest)
  {
    ReadVarBindExact(bs, e, v, rest);
  }

  lemma VarBindNonEmpty(e: Endian, v: VarBind)
    ensures NonEmpty(VarBindEncoder(e), VarBindCheck(), v)
  {
    if v.WellFormed() {
      VarBindSize(v, e);
    }
  }

  lemma VarBindReadsBack(e: Endian)
    ensures forall bs, v: VarBind, rest :: ReadsBack(VarBindReader(e), VarBindEncoder(e), VarBindCheck(), bs, v, rest)
  {
    forall bs, v: VarBind, rest ensures ReadsBack(VarBindReader(e), VarBindEncoder(e), VarBindCheck(), bs, v, rest) {
      VarBindReads(e, bs, v, rest);
    }
  }

  lemma VarBindCodec(e: Endian)
    ensures Codec(VarBindReader(e), VarBindEncoder(e), VarBindCheck()) && Shrinking(VarBindReader(e))
  {
    VarBindReadsBack(e);
    forall v: VarBind ensures NonEmpty(VarBindEncoder(e), VarBindCheck(), v) {
      VarBindNonEmpty(e, v);
    }
    CodecShrinks(VarBindReader(e), VarBindEncoder(e), VarBindCheck());
  }

  // ----- the header (section 6.1) -----

  datatype PduHeader = PduHeader(version: Byte, type_: Byte, flags: Byte, reserved: Byte,
                                 sessionId: nat, transactionId: nat, packetId: nat, payloadLength: nat)
  {
    predicate WellFormed() {
      sessionId < UINT32 && transactionId < UINT32 && packetId < UINT32 && payloadLength < UINT32
    }

    /** Bit 0x10 of the flags: network byte order. */
    function Endianness(): Endian {
      if flags / 16 % 2 == 1 then Network else Little
    }

    /** Bit 0x08 of the flags: a context follows the header. */
    predicate NonDefaultContext() {
      flags / 8 % 2 == 1
    }

    function ToBytes(): seq<Byte>
      requires WellFormed()
    {
      [version, type_, flags, reserved] + PackAll(Endianness(), [sessionId, transactionId, packetId, payloadLength])
    }
  }

  function HeaderFromBytes(bs: seq<Byte>): PduHeader
    requires |bs| >= HEADER_LENGTH
  {
    var tags := PduHeader(bs[0], bs[1], bs[2], bs[3], 0, 0, 0, 0);
    var ids := UnpackAll(tags.Endianness(), bs[4..HEADER_LENGTH], 4);
    tags.(sessionId := ids[0], transactionId := ids[1], packetId := ids[2], payloadLength := ids[3])
  }

  lemma HeaderExact(bs: seq<Byte>, h: PduHeader)
    requires |bs| >= HEADER_LENGTH
    ensures HeaderFromBytes(bs) == h <==> h.WellFormed() && h.ToBytes() <= bs
    ensures h.WellFormed() ==> |h.ToBytes()| == HEADER_LENGTH
  {
    var e := h.Endianness();
    var ids := [h.sessionId, h.transactionId, h.packetId, h.payloadLength];
    var tags, raw := [h.version, h.type_, h.flags, h.reserved], bs[4..HEADER_LENGTH];
    if HeaderFromBytes(bs) == h {
      assert UnpackAll(e, raw, 4) == ids;
      PackUnpackAll(e, raw, 4);
      assert bs[..HEADER_LENGTH] == tags + raw;
    }
    if h.WellFormed() && h.ToBytes() <= bs {
      assert raw == h.ToBytes()[4..] == PackAll(e, ids);
      UnpackPackAll(e, ids);
      assert h.ToBytes()[..4] == tags && bs[..4] == tags;
      assert bs[0] == tags[0] && bs[1] == tags[1] && bs[2] == tags[2] && bs[3] == tags[3];
    }
  }

  // ----- bodies (section 6.2) -----

  datatype Body =
    | Open(timeout: Byte, reserved3: seq<Byte>, oid: ObjectIdentifier, descr: OctetString)
    | Close(reason: Byte, reserved3: seq<Byte>)
    | Register(context: Option<OctetString>, timeout: Byte, priority: Byte, rangeSubid: Byte, rangeReserved: Byte,
               subtree: ObjectIdentifier, upperBound: Option<nat>)
    | Get(context: Option<OctetString>, sr: seq<SearchRange>)
    | GetNext(context: Option<OctetString>, sr: seq<SearchRange>)
    | TestSet(context: Option<OctetString>)
    | CommitSet
    | UndoSet
    | CleanupSet
    | Ping(context: Option<OctetString>)
    | Response(sysUpTime: nat, error: nat, index: nat, values: seq<VarBind>)

  function TypeOf(b: Body): Byte {
    match b
    case Open(_, _, _, _) => 1
    case Close(_, _) => 2
    case Register(_, _, _, _, _, _, _) => 3
    case Get(_, _) => 5
    case GetNext(_, _) => 6
    case TestSet(_) => 8
    case CommitSet => 9
    case UndoSet => 10
    case CleanupSet => 11
    case Ping(_) => 13
    case Response(_, _, _, _) => 18
  }

  /** Close and TestSet do not leave the stream at their own end; the others are framed. */
  predicate FramedKind(b: Body) {
    !b.Close? && !b.TestSet?
  }

  datatype Pdu = Pdu(header: PduHeader, body: Body)

  /** `PDUUnpackError` and `UnsupportedPDUError`. */
  datatype PduError = UnpackError | UnsupportedError

  // The optional context.

  predicate ContextFits(h: PduHeader, context: Option<OctetString>) {
    context.Some? == h.NonDefaultContext() && (context.Some? ==> context.value.WellFormed())
  }

  function ContextBytes(context: Option<OctetString>, e: Endian): seq<Byte>
    requires context.Some? ==> context.value.WellFormed()
  {
    match context
    case None => []
    case Some(s) => s.ToBytes(e)
  }

  function ReadContext(h: PduHeader, bs: seq<Byte>): Parsed<Option<OctetString>> {
    if !h.NonDefaultContext() then Ok((None, bs))
    else
      match ReadOctets(bs, h.Endianness())
      case Raised(error) => Raised(error)
      case Ok((s, rest)) => Ok((Some(s), rest))
  }

  lemma ReadContextExact(h: PduHeader, bs: seq<Byte>, context: Option<OctetString>, rest: seq<Byte>)
    ensures ReadContext(h, bs) == Ok((context, rest))
            <==> ContextFits(h, context) && bs == ContextBytes(context, h.Endianness()) + rest
  {
    if context.Some? {
      ReadOctetsExact(bs, h.Endianness(), context.value, rest);
    } else {
      assert [] + rest == rest;
    }
  }

  // Open.

  function OpenBytes(b: Body, e: Endian): seq<Byte>
    requires b.Open? && b.oid.WellFormed() && b.descr.WellFormed()
  {
    ([b.timeout] + b.reserved3) + (b.oid.ToBytes(e) + b.descr.ToBytes(e))
  }

  predicate OpenFits(b: Body) {
    b.Open? && |b.reserved3| == 3 && b.oid.WellFormed() && b.descr.WellFormed()
  }

  function ReadOpen(bs: seq<Byte>, e: Endian): Parsed<Body> {
    match ReadRaw(bs, 4)
    case Raised(error) => Raised(error)
    case Ok((head, afterHead)) =>
      match ReadOid(afterHead, e)
      case Raised(error) => Raised(error)
      case Ok((oid, afterOid)) =>
        match ReadOctets(afterOid, e)
        case Raised(error) => Raised(error)
        case Ok((descr, rest)) => Ok((Open(head[0], head[1..], oid, descr), rest))
  }

  lemma Regroup3<T>(a: seq<T>, b: seq<T>, c: seq<T>, rest: seq<T>)
    ensures (a + (b + c)) + rest == a + (b + (c + rest))
  {
  }

  lemma ReadOpenExact(bs: seq<Byte>, e: Endian, b: Body, rest: seq<Byte>)
    ensures ReadOpen(bs, e) == Ok((b, rest)) <==> OpenFits(b) && bs == OpenBytes(b, e) + rest
  {
    if ReadOpen(bs, e) == Ok((b, rest)) {
      var (head, afterHead) := ReadRaw(bs, 4).value;
      var afterOid := ReadOid(afterHead, e).value.1;
      assert head == [b.timeout] + b.reserved3;
      ReadRawExact(bs, 4, head, afterHead);
      ReadOidExact(afterHead, e, b.oid, afterOid);
      ReadOctetsExact(afterOid, e, b.descr, rest);
      Regroup3(head, b.oid.ToBytes(e), b.descr.ToBytes(e), rest);
    }
    if OpenFits(b) && bs == OpenBytes(b, e) + rest {
      var head, oid, descr := [b.timeout] + b.reserved3, b.oid.ToBytes(e), b.descr.ToBytes(e);
      Regroup3(head, oid, descr, rest);
      ReadRawExact(bs, 4, head, oid + (descr + rest));
      ReadOidExact(oid + (descr + rest), e, b.oid, descr + rest);
      ReadOctetsExact(descr + rest, e, b.descr, rest);
      assert head[1..] == b.reserved3;
    }
  }

  // Register: the upper bound is present only when the range sub-id is not zero.

  predicate RegisterFits(h: PduHeader, b: Body) {
    && b.Register? && ContextFits(h, b.context) && b.subtree.WellFormed()
    && b.upperBound.Some? == (b.rangeSubid != 0)
    && (b.upperBound.Some? ==> b.upperBound.value < UINT32)
  }

  function BoundBytes(bound: Option<nat>, e: Endian): seq<Byte>
    requires bound.Some? ==> bound.value < UINT32
  {
    match bound
    case None => []
    case Some(n) => Pack(e, n, 4)
  }

  function ReadBound(present: bool, bs: seq<Byte>, e: Endian): Parsed<Option<nat>> {
    if !present then Ok((None, bs))
    else if |bs| < 4 then Raised(StructError)
    else Ok((Some(Unpack(e, bs[..4])), bs[4..]))
  }

  lemma ReadBoundExact(present: bool, bs: seq<Byte>, e: Endian, bound: Option<nat>, rest: seq<Byte>)
    ensures ReadBound(present, bs, e) == Ok((bound, rest))
            <==> && bound.Some? == present && (bound.Some? ==> bound.value < UINT32)
                 && bs == BoundBytes(bound, e) + rest
  {
    if bound.Some? && bound.value < UINT32 {
      CutExact(bs, Pack(e, bound.value, 4), rest);
      if |bs| >= 4 {
        FieldExact(bs, e, bound.value, 4);
      }
    } else if bound.None? {
      assert [] + rest == rest;
    }
  }

  function RegisterHead(b: Body): seq<Byte>
    requires b.Register?
  {
    [b.timeout, b.priority, b.rangeSubid, b.rangeReserved]
  }

  function RegisterBytes(b: Body, e: Endian): seq<Byte>
    requires b.Register? && b.subtree.WellFormed()
    requires b.context.Some? ==> b.context.value.WellFormed()
    requires b.upperBound.Some? ==> b.upperBound.value < UINT32
  {
    ContextBytes(b.context, e) + (RegisterHead(b) + (b.subtree.ToBytes(e) + BoundBytes(b.upperBound, e)))
  }

  function ReadRegister(h: PduHeader, bs: seq<Byte>): Parsed<Body> {
    var e := h.Endianness();
    match ReadContext(h, bs)
    case Raised(error) => Raised(error)
    case Ok((context, afterContext)) =>
      match ReadRaw(afterContext, 4)
      case Raised(error) => Raised(error)
      case Ok((head, afterHead)) =>
        match ReadOid(afterHead, e)
        case Raised(error) => Raised(error)
        case Ok((subtree, afterOid)) =>
          match ReadBound(head[2] != 0, afterOid, e)
          case Raised(error) => Raised(error)
          case Ok((bound, rest)) =>
            Ok((Register(context, head[0], head[1], head[2], head[3], subtree, bound), rest))
  }

  lemma ReadRegisterExact(h: PduHeader, bs: seq<Byte>, b: Body, rest: seq<Byte>)
    ensures ReadRegister(h, bs) == Ok((b, rest))
            <==> RegisterFits(h, b) && bs == RegisterBytes(b, h.Endianness()) + rest
  {
    if ReadRegister(h, bs) == Ok((b, rest)) {
      RegisterDecoded(h, bs, b, rest);
    }
    if RegisterFits(h, b) && bs == RegisterBytes(b, h.Endianness()) + rest {
      RegisterEncoded(h, b, rest);
    }
  }

  lemma RegisterDecoded(h: PduHeader, bs: seq<Byte>, b: Body, rest: seq<Byte>)
    requires ReadRegister(h, bs) == Ok((b, rest))
    ensures RegisterFits(h, b) && bs == RegisterBytes(b, h.Endianness()) + rest
  {
    var e := h.Endianness();
    var afterContext := ReadContext(h, bs).value.1;
    var (head, afterHead) := ReadRaw(afterContext, 4).value;
    var afterOid := ReadOid(afterHead, e).value.1;
    assert head == RegisterHead(b);
    ReadContextExact(h, bs, b.context, afterContext);
    ReadRawExact(afterContext, 4, head, afterHead);
    ReadOidExact(afterHead, e, b.subtree, afterOid);
    ReadBoundExact(b.rangeSubid != 0, afterOid, e, b.upperBound, rest);
    RegisterRegroup(b, e, rest);
  }

  lemma RegisterEncoded(h: PduHeader, b: Body, rest: seq<Byte>)
    requires RegisterFits(h, b)
    ensures ReadRegister(h, RegisterBytes(b, h.Endianness()) + rest) == Ok((b, rest))
  {
    var e := h.Endianness();
    var head, oid, bound := RegisterHead(b), b.subtree.ToBytes(e), BoundBytes(b.upperBound, e);
    RegisterRegroup(b, e, rest);
    ReadContextExact(h, RegisterBytes(b, e) + rest, b.context, head + (oid + (bound + rest)));
    ReadRawExact(head + (oid + (bound + rest)), 4, head, oid + (bound + rest));
    ReadOidExact(oid + (bound + rest), e, b.subtree, bound + rest);
    ReadBoundExact(b.rangeSubid != 0, bound + rest, e, b.upperBound, rest);
  }

  lemma RegisterRegroup(b: Body, e: Endian, rest: seq<Byte>)
    requires b.Register? && b.subtree.WellFormed()
    requires b.context.Some? ==> b.context.value.WellFormed()
    requires b.upperBound.Some? ==> b.upperBound.value < UINT32
    ensures RegisterBytes(b, e) + rest
            == ContextBytes(b.context, e)
               + (RegisterHead(b) + (b.subtree.ToBytes(e) + (BoundBytes(b.upperBound, e) + rest)))
  {
    var context, head, oid, bound :=
      ContextBytes(b.context, e), RegisterHead(b), b.subtree.ToBytes(e), BoundBytes(b.upperBound, e);
    Regroup(context, head + (oid + bound), rest);
    Regroup3(head, oid, bound, rest);
  }

  // Get and GetNext: a context, then search ranges until the budget is used up.

  predicate RequestFits(h: PduHeader, context: Option<OctetString>, sr: seq<SearchRange>) {
    ContextFits(h, context) && All(RangeCheck(), sr)
  }

  function RequestBytes(context: Option<OctetString>, sr: seq<SearchRange>, e: Endian): seq<Byte>
    requires context.Some? ==> context.value.WellFormed()
  {
    ContextBytes(context, e) + Concat(RangeEncoder(e), sr)
  }

  function ReadRequest(h: PduHeader, bs: seq<Byte>): Parsed<(Option<OctetString>, seq<SearchRange>)> {
    match ReadContext(h, bs)
    case Raised(error) => Raised(error)
    case Ok((context, afterContext)) =>
      RangeCodec(h.Endianness());
      match ReadMany(RangeReader(h.Endianness()), afterContext, h.payloadLength)
      case Raised(error) => Raised(error)
      case Ok((sr, rest)) => Ok(((context, sr), rest))
  }

  lemma ReadRequestExact(h: PduHeader, bs: seq<Byte>, context: Option<OctetString>, sr: seq<SearchRange>,
                         rest: seq<Byte>)
    ensures ReadRequest(h, bs) == Ok(((context, sr), rest))
            <==> && RequestFits(h, context, sr) && bs == RequestBytes(context, sr, h.Endianness()) + rest
                 && Stops(RangeEncoder(h.Endianness()), sr, h.payloadLength, rest != [])
  {
    var e := h.Endianness();
    var read, encode, check := RangeReader(e), RangeEncoder(e), RangeCheck();
    RangeCodec(e);
    if ReadRequest(h, bs) == Ok(((context, sr), rest)) {
      var afterContext := ReadContext(h, bs).value.1;
      ReadContextExact(h, bs, context, afterContext);
      ReadManyExact(read, encode, check, afterContext, h.payloadLength, sr, rest);
      Regroup(ContextBytes(context, e), Concat(encode, sr), rest);
    }
    if RequestFits(h, context, sr) && bs == RequestBytes(context, sr, e) + rest {
      Regroup(ContextBytes(context, e), Concat(encode, sr), rest);
      ReadContextExact(h, bs, context, Concat(encode, sr) + rest);
      ReadManyExact(read, encode, check, Concat(encode, sr) + rest, h.payloadLength, sr, rest);
    }
  }

  // Response: three numbers, then variable bindings until the budget is used up.

  predicate ResponseFits(b: Body) {
    b.Response? && b.sysUpTime < UINT32 && b.error < UINT16 && b.index < UINT16 && All(VarBindCheck(), b.values)
  }

  function ResponseHead(sysUpTime: nat, error: nat, index: nat, e: Endian): (bs: seq<Byte>)
    requires sysUpTime < UINT32 && error < UINT16 && index < UINT16
    ensures |bs| == 8
  {
    Pack(e, sysUpTime, 4) + TagBytes(error, index, e)
  }

  function ReadHead(bs: seq<Byte>, e: Endian): Parsed<(nat, nat, nat)> {
    match ReadRaw(bs, 8)
    case Raised(error) => Raised(error)
    case Ok((head, rest)) => Ok(((Unpack(e, head[..4]), Unpack(e, head[4..6]), Unpack(e, head[6..8])), rest))
  }

  lemma ReadHeadExact(bs: seq<Byte>, e: Endian, sysUpTime: nat, error: nat, index: nat, rest: seq<Byte>)
    ensures ReadHead(bs, e) == Ok(((sysUpTime, error, index), rest))
            <==> && sysUpTime < UINT32 && error < UINT16 && index < UINT16
                 && bs == ResponseHead(sysUpTime, error, index, e) + rest
  {
    if |bs| >= 8 {
      ResponseHeadExact(bs[..8], e, sysUpTime, error, index);
    }
    if sysUpTime < UINT32 && error < UINT16 && index < UINT16 {
      ReadRawExact(bs, 8, ResponseHead(sysUpTime, error, index, e), rest);
    }
  }

  lemma ResponseHeadExact(bs: seq<Byte>, e: Endian, sysUpTime: nat, error: nat, index: nat)
    requires |bs| == 8
    ensures Unpack(e, bs[..4]) == sysUpTime && Unpack(e, bs[4..6]) == error && Unpack(e, bs[6..8]) == index
            <==> && sysUpTime < UINT32 && error < UINT16 && index < UINT16
                 && bs == ResponseHead(sysUpTime, error, index, e)
  {
    var high := bs[4..];
    assert high[..2] == bs[4..6] && high[2..4] == bs[6..8];
    if sysUpTime < UINT32 && error < UINT16 && index < UINT16 {
      FieldExact(bs, e, sysUpTime, 4);
      TagExact(high, e, error, index);
      StartsWithTwo(bs, Pack(e, sysUpTime, 4), TagBytes(error, index, e));
    }
  }

  function ResponseBytes(b: Body, e: Endian): seq<Byte>
    requires b.Response? && b.sysUpTime < UINT32 && b.error < UINT16 && b.index < UINT16
  {
    ResponseHead(b.sysUpTime, b.error, b.index, e) + Concat(VarBindEncoder(e), b.values)
  }

  function ReadResponse(h: PduHeader, bs: seq<Byte>): Parsed<Body> {
    var e := h.Endianness();
    match ReadHead(bs, e)
    case Raised(error) => Raised(error)
    case Ok(((sysUpTime, error, index), afterHead)) =>
      VarBindCodec(e);
      match ReadMany(VarBindReader(e), afterHead, h.payloadLength - 8)
      case Raised(error) => Raised(error)
      case Ok((values, rest)) => Ok((Response(sysUpTime, error, index, values), rest))
  }

  lemma ReadResponseExact(h: PduHeader, bs: seq<Byte>, b: Body, rest: seq<Byte>)
    ensures ReadResponse(h, bs) == Ok((b, rest))
            <==> && ResponseFits(b) && bs == ResponseBytes(b, h.Endianness()) + rest
                 && Stops(VarBindEncoder(h.Endianness()), b.values, h.payloadLength - 8, rest != [])
  {
    var e := h.Endianness();
    var read, encode, check := VarBindReader(e), VarBindEncoder(e), VarBindCheck();
    VarBindCodec(e);
    if ReadResponse(h, bs) == Ok((b, rest)) {
      var afterHead := ReadHead(bs, e).value.1;
      ReadHeadExact(bs, e, b.sysUpTime, b.error, b.index, afterHead);
      ReadManyExact(read, encode, check, afterHead, h.payloadLength - 8, b.values, rest);
      Regroup(ResponseHead(b.sysUpTime, b.error, b.index, e), Concat(encode, b.values), rest);
    }
    if ResponseFits(b) && bs == ResponseBytes(b, e) + rest {
      Regroup(ResponseHead(b.sysUpTime, b.error, b.index, e), Concat(encode, b.values), rest);
      ReadHeadExact(bs, e, b.sysUpTime, b.error, b.index, Concat(encode, b.values) + rest);
      ReadManyExact(read, encode, check, Concat(encode, b.values) + rest, h.payloadLength - 8, b.values, rest);
    }
  }
}
