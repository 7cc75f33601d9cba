/**
 Decoding one PDU, and a stream of them until no bytes are left, as functions; the objects that do it are
 tied to these in PduObjects. Decoding is exact for every framed PDU, so a stream of well-formed PDUs in
 any mix of byte orders comes back as the list that was sent.
 */
module PduStream {
  import opened Results
  import opened Encodings
  import opened Pdu

  // ----- one PDU -----

  predicate BodyFits(h: PduHeader, b: Body)
    requires FramedKind(b)
  {
    match b
    case Open(_, _, _, _) => OpenFits(b)
    case Register(_, _, _, _, _, _, _) => RegisterFits(h, b)
    case Get(context, sr) => RequestFits(h, context, sr)
    case GetNext(context, sr) => RequestFits(h, context, sr)
    case Ping(context) => ContextFits(h, context)
    case Response(_, _, _, _) => ResponseFits(b)
    case _ => true
  }

  function BodyBytes(h: PduHeader, b: Body): seq<Byte>
    requires FramedKind(b) && BodyFits(h, b)
  {
    var e := h.Endianness();
    match b
    case Open(_, _, _, _) => OpenBytes(b, e)
    case Register(_, _, _, _, _, _, _) => RegisterBytes(b, e)
    case Get(context, sr) => RequestBytes(context, sr, e)
    case GetNext(context, sr) => RequestBytes(context, sr, e)
    case Ping(context) => ContextBytes(context, e)
    case Response(_, _, _, _) => ResponseBytes(b, e)
    case _ => []
  }

  /** The header's payload length stops the reading loop where the PDU ends, given what follows it. */
  predicate BudgetFits(h: PduHeader, b: Body, more: bool) {
    match b
    case Get(_, sr) => Stops(RangeEncoder(h.Endianness()), sr, h.payloadLength, more)
    case GetNext(_, sr) => Stops(RangeEncoder(h.Endianness()), sr, h.payloadLength, more)
    case Response(_, _, _, values) => Stops(VarBindEncoder(h.Endianness()), values, h.payloadLength - 8, more)
    case _ => true
  }

  function ReadClose(bs: seq<Byte>): Parsed<Body> {
    if |bs| < 4 then Raised(StructError) else Ok((Close(bs[0], bs[1..4]), bs))
  }

  function ReadGet(h: PduHeader, bs: seq<Byte>): Parsed<Body> {
    match ReadRequest(h, bs)
    case Raised(error) => Raised(error)
    case Ok(((context, sr), rest)) => Ok((Get(context, sr), rest))
  }

  function ReadGetNext(h: PduHeader, bs: seq<Byte>): Parsed<Body> {
    match ReadRequest(h, bs)
    case Raised(error) => Raised(error)
    case Ok(((context, sr), rest)) => Ok((GetNext(context, sr), rest))
  }

  function ReadPing(h: PduHeader, bs: seq<Byte>): Parsed<Body> {
    match ReadContext(h, bs)
    case Raised(error) => Raised(error)
    case Ok((context, rest)) => Ok((Ping(context), rest))
  }

  /** TestSet reads variable bindings to the end of the buffer and keeps none of them. */
  function ReadTestSet(h: PduHeader, bs: seq<Byte>): Parsed<Body> {
    match ReadContext(h, bs)
    case Raised(error) => Raised(error)
    case Ok((context, afterContext)) =>
      VarBindCodec(h.Endianness());
      match ReadMany(VarBindReader(h.Endianness()), afterContext, |afterContext|)
      case Raised(error) => Raised(error)
      case Ok((_, rest)) => Ok((TestSet(context), rest))
  }

  /** The constructor the type byte selects, run on the payload; None for an unsupported type. */
  function ReadBody(h: PduHeader, bs: seq<Byte>): Option<Parsed<Body>> {
    match h.type_
    case 1 => Some(ReadOpen(bs, h.Endianness()))
    case 2 => Some(ReadClose(bs))
    case 3 => Some(ReadRegister(h, bs))
    case 5 => Some(ReadGet(h, bs))
    case 6 => Some(ReadGetNext(h, bs))
    case 8 => Some(ReadTestSet(h, bs))
    case 9 => Some(Ok((CommitSet, bs)))
    case 10 => Some(Ok((UndoSet, bs)))
    case 11 => Some(Ok((CleanupSet, bs)))
    case 13 => Some(ReadPing(h, bs))
    case 18 => Some(ReadResponse(h, bs))
    case _ => None
  }

  lemma ReadBodyExact(h: PduHeader, bs: seq<Byte>, b: Body, rest: seq<Byte>)
    requires FramedKind(b)
    ensures ReadBody(h, bs) == Some(Ok((b, rest)))
            <==> && h.type_ == TypeOf(b) && BodyFits(h, b)
                 && bs == BodyBytes(h, b) + rest && BudgetFits(h, b, rest != [])
  {
    if h.type_ == TypeOf(b) {
      TypeSelects(h, bs, b);
      ReadKindExact(h, bs, b, rest);
    } else if ReadBody(h, bs).Some? && ReadBody(h, bs).value.Ok? {
      TypeNames(h, bs);
    }
  }

  lemma TypeSelects(h: PduHeader, bs: seq<Byte>, b: Body)
    requires FramedKind(b) && h.type_ == TypeOf(b)
    ensures ReadBody(h, bs) == Some(ReadKind(h, bs, b))
  {
  }

  lemma TypeNames(h: PduHeader, bs: seq<Byte>)
    requires ReadBody(h, bs).Some? && ReadBody(h, bs).value.Ok?
    ensures h.type_ == TypeOf(ReadBody(h, bs).value.value.0)
  {
  }

  /** The constructor of `b`'s own kind. */
  function ReadKind(h: PduHeader, bs: seq<Byte>, b: Body): Parsed<Body>
    requires FramedKind(b)
  {
    match b
    case Open(_, _, _, _) => ReadOpen(bs, h.Endianness())
    case Register(_, _, _, _, _, _, _) => ReadRegister(h, bs)
    case Get(_, _) => ReadGet(h, bs)
    case GetNext(_, _) => ReadGetNext(h, bs)
    case Ping(_) => ReadPing(h, bs)
    case Response(_, _, _, _) => ReadResponse(h, bs)
    case CommitSet | UndoSet | CleanupSet => Ok((b, bs))
  }

  lemma ReadKindExact(h: PduHeader, bs: seq<Byte>, b: Body, rest: seq<Byte>)
    requires FramedKind(b)
    ensures ReadKind(h, bs, b) == Ok((b, rest))
            <==> BodyFits(h, b) && bs == BodyBytes(h, b) + rest && BudgetFits(h, b, rest != [])
  {
    match b
    case Open(_, _, _, _) => ReadOpenExact(bs, h.Endianness(), b, rest);
    case Register(_, _, _, _, _, _, _) => ReadRegisterExact(h, bs, b, rest);
    case Get(context, sr) => ReadRequestExact(h, bs, context, sr, rest);
    case GetNext(context, sr) => ReadRequestExact(h, bs, context, sr, rest);
    case Ping(context) => ReadContextExact(h, bs, context, rest);
    case Response(_, _, _, _) => ReadResponseExact(h, bs, b, rest);
    case CommitSet | UndoSet | CleanupSet => assert [] + rest == rest;
  }

  /** `PDU.decode`: the PDU at the front of the bytes, with the bytes that trail it. */
  function DecodePdu(bs: seq<Byte>): Result<(Pdu, seq<Byte>), PduError> {
    if |bs| < HEADER_LENGTH then Raised(UnpackError)
    else
      var h := HeaderFromBytes(bs);
      match ReadBody(h, bs[HEADER_LENGTH..])
      case None => Raised(UnsupportedError)
      case Some(Raised(_)) => Raised(UnpackError)
      case Some(Ok((b, rest))) => Ok((Pdu(if b.Close? then h.(payloadLength := 4) else h, b), rest))
  }

  /** A PDU whose kind is framed, whose type byte names it and whose fields fit their formats. */
  predicate Framed(p: Pdu) {
    FramedKind(p.body) && p.header.WellFormed() && p.header.type_ == TypeOf(p.body) && BodyFits(p.header, p.body)
  }

  function Encode(p: Pdu): seq<Byte>
    requires Framed(p)
  {
    p.header.ToBytes() + BodyBytes(p.header, p.body)
  }

  /**
   Decoding gives `p` and leaves `rest` exactly when the bytes are the encoding of the framed PDU `p`
   followed by `rest`, and its payload length stops its reading loop there.
   */
  lemma DecodeExact(bs: seq<Byte>, p: Pdu, rest: seq<Byte>)
    requires FramedKind(p.body)
    ensures DecodePdu(bs) == Ok((p, rest))
            <==> Framed(p) && bs == Encode(p) + rest && BudgetFits(p.header, p.body, rest != [])
  {
    var h, b := p.header, p.body;
    if |bs| >= HEADER_LENGTH {
      HeaderExact(bs, h);
      ReadBodyExact(h, bs[HEADER_LENGTH..], b, rest);
    }
    if Framed(p) {
      HeaderLength(h);
      var head, body := h.ToBytes(), BodyBytes(h, b);
      Regroup(head, body, rest);
      CutExact(bs, head, body + rest);
    }
  }

  lemma HeaderLength(h: PduHeader)
    requires h.WellFormed()
    ensures |h.ToBytes()| == HEADER_LENGTH
  {
  }

  /** Every decoded PDU leaves strictly fewer bytes: at least its header is gone. */
  lemma DecodeShrinks(bs: seq<Byte>)
    requires DecodePdu(bs).Ok?
    ensures |DecodePdu(bs).value.1| + HEADER_LENGTH <= |bs|
  {
    var (p, rest) := DecodePdu(bs).value;
    if FramedKind(p.body) {
      DecodeExact(bs, p, rest);
      HeaderLength(p.header);
    } else {
      UnframedShrinks(HeaderFromBytes(bs), bs[HEADER_LENGTH..]);
    }
  }

  lemma UnframedShrinks(h: PduHeader, bs: seq<Byte>)
    requires ReadBody(h, bs).Some? && ReadBody(h, bs).value.Ok? && !FramedKind(ReadBody(h, bs).value.value.0)
    ensures |ReadBody(h, bs).value.value.1| <= |bs|
  {
    TypeNames(h, bs);
    if h.type_ == 8 {
      TestSetShrinks(h, bs);
    }
  }

  lemma TestSetShrinks(h: PduHeader, bs: seq<Byte>)
    requires ReadTestSet(h, bs).Ok?
    ensures |ReadTestSet(h, bs).value.1| <= |bs|
  {
    var e := h.Endianness();
    var (context, afterContext) := ReadContext(h, bs).value;
    ReadContextExact(h, bs, context, afterContext);
    VarBindCodec(e);
    var (values, rest) := ReadMany(VarBindReader(e), afterContext, |afterContext|).value;
    ReadManyExact(VarBindReader(e), VarBindEncoder(e), VarBindCheck(), afterContext, |afterContext|, values, rest);
  }

  // ----- the payload length -----

  /** The header carries what the `payload_length` property computes. */
  predicate LengthRight(p: Pdu)
    requires Framed(p)
  {
    p.header.payloadLength == |Encode(p)| - HEADER_LENGTH
  }

  /**
   A PDU with the right payload length is decoded whatever follows it, unless it is a request with a
   non-default context: that one also counts its context, and is decoded only at the end of a buffer.
   */
  lemma RightLengthFits(p: Pdu, more: bool)
    requires Framed(p) && LengthRight(p)
    ensures BudgetFits(p.header, p.body, more)
            <==> !(more && (p.body.Get? || p.body.GetNext?) && p.body.context.Some?)
  {
    var h, b, e := p.header, p.body, p.header.Endianness();
    HeaderLength(h);
    match b
    case Get(context, sr) => RequestLength(h, context, sr, more);
    case GetNext(context, sr) => RequestLength(h, context, sr, more);
    case Response(_, _, _, values) =>
      VarBindCodec(e);
      StopsAtEnd(VarBindEncoder(e), VarBindCheck(), values, more);
    case _ =>
  }

  lemma StopsAtEnd<T(!new)>(encode: T -> seq<Byte>, wellFormed: T -> bool, xs: seq<T>, more: bool)
    requires All(wellFormed, xs) && forall x :: NonEmpty(encode, wellFormed, x)
    ensures Stops(encode, xs, |Concat(encode, xs)|, more)
  {
    if xs != [] {
      var front, last := xs[..|xs| - 1], xs[|xs| - 1];
      assert xs == front + [last];
      ConcatLast(encode, front, last);
      assert NonEmpty(encode, wellFormed, last);
    }
  }

  lemma {:induction false} ConcatLast<T>(encode: T -> seq<Byte>, xs: seq<T>, x: T)
    ensures Concat(encode, xs + [x]) == Concat(encode, xs) + encode(x)
  {
    if xs == [] {
      assert [] + [x] == [x] && [x][1..] == [];
    } else {
      assert (xs + [x])[1..] == xs[1..] + [x];
      ConcatLast(encode, xs[1..], x);
    }
  }

  lemma RequestLength(h: PduHeader, context: Option<OctetString>, sr: seq<SearchRange>, more: bool)
    requires RequestFits(h, context, sr) && h.payloadLength == |RequestBytes(context, sr, h.Endianness())|
    ensures Stops(RangeEncoder(h.Endianness()), sr, h.payloadLength, more) <==> !(more && context.Some?)
  {
    var e := h.Endianness();
    RangeCodec(e);
    StopsAtEnd(RangeEncoder(e), RangeCheck(), sr, more);
    if context.Some? {
      OctetsSize(context.value, e);
    }
  }

  /**
   A request built from OIDs counts its header too, twenty bytes too many. Its context being absent, it
   is decoded exactly when nothing follows it.
   */
  lemma ConstructedRequestFits(p: Pdu, more: bool)
    requires Framed(p) && (p.body.Get? || p.body.GetNext?) && p.body.context.None?
    requires p.header.payloadLength == |Encode(p)|
    ensures BudgetFits(p.header, p.body, more) <==> !more
  {
    var e := p.header.Endianness();
    HeaderLength(p.header);
    RangeCodec(e);
    StopsAtEnd(RangeEncoder(e), RangeCheck(), p.body.sr, more);
  }

  // ----- the stream -----

  /** `PDUStream` over a buffer: the PDUs it yields, and the error that ends it, if one does. */
  function StreamOf(bs: seq<Byte>): (seq<Pdu>, Option<PduError>)
    decreases |bs|
  {
    if bs == [] then ([], None)
    else
      match DecodePdu(bs)
      case Raised(error) => ([], Some(error))
      case Ok((p, rest)) =>
        DecodeShrinks(bs);
        var (ps, error) := StreamOf(rest);
        ([p] + ps, error)
  }

  predicate Streamable(p: Pdu) {
    Framed(p) && LengthRight(p) && ((p.body.Get? || p.body.GetNext?) ==> p.body.context.None?)
  }

  predicate AllStreamable(ps: seq<Pdu>) {
    forall i :: 0 <= i < |ps| ==> Streamable(ps[i])
  }

  function EncodeAll(ps: seq<Pdu>): seq<Byte>
    requires forall i :: 0 <= i < |ps| ==> Framed(ps[i])
  {
    if ps == [] then [] else Encode(ps[0]) + EncodeAll(ps[1..])
  }

  /** Any list of well-formed PDUs, in any mix of byte orders, is read back from its concatenation. */
  lemma {:induction false} StreamRoundTrip(ps: seq<Pdu>)
    requires AllStreamable(ps)
    ensures StreamOf(EncodeAll(ps)) == (ps, None)
  {
    if ps != [] {
      var p, rest := ps[0], EncodeAll(ps[1..]);
      var bs := Encode(p) + rest;
      RightLengthFits(p, rest != []);
      DecodeExact(bs, p, rest);
      HeaderLength(p.header);
      StreamRoundTrip(ps[1..]);
      assert ps == [p] + ps[1..];
    }
  }

  /** Conversely, when a stream ends without error on framed PDUs, its buffer was their concatenation. */
  lemma {:induction false} StreamIsConcatenation(bs: seq<Byte>)
    requires StreamOf(bs).1 == None
    requires forall i :: 0 <= i < |StreamOf(bs).0| ==> FramedKind(StreamOf(bs).0[i].body)
    ensures var ps := StreamOf(bs).0;
            (forall i :: 0 <= i < |ps| ==> Framed(ps[i])) && EncodeAll(ps) == bs
    decreases |bs|
  {
    if bs != [] {
      var (p, rest) := DecodePdu(bs).value;
      var ps := StreamOf(bs).0;
      DecodeShrinks(bs);
      assert ps == [p] + StreamOf(rest).0;
      assert ps[0] == p && ps[1..] == StreamOf(rest).0;
      forall i | 0 <= i < |StreamOf(rest).0| ensures FramedKind(StreamOf(rest).0[i].body) {
        assert ps[i + 1] == StreamOf(rest).0[i];
      }
      StreamIsConcatenation(rest);
      DecodeExact(bs, p, rest);
    }
  }
}
