/**
 The PDU objects at work: constructors that chomp fields off their trailing bytes, the stream iterator,
 and the responses built by looking search ranges up in a MIB table. Each method is tied to the
 decoding functions of PduStream, so what is proved there holds of the objects.
 */
module PduObjects {
  import opened Results
  import opened Encodings
  import opened Pdu
  import opened PduStream
  import opened MibIndex

  /** A chomp gives what the reading function gives; when it raises, the object is abandoned. */
  ghost predicate Chomped<T>(spec: Parsed<T>, r: Result<T, CodecError>, trailing: seq<Byte>) {
    match spec
    case Raised(error) => r == Raised(error)
    case Ok((x, rest)) => r == Ok(x) && trailing == rest
  }

  /** What a reading loop has still to deliver, given what it has collected. */
  ghost function After<T>(got: seq<T>, later: Parsed<seq<T>>): Parsed<seq<T>> {
    match later
    case Raised(error) => Raised(error)
    case Ok((xs, rest)) => Ok((got + xs, rest))
  }

  lemma AfterMore<T>(read: seq<Byte> -> Parsed<T>, got: seq<T>, bs: seq<Byte>, budget: int)
    requires Shrinking(read) && bs != [] && budget > 0
    ensures match read(bs)
            case Raised(error) => After(got, ReadMany(read, bs, budget)) == Raised(error)
            case Ok((x, rest)) =>
              After(got, ReadMany(read, bs, budget))
              == After(got + [x], ReadMany(read, rest, budget - (|bs| - |rest|)))
  {
    if read(bs).Ok? {
      var (x, rest) := read(bs).value;
      var later := ReadMany(read, rest, budget - (|bs| - |rest|));
      if later.Ok? {
        assert got + ([x] + later.value.0) == (got + [x]) + later.value.0;
      }
    }
  }

  lemma AfterDone<T>(read: seq<Byte> -> Parsed<T>, got: seq<T>, bs: seq<Byte>, budget: int)
    requires Shrinking(read) && (bs == [] || budget <= 0)
    ensures After(got, ReadMany(read, bs, budget)) == Ok((got, bs))
  {
    assert got + [] == got;
  }

  lemma AfterNone<T>(later: Parsed<seq<T>>)
    ensures After([], later) == later
  {
    if later.Ok? {
      assert [] + later.value.0 == later.value.0;
    }
  }

  class PduObject {
    const header: PduHeader
    var trailing: seq<Byte>

    constructor (header: PduHeader, payload: seq<Byte>)
      ensures this.header == header && trailing == payload
    {
      this.header := header;
      trailing := payload;
    }

    method ChompRaw(n: nat) returns (r: Result<seq<Byte>, CodecError>)
      modifies this
      ensures Chomped(ReadRaw(old(trailing), n), r, trailing)
    {
      if |trailing| < n {
        return Raised(StructError);
      }
      r := Ok(trailing[..n]);
      trailing := trailing[n..];
    }

    method ChompOid() returns (r: Result<ObjectIdentifier, CodecError>)
      modifies this
      ensures Chomped(ReadOid(old(trailing), header.Endianness()), r, trailing)
    {
      r := OidFromBytes(trailing, header.Endianness());
      if r.Ok? {
        trailing := Drop(trailing, r.value.Size());
      }
    }

    method ChompOctets() returns (r: Result<OctetString, CodecError>)
      modifies this
      ensures Chomped(ReadOctets(old(trailing), header.Endianness()), r, trailing)
    {
      r := OctetsFromBytes(trailing, header.Endianness());
      if r.Ok? {
        trailing := Drop(trailing, r.value.Size());
      }
    }

    /** The optional context of a `ContextOptionalPDU`. */
    method ChompContext() returns (r: Result<Option<OctetString>, CodecError>)
      modifies this
      ensures Chomped(ReadContext(header, old(trailing)), r, trailing)
    {
      if !header.NonDefaultContext() {
        return Ok(None);
      }
      var s := ChompOctets();
      match s
      case Raised(error) => return Raised(error);
      case Ok(context) => return Ok(Some(context));
    }

    /** The reading loop: items are chomped while bytes remain and the budget is not used up. */
    method ChompMany<T>(read: seq<Byte> -> Parsed<T>, budget: int) returns (r: Result<seq<T>, CodecError>)
      requires Shrinking(read)
      modifies this
      ensures Chomped(ReadMany(read, old(trailing), budget), r, trailing)
    {
      ghost var goal := ReadMany(read, trailing, budget);
      var items: seq<T> := [];
      var bytesRead := 0;
      AfterNone(goal);
      while trailing != [] && bytesRead < budget
        invariant After(items, ReadMany(read, trailing, budget - bytesRead)) == goal
        decreases |trailing|
      {
        AfterMore(read, items, trailing, budget - bytesRead);
        match read(trailing) {
          case Raised(error) => return Raised(error);
          case Ok((item, rest)) =>
            bytesRead := bytesRead + (|trailing| - |rest|);
            items := items + [item];
            trailing := rest;
        }
      }
      AfterDone(read, items, trailing, budget - bytesRead);
      return Ok(items);
    }

    /** `GetPDU`'s loop over search ranges. */
    method ChompRanges() returns (r: Result<seq<SearchRange>, CodecError>)
      modifies this
      ensures Shrinking(RangeReader(header.Endianness()))
      ensures Chomped(ReadMany(RangeReader(header.Endianness()), old(trailing), header.payloadLength), r, trailing)
    {
      RangeCodec(header.Endianness());
      r := ChompMany(RangeReader(header.Endianness()), header.payloadLength);
    }

    /** `ResponsePDU`'s loop over variable bindings, and `TestSetPDU`'s with the whole buffer as budget. */
    method ChompVarBinds(budget: int) returns (r: Result<seq<VarBind>, CodecError>)
      modifies this
      ensures Shrinking(VarBindReader(header.Endianness()))
      ensures Chomped(ReadMany(VarBindReader(header.Endianness()), old(trailing), budget), r, trailing)
    {
      VarBindCodec(header.Endianness());
      r := ChompMany(VarBindReader(header.Endianness()), budget);
    }

    method ParseOpen() returns (r: Result<Body, CodecError>)
      modifies this
      ensures Chomped(ReadOpen(old(trailing), header.Endianness()), r, trailing)
    {
      var head := ChompRaw(4);
      if head.Raised? { return Raised(head.error); }
      var oid := ChompOid();
      if oid.Raised? { return Raised(oid.error); }
      var descr := ChompOctets();
      if descr.Raised? { return Raised(descr.error); }
      return Ok(Open(head.value[0], head.value[1..], oid.value, descr.value));
    }

    method ParseRegister() returns (r: Result<Body, CodecError>)
      modifies this
      ensures Chomped(ReadRegister(header, old(trailing)), r, trailing)
    {
      var context := ChompContext();
      if context.Raised? { return Raised(context.error); }
      var head := ChompRaw(4);
      if head.Raised? { return Raised(head.error); }
      var subtree := ChompOid();
      if subtree.Raised? { return Raised(subtree.error); }
      var bound := None;
      if head.value[2] != 0 {
        var raw := ChompRaw(4);
        if raw.Raised? { return Raised(raw.error); }
        bound := Some(Unpack(header.Endianness(), raw.value));
      }
      return Ok(Register(context.value, head.value[0], head.value[1], head.value[2], head.value[3],
                         subtree.value, bound));
    }

    method ParseRequest() returns (r: Result<(Option<OctetString>, seq<SearchRange>), CodecError>)
      modifies this
      ensures Chomped(ReadRequest(header, old(trailing)), r, trailing)
    {
      var context := ChompContext();
      if context.Raised? { return Raised(context.error); }
      var sr := ChompRanges();
      if sr.Raised? { return Raised(sr.error); }
      return Ok((context.value, sr.value));
    }

    method ParseResponse() returns (r: Result<Body, CodecError>)
      modifies this
      ensures Chomped(ReadResponse(header, old(trailing)), r, trailing)
    {
      var e := header.Endianness();
      var head := ChompRaw(8);
      if head.Raised? { return Raised(head.error); }
      var values := ChompVarBinds(header.payloadLength - 8);
      if values.Raised? { return Raised(values.error); }
      return Ok(Response(Unpack(e, head.value[..4]), Unpack(e, head.value[4..6]), Unpack(e, head.value[6..8]),
                         values.value));
    }

    method ParseTestSet() returns (r: Result<Body, CodecError>)
      modifies this
      ensures Chomped(ReadTestSet(header, old(trailing)), r, trailing)
    {
      var context := ChompContext();
      if context.Raised? { return Raised(context.error); }
      var values := ChompVarBinds(|trailing|);
      if values.Raised? { return Raised(values.error); }
      return Ok(TestSet(context.value));
    }

    /** The constructor registered for the header's type; None when there is none. */
    method ParseBody() returns (r: Option<Result<Body, CodecError>>)
      modifies this
      ensures match ReadBody(header, old(trailing))
              case None => r == None
              case Some(spec) => r.Some? && Chomped(spec, r.value, trailing)
    {
      var b: Result<Body, CodecError>;
      match header.type_ {
      case 1 => b := ParseOpen();
      case 2 =>
        if |trailing| < 4 {
          b := Raised(StructError);
        } else {
          b := Ok(Close(trailing[0], trailing[1..4]));
        }
      case 3 => b := ParseRegister();
      case 5 =>
        var request := ParseRequest();
        b := if request.Ok? then Ok(Get(request.value.0, request.value.1)) else Raised(request.error);
      case 6 =>
        var request := ParseRequest();
        b := if request.Ok? then Ok(GetNext(request.value.0, request.value.1)) else Raised(request.error);
      case 8 => b := ParseTestSet();
      case 9 => b := Ok(CommitSet);
      case 10 => b := Ok(UndoSet);
      case 11 => b := Ok(CleanupSet);
      case 13 =>
        var context := ChompContext();
        b := if context.Ok? then Ok(Ping(context.value)) else Raised(context.error);
      case 18 => b := ParseResponse();
      case _ => return None;
      }
      return Some(b);
    }
  }

  method Decode(bs: seq<Byte>) returns (r: Result<(Pdu, seq<Byte>), PduError>)
    ensures r == DecodePdu(bs)
  {
    if |bs| < HEADER_LENGTH {
      return Raised(UnpackError);
    }
    var h := HeaderFromBytes(bs);
    var pdu := new PduObject(h, bs[HEADER_LENGTH..]);
    var body := pdu.ParseBody();
    match body
    case None => return Raised(UnsupportedError);
    case Some(Raised(_)) => return Raised(UnpackError);
    case Some(Ok(b)) => return Ok((Pdu(if b.Close? then h.(payloadLength := 4) else h, b), pdu.trailing));
  }

  /** What a stream yields in all, given what it has yielded and the data left. */
  ghost function Onward(pdus: seq<Pdu>, left: seq<Byte>): (seq<Pdu>, Option<PduError>) {
    (pdus + StreamOf(left).0, StreamOf(left).1)
  }

  lemma OnwardStep(pdus: seq<Pdu>, left: seq<Byte>)
    requires left != [] && DecodePdu(left).Ok?
    ensures var (p, rest) := DecodePdu(left).value;
            |rest| < |left| && Onward(pdus, left) == Onward(pdus + [p], rest)
  {
    DecodeShrinks(left);
    var (p, rest) := DecodePdu(left).value;
    assert pdus + ([p] + StreamOf(rest).0) == (pdus + [p]) + StreamOf(rest).0;
  }

  lemma OnwardEnd(pdus: seq<Pdu>, left: seq<Byte>)
    requires left == [] || DecodePdu(left).Raised?
    ensures Onward(pdus, left) == (pdus, if left == [] then None else Some(DecodePdu(left).error))
  {
    assert pdus + [] == pdus;
  }

  lemma OnwardStart(data: seq<Byte>)
    ensures Onward([], data) == StreamOf(data)
  {
    assert [] + StreamOf(data).0 == StreamOf(data).0;
  }

  /** Iterating a `PDUStream`: PDUs until the data is used up or one does not decode. */
  method ReadStream(data: seq<Byte>) returns (pdus: seq<Pdu>, error: Option<PduError>)
    ensures (pdus, error) == StreamOf(data)
  {
    pdus := [];
    var left := data;
    OnwardStart(data);
    while left != []
      invariant Onward(pdus, left) == StreamOf(data)
      decreases |left|
    {
      var r := Decode(left);
      if r.Raised? {
        OnwardEnd(pdus, left);
        return pdus, Some(r.error);
      }
      OnwardStep(pdus, left);
      pdus := pdus + [r.value.0];
      left := r.value.1;
    }
    OnwardEnd(pdus, left);
    return pdus, None;
  }

  // ----- responses -----

  predicate AllWellFormed(values: seq<VarBind>) {
    forall i :: 0 <= i < |values| ==> values[i].WellFormed()
  }

  /** The response a subagent constructs; its payload length is computed by encoding it. */
  function ResponseWith(h: PduHeader, values: seq<VarBind>): Pdu {
    Pdu(h.(type_ := 18, payloadLength := 8 + |Concat(VarBindEncoder(h.Endianness()), values)|),
        Response(0, 0, 0, values))
  }

  /** `GetPDU.make_response`. */
  method MakeGetResponse(t: MibTable, h: PduHeader, sr: seq<SearchRange>) returns (r: Result<Pdu, CodecError>)
    requires t.Valid()
    ensures match r
            case Raised(_) => exists i :: 0 <= i < |sr| && !Encodable(t.Get(sr[i]))
            case Ok(p) => && p.body.Response? && |p.body.values| == |sr| && p == ResponseWith(h, p.body.values)
                          && AllWellFormed(p.body.values)
                          && forall i :: 0 <= i < |sr| ==> t.Get(sr[i]) == Ok(p.body.values[i])
  {
    var values: seq<VarBind> := [];
    for i := 0 to |sr|
      invariant |values| == i && AllWellFormed(values)
      invariant forall j :: 0 <= j < i ==> t.Get(sr[j]) == Ok(values[j])
    {
      var vr := t.Get(sr[i]);
      if !Encodable(vr) {
        return Raised(if vr.Raised? then vr.error else StructError);
      }
      values := values + [vr.value];
    }
    return Ok(ResponseWith(h, values));
  }

  /** The looked-up binding exists and every field of it fits the format it is packed with. */
  predicate Encodable(vr: Result<VarBind, CodecError>) {
    vr.Ok? && vr.value.WellFormed()
  }

  method LookNext(t: MibTable, sr: SearchRange) returns (vr: Result<VarBind, CodecError>)
    requires t.Valid()
    ensures vr == t.NextBinding(sr)
  {
    vr := t.GetNext(sr);
  }

  /** `GetNextPDU.make_response`. */
  method MakeGetNextResponse(t: MibTable, h: PduHeader, sr: seq<SearchRange>) returns (r: Result<Pdu, CodecError>)
    requires t.Valid()
    ensures match r
            case Raised(_) => exists i :: 0 <= i < |sr| && !Encodable(t.NextBinding(sr[i]))
            case Ok(p) => && p.body.Response? && |p.body.values| == |sr| && p == ResponseWith(h, p.body.values)
                          && AllWellFormed(p.body.values)
                          && forall i :: 0 <= i < |sr| ==> t.NextBinding(sr[i]) == Ok(p.body.values[i])
  {
    var values: seq<VarBind> := [];
    for i := 0 to |sr|
      invariant |values| == i && AllWellFormed(values)
      invariant forall j :: 0 <= j < i ==> t.NextBinding(sr[j]) == Ok(values[j])
    {
      var vr := LookNext(t, sr[i]);
      if !Encodable(vr) {
        return Raised(if vr.Raised? then vr.error else StructError);
      }
      values := values + [vr.value];
    }
    return Ok(ResponseWith(h, values));
  }

  function ReducedAll(values: seq<VarBind>): seq<VarBind> {
    if values == [] then [] else [values[0].Reduced()] + ReducedAll(values[1..])
  }

  lemma {:induction false} ReducedAllSame(values: seq<VarBind>, e: Endian)
    requires AllWellFormed(values)
    ensures |ReducedAll(values)| == |values| && All(VarBindCheck(), ReducedAll(values))
    ensures Concat(VarBindEncoder(e), ReducedAll(values)) == Concat(VarBindEncoder(e), values)
  {
    if values != [] {
      var v, tail := values[0], values[1..];
      ReducedSameBytes(v, e);
      ReducedAllSame(tail, e);
      AllStep(VarBindCheck(), v.Reduced(), ReducedAll(tail));
      assert ReducedAll(values)[1..] == ReducedAll(tail);
    }
  }

  /**
   The bytes of a constructed response, wherever they stand in a stream, decode to the response with its
   integers reduced to their wire width, and the stream goes on after it.
   */
  lemma ResponseDelivered(h: PduHeader, values: seq<VarBind>, rest: seq<Byte>)
    requires AllWellFormed(values) && ResponseWith(h, values).header.WellFormed()
    ensures var sent := ResponseWith(h, ReducedAll(values));
            && Framed(sent) && sent.header == ResponseWith(h, values).header
            && Encode(sent) == ResponseWith(h, values).header.ToBytes()
                               + (ResponseHead(0, 0, 0, h.Endianness()) + Concat(VarBindEncoder(h.Endianness()), values))
            && DecodePdu(Encode(sent) + rest) == Ok((sent, rest))
  {
    var e := h.Endianness();
    ReducedAllSame(values, e);
    var sent := ResponseWith(h, ReducedAll(values));
    assert sent.header.Endianness() == e;
    HeaderLength(sent.header);
    RightLengthFits(sent, rest != []);
    DecodeExact(Encode(sent) + rest, sent, rest);
  }
}
