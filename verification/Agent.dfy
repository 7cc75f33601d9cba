/**
 The agent's end of a connection, once its session is established: a buffer of requests comes in, the bytes
 of the responses go out. The decoder, the MIB table and the encoder meet here: what a master agent reads
 back from a buffer of requests, and what it has seen after walking a whole table over the wire.
 */
module Agent {
  import opened Results
  import opened OidOrder
  import opened Encodings
  import opened Pdu
  import opened PduStream
  import opened MibIndex
  import opened MibWalk
  import opened PduObjects

  // ----- one request -----

  predicate IsRequest(p: Pdu) {
    p.body.Get? || p.body.GetNext?
  }

  ghost function Looked(t: MibTable, p: Pdu, sr: SearchRange): Result<VarBind, CodecError>
    requires t.Valid()
  {
    if p.body.GetNext? then t.NextBinding(sr) else t.Get(sr)
  }

  ghost predicate AllFound(t: MibTable, p: Pdu)
    requires t.Valid() && IsRequest(p)
  {
    forall i :: 0 <= i < |p.body.sr| ==> Encodable(Looked(t, p, p.body.sr[i]))
  }

  /** One binding for each of the request's search ranges. */
  ghost function Found(t: MibTable, p: Pdu): (values: seq<VarBind>)
    requires t.Valid() && IsRequest(p) && AllFound(t, p)
    ensures AllWellFormed(values) && |values| == |p.body.sr|
    ensures forall i :: 0 <= i < |values| ==> Looked(t, p, p.body.sr[i]) == Ok(values[i])
  {
    seq(|p.body.sr|, i requires 0 <= i < |p.body.sr| => Looked(t, p, p.body.sr[i]).value)
  }

  /** A request whose response can be encoded: each binding can, and the payload length fits its field. */
  ghost predicate Answerable(t: MibTable, p: Pdu)
    requires t.Valid()
  {
    IsRequest(p) && AllFound(t, p) && ResponseWith(p.header, Found(t, p)).header.WellFormed()
  }

  function ReplyBytes(h: PduHeader, values: seq<VarBind>): seq<Byte>
    requires ResponseWith(h, values).header.WellFormed()
  {
    var e := h.Endianness();
    ResponseWith(h, values).header.ToBytes() + (ResponseHead(0, 0, 0, e) + Concat(VarBindEncoder(e), values))
  }

  /** `ResponsePDU.encode`. */
  method EncodeResponse(p: Pdu, h: PduHeader) returns (bs: Option<seq<Byte>>)
    requires p.body.Response? && p == ResponseWith(h, p.body.values)
    ensures bs == if p.header.WellFormed() then Some(ReplyBytes(h, p.body.values)) else None
  {
    if !p.header.WellFormed() {
      return None;
    }
    var e := h.Endianness();
    bs := Some(p.header.ToBytes() + (ResponseHead(0, 0, 0, e) + Concat(VarBindEncoder(e), p.body.values)));
  }

  // ----- a buffer -----

  /**
   What a buffer's PDUs make the agent write. Responses are passed over; the first PDU that warrants no
   response, or whose response cannot be encoded, raises and ends the buffer.
   */
  ghost function Written(t: MibTable, pdus: seq<Pdu>): seq<Byte>
    requires t.Valid()
  {
    if pdus == [] then []
    else if pdus[0].body.Response? then Written(t, pdus[1..])
    else if Answerable(t, pdus[0]) then ReplyBytes(pdus[0].header, Found(t, pdus[0])) + Written(t, pdus[1..])
    else []
  }

  /** The response to one PDU; None when making or encoding it raises. */
  method Respond(t: MibTable, p: Pdu) returns (bs: Option<seq<Byte>>)
    requires t.Valid()
    ensures bs == if Answerable(t, p) then Some(ReplyBytes(p.header, Found(t, p))) else None
  {
    if !IsRequest(p) {
      return None;
    }
    var r;
    if p.body.GetNext? {
      r := MakeGetNextResponse(t, p.header, p.body.sr);
    } else {
      r := MakeGetResponse(t, p.header, p.body.sr);
    }
    if r.Raised? {
      return None;
    }
    assert AllFound(t, p);
    assert r.value.body.values == Found(t, p);
    bs := EncodeResponse(r.value, p.header);
  }

  /** `AgentX.data_received`: the responses to a buffer, written until a PDU raises. */
  method DataReceived(t: MibTable, data: seq<Byte>) returns (written: seq<Byte>)
    requires t.Valid()
    ensures written == Written(t, StreamOf(data).0)
  {
    written := [];
    var left := data;
    while left != []
      invariant Sofar(t, written, left, data)
      decreases |left|
    {
      var r := Decode(left);
      if r.Raised? {
        return;
      }
      var (p, rest) := r.value;
      SofarStep(t, written, left, data);
      if !p.body.Response? {
        var bs := Respond(t, p);
        if bs.None? {
          return;
        }
        written := written + bs.value;
      }
      left := rest;
    }
  }

  /** What is written and what the data left will make the agent write are all there is. */
  ghost predicate Sofar(t: MibTable, written: seq<Byte>, left: seq<Byte>, data: seq<Byte>)
    requires t.Valid()
  {
    written + Written(t, StreamOf(left).0) == Written(t, StreamOf(data).0)
  }

  lemma SofarStep(t: MibTable, written: seq<Byte>, left: seq<Byte>, data: seq<Byte>)
    requires t.Valid() && left != [] && DecodePdu(left).Ok? && Sofar(t, written, left, data)
    ensures var (p, rest) := DecodePdu(left).value;
            && |rest| < |left|
            && if p.body.Response? then Sofar(t, written, rest, data)
               else if Answerable(t, p) then Sofar(t, written + ReplyBytes(p.header, Found(t, p)), rest, data)
               else written == Written(t, StreamOf(data).0)
  {
    WrittenStep(t, left);
    var (p, rest) := DecodePdu(left).value;
    if !p.body.Response? {
      if Answerable(t, p) {
        Regroup(written, ReplyBytes(p.header, Found(t, p)), Written(t, StreamOf(rest).0));
      } else {
        assert written + [] == written;
      }
    }
  }

  lemma WrittenStep(t: MibTable, left: seq<Byte>)
    requires t.Valid() && left != [] && DecodePdu(left).Ok?
    ensures var (p, rest) := DecodePdu(left).value;
            && |rest| < |left|
            && Written(t, StreamOf(left).0)
               == if p.body.Response? then Written(t, StreamOf(rest).0)
                  else if Answerable(t, p) then ReplyBytes(p.header, Found(t, p)) + Written(t, StreamOf(rest).0)
                  else []
  {
    DecodeShrinks(left);
    var (p, rest) := DecodePdu(left).value;
    assert ([p] + StreamOf(rest).0)[1..] == StreamOf(rest).0;
  }

  /** The first PDU that raises ends the buffer: what is written are the responses before it. */
  lemma {:induction false} StopsAtRaising(t: MibTable, before: seq<Pdu>, p: Pdu, after: seq<Pdu>)
    requires t.Valid() && !p.body.Response? && !Answerable(t, p)
    requires forall i :: 0 <= i < |before| ==> before[i].body.Response? || Answerable(t, before[i])
    ensures Written(t, before + [p] + after) == Written(t, before)
  {
    var all := before + [p] + after;
    if before == [] {
      assert all[0] == p;
    } else {
      assert all[0] == before[0] && all[1..] == before[1..] + [p] + after;
      StopsAtRaising(t, before[1..], p, after);
    }
  }

  /** Responses received are passed over. */
  lemma {:induction false} PassesResponses(t: MibTable, before: seq<Pdu>, p: Pdu, after: seq<Pdu>)
    requires t.Valid() && p.body.Response?
    ensures Written(t, before + [p] + after) == Written(t, before + after)
  {
    var all := before + [p] + after;
    if before == [] {
      assert all[0] == p && all[1..] == after && before + after == after;
    } else {
      assert all[0] == before[0] && all[1..] == before[1..] + [p] + after;
      assert (before + after)[0] == before[0] && (before + after)[1..] == before[1..] + after;
      PassesResponses(t, before[1..], p, after);
    }
  }

  // ----- what the master reads back -----

  /** The response to a request as the master reads it: integers are reduced to their wire width. */
  ghost function ReplyTo(t: MibTable, p: Pdu): Pdu
    requires t.Valid() && Answerable(t, p)
  {
    ResponseWith(p.header, ReducedAll(Found(t, p)))
  }

  ghost predicate AllAnswerable(t: MibTable, ps: seq<Pdu>)
    requires t.Valid()
  {
    forall i :: 0 <= i < |ps| ==> Answerable(t, ps[i])
  }

  ghost function RepliesTo(t: MibTable, ps: seq<Pdu>): seq<Pdu>
    requires t.Valid() && AllAnswerable(t, ps)
  {
    if ps == [] then [] else [ReplyTo(t, ps[0])] + RepliesTo(t, ps[1..])
  }

  lemma {:induction false} ReducedEach(values: seq<VarBind>)
    ensures |ReducedAll(values)| == |values|
    ensures forall i :: 0 <= i < |values| ==> ReducedAll(values)[i] == values[i].Reduced()
  {
    if values != [] {
      ReducedEach(values[1..]);
    }
  }

  /** A response's bytes are those of the PDU that will be read back. */
  lemma ReplyStreamable(t: MibTable, p: Pdu)
    requires t.Valid() && Answerable(t, p)
    ensures Streamable(ReplyTo(t, p)) && Encode(ReplyTo(t, p)) == ReplyBytes(p.header, Found(t, p))
  {
    var values := Found(t, p);
    ResponseDelivered(p.header, values, []);
    var sent := ReplyTo(t, p);
    HeaderLength(sent.header);
  }

  lemma {:induction false} RepliesWritten(t: MibTable, ps: seq<Pdu>)
    requires t.Valid() && AllAnswerable(t, ps)
    ensures AllStreamable(RepliesTo(t, ps)) && EncodeAll(RepliesTo(t, ps)) == Written(t, ps)
  {
    if ps != [] {
      var rest := ps[1..];
      RepliesWritten(t, rest);
      ReplyStreamable(t, ps[0]);
      assert RepliesTo(t, ps)[1..] == RepliesTo(t, rest);
    }
  }

  /**
   A buffer of requests that can be answered makes the agent write bytes that read back as one response for
   each request, in order, with one binding for each of its search ranges: the one looked up, reduced to the
   wire.
   */
  lemma RequestsAnswered(t: MibTable, ps: seq<Pdu>)
    requires t.Valid() && AllStreamable(ps) && AllAnswerable(t, ps)
    ensures StreamOf(Written(t, StreamOf(EncodeAll(ps)).0)) == (RepliesTo(t, ps), None)
    ensures |RepliesTo(t, ps)| == |ps|
    ensures forall i :: 0 <= i < |ps| ==> Answers(t, ps[i], RepliesTo(t, ps)[i])
  {
    StreamRoundTrip(ps);
    RepliesWritten(t, ps);
    StreamRoundTrip(RepliesTo(t, ps));
    RepliesAnswer(t, ps);
  }

  /** The response has the request's ids, no error, and the reduced binding of each of its ranges. */
  ghost predicate Answers(t: MibTable, p: Pdu, q: Pdu)
    requires t.Valid()
  {
    && IsRequest(p) && q.body.Response? && |q.body.values| == |p.body.sr|
    && q.header.sessionId == p.header.sessionId && q.header.transactionId == p.header.transactionId
    && q.header.packetId == p.header.packetId && q.header.flags == p.header.flags
    && q.header.version == p.header.version && q.body.error == 0 && q.body.index == 0
    && forall i :: 0 <= i < |p.body.sr| ==>
         Looked(t, p, p.body.sr[i]).Ok? && q.body.values[i] == Looked(t, p, p.body.sr[i]).value.Reduced()
  }

  lemma ReplyAnswers(t: MibTable, p: Pdu)
    requires t.Valid() && Answerable(t, p)
    ensures Answers(t, p, ReplyTo(t, p))
  {
    ReducedEach(Found(t, p));
  }

  lemma {:induction false} RepliesAnswer(t: MibTable, ps: seq<Pdu>)
    requires t.Valid() && AllAnswerable(t, ps)
    ensures |RepliesTo(t, ps)| == |ps|
    ensures forall i :: 0 <= i < |ps| ==> Answers(t, ps[i], RepliesTo(t, ps)[i])
  {
    if ps != [] {
      ReplyAnswers(t, ps[0]);
      RepliesAnswer(t, ps[1..]);
      forall i | 0 <= i < |ps| ensures Answers(t, ps[i], RepliesTo(t, ps)[i]) {
        if i > 0 {
          assert Answers(t, ps[1..][i - 1], RepliesTo(t, ps[1..])[i - 1]);
        }
      }
    }
  }

  // ----- a walk over the wire -----

  /** A GetNext request for one range, with the payload length its bytes have. */
  function RequestFor(h: PduHeader, sr: SearchRange): Pdu {
    Pdu(h.(type_ := 6, payloadLength := |RequestBytes(None, [sr], h.Endianness())|), GetNext(None, [sr]))
  }

  /** What the master reads back from one request: its response's only binding. */
  ghost function Exchange(t: MibTable, h: PduHeader, sr: SearchRange): Option<VarBind>
    requires t.Valid() && Framed(RequestFor(h, sr))
  {
    var (pdus, error) := StreamOf(Written(t, StreamOf(Encode(RequestFor(h, sr))).0));
    if |pdus| == 1 && error == None && pdus[0].body.Response? && |pdus[0].body.values| == 1
    then Some(pdus[0].body.values[0]) else None
  }

  /** A header for requests without a context, OIDs that can be encoded, and every instance's binding too. */
  ghost predicate WireReady(t: MibTable, h: PduHeader, start: ObjectIdentifier, end: ObjectIdentifier) {
    && Walkable(t) && h.WellFormed() && !h.NonDefaultContext()
    && start.WellFormed() && start.incl == 0 && end.WellFormed()
    && forall o :: o in t.Instances() ==> Sendable(t.Binding(o))
  }

  predicate Sendable(vr: Result<VarBind, CodecError>) {
    Encodable(vr) && 8 + vr.value.Size() < UINT32
  }

  lemma RequestReady(h: PduHeader, sr: SearchRange)
    requires h.WellFormed() && !h.NonDefaultContext() && sr.WellFormed()
    ensures Streamable(RequestFor(h, sr))
  {
    var e, p := h.Endianness(), RequestFor(h, sr);
    RangeSize(sr, e);
    assert Concat(RangeEncoder(e), [sr]) == sr.ToBytes(e) + Concat(RangeEncoder(e), []);
    assert p.header.Endianness() == e;
    HeaderLength(p.header);
  }

  /** The answer to a request of a walk is the agent's next binding, reduced to the wire. */
  lemma ExchangeExact(t: MibTable, h: PduHeader, start: ObjectIdentifier, end: ObjectIdentifier)
    requires WireReady(t, h, start, end)
    ensures var sr := SearchRange(start, end);
            && Framed(RequestFor(h, sr)) && t.NextBinding(sr).Ok?
            && Exchange(t, h, sr) == Some(t.NextBinding(sr).value.Reduced())
  {
    var sr := SearchRange(start, end);
    var p := RequestFor(h, sr);
    RequestReady(h, sr);
    NextSendable(t, h, start, end);
    AnswerableOne(t, p, sr);
    ExchangeOne(t, h, sr);
  }

  lemma ExchangeOne(t: MibTable, h: PduHeader, sr: SearchRange)
    requires t.Valid() && Streamable(RequestFor(h, sr)) && Answerable(t, RequestFor(h, sr))
    ensures t.NextBinding(sr).Ok? && Exchange(t, h, sr) == Some(t.NextBinding(sr).value.Reduced())
  {
    var p := RequestFor(h, sr);
    RequestsAnswered(t, [p]);
    assert EncodeAll([p]) == Encode(p);
    assert Answers(t, [p][0], RepliesTo(t, [p])[0]);
  }

  lemma NextSendable(t: MibTable, h: PduHeader, start: ObjectIdentifier, end: ObjectIdentifier)
    requires WireReady(t, h, start, end)
    ensures Sendable(t.NextBinding(SearchRange(start, end)))
  {
    AnswerIsNext(t, start, end);
  }

  lemma AnswerableOne(t: MibTable, p: Pdu, sr: SearchRange)
    requires t.Valid() && Framed(p) && p.body == GetNext(None, [sr]) && Sendable(t.NextBinding(sr))
    ensures Answerable(t, p)
  {
    var v, e := t.NextBinding(sr).value, p.header.Endianness();
    assert Found(t, p) == [v];
    VarBindSize(v, e);
    assert Concat(VarBindEncoder(e), [v]) == v.ToBytes(e) + Concat(VarBindEncoder(e), []);
  }

  /** The master's walk: each name read back is the next start, until END_OF_MIB_VIEW. */
  ghost function WireWalk(t: MibTable, h: PduHeader, start: ObjectIdentifier, end: ObjectIdentifier): seq<VarBind>
    requires WireReady(t, h, start, end)
    decreases InstancesAbove(t, start.ToTuple())
  {
    ExchangeExact(t, h, start, end);
    WalkGoesOn(t, h, start, end);
    var vb := Exchange(t, h, SearchRange(start, end)).value;
    if vb.type_ == EndOfMibView then [] else [vb] + WireWalk(t, h, vb.name, end)
  }

  lemma WalkGoesOn(t: MibTable, h: PduHeader, start: ObjectIdentifier, end: ObjectIdentifier)
    requires WireReady(t, h, start, end)
    ensures var r := t.NextBinding(SearchRange(start, end));
            r.Ok? && (r.value.type_ != EndOfMibView ==>
              && WireReady(t, h, r.value.name, end)
              && InstancesAbove(t, r.value.name.ToTuple()) < InstancesAbove(t, start.ToTuple()))
  {
    AnswerIsNext(t, start, end);
    var r := t.NextBinding(SearchRange(start, end));
    if r.value.type_ != EndOfMibView {
      FewerAbove(t, start.ToTuple(), r.value.name.ToTuple());
      NextSendable(t, h, start, end);
    }
  }

  /** The walk over the wire sees the agent's walk, reduced to the wire. */
  lemma {:induction false} WireWalkIs(t: MibTable, h: PduHeader, start: ObjectIdentifier, end: ObjectIdentifier)
    requires WireReady(t, h, start, end)
    ensures WireWalk(t, h, start, end) == ReducedAll(Walk(t, start, end))
    decreases InstancesAbove(t, start.ToTuple())
  {
    ExchangeExact(t, h, start, end);
    WalkGoesOn(t, h, start, end);
    AnswerIsNext(t, start, end);
    var vb := t.NextBinding(SearchRange(start, end)).value;
    if vb.type_ != EndOfMibView {
      WireWalkIs(t, h, vb.name, end);
      var rest := Walk(t, vb.name, end);
      assert ([vb] + rest)[1..] == rest;
    }
  }

  /** The binding of an instance, as it reads on the wire: its owner's type, and its value. */
  ghost predicate WireBinding(t: MibTable, vb: VarBind)
    requires t.Valid()
  {
    var o := vb.name.ToTuple();
    && o in t.Instances() && t.Binding(o).Ok? && vb == t.Binding(o).value.Reduced()
    && forall p :: t.Owns(p, o) ==> vb.type_ == t.entries[p].type_ && WireCarries(vb.type_, vb.data, t.ValueOf(p, o))
  }

  lemma ReducedOwn(t: MibTable, vb: VarBind)
    requires t.Valid() && OwnBinding(t, vb)
    ensures WireBinding(t, vb.Reduced())
  {
    var o := vb.name.ToTuple();
    forall p | t.Owns(p, o)
      ensures vb.type_ == t.entries[p].type_ && WireCarries(vb.type_, vb.Reduced().data, t.ValueOf(p, o))
    {
      t.BindingGives(p, o);
      ReducedCarries(vb, t.ValueOf(p, o));
    }
  }

  lemma ReducedNames(w: seq<VarBind>)
    ensures Names(ReducedAll(w)) == Names(w)
  {
    ReducedEach(w);
  }

  /** Every reduced binding of a walk is the wire form of an instance's own. */
  lemma ReducedBindings(t: MibTable, w: seq<VarBind>)
    requires t.Valid() && forall vb :: vb in w ==> OwnBinding(t, vb)
    ensures forall vb :: vb in ReducedAll(w) ==> WireBinding(t, vb)
  {
    ReducedEach(w);
    forall vb | vb in ReducedAll(w) ensures WireBinding(t, vb) {
      var i :| 0 <= i < |w| && vb == w[i].Reduced();
      ReducedOwn(t, w[i]);
    }
  }

  /**
   A master that walks from start to end reads exactly the instances strictly between, each once, in
   increasing order, each with its own value reduced to the wire.
   */
  lemma WireWalkComplete(t: MibTable, h: PduHeader, start: ObjectIdentifier, end: ObjectIdentifier)
    requires WireReady(t, h, start, end) && EndRespected(t, start.ToTuple(), false, end.ToTuple())
    ensures var w := WireWalk(t, h, start, end);
            && Lists(Names(w), t.RfcCandidates(start.ToTuple(), false, end.ToTuple()))
            && forall vb :: vb in w ==> WireBinding(t, vb)
  {
    var w := Walk(t, start, end);
    WireWalkIs(t, h, start, end);
    WalkComplete(t, start, end);
    WalkBindings(t, start, end);
    ReducedNames(w);
    ReducedBindings(t, w);
  }
}
