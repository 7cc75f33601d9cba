/**
 The layouts of RFC 2741, sections 5 and 6, byte by byte: where each field stands, how wide it is, and which of
 its bytes counts most. They are stated on the bytes alone, and the codec is measured against them: a buffer
 decodes to a PDU if and only if the PDU is laid out at its front.
 */
module Wire {
  import opened Results
  import opened Encodings
  import opened Pdu
  import opened PduStream

  // ----- integers -----

  /** Two bytes as a number, the first of them the high one or the low one. */
  function Two(big: bool, s: seq<Byte>): nat
    requires |s| == 2
  {
    var a: nat, b: nat := s[0], s[1];
    if big then 0x100 * a + b else a + 0x100 * b
  }

  function Four(big: bool, s: seq<Byte>): nat
    requires |s| == 4
  {
    var a: nat, b: nat, c: nat, d: nat := s[0], s[1], s[2], s[3];
    if big then 0x100_0000 * a + 0x1_0000 * b + 0x100 * c + d
    else a + 0x100 * b + 0x1_0000 * c + 0x100_0000 * d
  }

  function Eight(big: bool, s: seq<Byte>): nat
    requires |s| == 8
  {
    if big then 0x1_0000_0000 * Four(true, s[..4]) + Four(true, s[4..])
    else Four(false, s[..4]) + 0x1_0000_0000 * Four(false, s[4..])
  }

  function Order(big: bool): Endian {
    if big then Network else Little
  }

  lemma TwoReads(big: bool, s: seq<Byte>)
    requires |s| == 2
    ensures Unpack(Order(big), s) == Two(big, s) < UINT16
  {
    LowAndHigh(Order(big), s);
    LowAndHigh(Order(big), if big then s[..1] else s[1..]);
  }

  /** Two bytes more, at the low end. */
  lemma TwoMore(big: bool, s: seq<Byte>)
    requires |s| >= 2
    ensures big ==> Unpack(Network, s) == 0x1_0000 * Unpack(Network, s[..|s| - 2]) + Two(true, s[|s| - 2..])
    ensures !big ==> Unpack(Little, s) == Two(false, s[..2]) + 0x1_0000 * Unpack(Little, s[2..])
  {
    LowAndHigh(Order(big), s);
    if big {
      var front := s[..|s| - 1];
      assert front[..|front| - 1] == s[..|s| - 2];
      LowAndHigh(Network, front);
    } else {
      assert s[1..][1..] == s[2..];
      LowAndHigh(Little, s[1..]);
    }
  }

  lemma FourReads(big: bool, s: seq<Byte>)
    requires |s| == 4
    ensures Unpack(Order(big), s) == Four(big, s) < UINT32
  {
    TwoMore(big, s);
    TwoReads(big, if big then s[..2] else s[2..]);
  }

  /** Four bytes more, at the low end. */
  lemma FourMore(big: bool, s: seq<Byte>)
    requires |s| == 8
    ensures big ==> Unpack(Network, s) == 0x1_0000_0000 * Unpack(Network, s[..4]) + Four(true, s[4..])
    ensures !big ==> Unpack(Little, s) == Four(false, s[..4]) + 0x1_0000_0000 * Unpack(Little, s[4..])
  {
    TwoMore(big, s);
    if big {
      assert s[..6][..4] == s[..4];
      assert s[..6][4..] == s[4..6];
      TwoMore(true, s[..6]);
    } else {
      assert s[2..][2..] == s[4..];
      assert s[2..][..2] == s[2..4];
      TwoMore(false, s[2..]);
    }
  }

  lemma EightReads(big: bool, s: seq<Byte>)
    requires |s| == 8
    ensures Unpack(Order(big), s) == Eight(big, s) < UINT64
  {
    FourMore(big, s);
    FourReads(big, if big then s[..4] else s[4..]);
  }

  /** A field of a width stands for a number exactly when it is the number packed. */
  lemma PacksExactly(e: Endian, s: seq<Byte>, n: nat)
    ensures Unpack(e, s) == n <==> n < Pow256(|s|) && s == Pack(e, n, |s|)
  {
    PackUnpack(e, s);
    if n < Pow256(|s|) {
      UnpackPack(e, n, |s|);
    }
  }

  lemma TwoPacks(big: bool, s: seq<Byte>, n: nat)
    requires |s| == 2
    ensures Two(big, s) == n <==> n < UINT16 && s == Pack(Order(big), n, 2)
  {
    TwoReads(big, s);
    PacksExactly(Order(big), s, n);
    assert Pow256(2) == UINT16;
  }

  lemma FourPacks(big: bool, s: seq<Byte>, n: nat)
    requires |s| == 4
    ensures Four(big, s) == n <==> n < UINT32 && s == Pack(Order(big), n, 4)
  {
    FourReads(big, s);
    PacksExactly(Order(big), s, n);
    assert Pow256(4) == UINT32;
  }

  lemma EightPacks(big: bool, s: seq<Byte>, n: nat)
    requires |s| == 8
    ensures Eight(big, s) == n <==> n < UINT64 && s == Pack(Order(big), n, 8)
  {
    EightReads(big, s);
    PacksExactly(Order(big), s, n);
    assert Pow256(8) == UINT64;
  }

  // ----- values (section 5) -----

  /** The count of sub-ids, the prefix, the include flag, a reserved byte, and four bytes for each sub-id. */
  ghost predicate OidLaid(s: seq<Byte>, big: bool, o: ObjectIdentifier) {
    && |s| == 4 + 4 * |o.subids|
    && s[0] == |o.subids| == o.nSubid && s[1] == o.prefix && s[2] == o.incl && s[3] == o.reserved
    && forall k {:trigger o.subids[k]} :: 0 <= k < |o.subids| ==> Four(big, s[4 + 4 * k..8 + 4 * k]) == o.subids[k]
  }

  /** The name that stands in the bytes: a non-zero prefix byte is the fifth of 1.3.6.1.x. */
  lemma NameLaid(s: seq<Byte>, big: bool, o: ObjectIdentifier)
    requires OidLaid(s, big, o)
    ensures o.ToTuple() == if s[1] == 0 then o.subids else [1, 3, 6, 1, o.prefix] + o.subids
  {
    assert [] + o.subids == o.subids;
    assert [1, 3, 6, 1] + [o.prefix] == [1, 3, 6, 1, o.prefix];
  }

  lemma {:induction false} AllPacks(big: bool, s: seq<Byte>, xs: seq<nat>)
    requires |s| == 4 * |xs|
    ensures (forall k {:trigger xs[k]} :: 0 <= k < |xs| ==> Four(big, s[4 * k..4 + 4 * k]) == xs[k])
            <==> AllUint32(xs) && s == PackAll(Order(big), xs)
    decreases |xs|
  {
    if xs != [] {
      var first, rest, more := s[..4], s[4..], xs[1..];
      assert s == first + rest;
      FourPacks(big, first, xs[0]);
      AllPacks(big, rest, more);
      RunShifts(big, s, xs);
      assert AllUint32(xs) <==> xs[0] < UINT32 && AllUint32(more) by {
        assert forall k :: 0 <= k < |more| ==> more[k] == xs[k + 1];
      }
      if xs[0] < UINT32 && AllUint32(more) {
        assert PackAll(Order(big), xs) == Pack(Order(big), xs[0], 4) + PackAll(Order(big), more);
        assert PackAll(Order(big), xs)[..4] == Pack(Order(big), xs[0], 4);
        assert PackAll(Order(big), xs)[4..] == PackAll(Order(big), more);
      }
    }
  }

  lemma RunShifts(big: bool, s: seq<Byte>, xs: seq<nat>)
    requires |s| == 4 * |xs| && xs != []
    ensures (forall k {:trigger xs[k]} :: 0 <= k < |xs| ==> Four(big, s[4 * k..4 + 4 * k]) == xs[k])
            <==> && Four(big, s[..4]) == xs[0]
                 && forall k {:trigger xs[1..][k]} :: 0 <= k < |xs[1..]| ==> Four(big, s[4..][4 * k..4 + 4 * k]) == xs[1..][k]
  {
    var rest, more := s[4..], xs[1..];
    forall k | 0 <= k < |more| ensures rest[4 * k..4 + 4 * k] == s[4 * (k + 1)..4 + 4 * (k + 1)] && more[k] == xs[k + 1] {
    }
    assert s[..4] == s[0..4];
    if (forall k {:trigger more[k]} :: 0 <= k < |more| ==> Four(big, rest[4 * k..4 + 4 * k]) == more[k])
       && Four(big, s[..4]) == xs[0] {
      forall k | 0 <= k < |xs| ensures Four(big, s[4 * k..4 + 4 * k]) == xs[k] {
        if k > 0 {
          assert more[k - 1] == xs[k];
        }
      }
    }
    if forall k {:trigger xs[k]} :: 0 <= k < |xs| ==> Four(big, s[4 * k..4 + 4 * k]) == xs[k] {
      assert Four(big, s[4 * 0..4 + 4 * 0]) == xs[0];
      forall k | 0 <= k < |more| ensures Four(big, rest[4 * k..4 + 4 * k]) == more[k] {
        assert xs[k + 1] == more[k];
      }
    }
  }

  lemma OidLaidExactly(s: seq<Byte>, big: bool, o: ObjectIdentifier)
    ensures OidLaid(s, big, o) <==> o.WellFormed() && s == o.ToBytes(Order(big))
  {
    if |s| == 4 + 4 * |o.subids| {
      var head, tail := s[..4], s[4..];
      assert s == head + tail;
      AllPacks(big, tail, o.subids);
      forall k | 0 <= k < |o.subids| ensures tail[4 * k..4 + 4 * k] == s[4 + 4 * k..8 + 4 * k] {
      }
      assert head == [s[0], s[1], s[2], s[3]];
      if o.WellFormed() && s == o.ToBytes(Order(big)) {
        assert tail == PackAll(Order(big), o.subids);
      }
    }
  }

  /** Two encodings, one after the other. */
  ghost predicate RangeLaid(s: seq<Byte>, big: bool, sr: SearchRange) {
    exists a, b :: s == a + b && OidLaid(a, big, sr.start) && OidLaid(b, big, sr.end)
  }

  lemma RangeLaidExactly(s: seq<Byte>, big: bool, sr: SearchRange)
    ensures RangeLaid(s, big, sr) <==> sr.WellFormed() && s == sr.ToBytes(Order(big))
  {
    forall a: seq<Byte> ensures OidLaid(a, big, sr.start) <==> sr.start.WellFormed() && a == sr.start.ToBytes(Order(big)) {
      OidLaidExactly(a, big, sr.start);
    }
    forall b: seq<Byte> ensures OidLaid(b, big, sr.end) <==> sr.end.WellFormed() && b == sr.end.ToBytes(Order(big)) {
      OidLaidExactly(b, big, sr.end);
    }
  }

  /** Four bytes of length, the octets, and at most three more that bring it to a multiple of four. */
  ghost predicate OctetsLaid(s: seq<Byte>, big: bool, x: OctetString) {
    && |s| >= 4 && |s| % 4 == 0 && Four(big, s[..4]) == |x.data| == x.length
    && |x.padding| < 4 && s[4..] == x.data + x.padding
  }

  lemma OctetsLaidExactly(s: seq<Byte>, big: bool, x: OctetString)
    ensures OctetsLaid(s, big, x) <==> x.WellFormed() && s == x.ToBytes(Order(big))
  {
    PadReachesMultipleOfFour(x.length);
    if |s| >= 4 {
      FourPacks(big, s[..4], x.length);
      assert s == s[..4] + s[4..];
    }
    if x.length == |x.data| {
      PadDetermined(x.length, |x.padding|);
    }
    if x.WellFormed() && s == x.ToBytes(Order(big)) {
      OctetsSize(x, Order(big));
      assert s[..4] == Pack(Order(big), x.length, 4);
    }
  }

  lemma PadDetermined(length: nat, pad: nat)
    ensures pad == Pad4(length) <==> pad < 4 && (4 + length + pad) % 4 == 0
  {
    PadReachesMultipleOfFour(length);
  }

  /** The value-type numbers of section 5.4. */
  ghost predicate Numbered(t: ValueType, n: nat) {
    match t
    case Integer => n == 2
    case OctetStr => n == 4
    case Null => n == 5
    case ObjectId => n == 6
    case IpAddress => n == 0x40
    case Counter32 => n == 0x41
    case Gauge32 => n == 0x42
    case TimeTicks => n == 0x43
    case Opaque => n == 0x44
    case Counter64 => n == 0x46
    case NoSuchObject => n == 0x80
    case NoSuchInstance => n == 0x81
    case EndOfMibView => n == 0x82
  }

  ghost predicate DataLaid(s: seq<Byte>, big: bool, t: ValueType, d: Data) {
    match t
    case Integer | Counter32 | Gauge32 | TimeTicks => d.IntData? && |s| == 4 && Four(big, s) == d.n
    case Counter64 => d.IntData? && |s| == 8 && Eight(big, s) == d.n
    case ObjectId => d.OidData? && OidLaid(s, big, d.o)
    case OctetStr | IpAddress | Opaque => d.OctetData? && OctetsLaid(s, big, d.s)
    case Null | NoSuchObject | NoSuchInstance | EndOfMibView => d.NoData? && s == []
  }

  lemma DataLaidExactly(s: seq<Byte>, big: bool, t: ValueType, d: Data)
    ensures DataLaid(s, big, t, d)
            <==> d.Fits(LayoutOf(t)) && d.Reduced(LayoutOf(t)) == d && s == d.ToBytes(LayoutOf(t), Order(big))
  {
    match t
    case Integer | Counter32 | Gauge32 | TimeTicks => WordLaidExactly(s, big, d);
    case Counter64 => LongLaidExactly(s, big, d);
    case ObjectId =>
      if d.OidData? {
        OidLaidExactly(s, big, d.o);
      }
    case OctetStr | IpAddress | Opaque =>
      if d.OctetData? {
        OctetsLaidExactly(s, big, d.s);
      }
    case _ =>
  }

  lemma WordLaidExactly(s: seq<Byte>, big: bool, d: Data)
    ensures d.IntData? && |s| == 4 && Four(big, s) == d.n
            <==> d.Fits(FourBytes) && d.Reduced(FourBytes) == d && s == d.ToBytes(FourBytes, Order(big))
  {
    if |s| == 4 && d.IntData? && d.n >= 0 {
      FourPacks(big, s, d.n);
    }
  }

  lemma LongLaidExactly(s: seq<Byte>, big: bool, d: Data)
    ensures d.IntData? && |s| == 8 && Eight(big, s) == d.n
            <==> d.Fits(EightBytes) && d.Reduced(EightBytes) == d && s == d.ToBytes(EightBytes, Order(big))
  {
    if d.IntData? && d.n >= 0 {
      LongReduced(d.n);
      if |s| == 8 {
        EightPacks(big, s, d.n);
      }
    }
  }

  lemma LongReduced(n: nat)
    ensures IntData(n).Reduced(EightBytes) == IntData(n) <==> n < UINT64
  {
  }

  /** Two bytes of type and two reserved. */
  ghost predicate TagLaid(s: seq<Byte>, big: bool, t: ValueType, reserved: nat) {
    |s| == 4 && Numbered(t, Two(big, s[..2])) && Two(big, s[2..]) == reserved
  }

  lemma TagLaidExactly(s: seq<Byte>, big: bool, t: ValueType, reserved: nat)
    ensures TagLaid(s, big, t, reserved) <==> reserved < UINT16 && s == TagBytes(TypeCode(t), reserved, Order(big))
  {
    if |s| == 4 {
      var code := TypeCode(t);
      assert Numbered(t, Two(big, s[..2])) <==> Two(big, s[..2]) == code;
      TwoPacks(big, s[..2], code);
      TwoPacks(big, s[2..], reserved);
      assert s == s[..2] + s[2..];
      if reserved < UINT16 {
        var tag := TagBytes(code, reserved, Order(big));
        assert tag[..2] == Pack(Order(big), code, 2) && tag[2..] == Pack(Order(big), reserved, 2);
      }
    }
  }

  /** The type, the name and the data. */
  ghost predicate VarBindLaid(s: seq<Byte>, big: bool, v: VarBind) {
    exists tag, name, data ::
      && s == tag + (name + data)
      && TagLaid(tag, big, v.type_, v.reserved) && OidLaid(name, big, v.name) && DataLaid(data, big, v.type_, v.data)
  }

  lemma VarBindLaidExactly(s: seq<Byte>, big: bool, v: VarBind)
    ensures VarBindLaid(s, big, v) <==> OnWire(v) && s == v.ToBytes(Order(big))
  {
    var e := Order(big);
    if VarBindLaid(s, big, v) {
      var tag, name, data :|
        && s == tag + (name + data)
        && TagLaid(tag, big, v.type_, v.reserved) && OidLaid(name, big, v.name) && DataLaid(data, big, v.type_, v.data);
      TagLaidExactly(tag, big, v.type_, v.reserved);
      OidLaidExactly(name, big, v.name);
      DataLaidExactly(data, big, v.type_, v.data);
    }
    if OnWire(v) && s == v.ToBytes(e) {
      TagLaidExactly(TagBytes(TypeCode(v.type_), v.reserved, e), big, v.type_, v.reserved);
      OidLaidExactly(v.name.ToBytes(e), big, v.name);
      DataLaidExactly(v.data.ToBytes(LayoutOf(v.type_), e), big, v.type_, v.data);
    }
  }

  // ----- lists -----

  ghost predicate RangesLaid(s: seq<Byte>, big: bool, xs: seq<SearchRange>)
    decreases |xs|
  {
    if xs == [] then s == []
    else exists a, b :: s == a + b && RangeLaid(a, big, xs[0]) && RangesLaid(b, big, xs[1..])
  }

  ghost predicate VarBindsLaid(s: seq<Byte>, big: bool, vs: seq<VarBind>)
    decreases |vs|
  {
    if vs == [] then s == []
    else exists a, b :: s == a + b && VarBindLaid(a, big, vs[0]) && VarBindsLaid(b, big, vs[1..])
  }

  lemma {:induction false} RangesLaidExactly(s: seq<Byte>, big: bool, xs: seq<SearchRange>)
    ensures RangesLaid(s, big, xs) <==> All(RangeCheck(), xs) && s == Concat(RangeEncoder(Order(big)), xs)
    decreases |xs|
  {
    if xs != [] {
      var e, x, more := Order(big), xs[0], xs[1..];
      assert xs == [x] + more;
      AllStep(RangeCheck(), x, more);
      if RangesLaid(s, big, xs) {
        var a, b :| s == a + b && RangeLaid(a, big, x) && RangesLaid(b, big, more);
        RangeLaidExactly(a, big, x);
        RangesLaidExactly(b, big, more);
      }
      if All(RangeCheck(), xs) && s == Concat(RangeEncoder(e), xs) {
        RangeLaidExactly(x.ToBytes(e), big, x);
        RangesLaidExactly(Concat(RangeEncoder(e), more), big, more);
      }
    }
  }

  lemma {:induction false} VarBindsLaidExactly(s: seq<Byte>, big: bool, vs: seq<VarBind>)
    ensures VarBindsLaid(s, big, vs) <==> All(VarBindCheck(), vs) && s == Concat(VarBindEncoder(Order(big)), vs)
    decreases |vs|
  {
    if vs != [] {
      var e, v, more := Order(big), vs[0], vs[1..];
      assert vs == [v] + more;
      AllStep(VarBindCheck(), v, more);
      if VarBindsLaid(s, big, vs) {
        var a, b :| s == a + b && VarBindLaid(a, big, v) && VarBindsLaid(b, big, more);
        VarBindLaidExactly(a, big, v);
        VarBindsLaidExactly(b, big, more);
      }
      if All(VarBindCheck(), vs) && s == Concat(VarBindEncoder(e), vs) {
        VarBindLaidExactly(v.ToBytes(e), big, v);
        VarBindsLaidExactly(Concat(VarBindEncoder(e), more), big, more);
      }
    }
  }

  // ----- PDUs (section 6) -----

  /** An octet string when the header's flags have bit 0x08, nothing otherwise. */
  ghost predicate ContextLaid(s: seq<Byte>, big: bool, flagged: bool, context: Option<OctetString>) {
    if flagged then context.Some? && OctetsLaid(s, big, context.value) else context.None? && s == []
  }

  ghost predicate OpenLaid(s: seq<Byte>, big: bool, b: Body)
    requires b.Open?
  {
    |b.reserved3| == 3
    && exists oid, descr ::
         s == ([b.timeout] + b.reserved3) + (oid + descr) && OidLaid(oid, big, b.oid) && OctetsLaid(descr, big, b.descr)
  }

  ghost predicate BoundLaid(s: seq<Byte>, big: bool, present: bool, bound: Option<nat>) {
    if present then bound.Some? && |s| == 4 && Four(big, s) == bound.value else bound.None? && s == []
  }

  /** After the context: four bytes, the subtree and, when the range sub-id is not zero, the upper bound. */
  ghost predicate RegisterLaid(s: seq<Byte>, big: bool, flagged: bool, b: Body)
    requires b.Register?
  {
    exists context, oid, bound ::
      && s == context + ([b.timeout, b.priority, b.rangeSubid, b.rangeReserved] + (oid + bound))
      && ContextLaid(context, big, flagged, b.context) && OidLaid(oid, big, b.subtree)
      && BoundLaid(bound, big, b.rangeSubid != 0, b.upperBound)
  }

  ghost predicate RequestLaid(s: seq<Byte>, big: bool, flagged: bool, context: Option<OctetString>,
                              sr: seq<SearchRange>)
  {
    exists a, b :: s == a + b && ContextLaid(a, big, flagged, context) && RangesLaid(b, big, sr)
  }

  /** Four bytes of time, two of error and two of index. */
  ghost predicate ReplyLaid(s: seq<Byte>, big: bool, time: nat, error: nat, index: nat) {
    |s| == 8 && Four(big, s[..4]) == time && Two(big, s[4..6]) == error && Two(big, s[6..]) == index
  }

  ghost predicate ResponseLaid(s: seq<Byte>, big: bool, b: Body)
    requires b.Response?
  {
    exists head, values ::
      s == head + values && ReplyLaid(head, big, b.sysUpTime, b.error, b.index) && VarBindsLaid(values, big, b.values)
  }

  ghost predicate BodyLaid(s: seq<Byte>, big: bool, flagged: bool, b: Body) {
    match b
    case Open(_, _, _, _) => OpenLaid(s, big, b)
    case Register(_, _, _, _, _, _, _) => RegisterLaid(s, big, flagged, b)
    case Get(context, sr) => RequestLaid(s, big, flagged, context, sr)
    case GetNext(context, sr) => RequestLaid(s, big, flagged, context, sr)
    case Ping(context) => ContextLaid(s, big, flagged, context)
    case Response(_, _, _, _) => ResponseLaid(s, big, b)
    case CommitSet | UndoSet | CleanupSet => s == []
    case Close(_, _) => false
    case TestSet(_) => false
  }

  /** The PDU type numbers of section 6.1. */
  ghost predicate KindNumbered(b: Body, n: nat) {
    match b
    case Open(_, _, _, _) => n == 1
    case Close(_, _) => n == 2
    case Register(_, _, _, _, _, _, _) => n == 3
    case Get(_, _) => n == 5
    case GetNext(_, _) => n == 6
    case TestSet(_) => n == 8
    case CommitSet => n == 9
    case UndoSet => n == 10
    case CleanupSet => n == 11
    case Ping(_) => n == 13
    case Response(_, _, _, _) => n == 18
  }

  /** Bit 0x10 of the flags byte: the most significant byte of a number comes first. */
  predicate NetworkOrder(flags: Byte) {
    (flags / 0x10) % 2 == 1
  }

  /** Bit 0x08 of the flags byte. */
  predicate ContextFlag(flags: Byte) {
    (flags / 0x08) % 2 == 1
  }

  ghost predicate HeaderLaid(s: seq<Byte>, h: PduHeader) {
    && |s| == 20
    && s[0] == h.version && s[1] == h.type_ && s[2] == h.flags && s[3] == h.reserved
    && var big := NetworkOrder(s[2]);
       && Four(big, s[4..8]) == h.sessionId && Four(big, s[8..12]) == h.transactionId
       && Four(big, s[12..16]) == h.packetId && Four(big, s[16..20]) == h.payloadLength
  }

  ghost predicate PduLaid(s: seq<Byte>, p: Pdu) {
    && |s| >= 20 && HeaderLaid(s[..20], p.header) && KindNumbered(p.body, s[1])
    && BodyLaid(s[20..], NetworkOrder(s[2]), ContextFlag(s[2]), p.body)
  }

  lemma HeaderLaidExactly(s: seq<Byte>, h: PduHeader)
    ensures HeaderLaid(s, h) <==> h.WellFormed() && s == h.ToBytes()
  {
    if |s| == 20 && (HeaderLaid(s, h) || (h.WellFormed() && s == h.ToBytes())) {
      var tail, ids := s[4..], [h.sessionId, h.transactionId, h.packetId, h.payloadLength];
      assert s == s[..4] + tail && s[..4] == [s[0], s[1], s[2], s[3]];
      assert s[2] == h.flags;
      AllPacks(NetworkOrder(h.flags), tail, ids);
      IdsLaid(NetworkOrder(h.flags), s, ids);
      assert Order(NetworkOrder(h.flags)) == h.Endianness();
      if h.WellFormed() && s == h.ToBytes() {
        assert tail == PackAll(h.Endianness(), ids);
      }
    }
  }

  lemma IdsLaid(big: bool, s: seq<Byte>, ids: seq<nat>)
    requires |s| == 20 && |ids| == 4
    ensures (forall k {:trigger ids[k]} :: 0 <= k < |ids| ==> Four(big, s[4..][4 * k..4 + 4 * k]) == ids[k])
            <==> && Four(big, s[4..8]) == ids[0] && Four(big, s[8..12]) == ids[1]
                 && Four(big, s[12..16]) == ids[2] && Four(big, s[16..20]) == ids[3]
  {
    var t := s[4..];
    assert t[4 * 0..4 + 4 * 0] == s[4..8] && t[4 * 1..4 + 4 * 1] == s[8..12];
    assert t[4 * 2..4 + 4 * 2] == s[12..16] && t[4 * 3..4 + 4 * 3] == s[16..20];
    assert ids == [ids[0], ids[1], ids[2], ids[3]];
  }

  lemma ContextLaidExactly(s: seq<Byte>, h: PduHeader, context: Option<OctetString>)
    ensures ContextLaid(s, NetworkOrder(h.flags), ContextFlag(h.flags), context)
            <==> ContextFits(h, context) && s == ContextBytes(context, h.Endianness())
  {
    assert Order(NetworkOrder(h.flags)) == h.Endianness();
    if context.Some? {
      OctetsLaidExactly(s, NetworkOrder(h.flags), context.value);
    }
  }

  lemma OpenLaidExactly(s: seq<Byte>, big: bool, b: Body)
    requires b.Open?
    ensures OpenLaid(s, big, b) <==> OpenFits(b) && s == OpenBytes(b, Order(big))
  {
    var e := Order(big);
    if OpenLaid(s, big, b) {
      var oid, descr :|
        s == ([b.timeout] + b.reserved3) + (oid + descr) && OidLaid(oid, big, b.oid) && OctetsLaid(descr, big, b.descr);
      OidLaidExactly(oid, big, b.oid);
      OctetsLaidExactly(descr, big, b.descr);
    }
    if OpenFits(b) && s == OpenBytes(b, e) {
      OidLaidExactly(b.oid.ToBytes(e), big, b.oid);
      OctetsLaidExactly(b.descr.ToBytes(e), big, b.descr);
    }
  }

  lemma BoundLaidExactly(s: seq<Byte>, big: bool, present: bool, bound: Option<nat>)
    ensures BoundLaid(s, big, present, bound)
            <==> && bound.Some? == present && (bound.Some? ==> bound.value < UINT32)
                 && s == BoundBytes(bound, Order(big))
  {
    if bound.Some? && |s| == 4 {
      FourPacks(big, s, bound.value);
    }
  }

  lemma RegisterLaidExactly(s: seq<Byte>, h: PduHeader, b: Body)
    requires b.Register?
    ensures RegisterLaid(s, NetworkOrder(h.flags), ContextFlag(h.flags), b)
            <==> RegisterFits(h, b) && s == RegisterBytes(b, h.Endianness())
  {
    var big, flagged, e := NetworkOrder(h.flags), ContextFlag(h.flags), h.Endianness();
    assert Order(big) == e;
    if RegisterLaid(s, big, flagged, b) {
      var context, oid, bound :|
        && s == context + ([b.timeout, b.priority, b.rangeSubid, b.rangeReserved] + (oid + bound))
        && ContextLaid(context, big, flagged, b.context) && OidLaid(oid, big, b.subtree)
        && BoundLaid(bound, big, b.rangeSubid != 0, b.upperBound);
      ContextLaidExactly(context, h, b.context);
      OidLaidExactly(oid, big, b.subtree);
      BoundLaidExactly(bound, big, b.rangeSubid != 0, b.upperBound);
    }
    if RegisterFits(h, b) && s == RegisterBytes(b, e) {
      ContextLaidExactly(ContextBytes(b.context, e), h, b.context);
      OidLaidExactly(b.subtree.ToBytes(e), big, b.subtree);
      BoundLaidExactly(BoundBytes(b.upperBound, e), big, b.rangeSubid != 0, b.upperBound);
    }
  }

  lemma RequestLaidExactly(s: seq<Byte>, h: PduHeader, context: Option<OctetString>, sr: seq<SearchRange>)
    ensures RequestLaid(s, NetworkOrder(h.flags), ContextFlag(h.flags), context, sr)
            <==> RequestFits(h, context, sr) && s == RequestBytes(context, sr, h.Endianness())
  {
    var big, flagged, e := NetworkOrder(h.flags), ContextFlag(h.flags), h.Endianness();
    assert Order(big) == e;
    if RequestLaid(s, big, flagged, context, sr) {
      var a, b :| s == a + b && ContextLaid(a, big, flagged, context) && RangesLaid(b, big, sr);
      ContextLaidExactly(a, h, context);
      RangesLaidExactly(b, big, sr);
    }
    if RequestFits(h, context, sr) && s == RequestBytes(context, sr, e) {
      ContextLaidExactly(ContextBytes(context, e), h, context);
      RangesLaidExactly(Concat(RangeEncoder(e), sr), big, sr);
    }
  }

  lemma ReplyLaidExactly(s: seq<Byte>, big: bool, time: nat, error: nat, index: nat)
    ensures ReplyLaid(s, big, time, error, index)
            <==> && time < UINT32 && error < UINT16 && index < UINT16
                 && s == ResponseHead(time, error, index, Order(big))
  {
    var e := Order(big);
    if |s| == 8 {
      FourPacks(big, s[..4], time);
      TwoPacks(big, s[4..6], error);
      TwoPacks(big, s[6..], index);
      assert s == s[..4] + (s[4..6] + s[6..]);
    }
    if time < UINT32 && error < UINT16 && index < UINT16 {
      var head, a, b, c := ResponseHead(time, error, index, e), Pack(e, time, 4), Pack(e, error, 2), Pack(e, index, 2);
      assert head == a + (b + c);
      assert head[..4] == a && head[4..6] == b && head[6..] == c;
    }
  }

  lemma ResponseLaidExactly(s: seq<Byte>, big: bool, b: Body)
    requires b.Response?
    ensures ResponseLaid(s, big, b) <==> ResponseFits(b) && s == ResponseBytes(b, Order(big))
  {
    var e := Order(big);
    if ResponseLaid(s, big, b) {
      var head, values :|
        s == head + values && ReplyLaid(head, big, b.sysUpTime, b.error, b.index) && VarBindsLaid(values, big, b.values);
      ReplyLaidExactly(head, big, b.sysUpTime, b.error, b.index);
      VarBindsLaidExactly(values, big, b.values);
    }
    if ResponseFits(b) && s == ResponseBytes(b, e) {
      ReplyLaidExactly(ResponseHead(b.sysUpTime, b.error, b.index, e), big, b.sysUpTime, b.error, b.index);
      VarBindsLaidExactly(Concat(VarBindEncoder(e), b.values), big, b.values);
    }
  }

  lemma BodyLaidExactly(s: seq<Byte>, h: PduHeader, b: Body)
    requires FramedKind(b)
    ensures BodyLaid(s, NetworkOrder(h.flags), ContextFlag(h.flags), b) <==> BodyFits(h, b) && s == BodyBytes(h, b)
  {
    var big := NetworkOrder(h.flags);
    assert Order(big) == h.Endianness();
    match b
    case Open(_, _, _, _) => OpenLaidExactly(s, big, b);
    case Register(_, _, _, _, _, _, _) => RegisterLaidExactly(s, h, b);
    case Get(context, sr) => RequestLaidExactly(s, h, context, sr);
    case GetNext(context, sr) => RequestLaidExactly(s, h, context, sr);
    case Ping(context) => ContextLaidExactly(s, h, context);
    case Response(_, _, _, _) => ResponseLaidExactly(s, big, b);
    case CommitSet | UndoSet | CleanupSet =>
  }

  /** A framed PDU's encoding is the bytes it is laid out in, and there are no others. */
  lemma LaidExactly(s: seq<Byte>, p: Pdu)
    requires FramedKind(p.body)
    ensures PduLaid(s, p) <==> Framed(p) && s == Encode(p)
  {
    if |s| >= 20 {
      var head, tail := s[..20], s[20..];
      assert s == head + tail;
      HeaderLaidExactly(head, p.header);
      BodyLaidExactly(tail, p.header, p.body);
      KindsNumbered(p.body, s[1]);
    }
    if Framed(p) && s == Encode(p) {
      HeaderLength(p.header);
      assert s[..20] == p.header.ToBytes() && s[20..] == BodyBytes(p.header, p.body);
    }
  }

  lemma KindsNumbered(b: Body, n: Byte)
    ensures KindNumbered(b, n) <==> n == TypeOf(b)
  {
  }

  /**
   A buffer decodes to a framed PDU if and only if the PDU is laid out at its front, the rest is left, and the
   payload length stops its loop there.
   */
  lemma DecodesAsLaid(bs: seq<Byte>, p: Pdu, rest: seq<Byte>)
    requires FramedKind(p.body)
    ensures DecodePdu(bs) == Ok((p, rest))
            <==> && |rest| <= |bs| && bs[|bs| - |rest|..] == rest && PduLaid(bs[..|bs| - |rest|], p)
                 && BudgetFits(p.header, p.body, rest != [])
  {
    DecodeExact(bs, p, rest);
    if |rest| <= |bs| {
      var front := bs[..|bs| - |rest|];
      LaidExactly(front, p);
      if Framed(p) {
        FrontCut(bs, Encode(p), rest);
      }
    }
  }

  lemma FrontCut(bs: seq<Byte>, a: seq<Byte>, rest: seq<Byte>)
    requires |rest| <= |bs|
    ensures bs == a + rest <==> bs[|bs| - |rest|..] == rest && bs[..|bs| - |rest|] == a
  {
    assert bs == bs[..|bs| - |rest|] + bs[|bs| - |rest|..];
  }

  // ----- what is not framed -----

  /** The types that are decoded at all. */
  lemma UnsupportedExactly(bs: seq<Byte>)
    ensures DecodePdu(bs) == Raised(UnsupportedError)
            <==> |bs| >= 20 && bs[1] !in {1, 2, 3, 5, 6, 8, 9, 10, 11, 13, 18}
  {
  }

  lemma HeaderReads(bs: seq<Byte>)
    requires |bs| >= 20
    ensures HeaderLaid(bs[..20], HeaderFromBytes(bs))
    ensures forall h :: HeaderLaid(bs[..20], h) ==> h == HeaderFromBytes(bs)
  {
    var h := HeaderFromBytes(bs);
    HeaderExact(bs, h);
    HeaderLaidExactly(bs[..20], h);
    forall g | HeaderLaid(bs[..20], g) ensures g == h {
      HeaderLaidExactly(bs[..20], g);
      HeaderExact(bs, g);
    }
  }

  /** A Close is decoded from its reason and three reserved bytes, which are left for the next PDU to be read from. */
  lemma CloseExactly(bs: seq<Byte>, p: Pdu, rest: seq<Byte>)
    requires p.body.Close?
    ensures DecodePdu(bs) == Ok((p, rest))
            <==> && |bs| >= 24 && bs[1] == 2 && bs[20] == p.body.reason && bs[21..24] == p.body.reserved3 && rest == bs[20..]
                 && p.header.payloadLength == 4
                 && exists n :: HeaderLaid(bs[..20], p.header.(payloadLength := n))
  {
    if |bs| >= 20 {
      var h := HeaderFromBytes(bs);
      HeaderReads(bs);
      assert h.type_ == bs[1];
      var s := bs[20..];
      if ReadBody(h, s).Some? && ReadBody(h, s).value.Ok? {
        TypeNames(h, s);
      }
      if |bs| >= 24 {
        assert s[0] == bs[20] && s[1..4] == bs[21..24];
      }
      if DecodePdu(bs) == Ok((p, rest)) {
        assert p.header.(payloadLength := h.payloadLength) == h;
      }
    }
  }

  ghost predicate TestSetLaid(s: seq<Byte>, big: bool, flagged: bool, context: Option<OctetString>) {
    exists a, b, vs :: s == a + b && VarBindsLaid(b, big, vs) && ContextLaid(a, big, flagged, context)
  }

  /** A TestSet reads its context and then bindings, which it forgets, to the end of the buffer. */
  lemma TestSetExactly(bs: seq<Byte>, p: Pdu, rest: seq<Byte>)
    requires p.body.TestSet?
    ensures DecodePdu(bs) == Ok((p, rest))
            <==> && |bs| >= 20 && bs[1] == 8 && HeaderLaid(bs[..20], p.header) && rest == []
                 && TestSetLaid(bs[20..], NetworkOrder(bs[2]), ContextFlag(bs[2]), p.body.context)
  {
    if |bs| >= 20 {
      var h := HeaderFromBytes(bs);
      HeaderReads(bs);
      TestSetType(h, bs[20..], p.body.context, rest);
      if bs[1] == 8 {
        TestSetReads(h, bs[20..], p.body.context, rest);
      }
    }
  }

  lemma TestSetType(h: PduHeader, s: seq<Byte>, context: Option<OctetString>, rest: seq<Byte>)
    ensures ReadBody(h, s) == Some(Ok((TestSet(context), rest)))
            <==> h.type_ == 8 && ReadTestSet(h, s) == Ok((TestSet(context), rest))
  {
    if ReadBody(h, s) == Some(Ok((TestSet(context), rest))) {
      TypeNames(h, s);
    }
  }

  lemma TestSetReads(h: PduHeader, s: seq<Byte>, context: Option<OctetString>, rest: seq<Byte>)
    ensures ReadTestSet(h, s) == Ok((TestSet(context), rest))
            <==> rest == [] && TestSetLaid(s, NetworkOrder(h.flags), ContextFlag(h.flags), context)
  {
    var big, e := NetworkOrder(h.flags), h.Endianness();
    assert Order(big) == e;
    VarBindCodec(e);
    if ReadTestSet(h, s) == Ok((TestSet(context), rest)) {
      var b := ReadContext(h, s).value.1;
      var vs := ReadMany(VarBindReader(e), b, |b|).value.0;
      ReadContextExact(h, s, context, b);
      ReadManyExact(VarBindReader(e), VarBindEncoder(e), VarBindCheck(), b, |b|, vs, rest);
      assert rest == [] && Concat(VarBindEncoder(e), vs) == b;
      ContextLaidExactly(ContextBytes(context, e), h, context);
      VarBindsLaidExactly(b, big, vs);
    }
    if rest == [] {
      if a, b, vs :| s == a + b && VarBindsLaid(b, big, vs) && ContextLaid(a, big, ContextFlag(h.flags), context) {
        ContextLaidExactly(a, h, context);
        VarBindsLaidExactly(b, big, vs);
        ReadContextExact(h, s, context, b);
        EndStops(vs, e);
        assert b + rest == b;
        ReadManyExact(VarBindReader(e), VarBindEncoder(e), VarBindCheck(), b, |b|, vs, rest);
      }
    }
  }

  lemma EndStops(vs: seq<VarBind>, e: Endian)
    requires All(VarBindCheck(), vs)
    ensures Stops(VarBindEncoder(e), vs, |Concat(VarBindEncoder(e), vs)|, false)
  {
    VarBindCodec(e);
    StopsAtEnd(VarBindEncoder(e), VarBindCheck(), vs, false);
  }
}
