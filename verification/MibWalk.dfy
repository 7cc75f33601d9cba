/**
 GetNext against RFC 2741, section 7.2.3.2. The agent bounds registered prefixes by the end of the
 search range, where the RFC bounds the instances themselves and reads a null end as no bound; and when
 the start is to be included it may answer for an OID below a scalar. The two are compared for all table
 contents, and the walk a manager makes with GetNext is shown to list every instance in the range once,
 in order.
 */
module MibWalk {
  import opened Results
  import opened OidOrder
  import opened Encodings
  import opened MibIndex

  // ----- when bounding prefixes is as good as bounding instances -----

  /** A condition on the registrations and the request alone, one registered prefix at a time. */
  ghost predicate PrefixRespected(t: MibTable, p: Oid, start: Oid, incl: bool, end: Oid)
    requires p in t.entries
  {
    if Under(p, start) then
      if end == [] then true
      else if t.entries[p].Subtree? then Lt(p, end) && !Under(p, end)
      else incl && p == start ==> Lt(start, end)
    else if Lt(start, p) then
      end != [] && (t.entries[p].Subtree? ==> !(Lt(p, end) && Under(p, end)))
    else true
  }

  /**
   The end neither precedes what is left of the start's own subtree nor falls strictly inside a
   registered subtree ahead; and a null end comes only with nothing registered after the start.
   */
  ghost predicate EndRespected(t: MibTable, start: Oid, incl: bool, end: Oid)
    requires t.Valid()
  {
    forall p :: p in t.prefixes ==> PrefixRespected(t, p, start, incl, end)
  }

  lemma RespectedOwner(t: MibTable, start: Oid, incl: bool, end: Oid, q: Oid, o: Oid)
    requires t.Valid() && EndRespected(t, start, incl, end)
    requires t.Owns(q, o) && t.Above(start, incl, o)
    ensures t.Searched(q, start, end) <==> end == [] || Lt(o, end)
  {
    var k := o[|q|..];
    assert o == q + k;
    assert PrefixRespected(t, q, start, incl, end);
    if Under(q, start) {
      PrefixComesFirst(q, start);
      if t.entries[q].Subtree? {
        if end != [] {
          SubtreeBelowOutsider(q, end, k);
        }
      } else {
        assert o == q;
        if Lt(start, o) {
          LtAsymmetric(start, o);
        }
      }
    } else {
      t.OwnerAhead(q, o, start, incl);
      PrefixComesFirst(q, o);
      if Lt(q, end) {
        if t.entries[q].Subtree? {
          SubtreeBelowOutsider(q, end, k);
        }
      } else {
        LtTotal(q, end);
        LeTransitive(end, q, o);
        if Lt(o, end) {
          LtAsymmetric(o, end);
        }
      }
    }
  }

  /** Under the condition the agent picks exactly the RFC's successor. */
  lemma NextIsRfcNext(t: MibTable, start: Oid, incl: bool, end: Oid)
    requires t.Valid() && EndRespected(t, start, incl, end)
    ensures t.Next(start, incl, end) == t.RfcNext(start, incl, end)
  {
    forall o | o in t.Instances() && t.Above(start, incl, o)
      ensures o in t.Candidates(start, incl, end) <==> o in t.RfcCandidates(start, incl, end)
    {
      var q := t.Owner(o);
      RespectedOwner(t, start, incl, end, q, o);
      if o in t.Candidates(start, incl, end) {
        t.CandidateOwner(o, q, start, incl, end);
      }
    }
    assert t.Candidates(start, incl, end) == t.RfcCandidates(start, incl, end);
  }

  /** Two tables register the same prefixes, for the same kinds of entry. */
  ghost predicate SameLayout(t: MibTable, u: MibTable)
    requires t.Valid() && u.Valid()
  {
    t.prefixes == u.prefixes && forall p :: p in t.prefixes ==> (t.entries[p].Scalar? <==> u.entries[p].Scalar?)
  }

  // ----- tables with a single instance, the witnesses that the condition is needed -----

  function SomeValue(t: ValueType): (raw: RawValue)
    ensures Fits(t, raw)
  {
    match LayoutOf(t)
    case AsOctets => RawBytes([])
    case AsOid => RawOid([])
    case _ => RawInt(0)
  }

  function SingleKey(e: Entry, k: Oid): Entry {
    match e
    case Scalar(t, _) => Scalar(t, Some(SomeValue(t)))
    case Subtree(t, _, _) => Subtree(t, s => if Lt(s, k) then Some(k) else None, map[k := SomeValue(t)])
  }

  function Emptied(e: Entry): Entry {
    match e
    case Scalar(t, _) => Scalar(t, None)
    case Subtree(t, _, _) => Subtree(t, _ => None, map[])
  }

  function SingleInstance(t: MibTable, p: Oid, k: Oid): MibTable {
    t.(entries := map q | q in t.entries :: if q == p then SingleKey(t.entries[q], k) else Emptied(t.entries[q]))
  }

  lemma SingleInstanceIs(t: MibTable, p: Oid, k: Oid)
    requires t.Valid() && p in t.prefixes && (t.entries[p].Scalar? <==> k == [])
    ensures var u := SingleInstance(t, p, k);
            u.Valid() && SameLayout(t, u) && u.Instances() == {p + k} && u.Owns(p, p + k)
  {
    var u := SingleInstance(t, p, k);
    assert (p + k)[|p|..] == k;
    forall q | q in u.prefixes ensures q in u.entries && u.entries[q].Meets() {
      assert t.entries[q].Meets();
    }
    assert u.Owns(p, p + k);
    u.OwnerExists(p + k);
    forall o | o in u.Instances() ensures o == p + k {
      var q := u.Owner(o);
      assert q == p;
      assert o == p + o[|p|..];
    }
  }

  function Head(o: Oid): nat {
    if o == [] then 0 else o[0]
  }

  /** A key under `p` beyond both the start and the end. */
  lemma BeyondBoth(p: Oid, start: Oid, end: Oid) returns (k: Oid)
    requires Under(p, start) || Lt(start, p)
    requires Under(p, end) || !Lt(p, end)
    ensures k != [] && Lt(start, p + k) && !Lt(p + k, end)
  {
    k := [1 + Head(Drop(start, |p|)) + Head(Drop(end, |p|))];
    PastInside(p, k, start);
    if Under(p, end) {
      PastInside(p, k, end);
      LtAsymmetric(end, p + k);
    } else {
      PrefixComesFirst(p, p + k);
      LtTotal(p, end);
      LeTransitive(end, p, p + k);
      if Lt(p + k, end) {
        LtAsymmetric(p + k, end);
      }
    }
  }

  lemma PastInside(p: Oid, k: Oid, x: Oid)
    requires |k| == 1 && k[0] > Head(Drop(x, |p|))
    requires Under(p, x) || Lt(x, p)
    ensures Lt(x, p + k)
  {
    if Under(p, x) {
      assert x == p + x[|p|..];
      CommonPrefix(p, x[|p|..], k);
    } else {
      BelowSubtree(x, p, k);
    }
  }

  /** A prefix that breaks the condition comes with contents on which the agent and the RFC differ. */
  lemma Disagreement(t: MibTable, p: Oid, start: Oid, incl: bool, end: Oid) returns (u: MibTable, o: Oid)
    requires t.Valid() && p in t.prefixes && !PrefixRespected(t, p, start, incl, end)
    ensures u.Valid() && SameLayout(t, u) && u.Instances() == {o}
    ensures u.Next(start, incl, end) != u.RfcNext(start, incl, end)
  {
    LtIrreflexive(start);
    if Under(p, start) {
      PrefixComesFirst(p, start);
      if Lt(start, p) {
        LtAsymmetric(start, p);
      }
    }
    var k := [];
    if t.entries[p].Subtree? {
      if end == [] {
        k := [0];
        BelowSubtree(start, p, k);
      } else {
        k := BeyondBoth(p, start, end);
      }
    }
    u := SingleInstance(t, p, k);
    SingleInstanceIs(t, p, k);
    o := p + k;
    assert k == [] ==> o == p;
    assert t.Above(start, incl, o);
    if u.Searched(p, start, end) {
      u.CandidateIf(o, p, start, incl, end);
      assert o !in u.RfcCandidates(start, incl, end);
      assert u.RfcCandidates(start, incl, end) == {};
    } else {
      assert o in u.RfcCandidates(start, incl, end);
      if o in u.Candidates(start, incl, end) {
        u.CandidateOwner(o, p, start, incl, end);
      }
      assert u.Candidates(start, incl, end) == {};
    }
  }

  /**
   The agent's choice among the instances is the RFC's, whatever the registered entries contain, exactly
   when the end of the range respects the registered subtrees.
   */
  lemma EndConditionExact(t: MibTable, start: Oid, incl: bool, end: Oid)
    requires t.Valid()
    ensures EndRespected(t, start, incl, end)
            <==> forall u: MibTable :: u.Valid() && SameLayout(t, u) ==>
                                         u.Next(start, incl, end) == u.RfcNext(start, incl, end)
  {
    if EndRespected(t, start, incl, end) {
      forall u: MibTable | u.Valid() && SameLayout(t, u)
        ensures u.Next(start, incl, end) == u.RfcNext(start, incl, end)
      {
        forall p | p in u.prefixes ensures PrefixRespected(u, p, start, incl, end) {
          assert PrefixRespected(t, p, start, incl, end);
        }
        NextIsRfcNext(u, start, incl, end);
      }
    } else {
      var p :| p in t.prefixes && !PrefixRespected(t, p, start, incl, end);
      var u, _ := Disagreement(t, p, start, incl, end);
    }
  }

  // ----- the answer -----

  /** A scalar is registered strictly above the start; with "include" its callable may answer for the start. */
  ghost predicate BelowScalar(t: MibTable, start: Oid)
    requires t.Valid()
  {
    exists p :: p in t.prefixes && t.entries[p].Scalar? && Under(p, start) && p != start
  }

  lemma OverreachIsBelowScalar(t: MibTable, start: Oid)
    requires t.Valid()
    ensures t.Overreach(start) ==> BelowScalar(t, start)
    ensures forall p :: (p in t.prefixes && t.entries[p].Scalar? && t.entries[p].scalar.Some?
                         && Under(p, start) && p != start) ==>
                          t.Overreach(start) && FindParentPrefix(t.prefixes, start) == Some(p)
  {
    forall p | p in t.prefixes && Under(p, start) ensures FindParentPrefix(t.prefixes, start) == Some(p) {
      FindParentPrefixExact(t.prefixes, start, p);
    }
  }

  /** A binding made from an entry's value is not END_OF_MIB_VIEW. */
  lemma ValueIsNoEnd(t: MibTable, p: Oid, name: Oid, raw: RawValue, vb: VarBind)
    requires t.Valid() && p in t.prefixes && Fits(t.entries[p].type_, raw) && vb.type_ == EndOfMibView
    ensures FromTypecast(t.entries[p].type_, name, raw) != Ok(vb)
  {
    assert t.entries[p].Meets();
  }

  lemma BindingIsNoEnd(t: MibTable, o: Oid, vb: VarBind)
    requires t.Valid() && o in t.Instances() && vb.type_ == EndOfMibView
    ensures t.Binding(o) != Ok(vb)
  {
    t.BindingName(t.Owner(o), o);
    assert t.entries[t.Owner(o)].Meets();
  }

  /** Where the choices differ in a table with one instance, so do the answers. */
  lemma ChoiceShows(u: MibTable, sr: SearchRange, o: Oid)
    requires u.Valid() && u.Instances() == {o} && !(sr.start.incl != 0 && u.Overreach(sr.start.ToTuple()))
    requires u.Next(sr.start.ToTuple(), sr.start.incl != 0, sr.end.ToTuple())
             != u.RfcNext(sr.start.ToTuple(), sr.start.incl != 0, sr.end.ToTuple())
    ensures u.NextBinding(sr) != u.RfcNextBinding(sr)
  {
    BindingIsNoEnd(u, o, VarBind(EndOfMibView, 0, sr.start, NoData));
  }

  /** A valued scalar answers an including request below it with a name that is no instance. */
  lemma ScalarOverreaches(t: MibTable, sr: SearchRange, p: Oid) returns (u: MibTable)
    requires t.Valid() && p in t.prefixes && t.entries[p].Scalar?
    requires Under(p, sr.start.ToTuple()) && p != sr.start.ToTuple() && sr.start.incl != 0
    ensures u.Valid() && SameLayout(t, u) && u.NextBinding(sr) != u.RfcNextBinding(sr)
  {
    var start := sr.start.ToTuple();
    u := SingleInstance(t, p, []);
    SingleInstanceIs(t, p, []);
    assert p + [] == p;
    OverreachIsBelowScalar(u, start);
    PrefixComesFirst(p, start);
    assert u.RfcNext(start, true, sr.end.ToTuple()) == None by {
      if Lt(start, p) {
        LtAsymmetric(start, p);
      }
      assert u.RfcCandidates(start, true, sr.end.ToTuple()) == {};
    }
    ValueIsNoEnd(u, p, start, u.entries[p].scalar.value, VarBind(EndOfMibView, 0, sr.start, NoData));
  }

  /**
   GetNext answers as the RFC asks, whatever the registered entries contain, exactly when the end of the
   range respects the registered subtrees and no including request starts strictly below a scalar.
   */
  lemma GetNextExact(t: MibTable, sr: SearchRange)
    requires t.Valid()
    ensures var start, incl, end := sr.start.ToTuple(), sr.start.incl != 0, sr.end.ToTuple();
            EndRespected(t, start, incl, end) && !(incl && BelowScalar(t, start))
            <==> forall u: MibTable :: u.Valid() && SameLayout(t, u) ==> u.NextBinding(sr) == u.RfcNextBinding(sr)
  {
    var start, incl, end := sr.start.ToTuple(), sr.start.incl != 0, sr.end.ToTuple();
    if incl && BelowScalar(t, start) {
      var p :| p in t.prefixes && t.entries[p].Scalar? && Under(p, start) && p != start;
      var u := ScalarOverreaches(t, sr, p);
    } else if EndRespected(t, start, incl, end) {
      EndConditionExact(t, start, incl, end);
      forall u: MibTable | u.Valid() && SameLayout(t, u) ensures u.NextBinding(sr) == u.RfcNextBinding(sr) {
        OverreachIsBelowScalar(u, start);
      }
    } else {
      var p :| p in t.prefixes && !PrefixRespected(t, p, start, incl, end);
      var u, o := Disagreement(t, p, start, incl, end);
      OverreachIsBelowScalar(u, start);
      ChoiceShows(u, sr, o);
    }
  }

  // ----- the walk -----

  /** Every instance's name survives its wire form and its value converts. */
  ghost predicate Walkable(t: MibTable) {
    t.Valid() && forall o :: o in t.Instances() ==> Representable(o) && t.Binding(o).Ok?
  }

  ghost function InstancesAbove(t: MibTable, start: Oid): set<Oid>
    requires t.Valid()
  {
    set o | o in t.Instances() && Lt(start, o)
  }

  lemma FewerAbove(t: MibTable, start: Oid, o: Oid)
    requires t.Valid() && (o in t.Instances() && Lt(start, o))
    ensures InstancesAbove(t, o) < InstancesAbove(t, start)
  {
    forall x | x in InstancesAbove(t, o) ensures x in InstancesAbove(t, start) {
      LtTransitive(start, o, x);
    }
    LtIrreflexive(o);
    assert o in InstancesAbove(t, start) && o !in InstancesAbove(t, o);
  }

  /** An answer other than END_OF_MIB_VIEW to a plain request names the agent's successor. */
  lemma AnswerIsNext(t: MibTable, start: ObjectIdentifier, end: ObjectIdentifier)
    requires Walkable(t) && start.incl == 0
    ensures var r, n := t.NextBinding(SearchRange(start, end)), t.Next(start.ToTuple(), false, end.ToTuple());
            && r.Ok? && (r.value.type_ == EndOfMibView <==> n == None)
            && match n
               case None => r == Ok(VarBind(EndOfMibView, 0, start, NoData))
               case Some(o) => && o in t.Instances() && Lt(start.ToTuple(), o) && r == t.Binding(o)
                               && r.value.name.ToTuple() == o && r.value.name.incl == 0
  {
    var n := t.Next(start.ToTuple(), false, end.ToTuple());
    if n.Some? {
      t.BindingName(t.Owner(n.value), n.value);
    }
  }

  /** The names a walk visits: successor after successor. */
  ghost function Successors(t: MibTable, start: Oid, end: Oid): seq<Oid>
    requires t.Valid()
    decreases InstancesAbove(t, start)
  {
    match t.Next(start, false, end)
    case None => []
    case Some(n) =>
      FewerAbove(t, start, n);
      [n] + Successors(t, n, end)
  }

  /** The manager's walk: each answer's name is the next start, until END_OF_MIB_VIEW. */
  ghost function Walk(t: MibTable, start: ObjectIdentifier, end: ObjectIdentifier): seq<VarBind>
    requires Walkable(t) && start.incl == 0
    decreases InstancesAbove(t, start.ToTuple())
  {
    AnswerIsNext(t, start, end);
    var vb := t.NextBinding(SearchRange(start, end)).value;
    if vb.type_ == EndOfMibView then []
    else
      FewerAbove(t, start.ToTuple(), vb.name.ToTuple());
      [vb] + Walk(t, vb.name, end)
  }

  function Names(w: seq<VarBind>): seq<Oid> {
    seq(|w|, i requires 0 <= i < |w| => w[i].name.ToTuple())
  }

  /** The list has exactly the members of the set, each once, in increasing order. */
  ghost predicate Lists(names: seq<Oid>, s: set<Oid>) {
    && (forall i, j :: 0 <= i < j < |names| ==> Lt(names[i], names[j]))
    && (forall o :: o in names <==> o in s)
  }

  lemma ListsMore(n: Oid, names: seq<Oid>, s: set<Oid>)
    requires Lists(names, s) && forall o :: o in s ==> Lt(n, o)
    ensures Lists([n] + names, {n} + s)
  {
  }

  lemma RespectedOnwards(t: MibTable, start: Oid, end: Oid, o: Oid)
    requires t.Valid() && EndRespected(t, start, false, end)
    requires t.Next(start, false, end) == Some(o)
    ensures EndRespected(t, o, false, end)
  {
    var q := t.Owner(o);
    t.CandidateOwner(o, q, start, false, end);
    forall p | p in t.prefixes ensures PrefixRespected(t, p, o, false, end) {
      assert PrefixRespected(t, p, start, false, end);
      if Under(p, o) {
        t.OwnerUnique(p, q, o);
        if !Under(p, start) {
          t.OwnerAhead(p, o, start, false);
        }
      } else if Lt(o, p) {
        LtTransitive(start, o, p);
        if Under(p, start) {
          PrefixComesFirst(p, start);
          LtAsymmetric(start, p);
        }
      }
    }
  }

  /** The RFC's candidates after `start` are its successor and the candidates after that. */
  lemma CandidatesOnwards(t: MibTable, start: Oid, end: Oid, n: Oid)
    requires t.Valid() && t.RfcNext(start, false, end) == Some(n)
    ensures t.RfcCandidates(start, false, end) == {n} + t.RfcCandidates(n, false, end)
    ensures forall o :: o in t.RfcCandidates(n, false, end) ==> Lt(n, o)
  {
    forall o | o in t.RfcCandidates(start, false, end) ensures o in {n} + t.RfcCandidates(n, false, end) {
      assert Le(n, o);
    }
    forall o | o in t.RfcCandidates(n, false, end) ensures o in t.RfcCandidates(start, false, end) {
      LtTransitive(start, n, o);
    }
  }

  lemma {:induction false} SuccessorsComplete(t: MibTable, start: Oid, end: Oid)
    requires t.Valid() && EndRespected(t, start, false, end)
    ensures Lists(Successors(t, start, end), t.RfcCandidates(start, false, end))
    decreases InstancesAbove(t, start)
  {
    NextIsRfcNext(t, start, false, end);
    var next := t.Next(start, false, end);
    if next.Some? {
      var n := next.value;
      FewerAbove(t, start, n);
      RespectedOnwards(t, start, end, n);
      SuccessorsComplete(t, n, end);
      CandidatesOnwards(t, start, end, n);
      ListsMore(n, Successors(t, n, end), t.RfcCandidates(n, false, end));
    }
  }

  lemma NamesMore(vb: VarBind, w: seq<VarBind>)
    ensures Names([vb] + w) == [vb.name.ToTuple()] + Names(w)
  {
  }

  lemma {:induction false} WalkNames(t: MibTable, start: ObjectIdentifier, end: ObjectIdentifier)
    requires Walkable(t) && start.incl == 0
    ensures Names(Walk(t, start, end)) == Successors(t, start.ToTuple(), end.ToTuple())
    decreases InstancesAbove(t, start.ToTuple())
  {
    AnswerIsNext(t, start, end);
    var vb := t.NextBinding(SearchRange(start, end)).value;
    if vb.type_ != EndOfMibView {
      FewerAbove(t, start.ToTuple(), vb.name.ToTuple());
      WalkNames(t, vb.name, end);
      NamesMore(vb, Walk(t, vb.name, end));
    }
  }

  /**
   The walk visits exactly the instances strictly between start and end, each once, in increasing
   order.
   */
  lemma WalkComplete(t: MibTable, start: ObjectIdentifier, end: ObjectIdentifier)
    requires Walkable(t) && start.incl == 0 && EndRespected(t, start.ToTuple(), false, end.ToTuple())
    ensures Lists(Names(Walk(t, start, end)), t.RfcCandidates(start.ToTuple(), false, end.ToTuple()))
  {
    WalkNames(t, start, end);
    SuccessorsComplete(t, start.ToTuple(), end.ToTuple());
  }

  ghost predicate AnsweredEnd(t: MibTable, last: ObjectIdentifier, end: ObjectIdentifier)
    requires t.Valid()
  {
    t.NextBinding(SearchRange(last, end)) == Ok(VarBind(EndOfMibView, 0, last, NoData))
  }

  ghost predicate OwnBinding(t: MibTable, vb: VarBind)
    requires t.Valid()
  {
    vb.name.ToTuple() in t.Instances() && Ok(vb) == t.Binding(vb.name.ToTuple())
  }

  /** Each visited instance comes with its own value, and the walk ends because the agent says so. */
  lemma {:induction false} WalkBindings(t: MibTable, start: ObjectIdentifier, end: ObjectIdentifier)
    requires Walkable(t) && start.incl == 0
    ensures var w := Walk(t, start, end);
            && (forall vb :: vb in w ==> OwnBinding(t, vb))
            && AnsweredEnd(t, if w == [] then start else w[|w| - 1].name, end)
    decreases InstancesAbove(t, start.ToTuple())
  {
    AnswerIsNext(t, start, end);
    var vb := t.NextBinding(SearchRange(start, end)).value;
    if vb.type_ != EndOfMibView {
      FewerAbove(t, start.ToTuple(), vb.name.ToTuple());
      WalkBindings(t, vb.name, end);
      assert OwnBinding(t, vb);
    }
  }
}
