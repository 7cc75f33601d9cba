/**
 The MIB index: a table of registered prefixes, each owning a scalar or a subtree of instances, that
 answers Get and GetNext. The specification it is measured against knows nothing of sorting or
 bisection: an answer is the least member of a finite set of instantiated OIDs.
 */
module MibIndex {
  import opened Results
  import opened OidOrder
  import opened Encodings

  // ----- least elements of finite sets of OIDs -----

  ghost predicate LeastIn(s: set<Oid>, o: Oid) {
    o in s && forall x :: x in s ==> Le(o, x)
  }

  lemma {:induction false} LeastExists(s: set<Oid>)
    requires s != {}
    ensures exists o :: LeastIn(s, o)
    decreases |s|
  {
    var x :| x in s;
    var rest := s - {x};
    if rest == {} {
      assert s == {x};
      assert LeastIn(s, x);
    } else {
      LeastExists(rest);
      var y :| LeastIn(rest, y);
      LtTotal(x, y);
      var o := if Lt(x, y) then x else y;
      forall z | z in s ensures Le(o, z) {
        if z != x {
          assert z in rest;
          LeTransitive(o, y, z);
        }
      }
      assert LeastIn(s, o);
    }
  }

  lemma LeastUnique(s: set<Oid>, a: Oid, b: Oid)
    requires LeastIn(s, a) && LeastIn(s, b)
    ensures a == b
  {
    if a != b {
      LtAsymmetric(a, b);
    }
  }

  ghost function Least(s: set<Oid>): (r: Option<Oid>)
    ensures r.None? <==> s == {}
    ensures r.Some? ==> LeastIn(s, r.value)
  {
    if s == {} then None
    else
      LeastExists(s);
      var o :| LeastIn(s, o);
      Some(o)
  }

  lemma LeastIs(s: set<Oid>, o: Oid)
    requires LeastIn(s, o)
    ensures Least(s) == Some(o)
  {
    LeastUnique(s, Least(s).value, o);
  }

  // ----- entries -----

  predicate ExceptionType(t: ValueType) {
    t.NoSuchObject? || t.NoSuchInstance? || t.EndOfMibView?
  }

  /** The contract of an iterator over the key set `keys`: the least key above its argument. */
  ghost predicate NextAbove(keys: set<Oid>, s: Oid, r: Option<Oid>) {
    match r
    case None => forall k :: k in keys ==> !Lt(s, k)
    case Some(n) => n in keys && Lt(s, n) && forall k :: k in keys && Lt(s, k) ==> Le(n, k)
  }

  /**
   A registered entry. A scalar's callable takes no sub-identifier; a subtree has an iterator and a
   callable that knows a finite set of keys (an exception in either reads as None).
   */
  datatype Entry =
    | Scalar(type_: ValueType, scalar: Option<RawValue>)
    | Subtree(type_: ValueType, next: Oid -> Option<Oid>, values: map<Oid, RawValue>)
  {
    /** Calling the entry. The scalar ignores the sub-identifier it is asked for. */
    function Call(sub: Oid): Option<RawValue> {
      match this
      case Scalar(_, v) => v
      case Subtree(_, _, vs) => if sub in vs then Some(vs[sub]) else None
    }

    function GetNext(sub: Oid): Option<Oid> {
      match this
      case Scalar(_, _) => None
      case Subtree(_, nxt, _) => nxt(sub)
    }

    /** The first thing the entry's iteration yields, if it yields anything. */
    function First(): Option<Oid> {
      match this
      case Scalar(_, _) => Some([])
      case Subtree(_, nxt, _) => nxt([])
    }

    ghost function Keys(): set<Oid> {
      match this
      case Scalar(_, v) => if v.Some? then {[]} else {}
      case Subtree(_, _, vs) => vs.Keys
    }

    ghost predicate Meets() {
      && !ExceptionType(type_)
      && match this
         case Scalar(t, v) => v.Some? ==> Fits(t, v.value)
         case Subtree(t, nxt, vs) =>
           && [] !in vs
           && (forall k :: k in vs ==> Fits(t, vs[k]))
           && (forall s :: NextAbove(vs.Keys, s, nxt(s)))
    }
  }

  lemma FirstIsLeast(e: Entry)
    requires e.Meets()
    ensures e.First().None? || e.Call(e.First().value).None? <==> e.Keys() == {}
    ensures e.Keys() != {} ==> LeastIn(e.Keys(), e.First().value)
  {
    if e.Subtree? {
      assert NextAbove(e.values.Keys, [], e.next([]));
      forall k | k in e.values ensures Lt([], k) {
      }
    }
  }

  /** No registered prefix extends another. A prefix may be listed twice. */
  ghost predicate PrefixFree(ps: seq<Oid>) {
    forall p, q :: p in ps && q in ps && Under(p, q) ==> p == q
  }

  /** `preceding_oids[-1]`: the last registered prefix, in sorted order, not above the OID. */
  function Preceding(ps: seq<Oid>, item: Oid): Option<Oid> {
    var oids := Sort(ps);
    var n := BisectRight(oids, item);
    if n == 0 then None else Some(oids[n - 1])
  }

  ghost predicate GreatestNotAbove(ps: seq<Oid>, item: Oid, r: Option<Oid>) {
    match r
    case None => forall x :: x in ps ==> !Le(x, item)
    case Some(last) => last in ps && Le(last, item) && forall x :: x in ps && Le(x, item) ==> Le(x, last)
  }

  lemma PrecedingIsGreatest(ps: seq<Oid>, item: Oid)
    ensures GreatestNotAbove(ps, item, Preceding(ps, item))
  {
    SortSorts(ps);
    var oids := Sort(ps);
    var n := BisectRight(oids, item);
    BisectRightSplits(oids, item);
    if n > 0 {
      assert oids[n - 1] in oids;
    }
    forall x | x in ps && Le(x, item) ensures n > 0 && Le(x, oids[n - 1]) {
      assert x in oids;
      var i :| 0 <= i < |oids| && oids[i] == x;
      if n <= i {
        LtAsymmetric(item, x);
      }
    }
  }

  function FindParentPrefix(ps: seq<Oid>, item: Oid): (r: Option<Oid>)
    ensures r.Some? ==> r.value in ps && Under(r.value, item)
  {
    PrecedingIsGreatest(ps, item);
    match Preceding(ps, item)
    case None => None
    case Some(last) => if last == Take(item, |last|) then Some(last) else None
  }

  /** With prefix-free registrations the search finds `p` exactly when `p` is the registered prefix. */
  lemma FindParentPrefixExact(ps: seq<Oid>, item: Oid, p: Oid)
    requires PrefixFree(ps)
    ensures FindParentPrefix(ps, item) == Some(p) <==> p in ps && Under(p, item)
  {
    if p in ps && Under(p, item) {
      PrecedingIsGreatest(ps, item);
      PrefixComesFirst(p, item);
      var last := Preceding(ps, item).value;
      SubtreeConvex(p, p, last, item);
      assert last == p;
    }
  }

  /**
   Without prefix-freeness the search is not a prefix search: it looks at the nearest registered
   predecessor only. It agrees with "some registered prefix covers the OID" on every OID exactly when
   the registrations are prefix-free.
   */
  lemma PrefixSearchNeedsPrefixFree(ps: seq<Oid>)
    ensures (forall item :: FindParentPrefix(ps, item).Some? <==> exists p :: p in ps && Under(p, item))
            <==> PrefixFree(ps)
  {
    if PrefixFree(ps) {
      forall item ensures FindParentPrefix(ps, item).Some? <==> exists p :: p in ps && Under(p, item) {
        if p :| p in ps && Under(p, item) {
          FindParentPrefixExact(ps, item, p);
        }
      }
    } else {
      var p, q :| p in ps && q in ps && Under(p, q) && p != q;
      var item := MissedOid(ps, p, q);
      assert FindParentPrefix(ps, item).None?;
    }
  }

  /** The OID the search misses when `q` extends `p`: the increment of the last registered extension. */
  lemma MissedOid(ps: seq<Oid>, p: Oid, q: Oid) returns (item: Oid)
    requires p in ps && q in ps && Under(p, q) && p != q
    ensures Under(p, item) && FindParentPrefix(ps, item).None?
  {
    var ext := LastExtension(ps, p, q);
    item := Increased(ext);
    var stem := ext[..|ext| - 1];
    assert Under(p, stem) && Under(stem, item);
    IncrementBoundsSubtree(ext, ext);
    PrecedingIsGreatest(ps, item);
    var last := Preceding(ps, item).value;
    if Under(last, item) {
      MissedNotRegistered(p, ext, last);
    }
  }

  /** Between an extension of `p` and its increment only the increment is a prefix of the increment. */
  lemma MissedNotRegistered(p: Oid, ext: Oid, last: Oid)
    requires ext != [] && Under(p, ext) && p != ext
    requires Under(last, Increased(ext)) && Le(ext, last)
    ensures Under(p, last) && last != p && !Le(last, ext)
  {
    var item, stem := Increased(ext), ext[..|ext| - 1];
    IncrementBoundsSubtree(ext, ext);
    if |last| < |item| {
      assert last == item[..|last|] == stem[..|last|] == ext[..|last|];
      PrefixComesFirst(last, ext);
      LtAsymmetric(last, ext);
    }
    assert last == item;
    assert Under(p, stem);
    LtAsymmetric(ext, item);
  }

  /** The greatest registered strict extension of `p`. */
  lemma LastExtension(ps: seq<Oid>, p: Oid, q: Oid) returns (last: Oid)
    requires q in ps && Under(p, q) && p != q
    ensures last in ps && Under(p, last) && p != last
    ensures forall x :: x in ps && Under(p, x) && x != p ==> Le(x, last)
  {
    last := q;
    for i := 0 to |ps|
      invariant last in ps && Under(p, last) && p != last
      invariant forall x :: x in ps[..i] && Under(p, x) && x != p ==> Le(x, last)
    {
      var before := last;
      if Under(p, ps[i]) && ps[i] != p && Lt(last, ps[i]) {
        last := ps[i];
      }
      forall x | x in ps[..i + 1] && Under(p, x) && x != p ensures Le(x, last) {
        LtTotal(ps[i], before);
        if x in ps[..i] {
          LeTransitive(x, before, last);
        }
      }
    }
    assert ps[..|ps|] == ps;
  }

  // ----- the table -----

  /** What sorts after an OID stands after its insertion point. */
  lemma PastBisection(oids: seq<Oid>, x: Oid, q: Oid)
    requires Ascending(oids) && q in oids && Lt(x, q)
    ensures q in oids[BisectRight(oids, x)..]
  {
    BisectRightSplits(oids, x);
    var n := BisectRight(oids, x);
    var i :| 0 <= i < |oids| && oids[i] == q;
    if i < n {
      LtAsymmetric(x, q);
    }
    assert oids[n..][i - n] == q;
  }

  datatype MibTable = MibTable(prefixes: seq<Oid>, entries: map<Oid, Entry>) {

    ghost predicate Valid() {
      && PrefixFree(prefixes)
      && forall p :: p in prefixes ==> p in entries && entries[p].Meets()
    }

    /** The instantiated OIDs. */
    ghost function Instances(): set<Oid>
      requires Valid()
    {
      set p, k | p in prefixes && k in entries[p].Keys() :: p + k
    }

    /** `o` is instantiated under the registered prefix `p`. */
    ghost predicate Owns(p: Oid, o: Oid)
      requires Valid()
    {
      p in prefixes && Under(p, o) && o[|p|..] in entries[p].Keys()
    }

    ghost predicate Above(start: Oid, incl: bool, o: Oid) {
      Lt(start, o) || (incl && o == start)
    }

    /** What RFC 2741, section 7.2.3.2, lets GetNext choose from: a null end is no bound. */
    ghost function RfcCandidates(start: Oid, incl: bool, end: Oid): set<Oid>
      requires Valid()
    {
      set o | o in Instances() && Above(start, incl, o) && (end == [] || Lt(o, end))
    }

    /** A prefix the agent looks under: the start's own, or one that sorts before the end. */
    ghost predicate Searched(p: Oid, start: Oid, end: Oid) {
      Under(p, start) || Lt(p, end)
    }

    /** What the agent chooses from: it bounds prefixes, not instances. */
    ghost function Candidates(start: Oid, incl: bool, end: Oid): set<Oid>
      requires Valid()
    {
      set o | o in Instances() && Above(start, incl, o) && exists p :: Owns(p, o) && Searched(p, start, end)
    }

    ghost function Owner(o: Oid): (p: Oid)
      requires Valid() && o in Instances()
      ensures Owns(p, o)
    {
      OwnerExists(o);
      var p :| Owns(p, o);
      p
    }

    /** The variable binding of an instantiated OID: its owner's type and value under the OID's name. */
    ghost function Binding(o: Oid): Result<VarBind, CodecError>
      requires Valid() && o in Instances()
    {
      var p := Owner(o);
      OwnedValue(p, o);
      FromTypecast(entries[p].type_, o, entries[p].Call(o[|p|..]).value)
    }

    lemma OwnerExists(o: Oid)
      requires Valid()
      ensures o in Instances() <==> exists p :: Owns(p, o)
    {
      if o in Instances() {
        var p, k :| p in prefixes && k in entries[p].Keys() && o == p + k;
        assert o[|p|..] == k;
        assert Owns(p, o);
      }
      if p :| Owns(p, o) {
        assert o == p + o[|p|..];
      }
    }

    lemma OwnerUnique(p: Oid, q: Oid, o: Oid)
      requires Valid() && p in prefixes && q in prefixes && Under(p, o) && Under(q, o)
      ensures p == q
    {
      assert |p| <= |q| ==> Under(p, q);
      assert |q| <= |p| ==> Under(q, p);
    }

    lemma OwnedValue(p: Oid, o: Oid)
      requires Valid() && Owns(p, o)
      ensures entries[p].Call(o[|p|..]).Some? && Fits(entries[p].type_, entries[p].Call(o[|p|..]).value)
    {
    }

    lemma BindingOf(p: Oid, o: Oid)
      requires Valid() && Owns(p, o)
      ensures o in Instances() && entries[p].Call(o[|p|..]).Some?
      ensures Fits(entries[p].type_, entries[p].Call(o[|p|..]).value)
      ensures Binding(o) == FromTypecast(entries[p].type_, o, entries[p].Call(o[|p|..]).value)
    {
      OwnerExists(o);
      OwnedValue(p, o);
      OwnerUnique(p, Owner(o), o);
    }

    /** What the owner of an instance holds for it. */
    function ValueOf(p: Oid, o: Oid): RawValue
      requires p in entries && Under(p, o)
      requires match entries[p] case Scalar(_, v) => v.Some? case Subtree(_, _, vs) => o[|p|..] in vs
    {
      match entries[p]
      case Scalar(_, v) => v.value
      case Subtree(_, _, vs) => vs[o[|p|..]]
    }

    /** The answer says what the owner `p` holds for the instance `o`. */
    ghost predicate Gives(r: Result<VarBind, CodecError>, p: Oid, o: Oid)
      requires Valid() && Owns(p, o)
    {
      Says(r, entries[p].type_, o, ValueOf(p, o))
    }

    lemma BindingGives(p: Oid, o: Oid)
      requires Valid() && Owns(p, o)
      ensures o in Instances() && Gives(Binding(o), p, o)
    {
      BindingOf(p, o);
      TypecastSays(entries[p].type_, o, ValueOf(p, o));
    }

    // ----- Get -----

    /** The value the entry at `p` gives for `oid`, under the requested name. */
    function GetValue(p: Oid, oid: Oid): (r: Option<Result<VarBind, CodecError>>)
      requires Valid() && p in prefixes
    {
      var entry := entries[p];
      match entry.Call(Drop(oid, |p|))
      case None => None
      case Some(value) => Some(FromTypecast(entry.type_, oid, value))
    }

    function Get(sr: SearchRange): Result<VarBind, CodecError>
      requires Valid()
    {
      var oid := sr.start.ToTuple();
      match FindParentPrefix(prefixes, oid)
      case None => Ok(VarBind(NoSuchObject, 0, sr.start, NoData))
      case Some(p) =>
        match GetValue(p, oid)
        case Some(vr) => vr
        case None => Ok(VarBind(NoSuchInstance, 0, sr.start, NoData))
    }

    /** A valued scalar is registered strictly above `oid`, and its callable would answer for `oid`. */
    predicate Overreach(oid: Oid)
      requires Valid()
    {
      match FindParentPrefix(prefixes, oid)
      case None => false
      case Some(p) => entries[p].Scalar? && entries[p].scalar.Some? && p != oid
    }

    /** A registered prefix covers `oid`, but nothing is instantiated under it. */
    ghost predicate Hollow(oid: Oid)
      requires Valid()
    {
      exists p :: p in prefixes && Under(p, oid) && entries[p].Keys() == {}
    }

    /** `oid` matches the prefix of an instantiated variable, as clause (3) of RFC 2741, section 7.2.3.1, asks. */
    ghost predicate MatchesVariable(oid: Oid)
      requires Valid()
    {
      exists p :: p in prefixes && Under(p, oid) && entries[p].Keys() != {}
    }

    /** RFC 2741, section 7.2.3.1. */
    ghost function RfcGet(sr: SearchRange): Result<VarBind, CodecError>
      requires Valid()
    {
      var oid := sr.start.ToTuple();
      if oid in Instances() then Binding(oid)
      else if MatchesVariable(oid) then Ok(VarBind(NoSuchInstance, 0, sr.start, NoData))
      else Ok(VarBind(NoSuchObject, 0, sr.start, NoData))
    }

    /**
     Get is the RFC's Get exactly on the requests that neither reach below a valued scalar nor fall under a
     registered prefix without instances.
     */
    lemma GetExact(sr: SearchRange)
      requires Valid()
      ensures Get(sr) == RfcGet(sr) <==> !Overreach(sr.start.ToTuple()) && !Hollow(sr.start.ToTuple())
    {
      var oid := sr.start.ToTuple();
      OwnerExists(oid);
      match FindParentPrefix(prefixes, oid)
      case None =>
        forall p | p in prefixes ensures !Under(p, oid) {
          FindParentPrefixExact(prefixes, oid, p);
        }
      case Some(p) =>
        assert Drop(oid, |p|) == oid[|p|..];
        OnlyCover(p, oid);
        if Owns(p, oid) {
          BindingOf(p, oid);
        } else {
          NotOwned(p, oid);
        }
    }

    /** The prefix the search finds is the one that decides whether a variable is matched. */
    lemma OnlyCover(p: Oid, oid: Oid)
      requires Valid() && p in prefixes && Under(p, oid)
      ensures Hollow(oid) <==> entries[p].Keys() == {}
      ensures MatchesVariable(oid) <==> entries[p].Keys() != {}
    {
      forall q | q in prefixes && Under(q, oid) ensures q == p {
        OwnerUnique(p, q, oid);
      }
    }

    lemma NotOwned(p: Oid, o: Oid)
      requires Valid() && p in prefixes && Under(p, o) && !Owns(p, o)
      ensures o !in Instances() && (o[|p|..] == [] <==> o == p)
    {
      OwnerExists(o);
      if q :| Owns(q, o) {
        OwnerUnique(p, q, o);
      }
      assert o == p + o[|p|..];
    }

    ghost predicate Registered(oid: Oid)
      requires Valid()
    {
      exists p :: p in prefixes && Under(p, oid)
    }

    lemma GetIs(sr: SearchRange)
      requires Valid() && !Overreach(sr.start.ToTuple())
      ensures var oid := sr.start.ToTuple();
              Get(sr) == if oid in Instances() then Binding(oid)
                         else Ok(VarBind(if Registered(oid) then NoSuchInstance else NoSuchObject, 0, sr.start, NoData))
    {
      var oid := sr.start.ToTuple();
      OwnerExists(oid);
      match FindParentPrefix(prefixes, oid)
      case None => NoParent(oid);
      case Some(p) =>
        assert Drop(oid, |p|) == oid[|p|..] && Registered(oid);
        if Owns(p, oid) {
          BindingOf(p, oid);
        } else {
          NotOwned(p, oid);
        }
    }

    /** `p` is registered as a valued scalar above `oid`. */
    predicate ScalarAbove(p: Oid, oid: Oid)
      requires Valid()
    {
      p in prefixes && Under(p, oid) && p != oid && entries[p].Scalar? && entries[p].scalar.Some?
    }

    ghost predicate BelowValue(oid: Oid)
      requires Valid()
    {
      exists p :: ScalarAbove(p, oid)
    }

    /** Below a valued scalar Get gives the scalar's value under the requested name. */
    lemma GetBelow(sr: SearchRange, p: Oid)
      requires Valid() && ScalarAbove(p, sr.start.ToTuple())
      ensures var oid := sr.start.ToTuple();
              && oid !in Instances() && Registered(oid)
              && Get(sr) == FromTypecast(entries[p].type_, oid, entries[p].scalar.value)
    {
      var oid := sr.start.ToTuple();
      FindParentPrefixExact(prefixes, oid, p);
      assert !Owns(p, oid) by {
        assert oid == p + oid[|p|..];
      }
      NotOwned(p, oid);
    }

    lemma OverreachIs(oid: Oid)
      requires Valid()
      ensures Overreach(oid) <==> BelowValue(oid)
    {
      match FindParentPrefix(prefixes, oid)
      case None => NoParent(oid);
      case Some(p) =>
        if q :| ScalarAbove(q, oid) {
          OwnerUnique(p, q, oid);
        }
        if Overreach(oid) {
          assert ScalarAbove(p, oid);
        }
    }

    function Absent(type_: ValueType, sr: SearchRange): Result<VarBind, CodecError> {
      Ok(VarBind(type_, 0, sr.start, NoData))
    }

    lemma AnswerBelow(sr: SearchRange, p: Oid)
      requires Valid() && ScalarAbove(p, sr.start.ToTuple())
      ensures var oid, r := sr.start.ToTuple(), Get(sr);
              && r != Absent(NoSuchObject, sr) && r != Absent(NoSuchInstance, sr)
              && (r.Ok? && Representable(oid) ==> r.value.name.ToTuple() == oid)
    {
      GetBelow(sr, p);
      TypecastSays(entries[p].type_, sr.start.ToTuple(), entries[p].scalar.value);
    }

    lemma AnswerElsewhere(sr: SearchRange)
      requires Valid() && !Overreach(sr.start.ToTuple())
      ensures var oid, r := sr.start.ToTuple(), Get(sr);
              && (r == Absent(NoSuchObject, sr) <==> !Registered(oid))
              && (r == Absent(NoSuchInstance, sr) <==> Registered(oid) && oid !in Instances())
              && (oid in Instances() ==> r == Binding(oid))
              && (r.Ok? && Representable(oid) ==> r.value.name.ToTuple() == oid)
    {
      var oid := sr.start.ToTuple();
      GetIs(sr);
      if oid in Instances() {
        BindingName(Owner(oid), oid);
        assert Owns(Owner(oid), oid);
      }
    }

    lemma GetGives(sr: SearchRange, p: Oid)
      requires Valid() && Owns(p, sr.start.ToTuple())
      ensures sr.start.ToTuple() in Instances() && Get(sr) == Binding(sr.start.ToTuple())
      ensures Gives(Get(sr), p, sr.start.ToTuple())
    {
      var oid := sr.start.ToTuple();
      OwnerExists(oid);
      OverreachIs(oid);
      if q :| ScalarAbove(q, oid) {
        GetBelow(sr, q);
      }
      AnswerElsewhere(sr);
      BindingGives(p, oid);
    }

    lemma GetSaysBelow(sr: SearchRange, p: Oid)
      requires Valid() && ScalarAbove(p, sr.start.ToTuple())
      ensures Says(Get(sr), entries[p].type_, sr.start.ToTuple(), entries[p].scalar.value)
    {
      GetBelow(sr, p);
      TypecastSays(entries[p].type_, sr.start.ToTuple(), entries[p].scalar.value);
    }

    lemma AnswersAbsent(sr: SearchRange)
      requires Valid()
      ensures var oid, r := sr.start.ToTuple(), Get(sr);
              && (r == Absent(NoSuchObject, sr) <==> !Registered(oid))
              && (r == Absent(NoSuchInstance, sr) <==> Registered(oid) && oid !in Instances() && !BelowValue(oid))
              && (r.Ok? && Representable(oid) ==> r.value.name.ToTuple() == oid)
    {
      var oid := sr.start.ToTuple();
      OverreachIs(oid);
      if p :| ScalarAbove(p, oid) {
        AnswerBelow(sr, p);
        GetBelow(sr, p);
      } else {
        AnswerElsewhere(sr);
      }
    }

    /**
     The answers of Get, each with the exact condition under which it is given: an instance's own value, below a
     valued scalar the scalar's, always under the requested name.
     */
    lemma GetAnswers(sr: SearchRange)
      requires Valid()
      ensures var oid, r := sr.start.ToTuple(), Get(sr);
              && (r == Absent(NoSuchObject, sr) <==> !Registered(oid))
              && (r == Absent(NoSuchInstance, sr) <==> Registered(oid) && oid !in Instances() && !BelowValue(oid))
              && (oid in Instances() ==> r == Binding(oid))
              && (forall p :: Owns(p, oid) ==> Gives(r, p, oid))
              && (forall p :: ScalarAbove(p, oid) ==> Says(r, entries[p].type_, oid, entries[p].scalar.value))
              && (r.Ok? && Representable(oid) ==> r.value.name.ToTuple() == oid)
    {
      var oid := sr.start.ToTuple();
      AnswersAbsent(sr);
      OwnerExists(oid);
      if p :| Owns(p, oid) {
        GetGives(sr, p);
      }
      forall p | Owns(p, oid) ensures Gives(Get(sr), p, oid) {
        GetGives(sr, p);
      }
      forall p | ScalarAbove(p, oid) ensures Says(Get(sr), entries[p].type_, oid, entries[p].scalar.value) {
        GetSaysBelow(sr, p);
      }
    }

    lemma BindingName(p: Oid, o: Oid)
      requires Valid() && Owns(p, o)
      ensures o in Instances() && (Binding(o).Ok? ==> Binding(o).value.type_ == entries[p].type_)
      ensures Binding(o).Ok? ==> Binding(o).value.name.incl == 0
      ensures Representable(o) && Binding(o).Ok? ==> Binding(o).value.name.ToTuple() == o
    {
      BindingOf(p, o);
      FromIterableFaithful(o);
    }

    // ----- GetNext -----

    ghost function Next(start: Oid, incl: bool, end: Oid): Option<Oid>
      requires Valid()
    {
      Least(Candidates(start, incl, end))
    }

    ghost function RfcNext(start: Oid, incl: bool, end: Oid): Option<Oid>
      requires Valid()
    {
      Least(RfcCandidates(start, incl, end))
    }

    /** What RFC 2741, section 7.2.3.2, answers to one search range. */
    ghost function RfcNextBinding(sr: SearchRange): Result<VarBind, CodecError>
      requires Valid()
    {
      match RfcNext(sr.start.ToTuple(), sr.start.incl != 0, sr.end.ToTuple())
      case None => Ok(VarBind(EndOfMibView, 0, sr.start, NoData))
      case Some(o) => Binding(o)
    }

    /** The answer to one search range; the first case is the scalar answering below its own prefix. */
    ghost function NextBinding(sr: SearchRange): Result<VarBind, CodecError>
      requires Valid()
    {
      var start, incl := sr.start.ToTuple(), sr.start.incl != 0;
      if incl && Overreach(start) then
        GetValue(FindParentPrefix(prefixes, start).value, start).value
      else
        match Next(start, incl, sr.end.ToTuple())
        case None => Ok(VarBind(EndOfMibView, 0, sr.start, NoData))
        case Some(o) => Binding(o)
    }

    /**
     An answer to GetNext: the scalar's value for an including request below it; otherwise what the owner of the
     chosen instance holds, under the instance's name, or END_OF_MIB_VIEW when there is none.
     */
    ghost predicate NextRight(sr: SearchRange, r: Result<VarBind, CodecError>)
      requires Valid()
    {
      var start, incl := sr.start.ToTuple(), sr.start.incl != 0;
      if incl && BelowValue(start) then
        forall p :: ScalarAbove(p, start) ==> Says(r, entries[p].type_, start, entries[p].scalar.value)
      else
        match Next(start, incl, sr.end.ToTuple())
        case None => r == Ok(VarBind(EndOfMibView, 0, sr.start, NoData))
        case Some(o) => forall p :: Owns(p, o) ==> Gives(r, p, o)
    }

    lemma NextAnswers(sr: SearchRange)
      requires Valid()
      ensures NextRight(sr, NextBinding(sr))
    {
      var start, incl := sr.start.ToTuple(), sr.start.incl != 0;
      OverreachIs(start);
      if incl && BelowValue(start) {
        var q := FindParentPrefix(prefixes, start).value;
        forall p | ScalarAbove(p, start)
          ensures Says(NextBinding(sr), entries[p].type_, start, entries[p].scalar.value)
        {
          OwnerUnique(p, q, start);
          TypecastSays(entries[p].type_, start, entries[p].scalar.value);
        }
      } else if Next(start, incl, sr.end.ToTuple()).Some? {
        var o := Next(start, incl, sr.end.ToTuple()).value;
        forall p | Owns(p, o) ensures Gives(NextBinding(sr), p, o) {
          BindingGives(p, o);
        }
      }
    }

    /** The entry's successor of `oid`'s sub-identifier, under `oid`'s prefix. */
    function GetNextValue(p: Oid, oid: Oid): Option<Result<VarBind, CodecError>>
      requires Valid() && p in prefixes
    {
      var entry := entries[p];
      match entry.GetNext(Drop(oid, |p|))
      case None => None
      case Some(key) =>
        match entry.Call(key)
        case None => None
        case Some(value) => Some(FromTypecast(entry.type_, Take(oid, |p|) + key, value))
    }

    method GetNext(sr: SearchRange) returns (r: Result<VarBind, CodecError>)
      requires Valid()
      ensures r == NextBinding(sr) && NextRight(sr, r)
    {
      NextAnswers(sr);
      var start, end, incl := sr.start.ToTuple(), sr.end.ToTuple(), sr.start.incl != 0;
      var oidList := Sort(prefixes);
      var parent := FindParentPrefix(prefixes, start);
      if parent.Some? {
        var p := parent.value;
        InParent(p, start, incl, end);
        if incl {
          var vr := GetValue(p, start);
          if vr.Some? {
            return vr.value;
          }
        }
        var vr := GetNextValue(p, start);
        if vr.Some? {
          return vr.value;
        }
      } else {
        NoParent(start);
      }
      var remaining := oidList[BisectRight(oidList, start)..];
      OwnersRemain(start, incl, end);
      while remaining != [] && Lt(remaining[0], end)
        invariant Ascending(remaining)
        invariant forall p :: p in remaining ==> p in prefixes && Lt(start, p)
        invariant OwnersIn(remaining, start, incl, end)
        decreases |remaining|
      {
        var p := remaining[0];
        var entry := entries[p];
        FirstIsLeast(entry);
        var key := entry.First();
        if key.None? || entry.Call(key.value).None? {
          remaining := remaining[1..];
          continue;
        }
        FoundAhead(remaining, start, incl, end);
        return FromTypecast(entry.type_, p + key.value, entry.Call(key.value).value);
      }
      NothingAhead(remaining, start, incl, end);
      return Ok(VarBind(EndOfMibView, 0, sr.start, NoData));
    }

    /** Every candidate's owner is still in the list. */
    ghost predicate OwnersIn(ps: seq<Oid>, start: Oid, incl: bool, end: Oid)
      requires Valid()
    {
      forall o, q :: o in Candidates(start, incl, end) && Owns(q, o) ==> q in ps
    }

    /** An instance above the start, owned by a prefix not covering the start, has its prefix above it too. */
    lemma OwnerAhead(q: Oid, o: Oid, start: Oid, incl: bool)
      requires Valid() && Owns(q, o) && Above(start, incl, o) && !Under(q, start)
      ensures Lt(start, q)
    {
      LtTotal(start, q);
      if Lt(q, start) {
        SubtreeBelowOutsider(q, start, o[|q|..]);
        assert o == q + o[|q|..];
        LtAsymmetric(o, start);
      }
    }

    /** Everything under a smaller prefix precedes everything under a larger one. */
    lemma SubtreesOrdered(p: Oid, q: Oid, k: Oid, o: Oid)
      requires Valid() && p in prefixes && Owns(q, o) && Lt(p, q)
      ensures Lt(p + k, o)
    {
      LtIrreflexive(p);
      SubtreesApart(p, q, k, o[|q|..]);
      assert o == q + o[|q|..];
    }

    lemma CandidateOwner(o: Oid, q: Oid, start: Oid, incl: bool, end: Oid)
      requires Valid() && o in Candidates(start, incl, end) && Owns(q, o)
      ensures Above(start, incl, o) && Searched(q, start, end)
    {
      var p :| Owns(p, o) && Searched(p, start, end);
      OwnerUnique(p, q, o);
    }

    lemma CandidateIf(o: Oid, q: Oid, start: Oid, incl: bool, end: Oid)
      requires Valid() && Owns(q, o) && Above(start, incl, o) && Searched(q, start, end)
      ensures o in Candidates(start, incl, end)
    {
      OwnerExists(o);
    }

    lemma NoParent(start: Oid)
      requires Valid() && FindParentPrefix(prefixes, start).None?
      ensures forall p :: p in prefixes ==> !Under(p, start)
    {
      forall p | p in prefixes ensures !Under(p, start) {
        FindParentPrefixExact(prefixes, start, p);
      }
    }

    /** What the start's own subtree contributes, for each outcome of asking its entry. */
    lemma InParent(p: Oid, start: Oid, incl: bool, end: Oid)
      requires Valid() && FindParentPrefix(prefixes, start) == Some(p)
      ensures incl && GetValue(p, start).Some? && !Overreach(start) ==>
                Next(start, incl, end) == Some(start) && GetValue(p, start).value == Binding(start)
      ensures incl && Overreach(start) ==> GetValue(p, start).Some?
      ensures !(incl && GetValue(p, start).Some?) ==>
                match GetNextValue(p, start)
                case None => forall o, q :: o in Candidates(start, incl, end) && Owns(q, o) ==> !Under(q, start)
                case Some(vr) => Next(start, incl, end).Some? && vr == Binding(Next(start, incl, end).value)
    {
      var sub, entry := start[|p|..], entries[p];
      assert Drop(start, |p|) == sub && Take(start, |p|) == p && start == p + sub;
      if incl && GetValue(p, start).Some? {
        if !Overreach(start) {
          assert Owns(p, start);
          StartIsNext(p, start, end);
        }
      } else if GetNextValue(p, start).None? {
        forall o, q | o in Candidates(start, incl, end) && Owns(q, o) ensures !Under(q, start) {
          ParentExhausted(p, start, incl, end, o, q);
          if Under(q, start) {
            OwnerUnique(p, q, start);
          }
        }
      } else {
        SuccessorIsNext(p, start, incl, end);
      }
    }

    lemma StartIsNext(p: Oid, start: Oid, end: Oid)
      requires Valid() && Owns(p, start)
      ensures Next(start, true, end) == Some(start)
      ensures Drop(start, |p|) == start[|p|..] && GetValue(p, start) == Some(Binding(start))
    {
      BindingOf(p, start);
      CandidateIf(start, p, start, true, end);
      LeastIs(Candidates(start, true, end), start);
    }

    /** When the parent entry has nothing more to give, no candidate is its. */
    lemma ParentExhausted(p: Oid, start: Oid, incl: bool, end: Oid, o: Oid, q: Oid)
      requires Valid() && p in prefixes && Under(p, start)
      requires !(incl && GetValue(p, start).Some?) && GetNextValue(p, start).None?
      requires o in Candidates(start, incl, end) && Owns(q, o)
      ensures q != p
    {
      var sub, entry := start[|p|..], entries[p];
      assert Drop(start, |p|) == sub && start == p + sub;
      CandidateOwner(o, q, start, incl, end);
      LtIrreflexive(start);
      PrefixComesFirst(p, start);
      if Lt(start, o) {
        LtAsymmetric(start, o);
      }
      if Under(p, o) {
        assert o == p + o[|p|..];
        CommonPrefix(p, sub, o[|p|..]);
      }
      if entry.Subtree? {
        assert NextAbove(entry.values.Keys, sub, entry.next(sub));
      }
    }

    lemma SuccessorIsNext(p: Oid, start: Oid, incl: bool, end: Oid)
      requires Valid() && p in prefixes && Under(p, start)
      requires !(incl && GetValue(p, start).Some?) && GetNextValue(p, start).Some?
      ensures Next(start, incl, end).Some? && GetNextValue(p, start).value == Binding(Next(start, incl, end).value)
    {
      var sub, entry := start[|p|..], entries[p];
      assert Drop(start, |p|) == sub && Take(start, |p|) == p && start == p + sub;
      assert NextAbove(entry.values.Keys, sub, entry.next(sub));
      var k := entry.next(sub).value;
      var n := p + k;
      assert n[|p|..] == k && Owns(p, n);
      CommonPrefix(p, sub, k);
      BindingOf(p, n);
      CandidateIf(n, p, start, incl, end);
      forall o | o in Candidates(start, incl, end) ensures Le(n, o) {
        SuccessorLeast(p, start, incl, end, k, o);
      }
      LeastIs(Candidates(start, incl, end), n);
    }

    lemma SuccessorLeast(p: Oid, start: Oid, incl: bool, end: Oid, k: Oid, o: Oid)
      requires Valid() && p in prefixes && Under(p, start) && entries[p].Subtree?
      requires !(incl && GetValue(p, start).Some?) && entries[p].next(start[|p|..]) == Some(k)
      requires o in Candidates(start, incl, end)
      ensures Le(p + k, o)
    {
      var sub, entry, q := start[|p|..], entries[p], Owner(o);
      assert Drop(start, |p|) == sub && start == p + sub;
      CandidateOwner(o, q, start, incl, end);
      if q == p {
        var j := o[|p|..];
        assert o == p + j;
        assert NextAbove(entry.values.Keys, sub, entry.next(sub));
        CommonPrefix(p, sub, j);
        CommonPrefix(p, k, j);
      } else {
        if Under(q, start) {
          OwnerUnique(p, q, start);
        }
        OwnerAhead(q, o, start, incl);
        PrefixComesFirst(p, start);
        LeTransitive(p, start, q);
        SubtreesOrdered(p, q, k, o);
      }
    }

    /** Once the start's own subtree is exhausted, candidates are owned by prefixes sorting after the start. */
    lemma OwnersRemain(start: Oid, incl: bool, end: Oid)
      requires Valid()
      requires forall o, q :: o in Candidates(start, incl, end) && Owns(q, o) ==> !Under(q, start)
      ensures var oids := Sort(prefixes);
              var remaining := oids[BisectRight(oids, start)..];
              && Ascending(remaining)
              && (forall p :: p in remaining ==> p in prefixes && Lt(start, p))
              && OwnersIn(remaining, start, incl, end)
    {
      SortSorts(prefixes);
      var oids := Sort(prefixes);
      BisectRightSplits(oids, start);
      var n := BisectRight(oids, start);
      forall o, q | o in Candidates(start, incl, end) && Owns(q, o) ensures q in oids[n..] {
        CandidateOwner(o, q, start, incl, end);
        OwnerAhead(q, o, start, incl);
        PastBisection(oids, start, q);
      }
    }

    /** The first non-empty subtree ahead, if its prefix precedes the end, holds the least candidate. */
    lemma FoundAhead(ps: seq<Oid>, start: Oid, incl: bool, end: Oid)
      requires Valid() && ps != [] && Ascending(ps) && OwnersIn(ps, start, incl, end)
      requires ps[0] in prefixes && Lt(start, ps[0]) && Lt(ps[0], end)
      requires entries[ps[0]].Keys() != {}
      ensures var e := entries[ps[0]];
              && e.First().Some? && e.Call(e.First().value).Some? && Fits(e.type_, e.Call(e.First().value).value)
              && Next(start, incl, end).Some?
              && Binding(Next(start, incl, end).value)
                 == FromTypecast(e.type_, ps[0] + e.First().value, e.Call(e.First().value).value)
    {
      var p, e := ps[0], entries[ps[0]];
      FirstIsLeast(e);
      var k := e.First().value;
      var n := p + k;
      assert n[|p|..] == k && Owns(p, n);
      BindingOf(p, n);
      BelowSubtree(start, p, k);
      CandidateIf(n, p, start, incl, end);
      forall o | o in Candidates(start, incl, end) ensures Le(n, o) {
        var q := Owner(o);
        assert q in ps && (q == p || Lt(p, q));
        LeastOfFirst(p, q, k, o);
      }
      LeastIs(Candidates(start, incl, end), n);
    }

    /** The least key under a prefix precedes everything under it and under larger prefixes. */
    lemma LeastOfFirst(p: Oid, q: Oid, k: Oid, o: Oid)
      requires Valid() && p in prefixes && LeastIn(entries[p].Keys(), k) && Owns(q, o) && (q == p || Lt(p, q))
      ensures Le(p + k, o)
    {
      if q == p {
        assert o == p + o[|p|..];
        CommonPrefix(p, k, o[|p|..]);
      } else {
        SubtreesOrdered(p, q, k, o);
      }
    }

    lemma NothingAhead(ps: seq<Oid>, start: Oid, incl: bool, end: Oid)
      requires Valid() && Ascending(ps) && OwnersIn(ps, start, incl, end)
      requires forall p :: p in ps ==> Lt(start, p)
      requires ps == [] || !Lt(ps[0], end)
      ensures Next(start, incl, end) == None
    {
      if o :| o in Candidates(start, incl, end) {
        var q := Owner(o);
        CandidateOwner(o, q, start, incl, end);
        assert q in ps;
        if Under(q, start) {
          PrefixComesFirst(q, start);
          LtAsymmetric(start, q);
        } else {
          LeTransitive(ps[0], q, end);
        }
      }
    }
  }

  // For instance: a scalar 7, and a subtree without instances, each asked for one sub-identifier below it.

  function TwoEntries(): MibTable {
    MibTable([[5], [6]], map[[5] := Scalar(Integer, Some(RawInt(7))), [6] := Subtree(Integer, s => None, map[])])
  }

  function Asked(oid: Oid): SearchRange {
    SearchRange(ObjectIdentifier(|oid|, 0, 0, 0, oid), ObjectIdentifier(0, 0, 0, 0, []))
  }

  /** The scalar answers where no instance is; the empty subtree has no instance where no object is. */
  lemma GetForInstance()
    ensures var t := TwoEntries();
            && t.Valid()
            && t.Get(Asked([5, 1])) == Ok(VarBind(Integer, 0, Asked([5, 1]).start, IntData(7)))
            && t.RfcGet(Asked([5, 1])) == Ok(VarBind(NoSuchInstance, 0, Asked([5, 1]).start, NoData))
            && t.Get(Asked([6, 1])) == Ok(VarBind(NoSuchInstance, 0, Asked([6, 1]).start, NoData))
            && t.RfcGet(Asked([6, 1])) == Ok(VarBind(NoSuchObject, 0, Asked([6, 1]).start, NoData))
  {
    var t := TwoEntries();
    TwoEntriesValid();
    ScalarBelow(t);
    EmptyBelow(t);
  }

  lemma TwoEntriesValid()
    ensures TwoEntries().Valid()
  {
    var t := TwoEntries();
    assert [5][0] == 5 && [6][0] == 6;
  }

  lemma ScalarBelow(t: MibTable)
    requires t == TwoEntries() && t.Valid()
    ensures t.Get(Asked([5, 1])) == Ok(VarBind(Integer, 0, Asked([5, 1]).start, IntData(7)))
    ensures t.RfcGet(Asked([5, 1])) == Ok(VarBind(NoSuchInstance, 0, Asked([5, 1]).start, NoData))
  {
    var oid := Asked([5, 1]).start.ToTuple();
    assert oid == [5, 1] && Under([5], oid);
    assert t.ScalarAbove([5], oid);
    t.GetBelow(Asked([5, 1]), [5]);
    t.OnlyCover([5], oid);
  }

  lemma EmptyBelow(t: MibTable)
    requires t == TwoEntries() && t.Valid()
    ensures t.Get(Asked([6, 1])) == Ok(VarBind(NoSuchInstance, 0, Asked([6, 1]).start, NoData))
    ensures t.RfcGet(Asked([6, 1])) == Ok(VarBind(NoSuchObject, 0, Asked([6, 1]).start, NoData))
  {
    var oid := Asked([6, 1]).start.ToTuple();
    assert oid == [6, 1] && Under([6], oid);
    FindParentPrefixExact(t.prefixes, oid, [6]);
    t.NotOwned([6], oid);
    t.OnlyCover([6], oid);
  }
}
