/**
 VLAN membership in SONiC's configuration database, which keeps it twice: as a comma-separated field of
 the VLAN's row and as one row for each member. The operations below rewrite both; the access and trunk
 handlers are built on them.
 */
module Vlan {
  import opened Results

  // ----- comma-separated names -----

  /** Python's `split(",")`: there is always at least one piece. */
  function Split(s: string): (pieces: seq<string>)
    ensures |pieces| >= 1
  {
    if s == [] then [""]
    else
      var rest := Split(s[1..]);
      if s[0] == ',' then [""] + rest else [[s[0]] + rest[0]] + rest[1..]
  }

  /** `",".join`. */
  function Join(pieces: seq<string>): string {
    if pieces == [] then "" else if |pieces| == 1 then pieces[0] else pieces[0] + "," + Join(pieces[1..])
  }

  lemma {:induction false} SplitPiece(p: string)
    requires ',' !in p
    ensures Split(p) == [p]
  {
    if p == [] {
    } else {
      SplitPiece(p[1..]);
      assert [p[0]] + p[1..] == p;
    }
  }

  lemma {:induction false} SplitFirst(p: string, rest: string)
    requires ',' !in p
    ensures Split(p + "," + rest) == [p] + Split(rest)
  {
    var s := p + "," + rest;
    if p == [] {
      assert s[0] == ',' && s[1..] == rest;
    } else {
      SplitFirst(p[1..], rest);
      assert s[0] == p[0] && s[1..] == p[1..] + "," + rest && [p[0]] + p[1..] == p;
    }
  }

  /** Splitting undoes joining for pieces without a comma; only the empty list comes back as one empty piece. */
  lemma {:induction false} SplitJoin(pieces: seq<string>)
    requires forall p :: p in pieces ==> ',' !in p
    ensures Split(Join(pieces)) == if pieces == [] then [""] else pieces
    decreases |pieces|
  {
    if |pieces| == 1 {
      SplitPiece(pieces[0]);
    } else if |pieces| > 1 {
      SplitFirst(pieces[0], Join(pieces[1..]));
      SplitJoin(pieces[1..]);
      assert [pieces[0]] + pieces[1..] == pieces;
    }
  }

  lemma {:induction false} PiecesWithoutComma(s: string)
    ensures forall p :: p in Split(s) ==> ',' !in p
  {
    if s != [] {
      PiecesWithoutComma(s[1..]);
      var rest := Split(s[1..]);
      assert rest[0] in rest;
      forall p | p in Split(s) ensures ',' !in p {
        if s[0] == ',' {
          assert p == "" || p in rest;
        } else {
          assert p == [s[0]] + rest[0] || p in rest[1..];
        }
      }
    }
  }

  ghost function Pieces(s: string): set<string> {
    set p | p in Split(s)
  }

  /** `",".join` over a Python set, whose order is unspecified. */
  method JoinSet(names: set<string>) returns (s: string)
    requires forall p :: p in names ==> ',' !in p
    ensures Pieces(s) == if names == {} then {""} else names
  {
    var left, pieces := names, [];
    while left != {}
      invariant left <= names && (set p | p in pieces) == names - left
      invariant forall p :: p in pieces ==> ',' !in p
      decreases |left|
    {
      var p :| p in left;
      left := left - {p};
      assert (set q | q in pieces + [p]) == (set q | q in pieces) + {p};
      pieces := pieces + [p];
    }
    assert names == set p | p in pieces;
    if pieces != [] {
      assert pieces[0] in names;
    }
    SplitJoin(pieces);
    s := Join(pieces);
  }

  // ----- the database -----

  datatype IfName = IfName(text: string) {
    /** What an interface can be called: something, and without the separator. */
    predicate Legal() {
      text != "" && ',' !in text
    }
  }

  /** The names a `members@` field lists; an empty piece is none. */
  ghost function Listed(members: Option<string>): set<IfName> {
    if members.None? then {} else set p | p in Pieces(members.value) && p != "" :: IfName(p)
  }

  /** `set(members.split(","))` with a name added, joined again. */
  method WithName(members: string, name: IfName) returns (s: string)
    requires name.Legal()
    ensures Listed(Some(s)) == Listed(Some(members)) + {name}
  {
    PiecesWithoutComma(members);
    var ifs := set p | p in Split(members);
    ifs := ifs + {name.text};
    s := JoinSet(ifs);
    assert Pieces(s) == Pieces(members) + {name.text};
    forall n ensures n in Listed(Some(s)) <==> n in Listed(Some(members)) + {name} {
      assert n == IfName(n.text) && name == IfName(name.text);
    }
  }

  /** The same with a name removed; None when it is not there, which Python reports as KeyError. */
  method WithoutName(members: string, name: IfName) returns (s: Option<string>)
    ensures s.Some? <==> name.text in Pieces(members)
    ensures s.Some? ==> Listed(s) == Listed(Some(members)) - {name}
  {
    PiecesWithoutComma(members);
    var ifs := set p | p in Split(members);
    if name.text !in ifs {
      return None;
    }
    ifs := ifs - {name.text};
    var text := JoinSet(ifs);
    s := Some(text);
    forall n ensures n in Listed(s) <==> n in Listed(Some(members)) - {name} {
      assert n == IfName(n.text) && name == IfName(name.text);
    }
  }

  datatype Mode = Tagged | Untagged

  datatype VlanRow = VlanRow(vlanid: nat, members: Option<string>)

  /** A `VLAN_MEMBER` key. */
  datatype MemberKey = MemberKey(vid: nat, name: IfName)

  datatype Failure = VlanNotFound | HasDependencies | NotAMember

  type Tags = map<MemberKey, Mode>

  /** What the database means: which VLANs there are and who is a member of them, and how. */
  datatype Membership = Membership(vids: set<nat>, tags: Tags) {
    /** No interface is an untagged member of two VLANs. */
    ghost predicate SingleAccess() {
      forall a, b :: a in tags && b in tags && a.name == b.name && tags[a] == Untagged && tags[b] == Untagged ==> a == b
    }
  }

  ghost function UntaggedOf(tags: Tags, name: IfName): set<MemberKey> {
    set k | k in tags && k.name == name && tags[k] == Untagged
  }

  datatype Event =
    | CreateVlan(vid: nat)
    | RemoveVlan(vid: nat)
    | Access(name: IfName, vlan: Option<nat>)  // None: the access-vlan leaf was deleted
    | TrunkAdded(name: IfName, vid: nat)
    | TrunkModified(name: IfName, vid: nat)
    | TrunkDeleted(name: IfName, vid: nat)
  {
    predicate Legal() {
      !CreateVlan? && !RemoveVlan? ==> name.Legal()
    }
  }

  /** What each event does to the membership, and whether it is refused. */
  ghost function Effect(m: Membership, e: Event): (Membership, Option<Failure>) {
    match e
    case CreateVlan(vid) => (m.(vids := m.vids + {vid}), None)
    case RemoveVlan(vid) =>
      if exists k :: k in m.tags && k.vid == vid then (m, Some(HasDependencies)) else (m.(vids := m.vids - {vid}), None)
    case Access(name, vlan) =>
      var cleared := m.tags - UntaggedOf(m.tags, name);
      if vlan.None? then (m.(tags := cleared), None)
      else if vlan.value !in m.vids then (m.(tags := cleared), Some(VlanNotFound))
      else (m.(tags := cleared[MemberKey(vlan.value, name) := Untagged]), None)
    case TrunkAdded(name, vid) =>
      if vid !in m.vids then (m, Some(VlanNotFound)) else (m.(tags := m.tags[MemberKey(vid, name) := Tagged]), None)
    case TrunkModified(_, _) => (m, None)
    case TrunkDeleted(name, vid) =>
      var k := MemberKey(vid, name);
      if k in m.tags && m.tags[k] == Tagged then (m.(tags := m.tags - {k}), None) else (m, None)
  }

  /** Every event, refused or not, leaves each interface with at most one access VLAN. */
  lemma SingleAccessKept(m: Membership, e: Event)
    requires m.SingleAccess()
    ensures Effect(m, e).0.SingleAccess()
  {
    if e.Access? {
      var after := Effect(m, e).0.tags;
      forall k | k in after && k.name == e.name && after[k] == Untagged
        ensures e.vlan == Some(k.vid)
      {
        assert k in m.tags ==> k in UntaggedOf(m.tags, e.name) || m.tags[k] == Tagged;
      }
    }
  }

  /** Creating and removing a VLAN touch no membership; one with members is not removed. */
  lemma VlansSettle(m: Membership, vid: nat)
    ensures var (after, failure) := Effect(m, CreateVlan(vid));
            failure == None && after.tags == m.tags && forall v :: v in after.vids <==> v in m.vids || v == vid
    ensures var (after, failure) := Effect(m, RemoveVlan(vid));
            && (failure == Some(HasDependencies) <==> exists name :: MemberKey(vid, name) in m.tags)
            && (failure == None || failure == Some(HasDependencies)) && after.tags == m.tags
            && (failure == None ==> forall v :: v in after.vids <==> v in m.vids && v != vid)
            && (failure != None ==> after == m)
  {
    if k :| k in m.tags && k.vid == vid {
      assert k == MemberKey(vid, k.name);
    }
  }

  /**
   An access-vlan change leaves the interface untagged in exactly the VLAN asked for. When that VLAN does not
   exist the change is refused, but the interface has already left the VLAN it was in: a refused change leaves
   everything as it was exactly when there was none.
   */
  lemma AccessSettles(m: Membership, name: IfName, vlan: Option<nat>)
    ensures var (after, failure) := Effect(m, Access(name, vlan));
            && (failure.Some? <==> vlan.Some? && vlan.value !in m.vids)
            && UntaggedOf(after.tags, name)
               == if vlan.Some? && failure.None? then {MemberKey(vlan.value, name)} else {}
    ensures var after := Effect(m, Access(name, vlan)).0;
            forall k :: k in m.tags && m.tags[k] == Tagged && (k.name != name || vlan != Some(k.vid)) ==>
              k in after.tags && after.tags[k] == Tagged
    ensures var (after, failure) := Effect(m, Access(name, vlan));
            failure.Some? ==> (after == m <==> UntaggedOf(m.tags, name) == {})
  {
    var cleared := m.tags - UntaggedOf(m.tags, name);
    if k :| k in UntaggedOf(m.tags, name) {
      assert k in m.tags && k !in cleared;
    } else {
      assert cleared == m.tags;
    }
  }

  /** For instance: asked for a VLAN there is not, an interface in VLAN 10 is refused and is in none. */
  lemma RefusedForInstance(name: IfName)
    ensures var m := Membership({10}, map[MemberKey(10, name) := Untagged]);
            Effect(m, Access(name, Some(20))) == (Membership({10}, map[]), Some(VlanNotFound))
  {
    var tags: Tags := map[MemberKey(10, name) := Untagged];
    assert UntaggedOf(tags, name) == {MemberKey(10, name)};
    assert tags - {MemberKey(10, name)} == map[];
  }

  ghost function Cleared(tags: Tags, k: MemberKey): Tags {
    if k in tags && tags[k] == Untagged then tags - {k} else tags
  }

  lemma ClearedStep(before: Tags, name: IfName, left: set<MemberKey>, k: MemberKey)
    requires k in left && k in before && k.name == name
    ensures Cleared(before - (UntaggedOf(before, name) - left), k)
            == before - (UntaggedOf(before, name) - (left - {k}))
  {
  }

  lemma ClearedNone(before: Tags, name: IfName, left: set<MemberKey>)
    requires forall k :: k in before && k.name == name ==> k in left
    ensures before == before - (UntaggedOf(before, name) - left)
  {
  }

  class SonicDb {
    var vlans: map<nat, VlanRow>
    var tags: Tags

    constructor ()
      ensures Consistent() && Meaning() == Membership({}, map[]) && Meaning().SingleAccess()
    {
      vlans := map[];
      tags := map[];
    }

    ghost function Members(vid: nat): set<IfName>
      reads this
    {
      if vid in vlans then Listed(vlans[vid].members) else {}
    }

    /** Both representations agree: the names listed for a VLAN are those with a member row for it. */
    ghost predicate Consistent()
      reads this
    {
      forall vid, name :: name in Members(vid) <==> MemberKey(vid, name) in tags
    }

    ghost function Meaning(): Membership
      reads this
    {
      Membership(vlans.Keys, tags)
    }

    method CreateVlan(vid: nat)
      modifies this
      ensures vid in vlans && vlans.Keys == old(vlans).Keys + {vid} && tags == old(tags)
      ensures forall v :: Members(v) == old(Members(v))
    {
      vlans := vlans[vid := VlanRow(vid, if vid in vlans then vlans[vid].members else None)];
    }

    method RemoveVlan(vid: nat) returns (r: Result<(), Failure>)
      modifies this
      ensures r == if exists k :: k in tags && k.vid == vid then Raised(HasDependencies) else Ok(())
      ensures tags == old(tags) && vlans == if r.Ok? then old(vlans) - {vid} else old(vlans)
    {
      if exists k :: k in tags && k.vid == vid {
        return Raised(HasDependencies);
      }
      vlans := vlans - {vid};
      return Ok(());
    }

    method SetVlanMember(name: IfName, vid: nat, mode: Mode) returns (r: Result<(), Failure>)
      requires name.Legal()
      modifies this
      ensures r == if vid in old(vlans) then Ok(()) else Raised(VlanNotFound)
      ensures vlans.Keys == old(vlans).Keys
      ensures tags == if r.Ok? then old(tags)[MemberKey(vid, name) := mode] else old(tags)
      ensures forall v :: Members(v) == old(Members(v)) + if r.Ok? && v == vid then {name} else {}
    {
      if vid !in vlans {
        return Raised(VlanNotFound);
      }
      var ifs := name.text;
      if vlans[vid].members.Some? {
        ifs := WithName(vlans[vid].members.value, name);
      } else {
        SplitPiece(name.text);
        assert Pieces(ifs) == {name.text} && name == IfName(name.text);
        assert Listed(Some(ifs)) == {name};
      }
      vlans := vlans[vid := VlanRow(vid, Some(ifs))];
      tags := tags[MemberKey(vid, name) := mode];
      return Ok(());
    }

    method RemoveVlanMember(name: IfName, vid: nat) returns (r: Result<(), Failure>)
      requires name.Legal()
      modifies this
      ensures r.Ok? <==> vid !in old(vlans) || old(vlans)[vid].members.None? || name in old(Members(vid))
      ensures r.Raised? ==> vlans == old(vlans) && tags == old(tags) && r.error == NotAMember
      ensures vlans.Keys == old(vlans).Keys
      ensures r.Ok? && name in old(Members(vid)) ==> tags == old(tags) - {MemberKey(vid, name)}
      ensures r.Ok? && name !in old(Members(vid)) ==> vlans == old(vlans) && tags == old(tags)
      ensures forall v :: Members(v) == old(Members(v)) - if v == vid then {name} else {}
    {
      if vid !in vlans || vlans[vid].members.None? {
        return Ok(());
      }
      var ifs := WithoutName(vlans[vid].members.value, name);
      assert name == IfName(name.text);
      if ifs.None? {
        return Raised(NotAMember);
      }
      vlans := vlans[vid := vlans[vid].(members := ifs)];
      tags := tags - {MemberKey(vid, name)};
      return Ok(());
    }

    /** An untagged membership is dropped; the others stay. */
    method ClearOne(k: MemberKey)
      requires k.name.Legal() && Consistent()
      modifies this
      ensures Consistent() && vlans.Keys == old(vlans).Keys
      ensures tags == Cleared(old(tags), k)
    {
      if k in tags && tags[k] == Untagged {
        assert k == MemberKey(k.vid, k.name);
        var removed := RemoveVlanMember(k.name, k.vid);
        assert removed.Ok?;
      }
    }

    /** The loop of `AccessVLANHandler.apply`. */
    method ClearAccess(name: IfName)
      requires name.Legal() && Consistent()
      modifies this
      ensures Consistent() && vlans.Keys == old(vlans).Keys
      ensures tags == old(tags) - UntaggedOf(old(tags), name)
    {
      ghost var before := tags;
      var keys := set k | k in tags && k.name == name;
      var left := keys;
      ClearedNone(before, name, left);
      while left != {}
        invariant left <= keys && Consistent() && vlans.Keys == old(vlans).Keys
        invariant tags == before - (UntaggedOf(before, name) - left)
        decreases |left|
      {
        var k :| k in left;
        ClearedStep(before, name, left, k);
        left := left - {k};
        ClearOne(k);
      }
    }

    /** `AccessVLANHandler.apply`. */
    method ApplyAccess(name: IfName, vlan: Option<nat>) returns (r: Result<(), Failure>)
      requires name.Legal() && Consistent()
      modifies this
      ensures Consistent()
      ensures Follows(old(Meaning()), Access(name, vlan), Meaning(), r)
    {
      ClearAccess(name);
      r := Ok(());
      if vlan.Some? {
        r := SetVlanMember(name, vlan.value, Untagged);
      }
    }

    /** `TrunkVLANsHandler.apply` for an added entry. */
    method ApplyTrunkAdded(name: IfName, vid: nat) returns (r: Result<(), Failure>)
      requires name.Legal() && Consistent()
      modifies this
      ensures Consistent()
      ensures Follows(old(Meaning()), TrunkAdded(name, vid), Meaning(), r)
    {
      r := SetVlanMember(name, vid, Tagged);
    }

    /** `TrunkVLANsHandler.apply` for a deleted entry. */
    method ApplyTrunkDeleted(name: IfName, vid: nat) returns (r: Result<(), Failure>)
      requires name.Legal() && Consistent()
      modifies this
      ensures Consistent()
      ensures Follows(old(Meaning()), TrunkDeleted(name, vid), Meaning(), r)
    {
      r := Ok(());
      var k := MemberKey(vid, name);
      if k in tags && tags[k] == Tagged {
        r := RemoveVlanMember(name, vid);
      }
    }

    method Handle(e: Event) returns (r: Result<(), Failure>)
      requires e.Legal() && Consistent()
      modifies this
      ensures Consistent()
      ensures Follows(old(Meaning()), e, Meaning(), r)
    {
      match e
      case CreateVlan(vid) => CreateVlan(vid); r := Ok(());
      case RemoveVlan(vid) =>
        r := RemoveVlan(vid);
        assert forall v :: Members(v) == old(Members(v));
      case Access(name, vlan) => r := ApplyAccess(name, vlan);
      case TrunkAdded(name, vid) => r := ApplyTrunkAdded(name, vid);
      case TrunkModified(_, _) => r := Ok(());
      case TrunkDeleted(name, vid) => r := ApplyTrunkDeleted(name, vid);
    }

    /**
     Any sequence of VLAN and membership changes, refused ones included: the two representations stay equal,
     no interface gets a second access VLAN, and the membership is what the events add up to.
     */
    method Run(events: seq<Event>)
      requires (forall e :: e in events ==> e.Legal()) && Consistent() && Meaning().SingleAccess()
      modifies this
      ensures Consistent() && Meaning().SingleAccess()
      ensures Meaning() == Effects(old(Meaning()), events)
    {
      for k := 0 to |events|
        invariant Consistent() && Meaning().SingleAccess()
        invariant Meaning() == Effects(old(Meaning()), events[..k])
      {
        ghost var before := Meaning();
        var _ := Handle(events[k]);
        SingleAccessKept(before, events[k]);
        assert events[..k + 1][..k] == events[..k];
      }
      assert events[..|events|] == events;
    }
  }

  ghost function Effects(m: Membership, events: seq<Event>): Membership {
    if events == [] then m else Effect(Effects(m, events[..|events| - 1]), events[|events| - 1]).0
  }

  ghost predicate Follows(before: Membership, e: Event, after: Membership, r: Result<(), Failure>) {
    Effect(before, e) == (after, if r.Ok? then None else Some(r.error))
  }
}
