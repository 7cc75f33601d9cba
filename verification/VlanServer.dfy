/**
 The SONiC interface server, as far as VLAN membership goes. Its handlers inherit the base class's empty
 revert, so nothing is undone when a sibling's apply raises, on "abort" or when the timer expires. What a
 transaction leaves behind is told key by key, and with it when that is what was there before.
 */
module VlanServer {
  import opened Results
  import opened Transactions
  import V = Vlan

  /** The interface a change names, and the VLAN it asks for. */
  datatype PortValue = PortValue(ifname: V.IfName, vid: nat)

  /** What a change that is not about VLAN membership comes to: it is rejected, raises in apply, or neither. */
  datatype Sibling = Rejects | Raises | Quiet

  /** The interfaces there are, what the other handlers do, and when `pre` and `post` succeed. */
  datatype Platform = Platform(ports: set<V.IfName>, sibling: Change<PortValue> -> Sibling,
                               pre: V.Membership -> bool, post: V.Membership -> bool)

  function AccessEvent(c: Change<PortValue>): V.Event {
    V.Access(c.value.ifname, if c.kind == Deleted then None else Some(c.value.vid))
  }

  function TrunkEvent(c: Change<PortValue>): V.Event {
    match c.kind
    case Created => V.TrunkAdded(c.value.ifname, c.value.vid)
    case Modified => V.TrunkModified(c.value.ifname, c.value.vid)
    case Deleted => V.TrunkDeleted(c.value.ifname, c.value.vid)
  }

  /** A handler's apply; what it did before raising stays. */
  ghost function MemberHandler(e: V.Event): Handler<V.Membership> {
    (m: V.Membership) =>
      var (after, failure) := V.Effect(m, e);
      if failure.Some? then Failed(after) else Applied(after, IdleUndo())
  }

  function RaisingHandler(): Handler<V.Membership> {
    (m: V.Membership) => Failed(m)
  }

  ghost function MemberClass(p: Platform, access: bool): HandlerClass<V.Membership, PortValue> {
    (c: Change<PortValue>, m: V.Membership) =>
      if c.value.ifname !in p.ports then None
      else Some(MemberHandler(if access then AccessEvent(c) else TrunkEvent(c)))
  }

  function SiblingClass(p: Platform): HandlerClass<V.Membership, PortValue> {
    (c: Change<PortValue>, m: V.Membership) =>
      match p.sibling(c)
      case Rejects => None
      case Raises => Some(RaisingHandler())
      case Quiet => Some(Idle<V.Membership>())
  }

  ghost function Handlers(p: Platform): Tree<V.Membership, PortValue> {
    var noop, other := Leaf(NoOp<V.Membership, PortValue>()), Leaf(SiblingClass(p));
    Node(map["interfaces" := Node(map["interface" := Node(map[
      "name" := noop, "config" := other, "ethernet" := other, "component-connection" := noop,
      "switched-vlan" := Node(map["config" := Node(map[
        "interface-mode" := other, "access-vlan" := Leaf(MemberClass(p, true)),
        "trunk-vlans" := Leaf(MemberClass(p, false))])])])])])
  }

  ghost function Interfaces(p: Platform): Config<V.Membership, PortValue> {
    Config(Handlers(p), m => if p.pre(m) then Passed(m) else Refused(m), m => if p.post(m) then Passed(m) else Refused(m))
  }

  predicate At(path: seq<string>, k: nat, name: string) {
    k < |path| && path[k] == name
  }

  // ----- what a list of changes does -----

  datatype Role = Member(e: V.Event) | Raising | Idling

  /** What a change's handler does to the membership, told from its path. */
  function RoleOf(p: Platform, c: Change<PortValue>): Role {
    if !(At(c.xpath, 0, "interfaces") && At(c.xpath, 1, "interface")) then Idling
    else if At(c.xpath, 2, "switched-vlan") then
      if !At(c.xpath, 3, "config") then Idling
      else if At(c.xpath, 4, "access-vlan") then Member(AccessEvent(c))
      else if At(c.xpath, 4, "trunk-vlans") then Member(TrunkEvent(c))
      else if At(c.xpath, 4, "interface-mode") && p.sibling(c) == Raises then Raising
      else Idling
    else if (At(c.xpath, 2, "config") || At(c.xpath, 2, "ethernet")) && p.sibling(c) == Raises then Raising
    else Idling
  }

  ghost function HandlerOf(r: Role): Handler<V.Membership> {
    match r
    case Member(e) => MemberHandler(e)
    case Raising => RaisingHandler()
    case Idling => Idle<V.Membership>()
  }

  /** The event asks for a VLAN there is not. */
  predicate NoVlan(e: V.Event, vids: set<nat>) {
    match e
    case Access(_, vlan) => vlan.Some? && vlan.value !in vids
    case TrunkAdded(_, vid) => vid !in vids
    case _ => false
  }

  /** The membership events a list of changes gets through, the raising one included, and whether one raises. */
  function Took(p: Platform, changes: seq<Change<PortValue>>, vids: set<nat>): (seq<V.Event>, bool) {
    if changes == [] then ([], false)
    else
      var (es, raised) := Took(p, changes[..|changes| - 1], vids);
      if raised then (es, true)
      else
        match RoleOf(p, changes[|changes| - 1])
        case Member(e) => (es + [e], NoVlan(e, vids))
        case Raising => (es, true)
        case Idling => (es, false)
  }

  lemma Down(t: Tree<V.Membership, PortValue>, path: seq<string>, k: nat)
    requires t.Node? && k <= |path|
    ensures k == |path| ==> Lookup(t, path[k..]) == Some(NoOp())
    ensures k < |path| && path[k] !in t.children ==> Lookup(t, path[k..]) == None
    ensures k < |path| && path[k] in t.children ==>
              Lookup(t, path[k..]) == Lookup(t.children[path[k]], path[k + 1..])
  {
    if k < |path| {
      assert path[k..][0] == path[k] && path[k..][1..] == path[k + 1..];
    }
  }

  /** The class a path leads to gives the handler of the change's role, or none. */
  ghost predicate Gives(p: Platform, cls: Option<HandlerClass<V.Membership, PortValue>>, c: Change<PortValue>) {
    && (cls.None? ==> RoleOf(p, c) == Idling)
    && (cls.Some? ==> forall m :: cls.value(c, m).None? || cls.value(c, m) == Some(HandlerOf(RoleOf(p, c))))
  }

  lemma HandlersGive(p: Platform, c: Change<PortValue>)
    ensures Gives(p, Lookup(Handlers(p), c.xpath), c)
  {
    var t0 := Handlers(p);
    assert c.xpath[0..] == c.xpath;
    Down(t0, c.xpath, 0);
    if At(c.xpath, 0, "interfaces") {
      var t1 := t0.children["interfaces"];
      Down(t1, c.xpath, 1);
      if At(c.xpath, 1, "interface") {
        var t2 := t1.children["interface"];
        Down(t2, c.xpath, 2);
        if At(c.xpath, 2, "switched-vlan") {
          SwitchedVlanGives(p, t2.children["switched-vlan"], c);
        }
      }
    }
  }

  lemma SwitchedVlanGives(p: Platform, t: Tree<V.Membership, PortValue>, c: Change<PortValue>)
    requires t == Handlers(p).children["interfaces"].children["interface"].children["switched-vlan"]
    requires At(c.xpath, 0, "interfaces") && At(c.xpath, 1, "interface") && At(c.xpath, 2, "switched-vlan")
    ensures Gives(p, Lookup(t, c.xpath[3..]), c)
  {
    Down(t, c.xpath, 3);
    if At(c.xpath, 3, "config") {
      Down(t.children["config"], c.xpath, 4);
    }
  }

  // ----- one transaction -----

  ghost predicate AllIdle(undos: seq<Undo<V.Membership>>) {
    forall i :: 0 <= i < |undos| ==> undos[i] == IdleUndo()
  }

  lemma {:induction false} IdleReverts(undos: seq<Undo<V.Membership>>, m: V.Membership)
    requires AllIdle(undos)
    ensures RevertAll(undos, m) == Passed(m)
  {
    if undos != [] {
      IdleReverts(undos[..|undos| - 1], m);
    }
  }

  ghost predicate Reaches(a: Attempt<V.Membership>, m: V.Membership, took: (seq<V.Event>, bool)) {
    && a.state == V.Effects(m, took.0) && a.state.vids == m.vids
    && (a.Done? <==> !took.1)
    && (a.Done? ==> AllIdle(a.undos))
  }

  lemma OneMoreReached(a: Attempt<V.Membership>, m: V.Membership, es: seq<V.Event>, e: V.Event)
    requires Reaches(a, m, (es, false)) && !e.CreateVlan? && !e.RemoveVlan?
    ensures match MemberHandler(e)(a.state)
            case Applied(u, undo) => Reaches(Done(u, a.undos + [undo]), m, (es + [e], NoVlan(e, m.vids)))
            case Failed(u) => Reaches(RolledBack(RevertAll(a.undos, u).state), m, (es + [e], NoVlan(e, m.vids)))
  {
    assert (es + [e])[..|es|] == es;
    var (u, failure) := V.Effect(a.state, e);
    IdleReverts(a.undos, u);
  }

  lemma {:induction false} PreparedReaches(p: Platform, changes: seq<Change<PortValue>>, m: V.Membership)
    requires Prepare(Interfaces(p), changes, m).Ready?
    ensures Reaches(ApplyAll(Prepare(Interfaces(p), changes, m).handlers, m, []), m, Took(p, changes, m.vids))
    decreases |changes|
  {
    if changes != [] {
      var n := |changes| - 1;
      var c := changes[n];
      PreparedReaches(p, changes[..n], m);
      HandlersGive(p, c);
      if Lookup(Handlers(p), c.xpath).Some? {
        var hs := Prepare(Interfaces(p), changes[..n], m).handlers;
        PreparedOneMore(p, hs, HandlerOf(RoleOf(p, c)), c, m, Took(p, changes[..n], m.vids));
      }
    }
  }

  ghost function TookMore(took: (seq<V.Event>, bool), r: Role, vids: set<nat>): (seq<V.Event>, bool) {
    if took.1 then took
    else
      match r
      case Member(e) => (took.0 + [e], NoVlan(e, vids))
      case Raising => (took.0, true)
      case Idling => took
  }

  lemma PreparedOneMore(p: Platform, hs: seq<Handler<V.Membership>>, h: Handler<V.Membership>, c: Change<PortValue>,
                        m: V.Membership, took: (seq<V.Event>, bool))
    requires Reaches(ApplyAll(hs, m, []), m, took) && h == HandlerOf(RoleOf(p, c))
    ensures Reaches(ApplyAll(hs + [h], m, []), m, TookMore(took, RoleOf(p, c), m.vids))
  {
    ApplyMore(hs, h, m, []);
    var a := ApplyAll(hs, m, []);
    if a.Done? {
      match RoleOf(p, c)
      case Member(e) => OneMoreReached(a, m, took.0, e);
      case Raising => IdleReverts(a.undos, a.state);
      case Idling =>
    }
  }

  // ----- what is left behind, key by key -----

  ghost function TagOf(m: V.Membership, k: V.MemberKey): Option<V.Mode> {
    if k in m.tags then Some(m.tags[k]) else None
  }

  /** How one interface is a member of one VLAN after an event, from how it was and which VLANs there are. */
  function TagThen(e: V.Event, vids: set<nat>, tag: Option<V.Mode>, k: V.MemberKey): Option<V.Mode> {
    match e
    case Access(name, vlan) =>
      if name != k.name then tag
      else if vlan == Some(k.vid) && k.vid in vids then Some(V.Untagged)
      else if tag == Some(V.Untagged) then None
      else tag
    case TrunkAdded(name, vid) => if k == V.MemberKey(vid, name) && vid in vids then Some(V.Tagged) else tag
    case TrunkDeleted(name, vid) => if k == V.MemberKey(vid, name) && tag == Some(V.Tagged) then None else tag
    case _ => tag
  }

  function TagAfter(es: seq<V.Event>, vids: set<nat>, tag: Option<V.Mode>, k: V.MemberKey): Option<V.Mode> {
    if es == [] then tag else TagThen(es[|es| - 1], vids, TagAfter(es[..|es| - 1], vids, tag, k), k)
  }

  predicate PortEvents(es: seq<V.Event>) {
    forall e :: e in es ==> !e.CreateVlan? && !e.RemoveVlan?
  }

  lemma TagStep(m: V.Membership, e: V.Event, k: V.MemberKey)
    requires !e.CreateVlan? && !e.RemoveVlan?
    ensures TagOf(V.Effect(m, e).0, k) == TagThen(e, m.vids, TagOf(m, k), k)
    ensures V.Effect(m, e).0.vids == m.vids
  {
    if e.Access? {
      assert k in V.UntaggedOf(m.tags, e.name) <==> k.name == e.name && TagOf(m, k) == Some(V.Untagged);
      assert k == V.MemberKey(k.vid, k.name);
    }
  }

  lemma {:induction false} TagsFollow(m: V.Membership, es: seq<V.Event>, k: V.MemberKey)
    requires PortEvents(es)
    ensures TagOf(V.Effects(m, es), k) == TagAfter(es, m.vids, TagOf(m, k), k)
    ensures V.Effects(m, es).vids == m.vids
  {
    if es != [] {
      var front := es[..|es| - 1];
      TagsFollow(m, front, k);
      TagStep(V.Effects(m, front), es[|es| - 1], k);
    }
  }

  /** Every key is as before. */
  ghost predicate Restores(es: seq<V.Event>, m: V.Membership) {
    forall k :: TagAfter(es, m.vids, TagOf(m, k), k) == TagOf(m, k)
  }

  lemma RestoredExactly(m: V.Membership, es: seq<V.Event>)
    requires PortEvents(es)
    ensures V.Effects(m, es) == m <==> Restores(es, m)
  {
    var after := V.Effects(m, es);
    forall k ensures TagOf(after, k) == TagAfter(es, m.vids, TagOf(m, k), k) {
      TagsFollow(m, es, k);
    }
    TagsFollow(m, es, V.MemberKey(0, V.IfName("")));
    if Restores(es, m) {
      forall k ensures k in after.tags <==> k in m.tags {
        assert TagOf(after, k) == TagOf(m, k);
      }
      forall k | k in m.tags ensures after.tags[k] == m.tags[k] {
        assert TagOf(after, k) == TagOf(m, k);
      }
      assert after.tags == m.tags;
    }
  }

  lemma {:induction false} TookPorts(p: Platform, changes: seq<Change<PortValue>>, vids: set<nat>)
    ensures PortEvents(Took(p, changes, vids).0)
  {
    if changes != [] {
      TookPorts(p, changes[..|changes| - 1], vids);
    }
  }

  // ----- every run -----

  lemma BeginExactly(p: Platform, changes: seq<Change<PortValue>>, m: V.Membership)
    ensures match Begin(Interfaces(p), changes, m)
            case NotBegun(t) => t == m
            case Undone(t) => Took(p, changes, m.vids).1 && t == V.Effects(m, Took(p, changes, m.vids).0)
            case Lost(t) => !Took(p, changes, m.vids).1 && t == V.Effects(m, Took(p, changes, m.vids).0)
            case Begun(t, undos) =>
              !Took(p, changes, m.vids).1 && t == V.Effects(m, Took(p, changes, m.vids).0) && AllIdle(undos)
  {
    if Prepare(Interfaces(p), changes, m).Ready? {
      PreparedReaches(p, changes, m);
    }
  }

  ghost predicate NothingToUndo(sys: Sys<V.Membership>) {
    && (sys.current.Some? ==> AllIdle(sys.current.value.undos))
    && (forall t :: t in sys.timers ==> AllIdle(sys.timers[t]))
  }

  /** One event: a change that was prepared leaves the events it got through; everything else leaves all as it is. */
  ghost predicate Moves(p: Platform, before: V.Membership, ev: Event<PortValue>, after: V.Membership, outcome: Outcome) {
    if outcome in {Accepted, ApplyRaised, PostRaised} then
      && ev.ChangeEvent?
      && var (es, raised) := Took(p, ev.changes, before.vids);
         after == V.Effects(before, es) && (outcome == ApplyRaised <==> raised)
    else outcome != RevertRaised && after == before
  }

  lemma IdleStep(p: Platform, sys: Sys<V.Membership>, ev: Event<PortValue>)
    requires NothingToUndo(sys)
    ensures var (sys', outcome) := Step(Interfaces(p), sys, ev);
            NothingToUndo(sys') && Moves(p, sys.device, ev, sys'.device, outcome)
  {
    match ev
    case ChangeEvent(_, changes) => BeginExactly(p, changes, sys.device);
    case TimeoutEvent(task) =>
      if task in sys.timers {
        IdleReverts(sys.timers[task], sys.device);
      }
    case AbortEvent(_) =>
      if sys.current.Some? {
        IdleReverts(sys.current.value.undos, sys.device);
      }
    case _ =>
  }

  lemma {:induction false} NothingUndone(p: Platform, m: V.Membership, evs: seq<Event<PortValue>>)
    ensures NothingToUndo(Run(Interfaces(p), m, evs).0)
  {
    if evs != [] {
      var n := |evs| - 1;
      NothingUndone(p, m, evs[..n]);
      IdleStep(p, Run(Interfaces(p), m, evs[..n]).0, evs[n]);
    }
  }

  /**
   After any run: a change whose handlers raise leaves the membership as before exactly when each key comes
   out as before of the events it got through, the raising one included; an accepted one likewise. Whatever
   else happens, "abort" and the timer included, leaves the membership alone.
   */
  lemma FailureLeavesExactly(p: Platform, m: V.Membership, evs: seq<Event<PortValue>>, ev: Event<PortValue>)
    ensures var before, (sys', outcome) :=
              Run(Interfaces(p), m, evs).0.device, Step(Interfaces(p), Run(Interfaces(p), m, evs).0, ev);
            && Moves(p, before, ev, sys'.device, outcome)
            && (outcome in {Accepted, ApplyRaised, PostRaised} ==>
                  (sys'.device == before <==> Restores(Took(p, ev.changes, before.vids).0, before)))
  {
    NothingUndone(p, m, evs);
    var sys := Run(Interfaces(p), m, evs).0;
    IdleStep(p, sys, ev);
    if ev.ChangeEvent? {
      TookPorts(p, ev.changes, sys.device.vids);
      RestoredExactly(sys.device, Took(p, ev.changes, sys.device.vids).0);
    }
  }

  /** The transaction pending after a run stays so through the events that follow. */
  ghost predicate PendingThrough(p: Platform, m: V.Membership, evs: seq<Event<PortValue>>, more: seq<Event<PortValue>>) {
    forall k :: 0 <= k <= |more| ==> Run(Interfaces(p), m, evs + more[..k]).0.current.Some?
  }

  lemma PendingStays(p: Platform, m: V.Membership, evs: seq<Event<PortValue>>, ev: Event<PortValue>)
    requires Run(Interfaces(p), m, evs).0.current.Some?
    ensures Step(Interfaces(p), Run(Interfaces(p), m, evs).0, ev).0.device == Run(Interfaces(p), m, evs).0.device
  {
    NothingUndone(p, m, evs);
    IdleStep(p, Run(Interfaces(p), m, evs).0, ev);
  }

  /** While a transaction is pending nothing moves the membership. */
  lemma {:induction false} PendingRests(p: Platform, m: V.Membership, evs: seq<Event<PortValue>>,
                                        more: seq<Event<PortValue>>)
    requires PendingThrough(p, m, evs, more)
    ensures Run(Interfaces(p), m, evs + more).0.current.Some?
    ensures Run(Interfaces(p), m, evs + more).0.device == Run(Interfaces(p), m, evs).0.device
    decreases |more|
  {
    assert more[..|more|] == more;
    if more == [] {
      assert evs + more == evs;
    } else {
      var n := |more| - 1;
      assert evs + more[..n] + [more[n]] == evs + more;
      forall k | 0 <= k <= n ensures Run(Interfaces(p), m, evs + more[..n][..k]).0.current.Some? {
        assert more[..n][..k] == more[..k];
      }
      PendingRests(p, m, evs, more[..n]);
      RunMore(Interfaces(p), m, evs + more[..n], more[n]);
      PendingStays(p, m, evs + more[..n], more[n]);
    }
  }

  lemma AcceptedLeaves(p: Platform, m: V.Membership, evs: seq<Event<PortValue>>, change: Event<PortValue>)
    requires change.ChangeEvent? && Step(Interfaces(p), Run(Interfaces(p), m, evs).0, change).1 == Accepted
    ensures var before := Run(Interfaces(p), m, evs).0.device;
            var es := Took(p, change.changes, before.vids).0;
            var after := Run(Interfaces(p), m, evs + [change]).0.device;
            after == V.Effects(before, es) && (after == before <==> Restores(es, before))
  {
    RunMore(Interfaces(p), m, evs, change);
    FailureLeavesExactly(p, m, evs, change);
  }

  /**
   A transaction accepted after any run, pending through any further events and then ended by any event, its
   "abort" and its timer included, leaves its events' effect. The membership is as before it exactly when each
   key comes out of those events as before.
   */
  lemma AbortRestoresExactly(p: Platform, m: V.Membership, evs: seq<Event<PortValue>>, change: Event<PortValue>,
                             more: seq<Event<PortValue>>, ev: Event<PortValue>)
    requires change.ChangeEvent? && Step(Interfaces(p), Run(Interfaces(p), m, evs).0, change).1 == Accepted
    requires PendingThrough(p, m, evs + [change], more)
    ensures var before := Run(Interfaces(p), m, evs).0.device;
            var es := Took(p, change.changes, before.vids).0;
            var after := Step(Interfaces(p), Run(Interfaces(p), m, evs + [change] + more).0, ev).0.device;
            after == V.Effects(before, es) && (after == before <==> Restores(es, before))
  {
    AcceptedLeaves(p, m, evs, change);
    PendingRests(p, m, evs + [change], more);
    PendingStays(p, m, evs + [change] + more, ev);
  }

  /** A single access change is undone by nobody, unless the interface was in that VLAN already, and in no other. */
  lemma OneAccessChange(m: V.Membership, name: V.IfName, vid: nat)
    requires vid in m.vids
    ensures Restores([V.Access(name, Some(vid))], m) <==> V.UntaggedOf(m.tags, name) == {V.MemberKey(vid, name)}
  {
    var e := V.Access(name, Some(vid));
    assert [e][..0] == [];
    forall k: V.MemberKey ensures TagAfter([e], m.vids, TagOf(m, k), k) == TagThen(e, m.vids, TagOf(m, k), k) {
      assert TagAfter([], m.vids, TagOf(m, k), k) == TagOf(m, k);
    }
    var own := V.MemberKey(vid, name);
    if Restores([e], m) {
      assert TagThen(e, m.vids, TagOf(m, own), own) == TagOf(m, own);
      forall k ensures k in V.UntaggedOf(m.tags, name) <==> k == own {
        assert TagThen(e, m.vids, TagOf(m, k), k) == TagOf(m, k);
      }
    }
    if V.UntaggedOf(m.tags, name) == {own} {
      forall k ensures TagThen(e, m.vids, TagOf(m, k), k) == TagOf(m, k) {
        assert k in V.UntaggedOf(m.tags, name) <==> k == own;
      }
    }
  }

  /** For instance: aborted, the change from VLAN 10 to VLAN 20 leaves the interface in VLAN 20. */
  lemma MovedForInstance(name: V.IfName)
    ensures var m := V.Membership({10, 20}, map[V.MemberKey(10, name) := V.Untagged]);
            !Restores([V.Access(name, Some(20))], m)
  {
    var m := V.Membership({10, 20}, map[V.MemberKey(10, name) := V.Untagged]);
    OneAccessChange(m, name, 20);
    assert V.MemberKey(10, name) in V.UntaggedOf(m.tags, name);
  }

  // ----- what an accepted transaction means -----

  predicate AccessPath(path: seq<string>) {
    ["interfaces", "interface", "switched-vlan", "config", "access-vlan"] <= path
  }

  predicate TrunkPath(path: seq<string>) {
    ["interfaces", "interface", "switched-vlan", "config", "trunk-vlans"] <= path
  }

  /**
   How an interface is a member of a VLAN after one change. Setting the access VLAN makes it untagged there and
   ends the untagged membership elsewhere, deleting it ends that, and trunk VLANs are tagged memberships.
   */
  function TagSet(c: Change<PortValue>, tag: Option<V.Mode>, k: V.MemberKey): Option<V.Mode> {
    if c.value.ifname != k.name then tag
    else if AccessPath(c.xpath) then
      if c.kind != Deleted && c.value.vid == k.vid then Some(V.Untagged)
      else if tag == Some(V.Untagged) then None
      else tag
    else if TrunkPath(c.xpath) && c.value.vid == k.vid then
      if c.kind == Created then Some(V.Tagged)
      else if c.kind == Deleted && tag == Some(V.Tagged) then None
      else tag
    else tag
  }

  function TagSetBy(changes: seq<Change<PortValue>>, tag: Option<V.Mode>, k: V.MemberKey): Option<V.Mode> {
    if changes == [] then tag else TagSet(changes[|changes| - 1], TagSetBy(changes[..|changes| - 1], tag, k), k)
  }

  lemma RoleByPath(p: Platform, c: Change<PortValue>)
    ensures AccessPath(c.xpath) <==> RoleOf(p, c) == Member(AccessEvent(c))
    ensures TrunkPath(c.xpath) <==> RoleOf(p, c) == Member(TrunkEvent(c))
    ensures !AccessPath(c.xpath) && !TrunkPath(c.xpath) ==> !RoleOf(p, c).Member?
  {
    var access, trunk, path := ["interfaces", "interface", "switched-vlan", "config", "access-vlan"],
                               ["interfaces", "interface", "switched-vlan", "config", "trunk-vlans"], c.xpath;
    if |path| >= 5 {
      assert path[..5] == [path[0], path[1], path[2], path[3], path[4]];
    }
  }

  lemma RoleSets(p: Platform, c: Change<PortValue>, vids: set<nat>, tag: Option<V.Mode>, k: V.MemberKey)
    ensures match RoleOf(p, c)
            case Member(e) => !NoVlan(e, vids) ==> TagThen(e, vids, tag, k) == TagSet(c, tag, k)
            case _ => tag == TagSet(c, tag, k)
  {
    RoleByPath(p, c);
    assert k == V.MemberKey(k.vid, k.name);
  }

  /** What a list of changes gets through, when nothing raises, sets each key as the changes say. */
  lemma {:induction false} TookSets(p: Platform, changes: seq<Change<PortValue>>, vids: set<nat>, tag: Option<V.Mode>,
                                    k: V.MemberKey)
    requires !Took(p, changes, vids).1
    ensures TagAfter(Took(p, changes, vids).0, vids, tag, k) == TagSetBy(changes, tag, k)
  {
    if changes != [] {
      var front, c := changes[..|changes| - 1], changes[|changes| - 1];
      var es := Took(p, front, vids).0;
      TookSets(p, front, vids, tag, k);
      RoleSets(p, c, vids, TagSetBy(front, tag, k), k);
      if RoleOf(p, c).Member? {
        assert (es + [RoleOf(p, c).e])[..|es|] == es;
      }
    }
  }

  /** After any run an accepted transaction leaves each interface in each VLAN as its changes say. */
  lemma AcceptedSets(p: Platform, m: V.Membership, evs: seq<Event<PortValue>>, change: Event<PortValue>, k: V.MemberKey)
    requires change.ChangeEvent? && Step(Interfaces(p), Run(Interfaces(p), m, evs).0, change).1 == Accepted
    ensures var before := Run(Interfaces(p), m, evs).0.device;
            var after := Step(Interfaces(p), Run(Interfaces(p), m, evs).0, change).0.device;
            TagOf(after, k) == TagSetBy(change.changes, TagOf(before, k), k)
  {
    var before := Run(Interfaces(p), m, evs).0.device;
    FailureLeavesExactly(p, m, evs, change);
    TookPorts(p, change.changes, before.vids);
    TookSets(p, change.changes, before.vids, TagOf(before, k), k);
    TagsFollow(before, Took(p, change.changes, before.vids).0, k);
  }

  /** A change to one of the other leaves that have a handler of their own. */
  predicate SiblingPath(path: seq<string>) {
    || ["interfaces", "interface", "config"] <= path || ["interfaces", "interface", "ethernet"] <= path
    || ["interfaces", "interface", "switched-vlan", "config", "interface-mode"] <= path
  }

  /** The paths there are, in as much detail as the model has. */
  predicate Known(path: seq<string>) {
    && (|path| > 0 ==> path[0] == "interfaces")
    && (|path| > 1 ==> path[1] == "interface")
    && (|path| > 2 ==> path[2] in {"name", "config", "ethernet", "component-connection", "switched-vlan"})
    && (|path| > 3 && path[2] == "switched-vlan" ==> path[3] == "config")
    && (|path| > 4 && path[2] == "switched-vlan" ==> path[4] in {"interface-mode", "access-vlan", "trunk-vlans"})
  }

  /** What the server refuses: an unknown path, unless deleted; an unknown interface; what a sibling rejects. */
  predicate Unsuitable(p: Platform, c: Change<PortValue>) {
    || (c.kind != Deleted && !Known(c.xpath))
    || ((AccessPath(c.xpath) || TrunkPath(c.xpath)) && c.value.ifname !in p.ports)
    || (SiblingPath(c.xpath) && p.sibling(c) == Rejects)
  }

  lemma PathsApart(path: seq<string>)
    ensures AccessPath(path) <==> At(path, 0, "interfaces") && At(path, 1, "interface") && At(path, 2, "switched-vlan")
                                  && At(path, 3, "config") && At(path, 4, "access-vlan")
    ensures TrunkPath(path) <==> At(path, 0, "interfaces") && At(path, 1, "interface") && At(path, 2, "switched-vlan")
                                 && At(path, 3, "config") && At(path, 4, "trunk-vlans")
    ensures SiblingPath(path)
            <==> At(path, 0, "interfaces") && At(path, 1, "interface")
                 && (At(path, 2, "config") || At(path, 2, "ethernet")
                     || (At(path, 2, "switched-vlan") && At(path, 3, "config") && At(path, 4, "interface-mode")))
  {
    if |path| >= 3 {
      assert path[..3] == [path[0], path[1], path[2]];
    }
    if |path| >= 5 {
      assert path[..5] == [path[0], path[1], path[2], path[3], path[4]];
    }
  }

  /** The class looked up, for each kind of path. */
  ghost predicate LookedUp(p: Platform, path: seq<string>, cls: Option<HandlerClass<V.Membership, PortValue>>) {
    cls == if !Known(path) then None
           else if AccessPath(path) then Some(MemberClass(p, true))
           else if TrunkPath(path) then Some(MemberClass(p, false))
           else if SiblingPath(path) then Some(SiblingClass(p))
           else Some(NoOp())
  }

  lemma LooksUp(p: Platform, path: seq<string>)
    ensures LookedUp(p, path, Lookup(Handlers(p), path))
  {
    PathsApart(path);
    var t0 := Handlers(p);
    assert path[0..] == path;
    Down(t0, path, 0);
    if At(path, 0, "interfaces") {
      var t1 := t0.children["interfaces"];
      Down(t1, path, 1);
      if At(path, 1, "interface") {
        var t2 := t1.children["interface"];
        Down(t2, path, 2);
        if At(path, 2, "switched-vlan") {
          var t3 := t2.children["switched-vlan"];
          Down(t3, path, 3);
          if At(path, 3, "config") {
            Down(t3.children["config"], path, 4);
          }
        }
      }
    }
  }

  lemma RefusableHere(p: Platform, c: Change<PortValue>, m: V.Membership)
    ensures Refusable(Handlers(p), c, m) <==> Unsuitable(p, c)
  {
    RefusableExactly(Handlers(p), c, m);
    LooksUp(p, c.xpath);
    PathsApart(c.xpath);
  }

  /** When the server rejects a change event, and when it is stranded because `post` raises. */
  lemma InterfacesRejectExactly(p: Platform, sys: Sys<V.Membership>, reqId: int, changes: seq<Change<PortValue>>)
    requires sys.current.None?
    ensures var (sys', outcome) := Step(Interfaces(p), sys, ChangeEvent(reqId, changes));
            && (outcome == Rejected <==> !p.pre(sys.device) || exists c :: c in changes && Unsuitable(p, c))
            && (outcome == Accepted ==> p.post(sys'.device)) && (outcome == PostRaised ==> !p.post(sys'.device))
  {
    RejectedExactly(Interfaces(p), sys, reqId, changes);
    forall c: Change<PortValue> {
      RefusableHere(p, c, sys.device);
    }
  }

  /** A change whose handler raises when it is applied: its VLAN is missing, or it is a sibling that raises. */
  predicate RaisesFor(p: Platform, c: Change<PortValue>, vids: set<nat>) {
    || (AccessPath(c.xpath) && c.kind != Deleted && c.value.vid !in vids)
    || (TrunkPath(c.xpath) && c.kind == Created && c.value.vid !in vids)
    || (SiblingPath(c.xpath) && p.sibling(c) == Raises)
  }

  lemma RoleRaises(p: Platform, c: Change<PortValue>, vids: set<nat>)
    ensures RaisesFor(p, c, vids)
            <==> match RoleOf(p, c)
                 case Member(e) => NoVlan(e, vids)
                 case Raising => true
                 case Idling => false
  {
    PathsApart(c.xpath);
  }

  lemma {:induction false} RaisesExactly(p: Platform, changes: seq<Change<PortValue>>, vids: set<nat>)
    ensures Took(p, changes, vids).1 <==> exists c :: c in changes && RaisesFor(p, c, vids)
  {
    if changes != [] {
      var front, c := changes[..|changes| - 1], changes[|changes| - 1];
      assert changes == front + [c];
      RaisesExactly(p, front, vids);
      RoleRaises(p, c, vids);
      assert c in changes;
      if x :| x in front && RaisesFor(p, x, vids) {
        assert x in changes;
      }
    }
  }
}
