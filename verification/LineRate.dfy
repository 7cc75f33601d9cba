/**
 The transponder server's line-rate handler. A module's line rate decides which of its host interfaces
 may exist; changing it creates and removes host interfaces, each with a task that watches its
 notifications. The handler records what it created and removed so that it can revert.
 */
module LineRate {
  import opened Results
  import opened Transactions

  /** The objects of a module with one network interface. */
  datatype Object = ModuleObject | NetIf | HostIf

  datatype Attribute = Attribute(target: Object, name: string)

  const LINE_RATE := Attribute(NetIf, "line-rate")

  /**
   A module with one network interface: which host interfaces each line rate lists, how many the module
   has room for, what its attribute metadata and capabilities make of a requested value (None when they
   rule it out), and which attribute settings the device refuses when they are set.
   */
  datatype Device = Device(rates: map<string, seq<nat>>, numHostifs: nat,
                           capability: (Attribute, ChangeType, string) -> Option<string>,
                           refuses: (Attribute, string) -> bool)
  {

    /** The host interfaces that must exist at a line rate, within the module's range. */
    function Allowed(rate: string): set<nat>
      requires rate in rates
    {
      set i: nat | i < numHostifs && i in rates[rate]
    }
  }

  /** The attributes of a module and its network interface, its host interfaces, and those with a live task. */
  datatype Tai = Tai(attrs: map<Attribute, string>, existing: set<nat>, monitored: set<nat>)

  predicate InRange(d: Device, s: set<nat>) {
    forall i :: i in s ==> i < d.numHostifs
  }

  /** The line rate is one the platform knows, and exactly its host interfaces exist and are watched. */
  predicate Consistent(d: Device, s: Tai) {
    && LINE_RATE in s.attrs && s.attrs[LINE_RATE] in d.rates
    && s.existing == d.Allowed(s.attrs[LINE_RATE]) && s.monitored == s.existing
  }

  // ----- the handler on values -----

  /** What `apply` records for `revert`. */
  datatype Recorded = Recorded(created: set<nat>, removed: set<nat>, original: string)

  /** The host interfaces after switching to `value`; other attributes do not touch them. */
  function Switched(d: Device, attr: Attribute, value: string, s: set<nat>): set<nat>
    requires attr == LINE_RATE ==> value in d.rates
  {
    if attr != LINE_RATE then s else (set i | i in s && i >= d.numHostifs) + d.Allowed(value)
  }

  function RecordOf(d: Device, attr: Attribute, value: string, s: Tai): Recorded
    requires attr in s.attrs && (attr == LINE_RATE ==> value in d.rates)
  {
    var after := Switched(d, attr, value, s.existing);
    Recorded(after - s.existing, s.existing - after, s.attrs[attr])
  }

  /** Host interfaces first, then the attribute: a refused attribute leaves them switched. */
  function ApplyValue(d: Device, attr: Attribute, value: string, s: Tai): ApplyResult<Tai>
    requires attr == LINE_RATE ==> value in d.rates
  {
    var t := s.(existing := Switched(d, attr, value, s.existing), monitored := Switched(d, attr, value, s.monitored));
    if attr !in s.attrs || d.refuses(attr, value) then Failed(t)
    else Applied(t.(attrs := s.attrs[attr := value]), UndoOf(attr, RecordOf(d, attr, value, s)))
  }

  function RevertValue(attr: Attribute, r: Recorded, s: Tai): Tai {
    Tai(s.attrs[attr := r.original], s.existing - r.created + r.removed, s.monitored - r.created + r.removed)
  }

  function UndoOf(attr: Attribute, r: Recorded): Undo<Tai> {
    (s: Tai) => Passed(RevertValue(attr, r, s))
  }

  /** A successful change keeps the module consistent, and its revert gives the module back exactly. */
  lemma ApplyKeepsConsistent(d: Device, attr: Attribute, value: string, s: Tai)
    requires Consistent(d, s) && (attr == LINE_RATE ==> value in d.rates)
    requires ApplyValue(d, attr, value, s).Applied?
    ensures var Applied(t, undo) := ApplyValue(d, attr, value, s);
            && Consistent(d, t) && t.attrs == s.attrs[attr := value] && undo(t) == Passed(s)
  {
    var Applied(t, undo) := ApplyValue(d, attr, value, s);
    var r := RecordOf(d, attr, value, s);
    assert undo(t) == Passed(RevertValue(attr, r, t));
    assert t.existing - r.created + r.removed == s.existing;
    assert s.attrs[attr := value][attr := s.attrs[attr]] == s.attrs;
    if attr == LINE_RATE {
      assert t.existing == d.Allowed(value);
    }
  }

  // ----- any sequence of changes and reverts -----

  datatype Op = Set(attr: Attribute, value: string) | Undo

  /** The stack of applied handlers: each one's attribute, what it recorded, and the module before it. */
  datatype Frame = Frame(attr: Attribute, recorded: Recorded, before: Tai)

  predicate OpValid(d: Device, op: Op) {
    op.Set? ==> !d.refuses(op.attr, op.value) && (op.attr == LINE_RATE ==> op.value in d.rates)
  }

  /** Apply a handler, or revert the most recently applied one. */
  function Perform(d: Device, op: Op, s: Tai, stack: seq<Frame>): (Tai, seq<Frame>)
    requires OpValid(d, op)
  {
    match op
    case Set(attr, value) => (
      match ApplyValue(d, attr, value, s)
      case Failed(t) => (t, stack)
      case Applied(t, _) => (t, stack + [Frame(attr, RecordOf(d, attr, value, s), s)]))
    case Undo =>
      if stack == [] then (s, stack)
      else
        var top := stack[|stack| - 1];
        (RevertValue(top.attr, top.recorded, s), stack[..|stack| - 1])
  }

  function PerformAll(d: Device, ops: seq<Op>, s: Tai): (Tai, seq<Frame>)
    requires forall op :: op in ops ==> OpValid(d, op)
  {
    if ops == [] then (s, [])
    else
      var (t, stack) := PerformAll(d, ops[..|ops| - 1], s);
      Perform(d, ops[|ops| - 1], t, stack)
  }

  /** Each frame's revert leads from the state above it to the state its handler was applied in. */
  ghost predicate StackSound(d: Device, s: Tai, stack: seq<Frame>)
    decreases |stack|
  {
    stack != [] ==>
      var top := stack[|stack| - 1];
      && Consistent(d, top.before) && RevertValue(top.attr, top.recorded, s) == top.before
      && StackSound(d, top.before, stack[..|stack| - 1])
  }

  /**
   After any sequence of changes and last-in-first-out reverts the existing host interfaces are exactly
   those the current line rate lists within range, each watched; and every revert still to come is exact.
   */
  lemma {:induction false} AlwaysConsistent(d: Device, ops: seq<Op>, s: Tai)
    requires Consistent(d, s) && forall op :: op in ops ==> OpValid(d, op)
    ensures var (t, stack) := PerformAll(d, ops, s);
            Consistent(d, t) && StackSound(d, t, stack)
  {
    if ops != [] {
      var front, op := ops[..|ops| - 1], ops[|ops| - 1];
      AlwaysConsistent(d, front, s);
      var (t, stack) := PerformAll(d, front, s);
      assert OpValid(d, op);
      if op.Set? && op.attr in t.attrs {
        ApplyKeepsConsistent(d, op.attr, op.value, t);
        var frame := Frame(op.attr, RecordOf(d, op.attr, op.value, t), t);
        assert (stack + [frame])[..|stack|] == stack;
      } else if op.Set? {
        assert ApplyValue(d, op.attr, op.value, t) == Failed(t);
      }
    }
  }

  // ----- as handlers of the transaction machine -----

  function GoodFor(d: Device): Tai -> bool {
    (s: Tai) => Consistent(d, s)
  }

  function HandlerOf(d: Device, attr: Attribute, value: string): Handler<Tai>
    requires attr == LINE_RATE ==> value in d.rates
  {
    (s: Tai) => ApplyValue(d, attr, value, s)
  }

  /** The value `validate` arrives at: line rates the platform has no information on are refused, too. */
  function Validated(d: Device, attr: Attribute, kind: ChangeType, given: string): (value: Option<string>)
    ensures value.Some? && attr == LINE_RATE ==> value.value in d.rates
  {
    match d.capability(attr, kind, given)
    case None => None
    case Some(v) => if attr == LINE_RATE && v !in d.rates then None else Some(v)
  }

  const IGNORE_LEAVES := ["name", "enable-notify", "enable-alarm-notification"]

  /** The attribute a path ends in: the `at`-th name, unless it is none or one that TAI does not know. */
  function AttributeAt(path: seq<string>, at: nat): Option<string> {
    if |path| == at + 1 && path[at] !in IGNORE_LEAVES then Some(path[at]) else None
  }

  /** `ModuleHandler`, and `InterfaceHandler` for the network interface. */
  function TaiHandler(d: Device, target: Object, at: nat): HandlerClass<Tai, string> {
    (c: Change<string>, s: Tai) =>
      match AttributeAt(c.xpath, at)
      case None => Some(Idle())
      case Some(name) =>
        var attr := Attribute(target, name);
        match Validated(d, attr, c.kind, c.value)
        case None => None
        case Some(v) => Some(HandlerOf(d, attr, v))
  }

  /** Setting a host interface's attribute: it can be refused, and touches nothing the model looks at. */
  function HostAttribute(d: Device, attr: Attribute, value: string): Handler<Tai> {
    (s: Tai) => if d.refuses(attr, value) then Failed(s) else Applied(s, IdleUndo<Tai>())
  }

  /** `InterfaceHandler` for a host interface, which has no line rate. */
  function HostIfHandler(d: Device, at: nat): HandlerClass<Tai, string> {
    (c: Change<string>, s: Tai) =>
      match AttributeAt(c.xpath, at)
      case None => Some(Idle())
      case Some(name) =>
        var attr := Attribute(HostIf, name);
        if name == LINE_RATE.name then None
        else
          match d.capability(attr, c.kind, c.value)
          case None => None
          case Some(v) => Some(HostAttribute(d, attr, v))
  }

  /** The handlers of the transponder server. */
  function Handlers(d: Device): Tree<Tai, string> {
    var noop := Leaf(NoOp<Tai, string>());
    Node(map["modules" := Node(map["module" := Node(map[
      "name" := noop,
      "config" := Leaf(TaiHandler(d, ModuleObject, 3)),
      "network-interface" := Node(map["name" := noop, "config" := Leaf(TaiHandler(d, NetIf, 4))]),
      "host-interface" := Node(map["name" := noop, "config" := Leaf(HostIfHandler(d, 4))]),
      "component-connection" := noop])])])
  }

  /** The transponder server: it refuses changes while it is initialising, and has no `post` of its own. */
  function Transponder(d: Device, initializing: bool): Config<Tai, string> {
    Config(Handlers(d), s => if initializing then Refused(s) else Passed(s), s => Passed(s))
  }

  /** The device accepts the setting, or there is nothing to switch for it. */
  predicate Undoable(d: Device, attr: Attribute, value: string, s: Tai)
    requires attr == LINE_RATE ==> value in d.rates
  {
    !d.refuses(attr, value) || attr != LINE_RATE || d.Allowed(value) == s.existing
  }

  /** A line rate that is refused after host interfaces were created or removed is not undone. */
  lemma OwnUndoExact(d: Device, attr: Attribute, value: string, s: Tai)
    requires Consistent(d, s) && (attr == LINE_RATE ==> value in d.rates)
    ensures OwnUndo(HandlerOf(d, attr, value), GoodFor(d), s) <==> Undoable(d, attr, value, s)
  {
    assert HandlerOf(d, attr, value)(s) == ApplyValue(d, attr, value, s);
    match ApplyValue(d, attr, value, s)
    case Applied(_, _) => ApplyKeepsConsistent(d, attr, value, s);
    case Failed(t) =>
      if attr == LINE_RATE {
        assert t.existing == d.Allowed(value);
      } else {
        assert t == s;
      }
  }

  /**
   About the device and the platform alone: a line rate that passes validation and is refused when it is
   set lists the same host interfaces as every other.
   */
  ghost predicate RatesAccepted(d: Device) {
    forall kind, given, rate :: RateAccepted(d, kind, given, rate)
  }

  ghost predicate RateAccepted(d: Device, kind: ChangeType, given: string, rate: string) {
    var v := Validated(d, LINE_RATE, kind, given);
    v.Some? && d.refuses(LINE_RATE, v.value) && rate in d.rates ==> d.Allowed(v.value) == d.Allowed(rate)
  }

  const LINE_RATE_PATH := ["modules", "module", "network-interface", "config", "line-rate"]

  lemma RateLawful(d: Device, kind: ChangeType, given: string, rate: string)
    requires LawfulClass(TaiHandler(d, NetIf, 4), GoodFor(d))
    ensures RateAccepted(d, kind, given, rate)
  {
    var v := Validated(d, LINE_RATE, kind, given);
    if v.Some? && d.refuses(LINE_RATE, v.value) && rate in d.rates {
      var s := Tai(map[LINE_RATE := rate], d.Allowed(rate), d.Allowed(rate));
      var c := Change(LINE_RATE_PATH, kind, given);
      var cls, good, h := TaiHandler(d, NetIf, 4), GoodFor(d), HandlerOf(d, LINE_RATE, v.value);
      assert AttributeAt(LINE_RATE_PATH, 4) == Some("line-rate");
      assert cls(c, s) == Some(h) && good(s);
      assert LawfulHandler(h, good);
      assert OwnUndo(h, good, s);
      OwnUndoExact(d, LINE_RATE, v.value, s);
    }
  }

  lemma TaiHandlerLawful(d: Device, target: Object, at: nat)
    requires RatesAccepted(d)
    ensures LawfulClass(TaiHandler(d, target, at), GoodFor(d))
  {
    var cls, good := TaiHandler(d, target, at), GoodFor(d);
    IdleLawful(good);
    forall c, s | good(s) && cls(c, s).Some? ensures LawfulHandler(cls(c, s).value, good) {
      if AttributeAt(c.xpath, at).Some? {
        var attr := Attribute(target, AttributeAt(c.xpath, at).value);
        var v := Validated(d, attr, c.kind, c.value).value;
        assert cls(c, s) == Some(HandlerOf(d, attr, v));
        forall t | good(t) ensures OwnUndo(HandlerOf(d, attr, v), good, t) {
          if attr == LINE_RATE {
            assert RateAccepted(d, c.kind, c.value, t.attrs[LINE_RATE]);
          }
          OwnUndoExact(d, attr, v, t);
        }
      }
    }
  }

  lemma HostIfHandlerLawful(d: Device, at: nat)
    ensures LawfulClass(HostIfHandler(d, at), GoodFor(d))
  {
    var cls, good := HostIfHandler(d, at), GoodFor(d);
    IdleLawful(good);
    forall c, s | good(s) && cls(c, s).Some? ensures LawfulHandler(cls(c, s).value, good) {
      if AttributeAt(c.xpath, at).Some? {
        var attr := Attribute(HostIf, AttributeAt(c.xpath, at).value);
        var h := HostAttribute(d, attr, d.capability(attr, c.kind, c.value).value);
        assert cls(c, s) == Some(h);
        forall t | good(t) ensures OwnUndo(h, good, t) {
        }
      }
    }
  }

  lemma NoOpLawful(good: Tai -> bool)
    ensures LawfulTree(Leaf(NoOp<Tai, string>()), good)
  {
    IdleLawful(good);
  }

  /** The server's handlers are fit for the transaction machine exactly when the line rates are accepted. */
  lemma HandlersLawfulExact(d: Device)
    ensures LawfulTree(Handlers(d), GoodFor(d)) <==> RatesAccepted(d)
  {
    var good := GoodFor(d);
    var mod := Handlers(d).children["modules"].children["module"];
    var netif, hostif := mod.children["network-interface"], mod.children["host-interface"];
    if LawfulTree(Handlers(d), good) {
      assert LawfulTree(Handlers(d).children["modules"], good);
      assert LawfulTree(mod, good) && LawfulTree(netif, good) && LawfulTree(netif.children["config"], good);
      forall kind, given, rate ensures RateAccepted(d, kind, given, rate) {
        RateLawful(d, kind, given, rate);
      }
    }
    if RatesAccepted(d) {
      NoOpLawful(good);
      TaiHandlerLawful(d, ModuleObject, 3);
      TaiHandlerLawful(d, NetIf, 4);
      HostIfHandlerLawful(d, 4);
      assert LawfulTree(netif, good) && LawfulTree(hostif, good);
      assert LawfulTree(mod, good);
      assert LawfulTree(Handlers(d).children["modules"], good);
    }
  }

  /**
   With line rates accepted, over every run of events of the transponder server: the module is consistent,
   and it is what the committed changes and the pending one lead to, whose undo leads back.
   */
  lemma ModuleAlways(d: Device, initializing: bool, s: Tai, evs: seq<Event<string>>)
    requires RatesAccepted(d) && Consistent(d, s)
    ensures var cfg := Transponder(d, initializing);
            var (sys, ledger) := Run(cfg, s, evs);
            var settled := Replay(cfg, KeptChanges(ledger.resolved), s);
            && Consistent(d, sys.device)
            && match sys.current
               case None => sys.device == settled
               case Some(p) => && ledger.waiting.Some? && sys.device == Effect(cfg, ledger.waiting.value.changes, settled)
                               && RevertAll(p.undos, sys.device) == Passed(settled)
  {
    var cfg := Transponder(d, initializing);
    HandlersLawfulExact(d);
    LawfulTreeKeepsLaw(cfg, GoodFor(d));
    DeviceAlways(cfg, GoodFor(d), s, evs);
    CommittedOnly(cfg, GoodFor(d), s, evs);
  }

  // ----- what an accepted transaction means -----

  /** The attribute of the module or its network interface that a path names; three names are none. */
  function Named(path: seq<string>): Option<Attribute> {
    if |path| == 4 && path[..3] == ["modules", "module", "config"]
       && path[3] !in {"name", "enable-notify", "enable-alarm-notification"}
    then Some(Attribute(ModuleObject, path[3]))
    else if |path| == 5 && path[..4] == ["modules", "module", "network-interface", "config"]
            && path[4] !in {"name", "enable-notify", "enable-alarm-notification"}
    then Some(Attribute(NetIf, path[4]))
    else None
  }

  /** The same for a host interface. */
  function NamedHost(path: seq<string>): Option<Attribute> {
    if |path| == 5 && path[..4] == ["modules", "module", "host-interface", "config"]
       && path[4] !in {"name", "enable-notify", "enable-alarm-notification"}
    then Some(Attribute(HostIf, path[4])) else None
  }

  function Held(attrs: map<Attribute, string>, a: Attribute): Option<string> {
    if a in attrs then Some(attrs[a]) else None
  }

  /** What a list of changes asks of an attribute: the last change that names it, as the capability has it. */
  function AskedOf(d: Device, changes: seq<Change<string>>, attrs: map<Attribute, string>, a: Attribute): Option<string> {
    if changes == [] then Held(attrs, a)
    else
      var c := changes[|changes| - 1];
      if Named(c.xpath) == Some(a) then d.capability(a, c.kind, c.value)
      else AskedOf(d, changes[..|changes| - 1], attrs, a)
  }

  lemma PrefixAt(path: seq<string>)
    ensures |path| >= 3 ==> path[..3] == [path[0], path[1], path[2]]
    ensures |path| >= 4 ==> path[..4] == [path[0], path[1], path[2], path[3]]
  {
  }

  predicate At(path: seq<string>, k: nat, name: string) {
    k < |path| && path[k] == name
  }

  lemma Down(t: Tree<Tai, string>, path: seq<string>, k: nat)
    requires t.Node? && k <= |path|
    ensures k == |path| ==> Lookup(t, path[k..]) == Some(NoOp())
    ensures k < |path| && path[k] !in t.children ==> Lookup(t, path[k..]) == None
    ensures k < |path| && path[k] in t.children ==>
              Lookup(t, path[k..]) == Lookup(t.children[path[k]], path[k + 1..])
  {
    if k < |path| {
      assert path[k..][0] == path[k] && path[k..][1..] == path[k + 1..];
    }
  }

  /** The paths there are. */
  predicate Known(path: seq<string>) {
    && (|path| > 0 ==> path[0] == "modules")
    && (|path| > 1 ==> path[1] == "module")
    && (|path| > 2 ==> path[2] in {"name", "config", "network-interface", "host-interface", "component-connection"})
    && (|path| > 3 && path[2] in {"network-interface", "host-interface"} ==> path[3] in {"name", "config"})
  }

  /** The class looked up for a path. */
  ghost predicate LookedUp(d: Device, path: seq<string>, cls: Option<HandlerClass<Tai, string>>) {
    if !Known(path) then cls == None
    else if At(path, 2, "config") then cls == Some(TaiHandler(d, ModuleObject, 3))
    else if At(path, 2, "network-interface") && At(path, 3, "config") then cls == Some(TaiHandler(d, NetIf, 4))
    else if At(path, 2, "host-interface") && At(path, 3, "config") then cls == Some(HostIfHandler(d, 4))
    else cls == Some(NoOp())
  }

  lemma LooksUp(d: Device, path: seq<string>)
    ensures LookedUp(d, path, Lookup(Handlers(d), path))
  {
    var t0 := Handlers(d);
    assert path[0..] == path;
    Down(t0, path, 0);
    if At(path, 0, "modules") {
      var t1 := t0.children["modules"];
      Down(t1, path, 1);
      if At(path, 1, "module") {
        var t2 := t1.children["module"];
        Down(t2, path, 2);
        if At(path, 2, "network-interface") {
          Down(t2.children["network-interface"], path, 3);
        } else if At(path, 2, "host-interface") {
          Down(t2.children["host-interface"], path, 3);
        }
      }
    }
  }

  lemma NamesAt(path: seq<string>)
    requires Known(path)
    ensures Named(path) == if At(path, 2, "config") then
                             (match AttributeAt(path, 3) case None => None case Some(n) => Some(Attribute(ModuleObject, n)))
                           else if At(path, 2, "network-interface") && At(path, 3, "config") then
                             (match AttributeAt(path, 4) case None => None case Some(n) => Some(Attribute(NetIf, n)))
                           else None
    ensures NamedHost(path) == if At(path, 2, "host-interface") && At(path, 3, "config") then
                                 (match AttributeAt(path, 4) case None => None case Some(n) => Some(Attribute(HostIf, n)))
                               else None
  {
    PrefixAt(path);
  }

  /** The value a change asks for, as the capability has it. */
  function ValueFor(d: Device, a: Attribute, c: Change<string>): string {
    match d.capability(a, c.kind, c.value)
    case Some(v) => v
    case None => ""
  }

  /** A change that raises when it is applied: its attribute cannot be read, or the device refuses the value. */
  predicate RefusedBy(d: Device, c: Change<string>, readable: set<Attribute>) {
    || (Named(c.xpath).Some? && var a := Named(c.xpath).value; a !in readable || d.refuses(a, ValueFor(d, a, c)))
    || (NamedHost(c.xpath).Some? && var a := NamedHost(c.xpath).value; d.refuses(a, ValueFor(d, a, c)))
  }

  /** The module after a list of changes has been applied to `s`. */
  ghost predicate Settles(d: Device, changes: seq<Change<string>>, s: Tai, t: Tai) {
    && t.attrs.Keys == s.attrs.Keys && (Consistent(d, s) ==> Consistent(d, t))
    && forall a :: Held(t.attrs, a) == AskedOf(d, changes, s.attrs, a)
  }

  lemma SettlesMore(d: Device, changes: seq<Change<string>>, c: Change<string>, s: Tai, t: Tai, u: Tai)
    requires Settles(d, changes, s, t) && u.attrs.Keys == t.attrs.Keys && (Consistent(d, t) ==> Consistent(d, u))
    requires match Named(c.xpath)
             case Some(a) => u.attrs == t.attrs[a := ValueFor(d, a, c)] && d.capability(a, c.kind, c.value).Some?
             case None => u.attrs == t.attrs
    ensures Settles(d, changes + [c], s, u)
  {
    assert (changes + [c])[..|changes|] == changes;
  }

  /** One change's handler, once the list has come this far. */
  lemma ChangeApplies(d: Device, c: Change<string>, s: Tai, t: Tai)
    requires Lookup(Handlers(d), c.xpath).Some? && Lookup(Handlers(d), c.xpath).value(c, s).Some?
    ensures match Lookup(Handlers(d), c.xpath).value(c, s).value(t)
            case Failed(_) => RefusedBy(d, c, t.attrs.Keys)
            case Applied(u, _) =>
              && !RefusedBy(d, c, t.attrs.Keys) && u.attrs.Keys == t.attrs.Keys && (Consistent(d, t) ==> Consistent(d, u))
              && match Named(c.xpath)
                 case Some(a) => u.attrs == t.attrs[a := ValueFor(d, a, c)] && d.capability(a, c.kind, c.value).Some?
                 case None => u.attrs == t.attrs
  {
    LooksUp(d, c.xpath);
    NamesAt(c.xpath);
    match Named(c.xpath)
    case Some(a) =>
      var v := Validated(d, a, c.kind, c.value).value;
      assert Lookup(Handlers(d), c.xpath).value(c, s).value == HandlerOf(d, a, v);
      if Consistent(d, t) && ApplyValue(d, a, v, t).Applied? {
        ApplyKeepsConsistent(d, a, v, t);
      }
    case None =>
  }

  /** Prepared handlers set what the changes ask for, unless one of them is refused. */
  lemma {:induction false} PreparedSettles(d: Device, initializing: bool, changes: seq<Change<string>>, s: Tai)
    requires Prepare(Transponder(d, initializing), changes, s).Ready?
    ensures match ApplyAll(Prepare(Transponder(d, initializing), changes, s).handlers, s, [])
            case Done(t, _) => Settles(d, changes, s, t) && forall c :: c in changes ==> !RefusedBy(d, c, s.attrs.Keys)
            case RolledBack(_) => exists c :: c in changes && RefusedBy(d, c, s.attrs.Keys)
    decreases |changes|
  {
    var cfg := Transponder(d, initializing);
    if changes != [] {
      var n := |changes| - 1;
      var front, c := changes[..n], changes[n];
      assert changes == front + [c] && c in changes;
      PreparedSettles(d, initializing, front, s);
      var hs := Prepare(cfg, front, s).handlers;
      if Lookup(Handlers(d), c.xpath).Some? {
        var h := Lookup(Handlers(d), c.xpath).value(c, s).value;
        ApplyMore(hs, h, s, []);
        if ApplyAll(hs, s, []).Done? {
          var t := ApplyAll(hs, s, []).state;
          ChangeApplies(d, c, s, t);
          if h(t).Applied? {
            SettlesMore(d, front, c, s, t, h(t).state);
          }
        }
      } else {
        Unhandled(d, c);
        if ApplyAll(hs, s, []).Done? {
          SettlesMore(d, front, c, s, ApplyAll(hs, s, []).state, ApplyAll(hs, s, []).state);
        }
      }
    }
  }

  lemma Unhandled(d: Device, c: Change<string>)
    requires Lookup(Handlers(d), c.xpath).None?
    ensures Named(c.xpath).None? && NamedHost(c.xpath).None?
  {
    LooksUp(d, c.xpath);
    PrefixAt(c.xpath);
  }

  /**
   An accepted transaction leaves in each attribute what the last change that names it asked for, as the
   capability has it, and in every other what was there; and the host interfaces of its line rate.
   */
  lemma AcceptedSets(d: Device, initializing: bool, s: Tai, changes: seq<Change<string>>)
    requires Consistent(d, s) && Begin(Transponder(d, initializing), changes, s).Begun?
    ensures var t := Begin(Transponder(d, initializing), changes, s).state;
            && (forall a :: Held(t.attrs, a) == AskedOf(d, changes, s.attrs, a))
            && Attribute(NetIf, "line-rate") in t.attrs && t.attrs[Attribute(NetIf, "line-rate")] in d.rates
            && (forall i :: i in t.existing <==> i < d.numHostifs && i in d.rates[t.attrs[Attribute(NetIf, "line-rate")]])
  {
    PreparedSettles(d, initializing, changes, s);
  }

  /** What the server refuses: an unknown path, unless deleted; what the capability or the platform rules out. */
  predicate Unsuitable(d: Device, c: Change<string>) {
    || (c.kind != Deleted && !Known(c.xpath))
    || (Named(c.xpath).Some?
        && var a := Named(c.xpath).value;
           || d.capability(a, c.kind, c.value).None?
           || (a == Attribute(NetIf, "line-rate") && d.capability(a, c.kind, c.value).value !in d.rates))
    || (NamedHost(c.xpath).Some?
        && var a := NamedHost(c.xpath).value; a.name == "line-rate" || d.capability(a, c.kind, c.value).None?)
  }

  lemma RefusableHere(d: Device, c: Change<string>, s: Tai)
    ensures Refusable(Handlers(d), c, s) <==> Unsuitable(d, c)
  {
    RefusableExactly(Handlers(d), c, s);
    LooksUp(d, c.xpath);
    PrefixAt(c.xpath);
    if Known(c.xpath) {
      NamesAt(c.xpath);
    }
  }

  /** When the server rejects a change event, and when one of its handlers raises. */
  lemma TransponderRefusesExactly(d: Device, initializing: bool, sys: Sys<Tai>, reqId: int, changes: seq<Change<string>>)
    requires sys.current.None?
    ensures var outcome := Step(Transponder(d, initializing), sys, ChangeEvent(reqId, changes)).1;
            && (outcome == Rejected <==> initializing || exists c :: c in changes && Unsuitable(d, c))
            && (outcome == ApplyRaised
                <==> outcome != Rejected && exists c :: c in changes && RefusedBy(d, c, sys.device.attrs.Keys))
  {
    var cfg := Transponder(d, initializing);
    RejectedExactly(cfg, sys, reqId, changes);
    forall c: Change<string> {
      RefusableHere(d, c, sys.device);
    }
    if Prepare(cfg, changes, sys.device).Ready? {
      PreparedSettles(d, initializing, changes, sys.device);
    }
  }

  // For instance: two line rates, of which the device refuses the second, and a host interface for each.

  function RefusingDevice(): Device {
    Device(map["a" := [0], "b" := [1]], 2, (attr, kind, given) => Some(given), (attr, value) => value == "b")
  }

  function AtFirstRate(): Tai {
    Tai(map[LINE_RATE := "a"], {0}, {0})
  }

  /** The change to the second rate fails, and leaves its host interface in place of the first's. */
  lemma RefusedForInstance()
    ensures Consistent(RefusingDevice(), AtFirstRate())
    ensures var (sys, outcome) := Step(Transponder(RefusingDevice(), false), Start(AtFirstRate()),
                                       ChangeEvent(1, [Change(LINE_RATE_PATH, Modified, "b")]));
            && outcome == ApplyRaised && sys.device.attrs == AtFirstRate().attrs && sys.device.existing == {1}
            && !Consistent(RefusingDevice(), sys.device)
  {
    var d, s, cfg := RefusingDevice(), AtFirstRate(), Transponder(RefusingDevice(), false);
    var changes := [Change(LINE_RATE_PATH, Modified, "b")];
    assert d.Allowed("a") == {0} && d.Allowed("b") == {1};
    assert cfg.pre(s) == Passed(s);
    RefusedPrepares(changes);
    RefusedApplies();
    assert Begin(cfg, changes, s) == Undone(Tai(s.attrs, {1}, {1}));
  }

  lemma RefusedPrepares(changes: seq<Change<string>>)
    requires changes == [Change(LINE_RATE_PATH, Modified, "b")]
    ensures Prepare(Transponder(RefusingDevice(), false), changes, AtFirstRate())
            == Ready([HandlerOf(RefusingDevice(), LINE_RATE, "b")])
  {
    var d, s := RefusingDevice(), AtFirstRate();
    NetIfConfig(d);
    assert AttributeAt(LINE_RATE_PATH, 4) == Some("line-rate");
    assert Validated(d, LINE_RATE, Modified, "b") == Some("b");
    var h := HandlerOf(d, LINE_RATE, "b");
    assert TaiHandler(d, NetIf, 4)(changes[0], s) == Some(h);
    assert changes[..0] == [] && [] + [h] == [h];
  }

  lemma RefusedApplies()
    ensures ApplyAll([HandlerOf(RefusingDevice(), LINE_RATE, "b")], AtFirstRate(), [])
            == RolledBack(Tai(AtFirstRate().attrs, {1}, {1}))
  {
    var d, s := RefusingDevice(), AtFirstRate();
    assert d.Allowed("b") == {1};
    assert Switched(d, LINE_RATE, "b", {0}) == {1};
    assert HandlerOf(d, LINE_RATE, "b")(s) == Failed(Tai(s.attrs, {1}, {1}));
  }

  lemma NetIfConfig(d: Device)
    ensures Lookup(Handlers(d), LINE_RATE_PATH) == Some(TaiHandler(d, NetIf, 4))
  {
    var path := LINE_RATE_PATH;
    var t0 := Handlers(d);
    var t1 := t0.children["modules"];
    var t2 := t1.children["module"];
    var t3 := t2.children["network-interface"];
    assert Lookup(t0, path) == Lookup(t1, path[1..]);
    assert path[1..][1..] == path[2..] && Lookup(t1, path[1..]) == Lookup(t2, path[2..]);
    assert path[2..][1..] == path[3..] && Lookup(t2, path[2..]) == Lookup(t3, path[3..]);
    assert path[3..][1..] == path[4..] && Lookup(t3, path[3..]) == Lookup(t3.children["config"], path[4..]);
  }

  // ----- the module and handler objects -----

  class Module {
    const dev: Device
    var attrs: map<Attribute, string>
    var existing: set<nat>
    var tasks: map<nat, nat>      // modules["hostifs"]: the last task created for each index
    var live: set<nat>            // the tasks that have not been cancelled
    var nextTask: nat

    constructor (dev: Device, attrs: map<Attribute, string>, existing: set<nat>)
      requires InRange(dev, existing)
      ensures this.dev == dev && this.attrs == attrs && this.existing == existing
      ensures TasksSound() && Monitored() == {}
    {
      this.dev, this.attrs, this.existing := dev, attrs, existing;
      tasks, live, nextTask := map[], {}, 0;
    }

    /** The indices whose recorded task is live. */
    function Monitored(): set<nat>
      reads this`tasks, this`live
    {
      set i | i in tasks && tasks[i] in live
    }

    function View(): Tai
      reads this
    {
      Tai(attrs, existing, Monitored())
    }

    /** Tasks are recorded under one index each, and no live task has been forgotten. */
    ghost predicate TasksSound()
      reads this`tasks, this`live, this`nextTask
    {
      && (forall i :: i in tasks ==> tasks[i] < nextTask)
      && (forall i, j :: i in tasks && j in tasks && tasks[i] == tasks[j] ==> i == j)
      && (forall t :: t in live ==> exists i :: i in tasks && tasks[i] == t)
    }

    method Create(index: nat)
      requires TasksSound() && index !in Monitored()
      modifies this`existing, this`tasks, this`live, this`nextTask
      ensures TasksSound()
      ensures existing == old(existing) + {index} && Monitored() == old(Monitored()) + {index}
    {
      existing := existing + {index};
      live := live + {nextTask};
      tasks := tasks[index := nextTask];
      nextTask := nextTask + 1;
      forall t | t in live ensures exists i :: i in tasks && tasks[i] == t {
        if t in old(live) {
          var i :| i in old(tasks) && old(tasks)[i] == t;
          assert i != index;
          assert i in tasks && tasks[i] == t;
        } else {
          assert tasks[index] == t;
        }
      }
    }

    method Remove(index: nat)
      requires TasksSound() && index in tasks
      modifies this`existing, this`live
      ensures TasksSound()
      ensures existing == old(existing) - {index} && Monitored() == old(Monitored()) - {index}
    {
      live := live - {tasks[index]};
      existing := existing - {index};
    }

    /**
     The host-interface part of `initialize_piu`. A module that does not report its line rate gets all
     its host interfaces; a reported rate without platform information raises.
     */
    method Initialize() returns (ok: bool)
      requires TasksSound() && Monitored() == {} && InRange(dev, existing)
      modifies this`existing, this`tasks, this`live, this`nextTask
      ensures ok <==> (LINE_RATE in attrs ==> attrs[LINE_RATE] in dev.rates)
      ensures ok ==> TasksSound() && existing == Monitored()
      ensures ok && LINE_RATE in attrs ==> Consistent(dev, View())
      ensures ok && LINE_RATE !in attrs ==> forall i: nat :: i in existing <==> i < dev.numHostifs
    {
      var hostifs := seq(dev.numHostifs, i => i);
      if LINE_RATE in attrs {
        if attrs[LINE_RATE] !in dev.rates {
          return false;
        }
        hostifs := dev.rates[attrs[LINE_RATE]];
      } else {
        forall i: nat | i < dev.numHostifs ensures i in hostifs {
          assert hostifs[i] == i;
        }
      }
      Populate(hostifs);
      return true;
    }

    method Populate(hostifs: seq<nat>)
      requires TasksSound() && Monitored() == {} && InRange(dev, existing)
      modifies this`existing, this`tasks, this`live, this`nextTask
      ensures TasksSound() && existing == Monitored()
      ensures forall i: nat :: i in existing <==> i < dev.numHostifs && i in hostifs
    {
      tasks, live := map[], {};
      for index := 0 to dev.numHostifs
        invariant TasksSound()
        invariant forall i :: i in Monitored() <==> i < index && i in hostifs
        invariant forall i: nat :: i < index ==> (i in existing <==> i in hostifs)
        invariant InRange(dev, existing)
      {
        if index in hostifs {
          Create(index);
        } else {
          existing := existing - {index};
        }
      }
    }

    /** `cleanup_piu`: every host interface and every task goes. */
    method Cleanup()
      requires TasksSound()
      modifies this`existing, this`live
      ensures TasksSound() && existing == {} && Monitored() == {} && live == {}
    {
      live := {};
      existing := {};
    }
  }

  function Elements(s: seq<nat>): set<nat> {
    set i | i in s
  }

  predicate Distinct(s: seq<nat>) {
    forall i, j :: 0 <= i < j < |s| ==> s[i] != s[j]
  }

  lemma Appended(s: seq<nat>, x: nat)
    requires Distinct(s) && x !in Elements(s)
    ensures Distinct(s + [x]) && Elements(s + [x]) == Elements(s) + {x}
  {
  }

  /** The host interfaces when the indices below `index` have been switched from `was` to `want`. */
  ghost function Halfway(want: set<nat>, was: set<nat>, index: nat): set<nat> {
    (set i | i in want && i < index) + (set i | i in was && i >= index)
  }

  /** How far the switch has come, in the three collections it updates. */
  ghost predicate SwitchedBelow(want: set<nat>, was: set<nat>, index: nat, existing: set<nat>,
                                created: seq<nat>, removed: seq<nat>)
  {
    && existing == Halfway(want, was, index)
    && Elements(created) == existing - was && Elements(removed) == was - existing
    && Distinct(created) && Distinct(removed)
  }

  lemma SwitchStep(want: set<nat>, was: set<nat>, index: nat, existing: set<nat>, created: seq<nat>, removed: seq<nat>)
    requires SwitchedBelow(want, was, index, existing, created, removed)
    ensures index in existing <==> index in was
    ensures index in existing && index !in want ==>
              SwitchedBelow(want, was, index + 1, existing - {index}, created, removed + [index])
    ensures index !in existing && index in want ==>
              SwitchedBelow(want, was, index + 1, existing + {index}, created + [index], removed)
    ensures (index in existing <==> index in want) ==>
              SwitchedBelow(want, was, index + 1, existing, created, removed)
  {
    var after := existing - {index} + (if index in want then {index} else {});
    assert after == Halfway(want, was, index + 1);
    if index in existing && index !in want {
      assert index !in Elements(removed);
      Appended(removed, index);
    } else if index !in existing && index in want {
      assert index !in Elements(created);
      Appended(created, index);
    }
  }

  class LineRateHandler {
    const attr: Attribute
    const value: string
    var created: seq<nat>
    var removed: seq<nat>
    var original: string

    constructor (attr: Attribute, value: string)
      ensures this.attr == attr && this.value == value
    {
      this.attr, this.value := attr, value;
      created, removed, original := [], [], "";
    }

    function View(): Recorded
      reads this
    {
      Recorded(Elements(created), Elements(removed), original)
    }

    /** What was created is there, what was removed is not, as right after `apply`. */
    predicate Revertible(existing: set<nat>)
      reads this
    {
      Distinct(created) && Distinct(removed) && Elements(created) <= existing && Elements(removed) !! existing
    }

    /** `InterfaceHandler.apply`; false when the device refuses the attribute. */
    method Apply(m: Module) returns (ok: bool)
      requires m.TasksSound() && Consistent(m.dev, m.View())
      requires attr == LINE_RATE ==> value in m.dev.rates
      modifies this, m
      ensures m.TasksSound()
      ensures match ApplyValue(m.dev, attr, value, old(m.View()))
              case Failed(t) => !ok && m.View() == t
              case Applied(t, _) => && ok && m.View() == t && Revertible(m.existing)
                                    && View() == RecordOf(m.dev, attr, value, old(m.View()))
    {
      created, removed := [], [];
      if attr == LINE_RATE {
        Switch(m);
      }
      if attr !in m.attrs {
        return false;
      }
      original := m.attrs[attr];
      if m.dev.refuses(attr, value) {
        return false;
      }
      m.attrs := m.attrs[attr := value];
      return true;
    }

    method Switch(m: Module)
      requires m.TasksSound() && Consistent(m.dev, m.View())
      requires attr == LINE_RATE && value in m.dev.rates && created == [] && removed == []
      modifies this, m
      ensures m.TasksSound() && m.attrs == old(m.attrs)
      ensures m.existing == m.Monitored() == m.dev.Allowed(value)
      ensures Elements(created) == m.dev.Allowed(value) - old(m.existing)
      ensures Elements(removed) == old(m.existing) - m.dev.Allowed(value)
      ensures Distinct(created) && Distinct(removed)
    {
      var hostifs := m.dev.rates[value];
      ghost var want, was := m.dev.Allowed(value), m.existing;
      for index := 0 to m.dev.numHostifs
        invariant m.TasksSound() && m.attrs == old(m.attrs)
        invariant m.existing == m.Monitored()
        invariant SwitchedBelow(want, was, index, m.existing, created, removed)
      {
        SwitchStep(want, was, index, m.existing, created, removed);
        SwitchOne(m, index, index in hostifs);
      }
      assert Halfway(want, was, m.dev.numHostifs) == want;
    }

    method SwitchOne(m: Module, index: nat, mustExist: bool)
      requires m.TasksSound() && m.existing == m.Monitored()
      modifies this`created, this`removed, m`existing, m`tasks, m`live, m`nextTask
      ensures m.TasksSound() && m.existing == m.Monitored()
      ensures var was := old(m.existing);
              if index in was && !mustExist then
                m.existing == was - {index} && created == old(created) && removed == old(removed) + [index]
              else if index !in was && mustExist then
                m.existing == was + {index} && created == old(created) + [index] && removed == old(removed)
              else
                m.existing == was && created == old(created) && removed == old(removed)
    {
      if index in m.existing {
        if !mustExist {
          assert index in m.Monitored();
          m.Remove(index);
          removed := removed + [index];
        }
      } else if mustExist {
        assert index !in m.Monitored();
        m.Create(index);
        created := created + [index];
      }
    }

    /** `InterfaceHandler.revert`: the attribute first, then the host interfaces. */
    method Revert(m: Module)
      requires m.TasksSound() && m.existing == m.Monitored() && Revertible(m.existing)
      modifies m
      ensures m.TasksSound() && m.View() == RevertValue(attr, View(), old(m.View()))
    {
      m.attrs := m.attrs[attr := original];
      RemoveCreated(m);
      RestoreRemoved(m);
    }

    method RemoveCreated(m: Module)
      requires m.TasksSound() && m.existing == m.Monitored() && Revertible(m.existing)
      modifies m`existing, m`live
      ensures m.TasksSound() && m.existing == m.Monitored() == old(m.existing) - Elements(created)
    {
      for k := 0 to |created|
        invariant m.TasksSound()
        invariant m.existing == m.Monitored() == old(m.existing) - Elements(created[..k])
      {
        assert created[k] in Elements(created) && created[k] !in Elements(created[..k]);
        assert created[k] in m.Monitored();
        m.Remove(created[k]);
        assert created[..k + 1] == created[..k] + [created[k]];
      }
      assert created[..|created|] == created;
    }

    method RestoreRemoved(m: Module)
      requires m.TasksSound() && m.existing == m.Monitored()
      requires Distinct(removed) && Elements(removed) !! m.existing
      modifies m`existing, m`tasks, m`live, m`nextTask
      ensures m.TasksSound() && m.existing == m.Monitored() == old(m.existing) + Elements(removed)
    {
      for k := 0 to |removed|
        invariant m.TasksSound()
        invariant m.existing == m.Monitored() == old(m.existing) + Elements(removed[..k])
      {
        assert removed[k] in Elements(removed) && removed[k] !in Elements(removed[..k]);
        m.Create(removed[k]);
        assert removed[..k + 1] == removed[..k] + [removed[k]];
      }
      assert removed[..|removed|] == removed;
    }
  }
}
