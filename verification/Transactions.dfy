/**
 The change/done/abort/timeout machine behind every Goldstone server. A "change" event validates and
 applies a list of configuration changes and then waits: "done" keeps them, "abort" or the expiry of a
 timer undoes them in reverse order. The class is the server with its fields; the functions below it are
 the step relation its method is proved against, and the lemmas speak about every run of events.
 */
module Transactions {
  import opened Results

  datatype ChangeType = Created | Modified | Deleted

  datatype Change<+V> = Change(xpath: seq<string>, kind: ChangeType, value: V)

  /** What a call that may raise comes to, with the device state it leaves. */
  datatype Hook<!S> = Passed(state: S) | Refused(state: S)

  /** A handler's `revert`, which may use what `apply` recorded. */
  type Undo<!S> = S -> Hook<S>

  /** Applying a handler: the new device state and its revert, or the state a raising `apply` leaves behind. */
  datatype ApplyResult<!S> = Applied(state: S, undo: Undo<S>) | Failed(state: S)

  /** A constructed and validated handler, ready to be applied. */
  type Handler<!S> = S -> ApplyResult<S>

  /** Construction, `_init` and `validate` against the store; None when one of them raises. */
  type HandlerClass<!S, !V> = (Change<V>, S) -> Option<Handler<S>>

  /** The dictionary of dictionaries that maps schema paths to handler classes. */
  datatype Tree<!S, !V> = Node(children: map<string, Tree<S, V>>) | Leaf(cls: HandlerClass<S, V>)

  /** The base class's handler: nothing to apply and nothing to revert. */
  function Idle<S>(): Handler<S> {
    (t: S) => Applied(t, IdleUndo<S>())
  }

  function IdleUndo<S>(): Undo<S> {
    (u: S) => Passed(u)
  }

  function NoOp<S, V>(): HandlerClass<S, V> {
    (c: Change<V>, s: S) => Some(Idle<S>())
  }

  /** The handler class for a path: the first class met on the way down, NoOp where the path ends first. */
  function Lookup<S, V>(tree: Tree<S, V>, path: seq<string>): Option<HandlerClass<S, V>> {
    if tree.Leaf? then Some(tree.cls)
    else if path == [] then Some(NoOp())
    else if path[0] !in tree.children then None
    else Lookup(tree.children[path[0]], path[1..])
  }

  method GetHandler<S, V>(tree: Tree<S, V>, path: seq<string>) returns (cls: Option<HandlerClass<S, V>>)
    requires tree.Node?
    ensures cls == Lookup(tree, path)
  {
    var cursor := tree;
    for i := 0 to |path|
      invariant cursor.Node? && Lookup(cursor, path[i..]) == Lookup(tree, path)
    {
      if path[i] !in cursor.children {
        return None;
      }
      var v := cursor.children[path[i]];
      assert path[i..][1..] == path[i + 1..];
      if v.Leaf? {
        return Some(v.cls);
      }
      cursor := v;
    }
    return Some(NoOp());
  }

  /** What a concrete server supplies: its handlers, and its `pre` and `post`. */
  datatype Config<!S, !V> = Config(tree: Tree<S, V>, pre: S -> Hook<S>, post: S -> Hook<S>)

  // ----- one transaction -----

  datatype Plan<!S> = Ready(handlers: seq<Handler<S>>) | Unsupported | Invalid

  /** All changes are looked up and validated, against the same store, before any is applied. */
  function Prepare<S, V>(cfg: Config<S, V>, changes: seq<Change<V>>, s: S): Plan<S> {
    if changes == [] then Ready([])
    else
      var n := |changes| - 1;
      var c := changes[n];
      match Prepare(cfg, changes[..n], s)
      case Unsupported => Unsupported
      case Invalid => Invalid
      case Ready(hs) =>
        match Lookup(cfg.tree, c.xpath)
        case None => if c.kind == Deleted then Ready(hs) else Unsupported
        case Some(cls) =>
          match cls(c, s)
          case None => Invalid
          case Some(h) => Ready(hs + [h])
  }

  /** Undo in reverse order, until one raises. */
  function RevertAll<S>(undos: seq<Undo<S>>, s: S): Hook<S> {
    if undos == [] then Passed(s)
    else
      match undos[|undos| - 1](s)
      case Refused(t) => Refused(t)
      case Passed(t) => RevertAll(undos[..|undos| - 1], t)
  }

  datatype Attempt<!S> = Done(state: S, undos: seq<Undo<S>>) | RolledBack(state: S)

  /** Apply in order; when one raises, undo those applied before it. */
  function ApplyAll<S>(hs: seq<Handler<S>>, s: S, undos: seq<Undo<S>>): Attempt<S> {
    if hs == [] then Done(s, undos)
    else
      match hs[0](s)
      case Applied(t, undo) => ApplyAll(hs[1..], t, undos + [undo])
      case Failed(t) => RolledBack(RevertAll(undos, t).state)
  }

  /** A whole "change" event from the store `s`: `pre`, validation, application, `post`. */
  datatype Beginning<!S> =
    | NotBegun(state: S)
    | Undone(state: S)
    | Lost(state: S)
    | Begun(state: S, undos: seq<Undo<S>>)

  function Begin<S, V>(cfg: Config<S, V>, changes: seq<Change<V>>, s: S): Beginning<S> {
    match cfg.pre(s)
    case Refused(s1) => NotBegun(s1)
    case Passed(s1) =>
      match Prepare(cfg, changes, s1)
      case Unsupported => NotBegun(s1)
      case Invalid => NotBegun(s1)
      case Ready(hs) =>
        match ApplyAll(hs, s1, [])
        case RolledBack(t) => Undone(t)
        case Done(t, undos) =>
          match cfg.post(t)
          case Passed(u) => Begun(u, undos)
          case Refused(u) => Lost(u)
  }

  // ----- the machine -----

  datatype Pending<!S> = Pending(reqId: int, undos: seq<Undo<S>>, task: nat)

  /**
   `timers` are the live revert tasks, each with the handlers it would revert; `broken` are those that ended
   with an exception.
   */
  datatype Sys<!S> = Sys(device: S, current: Option<Pending<S>>, timers: map<nat, seq<Undo<S>>>, broken: set<nat>,
                         nextTask: nat, stopped: bool)

  datatype Event<+V> =
    | ChangeEvent(reqId: int, changes: seq<Change<V>>)
    | DoneEvent(reqId: int)
    | AbortEvent(reqId: int)
    | OtherEvent
    | TimeoutEvent(task: nat)

  datatype Outcome =
    | Accepted          // applied, now waiting for done or abort
    | Busy              // raised: another transaction is waiting
    | Rejected          // raised by pre, by an unsupported path or by validation
    | ApplyRaised       // raised by an apply, after undoing
    | PostRaised        // raised by post, after applying
    | Committed
    | Aborted
    | TimedOut
    | NothingPending    // raised, and the server stops
    | WrongId           // raised, and the server stops
    | RevertRaised      // a revert raised, in an abort or in the revert task
    | TaskRaised        // waiting for the revert task raised what had ended it
    | Ignored

  function Step<S, V>(cfg: Config<S, V>, sys: Sys<S>, ev: Event<V>): (Sys<S>, Outcome) {
    match ev
    case OtherEvent => (sys, Ignored)
    case TimeoutEvent(task) =>
      if task !in sys.timers then (sys, Ignored)
      else
        var quiet := sys.(timers := sys.timers - {task});
        match RevertAll(sys.timers[task], sys.device) {
          case Passed(t) => (quiet.(device := t, current := None), TimedOut)
          case Refused(t) => (quiet.(device := t, broken := sys.broken + {task}), RevertRaised)
        }
    case DoneEvent(reqId) => Resolve(sys, reqId, false)
    case AbortEvent(reqId) => Resolve(sys, reqId, true)
    case ChangeEvent(reqId, changes) =>
      if sys.current.Some? then (sys, Busy)
      else
        match Begin(cfg, changes, sys.device)
        case NotBegun(t) => (sys.(device := t), Rejected)
        case Undone(t) => (sys.(device := t), ApplyRaised)
        case Lost(t) => (sys.(device := t), PostRaised)
        case Begun(t, undos) =>
          (sys.(device := t, current := Some(Pending(reqId, undos, sys.nextTask)),
                timers := sys.timers[sys.nextTask := undos], nextTask := sys.nextTask + 1), Accepted)
  }

  /** "done" and "abort": the timer is cancelled and awaited before the request id is compared. */
  function Resolve<S>(sys: Sys<S>, reqId: int, abort: bool): (Sys<S>, Outcome) {
    match sys.current
    case None => (sys.(stopped := true), NothingPending)
    case Some(p) =>
      var quiet := sys.(timers := sys.timers - {p.task});
      if p.task in sys.broken then (quiet, TaskRaised)
      else if p.reqId != reqId then (quiet.(stopped := true), WrongId)
      else if !abort then (quiet.(current := None), Committed)
      else
        match RevertAll(p.undos, sys.device)
        case Passed(t) => (quiet.(device := t, current := None), Aborted)
        case Refused(t) => (quiet.(device := t), RevertRaised)
  }

  class Server<S, V> {
    const cfg: Config<S, V>
    var device: S
    var current: Option<Pending<S>>
    var timers: map<nat, seq<Undo<S>>>
    var broken: set<nat>
    var nextTask: nat
    var stopped: bool

    constructor (cfg: Config<S, V>, device: S)
      requires cfg.tree.Node?
      ensures this.cfg == cfg && View() == Start(device)
    {
      this.cfg := cfg;
      this.device := device;
      current, timers, broken, nextTask, stopped := None, map[], {}, 0, false;
    }

    function View(): Sys<S>
      reads this
    {
      Sys(device, current, timers, broken, nextTask, stopped)
    }

    /** The loops that revert; false when a revert raises, which ends them. */
    method Revert(undos: seq<Undo<S>>) returns (ok: bool)
      modifies this`device
      ensures RevertAll(undos, old(device)) == if ok then Passed(device) else Refused(device)
    {
      var left := |undos|;
      assert undos[..left] == undos;
      while left > 0
        invariant 0 <= left <= |undos|
        invariant RevertAll(undos[..left], device) == RevertAll(undos, old(device))
      {
        assert undos[..left][..left - 1] == undos[..left - 1];
        left := left - 1;
        var after := undos[left](device);
        device := after.state;
        if after.Refused? {
          return false;
        }
      }
      return true;
    }

    /** The two loops over the changes and handlers of a "change" event. */
    method PrepareChanges(changes: seq<Change<V>>) returns (plan: Plan<S>)
      requires cfg.tree.Node?
      ensures plan == Prepare(cfg, changes, device)
    {
      var handlers: seq<Handler<S>> := [];
      for i := 0 to |changes|
        invariant Prepare(cfg, changes[..i], device) == Ready(handlers)
      {
        var c := changes[i];
        assert changes[..i + 1][..i] == changes[..i];
        var cls := GetHandler(cfg.tree, c.xpath);
        if cls.None? {
          if c.kind == Deleted {
            continue;
          }
          PrepareStuck(cfg, changes, device, i + 1);
          return Unsupported;
        }
        var h := cls.value(c, device);
        if h.None? {
          PrepareStuck(cfg, changes, device, i + 1);
          return Invalid;
        }
        handlers := handlers + [h.value];
      }
      assert changes[..|changes|] == changes;
      return Ready(handlers);
    }

    method ApplyHandlers(handlers: seq<Handler<S>>) returns (undos: Option<seq<Undo<S>>>)
      modifies this`device
      ensures match ApplyAll(handlers, old(device), [])
              case Done(t, us) => device == t && undos == Some(us)
              case RolledBack(t) => device == t && undos == None
    {
      var done: seq<Undo<S>> := [];
      for i := 0 to |handlers|
        invariant ApplyAll(handlers[i..], device, done) == ApplyAll(handlers, old(device), [])
      {
        assert handlers[i..][1..] == handlers[i + 1..];
        match handlers[i](device) {
          case Applied(t, undo) =>
            device := t;
            done := done + [undo];
          case Failed(t) =>
            device := t;
            var _ := Revert(done);
            return None;
        }
      }
      return Some(done);
    }

    /** `change_cb`, and the revert task's expiry. */
    method Handle(ev: Event<V>) returns (outcome: Outcome)
      requires cfg.tree.Node?
      modifies this
      ensures (View(), outcome) == Step(cfg, old(View()), ev)
    {
      match ev {
        case OtherEvent => return Ignored;
        case TimeoutEvent(task) =>
          if task !in timers {
            return Ignored;
          }
          var ok := Revert(timers[task]);
          timers := timers - {task};
          if !ok {
            broken := broken + {task};
            return RevertRaised;
          }
          current := None;
          return TimedOut;
        case DoneEvent(reqId) => outcome := Finish(reqId, false);
        case AbortEvent(reqId) => outcome := Finish(reqId, true);
        case ChangeEvent(reqId, changes) =>
          if current.Some? {
            return Busy;
          }
          var before := cfg.pre(device);
          device := before.state;
          if before.Refused? {
            return Rejected;
          }
          var plan := PrepareChanges(changes);
          if !plan.Ready? {
            return Rejected;
          }
          var undos := ApplyHandlers(plan.handlers);
          if undos.None? {
            return ApplyRaised;
          }
          var after := cfg.post(device);
          device := after.state;
          if after.Refused? {
            return PostRaised;
          }
          timers := timers[nextTask := undos.value];
          current := Some(Pending(reqId, undos.value, nextTask));
          nextTask := nextTask + 1;
          return Accepted;
      }
    }

    method Finish(reqId: int, abort: bool) returns (outcome: Outcome)
      modifies this
      ensures (View(), outcome) == Resolve(old(View()), reqId, abort)
    {
      if current.None? {
        stopped := true;
        return NothingPending;
      }
      var p := current.value;
      timers := timers - {p.task};
      if p.task in broken {
        return TaskRaised;
      }
      if p.reqId != reqId {
        stopped := true;
        return WrongId;
      }
      if abort {
        var ok := Revert(p.undos);
        if !ok {
          return RevertRaised;
        }
      }
      current := None;
      return if abort then Aborted else Committed;
    }
  }

  /** Once preparing raises it stays raised. */
  lemma {:induction false} PrepareStuck<S, V>(cfg: Config<S, V>, changes: seq<Change<V>>, s: S, n: nat)
    requires n <= |changes| && !Prepare(cfg, changes[..n], s).Ready?
    ensures Prepare(cfg, changes, s) == Prepare(cfg, changes[..n], s)
    decreases |changes|
  {
    if n == |changes| {
      assert changes[..n] == changes;
    } else {
      var front := changes[..|changes| - 1];
      assert front[..n] == changes[..n];
      PrepareStuck(cfg, front, s, n);
    }
  }

  /** One handler more at the end of a list. */
  lemma {:induction false} ApplyMore<S>(hs: seq<Handler<S>>, h: Handler<S>, m: S, undos: seq<Undo<S>>)
    ensures ApplyAll(hs + [h], m, undos)
            == match ApplyAll(hs, m, undos)
               case RolledBack(t) => RolledBack(t)
               case Done(t, us) =>
                 match h(t)
                 case Applied(u, undo) => Done(u, us + [undo])
                 case Failed(u) => RolledBack(RevertAll(us, u).state)
    decreases |hs|
  {
    var all := hs + [h];
    if hs == [] {
      assert all == [h] && all[1..] == [];
    } else {
      assert all[0] == hs[0] && all[1..] == hs[1..] + [h];
      match hs[0](m)
      case Applied(t, undo) => ApplyMore(hs[1..], h, t, undos + [undo]);
      case Failed(_) =>
    }
  }

  // ----- which changes are refused -----

  /** The node a path of names leads to, child by child. */
  function NodeAt<S, V>(tree: Tree<S, V>, path: seq<string>): Option<Tree<S, V>> {
    if path == [] then Some(tree)
    else if tree.Node? && path[0] in tree.children then NodeAt(tree.children[path[0]], path[1..])
    else None
  }

  /** After `k` names the path stands at an inner node without the next name. */
  ghost predicate LeavesAt<S, V>(tree: Tree<S, V>, path: seq<string>, k: int) {
    && 0 <= k < |path| && NodeAt(tree, path[..k]).Some?
    && var node := NodeAt(tree, path[..k]).value; node.Node? && path[k] !in node.children
  }

  ghost predicate LeavesTree<S, V>(tree: Tree<S, V>, path: seq<string>) {
    exists k :: LeavesAt(tree, path, k)
  }

  /** After `k` names the path stands at a leaf. */
  ghost predicate LeafAt<S, V>(tree: Tree<S, V>, path: seq<string>, k: int) {
    0 <= k <= |path| && NodeAt(tree, path[..k]).Some? && NodeAt(tree, path[..k]).value.Leaf?
  }

  /** The path ends at an inner node. */
  ghost predicate EndsInside<S, V>(tree: Tree<S, V>, path: seq<string>) {
    NodeAt(tree, path).Some? && NodeAt(tree, path).value.Node?
  }

  /** One name further down. */
  lemma Deeper<S, V>(tree: Tree<S, V>, path: seq<string>, k: nat)
    requires tree.Node? && path != [] && path[0] in tree.children && 0 < k <= |path|
    ensures NodeAt(tree, path[..k]) == NodeAt(tree.children[path[0]], path[1..][..k - 1])
  {
    assert path[..k][0] == path[0] && path[..k][1..] == path[1..][..k - 1];
  }

  /** A path leaves the tree, or meets a leaf, or ends inside: which of them says what is looked up. */
  lemma {:induction false} LookupExactly<S, V>(tree: Tree<S, V>, path: seq<string>)
    ensures Lookup(tree, path).None? <==> LeavesTree(tree, path)
    ensures forall k :: LeafAt(tree, path, k) ==> Lookup(tree, path) == Some(NodeAt(tree, path[..k]).value.cls)
    ensures EndsInside(tree, path) ==> Lookup(tree, path) == Some(NoOp())
    ensures LeavesTree(tree, path) || (exists k :: LeafAt(tree, path, k)) || EndsInside(tree, path)
    decreases |path|
  {
    assert path[..0] == [];
    if tree.Leaf? {
      assert LeafAt(tree, path, 0);
      forall k: nat | 0 < k <= |path| ensures NodeAt(tree, path[..k]) == None {
      }
    } else if path == [] {
      assert EndsInside(tree, path);
    } else if path[0] !in tree.children {
      assert LeavesAt(tree, path, 0);
      forall k: nat | 0 < k <= |path| ensures NodeAt(tree, path[..k]) == None {
        assert path[..k][0] == path[0];
      }
    } else {
      LookupBelow(tree, path);
    }
  }

  lemma {:induction false} LookupBelow<S, V>(tree: Tree<S, V>, path: seq<string>)
    requires tree.Node? && path != [] && path[0] in tree.children
    ensures Lookup(tree, path).None? <==> LeavesTree(tree, path)
    ensures forall k :: LeafAt(tree, path, k) ==> Lookup(tree, path) == Some(NodeAt(tree, path[..k]).value.cls)
    ensures EndsInside(tree, path) ==> Lookup(tree, path) == Some(NoOp())
    ensures LeavesTree(tree, path) || (exists k :: LeafAt(tree, path, k)) || EndsInside(tree, path)
    decreases |path|, 0
  {
    var child, rest := tree.children[path[0]], path[1..];
    assert path[..0] == [];
    LookupExactly(child, rest);
    forall k: nat | 0 < k <= |path| ensures NodeAt(tree, path[..k]) == NodeAt(child, rest[..k - 1]) {
      Deeper(tree, path, k);
    }
    forall k: nat | k < |rest| ensures rest[k] == path[k + 1] {
    }
    if k :| LeavesAt(tree, path, k) {
      assert k > 0 && LeavesAt(child, rest, k - 1);
    }
    if k :| LeavesAt(child, rest, k) {
      assert LeavesAt(tree, path, k + 1);
    }
    if k :| LeafAt(child, rest, k) {
      assert LeafAt(tree, path, k + 1);
    }
    forall k | LeafAt(tree, path, k) ensures k > 0 && LeafAt(child, rest, k - 1) {
    }
  }

  /** The change's path leaves the tree, and it is no deletion; or it meets a leaf whose class raises. */
  ghost predicate Refusable<S, V>(tree: Tree<S, V>, c: Change<V>, s: S) {
    || (c.kind != Deleted && LeavesTree(tree, c.xpath))
    || exists k :: LeafAt(tree, c.xpath, k) && NodeAt(tree, c.xpath[..k]).value.cls(c, s).None?
  }

  lemma RefusableExactly<S, V>(tree: Tree<S, V>, c: Change<V>, s: S)
    ensures Refusable(tree, c, s)
            <==> match Lookup(tree, c.xpath)
                 case None => c.kind != Deleted
                 case Some(cls) => cls(c, s).None?
  {
    LookupExactly(tree, c.xpath);
    if k :| LeafAt(tree, c.xpath, k) {
      assert Lookup(tree, c.xpath) == Some(NodeAt(tree, c.xpath[..k]).value.cls);
    }
  }

  /** Preparing fails exactly when some change is refusable. */
  lemma {:induction false} PreparedExactly<S, V>(cfg: Config<S, V>, changes: seq<Change<V>>, s: S)
    ensures Prepare(cfg, changes, s).Ready? <==> forall c :: c in changes ==> !Refusable(cfg.tree, c, s)
    decreases |changes|
  {
    if changes != [] {
      var front, c := changes[..|changes| - 1], changes[|changes| - 1];
      assert changes == front + [c];
      PreparedExactly(cfg, front, s);
      RefusableExactly(cfg.tree, c, s);
    }
  }

  /**
   With nothing pending a change event is rejected, before anything is applied, if and only if `pre` raises or
   one of its changes is refusable.
   */
  lemma RejectedExactly<S, V>(cfg: Config<S, V>, sys: Sys<S>, reqId: int, changes: seq<Change<V>>)
    requires sys.current.None?
    ensures var (sys', outcome) := Step(cfg, sys, ChangeEvent(reqId, changes));
            && (outcome == Rejected
                <==> || cfg.pre(sys.device).Refused?
                     || exists c :: c in changes && Refusable(cfg.tree, c, cfg.pre(sys.device).state))
            && (outcome == Rejected ==> sys' == sys.(device := cfg.pre(sys.device).state))
  {
    PreparedExactly(cfg, changes, cfg.pre(sys.device).state);
  }

  function Start<S>(device: S): Sys<S> {
    Sys(device, None, map[], {}, 0, false)
  }

  // ----- runs and their ledger -----

  datatype Resolution = Kept | Reverted | Expired | Stranded

  /** A transaction that was applied, and how it ended. */
  datatype Entry<+V> = Entry(reqId: int, changes: seq<Change<V>>, how: Resolution)

  /** An accepted transaction that waits for its "done" or "abort". */
  datatype Waiting<+V> = Waiting(reqId: int, changes: seq<Change<V>>)

  /** The applied transactions in order: those resolved, and the one waiting, if any. */
  datatype Ledger<+V> = Ledger(resolved: seq<Entry<V>>, waiting: Option<Waiting<V>>)

  function Close<V>(ledger: Ledger<V>, how: Resolution): Ledger<V> {
    match ledger.waiting
    case None => ledger
    case Some(w) => Ledger(ledger.resolved + [Entry(w.reqId, w.changes, how)], None)
  }

  function Record<V>(ledger: Ledger<V>, ev: Event<V>, outcome: Outcome): Ledger<V> {
    match outcome
    case Accepted => if ev.ChangeEvent? then ledger.(waiting := Some(Waiting(ev.reqId, ev.changes))) else ledger
    case PostRaised =>
      if ev.ChangeEvent? then ledger.(resolved := ledger.resolved + [Entry(ev.reqId, ev.changes, Stranded)]) else ledger
    case Committed => Close(ledger, Kept)
    case Aborted => Close(ledger, Reverted)
    case TimedOut => Close(ledger, Expired)
    case _ => ledger
  }

  /** The machine and its ledger after a list of events. */
  function Run<S, V>(cfg: Config<S, V>, device: S, evs: seq<Event<V>>): (Sys<S>, Ledger<V>) {
    if evs == [] then (Start(device), Ledger([], None))
    else
      var n := |evs| - 1;
      var (sys, ledger) := Run(cfg, device, evs[..n]);
      var (sys', outcome) := Step(cfg, sys, evs[n]);
      (sys', Record(ledger, evs[n], outcome))
  }

  // ----- timers and resolutions -----

  /** A live timer is the pending transaction's own, and has not ended. */
  ghost predicate TimersMatch<S>(sys: Sys<S>) {
    && (forall task :: task in sys.broken ==> task < sys.nextTask)
    && match sys.current
       case None => sys.timers == map[]
       case Some(p) =>
         && p.task < sys.nextTask
         && (sys.timers == map[] || (sys.timers == map[p.task := p.undos] && p.task !in sys.broken))
  }

  ghost predicate LedgerMatches<S, V>(sys: Sys<S>, ledger: Ledger<V>) {
    match sys.current
    case None => ledger.waiting == None
    case Some(p) => ledger.waiting.Some? && ledger.waiting.value.reqId == p.reqId
  }

  lemma TimersStep<S, V>(cfg: Config<S, V>, sys: Sys<S>, ev: Event<V>)
    requires TimersMatch(sys)
    ensures TimersMatch(Step(cfg, sys, ev).0)
  {
    if sys.current.Some? {
      var p := sys.current.value;
      assert sys.timers - {p.task} == map[];
    }
  }

  lemma LedgerStep<S, V>(cfg: Config<S, V>, sys: Sys<S>, ledger: Ledger<V>, ev: Event<V>)
    requires TimersMatch(sys) && LedgerMatches(sys, ledger)
    ensures var (sys', outcome) := Step(cfg, sys, ev);
            LedgerMatches(sys', Record(ledger, ev, outcome))
  {
  }

  lemma {:induction false} MatchesAlways<S, V>(cfg: Config<S, V>, device: S, evs: seq<Event<V>>)
    ensures var (sys, ledger) := Run(cfg, device, evs);
            TimersMatch(sys) && LedgerMatches(sys, ledger)
  {
    if evs != [] {
      var n := |evs| - 1;
      MatchesAlways(cfg, device, evs[..n]);
      var (sys, ledger) := Run(cfg, device, evs[..n]);
      TimersStep(cfg, sys, evs[n]);
      LedgerStep(cfg, sys, ledger, evs[n]);
    }
  }

  /**
   On every run: while the stop event is unset and no revert has raised, a transaction is pending exactly
   when exactly one timer is live, and it is that transaction's.
   */
  lemma {:induction false} TimersAlways<S, V>(cfg: Config<S, V>, device: S, evs: seq<Event<V>>)
    ensures var (sys, ledger) := Run(cfg, device, evs);
            && TimersMatch(sys) && LedgerMatches(sys, ledger)
            && (!sys.stopped && RevertRaised !in Outcomes(cfg, device, evs) ==>
                  (sys.current.Some? <==> |sys.timers| == 1))
  {
    MatchesAlways(cfg, device, evs);
    var (sys, _) := Run(cfg, device, evs);
    if !sys.stopped && RevertRaised !in Outcomes(cfg, device, evs) {
      Watched(cfg, device, evs);
    }
    if sys.current.Some? {
      assert map[sys.current.value.task := sys.current.value.undos].Keys == {sys.current.value.task};
    }
    assert |sys.timers| == |sys.timers.Keys|;
  }

  /** Nothing but a mismatched id or a raising revert takes its timer from a pending transaction. */
  lemma {:induction false} Watched<S, V>(cfg: Config<S, V>, device: S, evs: seq<Event<V>>)
    requires !Run(cfg, device, evs).0.stopped && RevertRaised !in Outcomes(cfg, device, evs)
    ensures var (sys, _) := Run(cfg, device, evs);
            sys.broken == {} && (sys.current.Some? ==> sys.timers != map[])
  {
    if evs != [] {
      var n := |evs| - 1;
      MatchesAlways(cfg, device, evs[..n]);
      var outs := Outcomes(cfg, device, evs);
      assert outs == Outcomes(cfg, device, evs[..n]) + [outs[n]] && outs[n] in outs;
      Watched(cfg, device, evs[..n]);
      WatchedStep(cfg, Run(cfg, device, evs[..n]).0, evs[n]);
    }
  }

  lemma WatchedStep<S, V>(cfg: Config<S, V>, sys: Sys<S>, ev: Event<V>)
    requires TimersMatch(sys) && sys.broken == {} && (sys.current.Some? ==> sys.timers != map[])
    ensures var (sys', outcome) := Step(cfg, sys, ev);
            !sys'.stopped && outcome != RevertRaised ==>
              sys'.broken == {} && (sys'.current.Some? ==> sys'.timers != map[])
  {
    var sys' := Step(cfg, sys, ev).0;
    if sys.current.None? && sys'.current.Some? {
      assert sys.nextTask in sys'.timers;
    }
  }

  // ----- what became of the events -----

  /** The outcome of each event of a run. */
  function Outcomes<S, V>(cfg: Config<S, V>, device: S, evs: seq<Event<V>>): (outs: seq<Outcome>)
    ensures |outs| == |evs|
  {
    if evs == [] then []
    else
      var n := |evs| - 1;
      Outcomes(cfg, device, evs[..n]) + [Step(cfg, Run(cfg, device, evs[..n]).0, evs[n]).1]
  }

  function Count(outs: seq<Outcome>, kinds: set<Outcome>): nat {
    if outs == [] then 0
    else Count(outs[..|outs| - 1], kinds) + if outs[|outs| - 1] in kinds then 1 else 0
  }

  const ACCEPTED := {Accepted}
  const RESOLVED := {Committed, Aborted, TimedOut}

  function PendingIn<S>(sys: Sys<S>): nat {
    if sys.current.Some? then 1 else 0
  }

  /** One event adds to the pending transactions what it accepts and takes away what it resolves. */
  lemma StepBalance<S, V>(cfg: Config<S, V>, sys: Sys<S>, ev: Event<V>)
    requires TimersMatch(sys)
    ensures var (sys', outcome) := Step(cfg, sys, ev);
            PendingIn(sys') + (if outcome in RESOLVED then 1 else 0)
            == PendingIn(sys) + (if outcome in ACCEPTED then 1 else 0)
  {
  }

  /** On every run the accepted changes are those committed, aborted or timed out, and the pending one. */
  lemma {:induction false} AcceptedBalance<S, V>(cfg: Config<S, V>, device: S, evs: seq<Event<V>>)
    ensures Count(Outcomes(cfg, device, evs), ACCEPTED)
            == Count(Outcomes(cfg, device, evs), RESOLVED) + PendingIn(Run(cfg, device, evs).0)
  {
    if evs != [] {
      var n := |evs| - 1;
      AcceptedBalance(cfg, device, evs[..n]);
      MatchesAlways(cfg, device, evs[..n]);
      var before, outs := Outcomes(cfg, device, evs[..n]), Outcomes(cfg, device, evs);
      var sys := Run(cfg, device, evs[..n]).0;
      assert outs[..n] == before && outs[n] == Step(cfg, sys, evs[n]).1;
      StepBalance(cfg, sys, evs[n]);
    }
  }

  lemma OutcomesGrow<S, V>(cfg: Config<S, V>, device: S, evs: seq<Event<V>>)
    requires evs != []
    ensures var n := |evs| - 1;
            && Outcomes(cfg, device, evs)[..n] == Outcomes(cfg, device, evs[..n])
            && Outcomes(cfg, device, evs)[n] == Step(cfg, Run(cfg, device, evs[..n]).0, evs[n]).1
  {
  }

  lemma {:induction false} OutcomesCut<S, V>(cfg: Config<S, V>, device: S, evs: seq<Event<V>>, n: nat)
    requires n <= |evs|
    ensures Outcomes(cfg, device, evs)[..n] == Outcomes(cfg, device, evs[..n])
    decreases |evs|
  {
    if n == |evs| {
      assert evs[..n] == evs;
    } else {
      var front := evs[..|evs| - 1];
      OutcomesGrow(cfg, device, evs);
      OutcomesCut(cfg, device, front, n);
      assert front[..n] == evs[..n];
      CutTwice(Outcomes(cfg, device, evs), Outcomes(cfg, device, front), n);
    }
  }

  lemma CutTwice(outs: seq<Outcome>, front: seq<Outcome>, n: nat)
    requires n <= |front| <= |outs| && outs[..|front|] == front
    ensures outs[..n] == front[..n]
  {
  }

  lemma OutcomesPrefix<S, V>(cfg: Config<S, V>, device: S, evs: seq<Event<V>>, n: nat)
    requires n <= |evs|
    ensures Outcomes(cfg, device, evs)[..n] == Outcomes(cfg, device, evs[..n])
    ensures n < |evs| ==>
              Outcomes(cfg, device, evs)[n] == Step(cfg, Run(cfg, device, evs[..n]).0, evs[n]).1
  {
    OutcomesCut(cfg, device, evs, n);
    if n < |evs| {
      OutcomesCut(cfg, device, evs, n + 1);
      OutcomesGrow(cfg, device, evs[..n + 1]);
      assert evs[..n + 1][..n] == evs[..n];
    }
  }

  lemma {:induction false} CountBetween(outs: seq<Outcome>, kinds: set<Outcome>, i: nat, j: nat)
    requires i <= j <= |outs|
    ensures Count(outs[..i], kinds) <= Count(outs[..j], kinds)
    ensures (forall k :: i <= k < j ==> outs[k] !in kinds) ==> Count(outs[..i], kinds) == Count(outs[..j], kinds)
    decreases j
  {
    if i < j {
      CountBetween(outs, kinds, i, j - 1);
      assert outs[..j][..j - 1] == outs[..j - 1];
    }
  }

  /** How many transactions are pending after the first `n` events: one or none. */
  ghost function PendingCount<S, V>(cfg: Config<S, V>, device: S, evs: seq<Event<V>>, n: nat): nat
    requires n <= |evs|
  {
    PendingIn(Run(cfg, device, evs[..n]).0)
  }

  /** The balance at each point of a run. */
  lemma BalanceAt<S, V>(cfg: Config<S, V>, device: S, evs: seq<Event<V>>, n: nat)
    requires n <= |evs|
    ensures var outs := Outcomes(cfg, device, evs);
            Count(outs[..n], ACCEPTED) == Count(outs[..n], RESOLVED) + PendingCount(cfg, device, evs, n)
  {
    OutcomesPrefix(cfg, device, evs, n);
    AcceptedBalance(cfg, device, evs[..n]);
  }

  /** An acceptance makes a transaction pending, a resolution ends it. */
  lemma PendingAround<S, V>(cfg: Config<S, V>, device: S, evs: seq<Event<V>>, n: nat)
    requires n < |evs|
    ensures var out := Outcomes(cfg, device, evs)[n];
            && (out in ACCEPTED ==> PendingCount(cfg, device, evs, n) == 0 && PendingCount(cfg, device, evs, n + 1) == 1)
            && (out in RESOLVED ==> PendingCount(cfg, device, evs, n) == 1 && PendingCount(cfg, device, evs, n + 1) == 0)
  {
    RunGrows(cfg, device, evs, n);
    OutcomesPrefix(cfg, device, evs, n);
    MatchesAlways(cfg, device, evs[..n]);
    StepPending(cfg, Run(cfg, device, evs[..n]).0, evs[n]);
  }

  lemma RunGrows<S, V>(cfg: Config<S, V>, device: S, evs: seq<Event<V>>, n: nat)
    requires n < |evs|
    ensures Run(cfg, device, evs[..n + 1]).0 == Step(cfg, Run(cfg, device, evs[..n]).0, evs[n]).0
  {
    assert evs[..n + 1][..n] == evs[..n];
  }

  lemma StepPending<S, V>(cfg: Config<S, V>, sys: Sys<S>, ev: Event<V>)
    requires TimersMatch(sys)
    ensures var (sys', outcome) := Step(cfg, sys, ev);
            && (outcome in ACCEPTED ==> sys.current.None? && sys'.current.Some?)
            && (outcome in RESOLVED ==> sys.current.Some? && sys'.current.None?)
  {
  }

  /**
   An accepted change is resolved at most once, and before the next one is accepted: on every run two
   resolutions have an acceptance between them, and two acceptances a resolution.
   */
  lemma ResolvedOnce<S, V>(cfg: Config<S, V>, device: S, evs: seq<Event<V>>, i: nat, j: nat)
    requires i < j < |evs|
    ensures var outs := Outcomes(cfg, device, evs);
            && (outs[i] in RESOLVED && outs[j] in RESOLVED ==> exists k :: i < k < j && outs[k] in ACCEPTED)
            && (outs[i] in ACCEPTED && outs[j] in ACCEPTED ==> exists k :: i < k < j && outs[k] in RESOLVED)
  {
    var outs := Outcomes(cfg, device, evs);
    PendingAround(cfg, device, evs, i);
    PendingAround(cfg, device, evs, j);
    BalanceAt(cfg, device, evs, i + 1);
    BalanceAt(cfg, device, evs, j);
    CountBetween(outs, ACCEPTED, i + 1, j);
    CountBetween(outs, RESOLVED, i + 1, j);
  }

  lemma HarmlessStep<S, V>(cfg: Config<S, V>, sys: Sys<S>, ev: Event<V>)
    requires TimersMatch(sys)
    ensures var (sys', outcome) := Step(cfg, sys, ev);
            && (sys.current.None? && !ev.ChangeEvent? ==> sys'.device == sys.device && outcome !in RESOLVED)
            && (sys.current.Some? && ev.ChangeEvent? ==> sys' == sys && outcome == Busy)
            && (sys.current.Some? && (ev.DoneEvent? || ev.AbortEvent?) && ev.reqId != sys.current.value.reqId ==>
                  sys'.device == sys.device && sys'.current == sys.current && outcome in {WrongId, TaskRaised})
            && (ev.DoneEvent? ==> sys'.device == sys.device)
  {
  }

  /**
   After any run, told from its outcomes: with every accepted change resolved, a late "done", "abort" or
   timer does nothing to the device; with one unresolved, a second change does nothing, nor does a "done"
   or an "abort" with another id. A "done" never touches the device.
   */
  lemma HarmlessEvents<S, V>(cfg: Config<S, V>, device: S, evs: seq<Event<V>>, ev: Event<V>)
    ensures var outs, (sys, ledger) := Outcomes(cfg, device, evs), Run(cfg, device, evs);
            var accepted, resolved := Count(outs, ACCEPTED), Count(outs, RESOLVED);
            var (sys', outcome) := Step(cfg, sys, ev);
            && resolved <= accepted <= resolved + 1
            && (accepted == resolved && !ev.ChangeEvent? ==> sys'.device == sys.device && outcome !in RESOLVED)
            && (accepted > resolved && ev.ChangeEvent? ==> sys' == sys && outcome == Busy)
            && (accepted > resolved && (ev.DoneEvent? || ev.AbortEvent?) ==>
                  && ledger.waiting.Some?
                  && (ev.reqId != ledger.waiting.value.reqId ==>
                        sys'.device == sys.device && sys'.current == sys.current && outcome in {WrongId, TaskRaised}))
            && (ev.DoneEvent? ==> sys'.device == sys.device)
  {
    AcceptedBalance(cfg, device, evs);
    MatchesAlways(cfg, device, evs);
    HarmlessStep(cfg, Run(cfg, device, evs).0, ev);
  }

  /** An event that ends in one of the two outcomes after which the server stops. */
  const STOPPING := {NothingPending, WrongId}

  lemma StoppedStep<S, V>(cfg: Config<S, V>, sys: Sys<S>, ev: Event<V>)
    ensures var (sys', outcome) := Step(cfg, sys, ev);
            sys'.stopped <==> sys.stopped || outcome in STOPPING
  {
  }

  /** On every run the stop event is set exactly when a "done" or "abort" came unexpected, or with another id. */
  lemma {:induction false} StoppedExactly<S, V>(cfg: Config<S, V>, device: S, evs: seq<Event<V>>)
    ensures Run(cfg, device, evs).0.stopped <==> exists o :: o in STOPPING && o in Outcomes(cfg, device, evs)
  {
    if evs != [] {
      var n := |evs| - 1;
      StoppedExactly(cfg, device, evs[..n]);
      OutcomesGrow(cfg, device, evs);
      StoppedStep(cfg, Run(cfg, device, evs[..n]).0, evs[n]);
      var before, outs := Outcomes(cfg, device, evs[..n]), Outcomes(cfg, device, evs);
      assert outs == before + [outs[n]] && outs[n] in outs;
      if o :| o in STOPPING && o in before {
        assert o in outs;
      }
    }
  }

  /** The revert task of the pending transaction ended with an exception. */
  predicate TaskBroken<S>(sys: Sys<S>) {
    sys.current.Some? && sys.current.value.task in sys.broken
  }

  /**
   After any run, how each event is answered, told from the outcomes so far and the pending transaction: what
   is committed, undone, refused as busy, unexpected or mismatched, and whether its timer is still live.
   */
  lemma AnsweredExactly<S, V>(cfg: Config<S, V>, device: S, evs: seq<Event<V>>, ev: Event<V>)
    ensures var outs, (sys, ledger) := Outcomes(cfg, device, evs), Run(cfg, device, evs);
            var pending := Count(outs, ACCEPTED) > Count(outs, RESOLVED);
            var (sys', outcome) := Step(cfg, sys, ev);
            var ends := ev.DoneEvent? || ev.AbortEvent?;
            && (pending <==> ledger.waiting.Some?)
            && (outcome == Busy <==> ev.ChangeEvent? && pending)
            && (outcome == NothingPending <==> ends && !pending)
            && (outcome == TaskRaised <==> ends && TaskBroken(sys))
            && (outcome == WrongId
                <==> ends && pending && !TaskBroken(sys) && ev.reqId != ledger.waiting.value.reqId)
            && (outcome == Committed
                <==> ev.DoneEvent? && pending && !TaskBroken(sys) && ev.reqId == ledger.waiting.value.reqId)
            && (outcome in {Aborted, RevertRaised} && !ev.TimeoutEvent?
                <==> ev.AbortEvent? && pending && !TaskBroken(sys) && ev.reqId == ledger.waiting.value.reqId)
            && (outcome in {TimedOut, RevertRaised} && ev.TimeoutEvent? <==> ev.TimeoutEvent? && ev.task in sys.timers)
            && (outcome == Ignored <==> ev.OtherEvent? || (ev.TimeoutEvent? && ev.task !in sys.timers))
            && (ends ==> sys'.timers == map[])
  {
    AcceptedBalance(cfg, device, evs);
    MatchesAlways(cfg, device, evs);
    AnsweredStep(cfg, Run(cfg, device, evs).0, ev);
  }

  lemma AnsweredStep<S, V>(cfg: Config<S, V>, sys: Sys<S>, ev: Event<V>)
    requires TimersMatch(sys)
    ensures var (sys', outcome) := Step(cfg, sys, ev);
            var ends, pending := ev.DoneEvent? || ev.AbortEvent?, sys.current.Some?;
            && (outcome == Busy <==> ev.ChangeEvent? && pending)
            && (outcome == NothingPending <==> ends && !pending)
            && (outcome == TaskRaised <==> ends && TaskBroken(sys))
            && (outcome == WrongId <==> ends && pending && !TaskBroken(sys) && ev.reqId != sys.current.value.reqId)
            && (outcome == Committed
                <==> ev.DoneEvent? && pending && !TaskBroken(sys) && ev.reqId == sys.current.value.reqId)
            && (outcome in {Aborted, RevertRaised} && !ev.TimeoutEvent?
                <==> ev.AbortEvent? && pending && !TaskBroken(sys) && ev.reqId == sys.current.value.reqId)
            && (outcome in {TimedOut, RevertRaised} && ev.TimeoutEvent? <==> ev.TimeoutEvent? && ev.task in sys.timers)
            && (outcome == Ignored <==> ev.OtherEvent? || (ev.TimeoutEvent? && ev.task !in sys.timers))
            && (ends ==> sys'.timers == map[])
  {
    if sys.current.Some? {
      TimerGone(sys);
    }
  }

  /** After any run, the events that can touch the device, and in what situation. */
  lemma DeviceTouched<S, V>(cfg: Config<S, V>, device: S, evs: seq<Event<V>>, ev: Event<V>)
    requires var (sys, _) := Run(cfg, device, evs); Step(cfg, sys, ev).0.device != sys.device
    ensures var (sys, ledger) := Run(cfg, device, evs);
            match ev
            case ChangeEvent(_, _) => ledger.waiting.None?
            case DoneEvent(_) => false
            case AbortEvent(reqId) => ledger.waiting.Some? && ledger.waiting.value.reqId == reqId
            case OtherEvent => false
            case TimeoutEvent(task) =>
              ledger.waiting.Some? && sys.current.Some? && sys.current.value.task == task && task in sys.timers
  {
    MatchesAlways(cfg, device, evs);
  }

  // ----- the device over a run -----

  /** Where one "change" event leads from `s` before anything is undone later. */
  function Effect<S, V>(cfg: Config<S, V>, changes: seq<Change<V>>, s: S): S {
    Begin(cfg, changes, s).state
  }

  function Replay<S, V>(cfg: Config<S, V>, txs: seq<seq<Change<V>>>, s: S): S {
    if txs == [] then s else Effect(cfg, txs[|txs| - 1], Replay(cfg, txs[..|txs| - 1], s))
  }

  /** The applied transactions that lasted: kept by "done", or left behind by a raising `post`. */
  function Lasting<V>(entries: seq<Entry<V>>): seq<seq<Change<V>>> {
    if entries == [] then []
    else
      var last, before := entries[|entries| - 1], Lasting(entries[..|entries| - 1]);
      if last.how.Kept? || last.how.Stranded? then before + [last.changes] else before
  }

  /** The store the lasting transactions lead to from `s`. */
  function Settled<S, V>(cfg: Config<S, V>, entries: seq<Entry<V>>, s: S): S {
    Replay(cfg, Lasting(entries), s)
  }

  /**
   What handlers and hooks owe the machine, from every good store: a change that is not begun, or whose
   apply raises, leaves the store as it was, and reverting what was applied gives it back.
   */
  ghost predicate UndoLaw<S(!new), V(!new)>(cfg: Config<S, V>, good: S -> bool) {
    forall s, changes :: good(s) ==> Undoes(cfg, good, s, changes)
  }

  ghost predicate Undoes<S, V>(cfg: Config<S, V>, good: S -> bool, s: S, changes: seq<Change<V>>) {
    match Begin(cfg, changes, s)
    case NotBegun(t) => t == s
    case Undone(t) => t == s
    case Lost(t) => good(t)
    case Begun(t, undos) => good(t) && RevertAll(undos, t) == Passed(s)
  }

  /** The device is the replay of what lasted, then of the pending transaction, whose undo leads back. */
  ghost predicate DeviceMatches<S, V>(cfg: Config<S, V>, good: S -> bool, device: S, sys: Sys<S>, ledger: Ledger<V>) {
    && LedgerMatches(sys, ledger) && TimersMatch(sys) && good(sys.device)
    && var settled := Settled(cfg, ledger.resolved, device);
       match sys.current
       case None => sys.device == settled
       case Some(p) =>
         && good(settled)
         && sys.device == Effect(cfg, ledger.waiting.value.changes, settled)
         && RevertAll(p.undos, sys.device) == Passed(settled)
  }

  lemma SettledMore<S, V>(cfg: Config<S, V>, entries: seq<Entry<V>>, e: Entry<V>, s: S)
    ensures Settled(cfg, entries + [e], s)
            == if e.how.Kept? || e.how.Stranded? then Effect(cfg, e.changes, Settled(cfg, entries, s))
               else Settled(cfg, entries, s)
  {
    assert (entries + [e])[..|entries|] == entries;
    var txs := Lasting(entries);
    assert (txs + [e.changes])[..|txs|] == txs;
  }

  lemma AppliedStep<S, V>(cfg: Config<S, V>, good: S -> bool, device: S, sys: Sys<S>, ledger: Ledger<V>, ev: Event<V>)
    requires DeviceMatches(cfg, good, device, sys, ledger) && ev.ChangeEvent? && sys.current.None?
    requires Undoes(cfg, good, sys.device, ev.changes)
    ensures var (sys', outcome) := Step(cfg, sys, ev);
            DeviceMatches(cfg, good, device, sys', Record(ledger, ev, outcome))
  {
    if Begin(cfg, ev.changes, sys.device).Lost? {
      SettledMore(cfg, ledger.resolved, Entry(ev.reqId, ev.changes, Stranded), device);
    }
  }

  /** Closing the waiting transaction: the device keeps it, or is back where it was. */
  lemma ClosedMatches<S, V>(cfg: Config<S, V>, good: S -> bool, device: S, sys: Sys<S>, ledger: Ledger<V>,
                            how: Resolution, after: Sys<S>)
    requires DeviceMatches(cfg, good, device, sys, ledger) && sys.current.Some? && !how.Stranded?
    requires after.current.None? && TimersMatch(after)
    requires if how.Kept? then after.device == sys.device
             else RevertAll(sys.current.value.undos, sys.device) == Passed(after.device)
    ensures DeviceMatches(cfg, good, device, after, Close(ledger, how))
  {
    var w := ledger.waiting.value;
    SettledMore(cfg, ledger.resolved, Entry(w.reqId, w.changes, how), device);
  }

  lemma TimerGone<S>(sys: Sys<S>)
    requires TimersMatch(sys) && sys.current.Some?
    ensures var p := sys.current.value;
            sys.timers - {p.task} == map[] && (forall t :: t in sys.timers ==> t == p.task && sys.timers[t] == p.undos)
  {
  }

  lemma ResolvedStep<S, V>(cfg: Config<S, V>, good: S -> bool, device: S, sys: Sys<S>, ledger: Ledger<V>, ev: Event<V>)
    requires DeviceMatches(cfg, good, device, sys, ledger) && !ev.ChangeEvent? && sys.current.Some?
    ensures var (sys', outcome) := Step(cfg, sys, ev);
            DeviceMatches(cfg, good, device, sys', Record(ledger, ev, outcome))
  {
    var (after, outcome) := Step(cfg, sys, ev);
    TimerGone(sys);
    match outcome
    case Committed => ClosedMatches(cfg, good, device, sys, ledger, Kept, after);
    case Aborted => ClosedMatches(cfg, good, device, sys, ledger, Reverted, after);
    case TimedOut => ClosedMatches(cfg, good, device, sys, ledger, Expired, after);
    case _ => SameMatches(cfg, good, device, sys, ledger, after);
  }

  lemma SameMatches<S, V>(cfg: Config<S, V>, good: S -> bool, device: S, sys: Sys<S>, ledger: Ledger<V>, after: Sys<S>)
    requires DeviceMatches(cfg, good, device, sys, ledger) && TimersMatch(after)
    requires after.device == sys.device && after.current == sys.current
    ensures DeviceMatches(cfg, good, device, after, ledger)
  {
  }

  lemma DeviceStep<S(!new), V(!new)>(cfg: Config<S, V>, good: S -> bool, device: S, sys: Sys<S>,
                                     ledger: Ledger<V>, ev: Event<V>)
    requires UndoLaw(cfg, good) && DeviceMatches(cfg, good, device, sys, ledger)
    ensures var (sys', outcome) := Step(cfg, sys, ev);
            DeviceMatches(cfg, good, device, sys', Record(ledger, ev, outcome))
  {
    if ev.ChangeEvent? && sys.current.None? {
      assert Undoes(cfg, good, sys.device, ev.changes);
      AppliedStep(cfg, good, device, sys, ledger, ev);
    } else if !ev.ChangeEvent? && sys.current.Some? {
      ResolvedStep(cfg, good, device, sys, ledger, ev);
    }
  }

  /**
   Over every run of events, from a good store and with handlers that keep the undo law: the device is
   the in-order replay of exactly the transactions that lasted, followed by the pending one if there is
   one; an abort or a timeout of the pending one would lead back to that replay.
   */
  lemma {:induction false} DeviceAlways<S(!new), V(!new)>(cfg: Config<S, V>, good: S -> bool, device: S,
                                                         evs: seq<Event<V>>)
    requires UndoLaw(cfg, good) && good(device)
    ensures var (sys, ledger) := Run(cfg, device, evs);
            DeviceMatches(cfg, good, device, sys, ledger)
  {
    if evs != [] {
      var n := |evs| - 1;
      DeviceAlways(cfg, good, device, evs[..n]);
      var (sys, ledger) := Run(cfg, device, evs[..n]);
      DeviceStep(cfg, good, device, sys, ledger, evs[n]);
    }
  }

  // ----- when a revert raises -----

  /** What an event does while a transaction is pending: the device is as it was, or reverted as far as that went. */
  lemma PendingStep<S, V>(cfg: Config<S, V>, sys: Sys<S>, ev: Event<V>)
    requires TimersMatch(sys) && sys.current.Some? && !ev.ChangeEvent?
    ensures var (sys', outcome) := Step(cfg, sys, ev);
            && (sys'.device == sys.device || sys'.device == RevertAll(sys.current.value.undos, sys.device).state)
            && (if outcome in RESOLVED then sys'.current.None? else sys'.current == sys.current)
  {
  }

  /** A transaction is pending and nothing will time it out. */
  ghost predicate Unwatched<S>(sys: Sys<S>) {
    sys.current.Some? && sys.timers == map[]
  }

  /** An event that can still end it: its "done" or "abort", unless its revert task ended with an exception. */
  predicate Ends<S, V>(sys: Sys<S>, ev: Event<V>) {
    && sys.current.Some? && sys.current.value.task !in sys.broken
    && (ev.DoneEvent? || ev.AbortEvent?) && ev.reqId == sys.current.value.reqId
  }

  lemma UnwatchedStep<S, V>(cfg: Config<S, V>, sys: Sys<S>, ev: Event<V>)
    requires Unwatched(sys)
    ensures var (sys', outcome) := Step(cfg, sys, ev);
            && (ev.ChangeEvent? ==> outcome == Busy)
            && (!Ends(sys, ev) ==>
                  && Unwatched(sys') && sys'.current == sys.current && sys'.device == sys.device
                  && sys'.broken == sys.broken && outcome in {Busy, Ignored, WrongId, TaskRaised})
  {
  }

  /** The transaction of `before` is still pending, and nothing has changed that it could. */
  ghost predicate StillPending<S>(before: Sys<S>, after: Sys<S>) {
    && Unwatched(after) && after.current == before.current && after.device == before.device
    && after.broken == before.broken
  }

  /**
   After any run that ends with a raising revert, its transaction stays pending without a timer: whatever
   events follow, as long as none of them is its "done" or "abort", nothing changes and every change is
   Busy. When it was the revert task that raised, not even those end it.
   */
  lemma {:induction false} RevertRaisedStays<S, V>(cfg: Config<S, V>, device: S, evs: seq<Event<V>>, more: seq<Event<V>>)
    requires evs != [] && Outcomes(cfg, device, evs)[|evs| - 1] == RevertRaised
    requires var sys := Run(cfg, device, evs).0; forall ev :: ev in more ==> !Ends(sys, ev)
    ensures var sys, sys' := Run(cfg, device, evs).0, Run(cfg, device, evs + more).0;
            && StillPending(sys, sys')
            && (forall ev: Event<V> :: ev.ChangeEvent? ==> Step(cfg, sys', ev) == (sys', Busy))
            && (evs[|evs| - 1].TimeoutEvent? ==> forall ev: Event<V> :: !Ends(sys', ev))
    decreases |more|
  {
    RevertRaisedOnce(cfg, device, evs);
    if more == [] {
      assert evs + more == evs;
    } else {
      var front, last := more[..|more| - 1], more[|more| - 1];
      assert last in more && evs + front + [last] == evs + more;
      RevertRaisedStays(cfg, device, evs, front);
      RunMore(cfg, device, evs + front, last);
      UnwatchedStep(cfg, Run(cfg, device, evs + front).0, last);
    }
  }

  lemma RevertRaisedOnce<S, V>(cfg: Config<S, V>, device: S, evs: seq<Event<V>>)
    requires evs != [] && Outcomes(cfg, device, evs)[|evs| - 1] == RevertRaised
    ensures var sys := Run(cfg, device, evs).0;
            Unwatched(sys) && (evs[|evs| - 1].TimeoutEvent? ==> sys.current.value.task in sys.broken)
  {
    var n := |evs| - 1;
    OutcomesPrefix(cfg, device, evs, n);
    MatchesAlways(cfg, device, evs[..n]);
    RevertRaisedStep(cfg, Run(cfg, device, evs[..n]).0, evs[n]);
  }

  lemma RunMore<S, V>(cfg: Config<S, V>, device: S, evs: seq<Event<V>>, ev: Event<V>)
    ensures Run(cfg, device, evs + [ev]).0 == Step(cfg, Run(cfg, device, evs).0, ev).0
  {
    assert (evs + [ev])[..|evs|] == evs;
  }

  lemma RevertRaisedStep<S, V>(cfg: Config<S, V>, sys: Sys<S>, ev: Event<V>)
    requires TimersMatch(sys) && Step(cfg, sys, ev).1 == RevertRaised
    ensures Unwatched(Step(cfg, sys, ev).0)
    ensures ev.TimeoutEvent? ==> Step(cfg, sys, ev).0.current.value.task in Step(cfg, sys, ev).0.broken
  {
  }

  /** With reverts that never raise there is no such run. */
  lemma {:induction false} RevertsSucceed<S(!new), V(!new)>(cfg: Config<S, V>, good: S -> bool, device: S,
                                                          evs: seq<Event<V>>)
    requires UndoLaw(cfg, good) && good(device)
    ensures RevertRaised !in Outcomes(cfg, device, evs)
  {
    if evs != [] {
      var n := |evs| - 1;
      RevertsSucceed(cfg, good, device, evs[..n]);
      DeviceAlways(cfg, good, device, evs[..n]);
    }
  }

  // ----- when post raises -----

  /** The changes are applied, and then `post` raises. */
  ghost predicate PostRaises<S, V>(cfg: Config<S, V>, changes: seq<Change<V>>, s: S) {
    && cfg.pre(s).Passed?
    && var s1 := cfg.pre(s).state;
       && Prepare(cfg, changes, s1).Ready?
       && var attempt := ApplyAll(Prepare(cfg, changes, s1).handlers, s1, []);
          attempt.Done? && cfg.post(attempt.state).Refused?
  }

  /** What was applied by then. */
  function AppliedState<S, V>(cfg: Config<S, V>, changes: seq<Change<V>>, s: S): S
    requires Prepare(cfg, changes, s).Ready?
  {
    ApplyAll(Prepare(cfg, changes, s).handlers, s, []).state
  }

  /**
   Hooks that leave the device alone do so when `post` raises. Then, after a change event on an idle server,
   the device is as it was or the transaction is pending, with one exception: `post` raises after a change
   was applied. Nobody will revert that.
   */
  lemma ChangeEventExactly<S(!new), V(!new)>(cfg: Config<S, V>, good: S -> bool, sys: Sys<S>, reqId: int,
                                             changes: seq<Change<V>>)
    requires TimersMatch(sys) && sys.current.None? && Undoes(cfg, good, sys.device, changes) && QuietHooks(cfg)
    ensures var (sys', outcome) := Step(cfg, sys, ChangeEvent(reqId, changes));
            && (outcome == PostRaised <==> PostRaises(cfg, changes, sys.device))
            && (sys'.current.Some? || sys'.device == sys.device
                <==> !(PostRaises(cfg, changes, sys.device) && AppliedState(cfg, changes, sys.device) != sys.device))
  {
    assert cfg.pre(sys.device).state == sys.device;
    if PostRaises(cfg, changes, sys.device) {
      assert cfg.post(AppliedState(cfg, changes, sys.device)).state == AppliedState(cfg, changes, sys.device);
    }
  }

  // For instance: a handler that adds one to a number, and a `post` that always raises.

  function Decrement(): Undo<int> {
    (t: int) => Passed(t - 1)
  }

  function Increment(): Handler<int> {
    (s: int) => Applied(s + 1, Decrement())
  }

  function Counter(): Config<int, int> {
    Config(Leaf((c: Change<int>, s: int) => Some(Increment())), s => Passed(s), s => Refused(s))
  }

  lemma StrandedForInstance()
    ensures var (sys, outcome) := Step(Counter(), Start(0), ChangeEvent(1, [Change([], Modified, 0)]));
            outcome == PostRaised && sys.device == 1 && sys.current == None
  {
    var changes := [Change([], Modified, 0)];
    assert changes[..0] == [];
    assert [] + [Increment()] == [Increment()];
    assert Prepare(Counter(), changes, 0) == Ready([Increment()]);
    assert [Increment()][1..] == [] && Increment()(0) == Applied(1, Decrement());
    assert ApplyAll([Increment()], 0, []) == ApplyAll([], 1, [] + [Decrement()]);
    assert Counter().pre(0) == Passed(0) && Counter().post(1) == Refused(1);
    assert Begin(Counter(), changes, 0) == Lost(1);
  }

  lemma {:induction false} NoneStranded<S(!new), V>(cfg: Config<S, V>, device: S, evs: seq<Event<V>>)
    requires forall s :: cfg.post(s).Passed?
    ensures forall e :: e in Run(cfg, device, evs).1.resolved ==> !e.how.Stranded?
  {
    if evs != [] {
      NoneStranded(cfg, device, evs[..|evs| - 1]);
    }
  }

  /** The transactions that "done" kept. */
  function KeptChanges<V>(entries: seq<Entry<V>>): seq<seq<Change<V>>> {
    if entries == [] then []
    else
      var last, before := entries[|entries| - 1], KeptChanges(entries[..|entries| - 1]);
      if last.how.Kept? then before + [last.changes] else before
  }

  lemma {:induction false} LastingIsCommitted<V>(entries: seq<Entry<V>>)
    requires forall e :: e in entries ==> !e.how.Stranded?
    ensures Lasting(entries) == KeptChanges(entries)
  {
    if entries != [] {
      assert entries[|entries| - 1] in entries;
      LastingIsCommitted(entries[..|entries| - 1]);
    }
  }

  /** With a `post` that succeeds the device is the replay of exactly the committed transactions and the pending one. */
  lemma CommittedOnly<S(!new), V(!new)>(cfg: Config<S, V>, good: S -> bool, device: S, evs: seq<Event<V>>)
    requires UndoLaw(cfg, good) && good(device) && forall s :: cfg.post(s).Passed?
    ensures var (sys, ledger) := Run(cfg, device, evs);
            var settled := Replay(cfg, KeptChanges(ledger.resolved), device);
            match sys.current
            case None => ledger.waiting == None && sys.device == settled
            case Some(p) => && ledger.waiting.Some? && sys.device == Effect(cfg, ledger.waiting.value.changes, settled)
                            && RevertAll(p.undos, sys.device) == Passed(settled)
  {
    DeviceAlways(cfg, good, device, evs);
    NoneStranded(cfg, device, evs);
    LastingIsCommitted(Run(cfg, device, evs).1.resolved);
  }

  // ----- handlers that undo themselves -----

  /** The handler's own revert undoes its own apply, and when its apply raises nothing has changed. */
  ghost predicate OwnUndo<S>(h: Handler<S>, good: S -> bool, s: S) {
    match h(s)
    case Applied(t, undo) => good(t) && undo(t) == Passed(s)
    case Failed(t) => t == s
  }

  ghost predicate LawfulHandler<S(!new)>(h: Handler<S>, good: S -> bool) {
    forall s :: good(s) ==> OwnUndo(h, good, s)
  }

  ghost predicate LawfulClass<S(!new), V(!new)>(cls: HandlerClass<S, V>, good: S -> bool) {
    forall c, s :: good(s) && cls(c, s).Some? ==> LawfulHandler(cls(c, s).value, good)
  }

  ghost predicate LawfulTree<S(!new), V(!new)>(tree: Tree<S, V>, good: S -> bool) {
    match tree
    case Leaf(cls) => LawfulClass(cls, good)
    case Node(children) => forall k :: k in children ==> LawfulTree(children[k], good)
  }

  lemma {:induction false} OwnUndosCompose<S(!new)>(hs: seq<Handler<S>>, good: S -> bool, s0: S, s: S, undos: seq<Undo<S>>)
    requires forall i :: 0 <= i < |hs| ==> LawfulHandler(hs[i], good)
    requires good(s) && RevertAll(undos, s) == Passed(s0)
    ensures match ApplyAll(hs, s, undos)
            case RolledBack(t) => t == s0
            case Done(t, us) => good(t) && RevertAll(us, t) == Passed(s0)
    decreases |hs|
  {
    if hs != [] {
      assert LawfulHandler(hs[0], good) && OwnUndo(hs[0], good, s);
      match hs[0](s)
      case Applied(t, undo) =>
        assert (undos + [undo])[..|undos|] == undos;
        OwnUndosCompose(hs[1..], good, s0, t, undos + [undo]);
      case Failed(_) =>
    }
  }

  lemma IdleLawful<S(!new)>(good: S -> bool)
    ensures LawfulHandler(Idle<S>(), good)
  {
    forall s | good(s) ensures OwnUndo(Idle<S>(), good, s) {
    }
  }

  lemma {:induction false} LawfulLookup<S(!new), V(!new)>(tree: Tree<S, V>, path: seq<string>, good: S -> bool)
    requires LawfulTree(tree, good)
    ensures Lookup(tree, path).Some? ==> LawfulClass(Lookup(tree, path).value, good)
    decreases |path|
  {
    IdleLawful(good);
    if tree.Node? && path != [] && path[0] in tree.children {
      LawfulLookup(tree.children[path[0]], path[1..], good);
    }
  }

  lemma {:induction false} LawfulPrepare<S(!new), V(!new)>(
      cfg: Config<S, V>, changes: seq<Change<V>>, s: S, good: S -> bool)
    requires LawfulTree(cfg.tree, good) && good(s) && Prepare(cfg, changes, s).Ready?
    ensures forall h :: h in Prepare(cfg, changes, s).handlers ==> LawfulHandler(h, good)
    decreases |changes|
  {
    if changes != [] {
      var n := |changes| - 1;
      LawfulPrepare(cfg, changes[..n], s, good);
      LawfulLookup(cfg.tree, changes[n].xpath, good);
    }
  }

  /** Hooks that leave the store alone, whether they raise or not. */
  ghost predicate QuietHooks<S(!new), V>(cfg: Config<S, V>) {
    forall s :: cfg.pre(s).state == s && cfg.post(s).state == s
  }

  /** A server whose handlers all undo themselves keeps the undo law, however long its transactions. */
  lemma LawfulTreeKeepsLaw<S(!new), V(!new)>(cfg: Config<S, V>, good: S -> bool)
    requires LawfulTree(cfg.tree, good) && QuietHooks(cfg)
    ensures UndoLaw(cfg, good)
  {
    forall s, changes | good(s) ensures Undoes(cfg, good, s, changes) {
      assert cfg.pre(s).state == s;
      if Prepare(cfg, changes, s).Ready? {
        LawfulPrepare(cfg, changes, s, good);
        OwnUndosCompose(Prepare(cfg, changes, s).handlers, good, s, s, []);
      }
    }
  }
}
