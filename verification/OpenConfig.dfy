/**
 The OpenConfig interface translator's change handlers. A handler validated against the store remembers
 the value it will overwrite and whether the interface itself will be created; reverting puts the value
 back, or deletes what the handler created, which for a created interface is the whole interface, along
 with whatever a sibling handler put there. Single reverts are therefore not inverses; a whole list of
 them, run backwards, is.

 Handlers write to a session that the server opens before a transaction, commits and stops after it. What
 is reverted after that goes to the stopped session, and the running datastore keeps the transaction.
 */
module OpenConfig {
  import opened Results
  import opened Transactions

  const NAME := "config/name"
  const ADMIN_STATUS := "config/admin-status"
  const FEC := "ethernet/config/fec"

  /** An interface's leaves by relative path. */
  type Interface = map<string, string>

  /** The running datastore's interfaces by name. */
  type Store = map<string, Interface>

  function GetLeaf(s: Store, ifname: string, leaf: string): Option<string> {
    if ifname in s && leaf in s[ifname] then Some(s[ifname][leaf]) else None
  }

  /** Setting a leaf creates its interface. */
  function SetLeaf(s: Store, ifname: string, leaf: string, value: string): Store {
    s[ifname := (if ifname in s then s[ifname] else map[])[leaf := value]]
  }

  /** Deleting an absent node changes nothing. */
  function DeleteLeaf(s: Store, ifname: string, leaf: string): Store {
    if ifname in s then s[ifname := s[ifname] - {leaf}] else s
  }

  function DeleteInterface(s: Store, ifname: string): Store {
    s - {ifname}
  }

  /** An edit a session collects. */
  datatype Edit =
    | PutLeaf(ifname: string, leaf: string, value: string)
    | DropLeaf(ifname: string, leaf: string)
    | DropInterface(ifname: string)

  function ApplyEdit(s: Store, e: Edit): Store {
    match e
    case PutLeaf(ifname, leaf, value) => SetLeaf(s, ifname, leaf, value)
    case DropLeaf(ifname, leaf) => DeleteLeaf(s, ifname, leaf)
    case DropInterface(ifname) => DeleteInterface(s, ifname)
  }

  function Edited(s: Store, edits: seq<Edit>): Store {
    if edits == [] then s else ApplyEdit(Edited(s, edits[..|edits| - 1]), edits[|edits| - 1])
  }

  lemma {:induction false} EditedInTurn(s: Store, a: seq<Edit>, b: seq<Edit>)
    ensures Edited(s, a + b) == Edited(Edited(s, a), b)
    decreases |b|
  {
    if b == [] {
      assert a + b == a;
    } else {
      assert (a + b)[..|a + b| - 1] == a + b[..|b| - 1];
      EditedInTurn(s, a, b[..|b| - 1]);
    }
  }

  /** Interfaces carry their name leaf, and the leaves the handlers manage hold non-empty values. */
  ghost predicate Good(s: Store) {
    forall n :: n in s ==> GoodInterface(n, s[n])
  }

  ghost predicate GoodInterface(n: string, i: Interface) {
    && NAME in i && i[NAME] == n
    && (ADMIN_STATUS in i ==> i[ADMIN_STATUS] != "")
    && (FEC in i ==> i[FEC] != "")
  }

  // ----- translation -----

  datatype Kind = Enabled | FecMode

  /** A change's interface and its service value: one of the two is meaningful for each kind. */
  datatype OcValue = OcValue(ifname: string, enabled: bool, fecMode: string)

  function AdminStatus(enabled: bool): string {
    if enabled then "UP" else "DOWN"
  }

  /** `str.replace(sub, "")`. */
  function RemoveAll(s: string, sub: string): string
    requires sub != ""
  {
    if s == "" then ""
    else if sub <= s then RemoveAll(s[|sub|..], sub)
    else [s[0]] + RemoveAll(s[1..], sub)
  }

  /** It leaves a text alone that does not hold the piece. */
  lemma {:induction false} RemoveNothing(s: string, sub: string)
    requires sub != "" && forall i :: 0 <= i < |s| ==> !(sub <= s[i..])
    ensures RemoveAll(s, sub) == s
  {
    if s != "" {
      assert s[0..] == s;
      forall i | 0 <= i < |s[1..]| ensures !(sub <= s[1..][i..]) {
        assert s[1..][i..] == s[i + 1..];
      }
      RemoveNothing(s[1..], sub);
      assert s == [s[0]] + s[1..];
    }
  }

  /** It takes out the first piece, and goes on behind it. */
  lemma {:induction false} RemoveFirst(a: string, sub: string, b: string)
    requires sub != "" && forall i :: 0 <= i < |a| ==> !(sub <= (a + sub + b)[i..])
    ensures RemoveAll(a + sub + b, sub) == a + RemoveAll(b, sub)
  {
    var s := a + sub + b;
    if a == "" {
      assert s == sub + b && s[|sub|..] == b;
      assert "" + RemoveAll(b, sub) == RemoveAll(b, sub);
    } else {
      assert s[0..] == s && s[1..] == a[1..] + sub + b && s[0] == a[0];
      forall i | 0 <= i < |a[1..]| ensures !(sub <= (a[1..] + sub + b)[i..]) {
        assert (a[1..] + sub + b)[i..] == s[i + 1..];
      }
      RemoveFirst(a[1..], sub, b);
    }
  }

  function FecValue(mode: string): Option<string> {
    var m := RemoveAll(mode, "openconfig-if-ethernet:");
    if m == "FEC_FC" then Some("FC")
    else if m == "FEC_RS528" || m == "FEC_RS544" || m == "FEC_RS544_2X_INTERLEAVE" then Some("RS")
    else if m == "FEC_DISABLED" then Some("NONE")
    else None
  }

  function Translate(kind: Kind, v: OcValue): (r: Option<string>)
    ensures r.Some? ==> r.value != ""
  {
    match kind
    case Enabled => Some(AdminStatus(v.enabled))
    case FecMode => FecValue(v.fecMode)
  }

  function LeafOf(kind: Kind): string {
    match kind
    case Enabled => ADMIN_STATUS
    case FecMode => FEC
  }

  // ----- validated handlers as values -----

  /** What a handler knows after `validate`; Bystander is a handler class that does nothing. */
  datatype Item =
    | Bystander
    | Item(ifname: string, leaf: string, writes: bool, value: string, original: Option<string>, ifCreated: bool)
  {
    /** The truth value of `original_value`: neither None nor the empty string. */
    predicate HasOriginal() {
      Item? && original.Some? && original.value != ""
    }

    /** Applying or reverting may change the leaf. */
    predicate Touches() {
      Item? && (writes || HasOriginal())
    }

    function SetItem(s: Store, v: string): Store
      requires Item?
    {
      SetLeaf(SetLeaf(s, ifname, NAME, ifname), ifname, leaf, v)
    }

    function DeleteItem(s: Store): Store
      requires Item?
    {
      if ifCreated then DeleteInterface(s, ifname) else DeleteLeaf(s, ifname, leaf)
    }

    function Apply(s: Store): Store {
      if Bystander? then s
      else if writes then SetItem(s, value)
      else if HasOriginal() then DeleteItem(s)
      else s
    }

    function Revert(s: Store): Store {
      if Bystander? then s
      else if HasOriginal() then SetItem(s, original.value)
      else if writes then DeleteItem(s)
      else s
    }

    function SetEdits(v: string): seq<Edit>
      requires Item?
    {
      [PutLeaf(ifname, NAME, ifname), PutLeaf(ifname, leaf, v)]
    }

    function DeleteEdits(): seq<Edit>
      requires Item?
    {
      [if ifCreated then DropInterface(ifname) else DropLeaf(ifname, leaf)]
    }

    /** What `apply` and `revert` ask of the session. */
    function ApplyEdits(): seq<Edit> {
      if Bystander? then []
      else if writes then SetEdits(value)
      else if HasOriginal() then DeleteEdits()
      else []
    }

    function RevertEdits(): seq<Edit> {
      if Bystander? then []
      else if HasOriginal() then SetEdits(original.value)
      else if writes then DeleteEdits()
      else []
    }

    /** The handler could have come out of `validate` against `s`. */
    ghost predicate ValidatedAt(s: Store) {
      Item? ==>
        && (leaf == ADMIN_STATUS || leaf == FEC)
        && original == GetLeaf(s, ifname, leaf)
        && ifCreated == (writes && ifname !in s)
        && (writes ==> value != "")
    }
  }

  function Validated(kind: Kind, c: Change<OcValue>, s: Store): Option<Item> {
    var ifname, leaf, writes := c.value.ifname, LeafOf(kind), c.kind != Deleted;
    var original := GetLeaf(s, ifname, leaf);
    if !writes then Some(Item(ifname, leaf, false, "", original, false))
    else
      match Translate(kind, c.value)
      case None => None
      case Some(value) => Some(Item(ifname, leaf, true, value, original, ifname !in s))
  }

  lemma ValidateIsValidated(kind: Kind, c: Change<OcValue>, s: Store)
    ensures var r := Validated(kind, c, s);
            && (r.None? <==> c.kind != Deleted && Translate(kind, c.value).None?)
            && (r.Some? ==> r.value.ValidatedAt(s))
  {
  }

  // ----- undoing a list -----

  function ApplyList(items: seq<Item>, s: Store): Store {
    if items == [] then s else items[|items| - 1].Apply(ApplyList(items[..|items| - 1], s))
  }

  function RevertList(items: seq<Item>, s: Store): Store {
    if items == [] then s else RevertList(items[..|items| - 1], items[|items| - 1].Revert(s))
  }

  /** The leaves a list may have changed. */
  function Dirty(items: seq<Item>): set<(string, string)> {
    set i | i in items && i.Touches() :: (i.ifname, i.leaf)
  }

  /** The interfaces a list may have created. */
  function New(items: seq<Item>): set<string> {
    set i | i in items && i.Item? && i.ifCreated :: i.ifname
  }

  /** `s` differs from `s0` only in dirty leaves of its interfaces and in new interfaces. */
  ghost predicate Near(s0: Store, s: Store, dirty: set<(string, string)>, created: set<string>) {
    && (forall n :: n in s0 ==> n in s && forall l :: (n, l) !in dirty ==> GetLeaf(s, n, l) == GetLeaf(s0, n, l))
    && (forall n :: n in s ==> n in s0 || n in created)
  }

  lemma NearNothing(s0: Store, s: Store)
    requires Near(s0, s, {}, {})
    ensures s == s0
  {
    forall n | n in s0 ensures n in s && s[n] == s0[n] {
      forall l ensures (l in s[n] <==> l in s0[n]) && (l in s[n] ==> s[n][l] == s0[n][l]) {
        assert GetLeaf(s, n, l) == GetLeaf(s0, n, l);
      }
      assert s[n].Keys == s0[n].Keys;
    }
    assert s.Keys == s0.Keys;
  }

  lemma ListMore(items: seq<Item>, i: Item)
    ensures Dirty(items + [i]) == Dirty(items) + (if i.Touches() then {(i.ifname, i.leaf)} else {})
    ensures New(items + [i]) == New(items) + (if i.Item? && i.ifCreated then {i.ifname} else {})
  {
    assert forall j :: j in items + [i] <==> j in items || j == i;
  }

  lemma LeafAfterSet(s: Store, i: Item, v: string, n: string, l: string)
    requires i.Item?
    ensures GetLeaf(i.SetItem(s, v), n, l)
            == if n == i.ifname && l == i.leaf then Some(v)
               else if n == i.ifname && l == NAME then Some(n)
               else GetLeaf(s, n, l)
  {
  }

  lemma ApplyNear(s0: Store, s: Store, items: seq<Item>, i: Item)
    requires Good(s0) && i.ValidatedAt(s0) && Near(s0, s, Dirty(items), New(items))
    ensures Near(s0, i.Apply(s), Dirty(items + [i]), New(items + [i]))
  {
    ListMore(items, i);
    if i.Item? {
      forall n, l | n in s0 && (n, l) !in Dirty(items + [i])
        ensures n in i.Apply(s) && GetLeaf(i.Apply(s), n, l) == GetLeaf(s0, n, l)
      {
        assert GetLeaf(s, n, l) == GetLeaf(s0, n, l);
        assert GoodInterface(n, s0[n]);
        LeafAfterSet(s, i, i.value, n, l);
      }
    }
  }

  /** Undoing the last handler's part leaves a store that only the earlier handlers have touched. */
  lemma RevertNear(s0: Store, s: Store, items: seq<Item>, i: Item)
    requires Good(s0) && i.ValidatedAt(s0) && Near(s0, s, Dirty(items + [i]), New(items + [i]))
    ensures Near(s0, i.Revert(s), Dirty(items), New(items))
  {
    ListMore(items, i);
    if i.Item? {
      forall n, l | n in s0 && (n, l) !in Dirty(items)
        ensures n in i.Revert(s) && GetLeaf(i.Revert(s), n, l) == GetLeaf(s0, n, l)
      {
        RevertLeaf(s0, s, items, i, n, l);
      }
    }
  }

  lemma RevertLeaf(s0: Store, s: Store, items: seq<Item>, i: Item, n: string, l: string)
    requires Good(s0) && i.Item? && i.ValidatedAt(s0) && Near(s0, s, Dirty(items + [i]), New(items + [i]))
    requires n in s0 && (n, l) !in Dirty(items)
    ensures n in i.Revert(s) && GetLeaf(i.Revert(s), n, l) == GetLeaf(s0, n, l)
  {
    ListMore(items, i);
    assert GoodInterface(n, s0[n]);
    if (n, l) == (i.ifname, i.leaf) {
      if i.HasOriginal() {
        LeafAfterSet(s, i, i.original.value, n, l);
      }
    } else {
      assert GetLeaf(s, n, l) == GetLeaf(s0, n, l);
      if i.HasOriginal() {
        LeafAfterSet(s, i, i.original.value, n, l);
      }
    }
  }

  lemma {:induction false} ListNear(s0: Store, items: seq<Item>)
    requires Good(s0) && forall i :: i in items ==> i.ValidatedAt(s0)
    ensures Near(s0, ApplyList(items, s0), Dirty(items), New(items))
  {
    if items != [] {
      var front, last := items[..|items| - 1], items[|items| - 1];
      assert items == front + [last];
      ListNear(s0, front);
      ApplyNear(s0, ApplyList(front, s0), front, last);
    }
  }

  lemma {:induction false} RevertListRestores(s0: Store, s: Store, items: seq<Item>)
    requires Good(s0) && (forall i :: i in items ==> i.ValidatedAt(s0)) && Near(s0, s, Dirty(items), New(items))
    ensures RevertList(items, s) == s0
  {
    if items == [] {
      NearNothing(s0, s);
    } else {
      var front, last := items[..|items| - 1], items[|items| - 1];
      assert items == front + [last];
      RevertNear(s0, s, front, last);
      RevertListRestores(s0, last.Revert(s), front);
    }
  }

  /**
   Handlers all validated against one store: applying any list of them and reverting it backwards gives
   the store back exactly. A prefix of a list is such a list.
   */
  lemma ListUndo(s0: Store, items: seq<Item>)
    requires Good(s0) && forall i :: i in items ==> i.ValidatedAt(s0)
    ensures RevertList(items, ApplyList(items, s0)) == s0
  {
    ListNear(s0, items);
    RevertListRestores(s0, ApplyList(items, s0), items);
  }

  /**
   One handler alone is undone by its own revert exactly when it touches nothing, or its siblings have
   neither created its interface nor written its leaf since validation.
   */
  lemma OwnUndoExact(s0: Store, s: Store, i: Item)
    requires Good(s0) && Good(s) && i.ValidatedAt(s0)
    ensures i.Revert(i.Apply(s)) == s
            <==> (i.Touches() ==>
                    (i.ifname in s <==> i.ifname in s0) && GetLeaf(s, i.ifname, i.leaf) == i.original)
  {
    if i.Touches() {
      RevertedLeaf(s0, s, i);
      if (i.ifname in s <==> i.ifname in s0) && GetLeaf(s, i.ifname, i.leaf) == i.original {
        UntouchedRestored(s0, s, i);
      }
    }
  }

  lemma UntouchedRestored(s0: Store, s: Store, i: Item)
    requires Good(s) && i.ValidatedAt(s0) && i.Touches()
    requires (i.ifname in s <==> i.ifname in s0) && GetLeaf(s, i.ifname, i.leaf) == i.original
    ensures i.Revert(i.Apply(s)) == s
  {
    if i.ifname in s {
      assert GoodInterface(i.ifname, s[i.ifname]);
      assert i.Revert(i.Apply(s))[i.ifname] == s[i.ifname];
    } else {
      assert i.Apply(s) - {i.ifname} == s;
    }
  }

  /** Where a handler's own revert leaves its interface and its leaf: as they were at validation. */
  lemma RevertedLeaf(s0: Store, s: Store, i: Item)
    requires Good(s0) && i.ValidatedAt(s0) && i.Touches()
    ensures var t := i.Revert(i.Apply(s));
            (i.ifname in t <==> i.ifname in s0) && GetLeaf(t, i.ifname, i.leaf) == i.original
  {
    if i.ifname in s0 {
      assert GoodInterface(i.ifname, s0[i.ifname]);
    }
  }

  lemma {:induction false} ApplyListGood(s0: Store, items: seq<Item>)
    requires Good(s0) && forall i :: i in items ==> i.ValidatedAt(s0)
    ensures Good(ApplyList(items, s0))
  {
    if items != [] {
      var front, last := items[..|items| - 1], items[|items| - 1];
      ApplyListGood(s0, front);
      assert last in items;
      ApplyGood(s0, ApplyList(front, s0), last);
    }
  }

  lemma ApplyGood(s0: Store, s: Store, i: Item)
    requires Good(s) && i.ValidatedAt(s0)
    ensures Good(i.Apply(s))
  {
    if i.Item? {
      var t := i.Apply(s);
      forall n | n in t ensures GoodInterface(n, t[n]) {
        if n in s {
          assert GoodInterface(n, s[n]);
        }
      }
    }
  }


  // ----- what a list of handlers comes to, leaf by leaf -----

  /** A leaf after a list of handlers validated against `s0`: the last handler that touches it decides. */
  function ItemsAsk(items: seq<Item>, s0: Store, n: string, l: string): Option<string> {
    if items == [] then GetLeaf(s0, n, l)
    else
      var i, before := items[|items| - 1], ItemsAsk(items[..|items| - 1], s0, n, l);
      if i.Item? && i.ifname == n && i.leaf == l && i.Touches() then (if i.writes then Some(i.value) else None)
      else before
  }

  predicate Managed(l: string) {
    l == ADMIN_STATUS || l == FEC
  }

  lemma {:induction false} LeafAfterList(s0: Store, items: seq<Item>, n: string, l: string)
    requires (forall i :: i in items ==> i.ValidatedAt(s0)) && Managed(l)
    ensures GetLeaf(ApplyList(items, s0), n, l) == ItemsAsk(items, s0, n, l)
  {
    if items != [] {
      var front, i := items[..|items| - 1], items[|items| - 1];
      assert i in items;
      LeafAfterList(s0, front, n, l);
      if i.Item? {
        LeafAfterSet(ApplyList(front, s0), i, i.value, n, l);
      }
    }
  }

  /** An interface that a list creates has a managed leaf afterwards. */
  lemma {:induction false} CreatedHasLeaf(s0: Store, items: seq<Item>, n: string)
    requires (forall i :: i in items ==> i.ValidatedAt(s0)) && n in ApplyList(items, s0) && n !in s0
    ensures exists l :: Managed(l) && GetLeaf(ApplyList(items, s0), n, l).Some?
  {
    if items != [] {
      var front, i := items[..|items| - 1], items[|items| - 1];
      assert i in items;
      var before, after := ApplyList(front, s0), ApplyList(items, s0);
      if n in before {
        CreatedHasLeaf(s0, front, n);
        var l :| Managed(l) && GetLeaf(before, n, l).Some?;
        assert GetLeaf(after, n, l).Some?;
      } else {
        assert Managed(i.leaf) && GetLeaf(after, n, i.leaf).Some?;
      }
    }
  }

  /** A list of handlers leaves the store as it is exactly when each managed leaf ends with its old value. */
  lemma ListIdleExactly(s0: Store, items: seq<Item>)
    requires Good(s0) && forall i :: i in items ==> i.ValidatedAt(s0)
    ensures ApplyList(items, s0) == s0 <==> forall n, l :: Managed(l) ==> ItemsAsk(items, s0, n, l) == GetLeaf(s0, n, l)
  {
    var s := ApplyList(items, s0);
    forall n, l | Managed(l) ensures GetLeaf(s, n, l) == ItemsAsk(items, s0, n, l) {
      LeafAfterList(s0, items, n, l);
    }
    if forall n, l :: Managed(l) ==> ItemsAsk(items, s0, n, l) == GetLeaf(s0, n, l) {
      ListNear(s0, items);
      forall n | n in s && n !in s0 ensures false {
        CreatedHasLeaf(s0, items, n);
      }
      forall n, l | n in s0 ensures n in s && GetLeaf(s, n, l) == GetLeaf(s0, n, l) {
        if (n, l) in Dirty(items) {
          var i :| i in items && i.Touches() && (n, l) == (i.ifname, i.leaf);
          assert i.ValidatedAt(s0) && Managed(l);
        }
      }
      NearNothing(s0, s);
    }
  }

  // ----- the session -----

  /** The edits of a transaction's session, and whether it is still open. */
  datatype Draft = Draft(edits: seq<Edit>, open: bool)

  /** The running datastore and the session of the latest transaction. */
  datatype Desk = Desk(running: Store, draft: Draft) {
    /** What the session shows, and would commit. */
    function View(): Store {
      Edited(running, draft.edits)
    }

    function With(edits: seq<Edit>): Desk {
      Desk(running, Draft(draft.edits + edits, draft.open))
    }
  }

  /**
   Which edits the session takes, which new contents the datastore accepts for its old ones, and whether a
   stopped session still collects edits or raises.
   */
  datatype Backend = Backend(takes: Edit -> bool, accepts: (Store, Store) -> bool, lenient: bool) {
    predicate TakesAll(edits: seq<Edit>) {
      forall e :: e in edits ==> takes(e)
    }
  }

  /** Edits collected by the session, or an exception: a refused edit discards those it has. */
  function Collect(b: Backend, d: Desk, edits: seq<Edit>): Hook<Desk> {
    if edits == [] then Passed(d)
    else if !(d.draft.open || b.lenient) then Refused(d)
    else if b.TakesAll(edits) then Passed(d.With(edits))
    else Refused(d.(draft := Draft([], d.draft.open)))
  }

  /** `pre` opens a new session. */
  function Pre(): Desk -> Hook<Desk> {
    (d: Desk) => Passed(Desk(d.running, Draft([], true)))
  }

  /** `post` commits and stops it; when the commit fails the edits are discarded and it is left open. */
  function Post(b: Backend): Desk -> Hook<Desk> {
    (d: Desk) => if b.accepts(d.running, d.View()) then Passed(Desk(d.View(), Draft([], false)))
                 else Refused(Desk(d.running, Draft([], d.draft.open)))
  }

  function UndoOf(b: Backend, i: Item): Undo<Desk> {
    (d: Desk) => Collect(b, d, i.RevertEdits())
  }

  function ApplyIn(b: Backend, i: Item, d: Desk): ApplyResult<Desk> {
    match Collect(b, d, i.ApplyEdits())
    case Passed(t) => Applied(t, UndoOf(b, i))
    case Refused(t) => Failed(t)
  }

  class RunningDatastore {
    var store: Store

    constructor (store: Store)
      ensures this.store == store
    {
      this.store := store;
    }
  }

  class Session {
    const conn: RunningDatastore
    var edits: seq<Edit>
    var open: bool

    constructor (conn: RunningDatastore)
      ensures this.conn == conn && edits == [] && open
    {
      this.conn, edits, open := conn, [], true;
    }

    function Contents(): Desk
      reads this, conn
    {
      Desk(conn.store, Draft(edits, open))
    }

    /** Collects an edit, or raises; a refused edit discards all of them. */
    method Edit(b: Backend, e: Edit) returns (ok: bool)
      modifies this`edits
      ensures ok <==> (open || b.lenient) && b.takes(e)
      ensures edits == if ok then old(edits) + [e] else if open || b.lenient then [] else old(edits)
    {
      if !open && !b.lenient {
        return false;
      }
      ok := b.takes(e);
      edits := if ok then edits + [e] else [];
    }

    method ApplyChanges(b: Backend) returns (ok: bool)
      modifies this`edits, conn
      ensures ok <==> b.accepts(old(conn.store), old(Contents().View()))
      ensures conn.store == if ok then old(Contents().View()) else old(conn.store)
      ensures edits == []
    {
      ok := b.accepts(conn.store, Contents().View());
      if ok {
        conn.store := Contents().View();
      }
      edits := [];
    }

    method Stop()
      modifies this`open
      ensures !open
    {
      open := false;
    }
  }

  class OpenConfigServer {
    const conn: RunningDatastore
    var sess: Session

    constructor (conn: RunningDatastore)
      ensures this.conn == conn && sess.conn == conn && fresh(sess)
    {
      this.conn := conn;
      sess := new Session(conn);
    }

    method PreTransaction()
      requires sess.conn == conn
      modifies this
      ensures fresh(sess) && sess.conn == conn && Pre()(old(sess.Contents())) == Passed(sess.Contents())
    {
      sess := new Session(conn);
    }

    method PostTransaction(b: Backend) returns (ok: bool)
      modifies sess, sess.conn
      ensures match Post(b)(old(sess.Contents()))
              case Passed(d) => ok && sess.Contents() == d
              case Refused(d) => !ok && sess.Contents() == d
    {
      ok := sess.ApplyChanges(b);
      if ok {
        sess.Stop();
      }
    }
  }

  class OpenConfigChangeHandler {
    const kind: Kind
    const change: Change<OcValue>
    var value: Option<string>
    var originalValue: Option<string>
    var ifCreated: bool

    constructor (kind: Kind, change: Change<OcValue>)
      ensures this.kind == kind && this.change == change
    {
      this.kind, this.change := kind, change;
      value, originalValue, ifCreated := None, None, false;
    }

    function Ifname(): string {
      change.value.ifname
    }

    /** The handler's fields as the value the lemmas speak about. */
    function View(): Item
      reads this
    {
      Item.Item(Ifname(), LeafOf(kind), change.kind != Deleted, if value.Some? then value.value else "",
                originalValue, ifCreated)
    }

    method Validate(sess: Session) returns (ok: bool)
      modifies this
      ensures match Validated(kind, change, sess.Contents().View())
              case None => !ok
              case Some(item) => ok && View() == item && (change.kind != Deleted ==> value.Some?)
    {
      var store := sess.Contents().View();
      ifCreated := false;
      value := None;
      originalValue := GetLeaf(store, Ifname(), LeafOf(kind));
      if change.kind != Deleted {
        value := Translate(kind, change.value);
        if value.None? {
          return false;
        }
        if Ifname() !in store {
          ifCreated := true;
        }
      }
      return true;
    }

    method SetItem(b: Backend, sess: Session, v: string) returns (ok: bool)
      modifies sess`edits
      ensures Collect(b, old(sess.Contents()), View().SetEdits(v))
              == if ok then Passed(sess.Contents()) else Refused(sess.Contents())
    {
      ok := sess.Edit(b, PutLeaf(Ifname(), NAME, Ifname()));
      if ok {
        ok := sess.Edit(b, PutLeaf(Ifname(), LeafOf(kind), v));
      }
      ghost var edits := View().SetEdits(v);
      assert edits[0] in edits && edits[1] in edits;
      assert old(sess.edits) + [edits[0]] + [edits[1]] == old(sess.edits) + edits;
    }

    method DeleteItem(b: Backend, sess: Session) returns (ok: bool)
      modifies sess`edits
      ensures Collect(b, old(sess.Contents()), View().DeleteEdits())
              == if ok then Passed(sess.Contents()) else Refused(sess.Contents())
    {
      ok := sess.Edit(b, if ifCreated then DropInterface(Ifname()) else DropLeaf(Ifname(), LeafOf(kind)));
    }

    method Apply(b: Backend, sess: Session) returns (ok: bool)
      requires change.kind != Deleted ==> value.Some?
      modifies sess`edits
      ensures match ApplyIn(b, View(), old(sess.Contents()))
              case Applied(d, _) => ok && sess.Contents() == d
              case Failed(d) => !ok && sess.Contents() == d
    {
      ok := true;
      if change.kind != Deleted {
        ok := SetItem(b, sess, value.value);
      } else if originalValue.Some? && originalValue.value != "" {
        ok := DeleteItem(b, sess);
      }
    }

    /** Reverts into the session as it then is; false when that raises. */
    method Revert(b: Backend, sess: Session) returns (ok: bool)
      modifies sess`edits
      ensures UndoOf(b, View())(old(sess.Contents()))
              == if ok then Passed(sess.Contents()) else Refused(sess.Contents())
    {
      ok := true;
      if originalValue.Some? && originalValue.value != "" {
        ok := SetItem(b, sess, originalValue.value);
      } else if change.kind != Deleted {
        ok := DeleteItem(b, sess);
      }
    }
  }

  // ----- the translator as a transaction server -----

  function HandlerOf(b: Backend, i: Item): Handler<Desk> {
    if i.Bystander? then Idle<Desk>() else (d: Desk) => ApplyIn(b, i, d)
  }

  function ClassOf(b: Backend, kind: Kind): HandlerClass<Desk, OcValue> {
    (c: Change<OcValue>, d: Desk) =>
      match Validated(kind, c, d.View())
      case None => None
      case Some(i) => Some(HandlerOf(b, i))
  }

  function Handlers(b: Backend): Tree<Desk, OcValue> {
    var noop := Leaf(NoOp<Desk, OcValue>());
    Node(map["interfaces" := Node(map["interface" := Node(map[
      "name" := noop,
      "config" := Node(map["enabled" := Leaf(ClassOf(b, Enabled)), "name" := noop, "type" := noop,
                           "loopback-mode" := noop]),
      "hold-time" := noop,
      "ethernet" := Node(map["config" := Node(map[
        "fec-mode" := Leaf(ClassOf(b, FecMode)), "auto-negotiate" := noop, "standalone-link-training" := noop,
        "enable-flow-control" := noop])])])])])
  }

  function Translator(b: Backend): Config<Desk, OcValue> {
    Config(Handlers(b), Pre(), Post(b))
  }

  predicate At(path: seq<string>, k: nat, name: string) {
    k < |path| && path[k] == name
  }

  /** The kind of leaf a change is about, if it is one that the translator translates. */
  function KindAt(path: seq<string>): Option<Kind> {
    if !(At(path, 0, "interfaces") && At(path, 1, "interface")) then None
    else if At(path, 2, "config") && At(path, 3, "enabled") then Some(Enabled)
    else if At(path, 2, "ethernet") && At(path, 3, "config") && At(path, 4, "fec-mode") then Some(FecMode)
    else None
  }

  /** What the tree gives for a path: the kind's class, or none, or NoOp. */
  ghost predicate Gives(b: Backend, cls: Option<HandlerClass<Desk, OcValue>>, kind: Option<Kind>) {
    match kind
    case Some(k) => cls == Some(ClassOf(b, k))
    case None => cls == None || cls == Some(NoOp<Desk, OcValue>())
  }

  /** One step down the tree, from the k-th name of a path. */
  lemma Down(t: Tree<Desk, OcValue>, path: seq<string>, k: nat)
    requires t.Node? && k <= |path|
    ensures k == |path| ==> Lookup(t, path[k..]) == Some(NoOp())
    ensures k < |path| && path[k] !in t.children ==> Lookup(t, path[k..]) == None
    ensures k < |path| && path[k] in t.children ==>
              Lookup(t, path[k..]) == Lookup(t.children[path[k]], path[k + 1..])
  {
    if k < |path| {
      assert path[k..][0] == path[k] && path[k..][1..] == path[k + 1..];
    }
  }

  /** The handler tree sends each path to the handler of its leaf. */
  lemma HandlersGive(b: Backend, path: seq<string>)
    ensures Gives(b, Lookup(Handlers(b), path), KindAt(path))
  {
    var t0 := Handlers(b);
    assert path[0..] == path;
    Down(t0, path, 0);
    if At(path, 0, "interfaces") {
      var t1 := t0.children["interfaces"];
      Down(t1, path, 1);
      if At(path, 1, "interface") {
        InterfaceGives(b, t1.children["interface"], path);
      }
    }
  }

  lemma InterfaceGives(b: Backend, t: Tree<Desk, OcValue>, path: seq<string>)
    requires t == Handlers(b).children["interfaces"].children["interface"] && |path| >= 2
    requires path[0] == "interfaces" && path[1] == "interface"
    ensures Gives(b, Lookup(t, path[2..]), KindAt(path))
  {
    Down(t, path, 2);
    if At(path, 2, "config") {
      Down(t.children["config"], path, 3);
    } else if At(path, 2, "ethernet") {
      Down(t.children["ethernet"], path, 3);
      if At(path, 3, "config") {
        Down(t.children["ethernet"].children["config"], path, 4);
      }
    }
  }

  ghost predicate ComesFrom(b: Backend, h: Handler<Desk>, i: Item, s: Store) {
    h == HandlerOf(b, i) && i.ValidatedAt(s)
  }

  /** What a transaction asks of a leaf, read off its changes: the last one that asks for something decides. */
  function Asked(changes: seq<Change<OcValue>>, s: Store, n: string, l: string): Option<string> {
    if changes == [] then GetLeaf(s, n, l)
    else
      var c, before := changes[|changes| - 1], Asked(changes[..|changes| - 1], s, n, l);
      match KindAt(c.xpath)
      case None => before
      case Some(kind) =>
        if c.value.ifname != n || LeafOf(kind) != l then before
        else if c.kind != Deleted then Translate(kind, c.value)
        else if GetLeaf(s, n, l).Some? then None
        else before
  }

  /** The change sets or unsets a leaf. */
  predicate ChangeTouches(c: Change<OcValue>, s: Store) {
    && KindAt(c.xpath).Some?
    && (c.kind != Deleted || GetLeaf(s, c.value.ifname, LeafOf(KindAt(c.xpath).value)).Some?)
  }

  predicate TouchesAny(changes: seq<Change<OcValue>>, s: Store) {
    exists c :: c in changes && ChangeTouches(c, s)
  }

  predicate AnyTouches(items: seq<Item>) {
    exists i :: i in items && i.Touches()
  }

  lemma MoreTouches(changes: seq<Change<OcValue>>, c: Change<OcValue>, s: Store)
    ensures TouchesAny(changes + [c], s) <==> TouchesAny(changes, s) || ChangeTouches(c, s)
  {
    if x :| x in changes && ChangeTouches(x, s) {
      assert x in changes + [c];
    }
    assert c in changes + [c];
  }

  lemma MoreItems(items: seq<Item>, i: Item)
    ensures AnyTouches(items + [i]) <==> AnyTouches(items) || i.Touches()
  {
    if x :| x in items && x.Touches() {
      assert x in items + [i];
    }
    assert i in items + [i];
  }

  /** The items come from the changes in order, some changes having none. */
  ghost predicate Follow(items: seq<Item>, changes: seq<Change<OcValue>>, s: Store) {
    if changes == [] then items == []
    else
      var front, c := changes[..|changes| - 1], changes[|changes| - 1];
      || (KindAt(c.xpath).None? && Follow(items, front, s))
      || (items != [] && ItemOf(c, s, items[|items| - 1]) && Follow(items[..|items| - 1], front, s))
  }

  /** A prepared list of handlers is a list of items validated against the session's contents. */
  lemma {:induction false} PreparedItems(b: Backend, changes: seq<Change<OcValue>>, d: Desk) returns (items: seq<Item>)
    requires Prepare(Translator(b), changes, d).Ready?
    ensures var hs := Prepare(Translator(b), changes, d).handlers;
            |items| == |hs| && forall j :: 0 <= j < |hs| ==> ComesFrom(b, hs[j], items[j], d.View())
    ensures Follow(items, changes, d.View())
    decreases |changes|
  {
    items := [];
    if changes != [] {
      var k := |changes| - 1;
      var c := changes[k];
      var before := PreparedItems(b, changes[..k], d);
      HandlersGive(b, c.xpath);
      match Lookup(Handlers(b), c.xpath)
      case None => items := before;
      case Some(cls) =>
        var i := ItemFor(b, c, d);
        items := before + [i];
        assert items[..|before|] == before;
    }
  }

  /** What the items come to is what the changes ask for. */
  lemma {:induction false} FollowAsks(items: seq<Item>, changes: seq<Change<OcValue>>, s: Store, n: string, l: string)
    requires Good(s) && Follow(items, changes, s)
    ensures ItemsAsk(items, s, n, l) == Asked(changes, s, n, l)
    decreases |changes|
  {
    if changes != [] {
      var front, c := changes[..|changes| - 1], changes[|changes| - 1];
      if KindAt(c.xpath).None? && Follow(items, front, s) {
        FollowAsks(items, front, s, n, l);
      } else {
        FollowAsks(items[..|items| - 1], front, s, n, l);
        ItemAsks(c, s, items[|items| - 1], n, l);
      }
    }
  }

  ghost predicate SameTouches(items: seq<Item>, changes: seq<Change<OcValue>>, s: Store) {
    AnyTouches(items) <==> TouchesAny(changes, s)
  }

  lemma SkippedTouches(items: seq<Item>, changes: seq<Change<OcValue>>, c: Change<OcValue>, s: Store)
    requires KindAt(c.xpath).None? && SameTouches(items, changes, s)
    ensures SameTouches(items, changes + [c], s)
  {
    MoreTouches(changes, c, s);
  }

  lemma OneMoreTouches(items: seq<Item>, i: Item, changes: seq<Change<OcValue>>, c: Change<OcValue>, s: Store)
    requires Good(s) && ItemOf(c, s, i) && SameTouches(items, changes, s)
    ensures SameTouches(items + [i], changes + [c], s)
  {
    MoreTouches(changes, c, s);
    ItemTouches(c, s, i);
    MoreItems(items, i);
  }

  lemma {:induction false} FollowTouches(items: seq<Item>, changes: seq<Change<OcValue>>, s: Store)
    requires Good(s) && Follow(items, changes, s)
    ensures SameTouches(items, changes, s)
    decreases |changes|
  {
    if changes != [] {
      var front, c := changes[..|changes| - 1], changes[|changes| - 1];
      assert changes == front + [c];
      if KindAt(c.xpath).None? && Follow(items, front, s) {
        FollowTouches(items, front, s);
        SkippedTouches(items, front, c, s);
      } else {
        var before, i := items[..|items| - 1], items[|items| - 1];
        assert items == before + [i];
        FollowTouches(before, front, s);
        OneMoreTouches(before, i, front, c, s);
      }
    }
  }

  ghost predicate ItemOf(c: Change<OcValue>, s: Store, i: Item) {
    match KindAt(c.xpath)
    case None => i == Bystander
    case Some(kind) => Validated(kind, c, s) == Some(i)
  }

  lemma ItemFor(b: Backend, c: Change<OcValue>, d: Desk) returns (i: Item)
    requires Lookup(Handlers(b), c.xpath).Some? && Lookup(Handlers(b), c.xpath).value(c, d).Some?
    ensures ItemOf(c, d.View(), i) && ComesFrom(b, Lookup(Handlers(b), c.xpath).value(c, d).value, i, d.View())
  {
    HandlersGive(b, c.xpath);
    match KindAt(c.xpath)
    case None => i := Bystander;
    case Some(kind) => i := Validated(kind, c, d.View()).value;
  }

  lemma ItemTouches(c: Change<OcValue>, s: Store, i: Item)
    requires Good(s) && ItemOf(c, s, i)
    ensures i.Touches() <==> ChangeTouches(c, s)
    ensures i.Touches() <==> i.RevertEdits() != []
  {
    var n := c.value.ifname;
    if n in s {
      assert GoodInterface(n, s[n]);
    }
  }

  lemma ItemAsks(c: Change<OcValue>, s: Store, i: Item, n: string, l: string)
    requires Good(s) && ItemOf(c, s, i)
    ensures (i.Item? && i.ifname == n && i.leaf == l && i.Touches())
            <==> KindAt(c.xpath).Some? && c.value.ifname == n && LeafOf(KindAt(c.xpath).value) == l
                 && (c.kind != Deleted || GetLeaf(s, n, l).Some?)
    ensures i.Item? && i.writes ==> c.kind != Deleted && Some(i.value) == Translate(KindAt(c.xpath).value, c.value)
    ensures i.Item? && !i.writes ==> c.kind == Deleted
  {
    if n in s {
      assert GoodInterface(n, s[n]);
    }
  }

  // ----- applying and reverting in the session -----

  function EditsOf(items: seq<Item>): seq<Edit> {
    if items == [] then [] else EditsOf(items[..|items| - 1]) + items[|items| - 1].ApplyEdits()
  }

  function RevertsOf(items: seq<Item>): seq<Edit> {
    if items == [] then [] else items[|items| - 1].RevertEdits() + RevertsOf(items[..|items| - 1])
  }

  lemma ItemEdits(i: Item, s: Store)
    ensures Edited(s, i.ApplyEdits()) == i.Apply(s) && Edited(s, i.RevertEdits()) == i.Revert(s)
  {
    if i.Item? {
      TwoEdits(s, PutLeaf(i.ifname, NAME, i.ifname), PutLeaf(i.ifname, i.leaf, i.value));
      if i.HasOriginal() {
        TwoEdits(s, PutLeaf(i.ifname, NAME, i.ifname), PutLeaf(i.ifname, i.leaf, i.original.value));
      }
      OneEdit(s, i.DeleteEdits()[0]);
    }
  }

  lemma OneEdit(s: Store, e: Edit)
    ensures Edited(s, [e]) == ApplyEdit(s, e)
  {
    assert [e][..0] == [];
  }

  lemma TwoEdits(s: Store, e: Edit, f: Edit)
    ensures Edited(s, [e, f]) == ApplyEdit(ApplyEdit(s, e), f)
  {
    assert [e, f][..1] == [e];
    OneEdit(s, e);
  }

  lemma {:induction false} EditsApply(items: seq<Item>, s: Store)
    ensures Edited(s, EditsOf(items)) == ApplyList(items, s)
  {
    if items != [] {
      var front, last := items[..|items| - 1], items[|items| - 1];
      EditsApply(front, s);
      EditedInTurn(s, EditsOf(front), last.ApplyEdits());
      ItemEdits(last, ApplyList(front, s));
    }
  }

  lemma {:induction false} EditsRevert(items: seq<Item>, s: Store)
    ensures Edited(s, RevertsOf(items)) == RevertList(items, s)
  {
    if items != [] {
      var front, last := items[..|items| - 1], items[|items| - 1];
      EditedInTurn(s, last.RevertEdits(), RevertsOf(front));
      ItemEdits(last, s);
      EditsRevert(front, last.Revert(s));
    }
  }

  function UndoItem(b: Backend, i: Item): Undo<Desk> {
    if i.Bystander? then IdleUndo<Desk>() else UndoOf(b, i)
  }

  function Undos(b: Backend, items: seq<Item>): seq<Undo<Desk>> {
    if items == [] then [] else Undos(b, items[..|items| - 1]) + [UndoItem(b, items[|items| - 1])]
  }

  lemma WithTwice(d: Desk, a: seq<Edit>, b: seq<Edit>)
    ensures d.With(a).With(b) == d.With(a + b) && d.With([]) == d
  {
    assert d.draft.edits + [] == d.draft.edits;
    assert d.draft.edits + a + b == d.draft.edits + (a + b);
  }

  lemma UndoItemCollects(b: Backend, i: Item, d: Desk)
    ensures UndoItem(b, i)(d) == Collect(b, d, i.RevertEdits())
  {
  }

  /** The session takes what reverting the list asks of it. */
  ghost predicate RevertsTaken(b: Backend, items: seq<Item>, open: bool) {
    forall i :: i in items && i.RevertEdits() != [] ==> (open || b.lenient) && b.TakesAll(i.RevertEdits())
  }

  /** Reverting a list only touches the session's edits; it raises exactly when the session refuses one. */
  lemma {:induction false} UndosDraft(b: Backend, items: seq<Item>, d: Desk)
    ensures var r := RevertAll(Undos(b, items), d);
            && r.state.running == d.running && r.state.draft.open == d.draft.open
            && (r.Passed? <==> RevertsTaken(b, items, d.draft.open))
            && (r.Passed? ==> r.state == d.With(RevertsOf(items)))
  {
    if items == [] {
      WithTwice(d, [], []);
    } else {
      var front, last := items[..|items| - 1], items[|items| - 1];
      var undos := Undos(b, items);
      assert undos[..|undos| - 1] == Undos(b, front) && undos[|undos| - 1] == UndoItem(b, last);
      assert items == front + [last];
      UndoItemCollects(b, last, d);
      WithTwice(d, last.RevertEdits(), RevertsOf(front));
      assert RevertsTaken(b, items, d.draft.open)
        <==> RevertsTaken(b, front, d.draft.open) && RevertsTaken(b, [last], d.draft.open);
      assert last in [last];
      UndosDraft(b, front, d.With(last.RevertEdits()));
    }
  }

  /**
   Applying handlers in an open session collects their edits, and their undos. A refused edit ends it, with
   the running datastore as it was.
   */
  lemma {:induction false} AppliesInSession(b: Backend, hs: seq<Handler<Desk>>, items: seq<Item>,
                                               s: Store, d: Desk, k: nat)
    requires |hs| == |items| && k <= |hs| && forall j :: 0 <= j < |hs| ==> ComesFrom(b, hs[j], items[j], s)
    requires d.draft.open
    ensures match ApplyAll(hs[k..], d.With(EditsOf(items[..k])), Undos(b, items[..k]))
            case Done(t, undos) => t == d.With(EditsOf(items)) && undos == Undos(b, items)
            case RolledBack(t) => t.running == d.running
    decreases |hs| - k
  {
    if k == |hs| {
      assert items[..k] == items;
    } else {
      var i, more, now := items[k], items[..k + 1], d.With(EditsOf(items[..k]));
      assert ComesFrom(b, hs[k], i, s) && more[..k] == items[..k] && more[k] == i;
      assert hs[k..][0] == hs[k] && hs[k..][1..] == hs[k + 1..];
      ItemApplies(b, i, now);
      match hs[k](now)
      case Applied(t, undo) =>
        WithTwice(d, EditsOf(items[..k]), i.ApplyEdits());
        AppliesInSession(b, hs, items, s, d, k + 1);
      case Failed(t) =>
        UndosDraft(b, items[..k], t);
    }
  }

  lemma ItemApplies(b: Backend, i: Item, d: Desk)
    requires d.draft.open
    ensures match HandlerOf(b, i)(d)
            case Applied(t, undo) => t == d.With(i.ApplyEdits()) && undo == UndoItem(b, i)
            case Failed(t) => t.running == d.running
  {
    WithTwice(d, [], []);
  }

  // ----- one transaction -----

  lemma {:induction false} PreparedList(b: Backend, changes: seq<Change<OcValue>>, s: Store, d: Desk)
      returns (items: seq<Item>)
    requires Good(s) && d == Desk(s, Draft([], true)) && Prepare(Translator(b), changes, d).Ready?
    ensures forall i :: i in items ==> i.ValidatedAt(s)
    ensures forall n, l :: ItemsAsk(items, s, n, l) == Asked(changes, s, n, l)
    ensures AnyTouches(items) <==> TouchesAny(changes, s)
    ensures match ApplyAll(Prepare(Translator(b), changes, d).handlers, d, [])
            case Done(t, undos) =>
              && t.running == s && t.draft.open && t.View() == ApplyList(items, s) && undos == Undos(b, items)
            case RolledBack(t) => t.running == s
  {
    assert d.View() == s;
    items := PreparedItems(b, changes, d);
    forall n, l {
      FollowAsks(items, changes, s, n, l);
    }
    FollowTouches(items, changes, s);
    var hs := Prepare(Translator(b), changes, d).handlers;
    forall i | i in items ensures i.ValidatedAt(s) {
      var j :| 0 <= j < |items| && items[j] == i;
      assert ComesFrom(b, hs[j], items[j], s);
    }
    AppliesInSession(b, hs, items, s, d, 0);
    assert hs[0..] == hs && items[..0] == [];
    WithTwice(d, [], []);
    EditsApply(items, s);
    assert [] + EditsOf(items) == EditsOf(items);
  }

  /**
   A change event from a running datastore `s`: it is accepted with the handlers' list committed and the
   session stopped, or fails with the datastore as it was.
   */
  lemma BeginsExactly(b: Backend, changes: seq<Change<OcValue>>, d: Desk) returns (items: seq<Item>)
    requires Good(d.running)
    ensures forall i :: i in items ==> i.ValidatedAt(d.running)
    ensures match Begin(Translator(b), changes, d)
            case Begun(t, undos) =>
              && t == Desk(ApplyList(items, d.running), Draft([], false)) && undos == Undos(b, items)
              && (forall n, l :: ItemsAsk(items, d.running, n, l) == Asked(changes, d.running, n, l))
              && (AnyTouches(items) <==> TouchesAny(changes, d.running))
              && b.accepts(d.running, ApplyList(items, d.running))
            case NotBegun(t) => t.running == d.running
            case Undone(t) => t.running == d.running
            case Lost(t) => t.running == d.running
  {
    var anew := Desk(d.running, Draft([], true));
    assert Pre()(d) == Passed(anew);
    items := [];
    if Prepare(Translator(b), changes, anew).Ready? {
      items := PreparedList(b, changes, d.running, anew);
    }
  }

  /**
   What is reverted after the session was stopped is not committed, and the session may refuse it. When it
   does not, what it then holds would restore the datastore.
   */
  lemma RevertedTooLate(b: Backend, items: seq<Item>, s: Store)
    requires Good(s) && forall i :: i in items ==> i.ValidatedAt(s)
    ensures var d := Desk(ApplyList(items, s), Draft([], false));
            var r := RevertAll(Undos(b, items), d);
            && r.state.running == d.running && !r.state.draft.open
            && (r.Passed? <==> RevertsTaken(b, items, false))
            && (r.Passed? ==> r.state.View() == s)
  {
    var d := Desk(ApplyList(items, s), Draft([], false));
    UndosDraft(b, items, d);
    assert [] + RevertsOf(items) == RevertsOf(items);
    EditsRevert(items, d.running);
    ListUndo(s, items);
  }

  // ----- every run -----

  /** The datastore after a change event that starts from `s`. */
  function StoreAfter(b: Backend, changes: seq<Change<OcValue>>, s: Store): Store {
    Begin(Translator(b), changes, Desk(s, Draft([], true))).state.running
  }

  /** The accepted transactions, whatever became of them: committed, aborted or timed out. */
  function AcceptedOf(entries: seq<Entry<OcValue>>): seq<seq<Change<OcValue>>> {
    if entries == [] then []
    else
      var last, before := entries[|entries| - 1], AcceptedOf(entries[..|entries| - 1]);
      if last.how.Stranded? then before else before + [last.changes]
  }

  function Stored(b: Backend, txs: seq<seq<Change<OcValue>>>, s: Store): Store {
    if txs == [] then s else StoreAfter(b, txs[|txs| - 1], Stored(b, txs[..|txs| - 1], s))
  }

  lemma StoredMore(b: Backend, entries: seq<Entry<OcValue>>, e: Entry<OcValue>, s: Store)
    ensures Stored(b, AcceptedOf(entries + [e]), s)
            == if e.how.Stranded? then Stored(b, AcceptedOf(entries), s)
               else StoreAfter(b, e.changes, Stored(b, AcceptedOf(entries), s))
  {
    assert (entries + [e])[..|entries|] == entries;
    var txs := AcceptedOf(entries);
    assert (txs + [e.changes])[..|txs|] == txs;
  }

  /**
   The running datastore is what all accepted transactions lead to, the pending one included; reverting
   the pending one leaves it so, whether it raises or not.
   */
  ghost predicate StoreMatches(b: Backend, store: Store, sys: Sys<Desk>, ledger: Ledger<OcValue>) {
    && LedgerMatches(sys, ledger) && TimersMatch(sys) && Good(sys.device.running)
    && var settled := Stored(b, AcceptedOf(ledger.resolved), store);
       match sys.current
       case None => sys.device.running == settled
       case Some(p) => PendingMatches(b, settled, ledger.waiting.value.changes, p.undos, sys.device)
  }

  ghost predicate PendingMatches(b: Backend, settled: Store, changes: seq<Change<OcValue>>, undos: seq<Undo<Desk>>,
                                 d: Desk)
  {
    && Good(settled) && Begin(Translator(b), changes, Desk(settled, Draft([], true))).Begun?
    && d.running == StoreAfter(b, changes, settled) && !d.draft.open
    && forall e: Desk :: !e.draft.open ==> UndosMatch(b, settled, changes, undos, e)
  }

  /** Reverting in a stopped session; a session that then raises does so if there is anything to revert. */
  ghost predicate UndosMatch(b: Backend, settled: Store, changes: seq<Change<OcValue>>, undos: seq<Undo<Desk>>,
                             d: Desk)
  {
    var r := RevertAll(undos, d);
    && r.state.running == d.running && !r.state.draft.open
    && (!b.lenient ==> (r.Refused? <==> TouchesAny(changes, settled)))
  }

  lemma ItemsUndosMatch(b: Backend, s: Store, changes: seq<Change<OcValue>>, items: seq<Item>, d: Desk)
    requires (AnyTouches(items) <==> TouchesAny(changes, s)) && !d.draft.open
    ensures UndosMatch(b, s, changes, Undos(b, items), d)
  {
    UndosDraft(b, items, d);
    assert forall i: Item :: i.Touches() <==> i.RevertEdits() != [];
  }

  lemma ChangeMatches(b: Backend, store: Store, sys: Sys<Desk>, ledger: Ledger<OcValue>, ev: Event<OcValue>)
    requires StoreMatches(b, store, sys, ledger) && ev.ChangeEvent? && sys.current.None?
    ensures var (sys', outcome) := Step(Translator(b), sys, ev);
            StoreMatches(b, store, sys', Record(ledger, ev, outcome))
    ensures var (sys', outcome) := Step(Translator(b), sys, ev);
            outcome != Accepted ==> sys'.device.running == sys.device.running
  {
    var d := sys.device;
    var items := BeginsExactly(b, ev.changes, d);
    assert Pre()(d) == Pre()(Desk(d.running, Draft([], true)));
    assert Begin(Translator(b), ev.changes, d) == Begin(Translator(b), ev.changes, Desk(d.running, Draft([], true)));
    match Begin(Translator(b), ev.changes, d)
    case Begun(t, undos) =>
      forall e: Desk | !e.draft.open {
        ItemsUndosMatch(b, d.running, ev.changes, items, e);
      }
      ApplyListGood(d.running, items);
    case Lost(_) =>
      StoredMore(b, ledger.resolved, Entry(ev.reqId, ev.changes, Stranded), store);
    case NotBegun(_) =>
    case Undone(_) =>
  }

  lemma ClosedStore(b: Backend, store: Store, sys: Sys<Desk>, ledger: Ledger<OcValue>, how: Resolution,
                    after: Sys<Desk>)
    requires StoreMatches(b, store, sys, ledger) && sys.current.Some? && !how.Stranded?
    requires after.current.None? && TimersMatch(after) && after.device.running == sys.device.running
    ensures StoreMatches(b, store, after, Close(ledger, how))
  {
    var w := ledger.waiting.value;
    StoredMore(b, ledger.resolved, Entry(w.reqId, w.changes, how), store);
  }

  lemma StillStored(b: Backend, store: Store, sys: Sys<Desk>, ledger: Ledger<OcValue>, after: Sys<Desk>)
    requires StoreMatches(b, store, sys, ledger) && sys.current.Some? && TimersMatch(after)
    requires after.current == sys.current && after.device.running == sys.device.running && !after.device.draft.open
    ensures StoreMatches(b, store, after, ledger)
  {
  }

  lemma ResolvedMatches(b: Backend, store: Store, sys: Sys<Desk>, ledger: Ledger<OcValue>, ev: Event<OcValue>)
    requires StoreMatches(b, store, sys, ledger) && !ev.ChangeEvent? && sys.current.Some?
    ensures var (sys', outcome) := Step(Translator(b), sys, ev);
            StoreMatches(b, store, sys', Record(ledger, ev, outcome)) && sys'.device.running == sys.device.running
  {
    var (after, outcome) := Step(Translator(b), sys, ev);
    RevertLeavesStore(b, store, sys, ledger, ev);
    TimersStep(Translator(b), sys, ev);
    PendingMoved(b, store, sys, ledger, ev, after, outcome);
  }

  lemma PendingMoved(b: Backend, store: Store, sys: Sys<Desk>, ledger: Ledger<OcValue>, ev: Event<OcValue>,
                     after: Sys<Desk>, outcome: Outcome)
    requires StoreMatches(b, store, sys, ledger) && !ev.ChangeEvent? && sys.current.Some? && TimersMatch(after)
    requires after.device.running == sys.device.running && !after.device.draft.open
    requires if outcome in RESOLVED then after.current.None? else after.current == sys.current
    ensures StoreMatches(b, store, after, Record(ledger, ev, outcome))
  {
    match outcome
    case Committed => ClosedStore(b, store, sys, ledger, Kept, after);
    case Aborted => ClosedStore(b, store, sys, ledger, Reverted, after);
    case TimedOut => ClosedStore(b, store, sys, ledger, Expired, after);
    case _ => StillStored(b, store, sys, ledger, after);
  }

  lemma RevertLeavesStore(b: Backend, store: Store, sys: Sys<Desk>, ledger: Ledger<OcValue>, ev: Event<OcValue>)
    requires StoreMatches(b, store, sys, ledger) && !ev.ChangeEvent? && sys.current.Some?
    ensures var (after, outcome) := Step(Translator(b), sys, ev);
            && after.device.running == sys.device.running && !after.device.draft.open
            && (if outcome in RESOLVED then after.current.None? else after.current == sys.current)
  {
    var settled := Stored(b, AcceptedOf(ledger.resolved), store);
    assert UndosMatch(b, settled, ledger.waiting.value.changes, sys.current.value.undos, sys.device);
    PendingStep(Translator(b), sys, ev);
  }

  lemma StoreStep(b: Backend, store: Store, sys: Sys<Desk>, ledger: Ledger<OcValue>, ev: Event<OcValue>)
    requires StoreMatches(b, store, sys, ledger)
    ensures var (sys', outcome) := Step(Translator(b), sys, ev);
            && StoreMatches(b, store, sys', Record(ledger, ev, outcome))
            && (outcome != Accepted ==> sys'.device.running == sys.device.running)
  {
    if ev.ChangeEvent? && sys.current.None? {
      ChangeMatches(b, store, sys, ledger, ev);
    } else if !ev.ChangeEvent? && sys.current.Some? {
      ResolvedMatches(b, store, sys, ledger, ev);
    }
  }

  /**
   Over every run of events the running datastore is what the accepted transactions lead to in order, the
   aborted and timed-out ones included.
   */
  lemma {:induction false} TranslatorAlways(b: Backend, store: Store, evs: seq<Event<OcValue>>)
    requires Good(store)
    ensures var (sys, ledger) := Run(Translator(b), Desk(store, Draft([], false)), evs);
            StoreMatches(b, store, sys, ledger)
  {
    if evs != [] {
      var n := |evs| - 1;
      TranslatorAlways(b, store, evs[..n]);
      var (sys, ledger) := Run(Translator(b), Desk(store, Draft([], false)), evs[..n]);
      StoreStep(b, store, sys, ledger, evs[n]);
    }
  }

  /**
   After any run: only an accepted change alters the running datastore, so every failing change leaves it
   as it was; but an abort or a timeout gets the datastore from before its transaction exactly when the
   transaction asked of every leaf what it already held.
   */
  lemma UndoneExactly(b: Backend, store: Store, evs: seq<Event<OcValue>>, ev: Event<OcValue>)
    requires Good(store)
    ensures var (sys, ledger) := Run(Translator(b), Desk(store, Draft([], false)), evs);
            var (sys', outcome) := Step(Translator(b), sys, ev);
            && (outcome != Accepted ==> sys'.device.running == sys.device.running)
            && (outcome == Aborted || outcome == TimedOut ==>
                  && ledger.waiting.Some?
                  && var before := Stored(b, AcceptedOf(ledger.resolved), store);
                     (sys'.device.running == before
                      <==> forall n, l :: Managed(l) ==>
                             Asked(ledger.waiting.value.changes, before, n, l) == GetLeaf(before, n, l)))
  {
    TranslatorAlways(b, store, evs);
    var (sys, ledger) := Run(Translator(b), Desk(store, Draft([], false)), evs);
    StoreStep(b, store, sys, ledger, ev);
    if sys.current.Some? {
      var before := Stored(b, AcceptedOf(ledger.resolved), store);
      PendingIdleExactly(b, before, ledger.waiting.value.changes);
    }
  }

  lemma RevertingStep(b: Backend, sys: Sys<Desk>, ev: Event<OcValue>)
    requires TimersMatch(sys) && ((ev.AbortEvent? && Ends(sys, ev)) || (ev.TimeoutEvent? && ev.task in sys.timers))
    ensures sys.current.Some?
    ensures var r, outcome := RevertAll(sys.current.value.undos, sys.device), Step(Translator(b), sys, ev).1;
            && (r.Refused? <==> outcome == RevertRaised)
            && (r.Passed? <==> outcome in {Aborted, TimedOut})
  {
  }

  /**
   When a stopped session raises instead of collecting edits, then after any run: the "abort" and the timer
   of the pending transaction raise exactly when one of its changes sets a leaf, or deletes one that was
   there before it; otherwise they end it.
   */
  lemma RevertRaisesExactly(b: Backend, store: Store, evs: seq<Event<OcValue>>, ev: Event<OcValue>)
    requires Good(store) && !b.lenient
    ensures var (sys, ledger) := Run(Translator(b), Desk(store, Draft([], false)), evs);
            var outcome := Step(Translator(b), sys, ev).1;
            (ev.AbortEvent? && Ends(sys, ev)) || (ev.TimeoutEvent? && ev.task in sys.timers) ==>
              && ledger.waiting.Some? && outcome in {RevertRaised, Aborted, TimedOut}
              && (outcome == RevertRaised
                  <==> TouchesAny(ledger.waiting.value.changes, Stored(b, AcceptedOf(ledger.resolved), store)))
  {
    TranslatorAlways(b, store, evs);
    var (sys, ledger) := Run(Translator(b), Desk(store, Draft([], false)), evs);
    if (ev.AbortEvent? && Ends(sys, ev)) || (ev.TimeoutEvent? && ev.task in sys.timers) {
      RevertingStep(b, sys, ev);
      var settled := Stored(b, AcceptedOf(ledger.resolved), store);
      assert UndosMatch(b, settled, ledger.waiting.value.changes, sys.current.value.undos, sys.device);
    }
  }

  // For instance: an interface created and then aborted, with a backend that takes and accepts everything.

  function Willing(lenient: bool): Backend {
    Backend(e => true, (was, now) => true, lenient)
  }

  const ENABLED_PATH: seq<string> := ["interfaces", "interface", "config", "enabled"]

  function CreateE(): Change<OcValue> {
    Change(ENABLED_PATH, Created, OcValue("e", true, ""))
  }

  function ItemE(): Item {
    Item.Item("e", ADMIN_STATUS, true, "UP", None, true)
  }

  lemma CreationBegins(lenient: bool)
    ensures var b, d := Willing(lenient), Desk(map[], Draft([], false));
            Begin(Translator(b), [CreateE()], d)
            == Begun(Desk(map["e" := map[NAME := "e", ADMIN_STATUS := "UP"]], Draft([], false)), [UndoOf(b, ItemE())])
  {
    var b, d := Willing(lenient), Desk(map[], Draft([], true));
    var s: Store := map["e" := map[NAME := "e", ADMIN_STATUS := "UP"]];
    CreationPrepares(b, d);
    var edits := ItemE().ApplyEdits();
    assert edits == [PutLeaf("e", NAME, "e"), PutLeaf("e", ADMIN_STATUS, "UP")];
    TwoEdits(map[], edits[0], edits[1]);
    assert [] + edits == edits && d.With(edits).View() == s;
    var h := HandlerOf(b, ItemE());
    assert h(d) == Applied(d.With(edits), UndoOf(b, ItemE()));
    assert [h][1..] == [] && [] + [UndoOf(b, ItemE())] == [UndoOf(b, ItemE())];
    assert ApplyAll([h], d, []) == Done(d.With(edits), [UndoOf(b, ItemE())]);
    assert Post(b)(d.With(edits)) == Passed(Desk(s, Draft([], false)));
  }

  lemma CreationPrepares(b: Backend, d: Desk)
    requires d == Desk(map[], Draft([], true))
    ensures Prepare(Translator(b), [CreateE()], d) == Ready([HandlerOf(b, ItemE())])
  {
    HandlersGive(b, ENABLED_PATH);
    assert KindAt(ENABLED_PATH) == Some(Enabled);
    assert d.View() == map[];
    assert ClassOf(b, Enabled)(CreateE(), d) == Some(HandlerOf(b, ItemE()));
    assert [CreateE()][..0] == [] && [] + [HandlerOf(b, ItemE())] == [HandlerOf(b, ItemE())];
  }

  /** The machine while the creation is pending. */
  function CreatedE(b: Backend): Sys<Desk> {
    var undos := [UndoOf(b, ItemE())];
    Sys(Begin(Translator(b), [CreateE()], Desk(map[], Draft([], false))).state, Some(Pending(1, undos, 0)),
        map[0 := undos], {}, 1, false)
  }

  lemma CreationPends(lenient: bool)
    ensures var b, d := Willing(lenient), Desk(map[], Draft([], false));
            Run(Translator(b), d, [ChangeEvent(1, [CreateE()])])
            == (CreatedE(b), Ledger([], Some(Waiting(1, [CreateE()]))))
  {
    var b, d, first := Willing(lenient), Desk(map[], Draft([], false)), ChangeEvent(1, [CreateE()]);
    CreationBegins(lenient);
    assert [first][..0] == [];
    assert Step(Translator(b), Start(d), first) == (CreatedE(b), Accepted);
  }

  lemma CreatedDevice(lenient: bool)
    ensures "e" in CreatedE(Willing(lenient)).device.running && !CreatedE(Willing(lenient)).device.draft.open
  {
    CreationBegins(lenient);
  }

  /** The "abort" reports success and leaves the interface behind; if stopped sessions raise, so does it. */
  lemma CreationStays(lenient: bool)
    ensures var evs := [ChangeEvent(1, [CreateE()]), AbortEvent(1)];
            var (sys, ledger) := Run(Translator(Willing(lenient)), Desk(map[], Draft([], false)), evs);
            && "e" in sys.device.running
            && (lenient ==> sys.current.None? && ledger.resolved == [Entry(1, [CreateE()], Reverted)])
            && (!lenient ==> sys.current.Some? && sys.timers == map[])
  {
    var b := Willing(lenient);
    CreationPends(lenient);
    assert [ChangeEvent(1, [CreateE()]), AbortEvent(1)][..1] == [ChangeEvent(1, [CreateE()])];
    CreatedDevice(lenient);
    CreationReverts(lenient, CreatedE(b).device);
    var (sys, outcome) := Step(Translator(b), CreatedE(b), AbortEvent(1));
    assert outcome == if lenient then Aborted else RevertRaised;
    assert sys.device.running == CreatedE(b).device.running;
  }

  lemma CreationReverts(lenient: bool, d: Desk)
    requires !d.draft.open
    ensures var r := RevertAll([UndoOf(Willing(lenient), ItemE())], d);
            r.state.running == d.running && (r.Passed? <==> lenient)
  {
    var b := Willing(lenient);
    assert [UndoOf(b, ItemE())][..0] == [];
    assert ItemE().RevertEdits() == [DropInterface("e")];
  }

  lemma PendingIdleExactly(b: Backend, s: Store, changes: seq<Change<OcValue>>)
    requires Good(s) && Begin(Translator(b), changes, Desk(s, Draft([], true))).Begun?
    ensures StoreAfter(b, changes, s) == s
            <==> forall n, l :: Managed(l) ==> Asked(changes, s, n, l) == GetLeaf(s, n, l)
  {
    var items := BeginsExactly(b, changes, Desk(s, Draft([], true)));
    ListIdleExactly(s, items);
  }

  /** And leaf by leaf, an accepted transaction leaves what its changes asked for. */
  lemma AcceptedMeans(b: Backend, s: Store, changes: seq<Change<OcValue>>, n: string, l: string)
    requires Good(s) && Begin(Translator(b), changes, Desk(s, Draft([], true))).Begun? && Managed(l)
    ensures GetLeaf(StoreAfter(b, changes, s), n, l) == Asked(changes, s, n, l)
  {
    var items := BeginsExactly(b, changes, Desk(s, Draft([], true)));
    LeafAfterList(s, items, n, l);
  }

  // ----- what the changes of a transaction mean -----

  predicate EnabledPath(path: seq<string>) {
    ["interfaces", "interface", "config", "enabled"] <= path
  }

  predicate FecPath(path: seq<string>) {
    ["interfaces", "interface", "ethernet", "config", "fec-mode"] <= path
  }

  /** A FEC mode is one of five identities; its module prefix, wherever it stands, says nothing. */
  predicate MeansFec(mode: string, fec: string) {
    var identity := RemoveAll(mode, "openconfig-if-ethernet:");
    || (fec == "FC" && identity == "FEC_FC")
    || (fec == "RS" && identity in {"FEC_RS528", "FEC_RS544", "FEC_RS544_2X_INTERLEAVE"})
    || (fec == "NONE" && identity == "FEC_DISABLED")
  }

  predicate KnownFec(mode: string) {
    MeansFec(mode, "FC") || MeansFec(mode, "RS") || MeansFec(mode, "NONE")
  }

  lemma ColonInside(s: string, prefix: string, i: nat)
    requires i < |s| && prefix <= s[i..] && ':' in prefix
    ensures ':' in s
  {
    var j :| 0 <= j < |prefix| && prefix[j] == ':';
    assert s[i..][j] == ':' && s[i + j] == ':';
  }

  /** An identity means the same with and without the prefix. */
  lemma IdentityMeans(identity: string, fec: string)
    requires ':' !in identity
    ensures RemoveAll(identity, "openconfig-if-ethernet:") == identity
    ensures RemoveAll("openconfig-if-ethernet:" + identity, "openconfig-if-ethernet:") == identity
    ensures MeansFec("openconfig-if-ethernet:" + identity, fec) <==> MeansFec(identity, fec)
  {
    var prefix := "openconfig-if-ethernet:";
    forall i | 0 <= i < |identity| ensures !(prefix <= identity[i..]) {
      if prefix <= identity[i..] {
        ColonInside(identity, prefix, i);
      }
    }
    RemoveNothing(identity, prefix);
    RemoveFirst("", prefix, identity);
    assert "" + prefix + identity == prefix + identity && "" + identity == identity;
  }

  lemma TranslatesFec(mode: string)
    ensures FecValue(mode).None? <==> !KnownFec(mode)
    ensures FecValue(mode).Some? ==> forall fec :: MeansFec(mode, fec) <==> fec == FecValue(mode).value
  {
  }

  lemma KindOfPath(path: seq<string>)
    ensures KindAt(path) == Some(Enabled) <==> EnabledPath(path)
    ensures KindAt(path) == Some(FecMode) <==> FecPath(path)
  {
    var enabled, fec := ["interfaces", "interface", "config", "enabled"],
                        ["interfaces", "interface", "ethernet", "config", "fec-mode"];
    if KindAt(path) == Some(Enabled) {
      assert path[..4] == enabled;
    }
    if KindAt(path) == Some(FecMode) {
      assert path[..5] == fec;
    }
    if enabled <= path {
      assert path[0] == enabled[0] && path[1] == enabled[1] && path[2] == enabled[2] && path[3] == enabled[3];
    }
    if fec <= path {
      assert path[0] == fec[0] && path[1] == fec[1] && path[2] == fec[2] && path[3] == fec[3] && path[4] == fec[4];
    }
  }

  /** No change after the `k`-th is of that kind, for its interface. */
  ghost predicate LastOfKind(changes: seq<Change<OcValue>>, k: nat, kind: Kind)
    requires k < |changes|
  {
    forall j :: k < j < |changes| ==>
      KindAt(changes[j].xpath) != Some(kind) || changes[j].value.ifname != changes[k].value.ifname
  }

  lemma {:induction false} AskedLast(changes: seq<Change<OcValue>>, k: nat, kind: Kind, s: Store)
    requires k < |changes| && KindAt(changes[k].xpath) == Some(kind) && LastOfKind(changes, k, kind)
    ensures var n, l := changes[k].value.ifname, LeafOf(kind);
            && (changes[k].kind != Deleted ==> Asked(changes, s, n, l) == Translate(kind, changes[k].value))
            && (changes[k].kind == Deleted && GetLeaf(s, n, l).Some? ==> Asked(changes, s, n, l) == None)
    decreases |changes|
  {
    if k < |changes| - 1 {
      var front := changes[..|changes| - 1];
      assert front[k] == changes[k];
      assert LastOfKind(front, k, kind);
      LeavesDiffer(kind, changes[|changes| - 1].xpath);
      AskedLast(front, k, kind, s);
    }
  }

  lemma LeavesDiffer(kind: Kind, path: seq<string>)
    ensures KindAt(path).Some? && LeafOf(KindAt(path).value) == LeafOf(kind) ==> KindAt(path) == Some(kind)
  {
    assert ADMIN_STATUS[0] != FEC[0];
  }

  /**
   An accepted transaction whose last change to an interface's enabled leaf sets it leaves the admin status that
   means that, and the interface's name; one whose last change deletes it leaves none, if there was one before.
   */
  lemma EnabledMeans(b: Backend, s: Store, changes: seq<Change<OcValue>>, k: nat)
    requires Good(s) && Begin(Translator(b), changes, Desk(s, Draft([], true))).Begun?
    requires k < |changes| && EnabledPath(changes[k].xpath)
    requires forall j :: k < j < |changes| && EnabledPath(changes[j].xpath) ==>
               changes[j].value.ifname != changes[k].value.ifname
    ensures var c := changes[k];
            var after := StoreAfter(b, changes, s);
            && (c.kind != Deleted ==>
                  && GetLeaf(after, c.value.ifname, "config/name") == Some(c.value.ifname)
                  && GetLeaf(after, c.value.ifname, "config/admin-status")
                     == Some(if c.value.enabled then "UP" else "DOWN"))
            && (c.kind == Deleted && GetLeaf(s, c.value.ifname, "config/admin-status").Some? ==>
                  GetLeaf(after, c.value.ifname, "config/admin-status") == None)
  {
    forall j | 0 <= j < |changes| {
      KindOfPath(changes[j].xpath);
    }
    var c := changes[k];
    AskedLast(changes, k, Enabled, s);
    AcceptedMeans(b, s, changes, c.value.ifname, ADMIN_STATUS);
    NamedAfter(b, s, changes, c.value.ifname, ADMIN_STATUS);
  }

  /** The same for the FEC mode. */
  lemma FecModeMeans(b: Backend, s: Store, changes: seq<Change<OcValue>>, k: nat)
    requires Good(s) && Begin(Translator(b), changes, Desk(s, Draft([], true))).Begun?
    requires k < |changes| && FecPath(changes[k].xpath)
    requires forall j :: k < j < |changes| && FecPath(changes[j].xpath) ==>
               changes[j].value.ifname != changes[k].value.ifname
    ensures var c := changes[k];
            var after := StoreAfter(b, changes, s);
            && (c.kind != Deleted ==>
                  && GetLeaf(after, c.value.ifname, "config/name") == Some(c.value.ifname)
                  && GetLeaf(after, c.value.ifname, "ethernet/config/fec").Some?
                  && MeansFec(c.value.fecMode, GetLeaf(after, c.value.ifname, "ethernet/config/fec").value))
            && (c.kind == Deleted && GetLeaf(s, c.value.ifname, "ethernet/config/fec").Some? ==>
                  GetLeaf(after, c.value.ifname, "ethernet/config/fec") == None)
  {
    forall j | 0 <= j < |changes| {
      KindOfPath(changes[j].xpath);
    }
    var c := changes[k];
    AskedLast(changes, k, FecMode, s);
    AcceptedMeans(b, s, changes, c.value.ifname, FEC);
    NamedAfter(b, s, changes, c.value.ifname, FEC);
    if c.kind != Deleted {
      AcceptedAsked(b, s, changes, k);
      TranslatesFec(c.value.fecMode);
    }
  }

  /** Interfaces keep their names. */
  lemma NamedAfter(b: Backend, s: Store, changes: seq<Change<OcValue>>, n: string, l: string)
    requires Good(s) && Begin(Translator(b), changes, Desk(s, Draft([], true))).Begun?
    ensures var after := StoreAfter(b, changes, s); GetLeaf(after, n, l).Some? ==> GetLeaf(after, n, NAME) == Some(n)
  {
    var items := BeginsExactly(b, changes, Desk(s, Draft([], true)));
    ApplyListGood(s, items);
    var after := StoreAfter(b, changes, s);
    if n in after {
      assert GoodInterface(n, after[n]);
    }
  }

  /** The changes of an accepted transaction have values that can be translated. */
  lemma AcceptedAsked(b: Backend, s: Store, changes: seq<Change<OcValue>>, k: nat)
    requires Begin(Translator(b), changes, Desk(s, Draft([], true))).Begun?
    requires k < |changes| && FecPath(changes[k].xpath) && changes[k].kind != Deleted
    ensures KnownFec(changes[k].value.fecMode)
  {
    var d := Desk(s, Draft([], true));
    PreparedExactly(Translator(b), changes, d);
    assert changes[k] in changes;
    RefusableHere(b, changes[k], d);
    KindOfPath(changes[k].xpath);
  }

  /** The leaves there are, and what lies above and below them. */
  predicate Known(path: seq<string>) {
    && (|path| > 0 ==> path[0] == "interfaces")
    && (|path| > 1 ==> path[1] == "interface")
    && (|path| > 2 ==> path[2] in {"name", "config", "hold-time", "ethernet"})
    && (|path| > 3 && path[2] == "config" ==> path[3] in {"enabled", "name", "type", "loopback-mode"})
    && (|path| > 3 && path[2] == "ethernet" ==> path[3] == "config")
    && (|path| > 4 && path[2] == "ethernet" ==>
          path[4] in {"fec-mode", "auto-negotiate", "standalone-link-training", "enable-flow-control"})
  }

  lemma KnownExactly(b: Backend, path: seq<string>)
    ensures Lookup(Handlers(b), path).None? <==> !Known(path)
  {
    var t0 := Handlers(b);
    assert path[0..] == path;
    Down(t0, path, 0);
    if At(path, 0, "interfaces") {
      var t1 := t0.children["interfaces"];
      Down(t1, path, 1);
      if At(path, 1, "interface") {
        var t2 := t1.children["interface"];
        Down(t2, path, 2);
        if At(path, 2, "config") {
          Down(t2.children["config"], path, 3);
        } else if At(path, 2, "ethernet") {
          var t3 := t2.children["ethernet"];
          Down(t3, path, 3);
          if At(path, 3, "config") {
            Down(t3.children["config"], path, 4);
          }
        }
      }
    }
  }

  /** What the translator refuses: a path it does not know, or a FEC mode that is none; never a deletion. */
  predicate Unsuitable(c: Change<OcValue>) {
    c.kind != Deleted && (!Known(c.xpath) || (FecPath(c.xpath) && !KnownFec(c.value.fecMode)))
  }

  lemma RefusableHere(b: Backend, c: Change<OcValue>, d: Desk)
    ensures Refusable(Handlers(b), c, d) <==> Unsuitable(c)
  {
    RefusableExactly(Handlers(b), c, d);
    KnownExactly(b, c.xpath);
    HandlersGive(b, c.xpath);
    KindOfPath(c.xpath);
    TranslatesFec(c.value.fecMode);
  }

  /** When the translator rejects a change event. */
  lemma TranslatorRejectsExactly(b: Backend, sys: Sys<Desk>, reqId: int, changes: seq<Change<OcValue>>)
    requires sys.current.None?
    ensures Step(Translator(b), sys, ChangeEvent(reqId, changes)).1 == Rejected
            <==> exists c :: c in changes && Unsuitable(c)
  {
    RejectedExactly(Translator(b), sys, reqId, changes);
    var d := Pre()(sys.device).state;
    forall c: Change<OcValue> {
      RefusableHere(b, c, d);
    }
  }

  /** An edit that a change asks of the session, starting from the contents `s`. */
  predicate EditAsked(c: Change<OcValue>, s: Store, e: Edit) {
    var n := c.value.ifname;
    if c.kind != Deleted then
      || ((EnabledPath(c.xpath) || FecPath(c.xpath)) && e == PutLeaf(n, "config/name", n))
      || (EnabledPath(c.xpath) && e == PutLeaf(n, "config/admin-status", if c.value.enabled then "UP" else "DOWN"))
      || (FecPath(c.xpath) && e.PutLeaf? && e == PutLeaf(n, "ethernet/config/fec", e.value)
          && MeansFec(c.value.fecMode, e.value))
    else
      || (EnabledPath(c.xpath) && e == DropLeaf(n, "config/admin-status") && GetLeaf(s, n, "config/admin-status").Some?)
      || (FecPath(c.xpath) && e == DropLeaf(n, "ethernet/config/fec") && GetLeaf(s, n, "ethernet/config/fec").Some?)
  }

  ghost predicate Takes(b: Backend, c: Change<OcValue>, s: Store) {
    forall e :: EditAsked(c, s, e) ==> b.takes(e)
  }

  lemma ItemEditsAsked(kind: Kind, c: Change<OcValue>, s: Store, e: Edit)
    requires Good(s) && KindAt(c.xpath) == Some(kind) && Validated(kind, c, s).Some?
    ensures e in Validated(kind, c, s).value.ApplyEdits() <==> EditAsked(c, s, e)
  {
    KindOfPath(c.xpath);
    TranslatesFec(c.value.fecMode);
    if c.value.ifname in s {
      assert GoodInterface(c.value.ifname, s[c.value.ifname]);
    }
  }

  /** One change's handler, in an open session: it is applied exactly when its edits are taken. */
  lemma ChangeApplies(b: Backend, c: Change<OcValue>, d: Desk, t: Desk)
    requires Good(d.View()) && t.draft.open
    requires Lookup(Handlers(b), c.xpath).Some? && Lookup(Handlers(b), c.xpath).value(c, d).Some?
    ensures var r := Lookup(Handlers(b), c.xpath).value(c, d).value(t);
            && (r.Applied? <==> Takes(b, c, d.View()))
            && (r.Applied? ==> r.state.draft.open)
  {
    HandlersGive(b, c.xpath);
    KindOfPath(c.xpath);
    match KindAt(c.xpath)
    case None =>
    case Some(kind) =>
      var i := Validated(kind, c, d.View()).value;
      forall e ensures e in i.ApplyEdits() <==> EditAsked(c, d.View(), e) {
        ItemEditsAsked(kind, c, d.View(), e);
      }
      assert b.TakesAll(i.ApplyEdits()) <==> Takes(b, c, d.View());
  }

  lemma {:induction false} PreparedApplies(b: Backend, changes: seq<Change<OcValue>>, d: Desk)
    requires Good(d.View()) && d.draft.open && Prepare(Translator(b), changes, d).Ready?
    ensures var r := ApplyAll(Prepare(Translator(b), changes, d).handlers, d, []);
            && (r.Done? <==> forall c :: c in changes ==> Takes(b, c, d.View()))
            && (r.Done? ==> r.state.draft.open)
    decreases |changes|
  {
    if changes != [] {
      var n := |changes| - 1;
      var front, c := changes[..n], changes[n];
      assert changes == front + [c];
      PreparedApplies(b, front, d);
      var hs := Prepare(Translator(b), front, d).handlers;
      if Lookup(Handlers(b), c.xpath).Some? {
        var h := Lookup(Handlers(b), c.xpath).value(c, d).value;
        ApplyMore(hs, h, d, []);
        if ApplyAll(hs, d, []).Done? {
          ChangeApplies(b, c, d, ApplyAll(hs, d, []).state);
        }
      } else {
        NothingAsked(b, c, d.View());
      }
    }
  }

  lemma NothingAsked(b: Backend, c: Change<OcValue>, s: Store)
    requires Lookup(Handlers(b), c.xpath).None?
    ensures Takes(b, c, s)
  {
    HandlersGive(b, c.xpath);
    KindOfPath(c.xpath);
  }

  /** When one of the translator's handlers raises: the session refuses an edit that a change asks for. */
  lemma TranslatorRaisesExactly(b: Backend, sys: Sys<Desk>, reqId: int, changes: seq<Change<OcValue>>)
    requires sys.current.None? && Good(sys.device.running)
    ensures var outcome := Step(Translator(b), sys, ChangeEvent(reqId, changes)).1;
            outcome == ApplyRaised
            <==> outcome != Rejected && exists c :: c in changes && !Takes(b, c, sys.device.running)
  {
    var d := Pre()(sys.device).state;
    assert d.View() == sys.device.running;
    if Prepare(Translator(b), changes, d).Ready? {
      PreparedApplies(b, changes, d);
    }
  }
}
