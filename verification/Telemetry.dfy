/**
 Streaming telemetry: a store of the leaves last sampled for each subscription, and the notifications
 that let a client rebuild them. Redundant updates may be suppressed and repeated on a heartbeat; what
 the client ends up with is the sampled tree all the same.
 */
module Telemetry {
  import opened Results

  /** The path of a leaf. */
  datatype Path = Path(text: string)

  datatype Sample<+V> = Sample(value: V, updateTime: int)

  type Leaves<+V> = map<Path, Sample<V>>

  /** `InMemoryTelemetryStore._data`: request id, then subscription id, then path. */
  type Nested<+V> = map<int, map<int, Leaves<V>>>

  function InnerOf<V>(d: Nested<V>, rid: int, sid: int): Leaves<V> {
    if rid in d && sid in d[rid] then d[rid][sid] else map[]
  }

  /** No level is left empty. */
  ghost predicate Pruned<V>(d: Nested<V>) {
    forall rid :: rid in d ==> d[rid] != map[] && forall sid :: sid in d[rid] ==> d[rid][sid] != map[]
  }

  lemma SomeKey<K, V>(m: map<K, V>) returns (key: K)
    requires m != map[]
    ensures key in m
  {
    assert m.Keys != {};
    key :| key in m.Keys;
  }

  /** Pruned stores are determined by their leaves: equal contents mean equal dictionaries. */
  lemma PrunedDetermined<V>(a: Nested<V>, b: Nested<V>)
    requires Pruned(a) && Pruned(b) && forall rid, sid :: InnerOf(a, rid, sid) == InnerOf(b, rid, sid)
    ensures a == b
  {
    forall rid ensures rid in a <==> rid in b {
      if rid in a {
        var sid := SomeKey(a[rid]);
        assert InnerOf(a, rid, sid) == InnerOf(b, rid, sid);
      }
      if rid in b {
        var sid := SomeKey(b[rid]);
        assert InnerOf(a, rid, sid) == InnerOf(b, rid, sid);
      }
    }
    forall rid | rid in a ensures a[rid] == b[rid] {
      forall sid ensures (sid in a[rid] <==> sid in b[rid]) && (sid in a[rid] ==> a[rid][sid] == b[rid][sid]) {
        assert InnerOf(a, rid, sid) == InnerOf(b, rid, sid);
      }
      assert a[rid].Keys == b[rid].Keys;
    }
  }

  class InMemoryTelemetryStore<V> {
    var data: Nested<V>

    constructor ()
      ensures Valid() && forall rid, sid :: Inner(rid, sid) == map[]
    {
      data := map[];
    }

    ghost predicate Valid()
      reads this
    {
      Pruned(data)
    }

    function Inner(rid: int, sid: int): Leaves<V>
      reads this
    {
      InnerOf(data, rid, sid)
    }

    function Get(rid: int, sid: int, path: Path): Option<Sample<V>>
      reads this
    {
      var leaves := Inner(rid, sid);
      if path in leaves then Some(leaves[path]) else None
    }

    function List(rid: int, sid: int): set<Path>
      reads this
    {
      Inner(rid, sid).Keys
    }

    method Set(rid: int, sid: int, path: Path, value: V, now: int)
      requires Valid()
      modifies this
      ensures Valid()
      ensures Inner(rid, sid) == old(Inner(rid, sid))[path := Sample(value, now)]
      ensures forall r, s :: r != rid || s != sid ==> Inner(r, s) == old(Inner(r, s))
    {
      if rid !in data {
        data := data[rid := map[]];
      }
      if sid !in data[rid] {
        data := data[rid := data[rid][sid := map[]]];
      }
      data := data[rid := data[rid][sid := data[rid][sid][path := Sample(value, now)]]];
      assert path in data[rid][sid] && sid in data[rid];
    }

    /** Deletes a leaf and the levels it leaves empty; false stands for TelemetryNotExistError. */
    method Delete(rid: int, sid: int, path: Path) returns (found: bool)
      requires Valid()
      modifies this
      ensures Valid()
      ensures found <==> path in old(Inner(rid, sid))
      ensures Inner(rid, sid) == old(Inner(rid, sid)) - {path}
      ensures forall r, s :: r != rid || s != sid ==> Inner(r, s) == old(Inner(r, s))
    {
      if rid !in data || sid !in data[rid] || path !in data[rid][sid] {
        return false;
      }
      data := data[rid := data[rid][sid := data[rid][sid] - {path}]];
      if data[rid][sid] == map[] {
        data := data[rid := data[rid] - {sid}];
      }
      assert forall s :: s != sid ==> (s in data[rid] <==> s in old(data)[rid]);
      if data[rid] == map[] {
        assert forall s :: s !in data[rid];
        data := data - {rid};
      }
      return true;
    }
  }

  // ----- what a client makes of the notifications -----

  datatype Notification<+V> =
    | Update(rid: int, sid: int, path: Path, value: V)
    | Deletion(rid: int, sid: int, path: Path)
    | SyncResponse(rid: int)

  predicate About<V>(n: Notification<V>, sid: int, path: Path) {
    !n.SyncResponse? && n.sid == sid && n.path == path
  }

  /** The value a client holds at a path: the last notification about it decides. */
  function ClientAt<V>(sent: seq<Notification<V>>, sid: int, path: Path): Option<V> {
    if sent == [] then None
    else
      var last := sent[|sent| - 1];
      if !About(last, sid, path) then ClientAt(sent[..|sent| - 1], sid, path)
      else if last.Update? then Some(last.value) else None
  }

  lemma Told<V>(sent: seq<Notification<V>>, n: Notification<V>, sid: int, path: Path)
    ensures ClientAt(sent + [n], sid, path)
            == if !About(n, sid, path) then ClientAt(sent, sid, path)
               else if n.Update? then Some(n.value) else None
  {
    assert (sent + [n])[..|sent|] == sent;
  }

  function ValueAt<V>(leaves: Leaves<V>, path: Path): Option<V> {
    if path in leaves then Some(leaves[path].value) else None
  }

  function Lookup<V>(data: map<Path, V>, path: Path): Option<V> {
    if path in data then Some(data[path]) else None
  }

  /** The client holds exactly `data` for the subscription. */
  ghost predicate ClientHolds<V>(sent: seq<Notification<V>>, sid: int, data: map<Path, V>) {
    forall path :: ClientAt(sent, sid, path) == Lookup(data, path)
  }

  /** The store's leaves carry exactly the values `data`. */
  ghost predicate StoreHolds<V>(leaves: Leaves<V>, data: map<Path, V>) {
    forall path :: ValueAt(leaves, path) == Lookup(data, path)
  }

  // ----- one leaf -----

  datatype Config = Config(sid: int, onChange: bool, suppress: bool, heartbeat: int) {
    predicate Suppresses() {
      suppress || onChange
    }
  }

  /** `_should_send_notif`, with what the store has at the path and the time it is looked at. */
  function ShouldSend<V(==)>(cfg: Config, prev: Option<Sample<V>>, value: V, now: int): bool {
    if !cfg.Suppresses() || prev.None? then true
    else
      var expired := cfg.heartbeat > 0 && now - prev.value.updateTime > cfg.heartbeat;
      !(value == prev.value.value && !expired)
  }

  /** What the store has at a sampled path after a round that looked at time `check` and stored at `stamp`. */
  function LeafAfter<V(==)>(cfg: Config, prev: Option<Sample<V>>, value: V, check: int, stamp: int): Sample<V> {
    if ShouldSend(cfg, prev, value, check) then Sample(value, stamp) else prev.value
  }

  function Prev<V>(leaves: Leaves<V>, path: Path): Option<Sample<V>> {
    if path in leaves then Some(leaves[path]) else None
  }

  // ----- a sampling round as a value -----

  /** A leaf's turn in a round: its sampled value, when it was looked at and when it was stored if it was sent. */
  datatype Turn<+V> = Turn(path: Path, value: V, check: int, stamp: int)

  predicate Sent<V(==)>(cfg: Config, before: Leaves<V>, turn: Turn<V>) {
    ShouldSend(cfg, Prev(before, turn.path), turn.value, turn.check)
  }

  function LeavesAfter<V(==)>(cfg: Config, before: Leaves<V>, turns: seq<Turn<V>>): Leaves<V> {
    if turns == [] then before
    else
      var t := turns[|turns| - 1];
      LeavesAfter(cfg, before, turns[..|turns| - 1])
      [t.path := LeafAfter(cfg, Prev(before, t.path), t.value, t.check, t.stamp)]
  }

  function UpdateOf<V(==)>(id: int, cfg: Config, before: Leaves<V>, turn: Turn<V>): seq<Notification<V>> {
    if Sent(cfg, before, turn) then [Update(id, cfg.sid, turn.path, turn.value)] else []
  }

  function UpdatesOf<V(==)>(id: int, cfg: Config, before: Leaves<V>, turns: seq<Turn<V>>): seq<Notification<V>> {
    if turns == [] then []
    else
      UpdatesOf(id, cfg, before, turns[..|turns| - 1]) + UpdateOf(id, cfg, before, turns[|turns| - 1])
  }

  lemma UpdatesGrow<V>(id: int, cfg: Config, before: Leaves<V>, turns: seq<Turn<V>>, t: Turn<V>,
                       start: seq<Notification<V>>)
    ensures start + UpdatesOf(id, cfg, before, turns + [t])
            == start + UpdatesOf(id, cfg, before, turns) + UpdateOf(id, cfg, before, t)
  {
    assert (turns + [t])[..|turns|] == turns;
  }

  lemma LeavesGrow<V>(cfg: Config, before: Leaves<V>, turns: seq<Turn<V>>, t: Turn<V>)
    ensures LeavesAfter(cfg, before, turns + [t])
            == LeavesAfter(cfg, before, turns)[t.path := LeafAfter(cfg, Prev(before, t.path), t.value, t.check, t.stamp)]
  {
    assert (turns + [t])[..|turns|] == turns;
  }

  function DeletionsOf<V>(id: int, cfg: Config, gone: seq<Path>): seq<Notification<V>> {
    if gone == [] then []
    else DeletionsOf(id, cfg, gone[..|gone| - 1]) + [Deletion(id, cfg.sid, gone[|gone| - 1])]
  }

  ghost function PathsOf<V>(turns: seq<Turn<V>>): set<Path> {
    set t | t in turns :: t.path
  }

  ghost predicate Distinct<V>(turns: seq<Turn<V>>) {
    forall i, j :: 0 <= i < j < |turns| ==> turns[i].path != turns[j].path
  }

  /** The turns of one round over `data`, made between `from_` and `to`: no path has two. */
  ghost predicate Orderly<V>(turns: seq<Turn<V>>, data: map<Path, V>, from_: int, to: int) {
    && (forall t :: t in turns ==> t.path in data && data[t.path] == t.value && from_ <= t.check <= t.stamp <= to)
    && Distinct(turns)
  }

  lemma OneMoreTurn<V>(turns: seq<Turn<V>>, turn: Turn<V>, data: map<Path, V>, from_: int, mid: int, to: int)
    requires Orderly(turns, data, from_, mid) && turn.path !in PathsOf(turns) && from_ <= mid
    requires turn.path in data && data[turn.path] == turn.value && mid <= turn.check <= turn.stamp <= to
    ensures Orderly(turns + [turn], data, from_, to)
    ensures PathsOf(turns + [turn]) == PathsOf(turns) + {turn.path}
  {
    forall i | 0 <= i < |turns| ensures turns[i].path != turn.path {
      assert turns[i] in turns && turns[i].path in PathsOf(turns);
    }
    var more := turns + [turn];
    forall p ensures p in PathsOf(more) <==> p in PathsOf(turns) + {turn.path} {
      if p in PathsOf(turns) {
        var t :| t in turns && t.path == p;
        assert t in more;
      }
      assert turn in more;
    }
  }

  /** Distinct paths do not disturb one another: every leaf ends as its own turn leaves it. */
  lemma {:induction false} LeafByTurn<V>(cfg: Config, before: Leaves<V>, turns: seq<Turn<V>>, p: Path)
    requires Distinct(turns)
    ensures p !in PathsOf(turns) ==> Prev(LeavesAfter(cfg, before, turns), p) == Prev(before, p)
    ensures forall t :: t in turns && t.path == p ==>
              Prev(LeavesAfter(cfg, before, turns), p)
              == Some(LeafAfter(cfg, Prev(before, p), t.value, t.check, t.stamp))
    decreases |turns|
  {
    if turns == [] {
    } else {
      var init, last := turns[..|turns| - 1], turns[|turns| - 1];
      LeafByTurn(cfg, before, init, p);
      assert turns == init + [last] && last in turns;
      assert PathsOf(init) <= PathsOf(turns);
    }
  }

  /** The updates of a round are exactly those of the turns that send. */
  lemma {:induction false} UpdateByTurn<V>(id: int, cfg: Config, before: Leaves<V>, turns: seq<Turn<V>>,
                                           n: Notification<V>)
    ensures n in UpdatesOf(id, cfg, before, turns)
            <==> exists t :: t in turns && Sent(cfg, before, t) && n == Update(id, cfg.sid, t.path, t.value)
    decreases |turns|
  {
    if turns == [] {
    } else {
      var init, last := turns[..|turns| - 1], turns[|turns| - 1];
      UpdateByTurn(id, cfg, before, init, n);
      assert turns == init + [last] && last in turns;
      if t :| t in init && Sent(cfg, before, t) && n == Update(id, cfg.sid, t.path, t.value) {
        assert t in turns;
      }
    }
  }

  /** What one more turn does to a client. */
  lemma ClientGrows<V>(start: seq<Notification<V>>, id: int, cfg: Config, before: Leaves<V>, turns: seq<Turn<V>>,
                       t: Turn<V>, s: int, p: Path)
    ensures ClientAt(start + UpdatesOf(id, cfg, before, turns + [t]), s, p)
            == if s == cfg.sid && p == t.path && Sent(cfg, before, t) then Some(t.value)
               else ClientAt(start + UpdatesOf(id, cfg, before, turns), s, p)
  {
    UpdatesGrow(id, cfg, before, turns, t, start);
    var sofar := start + UpdatesOf(id, cfg, before, turns);
    if Sent(cfg, before, t) {
      Told(sofar, Update(id, cfg.sid, t.path, t.value), s, p);
    } else {
      assert sofar + UpdateOf(id, cfg, before, t) == sofar;
    }
  }

  lemma {:induction false} ClientByTurn<V>(start: seq<Notification<V>>, id: int, cfg: Config, before: Leaves<V>,
                                           turns: seq<Turn<V>>, s: int, p: Path)
    requires Distinct(turns)
    ensures s != cfg.sid || p !in PathsOf(turns) ==>
              ClientAt(start + UpdatesOf(id, cfg, before, turns), s, p) == ClientAt(start, s, p)
    ensures forall t :: s == cfg.sid && t in turns && t.path == p ==>
              ClientAt(start + UpdatesOf(id, cfg, before, turns), s, p)
              == if Sent(cfg, before, t) then Some(t.value) else ClientAt(start, s, p)
    decreases |turns|
  {
    if turns == [] {
      assert start + UpdatesOf(id, cfg, before, turns) == start;
    } else {
      var init, last := turns[..|turns| - 1], turns[|turns| - 1];
      assert turns == init + [last] && last in turns;
      ClientByTurn(start, id, cfg, before, init, s, p);
      ClientGrows(start, id, cfg, before, init, last, s, p);
      assert PathsOf(turns) == PathsOf(init) + {last.path} && last.path !in PathsOf(init);
    }
  }

  lemma {:induction false} ClientByDeletions<V>(start: seq<Notification<V>>, id: int, cfg: Config, gone: seq<Path>,
                                                s: int, p: Path)
    ensures ClientAt(start + DeletionsOf(id, cfg, gone), s, p)
            == if s == cfg.sid && p in gone then None else ClientAt(start, s, p)
    decreases |gone|
  {
    if gone == [] {
      assert start + DeletionsOf(id, cfg, gone) == start;
    } else {
      var init, last := gone[..|gone| - 1], gone[|gone| - 1];
      ClientByDeletions(start, id, cfg, init, s, p);
      assert gone == init + [last];
      var n: Notification<V> := Deletion(id, cfg.sid, last);
      Told(start + DeletionsOf(id, cfg, init), n, s, p);
      assert start + DeletionsOf(id, cfg, gone) == (start + DeletionsOf(id, cfg, init)) + [n];
    }
  }

  lemma {:induction false} DeletionByPath<V>(id: int, cfg: Config, gone: seq<Path>, n: Notification<V>)
    ensures n in DeletionsOf(id, cfg, gone) <==> exists p :: p in gone && n == Deletion(id, cfg.sid, p)
    decreases |gone|
  {
    if gone != [] {
      var init, last := gone[..|gone| - 1], gone[|gone| - 1];
      assert gone == init + [last];
      DeletionByPath(id, cfg, init, n);
    }
  }

  /** The leaf is to be sent: it is not suppressed, or new, or changed, or its heartbeat has run out by then. */
  predicate Due<V(==)>(cfg: Config, before: Leaves<V>, p: Path, value: V, now: int) {
    || !(cfg.onChange || cfg.suppress)
    || p !in before || before[p].value != value
    || (cfg.heartbeat > 0 && now - before[p].updateTime > cfg.heartbeat)
  }

  /** A message that a round over `data` may send by the time `to`. */
  predicate Fit<V(==)>(n: Notification<V>, id: int, cfg: Config, before: Leaves<V>, data: map<Path, V>, to: int) {
    match n
    case Update(rid, sid, p, value) =>
      rid == id && sid == cfg.sid && p in data && value == data[p] && Due(cfg, before, p, value, to)
    case Deletion(rid, sid, p) => rid == id && sid == cfg.sid && p in before && p !in data
    case SyncResponse(_) => false
  }

  /**
   The messages of a round between two times: an update for every leaf due when it begins, a deletion for every
   leaf that is gone, and nothing but such messages, no update for a leaf not due when it ends.
   */
  ghost predicate RoundSays<V>(news: seq<Notification<V>>, id: int, cfg: Config, before: Leaves<V>, data: map<Path, V>,
                               from_: int, to: int)
  {
    && (forall p :: p in data && Due(cfg, before, p, data[p], from_) ==> Update(id, cfg.sid, p, data[p]) in news)
    && (forall p :: p in before && p !in data ==> Deletion(id, cfg.sid, p) in news)
    && (forall n :: n in news ==> Fit(n, id, cfg, before, data, to))
  }

  /** Whether a turn sends lies between what is due when the round begins and what is when it ends. */
  lemma SentWhenDue<V>(cfg: Config, before: Leaves<V>, t: Turn<V>, from_: int, to: int)
    requires from_ <= t.check <= to
    ensures Due(cfg, before, t.path, t.value, from_) ==> Sent(cfg, before, t)
    ensures Sent(cfg, before, t) ==> Due(cfg, before, t.path, t.value, to)
  {
  }

  lemma UpdatesFit<V>(id: int, cfg: Config, before: Leaves<V>, data: map<Path, V>, turns: seq<Turn<V>>, from_: int, to: int)
    requires Orderly(turns, data, from_, to) && PathsOf(turns) == data.Keys
    ensures forall n :: n in UpdatesOf(id, cfg, before, turns) ==> Fit(n, id, cfg, before, data, to)
    ensures forall p :: p in data && Due(cfg, before, p, data[p], from_) ==>
              Update(id, cfg.sid, p, data[p]) in UpdatesOf(id, cfg, before, turns)
  {
    forall n | n in UpdatesOf(id, cfg, before, turns) ensures Fit(n, id, cfg, before, data, to) {
      UpdateByTurn(id, cfg, before, turns, n);
      var t :| t in turns && Sent(cfg, before, t) && n == Update(id, cfg.sid, t.path, t.value);
      SentWhenDue(cfg, before, t, from_, to);
    }
    forall p | p in data && Due(cfg, before, p, data[p], from_)
      ensures Update(id, cfg.sid, p, data[p]) in UpdatesOf(id, cfg, before, turns)
    {
      assert p in PathsOf(turns);
      var t :| t in turns && t.path == p;
      SentWhenDue(cfg, before, t, from_, to);
      UpdateByTurn(id, cfg, before, turns, Update(id, cfg.sid, p, data[p]));
    }
  }

  lemma DeletionsFit<V>(id: int, cfg: Config, before: Leaves<V>, data: map<Path, V>, gone: seq<Path>, to: int)
    requires (set q | q in gone) == before.Keys - data.Keys
    ensures forall n :: n in DeletionsOf(id, cfg, gone) ==> Fit(n, id, cfg, before, data, to)
    ensures forall p :: p in before && p !in data ==> Deletion(id, cfg.sid, p) in DeletionsOf<V>(id, cfg, gone)
  {
    var all := set q | q in gone;
    forall n | n in DeletionsOf(id, cfg, gone) ensures Fit(n, id, cfg, before, data, to) {
      DeletionByPath(id, cfg, gone, n);
      var p :| p in gone && n == Deletion(id, cfg.sid, p);
      assert p in all;
    }
    forall p | p in before && p !in data ensures Deletion(id, cfg.sid, p) in DeletionsOf<V>(id, cfg, gone) {
      assert p in all;
      DeletionByPath<V>(id, cfg, gone, Deletion(id, cfg.sid, p));
    }
  }

  lemma RoundNews<V>(start: seq<Notification<V>>, id: int, cfg: Config, before: Leaves<V>, data: map<Path, V>,
                     turns: seq<Turn<V>>, gone: seq<Path>, from_: int, to: int)
    requires Orderly(turns, data, from_, to) && PathsOf(turns) == data.Keys
    requires (set q | q in gone) == before.Keys - data.Keys
    ensures var all := start + UpdatesOf(id, cfg, before, turns) + DeletionsOf(id, cfg, gone);
            start <= all && RoundSays(all[|start|..], id, cfg, before, data, from_, to)
  {
    UpdatesFit(id, cfg, before, data, turns, from_, to);
    DeletionsFit(id, cfg, before, data, gone, to);
    var updates, deletions := UpdatesOf(id, cfg, before, turns), DeletionsOf<V>(id, cfg, gone);
    JoinedSay(updates, deletions, id, cfg, before, data, from_, to);
    Appended(start, updates, deletions);
  }

  lemma JoinedSay<V>(updates: seq<Notification<V>>, deletions: seq<Notification<V>>, id: int, cfg: Config,
                     before: Leaves<V>, data: map<Path, V>, from_: int, to: int)
    requires forall n :: n in updates ==> Fit(n, id, cfg, before, data, to)
    requires forall n :: n in deletions ==> Fit(n, id, cfg, before, data, to)
    requires forall p :: p in data && Due(cfg, before, p, data[p], from_) ==> Update(id, cfg.sid, p, data[p]) in updates
    requires forall p :: p in before && p !in data ==> Deletion(id, cfg.sid, p) in deletions
    ensures RoundSays(updates + deletions, id, cfg, before, data, from_, to)
  {
  }

  lemma Appended<T>(start: seq<T>, a: seq<T>, b: seq<T>)
    ensures start + a + b == start + (a + b) && start <= start + a + b && (start + a + b)[|start|..] == a + b
  {
  }

  /** What a round leaves in the store: exactly the sampled values, each as its turn left it. */
  lemma RoundStore<V>(cfg: Config, before: Leaves<V>, data: map<Path, V>, turns: seq<Turn<V>>, from_: int, to: int)
    requires Orderly(turns, data, from_, to) && PathsOf(turns) == data.Keys
    ensures StoreHolds(LeavesAfter(cfg, before, turns) - (before.Keys - data.Keys), data)
    ensures forall t :: t in turns ==>
              Prev(LeavesAfter(cfg, before, turns) - (before.Keys - data.Keys), t.path)
              == Some(LeafAfter(cfg, Prev(before, t.path), t.value, t.check, t.stamp))
  {
    var all := LeavesAfter(cfg, before, turns);
    var after := all - (before.Keys - data.Keys);
    forall p ensures ValueAt(after, p) == Lookup(data, p) {
      LeafByTurn(cfg, before, turns, p);
      if p in data {
        var t :| t in turns && t.path == p;
        assert Prev(all, p) == Some(LeafAfter(cfg, Prev(before, p), t.value, t.check, t.stamp));
      }
    }
    forall t | t in turns
      ensures Prev(after, t.path) == Some(LeafAfter(cfg, Prev(before, t.path), t.value, t.check, t.stamp))
    {
      LeafByTurn(cfg, before, turns, t.path);
      assert t.path in PathsOf(turns);
    }
  }

  /** Under a heartbeat no stored leaf is older than one heartbeat when the round begins. */
  lemma RoundFresh<V>(cfg: Config, before: Leaves<V>, data: map<Path, V>, turns: seq<Turn<V>>, from_: int, to: int)
    requires Orderly(turns, data, from_, to) && PathsOf(turns) == data.Keys
    requires (cfg.onChange || cfg.suppress) && cfg.heartbeat > 0
    ensures var after := LeavesAfter(cfg, before, turns) - (before.Keys - data.Keys);
            forall p :: p in after ==> after[p].updateTime >= from_ - cfg.heartbeat
  {
    var after := LeavesAfter(cfg, before, turns) - (before.Keys - data.Keys);
    RoundStore(cfg, before, data, turns, from_, to);
    forall p | p in after ensures after[p].updateTime >= from_ - cfg.heartbeat {
      assert ValueAt(after, p) == Lookup(data, p);
      assert p in PathsOf(turns);
      var t :| t in turns && t.path == p;
      FreshEnough(cfg, Prev(before, p), t.value, t.check, t.stamp);
      assert Prev(after, p) == Some(LeafAfter(cfg, Prev(before, p), t.value, t.check, t.stamp));
    }
  }

  /** The client's view and the leaves agree, value for value. */
  ghost predicate Mirrors<V>(sent: seq<Notification<V>>, sid: int, leaves: Leaves<V>) {
    forall p :: ClientAt(sent, sid, p) == ValueAt(leaves, p)
  }

  /** What a round's notifications do to the client, path by path. */
  lemma RoundClient<V>(start: seq<Notification<V>>, id: int, cfg: Config, before: Leaves<V>, data: map<Path, V>,
                       turns: seq<Turn<V>>, gone: seq<Path>, from_: int, to: int, s: int, p: Path)
    requires Orderly(turns, data, from_, to) && PathsOf(turns) == data.Keys
    requires (set q | q in gone) == before.Keys - data.Keys
    ensures var view := ClientAt(start + UpdatesOf(id, cfg, before, turns) + DeletionsOf(id, cfg, gone), s, p);
            && (s != cfg.sid || (p !in data && p !in before) ==> view == ClientAt(start, s, p))
            && (s == cfg.sid && p !in data && p in before ==> view == None)
            && (forall t :: t in turns && t.path == p && s == cfg.sid ==>
                  view == if Sent(cfg, before, t) then Some(t.value) else ClientAt(start, s, p))
  {
    ClientByTurn(start, id, cfg, before, turns, s, p);
    ClientByDeletions(start + UpdatesOf(id, cfg, before, turns), id, cfg, gone, s, p);
    assert p in gone <==> p in before.Keys - data.Keys;
    assert p in PathsOf(turns) <==> p in data;
  }

  /**
   When the client holds the sample after a round: every leaf held back must already have been shown with
   its value, and nothing else may be shown that the store did not know of.
   */
  lemma RoundReplay<V>(start: seq<Notification<V>>, id: int, cfg: Config, before: Leaves<V>, data: map<Path, V>,
                       turns: seq<Turn<V>>, gone: seq<Path>, from_: int, to: int)
    requires Orderly(turns, data, from_, to) && PathsOf(turns) == data.Keys
    requires (set q | q in gone) == before.Keys - data.Keys
    ensures ClientHolds(start + UpdatesOf(id, cfg, before, turns) + DeletionsOf(id, cfg, gone), cfg.sid, data)
            <==> && (forall t :: t in turns && !Sent(cfg, before, t) ==>
                       ClientAt(start, cfg.sid, t.path) == Some(t.value))
                 && (forall p :: p !in data && p !in before ==> ClientAt(start, cfg.sid, p) == None)
    ensures Mirrors(start, cfg.sid, before) ==>
              ClientHolds(start + UpdatesOf(id, cfg, before, turns) + DeletionsOf(id, cfg, gone), cfg.sid, data)
  {
    var after := start + UpdatesOf(id, cfg, before, turns) + DeletionsOf(id, cfg, gone);
    forall p {
      RoundClient(start, id, cfg, before, data, turns, gone, from_, to, cfg.sid, p);
    }
    forall p | p in data ensures exists t :: t in turns && t.path == p && t.value == data[p] {
      assert p in PathsOf(turns);
    }
    if ClientHolds(after, cfg.sid, data) {
      forall t | t in turns && !Sent(cfg, before, t) ensures ClientAt(start, cfg.sid, t.path) == Some(t.value) {
        assert ClientAt(after, cfg.sid, t.path) == Lookup(data, t.path);
      }
      forall p | p !in data && p !in before ensures ClientAt(start, cfg.sid, p) == None {
        assert ClientAt(after, cfg.sid, p) == Lookup(data, p);
      }
    }
  }

  /**
   Starting and polling only merge into the store. It then holds the sample exactly when nothing was stored
   at a path the sample lacks: leaves that disappeared before a restart or between polls stay, and are sent.
   */
  lemma MergeHolds<V>(before: Leaves<V>, after: Leaves<V>, data: map<Path, V>)
    requires forall p :: ValueAt(after, p) == if p in data then Some(data[p]) else ValueAt(before, p)
    ensures StoreHolds(after, data) <==> before.Keys <= data.Keys
  {
    if StoreHolds(after, data) {
      forall p | p in before ensures p in data {
        assert ValueAt(after, p) == Lookup(data, p);
      }
    }
  }

  // ----- whole runs -----

  datatype Round<+V> = Round(cfg: Config, data: map<Path, V>)

  /** What was sampled last for subscription `sid`: by the start, or by a later round of its own. */
  function Latest<V>(first: map<Path, V>, rounds: seq<Round<V>>, sid: int): map<Path, V> {
    if rounds == [] then first
    else
      var last := rounds[|rounds| - 1];
      if last.cfg.sid == sid then last.data else Latest(first, rounds[..|rounds| - 1], sid)
  }

  predicate Sampled<V>(rounds: seq<Round<V>>, sid: int) {
    exists k :: 0 <= k < |rounds| && rounds[k].cfg.sid == sid
  }

  lemma OneMoreRound<V>(first: map<Path, V>, rounds: seq<Round<V>>, k: nat, sid: int)
    requires k < |rounds|
    ensures Latest(first, rounds[..k + 1], sid)
            == if rounds[k].cfg.sid == sid then rounds[k].data else Latest(first, rounds[..k], sid)
    ensures Sampled(rounds[..k + 1], sid) <==> rounds[k].cfg.sid == sid || Sampled(rounds[..k], sid)
  {
    var more := rounds[..k + 1];
    assert more[..k] == rounds[..k] && more[k] == rounds[k];
    if rounds[k].cfg.sid == sid {
      assert more[k].cfg.sid == sid;
    }
    if Sampled(rounds[..k], sid) {
      var i :| 0 <= i < k && rounds[..k][i].cfg.sid == sid;
      assert more[i].cfg.sid == sid;
    }
  }

  lemma MirrorsThenHolds<V>(sent: seq<Notification<V>>, sid: int, leaves: Leaves<V>, data: map<Path, V>)
    requires StoreHolds(leaves, data)
    ensures Mirrors(sent, sid, leaves) <==> ClientHolds(sent, sid, data)
  {
  }

  // ----- what was served -----

  /** One round as it was made: the leaves stored before it, its turns and deletions, and its time. */
  datatype Served<+V> = Served(cfg: Config, data: map<Path, V>, before: Leaves<V>, turns: seq<Turn<V>>, gone: seq<Path>,
                               began: int, ended: int)

  ghost predicate RoundMade<V>(r: Served<V>) {
    && Orderly(r.turns, r.data, r.began, r.ended) && PathsOf(r.turns) == r.data.Keys
    && (set q | q in r.gone) == r.before.Keys - r.data.Keys
  }

  function AfterRound<V(==)>(r: Served<V>): Leaves<V> {
    LeavesAfter(r.cfg, r.before, r.turns) - (r.before.Keys - r.data.Keys)
  }

  /** The leaves stored for a subscription after the rounds of a log, from those it started with. */
  function LeavesNow<V(==)>(first: Leaves<V>, log: seq<Served<V>>, sid: int): Leaves<V> {
    if log == [] then first
    else
      var r := log[|log| - 1];
      if r.cfg.sid == sid then AfterRound(r)
      else LeavesNow(first, log[..|log| - 1], sid)
  }

  function MessagesOf<V(==)>(id: int, r: Served<V>): seq<Notification<V>> {
    UpdatesOf(id, r.cfg, r.before, r.turns) + DeletionsOf(id, r.cfg, r.gone)
  }

  function Messages<V(==)>(id: int, log: seq<Served<V>>): seq<Notification<V>> {
    if log == [] then [] else Messages(id, log[..|log| - 1]) + MessagesOf(id, log[|log| - 1])
  }

  /** The log is of rounds made one after the other, each finding what those before it left. */
  ghost predicate Made<V>(first: map<int, Leaves<V>>, log: seq<Served<V>>) {
    if log == [] then true
    else
      var r, front := log[|log| - 1], log[..|log| - 1];
      && Made(first, front) && RoundMade(r) && r.cfg.sid in first
      && r.before == LeavesNow(first[r.cfg.sid], front, r.cfg.sid)
  }

  /** The round tells the client about the leaf: it was sent, or it had disappeared. */
  ghost predicate Tells<V>(r: Served<V>, p: Path) {
    || (p in r.before && p !in r.data)
    || exists t :: t in r.turns && t.path == p && Sent(r.cfg, r.before, t)
  }

  ghost predicate ToldOf<V>(log: seq<Served<V>>, sid: int, p: Path) {
    exists k :: 0 <= k < |log| && log[k].cfg.sid == sid && Tells(log[k], p)
  }

  lemma ToldOfMore<V>(log: seq<Served<V>>, r: Served<V>, sid: int, p: Path)
    ensures ToldOf(log + [r], sid, p) <==> ToldOf(log, sid, p) || (r.cfg.sid == sid && Tells(r, p))
  {
    var more := log + [r];
    if k :| 0 <= k < |log| && log[k].cfg.sid == sid && Tells(log[k], p) {
      assert more[k] == log[k];
    }
    assert more[|log|] == r;
  }

  /** The client shows a leaf as it is stored. */
  ghost predicate InStep<V>(sent: seq<Notification<V>>, sid: int, leaves: Leaves<V>, p: Path) {
    ClientAt(sent, sid, p) == ValueAt(leaves, p)
  }

  /** A round brings a leaf into step by telling the client about it, and never puts it out of step. */
  lemma RoundInStep<V>(id: int, start: seq<Notification<V>>, r: Served<V>, p: Path)
    requires RoundMade(r)
    ensures InStep(start + MessagesOf(id, r), r.cfg.sid, AfterRound(r), p)
            <==> InStep(start, r.cfg.sid, r.before, p) || Tells(r, p)
  {
    var sid := r.cfg.sid;
    assert start + MessagesOf(id, r)
        == start + UpdatesOf(id, r.cfg, r.before, r.turns) + DeletionsOf(id, r.cfg, r.gone);
    RoundClient(start, id, r.cfg, r.before, r.data, r.turns, r.gone, r.began, r.ended, sid, p);
    RoundStore(r.cfg, r.before, r.data, r.turns, r.began, r.ended);
    assert ValueAt(AfterRound(r), p) == Lookup(r.data, p);
    if p in r.data {
      assert p in PathsOf(r.turns);
      var t :| t in r.turns && t.path == p;
      TurnAlone(r.turns, t);
    }
  }

  lemma TurnAlone<V>(turns: seq<Turn<V>>, t: Turn<V>)
    requires Distinct(turns) && t in turns
    ensures forall u :: u in turns && u.path == t.path ==> u == t
  {
  }

  /** After any rounds a leaf is in step exactly when it was at the start, or the client was told of it since. */
  lemma {:induction false} InStepExactly<V>(id: int, start: seq<Notification<V>>, first: map<int, Leaves<V>>,
                                            log: seq<Served<V>>, sid: int, p: Path)
    requires Made(first, log) && sid in first
    ensures InStep(start + Messages(id, log), sid, LeavesNow(first[sid], log, sid), p)
            <==> InStep(start, sid, first[sid], p) || ToldOf(log, sid, p)
  {
    if log == [] {
      assert start + Messages(id, log) == start;
    } else {
      var front, r := log[..|log| - 1], log[|log| - 1];
      assert log == front + [r];
      MessagesGrow(id, start, log);
      InStepExactly(id, start, first, front, sid, p);
      ToldOfMore(front, r, sid, p);
      if r.cfg.sid == sid {
        RoundInStep(id, start + Messages(id, front), r, p);
      } else {
        RoundElsewhere(id, start + Messages(id, front), r, sid, p);
      }
    }
  }

  ghost predicate Parallel<V>(log: seq<Served<V>>, rounds: seq<Round<V>>) {
    |log| == |rounds| && forall k :: 0 <= k < |log| ==> log[k].cfg == rounds[k].cfg && log[k].data == rounds[k].data
  }

  /** What is stored is the latest sample, once there was one since the start. */
  lemma {:induction false} LatestStored<V>(first: map<int, Leaves<V>>, log: seq<Served<V>>, sample: map<Path, V>,
                                           rounds: seq<Round<V>>, sid: int)
    requires Made(first, log) && sid in first && Parallel(log, rounds)
    ensures Sampled(rounds, sid) ==> StoreHolds(LeavesNow(first[sid], log, sid), Latest(sample, rounds, sid))
    ensures !Sampled(rounds, sid) ==>
              LeavesNow(first[sid], log, sid) == first[sid] && Latest(sample, rounds, sid) == sample
    ensures !Sampled(rounds, sid) ==> forall p :: !ToldOf(log, sid, p)
    decreases |log|
  {
    if log != [] {
      var n := |log| - 1;
      var r := log[n];
      LatestStored(first, log[..n], sample, rounds[..n], sid);
      assert rounds[..n + 1] == rounds;
      OneMoreRound(sample, rounds, n, sid);
      if r.cfg.sid == sid {
        RoundStore(r.cfg, r.before, r.data, r.turns, r.began, r.ended);
      }
      if !Sampled(rounds, sid) {
        forall p ensures !ToldOf(log, sid, p) {
          assert log == log[..n] + [r];
          ToldOfMore(log[..n], r, sid, p);
        }
      }
    }
  }

  /**
   When a client that was sent nothing at the start holds the latest sample: once the subscription was sampled
   again, exactly when every leaf it did not already show was sent, or reported gone, in some round; before
   that, exactly when it showed the first sample already.
   */
  lemma ServedExactly<V>(id: int, start: seq<Notification<V>>, first: map<int, Leaves<V>>, log: seq<Served<V>>,
                         sample: map<Path, V>, rounds: seq<Round<V>>, sid: int)
    requires Made(first, log) && sid in first && Parallel(log, rounds)
    ensures ClientHolds(start + Messages(id, log), sid, Latest(sample, rounds, sid))
            <==> if Sampled(rounds, sid) then forall p :: InStep(start, sid, first[sid], p) || ToldOf(log, sid, p)
                 else ClientHolds(start, sid, sample)
  {
    LatestStored(first, log, sample, rounds, sid);
    var now := start + Messages(id, log);
    forall p ensures InStep(now, sid, LeavesNow(first[sid], log, sid), p)
                     <==> InStep(start, sid, first[sid], p) || ToldOf(log, sid, p)
    {
      InStepExactly(id, start, first, log, sid, p);
    }
    if Sampled(rounds, sid) {
      HoldsByLeaf(now, sid, LeavesNow(first[sid], log, sid), Latest(sample, rounds, sid));
    } else {
      forall p ensures ClientAt(now, sid, p) == ClientAt(start, sid, p) {
        NoneSampled(log, rounds, sid);
        Elsewhere(id, start, first, log, sid, p);
      }
    }
  }

  lemma NoneSampled<V>(log: seq<Served<V>>, rounds: seq<Round<V>>, sid: int)
    requires Parallel(log, rounds) && !Sampled(rounds, sid)
    ensures Without(log, sid)
  {
  }

  lemma HoldsByLeaf<V>(sent: seq<Notification<V>>, sid: int, leaves: Leaves<V>, data: map<Path, V>)
    requires StoreHolds(leaves, data)
    ensures ClientHolds(sent, sid, data) <==> forall p :: InStep(sent, sid, leaves, p)
  {
    forall p ensures InStep(sent, sid, leaves, p) <==> ClientAt(sent, sid, p) == Lookup(data, p) {
      assert ValueAt(leaves, p) == Lookup(data, p);
    }
  }

  ghost predicate Without<V>(log: seq<Served<V>>, sid: int) {
    forall k :: 0 <= k < |log| ==> log[k].cfg.sid != sid
  }

  /** What a subscription's client shows does not depend on the rounds of the others. */
  lemma {:induction false} Elsewhere<V>(id: int, start: seq<Notification<V>>, first: map<int, Leaves<V>>,
                                        log: seq<Served<V>>, sid: int, p: Path)
    requires Made(first, log) && Without(log, sid)
    ensures ClientAt(start + Messages(id, log), sid, p) == ClientAt(start, sid, p)
  {
    if log == [] {
      assert start + Messages(id, log) == start;
    } else {
      var front, r := log[..|log| - 1], log[|log| - 1];
      var sofar := start + Messages(id, front);
      MessagesGrow(id, start, log);
      assert r.cfg.sid != sid;
      RoundElsewhere(id, sofar, r, sid, p);
      Elsewhere(id, start, first, front, sid, p);
    }
  }

  lemma MessagesGrow<V>(id: int, start: seq<Notification<V>>, log: seq<Served<V>>)
    requires log != []
    ensures start + Messages(id, log)
            == start + Messages(id, log[..|log| - 1]) + MessagesOf(id, log[|log| - 1])
  {
  }

  lemma RoundElsewhere<V>(id: int, start: seq<Notification<V>>, r: Served<V>, sid: int, p: Path)
    requires RoundMade(r) && sid != r.cfg.sid
    ensures ClientAt(start + MessagesOf(id, r), sid, p) == ClientAt(start, sid, p)
  {
    assert start + MessagesOf(id, r)
        == start + UpdatesOf(id, r.cfg, r.before, r.turns) + DeletionsOf(id, r.cfg, r.gone);
    RoundClient(start, id, r.cfg, r.before, r.data, r.turns, r.gone, r.began, r.ended, sid, p);
  }

  /** A stored leaf that the client is not told of stays stored. */
  lemma {:induction false} StillStored<V>(first: map<int, Leaves<V>>, log: seq<Served<V>>, sid: int, p: Path)
    requires Made(first, log) && sid in first && p in first[sid] && !ToldOf(log, sid, p)
    ensures p in LeavesNow(first[sid], log, sid)
  {
    if log != [] {
      var front, r := log[..|log| - 1], log[|log| - 1];
      assert log == front + [r];
      ToldOfMore(front, r, sid, p);
      StillStored(first, front, sid, p);
      if r.cfg.sid == sid {
        RoundStore(r.cfg, r.before, r.data, r.turns, r.began, r.ended);
        assert ValueAt(AfterRound(r), p) == Lookup(r.data, p);
      }
    }
  }

  /** One round without suppression tells an updates-only client of everything it was not sent at the start. */
  lemma PlainRoundCatchesUp<V>(first: map<int, Leaves<V>>, log: seq<Served<V>>, r: Served<V>, p: Path)
    requires Made(first, log + [r]) && !r.cfg.onChange && !r.cfg.suppress && p in first[r.cfg.sid]
    ensures ToldOf(log + [r], r.cfg.sid, p)
  {
    assert (log + [r])[..|log|] == log;
    ToldOfMore(log, r, r.cfg.sid, p);
    if !ToldOf(log, r.cfg.sid, p) {
      StillStored(first, log, r.cfg.sid, p);
      if p in r.data {
        assert p in PathsOf(r.turns);
      }
    }
  }

  /** The round finds the leaf with the value, under suppression without a heartbeat. */
  predicate HoldsBack<V(==)>(r: Served<V>, p: Path, value: V) {
    (r.cfg.onChange || r.cfg.suppress) && r.cfg.heartbeat <= 0 && Lookup(r.data, p) == Some(value)
  }

  /** A leaf stored at the start that only such rounds find is never told to an updates-only client. */
  lemma {:induction false} NeverCaughtUp<V>(first: map<int, Leaves<V>>, log: seq<Served<V>>, sid: int, p: Path)
    requires Made(first, log) && sid in first && p in first[sid]
    requires forall k :: 0 <= k < |log| && log[k].cfg.sid == sid ==> HoldsBack(log[k], p, first[sid][p].value)
    ensures !ToldOf(log, sid, p) && ValueAt(LeavesNow(first[sid], log, sid), p) == Some(first[sid][p].value)
  {
    if log != [] {
      var front, r := log[..|log| - 1], log[|log| - 1];
      assert log == front + [r];
      NeverCaughtUp(first, front, sid, p);
      ToldOfMore(front, r, sid, p);
      if r.cfg.sid == sid {
        RoundStore(r.cfg, r.before, r.data, r.turns, r.began, r.ended);
        assert ValueAt(AfterRound(r), p) == Lookup(r.data, p);
      }
    }
  }

  /** `first` is what merging the sample into the leaves stored before comes to. */
  ghost predicate Merged<V>(before: Leaves<V>, first: Leaves<V>, sample: map<Path, V>) {
    forall p :: ValueAt(first, p) == if p in sample then Some(sample[p]) else ValueAt(before, p)
  }

  /** For instance: a leaf stored before a restart that samples nothing is still stored after it. */
  lemma StaleForInstance<V>(p: Path, s: Sample<V>)
    ensures Merged(map[p := s], map[p := s], map[]) && !StoreHolds(map[p := s], map[])
  {
    assert ValueAt(map[p := s], p) != Lookup(map[], p);
  }

  /** The leaves are the latest sample. */
  ghost predicate StoredWhen<V>(leaves: Leaves<V>, before: Leaves<V>, sample: map<Path, V>, rounds: seq<Round<V>>,
                                sid: int)
  {
    StoreHolds(leaves, Latest(sample, rounds, sid)) <==> Sampled(rounds, sid) || before.Keys <= sample.Keys
  }

  /** The same for a client that was sent everything stored when it started. */
  ghost predicate ShownWhen<V>(sent: seq<Notification<V>>, before: Leaves<V>, sample: map<Path, V>, rounds: seq<Round<V>>,
                               sid: int)
  {
    ClientHolds(sent, sid, Latest(sample, rounds, sid)) <==> Sampled(rounds, sid) || before.Keys <= sample.Keys
  }

  /** And for an updates-only client, which showed `was` and then was sent nothing at the start. */
  ghost predicate CaughtUpWhen<V>(sent: seq<Notification<V>>, was: seq<Notification<V>>, first: Leaves<V>,
                                  log: seq<Served<V>>, sample: map<Path, V>, rounds: seq<Round<V>>, sid: int)
  {
    ClientHolds(sent, sid, Latest(sample, rounds, sid))
    <==> if Sampled(rounds, sid) then forall p :: InStep(was, sid, first, p) || ToldOf(log, sid, p)
         else ClientHolds(was, sid, sample)
  }

  lemma StoredExactly<V>(first: map<int, Leaves<V>>, log: seq<Served<V>>, before: Leaves<V>, sample: map<Path, V>,
                         rounds: seq<Round<V>>, sid: int)
    requires Made(first, log) && sid in first && Parallel(log, rounds) && Merged(before, first[sid], sample)
    ensures StoredWhen(LeavesNow(first[sid], log, sid), before, sample, rounds, sid)
  {
    LatestStored(first, log, sample, rounds, sid);
    MergeHolds(before, first[sid], sample);
  }

  lemma StartMirrors<V>(was: seq<Notification<V>>, start: seq<Notification<V>>, before: Leaves<V>, first: Leaves<V>,
                        sample: map<Path, V>, sid: int)
    requires Merged(before, first, sample) && forall p :: p !in before ==> ClientAt(was, sid, p) == None
    requires forall p :: ClientAt(start, sid, p) == if p in first then ValueAt(first, p) else ClientAt(was, sid, p)
    ensures Mirrors(start, sid, first)
  {
    forall p ensures ClientAt(start, sid, p) == ValueAt(first, p) {
      if p !in first {
        assert ValueAt(first, p) == None && p !in before;
      }
    }
  }

  /** A client that was sent everything stored. */
  lemma FullClient<V>(id: int, start: seq<Notification<V>>, first: map<int, Leaves<V>>, log: seq<Served<V>>,
                      before: Leaves<V>, sample: map<Path, V>, rounds: seq<Round<V>>, sid: int)
    requires Made(first, log) && sid in first && Parallel(log, rounds) && Merged(before, first[sid], sample)
    requires Mirrors(start, sid, first[sid])
    ensures ShownWhen(start + Messages(id, log), before, sample, rounds, sid)
  {
    ServedExactly(id, start, first, log, sample, rounds, sid);
    MergeHolds(before, first[sid], sample);
    forall p ensures InStep(start, sid, first[sid], p) {
    }
    MirroredHolds(start, sid, first[sid], sample);
  }

  lemma MirroredHolds<V>(sent: seq<Notification<V>>, sid: int, leaves: Leaves<V>, data: map<Path, V>)
    requires Mirrors(sent, sid, leaves)
    ensures ClientHolds(sent, sid, data) <==> StoreHolds(leaves, data)
  {
    forall p ensures ClientAt(sent, sid, p) == ValueAt(leaves, p) {
    }
  }

  /** A client that was sent nothing of it at the start. */
  lemma QuietClient<V>(id: int, was: seq<Notification<V>>, start: seq<Notification<V>>, first: map<int, Leaves<V>>,
                       log: seq<Served<V>>, sample: map<Path, V>, rounds: seq<Round<V>>, sid: int)
    requires Made(first, log) && sid in first && Parallel(log, rounds)
    requires forall p :: ClientAt(start, sid, p) == ClientAt(was, sid, p)
    ensures CaughtUpWhen(start + Messages(id, log), was, first[sid], log, sample, rounds, sid)
  {
    ServedExactly(id, start, first, log, sample, rounds, sid);
    forall p ensures InStep(start, sid, first[sid], p) <==> InStep(was, sid, first[sid], p) {
    }
  }

  lemma MadeMore<V>(id: int, first: map<int, Leaves<V>>, log: seq<Served<V>>, r: Served<V>)
    requires Made(first, log) && RoundMade(r) && r.cfg.sid in first
    requires r.before == LeavesNow(first[r.cfg.sid], log, r.cfg.sid)
    ensures Made(first, log + [r]) && Messages(id, log + [r]) == Messages(id, log) + MessagesOf(id, r)
    ensures forall s :: s in first ==>
              LeavesNow(first[s], log + [r], s)
              == if s == r.cfg.sid then AfterRound(r) else LeavesNow(first[s], log, s)
  {
    assert (log + [r])[..|log|] == log;
  }

  // ----- heartbeats -----

  /** One leaf's turns over consecutive rounds that all found it, none looking before the last had stored. */
  ghost predicate Timeline<V>(turns: seq<Turn<V>>) {
    && (forall k :: 0 <= k < |turns| ==> turns[k].check <= turns[k].stamp)
    && (forall k :: 0 < k < |turns| ==> turns[k - 1].stamp <= turns[k].check)
  }

  /** What the store has for the leaf before turn `k`. */
  function LeafBefore<V(==)>(cfg: Config, first: Option<Sample<V>>, turns: seq<Turn<V>>, k: nat): Option<Sample<V>>
    requires k <= |turns|
  {
    if k == 0 then first
    else
      var t := turns[k - 1];
      Some(LeafAfter(cfg, LeafBefore(cfg, first, turns, k - 1), t.value, t.check, t.stamp))
  }

  predicate SentAt<V(==)>(cfg: Config, first: Option<Sample<V>>, turns: seq<Turn<V>>, k: nat)
    requires k < |turns|
  {
    ShouldSend(cfg, LeafBefore(cfg, first, turns, k), turns[k].value, turns[k].check)
  }

  /** After a round a leaf under heartbeat was stored at most a heartbeat before the round looked at it. */
  lemma FreshEnough<V>(cfg: Config, prev: Option<Sample<V>>, value: V, check: int, stamp: int)
    requires cfg.heartbeat > 0 && check <= stamp
    ensures (cfg.onChange || cfg.suppress) ==> check - LeafAfter(cfg, prev, value, check, stamp).updateTime <= cfg.heartbeat
  {
  }

  /** A value the leaf was sent with is what the store keeps until the next one is sent. */
  lemma {:induction false} KeptUntilSent<V>(cfg: Config, first: Option<Sample<V>>, turns: seq<Turn<V>>, i: nat, j: nat)
    requires i < j <= |turns| && SentAt(cfg, first, turns, i)
    requires forall k :: i < k < j ==> !SentAt(cfg, first, turns, k)
    ensures LeafBefore(cfg, first, turns, j) == Some(Sample(turns[i].value, turns[i].stamp))
    decreases j
  {
    if j > i + 1 {
      KeptUntilSent(cfg, first, turns, i, j - 1);
      assert !SentAt(cfg, first, turns, j - 1);
    }
  }

  /** The leaf is sent again at most a heartbeat and one sampling period after it was stored. */
  lemma HeartbeatBeats<V>(cfg: Config, first: Option<Sample<V>>, turns: seq<Turn<V>>, i: nat, j: nat, period: int)
    requires cfg.heartbeat > 0 && Timeline(turns) && i < j <= |turns| && SentAt(cfg, first, turns, i)
    requires forall k :: i < k < j ==> !SentAt(cfg, first, turns, k)
    requires forall k :: 0 < k < |turns| ==> turns[k].check - turns[k - 1].check <= period
    ensures j < |turns| ==> turns[j].check - turns[i].stamp <= cfg.heartbeat + period
    ensures turns[j - 1].check - turns[i].stamp <= cfg.heartbeat
  {
    if j - 1 > i {
      KeptUntilSent(cfg, first, turns, i, j - 1);
      assert !SentAt(cfg, first, turns, j - 1);
    }
  }

  /** An unchanged value is repeated only after a heartbeat has run out; without one it never is. */
  lemma RepeatsOnlyOnHeartbeat<V>(cfg: Config, first: Option<Sample<V>>, turns: seq<Turn<V>>, i: nat, j: nat)
    requires cfg.onChange || cfg.suppress
    requires i < j < |turns| && SentAt(cfg, first, turns, i) && SentAt(cfg, first, turns, j)
    requires forall k :: i < k < j ==> !SentAt(cfg, first, turns, k)
    requires turns[i].value == turns[j].value
    ensures cfg.heartbeat > 0 && turns[j].check - turns[i].stamp > cfg.heartbeat
  {
    KeptUntilSent(cfg, first, turns, i, j);
  }

  /** One round of a subscription: what it sampled, its turns, and when it began and ended. */
  datatype Sampling<+V> = Sampling(data: map<Path, V>, turns: seq<Turn<V>>, began: int, ended: int)

  /** Rounds one after the other, each as `SampleAndNotify` makes it. */
  ghost predicate Consecutive<V>(rounds: seq<Sampling<V>>) {
    && (forall k :: 0 <= k < |rounds| ==>
          Orderly(rounds[k].turns, rounds[k].data, rounds[k].began, rounds[k].ended)
          && PathsOf(rounds[k].turns) == rounds[k].data.Keys)
    && (forall k :: 0 < k < |rounds| ==> rounds[k - 1].ended <= rounds[k].began)
  }

  /** The leaves stored before round `k`. */
  function LeavesAt<V(==)>(cfg: Config, first: Leaves<V>, rounds: seq<Sampling<V>>, k: nat): Leaves<V>
    requires k <= |rounds|
  {
    if k == 0 then first
    else
      var before := LeavesAt(cfg, first, rounds, k - 1);
      LeavesAfter(cfg, before, rounds[k - 1].turns) - (before.Keys - rounds[k - 1].data.Keys)
  }

  ghost function TurnAt<V>(rounds: seq<Sampling<V>>, k: nat, p: Path): (t: Turn<V>)
    requires Consecutive(rounds) && k < |rounds| && p in rounds[k].data
    ensures t in rounds[k].turns && t.path == p
  {
    assert p in PathsOf(rounds[k].turns);
    var t :| t in rounds[k].turns && t.path == p;
    t
  }

  ghost predicate Present<V>(rounds: seq<Sampling<V>>, p: Path) {
    forall k :: 0 <= k < |rounds| ==> p in rounds[k].data
  }

  /** A leaf that every round finds: its turns. */
  ghost function TurnsOf<V>(rounds: seq<Sampling<V>>, p: Path): (turns: seq<Turn<V>>)
    requires Consecutive(rounds) && Present(rounds, p)
    ensures |turns| == |rounds| && forall k :: 0 <= k < |rounds| ==> turns[k] == TurnAt(rounds, k, p)
  {
    seq(|rounds|, k requires 0 <= k < |rounds| => TurnAt(rounds, k, p))
  }

  /** Round `k` leaves the leaf as the turn says. */
  ghost predicate TurnTaken<V>(cfg: Config, first: Leaves<V>, rounds: seq<Sampling<V>>, p: Path, t: Turn<V>, k: int) {
    && 0 <= k < |rounds|
    && Prev(LeavesAt(cfg, first, rounds, k + 1), p)
       == Some(LeafAfter(cfg, Prev(LeavesAt(cfg, first, rounds, k), p), t.value, t.check, t.stamp))
  }

  lemma {:induction false} TurnsLead<V>(cfg: Config, first: Leaves<V>, rounds: seq<Sampling<V>>, p: Path,
                                        turns: seq<Turn<V>>, k: nat)
    requires k <= |turns| == |rounds| && forall j :: 0 <= j < |turns| ==> TurnTaken(cfg, first, rounds, p, turns[j], j)
    ensures Prev(LeavesAt(cfg, first, rounds, k), p) == LeafBefore(cfg, Prev(first, p), turns, k)
  {
    if k > 0 {
      TurnsLead(cfg, first, rounds, p, turns, k - 1);
      LeafTurns(cfg, Prev(first, p), turns, k - 1);
      assert TurnTaken(cfg, first, rounds, p, turns[k - 1], k - 1);
    }
  }

  /** Whatever the other leaves do, each leaf lives its own timeline. */
  lemma LeafTimeline<V>(cfg: Config, first: Leaves<V>, rounds: seq<Sampling<V>>, p: Path, k: nat)
    requires Consecutive(rounds) && Present(rounds, p) && k <= |rounds|
    ensures Prev(LeavesAt(cfg, first, rounds, k), p) == LeafBefore(cfg, Prev(first, p), TurnsOf(rounds, p), k)
  {
    var turns := TurnsOf(rounds, p);
    forall j | 0 <= j < |turns| ensures TurnTaken(cfg, first, rounds, p, turns[j], j) {
      TimelineStep(cfg, first, rounds, p, j);
    }
    TurnsLead(cfg, first, rounds, p, turns, k);
  }

  lemma TimelineStep<V>(cfg: Config, first: Leaves<V>, rounds: seq<Sampling<V>>, p: Path, k: nat)
    requires Consecutive(rounds) && k < |rounds| && p in rounds[k].data
    ensures var t := TurnAt(rounds, k, p);
            TurnTaken(cfg, first, rounds, p, t, k)
  {
    LeafOfRound(cfg, LeavesAt(cfg, first, rounds, k), rounds[k], TurnAt(rounds, k, p));
  }

  lemma LeafTurns<V>(cfg: Config, first: Option<Sample<V>>, turns: seq<Turn<V>>, k: nat)
    requires k < |turns|
    ensures LeafBefore(cfg, first, turns, k + 1)
            == Some(LeafAfter(cfg, LeafBefore(cfg, first, turns, k), turns[k].value, turns[k].check, turns[k].stamp))
  {
  }

  lemma LeafOfRound<V>(cfg: Config, before: Leaves<V>, r: Sampling<V>, t: Turn<V>)
    requires Orderly(r.turns, r.data, r.began, r.ended) && PathsOf(r.turns) == r.data.Keys && t in r.turns
    ensures Prev(LeavesAfter(cfg, before, r.turns) - (before.Keys - r.data.Keys), t.path)
            == Some(LeafAfter(cfg, Prev(before, t.path), t.value, t.check, t.stamp))
  {
    RoundStore(cfg, before, r.data, r.turns, r.began, r.ended);
  }

  lemma TurnsInOrder<V>(rounds: seq<Sampling<V>>, p: Path)
    requires Consecutive(rounds) && Present(rounds, p)
    ensures Timeline(TurnsOf(rounds, p))
  {
    forall k | 0 <= k < |rounds|
      ensures rounds[k].began <= TurnAt(rounds, k, p).check <= TurnAt(rounds, k, p).stamp <= rounds[k].ended
    {
      assert TurnAt(rounds, k, p) in rounds[k].turns;
    }
  }

  /** Round `k` sends an update for the leaf. */
  ghost predicate SendsAt<V>(cfg: Config, first: Leaves<V>, rounds: seq<Sampling<V>>, p: Path, k: nat)
    requires Consecutive(rounds) && Present(rounds, p) && k < |rounds|
  {
    Sent(cfg, LeavesAt(cfg, first, rounds, k), TurnAt(rounds, k, p))
  }

  /**
   Over any consecutive rounds that find a leaf, two of them sending it and none between: if every round ends
   within `period` of the beginning of the one before, the leaf is sent again within a heartbeat and a period;
   and a repeat of an unchanged value waits for the heartbeat.
   */
  lemma HeartbeatOverRounds<V>(cfg: Config, first: Leaves<V>, rounds: seq<Sampling<V>>, p: Path, i: nat, j: nat,
                               period: int)
    requires Consecutive(rounds) && Present(rounds, p) && i < j < |rounds|
    requires (cfg.onChange || cfg.suppress) && cfg.heartbeat > 0
    requires SendsAt(cfg, first, rounds, p, i) && SendsAt(cfg, first, rounds, p, j)
    requires forall k :: i < k < j ==> !SendsAt(cfg, first, rounds, p, k)
    requires forall k :: 0 < k < |rounds| ==> rounds[k].ended - rounds[k - 1].began <= period
    ensures TurnAt(rounds, j, p).check - TurnAt(rounds, i, p).stamp <= cfg.heartbeat + period
    ensures TurnAt(rounds, i, p).value == TurnAt(rounds, j, p).value ==>
              TurnAt(rounds, j, p).check - TurnAt(rounds, i, p).stamp > cfg.heartbeat
  {
    var turns, before := TurnsOf(rounds, p), Prev(first, p);
    TurnsInOrder(rounds, p);
    forall k | 0 <= k < |rounds| ensures SentAt(cfg, before, turns, k) <==> SendsAt(cfg, first, rounds, p, k) {
      LeafTimeline(cfg, first, rounds, p, k);
      assert turns[k] == TurnAt(rounds, k, p);
    }
    forall k | 0 < k < |turns| ensures turns[k].check - turns[k - 1].check <= period {
      assert TurnAt(rounds, k, p) in rounds[k].turns && TurnAt(rounds, k - 1, p) in rounds[k - 1].turns;
    }
    HeartbeatBeats(cfg, before, turns, i, j, period);
    if turns[i].value == turns[j].value {
      RepeatsOnlyOnHeartbeat(cfg, before, turns, i, j);
    }
  }

  lemma OneLess<T>(all: set<T>, todo: set<T>, x: T)
    requires todo <= all && x in todo
    ensures all - (todo - {x}) == (all - todo) + {x} && x !in all - todo
  {
  }

  // ----- the subscription -----

  class StreamSubscription<V(==,!new)> {
    const id: int
    const configs: seq<Config>
    const updatesOnly: bool
    const store: InMemoryTelemetryStore<V>
    var sent: seq<Notification<V>>
    var clock: int

    constructor (id: int, configs: seq<Config>, updatesOnly: bool, store: InMemoryTelemetryStore<V>)
      ensures this.id == id && this.configs == configs && this.updatesOnly == updatesOnly && this.store == store
      ensures sent == []
    {
      this.id, this.configs, this.updatesOnly, this.store := id, configs, updatesOnly, store;
      sent := [];
      clock := 0;
    }

    /** The wall clock: never before what it last showed. */
    method Now() returns (t: int)
      modifies this`clock
      ensures t == clock && old(clock) <= clock
    {
      t :| t >= clock;
      clock := t;
    }

    method Send(n: Notification<V>)
      modifies this`sent
      ensures sent == old(sent) + [n]
    {
      sent := sent + [n];
    }

    /** `_retrieve_current_data` for one subscription: every sampled leaf is stored, none is removed. */
    method Retrieve(sid: int, data: map<Path, V>)
      requires store.Valid()
      modifies store, this`clock
      ensures store.Valid() && old(clock) <= clock
      ensures forall path :: ValueAt(store.Inner(id, sid), path)
                             == if path in data then Some(data[path]) else ValueAt(old(store.Inner(id, sid)), path)
      ensures forall r, s :: r != id || s != sid ==> store.Inner(r, s) == old(store.Inner(r, s))
    {
      var todo := data.Keys;
      while todo != {}
        invariant store.Valid() && todo <= data.Keys && old(clock) <= clock
        invariant forall path :: ValueAt(store.Inner(id, sid), path)
                                 == if path in data && path !in todo then Some(data[path])
                                    else ValueAt(old(store.Inner(id, sid)), path)
        invariant forall r, s :: r != id || s != sid ==> store.Inner(r, s) == old(store.Inner(r, s))
        decreases |todo|
      {
        var path :| path in todo;
        todo := todo - {path};
        var now := Now();
        store.Set(id, sid, path, data[path], now);
      }
    }

    /** `_send_current_data` for one subscription: an update for every stored leaf. */
    method SendCurrent(sid: int)
      requires store.Valid()
      modifies this`sent
      ensures old(sent) <= sent
      ensures forall s, path :: ClientAt(sent, s, path)
                                == if s == sid && path in store.Inner(id, sid) then ValueAt(store.Inner(id, sid), path)
                                   else ClientAt(old(sent), s, path)
    {
      var leaves := store.Inner(id, sid);
      var todo := leaves.Keys;
      while todo != {}
        invariant todo <= leaves.Keys && old(sent) <= sent
        invariant forall s, path :: ClientAt(sent, s, path)
                                    == if s == sid && path in leaves && path !in todo then ValueAt(leaves, path)
                                       else ClientAt(old(sent), s, path)
        decreases |todo|
      {
        var path :| path in todo;
        todo := todo - {path};
        var n := Update(id, sid, path, leaves[path].value);
        forall s, p {
          Told(sent, n, s, p);
        }
        Send(n);
      }
    }

    ghost function Sids(): set<int> {
      set c | c in configs :: c.sid
    }

    method RetrieveAll(samples: map<int, map<Path, V>>)
      requires store.Valid() && Sids() <= samples.Keys
      modifies store, this`clock
      ensures store.Valid()
      ensures forall s, path :: s in Sids() ==>
                ValueAt(store.Inner(id, s), path)
                == if path in samples[s] then Some(samples[s][path]) else ValueAt(old(store.Inner(id, s)), path)
      ensures forall r, s :: r != id || s !in Sids() ==> store.Inner(r, s) == old(store.Inner(r, s))
    {
      ghost var done: set<int> := {};
      for k := 0 to |configs|
        invariant store.Valid()
        invariant done == set c | c in configs[..k] :: c.sid
        invariant forall s, path :: s in done ==>
                    s in samples
                    && ValueAt(store.Inner(id, s), path)
                       == if path in samples[s] then Some(samples[s][path]) else ValueAt(old(store.Inner(id, s)), path)
        invariant forall r, s :: r != id || s !in done ==> store.Inner(r, s) == old(store.Inner(r, s))
      {
        var sid := configs[k].sid;
        assert configs[k] in configs && sid in Sids();
        assert configs[..k + 1] == configs[..k] + [configs[k]];
        Retrieve(sid, samples[sid]);
        done := done + {sid};
      }
      assert configs[..|configs|] == configs;
    }

    method SendAll()
      requires store.Valid()
      modifies this`sent
      ensures old(sent) <= sent
      ensures forall s, path :: ClientAt(sent, s, path)
                                == if s in Sids() && path in store.Inner(id, s) then ValueAt(store.Inner(id, s), path)
                                   else ClientAt(old(sent), s, path)
    {
      ghost var done: set<int> := {};
      for k := 0 to |configs|
        invariant old(sent) <= sent
        invariant done == set c | c in configs[..k] :: c.sid
        invariant forall s, path :: ClientAt(sent, s, path)
                                    == if s in done && path in store.Inner(id, s) then ValueAt(store.Inner(id, s), path)
                                       else ClientAt(old(sent), s, path)
      {
        assert configs[..k + 1] == configs[..k] + [configs[k]];
        SendCurrent(configs[k].sid);
        done := done + {configs[k].sid};
      }
      assert configs[..|configs|] == configs;
    }

    method SendSync()
      modifies this`sent
      ensures sent == old(sent) + [SyncResponse(id)]
      ensures forall s, path :: ClientAt(sent, s, path) == ClientAt(old(sent), s, path)
    {
      var n: Notification<V> := SyncResponse(id);
      forall s, p {
        Told(sent, n, s, p);
      }
      Send(n);
    }

    /**
     `Subscription.start`: sampled leaves are merged into the store; unless updates-only, the client is
     sent everything the store then has; a sync response closes.
     */
    method Start(samples: map<int, map<Path, V>>)
      requires store.Valid() && Sids() <= samples.Keys
      modifies store, this`sent, this`clock
      ensures store.Valid()
      ensures forall s, path :: s in Sids() ==>
                ValueAt(store.Inner(id, s), path)
                == if path in samples[s] then Some(samples[s][path]) else ValueAt(old(store.Inner(id, s)), path)
      ensures forall r, s :: r != id || s !in Sids() ==> store.Inner(r, s) == old(store.Inner(r, s))
      ensures forall s, path :: ClientAt(sent, s, path)
                                == if !updatesOnly && s in Sids() && path in store.Inner(id, s)
                                   then ValueAt(store.Inner(id, s), path) else ClientAt(old(sent), s, path)
      ensures sent != [] && sent[|sent| - 1] == SyncResponse(id)
    {
      RetrieveAll(samples);
      if !updatesOnly {
        SendAll();
      }
      SendSync();
    }

    /** `PollSubscription.poll_cb`: like a start, whatever updates-only says. */
    method Poll(samples: map<int, map<Path, V>>)
      requires store.Valid() && Sids() <= samples.Keys
      modifies store, this`sent, this`clock
      ensures store.Valid()
      ensures forall s, path :: s in Sids() ==>
                ValueAt(store.Inner(id, s), path)
                == if path in samples[s] then Some(samples[s][path]) else ValueAt(old(store.Inner(id, s)), path)
      ensures forall r, s :: r != id || s !in Sids() ==> store.Inner(r, s) == old(store.Inner(r, s))
      ensures forall s, path :: ClientAt(sent, s, path)
                                == if s in Sids() && path in store.Inner(id, s)
                                   then ValueAt(store.Inner(id, s), path) else ClientAt(old(sent), s, path)
      ensures sent != [] && sent[|sent| - 1] == SyncResponse(id)
    {
      RetrieveAll(samples);
      SendAll();
      SendSync();
    }

    /** The first loop of `_sample_and_notify`: created or updated leaves. */
    method UpdateLeaves(cfg: Config, data: map<Path, V>) returns (ghost turns: seq<Turn<V>>)
      requires store.Valid()
      modifies store, this`sent, this`clock
      ensures store.Valid() && old(clock) <= clock
      ensures Orderly(turns, data, old(clock), clock) && PathsOf(turns) == data.Keys
      ensures store.Inner(id, cfg.sid) == LeavesAfter(cfg, old(store.Inner(id, cfg.sid)), turns)
      ensures forall r, s :: r != id || s != cfg.sid ==> store.Inner(r, s) == old(store.Inner(r, s))
      ensures sent == old(sent) + UpdatesOf(id, cfg, old(store.Inner(id, cfg.sid)), turns)
    {
      ghost var before := store.Inner(id, cfg.sid);
      turns := [];
      var todo := data.Keys;
      while todo != {}
        invariant todo <= data.Keys && PathsOf(turns) == data.Keys - todo
        invariant store.Valid() && old(clock) <= clock && Orderly(turns, data, old(clock), clock)
        invariant store.Inner(id, cfg.sid) == LeavesAfter(cfg, before, turns)
        invariant forall r, s :: r != id || s != cfg.sid ==> store.Inner(r, s) == old(store.Inner(r, s))
        invariant sent == old(sent) + UpdatesOf(id, cfg, before, turns)
        decreases |todo|
      {
        var path :| path in todo;
        OneLess(data.Keys, todo, path);
        todo := todo - {path};
        turns := UpdateOne(cfg, data, path, before, turns, old(clock), old(sent));
      }
    }

    /** One turn of that loop. */
    method UpdateOne(cfg: Config, data: map<Path, V>, path: Path, ghost before: Leaves<V>, ghost turns: seq<Turn<V>>,
                     ghost from_: int, ghost start: seq<Notification<V>>)
        returns (ghost more: seq<Turn<V>>)
      requires store.Valid() && path in data && path !in PathsOf(turns)
      requires from_ <= clock && Orderly(turns, data, from_, clock)
      requires store.Inner(id, cfg.sid) == LeavesAfter(cfg, before, turns)
      requires sent == start + UpdatesOf(id, cfg, before, turns)
      modifies store, this`sent, this`clock
      ensures store.Valid() && old(clock) <= clock && turns <= more
      ensures Orderly(more, data, from_, clock) && PathsOf(more) == PathsOf(turns) + {path}
      ensures store.Inner(id, cfg.sid) == LeavesAfter(cfg, before, more)
      ensures forall r, s :: r != id || s != cfg.sid ==> store.Inner(r, s) == old(store.Inner(r, s))
      ensures sent == start + UpdatesOf(id, cfg, before, more)
    {
      var value := data[path];
      var check := Now();
      var prev := store.Get(id, cfg.sid, path);
      LeafByTurn(cfg, before, turns, path);
      ghost var t := Turn(path, value, check, check);
      if ShouldSend(cfg, prev, value, check) {
        var stamp := Now();
        store.Set(id, cfg.sid, path, value, stamp);
        Send(Update(id, cfg.sid, path, value));
        t := Turn(path, value, check, stamp);
      }
      OneMoreTurn(turns, t, data, from_, old(clock), clock);
      UpdatesGrow(id, cfg, before, turns, t, start);
      LeavesGrow(cfg, before, turns, t);
      more := turns + [t];
    }

    /** Its second loop: the leaves no longer sampled. */
    method DeleteLeaves(cfg: Config, stale: set<Path>) returns (ghost gone: seq<Path>)
      requires store.Valid()
      modifies store, this`sent
      ensures store.Valid() && (set p | p in gone) == stale
      ensures store.Inner(id, cfg.sid) == old(store.Inner(id, cfg.sid)) - stale
      ensures forall r, s :: r != id || s != cfg.sid ==> store.Inner(r, s) == old(store.Inner(r, s))
      ensures sent == old(sent) + DeletionsOf(id, cfg, gone)
    {
      ghost var before := store.Inner(id, cfg.sid);
      gone := [];
      var todo := stale;
      while todo != {}
        invariant todo <= stale && (set p | p in gone) == stale - todo && store.Valid()
        invariant store.Inner(id, cfg.sid) == before - (set p | p in gone)
        invariant forall r, s :: r != id || s != cfg.sid ==> store.Inner(r, s) == old(store.Inner(r, s))
        invariant sent == old(sent) + DeletionsOf(id, cfg, gone)
        decreases |todo|
      {
        var path :| path in todo;
        todo := todo - {path};
        DeleteOne(cfg, path, before, gone, old(sent));
        gone := gone + [path];
      }
    }

    /** One turn of that one. */
    method DeleteOne(cfg: Config, path: Path, ghost before: Leaves<V>, ghost gone: seq<Path>,
                     ghost start: seq<Notification<V>>)
      requires store.Valid() && store.Inner(id, cfg.sid) == before - (set p | p in gone)
      requires sent == start + DeletionsOf(id, cfg, gone)
      modifies store, this`sent
      ensures store.Valid() && (set p | p in gone + [path]) == (set p | p in gone) + {path}
      ensures store.Inner(id, cfg.sid) == before - (set p | p in gone + [path])
      ensures forall r, s :: r != id || s != cfg.sid ==> store.Inner(r, s) == old(store.Inner(r, s))
      ensures sent == start + DeletionsOf(id, cfg, gone + [path])
    {
      var _ := store.Delete(id, cfg.sid, path);
      Send(Deletion(id, cfg.sid, path));
      assert (gone + [path])[..|gone|] == gone;
    }

    /**
     `_sample_and_notify`: one round over the leaves `data` just read for a subscription. The store then
     holds exactly the sample; a client that mirrored the store does too, and nobody else is touched. What is
     sent is what was due.
     */
    method SampleAndNotify(cfg: Config, data: map<Path, V>) returns (ghost turns: seq<Turn<V>>, ghost gone: seq<Path>)
      requires store.Valid()
      modifies store, this`sent, this`clock
      ensures store.Valid() && old(clock) <= clock
      ensures Orderly(turns, data, old(clock), clock) && PathsOf(turns) == data.Keys
      ensures (set p | p in gone) == old(store.Inner(id, cfg.sid)).Keys - data.Keys
      ensures sent == old(sent) + UpdatesOf(id, cfg, old(store.Inner(id, cfg.sid)), turns) + DeletionsOf(id, cfg, gone)
      ensures store.Inner(id, cfg.sid)
              == LeavesAfter(cfg, old(store.Inner(id, cfg.sid)), turns) - (old(store.Inner(id, cfg.sid)).Keys - data.Keys)
      ensures old(sent) <= sent
      ensures RoundSays(sent[|old(sent)|..], id, cfg, old(store.Inner(id, cfg.sid)), data, old(clock), clock)
      ensures StoreHolds(store.Inner(id, cfg.sid), data)
      ensures forall t :: t in turns ==>
                Prev(store.Inner(id, cfg.sid), t.path)
                == Some(LeafAfter(cfg, Prev(old(store.Inner(id, cfg.sid)), t.path), t.value, t.check, t.stamp))
      ensures (cfg.onChange || cfg.suppress) && cfg.heartbeat > 0 ==>
                forall p :: p in store.Inner(id, cfg.sid) ==>
                  store.Inner(id, cfg.sid)[p].updateTime >= old(clock) - cfg.heartbeat
      ensures forall r, s :: r != id || s != cfg.sid ==> store.Inner(r, s) == old(store.Inner(r, s))
      ensures Mirrors(old(sent), cfg.sid, old(store.Inner(id, cfg.sid))) ==> ClientHolds(sent, cfg.sid, data)
      ensures forall s, p :: s != cfg.sid ==> ClientAt(sent, s, p) == ClientAt(old(sent), s, p)
    {
      ghost var before := store.Inner(id, cfg.sid);
      var currents := store.List(id, cfg.sid);
      turns := UpdateLeaves(cfg, data);
      ghost var done := clock;
      gone := DeleteLeaves(cfg, currents - data.Keys);
      RoundNews(old(sent), id, cfg, before, data, turns, gone, old(clock), done);
      RoundStore(cfg, before, data, turns, old(clock), done);
      RoundReplay(old(sent), id, cfg, before, data, turns, gone, old(clock), done);
      forall s, p | s != cfg.sid ensures ClientAt(sent, s, p) == ClientAt(old(sent), s, p) {
        RoundClient(old(sent), id, cfg, before, data, turns, gone, old(clock), done, s, p);
      }
      if (cfg.onChange || cfg.suppress) && cfg.heartbeat > 0 {
        RoundFresh(cfg, before, data, turns, old(clock), done);
      }
    }

    /** The client shows nothing that is not stored. */
    ghost predicate ShowsOnlyStored()
      reads this, store
    {
      forall s, p :: p !in store.Inner(id, s) ==> ClientAt(sent, s, p) == None
    }

    /** The start, with what was sent and stored by then. */
    method Open(samples: map<int, map<Path, V>>)
        returns (ghost begun: seq<Notification<V>>, ghost first: map<int, Leaves<V>>)
      requires store.Valid() && Sids() <= samples.Keys
      modifies store, this`sent, this`clock
      ensures store.Valid() && sent == begun && first.Keys == Sids()
      ensures forall s :: s in Sids() ==>
                store.Inner(id, s) == first[s] && Merged(old(store.Inner(id, s)), first[s], samples[s])
      ensures updatesOnly ==> forall s, p :: ClientAt(begun, s, p) == ClientAt(old(sent), s, p)
      ensures !updatesOnly && old(ShowsOnlyStored()) ==> forall s :: s in Sids() ==> Mirrors(begun, s, first[s])
      ensures forall r, s :: r != id || s !in Sids() ==> store.Inner(r, s) == old(store.Inner(r, s))
    {
      Start(samples);
      begun := sent;
      first := map s | s in Sids() :: store.Inner(id, s);
      if !updatesOnly && old(ShowsOnlyStored()) {
        forall s | s in Sids() ensures Mirrors(begun, s, first[s]) {
          StartMirrors(old(sent), begun, old(store.Inner(id, s)), first[s], samples[s], s);
        }
      }
    }

    /** One round as the log has it. */
    method SampleLogged(cfg: Config, data: map<Path, V>) returns (ghost r: Served<V>)
      requires store.Valid()
      modifies store, this`sent, this`clock
      ensures store.Valid() && RoundMade(r) && r.cfg == cfg && r.data == data
      ensures r.before == old(store.Inner(id, cfg.sid)) && store.Inner(id, cfg.sid) == AfterRound(r)
      ensures sent == old(sent) + MessagesOf(id, r)
      ensures forall r, s :: r != id || s != cfg.sid ==> store.Inner(r, s) == old(store.Inner(r, s))
    {
      ghost var before := store.Inner(id, cfg.sid);
      ghost var began := clock;
      ghost var turns, gone := SampleAndNotify(cfg, data);
      r := Served(cfg, data, before, turns, gone, began, clock);
      Appended(old(sent), UpdatesOf(id, cfg, before, turns), DeletionsOf(id, cfg, gone));
    }

    /** What was sent and stored since the start is what the log says. */
    ghost predicate Logged(begun: seq<Notification<V>>, first: map<int, Leaves<V>>, log: seq<Served<V>>)
      reads this, store
    {
      && store.Valid() && Made(first, log) && sent == begun + Messages(id, log)
      && forall s :: s in first ==> store.Inner(id, s) == LeavesNow(first[s], log, s)
    }

    /** One round of a sampling loop, added to the log. */
    method ServeRound(cfg: Config, data: map<Path, V>, ghost begun: seq<Notification<V>>, ghost first: map<int, Leaves<V>>,
                      ghost log: seq<Served<V>>)
        returns (ghost more: seq<Served<V>>)
      requires Logged(begun, first, log) && cfg.sid in first
      modifies store, this`sent, this`clock
      ensures Logged(begun, first, more)
      ensures |more| == |log| + 1 && more[..|log|] == log && more[|log|].cfg == cfg && more[|log|].data == data
      ensures forall r, s :: r != id || s != cfg.sid ==> store.Inner(r, s) == old(store.Inner(r, s))
    {
      ghost var r := SampleLogged(cfg, data);
      MadeMore(id, first, log, r);
      more := log + [r];
      assert begun + Messages(id, log) + MessagesOf(id, r) == begun + (Messages(id, log) + MessagesOf(id, r));
    }

    method ServeRounds(rounds: seq<Round<V>>, ghost begun: seq<Notification<V>>, ghost first: map<int, Leaves<V>>)
        returns (ghost log: seq<Served<V>>)
      requires store.Valid() && first.Keys == Sids() && sent == begun
      requires forall s :: s in Sids() ==> store.Inner(id, s) == first[s]
      requires forall r :: r in rounds ==> r.cfg in configs
      modifies store, this`sent, this`clock
      ensures Logged(begun, first, log) && Parallel(log, rounds)
      ensures forall r, s :: r != id || s !in Sids() ==> store.Inner(r, s) == old(store.Inner(r, s))
    {
      log := [];
      assert begun + Messages(id, log) == begun;
      for k := 0 to |rounds|
        invariant Logged(begun, first, log) && Parallel(log, rounds[..k])
        invariant forall r, s :: r != id || s !in Sids() ==> store.Inner(r, s) == old(store.Inner(r, s))
      {
        var cfg, data := rounds[k].cfg, rounds[k].data;
        assert rounds[k] in rounds && cfg in configs && cfg.sid in Sids();
        log := ServeRound(cfg, data, begun, first, log);
      }
      assert rounds[..|rounds|] == rounds;
    }

    /**
     A whole subscription: its start, then the rounds of its sampling loops in whatever order they wake. After
     any number of them the store holds the latest sample of every subscription that has been sampled since, or
     had nothing else stored for it when it started. A client that was sent the stored leaves holds it then too;
     an updates-only client, once each leaf it did not show already was sent or reported gone in some round.
     */
    method Serve(samples: map<int, map<Path, V>>, rounds: seq<Round<V>>)
        returns (ghost first: map<int, Leaves<V>>, ghost log: seq<Served<V>>)
      requires store.Valid() && Sids() <= samples.Keys
      requires forall r :: r in rounds ==> r.cfg in configs
      modifies store, this`sent, this`clock
      ensures store.Valid()
      ensures first.Keys == Sids() && Made(first, log) && Parallel(log, rounds)
      ensures forall s :: s in Sids() ==> Merged(old(store.Inner(id, s)), first[s], samples[s])
      ensures forall s :: s in Sids() ==> StoredWhen(store.Inner(id, s), old(store.Inner(id, s)), samples[s], rounds, s)
      ensures !updatesOnly && old(ShowsOnlyStored()) ==>
                forall s :: s in Sids() ==> ShownWhen(sent, old(store.Inner(id, s)), samples[s], rounds, s)
      ensures updatesOnly ==>
                forall s :: s in Sids() ==> CaughtUpWhen(sent, old(sent), first[s], log, samples[s], rounds, s)
      ensures forall r, s :: r != id || s !in Sids() ==> store.Inner(r, s) == old(store.Inner(r, s))
    {
      ghost var begun;
      begun, first := Open(samples);
      log := ServeRounds(rounds, begun, first);
      forall s | s in Sids() ensures StoredWhen(store.Inner(id, s), old(store.Inner(id, s)), samples[s], rounds, s) {
        StoredExactly(first, log, old(store.Inner(id, s)), samples[s], rounds, s);
      }
      if updatesOnly {
        forall s | s in Sids() ensures CaughtUpWhen(sent, old(sent), first[s], log, samples[s], rounds, s) {
          QuietClient(id, old(sent), begun, first, log, samples[s], rounds, s);
        }
      } else if old(ShowsOnlyStored()) {
        forall s | s in Sids() ensures ShownWhen(sent, old(store.Inner(id, s)), samples[s], rounds, s) {
          FullClient(id, begun, first, log, old(store.Inner(id, s)), samples[s], rounds, s);
        }
      }
    }
  }
}
