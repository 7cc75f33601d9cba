/**
 The LLDP updaters, the iterators behind the LLDP remote tables. Each keeps a list of sub-identifiers
 and answers "next" by bisection; the list is rebuilt or edited in place by the periodic update.
 */
module Lldp {
  import opened Results
  import opened OidOrder
  import opened Encodings
  import opened MibIndex
  import opened MibWalk

  ghost function Members(s: seq<Oid>): set<Oid> {
    set o | o in s
  }

  /** `bisect_right` into the list, None past its end. */
  function NextIn(ifRange: seq<Oid>, sub: Oid): Option<Oid> {
    var right := BisectRight(ifRange, sub);
    if right == |ifRange| then None else Some(ifRange[right])
  }

  /** On an ascending list the bisection is the iterator contract: the least stored sub-id above. */
  lemma NextInMeetsContract(ifRange: seq<Oid>, sub: Oid)
    requires Ascending(ifRange)
    ensures NextAbove(Members(ifRange), sub, NextIn(ifRange, sub))
  {
    BisectRightSplits(ifRange, sub);
    var right := BisectRight(ifRange, sub);
    forall k | k in ifRange && Lt(sub, k) ensures right < |ifRange| && Le(ifRange[right], k) {
      var i :| 0 <= i < |ifRange| && ifRange[i] == k;
      if i < right {
        LtAsymmetric(sub, k);
      }
    }
  }

  /** Hence a subtree entry over the list meets the contract the MIB table relies on. */
  lemma EntryOverListMeets(ifRange: seq<Oid>, t: ValueType, values: map<Oid, RawValue>)
    requires Ascending(ifRange) && values.Keys == Members(ifRange) && [] !in ifRange
    requires !ExceptionType(t) && forall k :: k in values ==> Fits(t, values[k])
    ensures Subtree(t, sub => NextIn(ifRange, sub), values).Meets()
  {
    var e := Subtree(t, sub => NextIn(ifRange, sub), values);
    forall s ensures NextAbove(values.Keys, s, e.next(s)) {
      NextInMeetsContract(ifRange, s);
    }
  }

  /** Iterating a subtree entry: every key above `()`, each once, ascending; then the iteration stops. */
  method Iterate(next: Oid -> Option<Oid>, ghost keys: set<Oid>) returns (subs: seq<Oid>)
    requires forall s :: NextAbove(keys, s, next(s))
    ensures Lists(subs, keys - {[]})
  {
    subs := [];
    var sub := [];
    ghost var left := keys - {[]};
    while true
      invariant left == set k | k in keys && Lt(sub, k)
      invariant forall i, j :: 0 <= i < j < |subs| ==> Lt(subs[i], subs[j])
      invariant forall i :: 0 <= i < |subs| ==> Le(subs[i], sub)
      invariant forall o :: o in keys && o != [] ==> o in subs || o in left
      invariant forall o :: o in subs ==> o in keys && o != []
      decreases left
    {
      var r := next(sub);
      assert NextAbove(keys, sub, r);
      if r.None? {
        break;
      }
      NextStep(keys, sub, r.value);
      forall i | 0 <= i < |subs| ensures Lt(subs[i], r.value) {
        LeTransitive(subs[i], sub, r.value);
      }
      sub := r.value;
      subs := subs + [sub];
      left := set k | k in keys && Lt(sub, k);
    }
  }

  lemma NextStep(keys: set<Oid>, sub: Oid, n: Oid)
    requires NextAbove(keys, sub, Some(n))
    ensures var was, now := set k | k in keys && Lt(sub, k), set k | k in keys && Lt(n, k);
            was == now + {n} && n !in now && n != []
  {
    LtIrreflexive(n);
    forall k | k in keys && Lt(n, k) ensures Lt(sub, k) {
      LtTransitive(sub, n, k);
    }
  }

  // ----- LLDPRemTableUpdater -----

  /** What the database holds for one interface's LLDP neighbour. */
  datatype Neighbour =
    | Absent                      // no entry
    | NoIndex                     // an entry without a remote index: the interface is skipped
    | BadIndex                    // a remote index that is no number: the update raises
    | Index(remIndex: nat, caps: Capabilities)

  /** The capability texts, which are parsed as hexadecimal numbers after the sub-id was appended. */
  datatype Capabilities =
    | Readable
    | Missing                     // the interface's other data is skipped
    | NotHex                      // the update raises

  predicate Raises(n: Neighbour) {
    n.BadIndex? || (n.Index? && n.caps.NotHex?)
  }

  function SubId(ifOid: nat, remIndex: nat): Oid {
    [0, ifOid, remIndex]
  }

  /** The sub-identifiers the listed interfaces contribute, in list order. */
  function Contributed(rows: seq<(nat, Neighbour)>): seq<Oid> {
    if rows == [] then []
    else
      var (ifOid, n), rest := rows[|rows| - 1], Contributed(rows[..|rows| - 1]);
      if n.Index? then rest + [SubId(ifOid, n.remIndex)] else rest
  }

  /** The sub-id is the row's: a time mark of zero, the interface, its neighbour's index. */
  predicate ComesFrom(o: Oid, row: (nat, Neighbour)) {
    row.1.Index? && o == [0, row.0, row.1.remIndex]
  }

  lemma {:induction false} ContributedFrom(rows: seq<(nat, Neighbour)>, o: Oid)
    ensures o in Contributed(rows) <==> exists i :: 0 <= i < |rows| && ComesFrom(o, rows[i])
  {
    if rows != [] {
      var front, last := rows[..|rows| - 1], rows[|rows| - 1];
      ContributedFrom(front, o);
      if i :| 0 <= i < |rows| && ComesFrom(o, rows[i]) {
        assert i < |front| ==> ComesFrom(o, front[i]);
      }
      if i :| 0 <= i < |front| && ComesFrom(o, front[i]) {
        assert ComesFrom(o, rows[i]);
      }
      assert rows[|rows| - 1] == last;
    }
  }

  predicate FirstRaising(rows: seq<(nat, Neighbour)>, i: nat) {
    i < |rows| && Raises(rows[i].1) && forall j :: 0 <= j < i ==> !Raises(rows[j].1)
  }

  class RemTableUpdater {
    var ifRange: seq<Oid>

    constructor ()
      ensures ifRange == []
    {
      ifRange := [];
    }

    function GetNext(sub: Oid): Option<Oid>
      reads this
    {
      NextIn(ifRange, sub)
    }

    /**
     Rebuilds the list. A completed update leaves it sorted; one that raises midway leaves what it
     had appended, unsorted, the sub-id of the neighbour whose capabilities it could not read included.
     */
    method UpdateData(rows: seq<(nat, Neighbour)>) returns (completed: bool)
      modifies this
      ensures completed
              <==> forall i :: 0 <= i < |rows| ==> !rows[i].1.BadIndex? && !(rows[i].1.Index? && rows[i].1.caps.NotHex?)
      ensures completed ==> ifRange == Sort(Contributed(rows)) && Ascending(ifRange)
      ensures completed ==> forall o :: o in ifRange <==> exists i :: 0 <= i < |rows| && ComesFrom(o, rows[i])
      ensures completed ==> forall s :: NextAbove(Members(Contributed(rows)), s, GetNext(s))
      ensures !completed ==>
                exists i :: 0 <= i < |rows| && FirstRaising(rows, i) && ifRange == Contributed(rows[..i + 1])
    {
      ifRange := [];
      for i := 0 to |rows|
        invariant ifRange == Contributed(rows[..i])
        invariant forall j :: 0 <= j < i ==> !Raises(rows[j].1)
      {
        var (ifOid, n) := rows[i];
        assert rows[..i + 1][..i] == rows[..i];
        if n.BadIndex? {
          assert FirstRaising(rows, i);
          return false;
        }
        if n.Index? {
          ifRange := ifRange + [SubId(ifOid, n.remIndex)];
          if n.caps.NotHex? {
            assert FirstRaising(rows, i);
            return false;
          }
        }
      }
      assert rows[..|rows|] == rows;
      SortSorts(ifRange);
      assert Members(Sort(ifRange)) == Members(ifRange);
      forall o ensures o in Sort(ifRange) <==> exists i :: 0 <= i < |rows| && ComesFrom(o, rows[i]) {
        ContributedFrom(rows, o);
        assert o in Sort(ifRange) <==> o in Members(Sort(ifRange));
      }
      ifRange := Sort(ifRange);
      forall s ensures NextAbove(Members(Contributed(rows)), s, GetNext(s)) {
        NextInMeetsContract(ifRange, s);
      }
      return true;
    }
  }

  // ----- LLDPRemManAddrUpdater -----

  function WithoutIndex(s: seq<Oid>, ifIndex: nat): seq<Oid>
    requires [] !in s
  {
    if s == [] then []
    else (if s[0][0] != ifIndex then [s[0]] else []) + WithoutIndex(s[1..], ifIndex)
  }

  lemma {:induction false} WithoutIndexKeepsOrder(s: seq<Oid>, ifIndex: nat)
    requires [] !in s && Ascending(s)
    ensures Ascending(WithoutIndex(s, ifIndex))
    ensures forall o :: o in WithoutIndex(s, ifIndex) <==> o in s && o[0] != ifIndex
  {
    if s != [] {
      assert s == [s[0]] + s[1..];
      WithoutIndexKeepsOrder(s[1..], ifIndex);
      var t := WithoutIndex(s[1..], ifIndex);
      forall j | 0 <= j < |t| ensures Le(s[0], t[j]) {
        assert t[j] in s[1..];
      }
    }
  }

  /**
   The filter compares the first element, the time mark, with the interface index, which is the second. It
   drops exactly the interface's sub-ids just when the two elements agree on which of them are the interface's.
   */
  lemma DropsInterfaceExactly(s: seq<Oid>, ifIndex: nat)
    requires Ascending(s) && forall o :: o in s ==> |o| >= 2
    ensures (forall o :: o in WithoutIndex(s, ifIndex) <==> o in s && o[1] != ifIndex)
            <==> forall o :: o in s ==> (o[0] == ifIndex <==> o[1] == ifIndex)
  {
    WithoutIndexKeepsOrder(s, ifIndex);
    if forall o :: o in WithoutIndex(s, ifIndex) <==> o in s && o[1] != ifIndex {
      forall o | o in s ensures o[0] == ifIndex <==> o[1] == ifIndex {
        assert o in WithoutIndex(s, ifIndex) <==> o[1] != ifIndex;
      }
    }
  }

  /** For instance: the neighbour of interface 1 gone, its sub-id with time mark 7 stays. */
  lemma KeptForInstance()
    ensures WithoutIndex([[7, 1, 3]], 1) == [[7, 1, 3]] && WithoutIndex([[1, 9, 3]], 1) == []
  {
    assert [[7, 1, 3]][1..] == [] && [[1, 9, 3]][1..] == [];
  }

  /** What the database holds about the management address of an interface's neighbour. */
  datatype Advertised =
    | Nothing         // no neighbour, a missing part, or an address of neither family
    | Unreadable      // a part that is no number
    | Usable(timeMark: nat, remIndex: nat, subtype: nat, address: Oid)

  function ManSubId(ifOid: nat, adv: Advertised): (sub: Oid)
    requires adv.Usable?
    ensures |sub| >= 4 && sub[0] == adv.timeMark && sub[1] == ifOid
  {
    [adv.timeMark, ifOid, adv.remIndex, adv.subtype] + adv.address
  }

  class ManAddrUpdater {
    var ifRange: seq<Oid>

    ghost predicate Valid()
      reads this
    {
      Ascending(ifRange) && [] !in ifRange
    }

    constructor ()
      ensures Valid() && ifRange == []
    {
      ifRange := [];
    }

    function GetNext(sub: Oid): Option<Oid>
      reads this
    {
      NextIn(ifRange, sub)
    }

    /**
     A neighbour advertising a usable management address adds its sub-id; one without changes nothing. A time
     mark, index or address that cannot be read raises, before anything is added.
     */
    method UpdateRemIfMgmt(ifOid: nat, adv: Advertised) returns (completed: bool)
      requires Valid()
      modifies this
      ensures Valid() && (completed <==> !adv.Unreadable?)
      ensures multiset(ifRange)
              == multiset(old(ifRange))
                 + (if adv.Usable? then multiset{[adv.timeMark, ifOid, adv.remIndex, adv.subtype] + adv.address}
                    else multiset{})
      ensures forall s :: NextAbove(Members(ifRange), s, GetNext(s))
    {
      completed := !adv.Unreadable?;
      if adv.Usable? {
        var appended := ifRange + [ManSubId(ifOid, adv)];
        SortSorts(appended);
        ifRange := Sort(appended);
      }
      forall s ensures NextAbove(Members(ifRange), s, GetNext(s)) {
        NextInMeetsContract(ifRange, s);
      }
    }

    /** A "del" notification: drop the sub-ids whose first element is the index, then query again. */
    method Deleted(ifIndex: nat, adv: Advertised) returns (completed: bool)
      requires Valid()
      modifies this
      ensures Valid() && (completed <==> !adv.Unreadable?)
      ensures forall o :: o in ifRange
                          <==> (o in old(ifRange) && o[0] != ifIndex) || (adv.Usable? && o == ManSubId(ifIndex, adv))
      ensures forall s :: NextAbove(Members(ifRange), s, GetNext(s))
    {
      WithoutIndexKeepsOrder(ifRange, ifIndex);
      ifRange := WithoutIndex(ifRange, ifIndex);
      label Filtered:
      completed := UpdateRemIfMgmt(ifIndex, adv);
      forall o ensures o in ifRange <==> o in old@Filtered(ifRange) || (adv.Usable? && o == ManSubId(ifIndex, adv)) {
        assert o in ifRange <==> o in multiset(ifRange);
        assert o in old@Filtered(ifRange) <==> o in multiset(old@Filtered(ifRange));
      }
    }
  }
}
