/**
 Breakout on SONiC: each master interface is cut into as many sub-interfaces as its channel count asks for,
 each with an equal run of the master's lanes. Two generators list them, one by name and one by port
 number; a third function reads the chip's port list back and has to find the names again.
 */
module Breakout {
  import opened Results

  /** A port template (`interfaces.json`). */
  datatype Master = Master(port: int, firstLane: int, laneNum: nat, speed: nat, index: int, aliasPrefix: string)

  /** `Ethernet<unit>_<sub>`. */
  datatype Name = Name(unit: nat, sub: nat)

  /** What the interface map holds for a master: number of channels and channel speed. */
  datatype Setting = Setting(channels: Option<nat>, speed: Option<nat>)

  type Settings = map<Name, Setting>

  datatype PortRow = PortRow(name: Name, lanes: seq<int>, alias: (string, int), speed: nat, index: int)

  datatype ChipRow = ChipRow(port: int, lane: int, speed: nat)

  datatype Failure = ZeroDivision

  /** The setting takes effect only when both parts are there. */
  function Effective(settings: Settings, i: nat): Option<(nat, nat)> {
    var name := Name(i + 1, 1);
    if name in settings && settings[name].channels.Some? && settings[name].speed.Some?
    then Some((settings[name].channels.value, settings[name].speed.value)) else None
  }

  function Channels(settings: Settings, i: nat): nat {
    if Effective(settings, i).Some? then Effective(settings, i).value.0 else 1
  }

  function Speed(master: seq<Master>, settings: Settings, i: nat): nat
    requires i < |master|
  {
    if Effective(settings, i).Some? then Effective(settings, i).value.1 else master[i].speed
  }

  /** Lanes of each sub-interface of master `i`. */
  function Width(master: seq<Master>, settings: Settings, i: nat): nat
    requires i < |master| && Channels(settings, i) > 0
  {
    master[i].laneNum / Channels(settings, i)
  }

  function Block(first: int, n: nat): seq<int> {
    seq(n, k requires 0 <= k => first + k)
  }

  function PortRowAt(master: seq<Master>, settings: Settings, i: nat, ii: nat): PortRow
    requires i < |master| && Channels(settings, i) > 0
  {
    var m, w := master[i], Width(master, settings, i);
    PortRow(Name(i + 1, ii + 1), Block(m.firstLane + ii * w, w), (m.aliasPrefix, m.index + ii),
            Speed(master, settings, i), m.index + ii * w)
  }

  function ChipRowAt(master: seq<Master>, settings: Settings, i: nat, ii: nat): ChipRow
    requires i < |master| && Channels(settings, i) > 0
  {
    var m, w := master[i], Width(master, settings, i);
    ChipRow(m.port + ii * w, m.firstLane + ii * w, Speed(master, settings, i) / 1000)
  }

  ghost predicate Divisible(master: seq<Master>, settings: Settings) {
    forall i :: 0 <= i < |master| ==> Channels(settings, i) > 0
  }

  /** Where sub-interface `ii` of master `i` stands in either list: after all those of earlier masters. */
  function Before(settings: Settings, i: nat): nat {
    if i == 0 then 0 else Before(settings, i - 1) + Channels(settings, i - 1)
  }

  lemma {:induction false} BeforeMonotone(settings: Settings, i: nat, j: nat)
    requires i < j
    ensures Before(settings, i) + Channels(settings, i) <= Before(settings, j)
    decreases j
  {
    if i < j - 1 {
      BeforeMonotone(settings, i, j - 1);
    }
  }

  /** Every position of a list of sub-interfaces belongs to exactly one of them. */
  lemma {:induction false} Located(settings: Settings, n: nat, a: nat) returns (i: nat, ii: nat)
    requires a < Before(settings, n)
    ensures i < n && ii < Channels(settings, i) && a == Before(settings, i) + ii
    decreases n
  {
    if a < Before(settings, n - 1) {
      i, ii := Located(settings, n - 1, a);
    } else {
      i, ii := n - 1, a - Before(settings, n - 1);
    }
  }

  predicate PortListed(rows: seq<PortRow>, master: seq<Master>, settings: Settings, i: nat, ii: nat)
    requires i < |master| && Channels(settings, i) > 0
  {
    Before(settings, i) + ii < |rows| && rows[Before(settings, i) + ii] == PortRowAt(master, settings, i, ii)
  }

  /** The port configuration is right: every sub-interface has its row, in order, and there is no other row. */
  ghost predicate ListsPorts(rows: seq<PortRow>, master: seq<Master>, settings: Settings, n: nat)
    requires n <= |master| && forall i :: 0 <= i < n ==> Channels(settings, i) > 0
  {
    && |rows| == Before(settings, n)
    && forall i, ii :: 0 <= i < n && 0 <= ii < Channels(settings, i) ==>
         PortListed(rows, master, settings, i, ii)
  }

  predicate ChipListed(rows: seq<ChipRow>, master: seq<Master>, settings: Settings, i: nat, ii: nat)
    requires i < |master| && Channels(settings, i) > 0
  {
    Before(settings, i) + ii < |rows| && rows[Before(settings, i) + ii] == ChipRowAt(master, settings, i, ii)
  }

  ghost predicate ListsChips(rows: seq<ChipRow>, master: seq<Master>, settings: Settings, n: nat)
    requires n <= |master| && forall i :: 0 <= i < n ==> Channels(settings, i) > 0
  {
    && |rows| == Before(settings, n)
    && forall i, ii :: 0 <= i < n && 0 <= ii < Channels(settings, i) ==>
         ChipListed(rows, master, settings, i, ii)
  }

  lemma ListsPortsGrow(before: seq<PortRow>, after: seq<PortRow>, master: seq<Master>, settings: Settings, n: nat)
    requires n < |master| && forall i :: 0 <= i <= n ==> Channels(settings, i) > 0
    requires ListsPorts(before, master, settings, n) && before <= after && |after| == |before| + Channels(settings, n)
    requires forall k :: 0 <= k < Channels(settings, n) ==> after[|before| + k] == PortRowAt(master, settings, n, k)
    ensures ListsPorts(after, master, settings, n + 1)
  {
    forall i, ii | 0 <= i < n + 1 && 0 <= ii < Channels(settings, i)
      ensures PortListed(after, master, settings, i, ii)
    {
      if i < n {
        assert PortListed(before, master, settings, i, ii);
      }
    }
  }

  lemma ListsChipsGrow(before: seq<ChipRow>, after: seq<ChipRow>, master: seq<Master>, settings: Settings, n: nat)
    requires n < |master| && forall i :: 0 <= i <= n ==> Channels(settings, i) > 0
    requires ListsChips(before, master, settings, n) && before <= after && |after| == |before| + Channels(settings, n)
    requires forall k :: 0 <= k < Channels(settings, n) ==> after[|before| + k] == ChipRowAt(master, settings, n, k)
    ensures ListsChips(after, master, settings, n + 1)
  {
    forall i, ii | 0 <= i < n + 1 && 0 <= ii < Channels(settings, i)
      ensures ChipListed(after, master, settings, i, ii)
    {
      if i < n {
        assert ChipListed(before, master, settings, i, ii);
      }
    }
  }

  /** `create_usonic_port_config`; a channel count of zero divides by zero. */
  method CreatePortConfig(master: seq<Master>, settings: Settings) returns (r: Result<seq<PortRow>, Failure>)
    ensures r.Ok? <==> Divisible(master, settings)
    ensures r.Ok? ==> ListsPorts(r.value, master, settings, |master|)
  {
    var interfaces: seq<PortRow> := [];
    for i := 0 to |master|
      invariant forall k :: 0 <= k < i ==> Channels(settings, k) > 0
      invariant ListsPorts(interfaces, master, settings, i)
    {
      var m, channel, speed := master[i], 1, master[i].speed;
      var name := Name(i + 1, 1);
      var v := if name in settings then settings[name] else Setting(None, None);
      if v.channels != None && v.speed != None {
        channel, speed := v.channels.value, v.speed.value;
      }
      assert channel == Channels(settings, i);
      if channel == 0 {
        return Raised(ZeroDivision);
      }
      var laneNum := m.laneNum / channel;
      ghost var before := interfaces;
      for ii := 0 to channel
        invariant |interfaces| == |before| + ii && before <= interfaces
        invariant forall k :: 0 <= k < ii ==> interfaces[|before| + k] == PortRowAt(master, settings, i, k)
      {
        var firstLane := m.firstLane + ii * laneNum;
        interfaces := interfaces + [PortRow(Name(i + 1, ii + 1), Block(firstLane, laneNum), (m.aliasPrefix, m.index + ii),
                                            speed, m.index + ii * laneNum)];
      }
      ListsPortsGrow(before, interfaces, master, settings, i);
    }
    return Ok(interfaces);
  }

  /** `create_usonic_config_bcm`, up to the speeds given in units of 1000. */
  method CreateChipConfig(master: seq<Master>, settings: Settings) returns (r: Result<seq<ChipRow>, Failure>)
    ensures r.Ok? <==> Divisible(master, settings)
    ensures r.Ok? ==> ListsChips(r.value, master, settings, |master|)
  {
    var interfaces: seq<ChipRow> := [];
    for i := 0 to |master|
      invariant forall k :: 0 <= k < i ==> Channels(settings, k) > 0
      invariant ListsChips(interfaces, master, settings, i)
    {
      var m, channel, speed := master[i], 1, master[i].speed / 1000;
      var name := Name(i + 1, 1);
      var v := if name in settings then settings[name] else Setting(None, None);
      if v.channels != None && v.speed != None {
        channel, speed := v.channels.value, v.speed.value / 1000;
      }
      assert channel == Channels(settings, i);
      if channel == 0 {
        return Raised(ZeroDivision);
      }
      var laneNum := m.laneNum / channel;
      ghost var before := interfaces;
      for ii := 0 to channel
        invariant |interfaces| == |before| + ii && before <= interfaces
        invariant forall k :: 0 <= k < ii ==> interfaces[|before| + k] == ChipRowAt(master, settings, i, k)
      {
        interfaces := interfaces + [ChipRow(m.port + ii * laneNum, m.firstLane + ii * laneNum, speed)];
      }
      ListsChipsGrow(before, interfaces, master, settings, i);
    }
    return Ok(interfaces);
  }

  // ----- what the rows say -----

  /**
   The channel count and speed of a unit: what its first interface is set to, when both are, and otherwise one
   channel at the template's speed.
   */
  ghost predicate Decided(master: seq<Master>, settings: Settings, i: nat, channels: nat, speed: nat)
    requires i < |master|
  {
    if Name(i + 1, 1) in settings && settings[Name(i + 1, 1)].channels != None && settings[Name(i + 1, 1)].speed != None
    then settings[Name(i + 1, 1)] == Setting(Some(channels), Some(speed))
    else channels == 1 && speed == master[i].speed
  }

  lemma DecidedIs(master: seq<Master>, settings: Settings, i: nat)
    requires i < |master|
    ensures Decided(master, settings, i, Channels(settings, i), Speed(master, settings, i))
  {
  }

  /**
   The rows of a sub-interface in the two lists: an equal run of its master's lanes, the port and the index
   moved by as much, the alias by one for each sub-interface, and the speed of all of them the one decided.
   */
  lemma RowsSay(ports: seq<PortRow>, chips: seq<ChipRow>, master: seq<Master>, settings: Settings, i: nat, ii: nat)
    requires Divisible(master, settings) && i < |master| && ii < Channels(settings, i)
    requires ListsPorts(ports, master, settings, |master|) && ListsChips(chips, master, settings, |master|)
    ensures |ports| == |chips|
    ensures exists k, channels: nat, speed: nat ::
              && 0 <= k < |ports| && Decided(master, settings, i, channels, speed) && ii < channels
              && var m, w := master[i], master[i].laneNum / channels;
                 && ports[k].name == Name(i + 1, ii + 1) && ports[k].speed == speed
                 && ports[k].lanes == seq(w, n requires 0 <= n < w => m.firstLane + ii * w + n)
                 && ports[k].alias == (m.aliasPrefix, m.index + ii) && ports[k].index == m.index + ii * w
                 && chips[k] == ChipRow(m.port + ii * w, m.firstLane + ii * w, speed / 1000)
  {
    BeforeMonotone(settings, i, |master|);
    DecidedIs(master, settings, i);
    var k, channels, speed := Before(settings, i) + ii, Channels(settings, i), Speed(master, settings, i);
    assert PortListed(ports, master, settings, i, ii) && ChipListed(chips, master, settings, i, ii);
    var m, w := master[i], master[i].laneNum / channels;
    assert ports[k].lanes == seq(w, n requires 0 <= n < w => m.firstLane + ii * w + n);
    assert chips[k] == ChipRow(m.port + ii * w, m.firstLane + ii * w, speed / 1000);
  }

  // ----- lanes -----

  ghost predicate DisjointLanes(master: seq<Master>) {
    forall i, j :: 0 <= i < |master| && 0 <= j < |master| && i != j ==>
      master[i].firstLane + master[i].laneNum <= master[j].firstLane
      || master[j].firstLane + master[j].laneNum <= master[i].firstLane
  }

  lemma MulMono(a: nat, b: nat, w: nat)
    requires a < b
    ensures a * w + w <= b * w
  {
    assert (b - a - 1) * w >= 0;
    assert b * w == a * w + w + (b - a - 1) * w;
  }

  /** A run of lanes stays inside its master's block, and runs follow each other without overlap. */
  lemma RunInside(laneNum: nat, channels: nat, ii: nat)
    requires ii < channels
    ensures ii * (laneNum / channels) + laneNum / channels <= laneNum
  {
    var w := laneNum / channels;
    MulMono(ii, channels, w);
    assert channels * w <= laneNum;
  }

  lemma RowInside(master: seq<Master>, settings: Settings, i: nat, ii: nat)
    requires i < |master| && ii < Channels(settings, i)
    ensures forall l :: l in PortRowAt(master, settings, i, ii).lanes ==>
              master[i].firstLane <= l < master[i].firstLane + master[i].laneNum
    ensures forall l :: l in PortRowAt(master, settings, i, ii).lanes
                        <==> 0 <= l - master[i].firstLane - ii * Width(master, settings, i) < Width(master, settings, i)
  {
    RunInside(master[i].laneNum, Channels(settings, i), ii);
    var w := Width(master, settings, i);
    var lanes := PortRowAt(master, settings, i, ii).lanes;
    forall l | 0 <= l - master[i].firstLane - ii * w < w ensures l in lanes {
      assert lanes[l - master[i].firstLane - ii * w] == l;
    }
    assert ii * w >= 0;
  }

  lemma SiblingsDisjoint(master: seq<Master>, settings: Settings, i: nat, ii: nat, jj: nat, l: int)
    requires i < |master| && ii < jj < Channels(settings, i)
    ensures !(l in PortRowAt(master, settings, i, ii).lanes && l in PortRowAt(master, settings, i, jj).lanes)
  {
    RowInside(master, settings, i, ii);
    RowInside(master, settings, i, jj);
    MulMono(ii, jj, Width(master, settings, i));
  }

  /** No lane is given to two sub-interfaces, whatever the channel counts. */
  lemma LanesDisjoint(rows: seq<PortRow>, master: seq<Master>, settings: Settings, a: nat, b: nat, l: int)
    requires DisjointLanes(master) && Divisible(master, settings) && ListsPorts(rows, master, settings, |master|)
    requires a < b < |rows|
    ensures !(l in rows[a].lanes && l in rows[b].lanes)
  {
    var i, ii := Located(settings, |master|, a);
    var j, jj := Located(settings, |master|, b);
    assert PortListed(rows, master, settings, i, ii) && PortListed(rows, master, settings, j, jj);
    if i == j {
      SiblingsDisjoint(master, settings, i, ii, jj, l);
    } else {
      RowInside(master, settings, i, ii);
      RowInside(master, settings, j, jj);
    }
  }

  ghost predicate Used(master: seq<Master>, settings: Settings, i: nat, l: int)
    requires i < |master| && Channels(settings, i) > 0
  {
    exists ii :: 0 <= ii < Channels(settings, i) && l in PortRowAt(master, settings, i, ii).lanes
  }

  /** Every lane of master `i` is used by one of its sub-interfaces. */
  ghost predicate Covers(master: seq<Master>, settings: Settings, i: nat)
    requires i < |master| && Channels(settings, i) > 0
  {
    forall l :: master[i].firstLane <= l < master[i].firstLane + master[i].laneNum ==>
      Used(master, settings, i, l)
  }

  /** The sub-interfaces use up their master's lanes exactly when the channel count divides the lane count. */
  lemma BlockPartitioned(master: seq<Master>, settings: Settings, i: nat)
    requires i < |master| && Channels(settings, i) > 0
    ensures Covers(master, settings, i) <==> master[i].laneNum % Channels(settings, i) == 0
  {
    var m, c, w := master[i], Channels(settings, i), Width(master, settings, i);
    assert m.laneNum == c * w + m.laneNum % c;
    if m.laneNum % c == 0 {
      forall l | m.firstLane <= l < m.firstLane + m.laneNum
        ensures Used(master, settings, i, l)
      {
        var ii := InWhichRun(l - m.firstLane, c, w);
        RowInside(master, settings, i, ii);
        assert l in PortRowAt(master, settings, i, ii).lanes;
      }
    } else {
      var l := m.firstLane + c * w;
      forall ii | 0 <= ii < c ensures l !in PortRowAt(master, settings, i, ii).lanes {
        RowInside(master, settings, i, ii);
        MulMono(ii, c, w);
      }
      assert c * w >= 0 && !Used(master, settings, i, l);
    }
  }

  lemma {:induction false} InWhichRun(offset: nat, c: nat, w: nat) returns (ii: nat)
    requires 0 < c && offset < c * w
    ensures ii < c && ii * w <= offset < ii * w + w
    decreases c
  {
    if (c - 1) * w <= offset {
      ii := c - 1;
    } else {
      ii := InWhichRun(offset, c - 1, w);
    }
  }

  // ----- reading the chip's port list back -----

  /** One item of the dictionary made from the chip's port list. */
  datatype PsLine = PsLine(index: int, name: string, lane: nat)

  /** The pattern that reads the list keeps one digit of the lane count. */
  function FirstDigit(n: nat): (d: nat)
    ensures d < 10 && (n < 10 ==> d == n)
  {
    if n < 10 then n else FirstDigit(n / 10)
  }

  function Power10(k: nat): (n: nat)
    ensures n > 0
  {
    if k == 0 then 1 else 10 * Power10(k - 1)
  }

  /** It is the leading one. */
  lemma {:induction false} LeadingDigit(n: nat) returns (k: nat)
    ensures FirstDigit(n) * Power10(k) <= n < (FirstDigit(n) + 1) * Power10(k)
    ensures n > 0 ==> FirstDigit(n) > 0
    decreases n
  {
    if n < 10 {
      k := 0;
    } else {
      var j := LeadingDigit(n / 10);
      k := j + 1;
      TenTimes(FirstDigit(n), Power10(j), n);
    }
  }

  lemma TenTimes(d: nat, p: nat, n: nat)
    requires d * p <= n / 10 < (d + 1) * p
    ensures d * (10 * p) <= n < (d + 1) * (10 * p)
  {
    assert d * (10 * p) == 10 * (d * p) && (d + 1) * (10 * p) == 10 * ((d + 1) * p);
  }

  /** The unit whose template has this port; a later template replaces an earlier one. */
  function UnitAt(master: seq<Master>, port: int, n: nat): (u: Option<nat>)
    requires n <= |master|
    ensures u.Some? ==> 1 <= u.value <= n && master[u.value - 1].port == port
    ensures u.None? ==> forall i :: 0 <= i < n ==> master[i].port != port
  {
    if n == 0 then None else if master[n - 1].port == port then Some(n) else UnitAt(master, port, n - 1)
  }

  /** The first of the offsets `j..3` below `index` that is a template's port. */
  function Near(master: seq<Master>, index: int, lane: nat, j: nat): Option<Name>
    decreases 4 - j
  {
    if j >= 4 then None
    else
      var unit := UnitAt(master, index - j, |master|);
      if unit.Some? then Some(Name(unit.value, 1 + if lane == 2 then 1 else j)) else Near(master, index, lane, j + 1)
  }

  function Place(master: seq<Master>, index: int, lane: nat): Option<Name> {
    var unit := UnitAt(master, index, |master|);
    if unit.Some? then Some(Name(unit.value, 1)) else Near(master, index, lane, 1)
  }

  /** The template with this port that stands last is unit `u`. */
  ghost predicate LastWithPort(master: seq<Master>, port: int, u: int) {
    1 <= u <= |master| && master[u - 1].port == port && forall i :: u <= i < |master| ==> master[i].port != port
  }

  lemma {:induction false} UnitIsLast(master: seq<Master>, port: int, n: nat)
    requires n <= |master|
    ensures UnitAt(master, port, n).Some? ==>
              forall i :: UnitAt(master, port, n).value <= i < n ==> master[i].port != port
  {
    if n > 0 {
      UnitIsLast(master, port, n - 1);
    }
  }

  /** No template has the port. */
  ghost predicate Vacant(master: seq<Master>, port: int) {
    forall i :: 0 <= i < |master| ==> master[i].port != port
  }

  /** No template has a port at the index or fewer than `j` below it. */
  ghost predicate NoneNearer(master: seq<Master>, index: int, j: int) {
    forall port :: index - j < port <= index ==> Vacant(master, port)
  }

  lemma UnitExactly(master: seq<Master>, port: int)
    ensures UnitAt(master, port, |master|).None? <==> Vacant(master, port)
    ensures forall u :: LastWithPort(master, port, u) ==> UnitAt(master, port, |master|) == Some(u)
  {
    UnitIsLast(master, port, |master|);
    var unit := UnitAt(master, port, |master|);
    forall u | LastWithPort(master, port, u) ensures unit == Some(u) {
      assert unit.Some?;
      assert u <= unit.value <= u;
    }
  }

  lemma {:induction false} NearSkips(master: seq<Master>, index: int, lane: nat, from_: nat, j: nat)
    requires from_ <= j <= 4 && NoneNearer(master, index, j)
    ensures Near(master, index, lane, from_) == Near(master, index, lane, j)
    decreases j - from_
  {
    if from_ < j {
      assert Vacant(master, index - from_);
      UnitExactly(master, index - from_);
      NearSkips(master, index, lane, from_ + 1, j);
    }
  }

  /**
   A line goes to the nearest template port at its index or up to three below: as the first sub-interface at the
   port itself, as the second for two lanes, and otherwise counted by the distance.
   */
  lemma PlaceExactly(master: seq<Master>, index: int, lane: nat, j: nat, u: nat)
    requires j < 4 && LastWithPort(master, index - j, u) && NoneNearer(master, index, j)
    ensures Place(master, index, lane) == Some(Name(u, if j == 0 then 1 else if lane == 2 then 2 else j + 1))
  {
    UnitExactly(master, index);
    UnitExactly(master, index - j);
    if j > 0 {
      assert Vacant(master, index);
      NearSkips(master, index, lane, 1, j);
    }
  }

  /** With none near it goes nowhere. */
  lemma PlaceNowhere(master: seq<Master>, index: int, lane: nat)
    requires NoneNearer(master, index, 4)
    ensures Place(master, index, lane) == None
  {
    UnitExactly(master, index);
    assert Vacant(master, index);
    NearSkips(master, index, lane, 1, 4);
  }

  /** Where each line is placed. */
  function Places(master: seq<Master>, listed: seq<PsLine>): (places: seq<Option<Name>>)
    ensures |places| == |listed|
    ensures forall k :: 0 <= k < |listed| ==> places[k] == Place(master, listed[k].index, listed[k].lane)
  {
    seq(|listed|, k requires 0 <= k < |listed| => Place(master, listed[k].index, listed[k].lane))
  }

  /** Line `k` is the last of the first `upto` lines placed at the name. */
  ghost predicate LastPlaced(places: seq<Option<Name>>, upto: nat, k: int, name: Name)
    requires upto <= |places|
  {
    0 <= k < upto && places[k] == Some(name) && forall l :: k < l < upto ==> places[l] != Some(name)
  }

  ghost predicate Recorded(places: seq<Option<Name>>, listed: seq<PsLine>, upto: nat, name: Name, value: (int, string))
    requires upto <= |places| == |listed|
  {
    exists k :: LastPlaced(places, upto, k, name) && value == (listed[k].index, listed[k].name)
  }

  /** After `upto` lines the map holds each name some line was placed at, with the last such line. */
  ghost predicate Reads(places: seq<Option<Name>>, listed: seq<PsLine>, upto: nat, pmap: map<Name, (int, string)>)
    requires upto <= |places| == |listed|
  {
    && (forall k :: 0 <= k < upto && places[k].Some? ==> places[k].value in pmap)
    && forall n :: n in pmap ==> Recorded(places, listed, upto, n, pmap[n])
  }

  lemma ReadsGrow(places: seq<Option<Name>>, listed: seq<PsLine>, upto: nat, before: map<Name, (int, string)>,
                  after: map<Name, (int, string)>)
    requires upto < |places| == |listed| && Reads(places, listed, upto, before)
    requires after == if places[upto].None? then before
                      else before[places[upto].value := (listed[upto].index, listed[upto].name)]
    ensures Reads(places, listed, upto + 1, after)
  {
    forall n | n in after ensures Recorded(places, listed, upto + 1, n, after[n]) {
      if places[upto] == Some(n) {
        assert LastPlaced(places, upto + 1, upto, n);
      } else {
        assert Recorded(places, listed, upto, n, before[n]);
        var k :| LastPlaced(places, upto, k, n) && before[n] == (listed[k].index, listed[k].name);
        assert LastPlaced(places, upto + 1, k, n);
      }
    }
  }

  ghost predicate TableOf(table: map<int, nat>, master: seq<Master>, n: nat)
    requires n <= |master|
  {
    forall p :: (p in table <==> UnitAt(master, p, n).Some?) && (p in table ==> Some(table[p]) == UnitAt(master, p, n))
  }

  /** `update_bcm_portmap` once the chip's port list is parsed. */
  method UpdatePortmap(master: seq<Master>, listed: seq<PsLine>) returns (pmap: map<Name, (int, string)>)
    ensures Reads(Places(master, listed), listed, |listed|, pmap)
  {
    var table: map<int, nat> := map[];
    for i := 0 to |master|
      invariant TableOf(table, master, i)
    {
      table := table[master[i].port := i + 1];
    }
    ghost var places := Places(master, listed);
    pmap := map[];
    for k := 0 to |listed|
      invariant Reads(places, listed, k, pmap)
    {
      ghost var before := pmap;
      pmap := PlaceLine(master, table, listed[k], pmap);
      ReadsGrow(places, listed, k, before, pmap);
    }
  }

  /** The body of its loop. */
  method PlaceLine(ghost master: seq<Master>, table: map<int, nat>, line: PsLine, pmap: map<Name, (int, string)>)
      returns (after: map<Name, (int, string)>)
    requires TableOf(table, master, |master|)
    ensures var place := Place(master, line.index, line.lane);
            after == if place.None? then pmap else pmap[place.value := (line.index, line.name)]
  {
    var index := line.index;
    if index in table {
      return pmap[Name(table[index], 1) := (index, line.name)];
    }
    var j := 1;
    while j < 4
      invariant 1 <= j <= 4 && Place(master, index, line.lane) == Near(master, index, line.lane, j)
    {
      if index - j in table {
        var sub := if line.lane == 2 then 1 else j;
        return pmap[Name(table[index - j], 1 + sub) := (index, line.name)];
      }
      j := j + 1;
    }
    return pmap;
  }

  /** Every template has a lane, and a port number of its own for each of them. */
  ghost predicate DisjointPorts(master: seq<Master>) {
    && (forall i :: 0 <= i < |master| ==> master[i].laneNum >= 1)
    && forall i, j :: 0 <= i < |master| && 0 <= j < |master| && i != j ==>
         master[i].port + master[i].laneNum <= master[j].port || master[j].port + master[j].laneNum <= master[i].port
  }

  /** Inside a template's block of ports only its first is a template's port. */
  lemma OnlyOwnPort(master: seq<Master>, i: nat, o: nat)
    requires DisjointPorts(master) && i < |master| && o < master[i].laneNum
    ensures UnitAt(master, master[i].port + o, |master|) == if o == 0 then Some(i + 1) else None
  {
  }

  lemma {:induction false} NearInside(master: seq<Master>, i: nat, o: nat, lane: nat, j: nat)
    requires DisjointPorts(master) && i < |master| && 1 <= j <= 4 && j <= o < master[i].laneNum
    ensures Near(master, master[i].port + o, lane, j)
            == if o <= 3 then Some(Name(i + 1, 1 + if lane == 2 then 1 else o)) else None
    decreases 4 - j
  {
    if j < 4 {
      OnlyOwnPort(master, i, o - j);
      if j < o {
        NearInside(master, i, o, lane, j + 1);
      }
    }
  }

  /** Where a port at offset `o` of a template's block is placed. */
  lemma PlaceInside(master: seq<Master>, i: nat, o: nat, lane: nat)
    requires DisjointPorts(master) && i < |master| && o < master[i].laneNum
    ensures Place(master, master[i].port + o, lane)
            == if o == 0 then Some(Name(i + 1, 1))
               else if o <= 3 then Some(Name(i + 1, 1 + if lane == 2 then 1 else o)) else None
  {
    OnlyOwnPort(master, i, o);
    if o >= 1 {
      NearInside(master, i, o, lane, 1);
    }
  }

  /** Sub-interface `ii` of master `i` is found under its own name when the chip lists its port. */
  ghost predicate ComesBack(master: seq<Master>, settings: Settings, i: nat, ii: nat)
    requires i < |master| && Channels(settings, i) > 0
  {
    Place(master, ChipRowAt(master, settings, i, ii).port, FirstDigit(Width(master, settings, i)))
    == Some(Name(i + 1, ii + 1))
  }

  lemma PortInside(master: seq<Master>, settings: Settings, i: nat, ii: nat)
    requires DisjointPorts(master) && i < |master| && ii < Channels(settings, i)
    ensures 0 <= ii * Width(master, settings, i) < master[i].laneNum
  {
    RunInside(master[i].laneNum, Channels(settings, i), ii);
    assert ii * Width(master, settings, i) >= 0;
    if Width(master, settings, i) == 0 {
      assert ii * Width(master, settings, i) == 0;
    }
  }

  /**
   Which sub-interfaces come back: the first, and after it those of width one up to the fourth or the second
   of width two.
   */
  lemma ComesBackExactly(master: seq<Master>, settings: Settings, i: nat, ii: nat)
    requires DisjointPorts(master) && i < |master| && ii < Channels(settings, i)
    ensures ComesBack(master, settings, i, ii)
            <==> var w := Width(master, settings, i); ii == 0 || (w == 1 && ii <= 3) || (w == 2 && ii == 1)
  {
    var w := Width(master, settings, i);
    PortInside(master, settings, i, ii);
    PlaceInside(master, i, ii * w, FirstDigit(w));
    Products(ii, w);
  }

  /** Offsets one to three from small factors. */
  lemma Products(ii: nat, w: nat)
    ensures ii * w == 0 <==> ii == 0 || w == 0
    ensures 1 <= ii * w <= 3 ==> w <= 3 && (w == 1 <==> ii == ii * w) && (w != 1 ==> ii == 1)
    ensures w == 1 ==> ii * w == ii
    ensures w == 2 && ii == 1 ==> ii * w == 2
  {
    if ii >= 1 && w >= 1 {
      assert (ii - 1) * (w - 1) >= 0;
      assert ii * w == (ii - 1) * (w - 1) + ii + w - 1;
    }
  }

  /** When all of a master's sub-interfaces come back. */
  predicate Readable(master: seq<Master>, settings: Settings, i: nat)
    requires i < |master| && Channels(settings, i) > 0
  {
    var c, w := Channels(settings, i), Width(master, settings, i);
    c == 1 || (w == 1 && c <= 4) || (w == 2 && c == 2)
  }

  lemma AllComeBackExactly(master: seq<Master>, settings: Settings, i: nat)
    requires DisjointPorts(master) && i < |master| && Channels(settings, i) > 0
    ensures (forall ii :: 0 <= ii < Channels(settings, i) ==> ComesBack(master, settings, i, ii))
            <==> Readable(master, settings, i)
  {
    var c := Channels(settings, i);
    forall ii | 0 <= ii < c
      ensures ComesBack(master, settings, i, ii)
              <==> var w := Width(master, settings, i); ii == 0 || (w == 1 && ii <= 3) || (w == 2 && ii == 1)
    {
      ComesBackExactly(master, settings, i, ii);
    }
    if c > 1 && !Readable(master, settings, i) {
      assert !ComesBack(master, settings, i, 1) || !ComesBack(master, settings, i, c - 1);
    }
  }

  /** With four lanes a master can be read back up to four channels; with eight, only unbroken. */
  lemma FourLanesReadable(master: seq<Master>, settings: Settings, i: nat)
    requires i < |master| && Channels(settings, i) > 0
    ensures master[i].laneNum == 4 ==> (Readable(master, settings, i) <==> Channels(settings, i) <= 4)
    ensures master[i].laneNum == 8 ==> (Readable(master, settings, i) <==> Channels(settings, i) == 1)
  {
    var c, n := Channels(settings, i), master[i].laneNum;
    if n == 4 && c > 4 {
      assert n / c == 0;
    }
    if n == 8 && c > 8 {
      assert n / c == 0;
    }
  }

  /** Line `k` is the chip's line for sub-interface `ii` of master `i`: its port and its number of lanes. */
  ghost predicate LineFor(listed: seq<PsLine>, k: nat, master: seq<Master>, settings: Settings, i: nat, ii: nat) {
    && k < |listed| && i < |master| && ii < Channels(settings, i)
    && listed[k].index == ChipRowAt(master, settings, i, ii).port
    && listed[k].lane == FirstDigit(Width(master, settings, i))
  }

  ghost predicate Shown(listed: seq<PsLine>, master: seq<Master>, settings: Settings, i: nat, ii: nat) {
    exists k :: LineFor(listed, k, master, settings, i, ii)
  }

  ghost predicate Configured(listed: seq<PsLine>, k: nat, master: seq<Master>, settings: Settings) {
    exists i, ii :: LineFor(listed, k, master, settings, i, ii)
  }

  /** The chip lists the configured ports, in any order, and no others. */
  ghost predicate ChipShows(listed: seq<PsLine>, master: seq<Master>, settings: Settings) {
    && (forall i: nat, ii: nat :: i < |master| && ii < Channels(settings, i) ==> Shown(listed, master, settings, i, ii))
    && forall k: nat :: k < |listed| ==> Configured(listed, k, master, settings)
  }

  /** A port number of the configuration tells the master it came from. */
  lemma PortTellsMaster(master: seq<Master>, settings: Settings, i: nat, ii: nat, j: nat, jj: nat)
    requires DisjointPorts(master) && i < |master| && j < |master|
    requires ii < Channels(settings, i) && jj < Channels(settings, j)
    requires ChipRowAt(master, settings, i, ii).port == ChipRowAt(master, settings, j, jj).port
    ensures i == j
  {
    PortInside(master, settings, i, ii);
    PortInside(master, settings, j, jj);
  }

  /** Every name of the port configuration leads back to the port number of its row in the chip configuration. */
  ghost predicate NamesReturn(ports: seq<PortRow>, chips: seq<ChipRow>, pmap: map<Name, (int, string)>)
    requires |ports| == |chips|
  {
    forall a :: 0 <= a < |ports| ==> ports[a].name in pmap && pmap[ports[a].name].0 == chips[a].port
  }

  /** The line of a sub-interface that comes back is placed at its name. */
  lemma LineComesBack(listed: seq<PsLine>, k: nat, master: seq<Master>, settings: Settings, i: nat, ii: nat)
    requires LineFor(listed, k, master, settings, i, ii)
    ensures Places(master, listed)[k] == Some(Name(i + 1, ii + 1)) <==> ComesBack(master, settings, i, ii)
  {
  }

  ghost predicate AllReadable(master: seq<Master>, settings: Settings)
    requires Divisible(master, settings)
  {
    forall i :: 0 <= i < |master| ==> Readable(master, settings, i)
  }

  lemma ReadableReturns(master: seq<Master>, settings: Settings, listed: seq<PsLine>, pmap: map<Name, (int, string)>,
                        i: nat, ii: nat)
    requires DisjointPorts(master) && Divisible(master, settings)
    requires ChipShows(listed, master, settings) && Reads(Places(master, listed), listed, |listed|, pmap)
    requires AllReadable(master, settings)
    requires i < |master| && ii < Channels(settings, i)
    ensures Name(i + 1, ii + 1) in pmap && pmap[Name(i + 1, ii + 1)].0 == ChipRowAt(master, settings, i, ii).port
  {
    var places, name := Places(master, listed), Name(i + 1, ii + 1);
    AllComeBackExactly(master, settings, i);
    assert Shown(listed, master, settings, i, ii);
    var k :| LineFor(listed, k, master, settings, i, ii);
    LineComesBack(listed, k, master, settings, i, ii);
    assert Recorded(places, listed, |listed|, name, pmap[name]);
    var last :| LastPlaced(places, |listed|, last, name) && pmap[name] == (listed[last].index, listed[last].name);
    var j, jj := ConfiguredName(master, settings, listed, last);
  }

  lemma ConfiguredName(master: seq<Master>, settings: Settings, listed: seq<PsLine>, k: nat) returns (i: nat, ii: nat)
    requires DisjointPorts(master) && Divisible(master, settings) && ChipShows(listed, master, settings) && k < |listed|
    requires AllReadable(master, settings)
    ensures LineFor(listed, k, master, settings, i, ii) && Places(master, listed)[k] == Some(Name(i + 1, ii + 1))
  {
    assert Configured(listed, k, master, settings);
    i, ii :| LineFor(listed, k, master, settings, i, ii);
    AllComeBackExactly(master, settings, i);
    LineComesBack(listed, k, master, settings, i, ii);
  }

  lemma ReturnsReadable(master: seq<Master>, settings: Settings, listed: seq<PsLine>, pmap: map<Name, (int, string)>,
                        i: nat, ii: nat)
    requires DisjointPorts(master) && Divisible(master, settings)
    requires ChipShows(listed, master, settings) && Reads(Places(master, listed), listed, |listed|, pmap)
    requires i < |master| && ii < Channels(settings, i)
    requires Name(i + 1, ii + 1) in pmap && pmap[Name(i + 1, ii + 1)].0 == ChipRowAt(master, settings, i, ii).port
    ensures ComesBack(master, settings, i, ii)
  {
    var places, name := Places(master, listed), Name(i + 1, ii + 1);
    assert Recorded(places, listed, |listed|, name, pmap[name]);
    var last :| LastPlaced(places, |listed|, last, name) && pmap[name] == (listed[last].index, listed[last].name);
    assert Configured(listed, last, master, settings);
    var j, jj :| LineFor(listed, last, master, settings, j, jj);
    PortTellsMaster(master, settings, i, ii, j, jj);
    LineComesBack(listed, last, master, settings, i, ii);
  }

  /** The rows of sub-interface `ii` of master `i` stand at the same place in both lists. */
  lemma PortRowThere(ports: seq<PortRow>, master: seq<Master>, settings: Settings, i: nat, ii: nat)
    requires Divisible(master, settings) && i < |master| && ii < Channels(settings, i)
    requires ListsPorts(ports, master, settings, |master|)
    ensures Before(settings, i) + ii < |ports| && ports[Before(settings, i) + ii].name == Name(i + 1, ii + 1)
  {
    assert PortListed(ports, master, settings, i, ii);
  }

  lemma ChipRowThere(chips: seq<ChipRow>, master: seq<Master>, settings: Settings, i: nat, ii: nat)
    requires Divisible(master, settings) && i < |master| && ii < Channels(settings, i)
    requires ListsChips(chips, master, settings, |master|)
    ensures Before(settings, i) + ii < |chips| && chips[Before(settings, i) + ii] == ChipRowAt(master, settings, i, ii)
  {
    assert ChipListed(chips, master, settings, i, ii);
  }

  lemma NamesReturnedReadable(ports: seq<PortRow>, chips: seq<ChipRow>, master: seq<Master>, settings: Settings,
                              listed: seq<PsLine>, pmap: map<Name, (int, string)>, i: nat)
    requires DisjointPorts(master) && Divisible(master, settings)
    requires ListsPorts(ports, master, settings, |master|) && ListsChips(chips, master, settings, |master|)
    requires ChipShows(listed, master, settings) && Reads(Places(master, listed), listed, |listed|, pmap)
    requires NamesReturn(ports, chips, pmap) && i < |master|
    ensures Readable(master, settings, i)
  {
    forall ii: nat | ii < Channels(settings, i) ensures ComesBack(master, settings, i, ii) {
      PortRowThere(ports, master, settings, i, ii);
      ChipRowThere(chips, master, settings, i, ii);
      ReturnsReadable(master, settings, listed, pmap, i, ii);
    }
    AllComeBackExactly(master, settings, i);
  }

  lemma RowReturns(ports: seq<PortRow>, chips: seq<ChipRow>, master: seq<Master>, settings: Settings,
                   listed: seq<PsLine>, pmap: map<Name, (int, string)>, a: nat)
    requires DisjointPorts(master) && Divisible(master, settings)
    requires ListsPorts(ports, master, settings, |master|) && ListsChips(chips, master, settings, |master|)
    requires ChipShows(listed, master, settings) && Reads(Places(master, listed), listed, |listed|, pmap)
    requires AllReadable(master, settings) && a < |ports|
    ensures ports[a].name in pmap && pmap[ports[a].name].0 == chips[a].port
  {
    var i, ii := Located(settings, |master|, a);
    PortRowThere(ports, master, settings, i, ii);
    ChipRowThere(chips, master, settings, i, ii);
    ReadableReturns(master, settings, listed, pmap, i, ii);
  }

  /**
   `update_bcm_portmap` inverts the configuration exactly when every master's channels can be read back:
   unbroken, up to four of one lane, or two of two lanes. With masters of four lanes that is any count up to four.
   */
  lemma NamesReturnExactly(ports: seq<PortRow>, chips: seq<ChipRow>, master: seq<Master>, settings: Settings,
                           listed: seq<PsLine>, pmap: map<Name, (int, string)>)
    requires DisjointPorts(master) && Divisible(master, settings)
    requires ListsPorts(ports, master, settings, |master|) && ListsChips(chips, master, settings, |master|)
    requires ChipShows(listed, master, settings) && Reads(Places(master, listed), listed, |listed|, pmap)
    ensures NamesReturn(ports, chips, pmap) <==> AllReadable(master, settings)
  {
    if NamesReturn(ports, chips, pmap) {
      forall i | 0 <= i < |master| ensures Readable(master, settings, i) {
        NamesReturnedReadable(ports, chips, master, settings, listed, pmap, i);
      }
    }
    if AllReadable(master, settings) {
      forall a | 0 <= a < |ports| {
        RowReturns(ports, chips, master, settings, listed, pmap, a);
      }
    }
  }

  /** And then it holds no name but theirs. */
  lemma NoOtherNames(ports: seq<PortRow>, master: seq<Master>, settings: Settings, listed: seq<PsLine>,
                     pmap: map<Name, (int, string)>, n: Name)
    requires DisjointPorts(master) && Divisible(master, settings) && ListsPorts(ports, master, settings, |master|)
    requires ChipShows(listed, master, settings) && Reads(Places(master, listed), listed, |listed|, pmap) && n in pmap
    requires AllReadable(master, settings)
    ensures exists a :: 0 <= a < |ports| && ports[a].name == n
  {
    assert Recorded(Places(master, listed), listed, |listed|, n, pmap[n]);
    var k :| LastPlaced(Places(master, listed), |listed|, k, n);
    var i, ii := ConfiguredName(master, settings, listed, k);
    assert PortListed(ports, master, settings, i, ii);
  }
}
