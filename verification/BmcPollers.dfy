/** The OEM pollers that src/drivers/sdi_bmc_dev.c builds from a configuration: one per sensor named,
    with the commands of the fans that name it. */
module BmcPollers {
  import opened Selections
  import opened Wrappers

  const MAX_NAME_LEN := 64

  datatype Command = Command(netfn: nat, cmd: nat, busId: nat, slaveAddr: nat, dataSize: nat, offset: nat, data: nat)

  /** The child of a fan node that asks for a sensor to be polled. */
  datatype OemRequest = OemRequest(sensor: string, sensorBit: Option<nat>, command: Command)

  /** A configuration node: its tag, its status attribute if any, and its first child if any. */
  datatype Node = Node(tag: string, status: Option<string>, child: Option<OemRequest>)
  {
    predicate AsksForPoller() { tag == "fan" && status.None? && child.Some? }
  }

  datatype Poller = Poller(sensor: string, sensorBit: nat, commands: seq<Command>)

  // ----- What the walk computes

  /** safestrncpy into the poller's name buffer. */
  function Stored(name: string): string {
    if |name| < MAX_NAME_LEN then name else name[..MAX_NAME_LEN - 1]
  }

  /** The position of the first poller with this name, or the number of pollers. */
  function Find(pollers: seq<Poller>, sensor: string): (i: nat)
    ensures i <= |pollers|
    ensures i < |pollers| ==> pollers[i].sensor == sensor
    ensures forall j :: 0 <= j < i ==> pollers[j].sensor != sensor
  {
    if pollers == [] then 0
    else if pollers[0].sensor == sensor then 0
    else Find(pollers[1..], sensor) + 1
  }

  function Add(pollers: seq<Poller>, r: OemRequest): seq<Poller> {
    var i := Find(pollers, r.sensor);
    if i < |pollers| then
      pollers[i := pollers[i].(commands := pollers[i].commands + [r.command])]
    else
      pollers + [Poller(Stored(r.sensor), if r.sensorBit.Some? then r.sensorBit.value else 0, [r.command])]
  }

  function Built(rs: seq<OemRequest>): seq<Poller> {
    if rs == [] then [] else Add(Built(rs[..|rs| - 1]), rs[|rs| - 1])
  }

  function Requests(nodes: seq<Node>): seq<OemRequest> {
    if nodes == [] then []
    else
      var n := nodes[|nodes| - 1];
      Requests(nodes[..|nodes| - 1]) + if n.AsksForPoller() then [n.child.value] else []
  }

  class BmcDevice {
    var pollers: seq<Poller>

    constructor ()
      ensures pollers == []
    {
      pollers := [];
    }

    /** sdi_bmc_get_poller_for_sensor. */
    method GetPollerForSensor(sensor: string) returns (i: nat)
      ensures i <= |pollers|
      ensures i < |pollers| ==> pollers[i].sensor == sensor
      ensures forall j :: 0 <= j < i ==> pollers[j].sensor != sensor
    {
      i := 0;
      while i < |pollers|
        invariant i <= |pollers|
        invariant forall j :: 0 <= j < i ==> pollers[j].sensor != sensor
      {
        if pollers[i].sensor == sensor {
          return;
        }
        i := i + 1;
      }
    }

    /** The poller part of sdi_bmc_populate_dev_list. */
    method PopulateDevList(nodes: seq<Node>)
      modifies this
      ensures pollers == if nodes == [] then old(pollers) else Built(Requests(nodes))
      ensures nodes != [] ==> forall i :: 0 <= i < |nodes| && nodes[i].tag == "fan" && nodes[i].status == None && nodes[i].child.Some? ==>
                InPollerOf(pollers, nodes[i].child.value.sensor, nodes[i].child.value.command)
      ensures nodes != [] ==>
                Total(pollers) == |set i: nat | i < |nodes| && nodes[i].tag == "fan" && nodes[i].status == None && nodes[i].child.Some?|
    {
      if |nodes| == 0 {
        return;
      }
      pollers := [];
      for k := 0 to |nodes|
        invariant pollers == Built(Requests(nodes[..k]))
      {
        assert nodes[..k + 1][..k] == nodes[..k];
        ghost var before := Requests(nodes[..k]);
        if nodes[k].AsksForPoller() {
          var r := nodes[k].child.value;
          assert (before + [r])[..|before|] == before;
          var i := GetPollerForSensor(r.sensor);
          FindIsFirst(pollers, r.sensor, i);
          ghost var was := pollers;
          if i == |pollers| {
            var bit := if r.sensorBit.Some? then r.sensorBit.value else 0;
            pollers := pollers + [Poller(Stored(r.sensor), bit, [])];
          }
          pollers := pollers[i := pollers[i].(commands := pollers[i].commands + [r.command])];
          assert [] + [r.command] == [r.command];
          assert forall j :: 0 <= j < |pollers| ==> pollers[j] == Add(was, r)[j];
          assert pollers == Add(was, r);
          assert Requests(nodes[..k + 1]) == before + [r];
        } else {
          assert Requests(nodes[..k + 1]) == before;
        }
      }
      assert nodes[..|nodes|] == nodes;
      AskersArePolled(nodes);
    }
  }

  /** A poller of that name, cut to 63 characters, has the command. */
  ghost predicate InPollerOf(pollers: seq<Poller>, sensor: string, command: Command) {
    exists i :: 0 <= i < |pollers| && command in pollers[i].commands
                && pollers[i].sensor == if |sensor| < 64 then sensor else sensor[..63]
  }

  /** Which nodes get a poller, by their own attributes: the fans without a status sensor that have a
      child, each once and in configuration order. */
  lemma {:induction false} RequestsAre(nodes: seq<Node>) returns (at: seq<nat>)
    ensures Selects(at, set i: nat | i < |nodes| && nodes[i].tag == "fan" && nodes[i].status == None && nodes[i].child.Some?)
    ensures |at| == |Requests(nodes)|
    ensures forall k :: 0 <= k < |at| ==> at[k] < |nodes| && nodes[at[k]].child == Some(Requests(nodes)[k])
    decreases |nodes|
  {
    at := [];
    if nodes != [] {
      var last := |nodes| - 1;
      var init := nodes[..last];
      at := RequestsAre(init);
      AskersGrow(nodes);
      if nodes[last].AsksForPoller() {
        var before := set i: nat | i < |init| && init[i].tag == "fan" && init[i].status == None && init[i].child.Some?;
        SelectsOneMore(at, before, last);
        at := at + [last];
      }
    }
  }

  lemma AskersGrow(nodes: seq<Node>)
    requires nodes != []
    ensures var last, init := |nodes| - 1, nodes[..|nodes| - 1];
      (set i: nat | i < |nodes| && nodes[i].tag == "fan" && nodes[i].status == None && nodes[i].child.Some?) ==
      (set i: nat | i < |init| && init[i].tag == "fan" && init[i].status == None && init[i].child.Some?)
        + if nodes[last].tag == "fan" && nodes[last].status == None && nodes[last].child.Some? then {last} else {}
  {
    var init := nodes[..|nodes| - 1];
    assert forall i: nat :: i < |init| ==> nodes[i] == init[i];
  }

  /** Every request's command is in a poller of its stored name. */
  lemma {:induction false} CommandIsPolled(rs: seq<OemRequest>, j: nat)
    requires j < |rs|
    ensures InPollerOf(Built(rs), rs[j].sensor, rs[j].command)
    decreases |rs|
  {
    var n := |rs| - 1;
    if j < n {
      CommandIsPolled(rs[..n], j);
      AddKeepsCommands(Built(rs[..n]), rs[n], rs[j].sensor, rs[j].command);
    } else {
      FoundNameIsShort(rs[..n], rs[n].sensor);
      var i := Find(Built(rs[..n]), rs[n].sensor);
      assert rs[n].command in Built(rs)[i].commands && Built(rs)[i].sensor == Stored(rs[n].sensor);
    }
  }

  lemma AddKeepsCommands(pollers: seq<Poller>, r: OemRequest, sensor: string, command: Command)
    requires InPollerOf(pollers, sensor, command)
    ensures InPollerOf(Add(pollers, r), sensor, command)
  {
    var i :| 0 <= i < |pollers| && command in pollers[i].commands
             && pollers[i].sensor == if |sensor| < 64 then sensor else sensor[..63];
    assert command in Add(pollers, r)[i].commands && Add(pollers, r)[i].sensor == pollers[i].sensor;
  }

  lemma FoundNameIsShort(rs: seq<OemRequest>, sensor: string)
    ensures Find(Built(rs), sensor) < |Built(rs)| ==> |sensor| < MAX_NAME_LEN
  {
    var at := Find(Built(rs), sensor);
    assert at < |Built(rs)| ==> Names(Built(rs))[at] == sensor;
    NamesAreShort(rs);
  }

  /** So each of these nodes has its command in a poller, and there are no other commands. */
  lemma AskersArePolled(nodes: seq<Node>)
    ensures forall i :: 0 <= i < |nodes| && nodes[i].tag == "fan" && nodes[i].status == None && nodes[i].child.Some? ==>
              InPollerOf(Built(Requests(nodes)), nodes[i].child.value.sensor, nodes[i].child.value.command)
    ensures Total(Built(Requests(nodes))) ==
              |set i: nat | i < |nodes| && nodes[i].tag == "fan" && nodes[i].status == None && nodes[i].child.Some?|
  {
    var at := RequestsAre(nodes);
    var rs := Requests(nodes);
    var chosen := set i: nat | i < |nodes| && nodes[i].tag == "fan" && nodes[i].status == None && nodes[i].child.Some?;
    forall i | 0 <= i < |nodes| && nodes[i].tag == "fan" && nodes[i].status == None && nodes[i].child.Some?
      ensures InPollerOf(Built(rs), nodes[i].child.value.sensor, nodes[i].child.value.command)
    {
      assert i in chosen;
      var k: nat :| k < |at| && at[k] == i;
      CommandIsPolled(rs, k);
    }
    CountsAddUp(rs);
    SelectionSize(at, chosen);
  }

  lemma FindIsFirst(pollers: seq<Poller>, sensor: string, i: nat)
    requires i <= |pollers| && (i < |pollers| ==> pollers[i].sensor == sensor)
    requires forall j :: 0 <= j < i ==> pollers[j].sensor != sensor
    ensures Find(pollers, sensor) == i
  {}

  // ----- What it should be: a stable grouping by stored name

  function Names(pollers: seq<Poller>): (ns: seq<string>)
    ensures |ns| == |pollers| && forall i :: 0 <= i < |ns| ==> ns[i] == pollers[i].sensor
  {
    seq(|pollers|, i requires 0 <= i < |pollers| => pollers[i].sensor)
  }

  /** The names asked for, each once, in order of first appearance. */
  function FirstNames(rs: seq<OemRequest>): seq<string> {
    if rs == [] then []
    else
      var before, name := FirstNames(rs[..|rs| - 1]), Stored(rs[|rs| - 1].sensor);
      if name in before then before else before + [name]
  }

  /** The requests for one stored name, in configuration order. */
  function RequestsFor(rs: seq<OemRequest>, name: string): seq<OemRequest> {
    if rs == [] then []
    else
      var r := rs[|rs| - 1];
      RequestsFor(rs[..|rs| - 1], name) + if Stored(r.sensor) == name then [r] else []
  }

  function Commands(rs: seq<OemRequest>): (cs: seq<Command>)
    ensures |cs| == |rs| && forall i :: 0 <= i < |cs| ==> cs[i] == rs[i].command
  {
    seq(|rs|, i requires 0 <= i < |rs| => rs[i].command)
  }

  ghost predicate Distinct(names: seq<string>) {
    forall i, j :: 0 <= i < j < |names| ==> names[i] != names[j]
  }

  /** The poller holds exactly the commands asked for under its name, and the first request's bit. */
  ghost predicate Serves(p: Poller, rs: seq<OemRequest>) {
    var mine := RequestsFor(rs, p.sensor);
    mine != [] && p.commands == Commands(mine)
    && p.sensorBit == if mine[0].sensorBit.Some? then mine[0].sensorBit.value else 0
  }

  ghost predicate IsGrouping(pollers: seq<Poller>, rs: seq<OemRequest>) {
    && Distinct(Names(pollers))
    && Names(pollers) == FirstNames(rs)
    && forall i :: 0 <= i < |pollers| ==> Serves(pollers[i], rs)
  }

  /** No name too long for the buffer is cut to a name that is already there. */
  ghost predicate LongNamesAreNew(rs: seq<OemRequest>) {
    forall i, j :: 0 <= i < j < |rs| && |rs[j].sensor| >= MAX_NAME_LEN ==>
      Stored(rs[i].sensor) != Stored(rs[j].sensor)
  }

  lemma {:induction false} FirstNamesMember(rs: seq<OemRequest>, name: string)
    ensures name in FirstNames(rs) <==> exists i :: 0 <= i < |rs| && Stored(rs[i].sensor) == name
    decreases |rs|
  {
    if rs != [] {
      var n := |rs| - 1;
      FirstNamesMember(rs[..n], name);
      if i :| 0 <= i < n && Stored(rs[i].sensor) == name { assert rs[..n][i] == rs[i]; }
    }
  }

  /** Nobody asked under a name that is not listed. */
  lemma {:induction false} NothingFor(rs: seq<OemRequest>, name: string)
    requires name !in FirstNames(rs)
    ensures RequestsFor(rs, name) == []
    decreases |rs|
  {
    if rs != [] { NothingFor(rs[..|rs| - 1], name); }
  }

  lemma {:induction false} NamesAreShort(rs: seq<OemRequest>)
    ensures forall name :: name in Names(Built(rs)) ==> |name| < MAX_NAME_LEN
    decreases |rs|
  {
    if rs != [] {
      NamesAreShort(rs[..|rs| - 1]);
      NamesOfAdd(Built(rs[..|rs| - 1]), rs[|rs| - 1]);
    }
  }

  lemma AddKeepsNames(pollers: seq<Poller>, r: OemRequest)
    requires forall name :: name in Names(pollers) ==> |name| < MAX_NAME_LEN
    ensures forall name :: name in Names(pollers) ==> name in Names(Add(pollers, r))
    ensures Stored(r.sensor) in Names(Add(pollers, r))
  {
    NamesOfAdd(pollers, r);
    var i := Find(pollers, r.sensor);
    assert i < |pollers| ==> Names(pollers)[i] == r.sensor;
  }

  /** Every name asked for, cut to the buffer, is the name of some poller. */
  lemma {:induction false} EveryNameIsPolled(rs: seq<OemRequest>, j: nat)
    requires j < |rs|
    ensures Stored(rs[j].sensor) in Names(Built(rs))
    decreases |rs|
  {
    var n := |rs| - 1;
    if j < n { EveryNameIsPolled(rs[..n], j); }
    NamesAreShort(rs[..n]);
    AddKeepsNames(Built(rs[..n]), rs[n]);
  }

  lemma NamesOfAdd(pollers: seq<Poller>, r: OemRequest)
    ensures Names(Add(pollers, r)) ==
              if Find(pollers, r.sensor) < |pollers| then Names(pollers) else Names(pollers) + [Stored(r.sensor)]
  {}

  /** However the names are cut, no command is lost or duplicated. */
  lemma {:induction false} CountsAddUp(rs: seq<OemRequest>)
    ensures Total(Built(rs)) == |rs|
    decreases |rs|
  {
    if rs != [] {
      var n := |rs| - 1;
      CountsAddUp(rs[..n]);
      var before, r := Built(rs[..n]), rs[n];
      var i := Find(before, r.sensor);
      if i < |before| {
        TotalOfUpdate(before, i, before[i].(commands := before[i].commands + [r.command]));
      } else {
        assert Add(before, r)[..|before|] == before;
      }
    }
  }

  function Total(pollers: seq<Poller>): nat {
    if pollers == [] then 0 else Total(pollers[..|pollers| - 1]) + |pollers[|pollers| - 1].commands|
  }

  lemma {:induction false} TotalOfUpdate(pollers: seq<Poller>, i: nat, p: Poller)
    requires i < |pollers|
    ensures Total(pollers[i := p]) == Total(pollers) - |pollers[i].commands| + |p.commands|
    decreases |pollers|
  {
    var n := |pollers| - 1;
    if i < n {
      TotalOfUpdate(pollers[..n], i, p);
      assert pollers[i := p][..n] == pollers[..n][i := p];
    } else {
      assert pollers[i := p][..n] == pollers[..n];
    }
  }

  lemma {:induction false} GroupsWhenLongNamesAreNew(rs: seq<OemRequest>)
    requires LongNamesAreNew(rs)
    ensures IsGrouping(Built(rs), rs)
    decreases |rs|
  {
    if rs != [] {
      var n := |rs| - 1;
      var init := rs[..n];
      GroupsWhenLongNamesAreNew(init) by {
        forall i, j | 0 <= i < j < n && |init[j].sensor| >= MAX_NAME_LEN
          ensures Stored(init[i].sensor) != Stored(init[j].sensor)
        {
          assert rs[i] == init[i] && rs[j] == init[j];
        }
      }
      NamesAreShort(init);
      FoundIffListed(init, rs[n], rs);
      NamesOfAdd(Built(init), rs[n]);
      AddServes(Built(init), init, rs[n]);
      assert init + [rs[n]] == rs;
    }
  }

  /** The look-up by full name succeeds exactly when the stored name is already listed. */
  lemma FoundIffListed(init: seq<OemRequest>, r: OemRequest, rs: seq<OemRequest>)
    requires rs == init + [r] && LongNamesAreNew(rs) && IsGrouping(Built(init), init)
    ensures Find(Built(init), r.sensor) < |Built(init)| <==> Stored(r.sensor) in FirstNames(init)
  {
    var before := Built(init);
    var i := Find(before, r.sensor);
    assert i < |before| ==> Names(before)[i] == r.sensor;
    NamesAreShort(init);
    FirstNamesMember(init, Stored(r.sensor));
    if |r.sensor| >= MAX_NAME_LEN {
      forall k | 0 <= k < |init| ensures Stored(init[k].sensor) != Stored(r.sensor) {
        assert rs[k] == init[k] && rs[|init|] == r;
      }
    } else {
      assert i < |before| ==> Names(before)[i] == r.sensor;
    }
  }

  /** Adding one request to a grouping keeps every poller serving its name. */
  lemma AddServes(before: seq<Poller>, init: seq<OemRequest>, r: OemRequest)
    requires IsGrouping(before, init)
    requires Find(before, r.sensor) < |before| <==> Stored(r.sensor) in FirstNames(init)
    requires Find(before, r.sensor) < |before| ==> |r.sensor| < MAX_NAME_LEN
    ensures forall i :: 0 <= i < |Add(before, r)| ==> Serves(Add(before, r)[i], init + [r])
  {
    var rs, after, at := init + [r], Add(before, r), Find(before, r.sensor);
    assert rs[..|init|] == init;
    forall i | 0 <= i < |after| ensures Serves(after[i], rs) {
      var name := after[i].sensor;
      if i < |before| {
        assert Serves(before[i], init);
        assert Names(before)[i] == name;
        if i == at {
          assert Commands(RequestsFor(rs, name)) == Commands(RequestsFor(init, name)) + [r.command];
        } else if at < |before| {
          assert Names(before)[at] == r.sensor;
          assert name != r.sensor;
          assert RequestsFor(rs, name) == RequestsFor(init, name);
        } else {
          assert name in FirstNames(init);
          assert RequestsFor(rs, name) == RequestsFor(init, name);
        }
      } else {
        NothingFor(init, name);
        assert RequestsFor(rs, name) == [r];
      }
    }
  }

  lemma DistinctSnoc(names: seq<string>, name: string)
    requires Distinct(names + [name])
    ensures Distinct(names) && name !in names
  {
    var all := names + [name];
    assert all[|names|] == name;
    assert forall i :: 0 <= i < |names| ==> all[i] == names[i];
  }

  lemma LongNameIsAdded(init: seq<OemRequest>, r: OemRequest)
    requires |r.sensor| >= MAX_NAME_LEN
    ensures Names(Add(Built(init), r)) == Names(Built(init)) + [Stored(r.sensor)]
  {
    var at := Find(Built(init), r.sensor);
    assert at < |Built(init)| ==> Names(Built(init))[at] == r.sensor;
    NamesOfAdd(Built(init), r);
    NamesAreShort(init);
  }

  lemma NamesBefore(pollers: seq<Poller>, r: OemRequest)
    requires Distinct(Names(Add(pollers, r)))
    ensures Distinct(Names(pollers))
  {
    NamesOfAdd(pollers, r);
    if Names(Add(pollers, r)) != Names(pollers) { DistinctSnoc(Names(pollers), Stored(r.sensor)); }
  }

  lemma {:induction false} DistinctMeansLongNamesAreNew(rs: seq<OemRequest>)
    requires Distinct(Names(Built(rs)))
    ensures LongNamesAreNew(rs)
    decreases |rs|
  {
    if rs != [] {
      var n := |rs| - 1;
      var init, r := rs[..n], rs[n];
      NamesBefore(Built(init), r);
      DistinctMeansLongNamesAreNew(init);
      if |r.sensor| >= MAX_NAME_LEN {
        LongNameIsAdded(init, r);
        DistinctSnoc(Names(Built(init)), Stored(r.sensor));
      }
      forall i, j | 0 <= i < j < |rs| && |rs[j].sensor| >= MAX_NAME_LEN
        ensures Stored(rs[i].sensor) != Stored(rs[j].sensor)
      {
        EveryNameIsPolled(init, i);
        assert rs[i] == init[i];
        assert j < n ==> rs[j] == init[j];
      }
    }
  }

  /** The list is the stable grouping of the requests by stored name exactly when no over-long name is
      cut to one that an earlier fan brought in, which is also when the pollers' names are distinct. */
  lemma GroupsIff(rs: seq<OemRequest>)
    ensures IsGrouping(Built(rs), rs) <==> LongNamesAreNew(rs)
    ensures Distinct(Names(Built(rs))) <==> LongNamesAreNew(rs)
  {
    if LongNamesAreNew(rs) {
      GroupsWhenLongNamesAreNew(rs);
    }
    if Distinct(Names(Built(rs))) {
      DistinctMeansLongNamesAreNew(rs);
    }
  }

  /** Where every name fits, each poller therefore has the commands of exactly the fans naming it. */
  lemma FittingNamesGroup(rs: seq<OemRequest>)
    requires forall i :: 0 <= i < |rs| ==> |rs[i].sensor| < MAX_NAME_LEN
    ensures IsGrouping(Built(rs), rs)
    ensures forall i :: 0 <= i < |rs| ==> Stored(rs[i].sensor) == rs[i].sensor
  {
    GroupsIff(rs);
  }

  /** Two fans that name the same sensor by a name of 64 characters get a poller each, under one name. */
  lemma LongNameIsPolledTwice(name: string, command: Command)
    requires |name| >= MAX_NAME_LEN
    ensures var r := OemRequest(name, None, command);
            Built([r, r]) == [Poller(Stored(name), 0, [command]), Poller(Stored(name), 0, [command])]
  {
    var r := OemRequest(name, None, command);
    var p := Poller(Stored(name), 0, [command]);
    assert [r, r][..1] == [r] && [r][..0] == [];
    assert Built([r]) == [p];
    assert Find([p], name) == 1;
  }
}
