/** Fan speed maps: the lists that src/drivers/sdi_s6k_psu.c builds from a configuration and the
    nearest-entry look-ups that src/drivers/sdi_pmbus_dev.c makes in them. */
module FanSpeedMap {
  import opened Selections
  import opened Wrappers

  const UINT_MODULUS := 0x1_0000_0000

  // ----- Configuration

  datatype SpeedNode = SpeedNode(tag: string, rpm: Option<nat>, percent: Option<nat>)
  {
    predicate IsEntry() { tag == "speed" && rpm.Some? && percent.Some? }
  }

  datatype FanNode = FanNode(tag: string, ppid: Option<string>, speeds: seq<SpeedNode>)

  datatype Entry = Entry(rpm: nat, pct: nat)

  /** A map for the parts whose identifier matches a pattern. */
  datatype PpidMap = PpidMap(pattern: string, speeds: seq<Entry>)

  /** The usable entries below a fan node, in configuration order. */
  function Entries(nodes: seq<SpeedNode>): seq<Entry> {
    if nodes == [] then []
    else
      var n := nodes[|nodes| - 1];
      Entries(nodes[..|nodes| - 1])
      + if n.IsEntry() then [Entry(n.rpm.value % UINT_MODULUS, n.percent.value % UINT_MODULUS)] else []
  }

  /** What the entries are, by the nodes' own attributes: one for each speed node with a speed and a
      percentage, in configuration order, both cut to 32 bits. */
  lemma {:induction false} EntriesAre(nodes: seq<SpeedNode>) returns (at: seq<nat>)
    ensures Selects(at, set i: nat | i < |nodes| && nodes[i].tag == "speed" && nodes[i].rpm.Some? && nodes[i].percent.Some?)
    ensures |at| == |Entries(nodes)|
    ensures forall k :: 0 <= k < |at| ==>
              && at[k] < |nodes| && nodes[at[k]].rpm.Some? && nodes[at[k]].percent.Some?
              && Entries(nodes)[k].rpm == nodes[at[k]].rpm.value % 0x1_0000_0000
              && Entries(nodes)[k].pct == nodes[at[k]].percent.value % 0x1_0000_0000
    decreases |nodes|
  {
    at := [];
    if nodes != [] {
      var last := |nodes| - 1;
      var init := nodes[..last];
      at := EntriesAre(init);
      EntryNodesGrow(nodes);
      if nodes[last].IsEntry() {
        var before := set i: nat | i < |init| && init[i].tag == "speed" && init[i].rpm.Some? && init[i].percent.Some?;
        SelectsOneMore(at, before, last);
        at := at + [last];
      }
    }
  }

  lemma EntryNodesGrow(nodes: seq<SpeedNode>)
    requires nodes != []
    ensures var last, init := |nodes| - 1, nodes[..|nodes| - 1];
      (set i: nat | i < |nodes| && nodes[i].tag == "speed" && nodes[i].rpm.Some? && nodes[i].percent.Some?) ==
      (set i: nat | i < |init| && init[i].tag == "speed" && init[i].rpm.Some? && init[i].percent.Some?)
        + if nodes[last].tag == "speed" && nodes[last].rpm.Some? && nodes[last].percent.Some? then {last} else {}
  {
    var init := nodes[..|nodes| - 1];
    assert forall i: nat :: i < |init| ==> nodes[i] == init[i];
  }

  function Reversed<T>(s: seq<T>): seq<T> {
    if s == [] then [] else [s[|s| - 1]] + Reversed(s[..|s| - 1])
  }

  lemma {:induction false} ReversedAt<T>(s: seq<T>)
    ensures |Reversed(s)| == |s|
    ensures forall i :: 0 <= i < |s| ==> Reversed(s)[i] == s[|s| - 1 - i]
    decreases |s|
  {
    if s != [] { ReversedAt(s[..|s| - 1]); }
  }

  // ----- What a look-up should answer

  function AbsDiff(a: nat, b: nat): nat {
    if a >= b then a - b else b - a
  }

  /** Entry `j` is the last of those at the least distance from `x`, by the given column. */
  ghost predicate Nearest(column: seq<nat>, x: nat, j: nat) {
    && j < |column|
    && forall k :: 0 <= k < |column| ==>
         AbsDiff(x, column[k]) >= AbsDiff(x, column[j]) && (k > j ==> AbsDiff(x, column[k]) > AbsDiff(x, column[j]))
  }

  function Rpms(es: seq<Entry>): (c: seq<nat>)
    ensures |c| == |es| && forall i :: 0 <= i < |c| ==> c[i] == es[i].rpm
  {
    seq(|es|, i requires 0 <= i < |es| => es[i].rpm)
  }

  function Pcts(es: seq<Entry>): (c: seq<nat>)
    ensures |c| == |es| && forall i :: 0 <= i < |c| ==> c[i] == es[i].pct
  {
    seq(|es|, i requires 0 <= i < |es| => es[i].pct)
  }

  lemma NearestIsUnique(column: seq<nat>, x: nat, i: nat, j: nat)
    requires Nearest(column, x, i) && Nearest(column, x, j)
    ensures i == j
  {
    assert AbsDiff(x, column[i]) == AbsDiff(x, column[j]);
  }

  /** Going up in the values looked for goes up in the values found; at a tie, which falls midway between
      two entries, only one and the same look-up could go down. */
  lemma NearestRises(column: seq<nat>, x: nat, y: nat, i: nat, j: nat)
    requires x <= y && Nearest(column, x, i) && Nearest(column, y, j)
    ensures column[i] <= column[j]
  {}

  /** The look-up of a listed value finds its last listing. */
  lemma NearestOfListed(column: seq<nat>, k: nat, j: nat)
    requires k < |column| && Nearest(column, column[k], j)
    ensures column[j] == column[k] && k <= j
    ensures forall i :: j < i < |column| ==> column[i] != column[k]
  {}

  // ----- Consequences for maps

  /** The speed and the percentage rise together, and no value is listed twice. */
  ghost predicate StrictlyIncreasing(es: seq<Entry>) {
    forall i, j :: 0 <= i < |es| && 0 <= j < |es| && i != j ==>
      (es[i].rpm < es[j].rpm && es[i].pct < es[j].pct) || (es[j].rpm < es[i].rpm && es[j].pct < es[i].pct)
  }

  /** No later entry lists the same speed. */
  ghost predicate LastListing(es: seq<Entry>, i: nat) {
    i < |es| && forall k :: i < k < |es| ==> es[k].rpm != es[i].rpm
  }

  /** RPM-to-percent never falls, over all speeds, exactly when it does not fall over the entries that
      no later entry overrides. */
  ghost predicate LookupRises(es: seq<Entry>) {
    forall x: nat, y: nat, i: nat, j: nat :: x <= y && Nearest(Rpms(es), x, i) && Nearest(Rpms(es), y, j) ==>
      es[i].pct <= es[j].pct
  }

  ghost predicate EntriesRise(es: seq<Entry>) {
    forall i: nat, j: nat :: LastListing(es, i) && LastListing(es, j) && es[i].rpm <= es[j].rpm ==> es[i].pct <= es[j].pct
  }

  lemma LookupRisesIff(es: seq<Entry>)
    ensures LookupRises(es) <==> EntriesRise(es)
  {
    if EntriesRise(es) {
      forall x: nat, y: nat, i: nat, j: nat | x <= y && Nearest(Rpms(es), x, i) && Nearest(Rpms(es), y, j)
        ensures es[i].pct <= es[j].pct
      {
        NearestRises(Rpms(es), x, y, i, j);
        assert LastListing(es, i) && LastListing(es, j);
      }
    }
    if LookupRises(es) {
      forall i: nat, j: nat | LastListing(es, i) && LastListing(es, j) && es[i].rpm <= es[j].rpm
        ensures es[i].pct <= es[j].pct
      {
        assert Nearest(Rpms(es), es[i].rpm, i) && Nearest(Rpms(es), es[j].rpm, j);
      }
    }
  }

  /** In a strictly increasing map, RPM-to-percent never falls, and looking up a listed value and then
      the value found gives the listed one back, both ways. */
  lemma IncreasingMaps(es: seq<Entry>, k: nat, i: nat, j: nat)
    requires StrictlyIncreasing(es) && k < |es|
    ensures LookupRises(es)
    ensures Nearest(Rpms(es), es[k].rpm, i) && Nearest(Pcts(es), es[i].pct, j) ==> es[j].rpm == es[k].rpm
    ensures Nearest(Pcts(es), es[k].pct, i) && Nearest(Rpms(es), es[i].rpm, j) ==> es[j].pct == es[k].pct
  {
    LookupRisesIff(es);
  }

  // ----- The answer without a map

  /** The driver's divisor, the maximal speed over 100, is not zero. */
  predicate Divides(maxSpeed: nat) { maxSpeed == 0 || maxSpeed >= 100 }

  function PlainPct(maxSpeed: nat, rpm: nat): nat
    requires Divides(maxSpeed)
  {
    if maxSpeed == 0 then 100 else rpm / (maxSpeed / 100)
  }

  function PlainRpm(maxSpeed: nat, pct: nat): nat {
    if maxSpeed == 0 then 0 else pct * maxSpeed % UINT_MODULUS / 100
  }

  /** A percentage survives the trip through a speed exactly when what its speed gains from the
      remainder of the maximum stays below the divisor. */
  lemma PlainRoundTripIff(maxSpeed: nat, pct: nat)
    requires maxSpeed >= 100 && pct * maxSpeed < UINT_MODULUS
    ensures PlainPct(maxSpeed, PlainRpm(maxSpeed, pct)) == pct <==> pct * (maxSpeed % 100) / 100 < maxSpeed / 100
  {
    var d, r := maxSpeed / 100, maxSpeed % 100;
    PlainRpmIs(maxSpeed, pct, d, r);
    QuotientOfSum(pct, d, pct * r / 100);
  }

  lemma PlainRpmIs(maxSpeed: nat, pct: nat, d: nat, r: nat)
    requires maxSpeed == 100 * d + r > 0 && pct * maxSpeed < UINT_MODULUS
    ensures PlainRpm(maxSpeed, pct) == pct * d + pct * r / 100
  {
    SplitProduct(pct, d, r);
    HundredPlus(pct * d, pct * r);
  }

  lemma SplitProduct(x: nat, d: nat, r: nat)
    ensures x * (100 * d + r) == 100 * (x * d) + x * r
  {}

  lemma HundredPlus(a: nat, b: nat)
    ensures (100 * a + b) / 100 == a + b / 100
  {}

  lemma QuotientOfSum(q: nat, d: nat, gain: nat)
    requires d > 0
    ensures (q * d + gain) / d == q <==> gain < d
  {
    var a := q * d + gain;
    assert a == d * (a / d) + a % d;
    if gain < d && a / d < q {
      Multiple(d, a / d, q);
      assert false;
    }
    if gain < d && a / d > q {
      Multiple(d, q, a / d);
      assert false;
    }
  }

  lemma Multiple(d: nat, x: nat, y: nat)
    requires x < y
    ensures d * x + d <= d * y
  {
    assert d * (x + 1) <= d * y;
  }

  // ----- Building the maps

  predicate IsMap(compiles: string -> bool, n: FanNode) {
    n.tag == "fan" && n.ppid.Some? && compiles(n.ppid.value)
  }

  function Maps(compiles: string -> bool, nodes: seq<FanNode>): seq<PpidMap> {
    if nodes == [] then []
    else
      var n := nodes[|nodes| - 1];
      Maps(compiles, nodes[..|nodes| - 1]) + if IsMap(compiles, n) then [PpidMap(n.ppid.value, Entries(n.speeds))] else []
  }

  /** What the maps are, by the nodes' own attributes: one for each fan node with a part identifier that
      is a regular expression, in configuration order. */
  lemma {:induction false} MapsAre(compiles: string -> bool, nodes: seq<FanNode>) returns (at: seq<nat>)
    ensures Selects(at, set i: nat | i < |nodes| && nodes[i].tag == "fan" && nodes[i].ppid.Some? && compiles(nodes[i].ppid.value))
    ensures |at| == |Maps(compiles, nodes)|
    ensures forall k :: 0 <= k < |at| ==>
              && at[k] < |nodes| && nodes[at[k]].ppid == Some(Maps(compiles, nodes)[k].pattern)
              && Maps(compiles, nodes)[k].speeds == Entries(nodes[at[k]].speeds)
    decreases |nodes|
  {
    at := [];
    if nodes != [] {
      var last := |nodes| - 1;
      var init := nodes[..last];
      at := MapsAre(compiles, init);
      MapNodesGrow(compiles, nodes);
      if IsMap(compiles, nodes[last]) {
        var before := set i: nat | i < |init| && init[i].tag == "fan" && init[i].ppid.Some? && compiles(init[i].ppid.value);
        SelectsOneMore(at, before, last);
        at := at + [last];
      }
    }
  }

  lemma MapNodesGrow(compiles: string -> bool, nodes: seq<FanNode>)
    requires nodes != []
    ensures var last, init := |nodes| - 1, nodes[..|nodes| - 1];
      (set i: nat | i < |nodes| && nodes[i].tag == "fan" && nodes[i].ppid.Some? && compiles(nodes[i].ppid.value)) ==
      (set i: nat | i < |init| && init[i].tag == "fan" && init[i].ppid.Some? && compiles(init[i].ppid.value))
        + if nodes[last].tag == "fan" && nodes[last].ppid.Some? && compiles(nodes[last].ppid.value) then {last} else {}
  {
    var init := nodes[..|nodes| - 1];
    assert forall i: nat :: i < |init| ==> nodes[i] == init[i];
  }

  // ----- The device

  /** The last configured map whose pattern matches. */
  ghost predicate Chosen(matches: (string, string) -> bool, maps: seq<PpidMap>, ppid: string, i: nat) {
    i < |maps| && matches(maps[i].pattern, ppid) && forall k :: i < k < |maps| ==> !matches(maps[k].pattern, ppid)
  }

  /** A list built by prepending: the maps in reverse order, each with its entries in reverse order. */
  ghost predicate Mirrors(list: seq<PpidMap>, maps: seq<PpidMap>) {
    && |list| == |maps|
    && forall i :: 0 <= i < |maps| ==>
         list[|maps| - 1 - i] == PpidMap(maps[i].pattern, Reversed(maps[i].speeds))
  }

  lemma MirrorsOneMore(list: seq<PpidMap>, maps: seq<PpidMap>, m: PpidMap)
    requires Mirrors(list, maps)
    ensures Mirrors([PpidMap(m.pattern, Reversed(m.speeds))] + list, maps + [m])
  {}

  class Psu {
    const compiles: string -> bool            // the pattern is a regular expression
    const matches: (string, string) -> bool   // a pattern against an identifier
    const maxSpeed: nat
    var fanSpeedMap: seq<PpidMap>             // the list, its head first
    ghost var configured: seq<PpidMap>        // the same maps and entries in configuration order

    ghost predicate Valid()
      reads this
    {
      Mirrors(fanSpeedMap, configured)
    }

    /** The list-building loops of sdi_s6k_psu_register: each new map and each new entry goes to the
        front of its list. */
    constructor (compiles: string -> bool, matches: (string, string) -> bool, maxSpeed: nat, nodes: seq<FanNode>)
      ensures Valid() && configured == Maps(compiles, nodes)
      ensures this.compiles == compiles && this.matches == matches && this.maxSpeed == maxSpeed
    {
      this.compiles, this.matches, this.maxSpeed := compiles, matches, maxSpeed;
      fanSpeedMap, configured := [], [];
      new;
      for k := 0 to |nodes|
        invariant Valid() && configured == Maps(compiles, nodes[..k])
      {
        var n := nodes[k];
        assert nodes[..k + 1][..k] == nodes[..k];
        if n.tag != "fan" || n.ppid.None? || !compiles(n.ppid.value) {
          assert Maps(compiles, nodes[..k + 1]) == Maps(compiles, nodes[..k]);
          continue;
        }
        MirrorsOneMore(fanSpeedMap, configured, PpidMap(n.ppid.value, Entries(n.speeds)));
        fanSpeedMap := [PpidMap(n.ppid.value, [])] + fanSpeedMap;
        ReadSpeeds(n.speeds);
        configured := configured + [PpidMap(n.ppid.value, Entries(n.speeds))];
      }
      assert nodes[..|nodes|] == nodes;
    }

    method ReadSpeeds(nodes: seq<SpeedNode>)
      requires fanSpeedMap != [] && fanSpeedMap[0].speeds == []
      modifies this`fanSpeedMap
      ensures fanSpeedMap == old(fanSpeedMap)[0 := old(fanSpeedMap)[0].(speeds := Reversed(Entries(nodes)))]
    {
      for k := 0 to |nodes|
        invariant fanSpeedMap == old(fanSpeedMap)[0 := old(fanSpeedMap)[0].(speeds := Reversed(Entries(nodes[..k])))]
      {
        var n := nodes[k];
        ghost var before := Entries(nodes[..k]);
        assert nodes[..k + 1][..k] == nodes[..k];
        if n.tag != "speed" || n.rpm.None? || n.percent.None? {
          assert Entries(nodes[..k + 1]) == before;
          continue;
        }
        var rpm, pct := n.rpm.value % UINT_MODULUS, n.percent.value % UINT_MODULUS;
        assert Entries(nodes[..k + 1]) == before + [Entry(rpm, pct)];
        assert (before + [Entry(rpm, pct)])[..|before|] == before;
        var p := fanSpeedMap[0];
        fanSpeedMap := fanSpeedMap[0 := p.(speeds := [Entry(rpm, pct)] + p.speeds)];
      }
      assert nodes[..|nodes|] == nodes;
    }

    /** The map, with entries, that answers for a part. */
    ghost predicate Answers(ppid: Option<string>, i: nat)
      reads this
    {
      ppid.Some? && Chosen(matches, configured, ppid.value, i) && configured[i].speeds != []
    }

    /** The search for a map: the first match in the list is the last one configured. */
    method FindMap(ppid: string) returns (found: bool, speeds: seq<Entry>, ghost i: nat)
      requires Valid()
      ensures found ==> Chosen(matches, configured, ppid, i) && speeds == Reversed(configured[i].speeds)
      ensures !found ==> forall k: nat :: !Chosen(matches, configured, ppid, k)
    {
      var p := 0;
      i := 0;
      while p < |fanSpeedMap|
        invariant p <= |fanSpeedMap|
        invariant forall k :: |configured| - p <= k < |configured| ==> !matches(configured[k].pattern, ppid)
      {
        assert fanSpeedMap[p] == fanSpeedMap[|configured| - 1 - (|configured| - 1 - p)];
        if matches(fanSpeedMap[p].pattern, ppid) {
          return true, fanSpeedMap[p].speeds, |configured| - 1 - p;
        }
        p := p + 1;
      }
      found, speeds := false, [];
    }

    /** sdi_pmbus_dev_fan_speed_rpm_to_pct; `ppid` is the identifier of the part that asks, if known.
        Where a map answers, the answer is from its last configured entry at the least distance. */
    method RpmToPct(ppid: Option<string>, rpm: nat) returns (pct: nat)
      requires Valid() && Divides(maxSpeed)
      ensures forall i: nat :: Answers(ppid, i) ==>
                exists j: nat :: Nearest(Rpms(configured[i].speeds), rpm, j) && pct == configured[i].speeds[j].pct
      ensures forall i: nat, j: nat :: Answers(ppid, i) && Nearest(Rpms(configured[i].speeds), rpm, j) ==>
                pct == configured[i].speeds[j].pct
      ensures (forall i: nat :: !Answers(ppid, i)) ==> pct == if maxSpeed == 0 then 100 else rpm / (maxSpeed / 100)
    {
      var pctValid := false;
      pct := 100;
      if fanSpeedMap != [] && ppid.Some? {
        var found, speeds, i := FindMap(ppid.value);
        if found {
          var best := FindNearest(Rpms(speeds), rpm);
          if best.Some? {
            pct, pctValid := speeds[best.value].pct, true;
            BestRpmIsNearest(configured[i].speeds, rpm, best.value);
          }
          ReversedAt(configured[i].speeds);
          assert pctValid ==> Answers(ppid, i);
        }
      }
      if !pctValid {
        pct := PlainPct(maxSpeed, rpm);
      }
    }

    /** sdi_pmbus_dev_fan_speed_pct_to_rpm. */
    method PctToRpm(ppid: Option<string>, pct: nat) returns (rpm: nat)
      requires Valid()
      ensures forall i: nat :: Answers(ppid, i) ==>
                exists j: nat :: Nearest(Pcts(configured[i].speeds), pct, j) && rpm == configured[i].speeds[j].rpm
      ensures forall i: nat, j: nat :: Answers(ppid, i) && Nearest(Pcts(configured[i].speeds), pct, j) ==>
                rpm == configured[i].speeds[j].rpm
      ensures (forall i: nat :: !Answers(ppid, i)) ==> rpm == if maxSpeed == 0 then 0 else pct * maxSpeed % 0x1_0000_0000 / 100
    {
      var rpmValid := false;
      rpm := 0;
      if fanSpeedMap != [] && ppid.Some? {
        var found, speeds, i := FindMap(ppid.value);
        if found {
          var best := FindNearest(Pcts(speeds), pct);
          if best.Some? {
            rpm, rpmValid := speeds[best.value].rpm, true;
            BestPctIsNearest(configured[i].speeds, pct, best.value);
          }
          ReversedAt(configured[i].speeds);
          assert rpmValid ==> Answers(ppid, i);
        }
      }
      if !rpmValid {
        rpm := PlainRpm(maxSpeed, pct);
      }
    }
  }

  /** Position `at` is the first of the first `n` at the least distance. */
  ghost predicate IsBest(column: seq<nat>, x: nat, n: nat, at: nat) {
    && at < n <= |column|
    && forall k :: 0 <= k < n ==>
         AbsDiff(x, column[k]) >= AbsDiff(x, column[at]) && (k < at ==> AbsDiff(x, column[k]) > AbsDiff(x, column[at]))
  }

  /** The search both directions make: an entry no closer than the best so far is passed over. */
  method FindNearest(column: seq<nat>, x: nat) returns (best: Option<nat>)
    ensures best.None? <==> column == []
    ensures best.Some? ==> IsBest(column, x, |column|, best.value)
  {
    best := None;
    var bestError := 0;
    for q := 0 to |column|
      invariant best.None? <==> q == 0
      invariant best.Some? ==> IsBest(column, x, q, best.value) && bestError == AbsDiff(x, column[best.value])
    {
      var e := AbsDiff(x, column[q]);
      if best.Some? && e >= bestError {
        continue;
      }
      best, bestError := Some(q), e;
    }
  }

  /** The first at the least distance in the list is the last in configuration order, and no other entry
      is the nearest. */
  lemma BestRpmIsNearest(es: seq<Entry>, rpm: nat, at: nat)
    requires IsBest(Rpms(Reversed(es)), rpm, |Reversed(es)|, at)
    ensures |Reversed(es)| == |es| && Reversed(es)[at] == es[|es| - 1 - at] && OnlyNearest(Rpms(es), rpm, |es| - 1 - at)
  {
    ReversedAt(es);
    BestOfReversed(Rpms(Reversed(es)), Rpms(es), rpm, at);
  }

  lemma BestPctIsNearest(es: seq<Entry>, pct: nat, at: nat)
    requires IsBest(Pcts(Reversed(es)), pct, |Reversed(es)|, at)
    ensures |Reversed(es)| == |es| && Reversed(es)[at] == es[|es| - 1 - at] && OnlyNearest(Pcts(es), pct, |es| - 1 - at)
  {
    ReversedAt(es);
    BestOfReversed(Pcts(Reversed(es)), Pcts(es), pct, at);
  }

  ghost predicate OnlyNearest(column: seq<nat>, x: nat, j: nat) {
    Nearest(column, x, j) && forall k: nat :: Nearest(column, x, k) ==> k == j
  }

  lemma BestOfReversed(reversed: seq<nat>, column: seq<nat>, x: nat, at: nat)
    requires |reversed| == |column| && forall k :: 0 <= k < |column| ==> column[k] == reversed[|column| - 1 - k]
    requires IsBest(reversed, x, |column|, at)
    ensures OnlyNearest(column, x, |column| - 1 - at)
  {
    var j := |column| - 1 - at;
    assert column[j] == reversed[at];
    assert Nearest(column, x, j);
    forall k: nat | Nearest(column, x, k) ensures k == j {
      NearestIsUnique(column, x, k, j);
    }
  }

  /** End to end: with one map that matches and one entry in it, every speed is its percentage and every
      percentage its speed. */
  method SingleEntryAnswers(compiles: string -> bool, matches: (string, string) -> bool, maxSpeed: nat,
      pattern: string, ppid: string, r: nat, p: nat, rpm: nat, pct: nat)
    returns (toPct: nat, toRpm: nat)
    requires compiles(pattern) && matches(pattern, ppid) && Divides(maxSpeed)
    requires r < 0x1_0000_0000 && p < 0x1_0000_0000
    ensures toPct == p && toRpm == r
  {
    var speeds := [SpeedNode("speed", Some(r), Some(p))];
    var nodes := [FanNode("fan", Some(pattern), speeds)];
    assert speeds[..0] == [] && nodes[..0] == [];
    assert Entries(speeds) == [Entry(r, p)];
    var psu := new Psu(compiles, matches, maxSpeed, nodes);
    assert psu.configured == [PpidMap(pattern, [Entry(r, p)])];
    assert psu.Answers(Some(ppid), 0);
    toPct := psu.RpmToPct(Some(ppid), rpm);
    toRpm := psu.PctToRpm(Some(ppid), pct);
  }
}
