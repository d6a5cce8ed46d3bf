/** Pin-selected I2C multiplexers (src/drivers/sdi_i2cmux_pin.c).

    A mux channel is itself an I2C bus, so muxes form a tree of any depth.  Acquiring a channel
    takes the mux lock and the pin-group lock, drives the pin group to the channel number, and then
    acquires the parent bus through its operations table.  Releasing, and giving up half way, undo
    the locks in the opposite order.

    The module states the protocol as a step relation over any number of threads.  The driver's own
    recursive code, in `MuxDriver` (I2cMuxPinDriver.dfy), is proved to make only steps of it. */
module I2cMuxPin {

  /** A mux is identified by `muxId`; `pinGroup` selects its channel; `parent` is the bus it multiplexes. */
  datatype Mux = Mux(muxId: nat, pinGroup: nat, parent: Bus)

  /** An I2C bus handle: its operations table belongs either to a host controller or to a mux channel. */
  datatype Bus = Host(busId: nat) | Channel(mux: Mux, channel: nat)

  datatype Lock = HostLock(busId: nat) | MuxLock(mux: Mux) | GroupLock(pinGroup: nat)

  /** One call made while acquiring a bus. */
  datatype Op = Take(lock: Lock) | SetLevel(pinGroup: nat, level: nat)

  /** The calls that acquire a bus, in order. */
  function Plan(b: Bus): seq<Op> {
    match b
    case Host(id) => [Take(HostLock(id))]
    case Channel(m, c) =>
      [Take(MuxLock(m)), Take(GroupLock(m.pinGroup)), SetLevel(m.pinGroup, c)] + Plan(m.parent)
  }

  /** The channel buses crossed between `b` and the host controller. */
  function Route(b: Bus): seq<Bus> {
    match b
    case Host(_) => []
    case Channel(m, _) => [b] + Route(m.parent)
  }

  datatype Mode = Acquiring | Using | Releasing

  /** `pos` calls of `Plan(bus)` have succeeded and have not been undone. */
  datatype Thread = Idle | Busy(bus: Bus, pos: nat, mode: Mode)

  datatype State = State(threads: seq<Thread>, owner: map<Lock, nat>, level: map<nat, nat>)

  /** `Fault` is a call that returned an error; a failed level write may leave any level behind. */
  datatype Action = Begin(bus: Bus) | Advance | Fault(junk: nat) | Finish | Retreat

  predicate Enabled(s: State, t: nat, a: Action) {
    t < |s.threads| &&
    match a
    case Begin(_) => s.threads[t].Idle?
    case Advance =>
      s.threads[t].Busy? && s.threads[t].mode.Acquiring? && s.threads[t].pos < |Plan(s.threads[t].bus)| &&
      (var op := Plan(s.threads[t].bus)[s.threads[t].pos]; op.Take? ==> op.lock !in s.owner)
    case Fault(_) =>
      s.threads[t].Busy? && s.threads[t].mode.Acquiring? && s.threads[t].pos < |Plan(s.threads[t].bus)|
    case Finish => s.threads[t].Busy? && s.threads[t].mode.Using?
    case Retreat => s.threads[t].Busy? && s.threads[t].mode.Releasing? && s.threads[t].pos <= |Plan(s.threads[t].bus)|
  }

  function Apply(s: State, t: nat, a: Action): State
    requires Enabled(s, t, a)
  {
    match a
    case Begin(b) => s.(threads := s.threads[t := Busy(b, 0, Acquiring)])
    case Finish => s.(threads := s.threads[t := s.threads[t].(mode := Releasing)])
    case Advance =>
      var Busy(b, pos, _) := s.threads[t];
      var s' := s.(threads := s.threads[t := Busy(b, pos + 1, if pos + 1 == |Plan(b)| then Using else Acquiring)]);
      (match Plan(b)[pos]
       case Take(l) => s'.(owner := s.owner[l := t])
       case SetLevel(g, v) => s'.(level := s.level[g := v]))
    case Fault(junk) =>
      var Busy(b, pos, _) := s.threads[t];
      var s' := s.(threads := s.threads[t := Busy(b, pos, Releasing)]);
      (match Plan(b)[pos]
       case Take(_) => s'
       case SetLevel(g, _) => s'.(level := s.level[g := junk]))
    case Retreat =>
      var Busy(b, pos, _) := s.threads[t];
      if pos == 0 then s.(threads := s.threads[t := Idle]) else
      var s' := s.(threads := s.threads[t := Busy(b, pos - 1, Releasing)]);
      (match Plan(b)[pos - 1]
       case Take(l) => s'.(owner := s.owner - {l})
       case SetLevel(_, _) => s')
  }

  // ----- The inductive invariant

  /** Thread `th` has taken lock `l` as call number `i` of its plan. */
  ghost predicate HoldsAt(th: Thread, l: Lock, i: nat) {
    th.Busy? && i < th.pos <= |Plan(th.bus)| && Plan(th.bus)[i] == Take(l)
  }

  ghost predicate Holds(th: Thread, l: Lock) {
    exists i: nat :: HoldsAt(th, l, i)
  }

  /** Thread `th` has driven group `g` to level `v` as call number `i`. */
  ghost predicate DroveAt(th: Thread, g: nat, v: nat, i: nat) {
    th.Busy? && i < th.pos <= |Plan(th.bus)| && Plan(th.bus)[i] == SetLevel(g, v)
  }

  ghost predicate WellPlaced(th: Thread) {
    th.Busy? ==>
      && (if th.mode.Acquiring? then th.pos < |Plan(th.bus)|
          else if th.mode.Using? then th.pos == |Plan(th.bus)|
          else th.pos <= |Plan(th.bus)|)
      && (forall i: nat, j: nat, l :: HoldsAt(th, l, i) && HoldsAt(th, l, j) ==> i == j)
  }

  ghost predicate Inv(s: State) {
    && (forall t :: 0 <= t < |s.threads| ==> WellPlaced(s.threads[t]))
    && (forall t, l, i: nat :: 0 <= t < |s.threads| && HoldsAt(s.threads[t], l, i) ==> l in s.owner && s.owner[l] == t)
    && (forall l :: l in s.owner ==> s.owner[l] < |s.threads| && Holds(s.threads[s.owner[l]], l))
    && (forall t, g, v, i: nat :: 0 <= t < |s.threads| && DroveAt(s.threads[t], g, v, i) ==> g in s.level && s.level[g] == v)
  }

  /** Every level write comes directly after taking that pin group's lock. */
  lemma {:induction false} WriteFollowsGroupLock(b: Bus, i: nat)
    requires i < |Plan(b)| && Plan(b)[i].SetLevel?
    ensures i > 0 && Plan(b)[i - 1] == Take(GroupLock(Plan(b)[i].pinGroup))
  {
    if i > 2 {
      WriteFollowsGroupLock(b.mux.parent, i - 3);
    }
  }

  lemma TakeKeepsInv(s: State, t: nat)
    requires Inv(s) && Enabled(s, t, Advance)
    requires Plan(s.threads[t].bus)[s.threads[t].pos].Take?
    ensures Inv(Apply(s, t, Advance))
  {
    var s' := Apply(s, t, Advance);
    var th, th' := s.threads[t], s'.threads[t];
    var op := Plan(th.bus)[th.pos];
    forall l, i: nat | HoldsAt(th', l, i) ensures HoldsAt(th, l, i) || (i == th.pos && op == Take(l)) {}
    forall g, v, i: nat | DroveAt(th', g, v, i) ensures DroveAt(th, g, v, i) {}
    forall l | l in s'.owner ensures s'.owner[l] < |s'.threads| && Holds(s'.threads[s'.owner[l]], l) {
      if op == Take(l) {
        assert HoldsAt(th', l, th.pos);
      } else {
        var i: nat :| HoldsAt(s.threads[s.owner[l]], l, i);
        assert HoldsAt(s'.threads[s.owner[l]], l, i);
      }
    }
  }

  /** Nobody else drives a pin group whose lock a thread has. */
  lemma OnlyDriver(s: State, t: nat, g: nat, k: nat, u: nat, v: nat, i: nat)
    requires Inv(s) && t < |s.threads| && u < |s.threads|
    requires HoldsAt(s.threads[t], GroupLock(g), k) && DroveAt(s.threads[u], g, v, i)
    ensures u == t && i == k + 1
  {
    WriteFollowsGroupLock(s.threads[u].bus, i);
    assert HoldsAt(s.threads[u], GroupLock(g), i - 1);
  }

  lemma SetLevelKeepsInv(s: State, t: nat)
    requires Inv(s) && Enabled(s, t, Advance)
    requires Plan(s.threads[t].bus)[s.threads[t].pos].SetLevel?
    ensures Inv(Apply(s, t, Advance))
  {
    var s' := Apply(s, t, Advance);
    var th, th' := s.threads[t], s'.threads[t];
    var op := Plan(th.bus)[th.pos];
    forall l, i: nat ensures HoldsAt(th', l, i) <==> HoldsAt(th, l, i) {}
    forall l | l in s'.owner ensures Holds(s'.threads[s'.owner[l]], l) {
      var i: nat :| HoldsAt(s.threads[s.owner[l]], l, i);
      assert HoldsAt(s'.threads[s.owner[l]], l, i);
    }
    forall g, v, i: nat | DroveAt(th', g, v, i) ensures DroveAt(th, g, v, i) || (i == th.pos && op == SetLevel(g, v)) {}
    WriteFollowsGroupLock(th.bus, th.pos);
    assert HoldsAt(th, GroupLock(op.pinGroup), th.pos - 1);
    forall u: nat, v, i: nat | u < |s.threads| && DroveAt(s.threads[u], op.pinGroup, v, i) ensures false {
      OnlyDriver(s, t, op.pinGroup, th.pos - 1, u, v, i);
    }
  }

  lemma AdvanceKeepsInv(s: State, t: nat)
    requires Inv(s) && Enabled(s, t, Advance)
    ensures Inv(Apply(s, t, Advance))
  {
    if Plan(s.threads[t].bus)[s.threads[t].pos].Take? { TakeKeepsInv(s, t); } else { SetLevelKeepsInv(s, t); }
  }

  lemma FaultKeepsInv(s: State, t: nat, junk: nat)
    requires Inv(s) && Enabled(s, t, Fault(junk))
    ensures Inv(Apply(s, t, Fault(junk)))
  {
    var s' := Apply(s, t, Fault(junk));
    var th, th' := s.threads[t], s'.threads[t];
    forall l, i: nat ensures HoldsAt(th, l, i) <==> HoldsAt(th', l, i) {}
    forall g, v, i: nat | DroveAt(th', g, v, i) ensures DroveAt(th, g, v, i) {}
    forall l | l in s'.owner ensures Holds(s'.threads[s'.owner[l]], l) {
      var i: nat :| HoldsAt(s.threads[s.owner[l]], l, i);
      assert HoldsAt(s'.threads[s.owner[l]], l, i);
    }
    var op := Plan(th.bus)[th.pos];
    if op.SetLevel? {
      WriteFollowsGroupLock(th.bus, th.pos);
      assert HoldsAt(th, GroupLock(op.pinGroup), th.pos - 1);
      forall u: nat, v, i: nat | u < |s.threads| && DroveAt(s'.threads[u], op.pinGroup, v, i) ensures false {
        assert DroveAt(s.threads[u], op.pinGroup, v, i);
        OnlyDriver(s, t, op.pinGroup, th.pos - 1, u, v, i);
      }
    }
  }

  /** Undoing a call only removes what the thread holds and drives. */
  lemma RetreatShrinks(s: State, t: nat)
    requires Inv(s) && Enabled(s, t, Retreat)
    ensures var th, th' := s.threads[t], Apply(s, t, Retreat).threads[t];
      && WellPlaced(th')
      && (forall l, i: nat :: HoldsAt(th', l, i) ==> HoldsAt(th, l, i))
      && (forall g, v, i: nat :: DroveAt(th', g, v, i) ==> DroveAt(th, g, v, i))
  {
    var th, th' := s.threads[t], Apply(s, t, Retreat).threads[t];
    forall l, i: nat | HoldsAt(th', l, i) ensures HoldsAt(th, l, i) {}
  }

  lemma UnlockKeepsInv(s: State, t: nat)
    requires Inv(s) && Enabled(s, t, Retreat) && s.threads[t].pos > 0
    requires Plan(s.threads[t].bus)[s.threads[t].pos - 1].Take?
    ensures Inv(Apply(s, t, Retreat))
  {
    RetreatShrinks(s, t);
    var s', th := Apply(s, t, Retreat), s.threads[t];
    assert HoldsAt(th, Plan(th.bus)[th.pos - 1].lock, th.pos - 1);
    forall l | l in s'.owner ensures Holds(s'.threads[s'.owner[l]], l) {
      var i: nat :| HoldsAt(s.threads[s.owner[l]], l, i);
      assert HoldsAt(s'.threads[s.owner[l]], l, i);
    }
  }

  lemma SkipBackKeepsInv(s: State, t: nat)
    requires Inv(s) && Enabled(s, t, Retreat)
    requires s.threads[t].pos == 0 || Plan(s.threads[t].bus)[s.threads[t].pos - 1].SetLevel?
    ensures Inv(Apply(s, t, Retreat))
  {
    RetreatShrinks(s, t);
    var s' := Apply(s, t, Retreat);
    forall l | l in s'.owner ensures Holds(s'.threads[s'.owner[l]], l) {
      var i: nat :| HoldsAt(s.threads[s.owner[l]], l, i);
      assert HoldsAt(s'.threads[s.owner[l]], l, i);
    }
  }

  lemma RetreatKeepsInv(s: State, t: nat)
    requires Inv(s) && Enabled(s, t, Retreat)
    ensures Inv(Apply(s, t, Retreat))
  {
    var th := s.threads[t];
    if th.pos > 0 && Plan(th.bus)[th.pos - 1].Take? { UnlockKeepsInv(s, t); } else { SkipBackKeepsInv(s, t); }
  }

  lemma IdleOrFinishKeepsInv(s: State, t: nat, a: Action)
    requires Inv(s) && Enabled(s, t, a) && (a.Begin? || a.Finish?)
    ensures Inv(Apply(s, t, a))
  {
    var s' := Apply(s, t, a);
    forall l, i: nat ensures HoldsAt(s.threads[t], l, i) <==> HoldsAt(s'.threads[t], l, i) {}
    forall g, v, i: nat | DroveAt(s'.threads[t], g, v, i) ensures DroveAt(s.threads[t], g, v, i) {}
    if a.Begin? {
      assert |Plan(a.bus)| > 0;
    }
    forall l | l in s'.owner ensures Holds(s'.threads[s'.owner[l]], l) {
      var i: nat :| HoldsAt(s.threads[s.owner[l]], l, i);
      assert HoldsAt(s'.threads[s.owner[l]], l, i);
    }
  }

  lemma StepKeepsInv(s: State, t: nat, a: Action)
    requires Inv(s) && Enabled(s, t, a)
    ensures Inv(Apply(s, t, a)) && |Apply(s, t, a).threads| == |s.threads|
  {
    match a
    case Advance => AdvanceKeepsInv(s, t);
    case Fault(junk) => FaultKeepsInv(s, t, junk);
    case Retreat => RetreatKeepsInv(s, t);
    case _ => IdleOrFinishKeepsInv(s, t, a);
  }

  // ----- Runs

  type Schedule = seq<(nat, Action)>

  ghost predicate IsRun(s: State, run: Schedule)
    decreases |run|
  {
    run == [] || (Enabled(s, run[0].0, run[0].1) && IsRun(Apply(s, run[0].0, run[0].1), run[1..]))
  }

  ghost function After(s: State, run: Schedule): State
    requires IsRun(s, run)
    ensures |After(s, run).threads| == |s.threads|
    decreases |run|
  {
    if run == [] then s else After(Apply(s, run[0].0, run[0].1), run[1..])
  }

  /** Nobody holds anything and every thread is idle; the pin groups may show any level. */
  ghost predicate Initial(s: State) {
    s.owner == map[] && forall t :: 0 <= t < |s.threads| ==> s.threads[t] == Idle
  }

  lemma {:induction false} RunKeepsInv(s: State, run: Schedule)
    requires Inv(s) && IsRun(s, run)
    ensures Inv(After(s, run))
    decreases |run|
  {
    if run != [] {
      StepKeepsInv(s, run[0].0, run[0].1);
      RunKeepsInv(Apply(s, run[0].0, run[0].1), run[1..]);
    }
  }

  lemma {:induction false} RunExtends(s: State, run: Schedule, t: nat, a: Action)
    requires IsRun(s, run) && Enabled(After(s, run), t, a)
    ensures IsRun(s, run + [(t, a)]) && After(s, run + [(t, a)]) == Apply(After(s, run), t, a)
    decreases |run|
  {
    if run == [] {
      assert (run + [(t, a)])[1..] == [];
    } else {
      RunExtends(Apply(s, run[0].0, run[0].1), run[1..], t, a);
      assert (run + [(t, a)])[1..] == run[1..] + [(t, a)];
    }
  }

  // ----- Safety

  /** Every mux on the way from `b` to its host is switched to the channel that `b` names. */
  ghost predicate Routed(s: State, b: Bus) {
    forall hop :: hop in Route(b) ==>
      hop.Channel? && hop.mux.pinGroup in s.level && s.level[hop.mux.pinGroup] == hop.channel
  }

  /** The plan of a bus visits every hop of its route: mux lock, group lock and level write. */
  lemma {:induction false} PlanVisits(b: Bus, hop: Bus) returns (i: nat)
    requires hop in Route(b)
    ensures hop.Channel? && i + 2 < |Plan(b)|
    ensures Plan(b)[i] == Take(MuxLock(hop.mux)) && Plan(b)[i + 1] == Take(GroupLock(hop.mux.pinGroup))
    ensures Plan(b)[i + 2] == SetLevel(hop.mux.pinGroup, hop.channel)
  {
    if hop == b {
      i := 0;
    } else {
      i := PlanVisits(b.mux.parent, hop);
      i := i + 3;
    }
  }

  ghost predicate IsUsing(s: State, t: nat) {
    t < |s.threads| && s.threads[t].Busy? && s.threads[t].mode.Using?
  }

  lemma UserIsRouted(s: State, t: nat)
    requires Inv(s) && IsUsing(s, t)
    ensures Routed(s, s.threads[t].bus)
  {
    var b := s.threads[t].bus;
    forall hop | hop in Route(b)
      ensures hop.Channel? && hop.mux.pinGroup in s.level && s.level[hop.mux.pinGroup] == hop.channel
    {
      var i := PlanVisits(b, hop);
      assert DroveAt(s.threads[t], hop.mux.pinGroup, hop.channel, i + 2);
    }
  }

  /** The muxes of two routes are different muxes. */
  ghost predicate Apart(b: Bus, c: Bus) {
    forall h, h' :: h in Route(b) && h' in Route(c) ==> h.Channel? && h'.Channel? && h.mux != h'.mux
  }

  lemma UsersAreApart(s: State, t: nat, u: nat)
    requires Inv(s) && IsUsing(s, t) && IsUsing(s, u) && t != u
    ensures Apart(s.threads[t].bus, s.threads[u].bus)
  {
    forall h, h' | h in Route(s.threads[t].bus) && h' in Route(s.threads[u].bus)
      ensures h.Channel? && h'.Channel? && h.mux != h'.mux
    {
      var i := PlanVisits(s.threads[t].bus, h);
      var j := PlanVisits(s.threads[u].bus, h');
      assert HoldsAt(s.threads[t], MuxLock(h.mux), i);
      assert HoldsAt(s.threads[u], MuxLock(h'.mux), j);
    }
  }

  /** Safety.  In every state of every run, whatever other threads do and whatever fails, a thread
      using a bus finds the whole route switched to it, and no two threads use buses that share a
      mux.  No assumption is made about which muxes share pin groups. */
  lemma UsersAreRoutedAndExclusive(s0: State, run: Schedule, t: nat)
    requires Initial(s0) && IsRun(s0, run)
    requires IsUsing(After(s0, run), t)
    ensures Routed(After(s0, run), After(s0, run).threads[t].bus)
    ensures forall u: nat :: u != t && IsUsing(After(s0, run), u) ==>
              Apart(After(s0, run).threads[t].bus, After(s0, run).threads[u].bus)
  {
    RunKeepsInv(s0, run);
    UserIsRouted(After(s0, run), t);
    forall u: nat | u != t && IsUsing(After(s0, run), u)
      ensures Apart(After(s0, run).threads[t].bus, After(s0, run).threads[u].bus)
    {
      UsersAreApart(After(s0, run), t, u);
    }
  }

  /** All or nothing: a thread owns exactly the locks of the part of its plan it has not undone, so
      every lock of the plan while it uses the bus and none once it is idle again. */
  lemma OwnsExactlyItsPrefix(s0: State, run: Schedule, t: nat, l: Lock)
    requires Initial(s0) && IsRun(s0, run) && t < |s0.threads|
    ensures var s := After(s0, run);
      (l in s.owner && s.owner[l] == t) <==> Holds(s.threads[t], l)
  {
    RunKeepsInv(s0, run);
    var s := After(s0, run);
    if Holds(s.threads[t], l) {
      var i: nat :| HoldsAt(s.threads[t], l, i);
    }
  }

  // ----- Deadlock freedom

  function Depth(b: Bus): nat {
    match b
    case Host(_) => 0
    case Channel(m, _) => 1 + Depth(m.parent)
  }

  /** A ranking of locks that every plan descends. */
  ghost predicate Descends(b: Bus, rank: Lock -> nat) {
    forall i, j :: 0 <= i < j < |Plan(b)| && Plan(b)[i].Take? && Plan(b)[j].Take? ==>
      rank(Plan(b)[i].lock) > rank(Plan(b)[j].lock)
  }

  /** Every busy thread uses a bus whose plan descends `rank`. */
  ghost predicate AllDescend(s: State, rank: Lock -> nat) {
    forall t :: 0 <= t < |s.threads| && s.threads[t].Busy? ==> Descends(s.threads[t].bus, rank)
  }

  /** An action other than starting new work or failing. */
  ghost predicate CanProceed(s: State, t: nat) {
    Enabled(s, t, Advance) || Enabled(s, t, Finish) || Enabled(s, t, Retreat)
  }

  /** Follow the wait chain from a busy thread: the awaited lock drops in rank at each hop, so the
      chain ends at a thread that can proceed. */
  lemma {:induction false} FollowWaitChain(s: State, t: nat, rank: Lock -> nat) returns (u: nat)
    requires Inv(s) && AllDescend(s, rank)
    requires t < |s.threads| && s.threads[t].Busy?
    ensures u < |s.threads| && CanProceed(s, u)
    decreases if s.threads[t].mode.Acquiring? && Plan(s.threads[t].bus)[s.threads[t].pos].Take?
              then 1 + rank(Plan(s.threads[t].bus)[s.threads[t].pos].lock) else 0
  {
    u := t;
    var th := s.threads[t];
    if !CanProceed(s, t) {
      var l := Plan(th.bus)[th.pos].lock;
      var h := s.owner[l];
      var i: nat :| HoldsAt(s.threads[h], l, i);
      assert Descends(s.threads[h].bus, rank);
      u := FollowWaitChain(s, h, rank);
    }
  }

  /** Deadlock freedom.  While the buses in use have a ranking that all their plans descend, no run of
      any number of threads over a mux tree of any depth is stuck: while a thread is busy, some thread
      can take a step that is neither new work nor a failure. */
  lemma NeverDeadlocks(s0: State, run: Schedule, rank: Lock -> nat, t: nat) returns (u: nat)
    requires Initial(s0) && IsRun(s0, run) && AllDescend(After(s0, run), rank)
    requires t < |After(s0, run).threads| && After(s0, run).threads[t].Busy?
    ensures u < |s0.threads| && CanProceed(After(s0, run), u)
  {
    RunKeepsInv(s0, run);
    u := FollowWaitChain(After(s0, run), t, rank);
  }

  /** Muxes that share a pin group are at the same depth of the tree; a group of one's own is a special
      case. */
  ghost predicate SharedAtOneDepth(muxes: set<Mux>) {
    forall m, n :: m in muxes && n in muxes && m.pinGroup == n.pinGroup ==> Depth(m.parent) == Depth(n.parent)
  }

  ghost predicate Uses(b: Bus, muxes: set<Mux>) {
    b.Host? || (b.mux in muxes && Uses(b.mux.parent, muxes))
  }

  /** Rank by depth in the tree: a mux lock, then its pin group, then everything nearer the host. */
  ghost function DepthRank(muxes: set<Mux>, l: Lock): nat {
    match l
    case HostLock(_) => 0
    case MuxLock(m) => 2 * Depth(m.parent) + 2
    case GroupLock(g) =>
      if exists m :: m in muxes && m.pinGroup == g
      then (var m :| m in muxes && m.pinGroup == g; 2 * Depth(m.parent) + 1) else 0
  }

  ghost predicate DescendsByDepth(b: Bus, muxes: set<Mux>) {
    forall i, j :: 0 <= i < j < |Plan(b)| && Plan(b)[i].Take? && Plan(b)[j].Take? ==>
      DepthRank(muxes, Plan(b)[i].lock) > DepthRank(muxes, Plan(b)[j].lock)
  }

  lemma {:induction false} RankIsBounded(b: Bus, muxes: set<Mux>, i: nat)
    requires SharedAtOneDepth(muxes) && Uses(b, muxes) && i < |Plan(b)| && Plan(b)[i].Take?
    ensures DepthRank(muxes, Plan(b)[i].lock) <= 2 * Depth(b)
  {
    if b.Channel? && i >= 3 {
      RankIsBounded(b.mux.parent, muxes, i - 3);
    }
  }

  lemma {:induction false} PlanDescends(b: Bus, muxes: set<Mux>)
    requires SharedAtOneDepth(muxes) && Uses(b, muxes)
    ensures DescendsByDepth(b, muxes)
  {
    if b.Channel? {
      var m := b.mux;
      PlanDescends(m.parent, muxes);
      assert DepthRank(muxes, GroupLock(m.pinGroup)) == 2 * Depth(m.parent) + 1;
      forall i, j | 0 <= i < j < |Plan(b)| && Plan(b)[i].Take? && Plan(b)[j].Take?
        ensures DepthRank(muxes, Plan(b)[i].lock) > DepthRank(muxes, Plan(b)[j].lock)
      {
        if j >= 3 {
          RankIsBounded(m.parent, muxes, j - 3);
        }
        if i >= 3 {
          assert Plan(b)[i] == Plan(m.parent)[i - 3] && Plan(b)[j] == Plan(m.parent)[j - 3];
        }
      }
    }
  }

  /** So sharing a pin group among muxes of one depth, or not at all, rules deadlock out.  The exact
      condition is in `I2cMuxDeadlock`. */
  lemma LevelSharingNeverDeadlocks(s0: State, run: Schedule, muxes: set<Mux>, t: nat) returns (u: nat)
    requires Initial(s0) && IsRun(s0, run) && SharedAtOneDepth(muxes)
    requires forall v :: 0 <= v < |After(s0, run).threads| && After(s0, run).threads[v].Busy? ==>
               Uses(After(s0, run).threads[v].bus, muxes)
    requires t < |After(s0, run).threads| && After(s0, run).threads[t].Busy?
    ensures u < |s0.threads| && CanProceed(After(s0, run), u)
  {
    var s := After(s0, run);
    var rank := l => DepthRank(muxes, l);
    forall v | 0 <= v < |s.threads| && s.threads[v].Busy? ensures Descends(s.threads[v].bus, rank) {
      PlanDescends(s.threads[v].bus, muxes);
    }
    u := NeverDeadlocks(s0, run, rank, t);
  }

  // ----- Every transaction completes

  /** An upper bound on the steps a thread can still take before it is idle. */
  function Remaining(th: Thread): nat
    requires th.Busy? ==> th.pos <= |Plan(th.bus)|
  {
    match th
    case Idle => 0
    case Busy(b, pos, Acquiring) => 2 * |Plan(b)| - pos + 2
    case Busy(b, _, Using) => |Plan(b)| + 2
    case Busy(_, pos, Releasing) => pos + 1
  }

  ghost function Work(threads: seq<Thread>): nat
    requires forall th :: th in threads && th.Busy? ==> th.pos <= |Plan(th.bus)|
  {
    if threads == [] then 0 else Remaining(threads[0]) + Work(threads[1..])
  }

  lemma {:induction false} WorkUpdate(threads: seq<Thread>, t: nat, th: Thread)
    requires forall x :: x in threads && x.Busy? ==> x.pos <= |Plan(x.bus)|
    requires t < |threads| && (th.Busy? ==> th.pos <= |Plan(th.bus)|)
    ensures forall x :: x in threads[t := th] && x.Busy? ==> x.pos <= |Plan(x.bus)|
    ensures Work(threads[t := th]) - Remaining(th) == Work(threads) - Remaining(threads[t])
  {
    if t == 0 {
      assert threads[t := th][1..] == threads[1..];
    } else {
      WorkUpdate(threads[1..], t - 1, th);
      assert threads[t := th][1..] == threads[1..][t - 1 := th];
    }
  }

  /** Every step of a transaction under way uses up some of its work. */
  lemma WorkDrops(s: State, t: nat, a: Action)
    requires Inv(s) && Enabled(s, t, a) && !a.Begin?
    ensures Work(Apply(s, t, a).threads) < Work(s.threads)
  {
    WorkUpdate(s.threads, t, Apply(s, t, a).threads[t]);
  }

  /** Progress.  Without new work, a run from a state satisfying the invariant is no longer than the
      work outstanding there, however the threads interleave and whatever fails; so it ends, and by
      `NeverDeadlocks` it can only end with every thread idle. */
  lemma {:induction false} RunsAreBounded(s: State, run: Schedule)
    requires Inv(s) && IsRun(s, run)
    requires forall step :: step in run ==> !step.1.Begin?
    ensures |run| <= Work(s.threads)
    decreases |run|
  {
    if run != [] {
      var t, a := run[0].0, run[0].1;
      StepKeepsInv(s, t, a);
      WorkDrops(s, t, a);
      RunsAreBounded(Apply(s, t, a), run[1..]);
    }
  }
}
