/** Exactly when the pin-selected muxes of `I2cMuxPin` can deadlock.

    Acquiring a channel takes its pin group and then, in the parent, the parent's.  So each bus below
    another mux nests one group inside another.  A family of buses, with the parents they lead through,
    can deadlock if and only if these nestings form a cycle; a single thread acquiring one bus can get
    stuck if and only if two muxes on its route share a pin group. */
module I2cMuxDeadlock {
  import opened I2cMuxPin

  /** A channel of a mux that is itself on a channel. */
  predicate Nests(b: Bus) { b.Channel? && b.mux.parent.Channel? }

  /** The pin group taken for the bus itself, and the one taken next. */
  function Outer(b: Bus): nat
    requires b.Channel?
  {
    b.mux.pinGroup
  }

  function Inner(b: Bus): nat
    requires Nests(b)
  {
    Outer(b.mux.parent)
  }

  ghost predicate Closed(family: set<Bus>) {
    forall b :: b in family && b.Channel? ==> b.mux.parent in family
  }

  /** Each bus nests the group that the next one takes first. */
  ghost predicate IsPath(family: set<Bus>, path: seq<Bus>) {
    && (forall i :: 0 <= i < |path| ==> path[i] in family && Nests(path[i]))
    && (forall i :: 0 < i < |path| ==> Inner(path[i - 1]) == Outer(path[i]))
  }

  ghost predicate IsCycle(family: set<Bus>, path: seq<Bus>) {
    path != [] && IsPath(family, path) && Inner(path[|path| - 1]) == Outer(path[0])
  }

  ghost predicate BeginsIn(run: Schedule, family: set<Bus>) {
    forall step :: step in run && step.1.Begin? ==> step.1.bus in family
  }

  /** Somebody is busy and nobody can proceed. */
  ghost predicate Stuck(s: State) {
    (exists t :: 0 <= t < |s.threads| && s.threads[t].Busy?) && forall u: nat :: !CanProceed(s, u)
  }

  ghost predicate CanDeadlock(family: set<Bus>) {
    exists s0: State, run: Schedule :: Deadlocks(s0, run, family)
  }

  ghost predicate Deadlocks(s0: State, run: Schedule, family: set<Bus>) {
    Initial(s0) && IsRun(s0, run) && BeginsIn(run, family) && Stuck(After(s0, run))
  }

  // ----- The shape of plans and routes

  /** Three calls for each hop, in order, and the host lock last. */
  lemma {:induction false} PlanAt(b: Bus, i: nat)
    requires i < |Plan(b)|
    ensures |Plan(b)| == 3 * |Route(b)| + 1
    ensures i / 3 < |Route(b)| ==>
      var hop := Route(b)[i / 3];
      hop.Channel? && Plan(b)[i] == if i % 3 == 0 then Take(MuxLock(hop.mux))
                                    else if i % 3 == 1 then Take(GroupLock(Outer(hop)))
                                    else SetLevel(Outer(hop), hop.channel)
    ensures i / 3 == |Route(b)| ==> Plan(b)[i].Take? && Plan(b)[i].lock.HostLock?
  {
    if b.Channel? && i >= 3 {
      PlanAt(b.mux.parent, i - 3);
      assert Plan(b)[i] == Plan(b.mux.parent)[i - 3];
      assert i / 3 > 0 && (i - 3) / 3 == i / 3 - 1;
      assert i / 3 < |Route(b)| ==> Route(b)[i / 3] == Route(b.mux.parent)[i / 3 - 1];
    } else if b.Channel? {
      PlanAt(b.mux.parent, 0);
    }
  }

  lemma {:induction false} RouteAt(b: Bus, i: nat, family: set<Bus>)
    requires i < |Route(b)| && b in family && Closed(family)
    ensures Route(b)[i] in family && Route(b)[i].Channel?
    ensures i + 1 < |Route(b)| ==> Nests(Route(b)[i]) && Route(b)[i].mux.parent == Route(b)[i + 1]
  {
    if i > 0 {
      RouteAt(b.mux.parent, i - 1, family);
    }
    assert i + 1 < |Route(b)| ==> Route(b)[i + 1] == Route(b.mux.parent)[i];
  }

  /** A route segment is a path. */
  lemma SegmentIsPath(b: Bus, i: nat, j: nat, family: set<Bus>)
    requires i <= j < |Route(b)| && b in family && Closed(family)
    ensures IsPath(family, Route(b)[i..j]) && Route(b)[i].Channel? && Route(b)[j].Channel?
    ensures i < j ==> Outer(Route(b)[i..j][0]) == Outer(Route(b)[i])
                      && Inner(Route(b)[i..j][j - i - 1]) == Outer(Route(b)[j])
  {
    RouteAt(b, i, family);
    RouteAt(b, j, family);
    forall k | i <= k < j ensures Linked(Route(b), k, family) {
      RouteAt(b, k, family);
      RouteAt(b, k + 1, family);
    }
    SliceIsPath(Route(b), i, j, family);
  }

  /** The hop nests another one, which comes next. */
  ghost predicate Linked(route: seq<Bus>, k: nat, family: set<Bus>) {
    k + 1 < |route| && route[k] in family && Nests(route[k]) && route[k].mux.parent == route[k + 1]
  }

  lemma SliceIsPath(route: seq<Bus>, i: nat, j: nat, family: set<Bus>)
    requires i <= j < |route| && forall k :: i <= k < j ==> Linked(route, k, family)
    ensures IsPath(family, route[i..j])
    ensures i < j ==> route[j].Channel? && Inner(route[i..j][j - i - 1]) == Outer(route[j])
  {
    var slice := route[i..j];
    forall k | 0 <= k < |slice| ensures slice[k] in family && Nests(slice[k]) {
      assert Linked(route, i + k, family);
    }
    forall k | 0 < k < |slice| ensures Inner(slice[k - 1]) == Outer(slice[k]) {
      assert Linked(route, i + k - 1, family);
    }
    assert i < j ==> Linked(route, j - 1, family);
  }

  // ----- A deadlock has a cycle

  ghost predicate BusesIn(s: State, family: set<Bus>) {
    forall t :: 0 <= t < |s.threads| && s.threads[t].Busy? ==> s.threads[t].bus in family
  }

  lemma {:induction false} BusesStayIn(s: State, run: Schedule, family: set<Bus>)
    requires BusesIn(s, family) && IsRun(s, run) && BeginsIn(run, family)
    ensures BusesIn(After(s, run), family)
    decreases |run|
  {
    if run != [] {
      assert run[0] in run;
      BusesStayIn(Apply(s, run[0].0, run[0].1), run[1..], family);
    }
  }

  /** Where a thread of a stuck state waits: for the mux lock or the group of a hop of its route. */
  ghost predicate WaitsAt(s: State, t: nat, hop: nat) {
    && t < |s.threads| && s.threads[t].Busy? && s.threads[t].pos < |Plan(s.threads[t].bus)|
    && hop == s.threads[t].pos / 3 < |Route(s.threads[t].bus)| && Route(s.threads[t].bus)[hop].Channel?
    && s.threads[t].pos % 3 != 2
    && var op := Plan(s.threads[t].bus)[s.threads[t].pos]; op.Take? && op.lock in s.owner
  }

  lemma StuckThreadWaits(s: State, t: nat)
    requires Inv(s) && Stuck(s) && t < |s.threads| && s.threads[t].Busy?
    ensures WaitsAt(s, t, s.threads[t].pos / 3)
  {
    var th := s.threads[t];
    assert !CanProceed(s, t);
    assert th.mode.Acquiring?;
    PlanAt(th.bus, th.pos);
    if th.pos / 3 >= |Route(th.bus)| {
      HostIsFree(s, t);
      assert false;
    }
  }

  /** The host lock is taken last, so in a stuck state nobody has it. */
  lemma HostIsFree(s: State, t: nat)
    requires Inv(s) && Stuck(s) && t < |s.threads| && s.threads[t].Busy? && s.threads[t].pos < |Plan(s.threads[t].bus)|
    ensures var op := Plan(s.threads[t].bus)[s.threads[t].pos];
      !(op.Take? && op.lock.HostLock? && op.lock in s.owner)
  {
    var op := Plan(s.threads[t].bus)[s.threads[t].pos];
    if op.Take? && op.lock.HostLock? && op.lock in s.owner {
      var h := s.owner[op.lock];
      assert !CanProceed(s, h);
      var i: nat :| HoldsAt(s.threads[h], op.lock, i);
      PlanAt(s.threads[h].bus, i);
      assert false;
    }
  }

  ghost function AwaitedGroup(s: State, t: nat): nat
    requires t < |s.threads| && s.threads[t].Busy? && WaitsAt(s, t, s.threads[t].pos / 3)
  {
    Outer(Route(s.threads[t].bus)[s.threads[t].pos / 3])
  }

  /** The holder of what `t` waits for passed a hop with the awaited group, and waits at a later hop, or
      for the group of the same one if `t` waits for the mux lock. */
  lemma Holder(s: State, t: nat) returns (h: nat, a: nat)
    requires Inv(s) && Stuck(s) && t < |s.threads| && s.threads[t].Busy?
    ensures WaitsAt(s, t, s.threads[t].pos / 3)
    ensures h < |s.threads| && s.threads[h].Busy? && WaitsAt(s, h, s.threads[h].pos / 3)
    ensures a <= s.threads[h].pos / 3 && Route(s.threads[h].bus)[a].Channel?
    ensures Outer(Route(s.threads[h].bus)[a]) == AwaitedGroup(s, t)
    ensures a < s.threads[h].pos / 3 || (s.threads[t].pos % 3 == 0 && s.threads[h].pos % 3 == 1)
  {
    StuckThreadWaits(s, t);
    var th := s.threads[t];
    var l := Plan(th.bus)[th.pos].lock;
    PlanAt(th.bus, th.pos);
    h := s.owner[l];
    var i: nat :| HoldsAt(s.threads[h], l, i);
    StuckThreadWaits(s, h);
    PlanAt(s.threads[h].bus, i);
    PlanAt(s.threads[h].bus, s.threads[h].pos);
    a := i / 3;
  }

  lemma {:induction false} LongPath(s: State, family: set<Bus>, path: seq<Bus>, t: nat, n: nat) returns (longer: seq<Bus>)
    requires Inv(s) && Stuck(s) && BusesIn(s, family) && Closed(family) && IsPath(family, path)
    requires t < |s.threads| && s.threads[t].Busy? && WaitsAt(s, t, s.threads[t].pos / 3)
    requires path != [] ==> Inner(path[|path| - 1]) == AwaitedGroup(s, t)
    ensures IsPath(family, longer) && |longer| >= n
    decreases if |path| < n then n - |path| else 0, if s.threads[t].pos % 3 == 0 then 1 else 0
  {
    longer := path;
    if |path| < n {
      var h, a := Holder(s, t);
      var b := s.threads[h].pos / 3;
      var segment := Route(s.threads[h].bus)[a..b];
      SegmentIsPath(s.threads[h].bus, a, b, family);
      PathConcat(family, path, segment);
      longer := LongPath(s, family, path + segment, h, n);
    }
  }

  lemma PathConcat(family: set<Bus>, path: seq<Bus>, more: seq<Bus>)
    requires IsPath(family, path) && IsPath(family, more)
    requires path != [] && more != [] ==> Inner(path[|path| - 1]) == Outer(more[0])
    ensures IsPath(family, path + more)
  {}

  /** More buses than the family has: one comes twice. */
  lemma {:induction false} Repeats(family: set<Bus>, path: seq<Bus>) returns (i: nat, j: nat)
    requires |path| > |family| && forall k :: 0 <= k < |path| ==> path[k] in family
    ensures i < j < |path| && path[i] == path[j]
    decreases |path|
  {
    var last := |path| - 1;
    if k :| 0 <= k < last && path[k] == path[last] {
      i, j := k, last;
    } else {
      i, j := Repeats(family - {path[last]}, path[..last]);
    }
  }

  lemma DeadlockHasCycle(s0: State, run: Schedule, family: set<Bus>) returns (cycle: seq<Bus>)
    requires Closed(family) && Deadlocks(s0, run, family)
    ensures IsCycle(family, cycle)
  {
    RunKeepsInv(s0, run);
    BusesStayIn(s0, run, family);
    var s := After(s0, run);
    var t: nat :| t < |s.threads| && s.threads[t].Busy?;
    StuckThreadWaits(s, t);
    var path := LongPath(s, family, [], t, |family| + 1);
    var i, j := Repeats(family, path);
    cycle := path[i..j];
  }

  // ----- A cycle has a deadlock

  ghost predicate DistinctGroups(path: seq<Bus>) {
    && (forall i :: 0 <= i < |path| ==> path[i].Channel?)
    && (forall i, j :: 0 <= i < j < |path| ==> Outer(path[i]) != Outer(path[j]))
  }

  lemma {:induction false} SimpleCycle(family: set<Bus>, cycle: seq<Bus>) returns (simple: seq<Bus>)
    requires IsCycle(family, cycle)
    ensures IsCycle(family, simple) && DistinctGroups(simple)
    decreases |cycle|
  {
    simple := cycle;
    if i, j :| 0 <= i < j < |cycle| && Outer(cycle[i]) == Outer(cycle[j]) {
      simple := SimpleCycle(family, cycle[i..j]);
    }
  }

  /** An idle thread takes its mux lock and its group and drives the group. */
  lemma TakeGroup(s0: State, run: Schedule, t: nat, b: Bus) returns (longer: Schedule)
    requires IsRun(s0, run) && t < |s0.threads| && After(s0, run).threads[t].Idle? && b.Channel?
    requires MuxLock(b.mux) !in After(s0, run).owner && GroupLock(Outer(b)) !in After(s0, run).owner
    ensures IsRun(s0, longer) && |longer| == |run| + 4 && longer[..|run|] == run
    ensures longer[|run|] == (t, Begin(b)) && forall k :: |run| < k < |longer| ==> !longer[k].1.Begin?
    ensures var s, s' := After(s0, run), After(s0, longer);
      && s'.threads == s.threads[t := Busy(b, 3, Acquiring)]
      && s'.owner == s.owner[MuxLock(b.mux) := t][GroupLock(Outer(b)) := t]
  {
    assert |Plan(b.mux.parent)| > 0;
    RunExtends(s0, run, t, Begin(b));
    longer := run + [(t, Begin(b))];
    RunExtends(s0, longer, t, Advance);
    longer := longer + [(t, Advance)];
    RunExtends(s0, longer, t, Advance);
    longer := longer + [(t, Advance)];
    RunExtends(s0, longer, t, Advance);
    longer := longer + [(t, Advance)];
  }

  predicate TakenBy(l: Lock, b: Bus) {
    b.Channel? && (l == MuxLock(b.mux) || l == GroupLock(Outer(b)))
  }

  /** The first `n` threads have taken their groups, and nobody has taken anything else. */
  ghost predicate Taken(s: State, cycle: seq<Bus>, n: nat) {
    |s.threads| == |cycle| && n <= |cycle| && ThreadsTook(s, cycle, n) && OnlyTheyTook(s, cycle, n)
  }

  ghost predicate ThreadsTook(s: State, cycle: seq<Bus>, n: nat)
    requires |s.threads| == |cycle| && n <= |cycle|
  {
    && (forall i {:trigger s.threads[i]} :: 0 <= i < n ==>
          cycle[i].Channel? && s.threads[i] == Busy(cycle[i], 3, Acquiring) && GroupLock(Outer(cycle[i])) in s.owner)
    && (forall i :: n <= i < |cycle| ==> s.threads[i] == Idle)
  }

  ghost predicate OnlyTheyTook(s: State, cycle: seq<Bus>, n: nat)
    requires n <= |cycle|
  {
    forall l :: l in s.owner ==> s.owner[l] < n && TakenBy(l, cycle[s.owner[l]])
  }

  lemma TakenNext(s: State, s': State, cycle: seq<Bus>, n: nat)
    requires DistinctGroups(cycle) && Taken(s, cycle, n) && n < |cycle|
    requires s'.threads == s.threads[n := Busy(cycle[n], 3, Acquiring)]
    requires s'.owner == s.owner[MuxLock(cycle[n].mux) := n][GroupLock(Outer(cycle[n])) := n]
    ensures Taken(s', cycle, n + 1)
  {
    ThreadsTookNext(s, s', cycle, n);
    OnlyTheyTookNext(s, s', cycle, n);
  }

  lemma ThreadsTookNext(s: State, s': State, cycle: seq<Bus>, n: nat)
    requires n < |cycle| == |s.threads| && ThreadsTook(s, cycle, n) && cycle[n].Channel?
    requires s'.threads == s.threads[n := Busy(cycle[n], 3, Acquiring)]
    requires s'.owner == s.owner[MuxLock(cycle[n].mux) := n][GroupLock(Outer(cycle[n])) := n]
    ensures ThreadsTook(s', cycle, n + 1)
  {
    forall i | 0 <= i < n + 1
      ensures cycle[i].Channel? && s'.threads[i] == Busy(cycle[i], 3, Acquiring) && GroupLock(Outer(cycle[i])) in s'.owner
    {
      assert i < n ==> s.threads[i] == Busy(cycle[i], 3, Acquiring);
    }
  }

  lemma OnlyTheyTookNext(s: State, s': State, cycle: seq<Bus>, n: nat)
    requires n < |cycle| && OnlyTheyTook(s, cycle, n) && cycle[n].Channel?
    requires s'.owner == s.owner[MuxLock(cycle[n].mux) := n][GroupLock(Outer(cycle[n])) := n]
    ensures OnlyTheyTook(s', cycle, n + 1)
  {}

  lemma NextIsNotTaken(s: State, cycle: seq<Bus>, n: nat)
    requires DistinctGroups(cycle) && Taken(s, cycle, n) && n < |cycle|
    ensures MuxLock(cycle[n].mux) !in s.owner && GroupLock(Outer(cycle[n])) !in s.owner
  {}

  /** All threads of a simple cycle take their groups. */
  lemma AllTakeGroups(family: set<Bus>, cycle: seq<Bus>) returns (s0: State, run: Schedule)
    requires IsCycle(family, cycle) && DistinctGroups(cycle)
    ensures Initial(s0) && IsRun(s0, run) && BeginsIn(run, family) && Taken(After(s0, run), cycle, |cycle|)
  {
    s0, run := State(seq(|cycle|, _ => Idle), map[], map[]), [];
    for n := 0 to |cycle|
      invariant IsRun(s0, run) && BeginsIn(run, family) && Taken(After(s0, run), cycle, n)
    {
      NextIsNotTaken(After(s0, run), cycle, n);
      var longer := TakeGroup(s0, run, n, cycle[n]);
      BeginsExtend(run, longer, family);
      TakenNext(After(s0, run), After(s0, longer), cycle, n);
      run := longer;
    }
  }

  lemma BeginsExtend(run: Schedule, longer: Schedule, family: set<Bus>)
    requires BeginsIn(run, family) && |run| <= |longer| && longer[..|run|] == run
    requires forall k :: |run| <= k < |longer| && longer[k].1.Begin? ==> longer[k].1.bus in family
    ensures BeginsIn(longer, family)
  {
    forall step | step in longer && step.1.Begin? ensures step.1.bus in family {
      var k :| 0 <= k < |longer| && longer[k] == step;
      if k < |run| { assert run[k] == step; }
    }
  }

  /** A thread that cannot take the next lock of its plan. */
  ghost predicate Blocked(s: State, t: nat) {
    && t < |s.threads| && s.threads[t].Busy? && s.threads[t].mode.Acquiring? && s.threads[t].pos < |Plan(s.threads[t].bus)|
    && var op := Plan(s.threads[t].bus)[s.threads[t].pos]; op.Take? && op.lock in s.owner
  }

  /** The first `n` threads are blocked, the others have just taken their groups. */
  ghost predicate Reaching(s: State, cycle: seq<Bus>, n: nat) {
    && |s.threads| == |cycle| && n <= |cycle|
    && (forall i :: 0 <= i < n ==> Blocked(s, i))
    && (forall i {:trigger s.threads[i]} :: n <= i < |cycle| ==> s.threads[i] == Busy(cycle[i], 3, Acquiring))
    && (forall i {:trigger cycle[i]} :: 0 <= i < |cycle| ==> cycle[i].Channel? && GroupLock(Outer(cycle[i])) in s.owner)
  }

  lemma StillBlocked(s: State, s': State, i: nat)
    requires Blocked(s, i) && i < |s'.threads| && s'.threads[i] == s.threads[i]
    requires forall l :: l in s.owner ==> l in s'.owner
    ensures Blocked(s', i)
  {}

  lemma ReachingNext(s: State, s': State, cycle: seq<Bus>, n: nat)
    requires Reaching(s, cycle, n) && n < |cycle| && |s'.threads| == |s.threads| && Blocked(s', n)
    requires forall u: nat :: u < |s.threads| && u != n ==> s'.threads[u] == s.threads[u]
    requires forall l :: l in s.owner ==> l in s'.owner
    ensures Reaching(s', cycle, n + 1)
  {
    forall i | 0 <= i < n + 1 ensures Blocked(s', i) {
      if i < n {
        assert Blocked(s, i);
        StillBlocked(s, s', i);
      }
    }
  }

  lemma AllBlockedIsStuck(s: State)
    requires |s.threads| > 0 && forall i :: 0 <= i < |s.threads| ==> Blocked(s, i)
    ensures Stuck(s)
  {
    assert Blocked(s, 0);
    forall u: nat ensures !CanProceed(s, u) {
      if u < |s.threads| { assert Blocked(s, u); }
    }
  }

  lemma CycleDeadlocks(family: set<Bus>, cycle: seq<Bus>) returns (s0: State, run: Schedule)
    requires IsCycle(family, cycle) && DistinctGroups(cycle)
    ensures Deadlocks(s0, run, family)
  {
    s0, run := AllTakeGroups(family, cycle);
    TakenIsReaching(After(s0, run), cycle);
    for n := 0 to |cycle|
      invariant IsRun(s0, run) && BeginsIn(run, family) && Reaching(After(s0, run), cycle, n)
    {
      run := AnotherReaches(s0, run, cycle, n, family);
    }
    AllBlockedIsStuck(After(s0, run));
  }

  lemma AnotherReaches(s0: State, run: Schedule, cycle: seq<Bus>, n: nat, family: set<Bus>) returns (longer: Schedule)
    requires IsRun(s0, run) && BeginsIn(run, family) && IsCycle(family, cycle)
    requires Reaching(After(s0, run), cycle, n) && n < |cycle|
    ensures IsRun(s0, longer) && BeginsIn(longer, family) && Reaching(After(s0, longer), cycle, n + 1)
  {
    var next := if n + 1 < |cycle| then n + 1 else 0;
    assert Inner(cycle[n]) == Outer(cycle[next]);
    longer := ReachForParent(s0, run, n, cycle[n], family);
    ReachingNext(After(s0, run), After(s0, longer), cycle, n);
  }

  lemma TakenIsReaching(s: State, cycle: seq<Bus>)
    requires Taken(s, cycle, |cycle|)
    ensures Reaching(s, cycle, 0)
  {
    forall i | 0 <= i < |cycle| ensures cycle[i].Channel? && GroupLock(Outer(cycle[i])) in s.owner {
      assert s.threads[i] == Busy(cycle[i], 3, Acquiring);
    }
  }

  /** With its group taken, a thread goes on until the mux lock or the group of the parent stops it. */
  lemma ReachForParent(s0: State, run: Schedule, t: nat, b: Bus, family: set<Bus>) returns (longer: Schedule)
    requires IsRun(s0, run) && BeginsIn(run, family) && t < |s0.threads| && Nests(b)
    requires After(s0, run).threads[t] == Busy(b, 3, Acquiring) && GroupLock(Inner(b)) in After(s0, run).owner
    ensures IsRun(s0, longer) && BeginsIn(longer, family) && Blocked(After(s0, longer), t)
    ensures forall u: nat :: u < |s0.threads| && u != t ==> After(s0, longer).threads[u] == After(s0, run).threads[u]
    ensures forall l :: l in After(s0, run).owner ==> l in After(s0, longer).owner
  {
    longer := run;
    var next := MuxLock(b.mux.parent.mux);
    assert Plan(b)[3] == Plan(b.mux.parent)[0] == Take(next);
    assert Plan(b)[4] == Plan(b.mux.parent)[1] == Take(GroupLock(Inner(b)));
    assert |Plan(b)| > 6;
    if next !in After(s0, run).owner {
      RunExtends(s0, run, t, Advance);
      longer := run + [(t, Advance)];
    }
  }

  /** The exact condition: a family of buses and the parents they lead through can deadlock, for some
      number of threads and some interleaving, if and only if its pin groups nest in a cycle. */
  lemma DeadlockIff(family: set<Bus>)
    requires Closed(family)
    ensures CanDeadlock(family) <==> exists cycle: seq<Bus> :: IsCycle(family, cycle)
  {
    if CanDeadlock(family) {
      var s0: State, run: Schedule :| Deadlocks(s0, run, family);
      var cycle := DeadlockHasCycle(s0, run, family);
    }
    if cycle: seq<Bus> :| IsCycle(family, cycle) {
      var simple := SimpleCycle(family, cycle);
      var s0, run := CycleDeadlocks(family, simple);
      assert Deadlocks(s0, run, family);
    }
  }

  // ----- One thread

  ghost predicate RouteRepeats(b: Bus) {
    exists i, j :: 0 <= i < j < |Route(b)| && SameGroup(Route(b)[i], Route(b)[j])
  }

  predicate SameGroup(b: Bus, c: Bus) { b.Channel? && c.Channel? && Outer(b) == Outer(c) }

  const LONE: State := State([Idle], map[], map[])

  ghost predicate SticksAlone(run: Schedule, b: Bus) {
    IsRun(LONE, run) && BeginsIn(run, {b}) && Stuck(After(LONE, run))
  }

  lemma StuckAloneRepeats(run: Schedule, b: Bus)
    requires SticksAlone(run, b)
    ensures RouteRepeats(b)
  {
    RunKeepsInv(LONE, run);
    BusesStayIn(LONE, run, {b});
    var s := After(LONE, run);
    var h, a := Holder(s, 0);
    var hop := s.threads[0].pos / 3;
    assert SameGroup(Route(b)[a], Route(b)[hop]);
  }

  /** Two hops of one route are different muxes. */
  lemma {:induction false} HopsDiffer(b: Bus, i: nat, j: nat)
    requires i < j < |Route(b)|
    ensures Route(b)[i].Channel? && Route(b)[j].Channel? && Route(b)[i].mux != Route(b)[j].mux
  {
    HopDepth(b, i);
    HopDepth(b, j);
  }

  lemma {:induction false} HopDepth(b: Bus, i: nat)
    requires i < |Route(b)|
    ensures Route(b)[i].Channel? && Depth(Route(b)[i].mux.parent) == |Route(b)| - 1 - i
  {
    if i > 0 {
      HopDepth(b.mux.parent, i - 1);
    } else {
      RouteLength(b.mux.parent);
    }
  }

  lemma {:induction false} RouteLength(b: Bus)
    ensures |Route(b)| == Depth(b)
  {
    if b.Channel? { RouteLength(b.mux.parent); }
  }

  /** The first hop whose group an earlier hop has. */
  ghost predicate FirstRepeat(b: Bus, j: nat) {
    && j < |Route(b)| && (exists i :: 0 <= i < j && SameGroup(Route(b)[i], Route(b)[j]))
    && forall i, k :: 0 <= i < k < j ==> !SameGroup(Route(b)[i], Route(b)[k])
  }

  lemma {:induction false} FindFirstRepeat(b: Bus, j: nat) returns (first: nat)
    requires j < |Route(b)| && exists i :: 0 <= i < j && SameGroup(Route(b)[i], Route(b)[j])
    ensures FirstRepeat(b, first)
    decreases j
  {
    first := j;
    if i, k :| 0 <= i < k < j && SameGroup(Route(b)[i], Route(b)[k]) {
      first := FindFirstRepeat(b, k);
    }
  }

  /** Up to the first repeated group the plan takes every lock once. */
  lemma FreshUntilRepeat(b: Bus, j: nat, i: nat, k: nat)
    requires FirstRepeat(b, j) && i < k < 3 * j + 1
    ensures 3 * j + 1 < |Plan(b)| && (Plan(b)[k].Take? ==> Plan(b)[i] != Plan(b)[k])
  {
    PlanAt(b, 0);
    PlanAt(b, i);
    PlanAt(b, k);
    if i / 3 < k / 3 {
      HopsDiffer(b, i / 3, k / 3);
      if k / 3 < j {
        assert !SameGroup(Route(b)[i / 3], Route(b)[k / 3]);
      }
    }
  }

  lemma RepeatSticksAlone(b: Bus) returns (run: Schedule)
    requires RouteRepeats(b)
    ensures SticksAlone(run, b)
  {
    var j0: nat :| j0 < |Route(b)| && exists i :: 0 <= i < j0 && SameGroup(Route(b)[i], Route(b)[j0]);
    var j := FindFirstRepeat(b, j0);
    PlanAt(b, 0);
    RunExtends(LONE, [], 0, Begin(b));
    run := [(0, Begin(b))];
    assert [] + run == run;
    for k := 0 to 3 * j + 1
      invariant IsRun(LONE, run) && BeginsIn(run, {b})
      invariant After(LONE, run).threads == [Busy(b, k, Acquiring)]
    {
      NextIsFree(run, b, j, k);
      RunExtends(LONE, run, 0, Advance);
      run := run + [(0, Advance)];
    }
    RepeatedIsHeld(run, b, j);
    assert After(LONE, run).threads[0].Busy?;
  }

  lemma NextIsFree(run: Schedule, b: Bus, j: nat, k: nat)
    requires FirstRepeat(b, j) && IsRun(LONE, run) && k < 3 * j + 1
    requires After(LONE, run).threads == [Busy(b, k, Acquiring)]
    ensures 3 * j + 1 < |Plan(b)| && (Plan(b)[k].Take? ==> Plan(b)[k].lock !in After(LONE, run).owner)
  {
    RunKeepsInv(LONE, run);
    PlanAt(b, 0);
    var s := After(LONE, run);
    if Plan(b)[k].Take? && Plan(b)[k].lock in s.owner {
      var i: nat :| HoldsAt(s.threads[0], Plan(b)[k].lock, i);
      FreshUntilRepeat(b, j, i, k);
      assert false;
    }
  }

  lemma RepeatedIsHeld(run: Schedule, b: Bus, j: nat)
    requires FirstRepeat(b, j) && IsRun(LONE, run)
    requires After(LONE, run).threads == [Busy(b, 3 * j + 1, Acquiring)]
    ensures Stuck(After(LONE, run))
  {
    RunKeepsInv(LONE, run);
    var i :| 0 <= i < j && SameGroup(Route(b)[i], Route(b)[j]);
    GroupsInPlan(b, i);
    GroupsInPlan(b, j);
    AwaitsOwnLock(After(LONE, run), b, 3 * i + 1, 3 * j + 1);
    AllBlockedIsStuck(After(LONE, run));
  }

  lemma GroupsInPlan(b: Bus, i: nat)
    requires i < |Route(b)| && Route(b)[i].Channel?
    ensures 3 * i + 1 < |Plan(b)| && Plan(b)[3 * i + 1] == Take(GroupLock(Outer(Route(b)[i])))
  {
    PlanAt(b, 0);
    PlanAt(b, 3 * i + 1);
  }

  lemma AwaitsOwnLock(s: State, b: Bus, i: nat, k: nat)
    requires Inv(s) && |s.threads| == 1 && s.threads[0] == Busy(b, k, Acquiring)
    requires i < k < |Plan(b)| && Plan(b)[i].Take? && Plan(b)[i] == Plan(b)[k]
    ensures Blocked(s, 0)
  {
    assert HoldsAt(s.threads[0], Plan(b)[i].lock, i);
  }

  /** A single thread can get stuck acquiring a bus if and only if two muxes of its route share a pin
      group. */
  lemma SticksAloneIff(b: Bus)
    ensures (exists run: Schedule :: SticksAlone(run, b)) <==> RouteRepeats(b)
  {
    if run: Schedule :| SticksAlone(run, b) {
      StuckAloneRepeats(run, b);
    }
    if RouteRepeats(b) {
      var run := RepeatSticksAlone(b);
    }
  }

  /** That no route repeats a group is not enough for several threads: two routes that take two groups
      in opposite orders deadlock, though each alone cannot. */
  lemma CrossingRoutesDeadlock() returns (family: set<Bus>)
    ensures Closed(family) && CanDeadlock(family)
    ensures forall b :: b in family ==> !RouteRepeats(b)
  {
    var host := Host(0);
    var low1, low2 := Channel(Mux(0, 1, host), 0), Channel(Mux(1, 2, host), 0);
    var high1, high2 := Channel(Mux(2, 2, low1), 0), Channel(Mux(3, 1, low2), 0);
    family := {host, low1, low2, high1, high2};
    assert Route(low1) == [low1] && Route(low2) == [low2];
    assert Route(high1) == [high1, low1] && Route(high2) == [high2, low2];
    assert IsCycle(family, [high1, high2]);
    DeadlockIff(family);
  }
}
