/** The driver code of src/drivers/sdi_i2cmux_pin.c, run by one thread while any number of others
    take steps between its calls.  Every call it makes is a step of the protocol in `I2cMuxPin`, so
    the theorems proved there about runs hold of the code. */
module I2cMuxPinDriver {
  import opened I2cMuxPin

  class MuxDriver {
    var st: State
    ghost var start: State
    ghost var run: Schedule

    /** The current state was reached by a run of the protocol from an initial state. */
    ghost predicate Valid()
      reads this
    {
      Initial(start) && IsRun(start, run) && st == After(start, run)
    }

    constructor (threads: nat, level: map<nat, nat>)
      ensures Valid() && |st.threads| == threads && run == [] && st.level == level
    {
      st := State(seq(threads, _ => Idle), map[], level);
      start, run := State(seq(threads, _ => Idle), map[], level), [];
    }

    /** Take one protocol step. */
    method Step(t: nat, a: Action)
      requires Valid() && Enabled(st, t, a)
      modifies this
      ensures Valid() && start == old(start) && run == old(run) + [(t, a)]
      ensures st == Apply(old(st), t, a)
    {
      RunExtends(start, run, t, a);
      st := Apply(st, t, a);
      run := run + [(t, a)];
    }

    /** Threads other than `me` run for a while. */
    method OthersRun(me: nat)
      requires Valid() && me < |st.threads|
      modifies this
      ensures Valid() && start == old(start) && old(run) <= run
      ensures |st.threads| == old(|st.threads|) && st.threads[me] == old(st.threads[me])
      ensures forall k :: |old(run)| <= k < |run| ==> run[k].0 != me
    {
      var steps :| 0 <= steps;
      for i := 0 to steps
        invariant Valid() && start == old(start) && old(run) <= run
        invariant |st.threads| == old(|st.threads|) && st.threads[me] == old(st.threads[me])
        invariant forall k :: |old(run)| <= k < |run| ==> run[k].0 != me
      {
        var t: nat := *;
        var a: Action := *;
        if t != me && Enabled(st, t, a) {
          Step(t, a);
        }
      }
    }

    /** std_mutex_lock: waiting is letting others run; the call may also return an error. */
    method MutexLock(me: nat, l: Lock) returns (ok: bool)
      requires Valid() && me < |st.threads|
      requires var th := st.threads[me];
        th.Busy? && th.mode == Acquiring && th.pos < |Plan(th.bus)| && Plan(th.bus)[th.pos] == Take(l)
      modifies this
      ensures Valid() && start == old(start) && old(run) <= run && |st.threads| == old(|st.threads|)
      ensures var Busy(b, pos, _) := old(st.threads[me]);
        st.threads[me] == if !ok then Busy(b, pos, Releasing)
                          else Busy(b, pos + 1, if pos + 1 == |Plan(b)| then Using else Acquiring)
      ensures ok ==> l in st.owner && st.owner[l] == me
    {
      OthersRun(me);
      var refused: bool := *;
      ok := l !in st.owner && !refused;
      if ok {
        Step(me, Advance);
      } else {
        Step(me, Fault(0));
      }
    }

    /** sdi_pin_group_write_level: a failed write may leave any level on the pins. */
    method WriteLevel(me: nat, g: nat, v: nat) returns (ok: bool)
      requires Valid() && me < |st.threads|
      requires var th := st.threads[me];
        th.Busy? && th.mode == Acquiring && th.pos + 1 < |Plan(th.bus)| && Plan(th.bus)[th.pos] == SetLevel(g, v)
      modifies this
      ensures Valid() && start == old(start) && old(run) <= run && |st.threads| == old(|st.threads|)
      ensures var Busy(b, pos, _) := old(st.threads[me]);
        st.threads[me] == if ok then Busy(b, pos + 1, Acquiring) else Busy(b, pos, Releasing)
      ensures ok ==> g in st.level && st.level[g] == v
    {
      OthersRun(me);
      ok := *;
      if ok {
        Step(me, Advance);
      } else {
        var junk: nat := *;
        Step(me, Fault(junk));
      }
    }

    /** std_mutex_unlock of the lock taken last, skipping back over a level write made since. */
    method MutexUnlock(me: nat, l: Lock)
      requires Valid() && me < |st.threads|
      requires var th := st.threads[me];
        th.Busy? && th.mode == Releasing && 0 < th.pos <= |Plan(th.bus)| && Plan(th.bus)[th.pos - 1] == Take(l)
      modifies this
      ensures Valid() && start == old(start) && old(run) <= run && |st.threads| == old(|st.threads|)
      ensures st.threads[me] == Busy(old(st.threads[me]).bus, old(st.threads[me]).pos - 1, Releasing)
      ensures l !in st.owner
    {
      OthersRun(me);
      Step(me, Retreat);
    }

    /** sdi_i2c_acquire_bus: dispatch on the operations table of `b`, the bus whose plan is what is
        left of the plan of the bus that `me` asked for.  All or nothing: on success the thread has
        completed its plan; on failure it is back where it was, holding nothing of `b`'s plan. */
    method AcquireBus(me: nat, b: Bus) returns (ok: bool)
      requires Valid() && me < |st.threads|
      requires var th := st.threads[me];
        th.Busy? && th.mode == Acquiring && th.pos < |Plan(th.bus)| && Plan(th.bus)[th.pos..] == Plan(b)
      modifies this
      ensures Valid() && start == old(start) && old(run) <= run && |st.threads| == old(|st.threads|)
      ensures var Busy(target, pos, _) := old(st.threads[me]);
        st.threads[me] == if ok then Busy(target, |Plan(target)|, Using) else Busy(target, pos, Releasing)
      decreases b
    {
      PlanSuffix(Plan(st.threads[me].bus), st.threads[me].pos, b);
      match b {
        case Host(id) =>
          ok := MutexLock(me, HostLock(id));
        case Channel(mux, channel) =>
          ok := MutexLock(me, MuxLock(mux));
          if !ok {
            return;
          }
          var groupAcquired := MutexLock(me, GroupLock(mux.pinGroup));
          ok := groupAcquired;
          if ok {
            ok := WriteLevel(me, mux.pinGroup, channel);
            if ok {
              ok := AcquireBus(me, mux.parent);
              if !ok {
                Step(me, Retreat);  // the level stays as written
              }
            }
          }
          if !ok {
            if groupAcquired {
              MutexUnlock(me, GroupLock(mux.pinGroup));
            }
            MutexUnlock(me, MuxLock(mux));
          }
      }
    }

    /** sdi_i2c_release_bus: release the parent, then the pin group, then the mux lock. */
    method ReleaseBus(me: nat, b: Bus)
      requires Valid() && me < |st.threads|
      requires var th := st.threads[me];
        th.Busy? && th.mode == Releasing && th.pos == |Plan(th.bus)| >= |Plan(b)|
        && Plan(th.bus)[th.pos - |Plan(b)|..] == Plan(b)
      modifies this
      ensures Valid() && start == old(start) && old(run) <= run && |st.threads| == old(|st.threads|)
      ensures st.threads[me] ==
        Busy(old(st.threads[me]).bus, old(st.threads[me]).pos - |Plan(b)|, Releasing)
      decreases b
    {
      PlanSuffix(Plan(st.threads[me].bus), st.threads[me].pos - |Plan(b)|, b);
      match b {
        case Host(id) =>
          MutexUnlock(me, HostLock(id));
        case Channel(mux, channel) =>
          ReleaseBus(me, mux.parent);
          Step(me, Retreat);  // the level stays as written
          MutexUnlock(me, GroupLock(mux.pinGroup));
          MutexUnlock(me, MuxLock(mux));
      }
    }

    /** sdi_smbus_execute on an acquired bus: each mux channel hands the transaction to its parent, so it
        runs on the host controller at the root, the one host whose lock the thread owns.  Nothing changes
        on the way, every mux from the bus asked for to that host is switched to the thread's channel, and
        no other user's route meets it. */
    method Execute(me: nat, b: Bus) returns (host: nat)
      requires Valid() && IsUsing(st, me) && (b == st.threads[me].bus || b in Parents(st.threads[me].bus))
      ensures HostLock(host) in st.owner && st.owner[HostLock(host)] == me
      ensures forall h :: HostLock(h) in st.owner && st.owner[HostLock(h)] == me ==> h == host
      ensures host == Root(st.threads[me].bus)
      ensures Routed(st, st.threads[me].bus)
      ensures forall u: nat :: u != me && IsUsing(st, u) ==> Apart(st.threads[me].bus, st.threads[u].bus)
      decreases b
    {
      match b {
        case Host(id) =>
          host := id;
        case Channel(mux, _) =>
          ParentsGoOn(st.threads[me].bus, b);
          host := Execute(me, mux.parent);
      }
      RootOfParents(st.threads[me].bus, b);
      UsersAreRoutedAndExclusive(start, run, me);
      UserOwnsItsHost(start, run, me);
    }

    /** One API call as the bus functions make it (src/framework/sdi_i2c_bus_api.c:116-140): acquire,
        execute, release.  Whatever fails and whoever interferes, the thread ends idle and owns no lock. */
    method ReadByte(me: nat, b: Bus) returns (ok: bool)
      requires Valid() && me < |st.threads| && st.threads[me] == Idle
      modifies this
      ensures Valid() && start == old(start) && old(run) <= run && |st.threads| == old(|st.threads|)
      ensures st.threads[me] == Idle
      ensures forall l :: l in st.owner ==> st.owner[l] != me
    {
      Step(me, Begin(b));
      assert |Plan(b)| > 0 && Plan(b)[0..] == Plan(b);
      ok := AcquireBus(me, b);
      if ok {
        var host := Execute(me, b);
        Step(me, Finish);
        ReleaseBus(me, b);
      }
      Step(me, Retreat);
      forall l | l in st.owner ensures st.owner[l] != me {
        OwnsExactlyItsPrefix(start, run, me, l);
      }
    }
  }

  /** Where the plan of a bus is left to do, its own calls come first and then its parent's. */
  lemma PlanSuffix(plan: seq<Op>, at: nat, b: Bus)
    requires at <= |plan| && plan[at..] == Plan(b)
    ensures at < |plan| && plan[at] == Plan(b)[0]
    ensures b.Channel? ==>
      && at + 3 < |plan| && plan[at + 1] == Plan(b)[1] && plan[at + 2] == Plan(b)[2]
      && plan[at + 3..] == Plan(b.mux.parent) && |Plan(b.mux.parent)| > 0
  {
    assert |Plan(b)| > 0 && plan[at..][0] == plan[at];
    if b.Channel? {
      assert |Plan(b.mux.parent)| > 0;
      assert plan[at..][1] == plan[at + 1] && plan[at..][2] == plan[at + 2];
      assert plan[at + 3..] == plan[at..][3..];
    }
  }

  /** The buses above a bus, and the host at the top. */
  function Parents(b: Bus): seq<Bus> {
    if b.Host? then [] else [b.mux.parent] + Parents(b.mux.parent)
  }

  function Root(b: Bus): nat {
    if b.Host? then b.busId else Root(b.mux.parent)
  }

  /** The last call of a plan, and no other, takes a host's lock. */
  lemma {:induction false} HostComesLast(b: Bus, i: nat)
    requires i < |Plan(b)|
    ensures Plan(b)[|Plan(b)| - 1] == Take(HostLock(Root(b)))
    ensures Plan(b)[i].Take? && Plan(b)[i].lock.HostLock? ==> i == |Plan(b)| - 1
  {
    if b.Channel? {
      assert |Plan(b.mux.parent)| > 0;
      HostComesLast(b.mux.parent, if i < 3 then 0 else i - 3);
    }
  }

  lemma UserOwnsItsHost(s0: State, run: Schedule, t: nat)
    requires Initial(s0) && IsRun(s0, run) && IsUsing(After(s0, run), t)
    ensures var s := After(s0, run);
      forall h :: HostLock(h) in s.owner && s.owner[HostLock(h)] == t <==> h == Root(s.threads[t].bus)
  {
    var s := After(s0, run);
    var th := s.threads[t];
    RunKeepsInv(s0, run);
    HostComesLast(th.bus, 0);
    assert HoldsAt(th, HostLock(Root(th.bus)), |Plan(th.bus)| - 1);
    forall h | HostLock(h) in s.owner && s.owner[HostLock(h)] == t ensures h == Root(th.bus) {
      var i: nat :| HoldsAt(th, HostLock(h), i);
      HostComesLast(th.bus, i);
    }
  }

  lemma {:induction false} ParentsGoOn(b: Bus, c: Bus)
    requires (c == b || c in Parents(b)) && c.Channel?
    ensures c.mux.parent in Parents(b)
  {
    if c != b { ParentsGoOn(b.mux.parent, c); }
  }

  lemma {:induction false} RootOfParents(b: Bus, c: Bus)
    requires c == b || c in Parents(b)
    ensures Root(c) == Root(b)
  {
    if c != b { RootOfParents(b.mux.parent, c); }
  }
}
