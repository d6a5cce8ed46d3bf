/** PCA multiplexers (src/drivers/sdi_i2cmux_pca.c).

    Several PCA chips, told apart by I2C address, share one mux lock.  A channel is selected by
    writing a value to its chip and deselected by writing zero.  The parent bus is held only during
    each write, so the claim is about the chips behind one lock: between select and deselect the
    holder's chip alone is selected, except for chips whose own deselect write failed earlier. */
module I2cMuxPca {
  import opened Wrappers

  datatype Channel = Channel(addr: nat, value: nat) {
    /** The select value is sent as one byte. */
    function Byte(): nat { value % 256 }
  }

  /** Where a thread stands in acquiring and releasing a channel bus. */
  datatype Phase =
    | Idle
    | Begun(ch: Channel)     // about to take the mux lock
    | Locked(ch: Channel)    // about to write the select value
    | Selected(ch: Channel)  // the channel bus is acquired
    | Closing(ch: Channel)   // about to drop the mux lock

  /** `chips` holds the byte last stored in each chip; a chip never written is deselected.  `stale`
      is a history variable: the chips left selected by a failed deselect write and not written since. */
  datatype State = State(threads: seq<Phase>, owner: Option<nat>, chips: map<nat, nat>, stale: set<nat>) {
    function Selection(addr: nat): nat { if addr in chips then chips[addr] else 0 }
  }

  datatype Action = Begin(ch: Channel) | Lock | Refuse | Select | SelectFails | Deselect | DeselectFails | Unlock

  predicate Enabled(s: State, t: nat, a: Action) {
    t < |s.threads| &&
    match a
    case Begin(_) => s.threads[t].Idle?
    case Lock => s.threads[t].Begun? && s.owner.None?
    case Refuse => s.threads[t].Begun?
    case Select | SelectFails => s.threads[t].Locked?
    case Deselect | DeselectFails => s.threads[t].Selected?
    case Unlock => s.threads[t].Closing?
  }

  function Apply(s: State, t: nat, a: Action): State
    requires Enabled(s, t, a)
  {
    if a.Begin? then s.(threads := s.threads[t := Begun(a.ch)]) else
    var ch := s.threads[t].ch;
    match a
    case Lock => s.(threads := s.threads[t := Locked(ch)], owner := Some(t))
    case Refuse => s.(threads := s.threads[t := Idle])
    case Select => s.(threads := s.threads[t := Selected(ch)], chips := s.chips[ch.addr := ch.Byte()],
                      stale := s.stale - {ch.addr})
    case SelectFails => s.(threads := s.threads[t := Closing(ch)])
    case Deselect => s.(threads := s.threads[t := Closing(ch)], chips := s.chips[ch.addr := 0])
    case DeselectFails => s.(threads := s.threads[t := Closing(ch)],
                             stale := if ch.Byte() == 0 then s.stale else s.stale + {ch.addr})
    case Unlock => s.(threads := s.threads[t := Idle], owner := None)
  }

  ghost predicate Inside(p: Phase) {
    p.Locked? || p.Selected? || p.Closing?
  }

  ghost predicate Inv(s: State) {
    && (forall t :: 0 <= t < |s.threads| ==> (Inside(s.threads[t]) <==> s.owner == Some(t)))
    && (s.owner.Some? ==> s.owner.value < |s.threads|)
    && (forall t :: 0 <= t < |s.threads| && s.threads[t].Selected? ==>
          var ch := s.threads[t].ch; s.Selection(ch.addr) == ch.Byte() && ch.addr !in s.stale)
    && (forall a :: a in s.stale ==> s.Selection(a) != 0)
    && (forall a {:trigger s.Selection(a)} :: s.Selection(a) != 0 ==> a in s.stale || HolderSelects(s, a))
  }

  /** Address `a` is the chip of a thread that has selected its channel. */
  ghost predicate HolderSelects(s: State, a: nat) {
    s.owner.Some? && s.owner.value < |s.threads| &&
    s.threads[s.owner.value].Selected? && s.threads[s.owner.value].ch.addr == a
  }

  lemma StepKeepsInv(s: State, t: nat, a: Action)
    requires Inv(s) && Enabled(s, t, a)
    ensures Inv(Apply(s, t, a))
  {
    var s' := Apply(s, t, a);
    forall b: nat | s'.Selection(b) != 0 ensures b in s'.stale || HolderSelects(s', b) {
      assert s.Selection(b) == s'.Selection(b) || b == s.threads[t].ch.addr;
    }
  }

  ghost predicate Initial(s: State) {
    s.owner.None? && s.chips == map[] && s.stale == {} && forall t :: 0 <= t < |s.threads| ==> s.threads[t].Idle?
  }

  type Schedule = seq<(nat, Action)>

  ghost predicate IsRun(s: State, run: Schedule)
    decreases |run|
  {
    run == [] || (Enabled(s, run[0].0, run[0].1) && IsRun(Apply(s, run[0].0, run[0].1), run[1..]))
  }

  ghost function After(s: State, run: Schedule): State
    requires IsRun(s, run)
    ensures |After(s, run).threads| == |s.threads|
    decreases |run|
  {
    if run == [] then s else After(Apply(s, run[0].0, run[0].1), run[1..])
  }

  lemma {:induction false} RunKeepsInv(s: State, run: Schedule)
    requires Inv(s) && IsRun(s, run)
    ensures Inv(After(s, run))
    ensures s.stale == {} && (forall step :: step in run ==> !step.1.DeselectFails?) ==> After(s, run).stale == {}
    decreases |run|
  {
    if run != [] {
      StepKeepsInv(s, run[0].0, run[0].1);
      RunKeepsInv(Apply(s, run[0].0, run[0].1), run[1..]);
    }
  }

  lemma {:induction false} RunExtends(s: State, run: Schedule, t: nat, a: Action)
    requires IsRun(s, run) && Enabled(After(s, run), t, a)
    ensures IsRun(s, run + [(t, a)]) && After(s, run + [(t, a)]) == Apply(After(s, run), t, a)
    decreases |run|
  {
    if run != [] {
      RunExtends(Apply(s, run[0].0, run[0].1), run[1..], t, a);
      assert (run + [(t, a)])[1..] == run[1..] + [(t, a)];
    }
  }

  /** In every run, failures included: the chips selected are exactly the stale ones and, if its
      value is not zero, the chip of the one thread that has acquired a channel; that chip shows
      that thread's value. */
  lemma SelectedChipsAreAccountedFor(s0: State, run: Schedule, addr: nat)
    requires Initial(s0) && IsRun(s0, run)
    ensures var s := After(s0, run);
      s.Selection(addr) != 0 <==>
        addr in s.stale || (HolderSelects(s, addr) && s.threads[s.owner.value].ch.value % 256 != 0)
    ensures var s := After(s0, run);
      forall t :: 0 <= t < |s.threads| && s.threads[t].Selected? ==>
        s.owner == Some(t) && s.Selection(s.threads[t].ch.addr) == s.threads[t].ch.value % 256
  {
    RunKeepsInv(s0, run);
  }

  /** When no deselect write fails: at most one chip is selected, only while the lock is held, and
      it belongs to the holder. */
  lemma OnlyTheHolderSelects(s0: State, run: Schedule, addr: nat)
    requires Initial(s0) && IsRun(s0, run)
    requires forall step :: step in run ==> !step.1.DeselectFails?
    ensures After(s0, run).Selection(addr) != 0 ==> HolderSelects(After(s0, run), addr)
    ensures After(s0, run).owner.None? ==> After(s0, run).Selection(addr) == 0
  {
    RunKeepsInv(s0, run);
  }

  /** The condition is exact: while the lock is free, every chip is deselected if and only if no
      failed deselect is outstanding. */
  lemma FreeAndCleanIffNotStale(s0: State, run: Schedule)
    requires Initial(s0) && IsRun(s0, run) && After(s0, run).owner.None?
    ensures (forall a: nat :: After(s0, run).Selection(a) == 0) <==> After(s0, run).stale == {}
  {
    RunKeepsInv(s0, run);
    var s := After(s0, run);
    if forall a: nat :: s.Selection(a) == 0 {
      if a :| a in s.stale {
        assert s.Selection(a) == 0;
      }
    }
  }

  /** One failed deselect is enough to leave two chips selected at once. */
  lemma FailedDeselectLeavesTwoChips() returns (s0: State, run: Schedule)
    ensures Initial(s0) && IsRun(s0, run)
    ensures After(s0, run).Selection(0x71) != 0 && After(s0, run).Selection(0x72) != 0
  {
    s0 := State([Idle], None, map[], {});
    run := [];
    var a, b := Channel(0x71, 1), Channel(0x72, 4);
    var steps := [Begin(a), Lock, Select, DeselectFails, Unlock, Begin(b), Lock, Select];
    for k := 0 to |steps|
      invariant IsRun(s0, run) && |After(s0, run).threads| == 1
      invariant After(s0, run).threads[0] == [Idle, Begun(a), Locked(a), Selected(a), Closing(a), Idle, Begun(b), Locked(b), Selected(b)][k]
      invariant After(s0, run).owner == if k in {2, 3, 4, 7, 8} then Some(0) else None
      invariant k >= 3 ==> After(s0, run).Selection(0x71) == 1
      invariant k >= 8 ==> After(s0, run).Selection(0x72) == 4
    {
      RunExtends(s0, run, 0, steps[k]);
      run := run + [(0, steps[k])];
    }
  }

  /** What a thread's own state says of the lock and of its chip. */
  lemma ThreadAndLock(s0: State, run: Schedule, t: nat)
    requires Initial(s0) && IsRun(s0, run) && t < |s0.threads|
    ensures var s := After(s0, run);
      && (s.threads[t].Selected? ==> s.owner == Some(t) && s.Selection(s.threads[t].ch.addr) == s.threads[t].ch.value % 256)
      && (s.threads[t].Idle? ==> s.owner != Some(t))
  {
    RunKeepsInv(s0, run);
  }

  // ----- The driver code

  class PcaDriver {
    var st: State
    ghost var start: State
    ghost var run: Schedule

    ghost predicate Valid()
      reads this
    {
      Initial(start) && IsRun(start, run) && st == After(start, run)
    }

    constructor (threads: nat)
      ensures Valid() && |st.threads| == threads && run == []
    {
      st := State(seq(threads, _ => Idle), None, map[], {});
      start, run := State(seq(threads, _ => Idle), None, map[], {}), [];
    }

    method Step(t: nat, a: Action)
      requires Valid() && Enabled(st, t, a)
      modifies this
      ensures Valid() && start == old(start) && run == old(run) + [(t, a)] && st == Apply(old(st), t, a)
    {
      RunExtends(start, run, t, a);
      st := Apply(st, t, a);
      run := run + [(t, a)];
    }

    method OthersRun(me: nat)
      requires Valid() && me < |st.threads|
      modifies this
      ensures Valid() && start == old(start) && old(run) <= run
      ensures |st.threads| == old(|st.threads|) && st.threads[me] == old(st.threads[me])
      ensures forall k :: |old(run)| <= k < |run| ==> run[k].0 != me
    {
      var steps :| 0 <= steps;
      for i := 0 to steps
        invariant Valid() && start == old(start) && old(run) <= run
        invariant |st.threads| == old(|st.threads|) && st.threads[me] == old(st.threads[me])
        invariant forall k :: |old(run)| <= k < |run| ==> run[k].0 != me
      {
        var t: nat := *;
        var a: Action := *;
        if t != me && Enabled(st, t, a) {
          Step(t, a);
        }
      }
    }

    /** sdi_i2cmux_pca_chan_acquire_bus: on success the lock is held and the chip shows the value;
        on failure the thread is idle again and has changed no chip. */
    method AcquireBus(me: nat, ch: Channel) returns (ok: bool)
      requires Valid() && me < |st.threads| && st.threads[me].Idle?
      modifies this
      ensures Valid() && start == old(start) && old(run) <= run && |st.threads| == old(|st.threads|)
      ensures st.threads[me] == if ok then Selected(ch) else Idle
      ensures ok ==> st.owner == Some(me) && st.Selection(ch.addr) == ch.value % 256
      ensures !ok ==> st.owner != Some(me)
      ensures !ok ==> forall k :: |old(run)| <= k < |run| && run[k].0 == me ==> !run[k].1.Select?
    {
      Step(me, Begin(ch));
      OthersRun(me);
      var refused: bool := *;
      if st.owner.Some? || refused {
        Step(me, Refuse);
        ThreadAndLock(start, run, me);
        return false;
      }
      Step(me, Lock);
      OthersRun(me);
      ok := *;
      if ok {
        Step(me, Select);
      } else {
        Step(me, SelectFails);
        OthersRun(me);
        Step(me, Unlock);
      }
      ThreadAndLock(start, run, me);
    }

    /** sdi_i2cmux_pca_chan_release_bus: a failed deselect is only logged; the lock is dropped anyway. */
    method ReleaseBus(me: nat)
      requires Valid() && me < |st.threads| && st.threads[me].Selected?
      modifies this
      ensures Valid() && start == old(start) && old(run) <= run && |st.threads| == old(|st.threads|)
      ensures st.threads[me].Idle? && st.owner != Some(me)
      ensures st.Selection(old(st.threads[me].ch.addr)) == 0 || old(st.threads[me].ch.addr) in st.stale
    {
      OthersRun(me);
      var ok: bool := *;
      if ok {
        Step(me, Deselect);
      } else {
        Step(me, DeselectFails);
      }
      OthersRun(me);
      RunKeepsInv(start, run);
      Step(me, Unlock);
      RunKeepsInv(start, run);
    }
  }
}
