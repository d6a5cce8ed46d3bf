/** The calls of src/drivers/sdi_max6620.c on one chip: its registers, the per-fan data and the shared
    fault latch, proved against `Max6620`.  Every bus call may fail. */
module Max6620Driver {
  import opened Bits
  import opened Max6620
  import opened Wrappers

  datatype Rc = Ok | BusError | NotSupported

  const FAN_FAULT := 0x01

  function FanDynamics(f: nat): nat { 0x06 + f }
  function FanTachCount(f: nat): nat { 0x10 + 2 * f }
  function FanTargetCount(f: nat): nat { 0x20 + 2 * f }

  class Chip {
    const regs: array<byte>
    var fans: seq<Fan>
    var faults: nat                 // the latched fault bits
    ghost var failures: nat         // bus calls that failed so far
    ghost var reports: seq<Report>  // the status calls so far

    constructor (regs: array<byte>, fans: seq<Fan>)
      requires regs.Length == 256 && |fans| == MAX_FANS
      ensures Valid() && this.regs == regs && this.fans == fans && reports == []
    {
      this.regs, this.fans, faults, failures, reports := regs, fans, 0, 0, [];
    }

    ghost predicate Valid()
      reads this
    {
      && regs.Length == 256 && |fans| == MAX_FANS
      && faults == After(reports) && forall k :: 0 <= k < |reports| ==> reports[k].Valid()
    }

    // ----- Bus calls; a failed write changes nothing

    /** OK is returned exactly when no bus call failed. */
    twostate predicate Reported(rc: Rc)
      reads this`failures
    {
      failures >= old(failures) && rc == if failures == old(failures) then Ok else BusError
    }

    method ReadByte(r: nat) returns (rc: Rc, data: byte)
      requires r < regs.Length
      modifies this`failures
      ensures Reported(rc)
      ensures rc.Ok? ==> data == regs[r]
    {
      var failed: bool := *;
      if failed { failures := failures + 1; }
      rc, data := if failed then BusError else Ok, if failed then 0 else regs[r];
    }

    method WriteByte(r: nat, data: byte) returns (rc: Rc)
      requires r < regs.Length
      modifies this`failures, regs
      ensures Reported(rc)
      ensures regs[..] == if rc.Ok? then old(regs[..])[r := data] else old(regs[..])
    {
      var failed: bool := *;
      if failed { failures := failures + 1; }
      rc := if failed then BusError else Ok;
      if !failed { regs[r] := data; }
    }

    /** An SMBus word, low byte first. */
    method ReadWord(r: nat) returns (rc: Rc, low: byte, high: byte)
      requires r + 1 < regs.Length
      modifies this`failures
      ensures Reported(rc)
      ensures rc.Ok? ==> low == regs[r] && high == regs[r + 1]
    {
      var failed: bool := *;
      if failed { failures := failures + 1; }
      rc := if failed then BusError else Ok;
      low, high := if failed then 0 else regs[r], if failed then 0 else regs[r + 1];
    }

    method WriteWord(r: nat, low: byte, high: byte) returns (rc: Rc)
      requires r + 1 < regs.Length
      modifies this`failures, regs
      ensures Reported(rc)
      ensures regs[..] == if rc.Ok? then old(regs[..])[r := low][r + 1 := high] else old(regs[..])
    {
      var failed: bool := *;
      if failed { failures := failures + 1; }
      rc := if failed then BusError else Ok;
      if !failed { regs[r], regs[r + 1] := low, high; }
    }

    // ----- Driver calls

    /** The choice of a period in sdi_max6620_fan_tach_count_period_set. */
    static method ChoosePeriod(maxSpeed: nat) returns (period: nat, code: nat)
      ensures code == PeriodCode(maxSpeed) < 8 && period == Pow2(code)
    {
      if maxSpeed > 0 && maxSpeed <= 500 {
        period, code := 1, 0;
      } else if maxSpeed > 500 && maxSpeed <= 1000 {
        period, code := 2, 1;
      } else if maxSpeed > 1000 && maxSpeed <= 2000 {
        period, code := 4, 2;
      } else if maxSpeed > 2000 && maxSpeed <= 4000 {
        period, code := 8, 3;
      } else if maxSpeed > 4000 && maxSpeed <= 8000 {
        period, code := 16, 4;
      } else {
        period, code := 32, 5;
      }
      PeriodIsPow2(maxSpeed);
    }

    /** sdi_max6620_fan_tach_count_period_set: the period is remembered even if the chip is not told.
        On the chip it takes the top three bits of one register. */
    method TachCountPeriodSet(f: nat) returns (rc: Rc)
      requires Valid() && f < MAX_FANS
      modifies this`failures, this`fans, regs
      ensures Valid() && Reported(rc)
      ensures fans == old(fans)[f := old(fans)[f].(period := Pow2(PeriodCode(old(fans)[f].maxSpeed)))]
      ensures !rc.Ok? ==> regs[..] == old(regs[..])
      ensures rc.Ok? ==> regs[0x06 + f] / 32 == PeriodCode(fans[f].maxSpeed)
      ensures rc.Ok? ==> regs[0x06 + f] % 32 == old(regs[0x06 + f]) % 32
      ensures forall r :: 0 <= r < 256 && r != 0x06 + f ==> regs[r] == old(regs[r])
    {
      var period, code := ChoosePeriod(fans[f].maxSpeed);
      fans := fans[f := fans[f].(period := period)];
      var buf;
      rc, buf := ReadByte(FanDynamics(f));
      if !rc.Ok? {
        return;
      }
      ShiftedCode(code);
      MergedCode(buf, code);
      rc := WriteByte(FanDynamics(f), MergeTopThree(buf, Low(Shl(code, 5), 8)));
    }

    /** sdi_max6620_fan_tach_count_get. */
    method TachCountGet(f: nat) returns (rc: Rc, count: nat)
      requires Valid() && f < MAX_FANS
      modifies this`failures
      ensures Reported(rc)
      ensures rc.Ok? ==> count == Eleven(regs[0x10 + 2 * f], regs[0x11 + 2 * f])
    {
      var first, second;
      rc, first, second := ReadWord(FanTachCount(f));
      count := TachCount(first, second);
      TachCountIs(first, second);
    }

    /** sdi_max6620_fan_target_tach_count_set: the registers then hold the low eleven bits of the count;
        the second register's other bits, and every other register, are untouched. */
    method TargetTachCountSet(f: nat, count: nat) returns (rc: Rc)
      requires Valid() && f < MAX_FANS
      modifies this`failures, regs
      ensures Reported(rc)
      ensures !rc.Ok? ==> regs[..] == old(regs[..])
      ensures rc.Ok? ==> regs[..] == Targeted(old(regs[..]), f, count)
      ensures rc.Ok? ==> Eleven(regs[0x20 + 2 * f], regs[0x21 + 2 * f]) == count % 2048
      ensures rc.Ok? ==> regs[0x20 + 2 * f] == count / 8 % 256 && regs[0x21 + 2 * f] / 32 == count % 8
      ensures rc.Ok? ==> regs[0x21 + 2 * f] % 32 == old(regs[0x21 + 2 * f]) % 32
      ensures forall r :: 0 <= r < 256 && r != 0x20 + 2 * f && r != 0x21 + 2 * f ==> regs[r] == old(regs[r])
    {
      var first, second;
      rc, first, second := ReadWord(FanTargetCount(f));
      if !rc.Ok? {
        return;
      }
      BytesOfCount(count, second);
      CountInTwo(count);
      rc := WriteWord(FanTargetCount(f), FirstByte(count), SecondByte(count, second));
    }

    /** The last part of sdi_max6620_fan_speed_get. */
    static method SpeedForCount(fan: Fan, count: nat, before: nat) returns (speed: nat)
      requires fan.Divides(count)
      ensures speed == Speed(fan, count).UnwrapOr(before)
    {
      if count == 0 {
        return before;
      }
      speed := if count == MAX_TACH_COUNT then 0 else fan.Clocks() / fan.Times(count);
    }

    /** The first part of sdi_max6620_fan_speed_set. */
    static method CountForSpeed(fan: Fan, speed: nat) returns (count: nat)
      requires fan.Divides(speed)
      ensures count == Count(fan, speed)
    {
      count := if speed == 0 then MAX_TACH_COUNT else fan.Clocks() / fan.Times(speed);
    }

    /** sdi_max6620_fan_speed_get.  A count of zero leaves the caller's variable alone. */
    method SpeedGet(f: nat, before: nat) returns (rc: Rc, speed: nat)
      requires Valid() && f < MAX_FANS && fans[f].Divides(Counted(f))
      modifies this`failures
      ensures Reported(rc)
      ensures rc.Ok? && Counted(f) == 0 ==> speed == before
      ensures rc.Ok? && Counted(f) == 2047 ==> speed == 0
      ensures rc.Ok? ==> speed == Speed(fans[f], Counted(f)).UnwrapOr(before)
    {
      var count;
      speed := before;
      rc, count := TachCountGet(f);
      if !rc.Ok? {
        return;
      }
      speed := SpeedForCount(fans[f], count, before);
    }

    /** The count the chip shows for fan `f`, in the pair of registers at 0x10 + 2f. */
    function Counted(f: nat): nat
      requires regs.Length == 256 && f < MAX_FANS
      reads regs
    {
      Eleven(regs[0x10 + 2 * f], regs[0x11 + 2 * f])
    }

    /** sdi_max6620_fan_speed_set.  Once the fan runs at its target, `SpeedGet` answers with a speed
        that is never slower and less than one count too fast; this holds for a speed in range. */
    method SpeedSet(f: nat, speed: nat) returns (rc: Rc)
      requires Valid() && f < MAX_FANS && fans[f].Divides(speed)
      modifies this`failures, regs
      ensures rc.NotSupported? <==> speed > fans[f].maxSpeed
      ensures speed <= fans[f].maxSpeed ==> Reported(rc)
      ensures !rc.Ok? ==> regs[..] == old(regs[..])
      ensures rc.Ok? ==> regs[..] == Targeted(old(regs[..]), f, Count(fans[f], speed))
      ensures rc.Ok? && speed == 0 ==> Eleven(regs[0x20 + 2 * f], regs[0x21 + 2 * f]) == 2047
      ensures rc.Ok? ==> Eleven(regs[0x20 + 2 * f], regs[0x21 + 2 * f]) == Count(fans[f], speed) % 2048
      ensures rc.Ok? && fans[f].InRange(speed) && fans[f].Clocks() < UINT_MODULUS ==>
        var count := Eleven(regs[0x20 + 2 * f], regs[0x21 + 2 * f]);
        fans[f].Divides(count) && Close(speed, Speed(fans[f], count), count)
      ensures forall r :: 0 <= r < 256 && r != 0x20 + 2 * f && r != 0x21 + 2 * f ==> regs[r] == old(regs[r])
    {
      if speed > fans[f].maxSpeed {
        return NotSupported;
      }
      var count := CountForSpeed(fans[f], speed);
      rc := TargetTachCountSet(f, count);
      ghost var fan := fans[f];
      if fan.InRange(speed) && fan.Clocks() < UINT_MODULUS {
        InRangeReadsBack(fan, speed);
      }
    }

    /** sdi_max6620_fan_status_get.  Whatever fails, the call is one step of the latch and changes no
        register; and if it could read the fault register it tells of a fault exactly when this or an
        earlier call for any fan saw one for `f` that no successful call has told of since.  `report`
        records what the bus did. */
    method StatusGet(f: nat) returns (rc: Rc, status: bool, ghost report: Report)
      requires Valid() && f < MAX_FANS
      modifies this`failures, this`faults, this`reports, regs
      ensures Reported(rc)
      ensures Valid() && reports == old(reports) + [report] && regs[..] == old(regs[..])
      ensures report.fan == f && (report.reading.Some? ==> report.reading.value == old(regs[0x01]))
      ensures rc.Ok? <==> Succeeds(old(faults), report)
      ensures report.reading.None? ==> !status && faults == old(faults)
      ensures report.reading.Some? ==>
                (status <==> Bit(old(regs[0x01]), f + 4) || exists i :: 0 <= i < |old(reports)| && Untold(old(reports), i, f))
    {
      rc, status, report := ReadStatus(f);
      AfterOneMore(reports, report);
      if report.reading.Some? {
        FaultyIffSeenSinceTold(reports, report);
      }
      reports := reports + [report];
    }

    /** The code of the call. */
    method ReadStatus(f: nat) returns (rc: Rc, status: bool, ghost report: Report)
      requires regs.Length == 256 && f < MAX_FANS
      modifies this`failures, this`faults, regs
      ensures Reported(rc)
      ensures regs[..] == old(regs[..])
      ensures report.fan == f && (report.reading.Some? ==> report.reading.value == old(regs[0x01]))
      ensures rc.Ok? <==> Succeeds(old(faults), report)
      ensures status == Faulty(old(faults), report) && faults == Next(old(faults), report)
      ensures report.reading.Some? ==> (status <==> Bit(old(faults), f + 4) || Bit(old(regs[0x01]), f + 4))
    {
      status, report := false, Report(f, None, false);
      var buf: byte;
      rc, buf := ReadByte(FAN_FAULT);
      if !rc.Ok? {
        return;
      }
      report := Report(f, Some(buf), false);
      var m := Shl(1, f + 4);
      faults := Or(faults, buf);
      OrBit(old(faults), buf, f + 4);
      AndOneBit(faults, f + 4);
      status := And(faults, m) != 0;
      if status {
        var first, second;
        rc, first, second := ReadWord(FanTargetCount(f));
        if !rc.Ok? {
          return;
        }
        rc := WriteWord(FanTargetCount(f), first, second);
        if !rc.Ok? {
          return;
        }
        report := Report(f, Some(buf), true);
        faults := And(faults, Flip(m, 32));
      }
    }
  }

  lemma AndOneBit(x: nat, k: nat)
    ensures And(x, Shl(1, k)) != 0 <==> Bit(x, k)
  {
    var y := And(x, Shl(1, k));
    AndBit(x, Shl(1, k), k);
    OneBit(k, k);
    if y != 0 {
      var i := SomeBit(y);
      AndBit(x, Shl(1, k), i);
      OneBit(k, i);
    } else {
      ZeroHasNoBits(k);
    }
  }
}
