/** The read-modify-write code of src/drivers/sdi_cpld_pin_group.c and src/drivers/sdi_cpld_pin.c on a
    CPLD's byte registers, proved against the bit-level description in `CpldPins`. */
module CpldDriver {
  import opened Bits
  import opened CpldPins

  datatype Rc = Ok | BusError | NotSupported

  class Cpld {
    const regs: array<byte>
    ghost var faults: nat  // bus calls that failed so far

    constructor (regs: array<byte>)
      ensures this.regs == regs && faults == 0
    {
      this.regs, faults := regs, 0;
    }

    /** OK is returned exactly when no bus call failed. */
    twostate predicate Reported(rc: Rc)
      reads this
    {
      faults >= old(faults) && rc == if faults == old(faults) then Ok else BusError
    }

    /** sdi_bus_read_byte: the bus may fail. */
    method BusReadByte(addr: nat) returns (rc: Rc, data: byte)
      requires addr < regs.Length
      modifies this`faults
      ensures Reported(rc)
      ensures rc.Ok? ==> data == regs[addr]
    {
      var failed: bool := *;
      if failed { faults := faults + 1; }
      rc, data := if failed then BusError else Ok, if failed then 0 else regs[addr];
    }

    /** sdi_bus_write_byte: a failed write leaves the register as it was. */
    method BusWriteByte(addr: nat, data: byte) returns (rc: Rc)
      requires addr < regs.Length
      modifies this`faults, regs
      ensures Reported(rc)
      ensures regs[..] == if rc.Ok? then old(regs[..])[addr := data] else old(regs[..])
    {
      var failed: bool := *;
      if failed { faults := faults + 1; }
      rc := if failed then BusError else Ok;
      if !failed {
        regs[addr] := data;
      }
    }

    /** sdi_cpld_pin_group_read_level. */
    method GroupReadLevel(g: Group) returns (rc: Rc, value: nat)
      requires g.Valid() && g.Fits(regs[..])
      modifies this`faults
      ensures Reported(rc)
      ensures rc.Ok? ==> value == ReadLevel(regs[..], g) && value < Pow2(32)
    {
      var level, regCount := 0, 1;
      var offset: int := g.startAddr;
      var descending := g.startAddr >= g.endAddr;
      value := 0;
      rc := Ok;
      while regCount <= g.Length()
        invariant 1 <= regCount <= g.Length() + 1 && rc.Ok? && faults == old(faults)
        invariant regCount <= g.Length() ==> offset == g.Addr(regCount - 1)
        invariant level == LevelAfter(regs[..], g, regCount - 1)
      {
        var buffer;
        rc, buffer := BusReadByte(offset);
        if !rc.Ok? {
          return;
        }
        level := ReadStep(g, regCount - 1, level, buffer);
        offset := if descending then offset - 1 else offset + 1;
        regCount := regCount + 1;
      }
      LevelFits(regs[..], g, g.Length());
      value := level;
    }

    /** The cases of the write loop: the register at hand, with its part of the level merged in. */
    method MergeRegister(g: Group, ghost value: nat, ghost k: nat, regCount: nat, data: nat, buffer: byte)
      returns (merged: nat)
      requires g.Valid() && k < g.Length() && regCount == g.Length() - k && data == Shr(value, 8 * k)
      ensures Low(merged, 8) == WriteByte(g, k, value, buffer)
    {
      var level := Low(data, 8);
      var start, end;
      if g.Length() == 1 {
        if g.inverted {
          level := Flip(level, g.endOffset - g.startOffset + 1);
        }
        start, end := g.startOffset, g.endOffset + 1;
      } else if regCount == g.Length() {
        if g.inverted {
          level := Flip(level, 7 - g.startOffset + 1);
        }
        start, end := g.startOffset, 8;
      } else if regCount == 1 {
        if g.inverted {
          level := Flip(level, g.endOffset - 0 + 1);
        }
        start, end := 0, g.endOffset + 1;
      } else {
        if g.inverted {
          level := Flip(level, 8);
        }
        start, end := 0, 8;
      }
      assert IsStoredLevel(g, k, value, level) && start == g.First(k) && end == g.Last(k) + 1;
      merged := SetSubBitstream(buffer, level, start, end);
      MergedByteIsWritten(g, k, value, level, buffer, merged);
    }

    /** sdi_cpld_pin_group_write_level.  On success every register of the group has been written; a
        bus error stops the walk with the registers before it written and the rest untouched. */
    method GroupWriteLevel(g: Group, value: nat) returns (rc: Rc, ghost done: nat)
      requires g.Valid() && g.Fits(regs[..])
      modifies this`faults, regs
      ensures Reported(rc)
      ensures done <= g.Length() && (rc.Ok? ==> done == g.Length())
      ensures regs[..] == Written(old(regs[..]), g, value, done)
    {
      var data, regCount := value, g.Length();
      var offset: int := g.startAddr;
      var descending := g.startAddr >= g.endAddr;
      rc, done := Ok, 0;
      while regCount != 0
        invariant 0 <= regCount <= g.Length() && rc.Ok? && faults == old(faults)
        invariant done == g.Length() - regCount
        invariant regCount != 0 ==> offset == g.Addr(done)
        invariant data == Shr(value, 8 * done)
        invariant regs[..] == Written(old(regs[..]), g, value, done)
      {
        var buffer;
        rc, buffer := BusReadByte(offset);
        if !rc.Ok? {
          return;
        }
        var merged := MergeRegister(g, value, done, regCount, data, buffer);
        rc := BusWriteByte(offset, Low(merged, 8));
        if !rc.Ok? {
          return;
        }
        ShrShr(value, 8 * done, 8);
        data := Shr(data, 8);
        offset := if descending then offset - 1 else offset + 1;
        regCount := regCount - 1;
        done := done + 1;
      }
    }

    /** sdi_cpld_pin_read_level. */
    method PinReadLevel(pin: Pin) returns (rc: Rc, high: bool)
      requires pin.Valid() && pin.addr < regs.Length
      modifies this`faults
      ensures Reported(rc)
      ensures rc.Ok? ==> high == PinLevel(regs[..], pin)
      ensures rc.Ok? ==> (high <==> Bit(regs[pin.addr], pin.offset) != pin.inverted)
    {
      var buffer;
      rc, buffer := BusReadByte(pin.addr);
      high := if Bit(buffer, pin.offset) then !pin.inverted else pin.inverted;
    }

    /** sdi_cpld_pin_write_level: refused for an input pin; otherwise one read-modify-write. */
    method PinWriteLevel(pin: Pin, high: bool) returns (rc: Rc)
      requires pin.Valid() && pin.addr < regs.Length
      modifies this`faults, regs
      ensures rc.NotSupported? <==> !pin.output
      ensures pin.output ==> Reported(rc)
      ensures !rc.Ok? ==> regs[..] == old(regs[..])
      ensures rc.Ok? ==> forall i :: 0 <= i < 8 ==>
        Bit(regs[pin.addr], i) == if i == pin.offset then high != pin.inverted else Bit(old(regs[pin.addr]), i)
      ensures forall a :: 0 <= a < regs.Length && a != pin.addr ==> regs[a] == old(regs[a])
      ensures rc.Ok? ==> regs[..] == WriteLevel(old(regs[..]), pin.AsGroup(), FromBit(high))
    {
      if !pin.output {
        return NotSupported;
      }
      var buffer: nat;
      rc, buffer := BusReadByte(pin.addr);
      if !rc.Ok? {
        return;
      }
      PinIsGroup(regs[..], pin, high);
      forall i: nat ensures Bit(PinByte(pin, high, buffer), i) <==> if i == pin.offset then high != pin.inverted else Bit(buffer, i) {
        PinByteBit(pin, high, buffer, i);
      }
      if !pin.inverted {
        buffer := if high then SetBit(buffer, pin.offset) else ClearBit(buffer, pin.offset);
      } else {
        buffer := if high then ClearBit(buffer, pin.offset) else SetBit(buffer, pin.offset);
      }
      rc := BusWriteByte(pin.addr, buffer);
    }
  }
}
