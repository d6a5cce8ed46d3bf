/** The driver code of src/drivers/sdi_qsfp_eeprom.c on one module.

    Every bus call may fail: the oracle `answers` says which do, and `calls` counts the calls made.
    `faults` counts those that failed.  Each API call is proved to end with the locks it began with
    whatever fails (except where `MaxPowerGet` leaks them), and, when nothing failed, to have the effect
    and the answer that `QsfpCalls` gives it.  The calls that select a page are also proved to do what
    `QsfpFaults` says under any failures. */
module QsfpDriver {
  import opened Bits
  import opened QsfpMemory
  import opened QsfpCalls
  import opened QsfpFaults
  import opened Wrappers

  const DEVICE_ADDR_AUTO := -1
  const BLANK: Memory := seq(128 + 256 * 128, _ => 0)
  const NO_MAX_POWER := -1
  const LANE_ASSIGNMENT := 89
  const CABLE_LENGTH_REV3 := 202

  class QsfpModule {
    const addr: nat
    const muxSel: Option<nat>  // level that routes the bus here, if there is a mux pin group
    const modSel: Option<nat>  // level that selects the module, if there is a select pin group
    const answers: Bus         // which calls on the bus succeed

    var calls: nat
    var muxHeld: bool
    var modHeld: bool
    var muxLevel: nat
    var modLevel: nat
    var mem: Memory
    var foreign: map<nat, Memory>  // other device addresses that answer on the bus
    var isAdapter: bool
    var doubleDensity: bool
    var eepromVersion: byte
    ghost var faults: nat

    constructor (addr: nat, muxSel: Option<nat>, modSel: Option<nat>, mem: Memory, foreign: map<nat, Memory>, answers: Bus)
      ensures this.addr == addr && this.muxSel == muxSel && this.modSel == modSel
      ensures this.mem == mem && this.foreign == foreign && this.answers == answers
      ensures !muxHeld && !modHeld && !isAdapter && !doubleDensity && faults == 0 && calls == 0
    {
      this.addr, this.muxSel, this.modSel, this.mem, this.foreign := addr, muxSel, modSel, mem, foreign;
      this.answers, calls := answers, 0;
      muxHeld, modHeld, muxLevel, modLevel := false, false, 0, 0;
      isAdapter, doubleDensity, eepromVersion, faults := false, false, 0, 0;
    }

    // ----- Calls into the bus framework

    method Succeeds() returns (ok: bool)
      modifies this`faults, this`calls
      ensures faults == old(faults) + if ok then 0 else 1
      ensures ok == answers(old(calls)) && calls == old(calls) + 1
    {
      ok := answers(calls);
      calls := calls + 1;
      if !ok { faults := faults + 1; }
    }

    method ReadByte(offset: byte) returns (rc: Rc, data: byte)
      modifies this`faults, this`calls
      ensures rc == (if faults == old(faults) then Ok else BusFault) && faults >= old(faults)
      ensures (rc.Ok? <==> answers(old(calls))) && calls == old(calls) + 1
      ensures rc.Ok? ==> data == Read(mem, offset)
    {
      var ok := Succeeds();
      rc, data := if ok then Ok else BusFault, if ok then Read(mem, offset) else 0;
    }

    method WriteByte(offset: byte, data: byte) returns (rc: Rc)
      modifies this`faults, this`calls, this`mem
      ensures rc == (if faults == old(faults) then Ok else BusFault) && faults >= old(faults)
      ensures (rc.Ok? <==> answers(old(calls))) && calls == old(calls) + 1
      ensures mem == if rc.Ok? then Write(old(mem), offset, data) else old(mem)
    {
      var ok := Succeeds();
      rc := if ok then Ok else BusFault;
      if ok { mem := Write(mem, offset, data); }
    }

    method ReadWord(offset: byte) returns (rc: Rc, data: seq<byte>)
      modifies this`faults, this`calls
      ensures rc == (if faults == old(faults) then Ok else BusFault) && faults >= old(faults)
      ensures (rc.Ok? <==> answers(old(calls))) && calls == old(calls) + 1
      ensures |data| == 2 && (rc.Ok? ==> data == ReadMulti(mem, offset, 2))
    {
      var ok := Succeeds();
      rc, data := if ok then Ok else BusFault, if ok then ReadMulti(mem, offset, 2) else [0, 0];
    }

    /** Any device address on the bus; one that does not answer is a failing call. */
    function Chip(device: nat): Memory
      reads this`mem, this`foreign
    {
      if device == addr then mem else Other(device)
    }

    /** Another device on the bus. */
    function Other(device: nat): Memory
      reads this`foreign
    {
      if device in foreign then foreign[device] else BLANK
    }

    /** Another device that was written to holds these bytes now, and no other device is different. */
    twostate predicate Forwarded(device: nat, offset: nat, written: seq<byte>)
      reads this`foreign
    {
      && (device != addr ==> Other(device) == WriteMulti(old(Other(device)), offset, written))
      && (forall d: nat :: d != device ==> Other(d) == old(Other(d)))
    }

    /** sdi_smbus_read_multi_byte: byte by byte, stopping at the first failure. */
    method ReadMultiByte(device: nat, offset: nat, len: nat) returns (rc: Rc, data: seq<byte>)
      modifies this`faults, this`calls
      ensures rc == (if faults == old(faults) then Ok else BusFault) && faults >= old(faults)
      ensures |data| == Moved(answers, old(calls), len) && (rc.Ok? <==> |data| == len)
      ensures calls == old(calls) + TransferCalls(answers, old(calls), len)
      ensures data == ReadMulti(Chip(device), offset, |data|)
    {
      data, rc := [], Ok;
      for count := 0 to len
        invariant |data| == count && faults == old(faults) && rc.Ok? && calls == old(calls) + count
        invariant forall i :: old(calls) <= i < calls ==> answers(i)
        invariant data == ReadMulti(Chip(device), offset, count)
      {
        var ok := Succeeds();
        if !ok {
          MovedIs(answers, old(calls), len, count);
          return BusFault, data;
        }
        data := data + [Read(Chip(device), (offset + count) % 256)];
      }
      MovedIs(answers, old(calls), len, len);
    }

    /** sdi_smbus_write_multi_byte: byte by byte, stopping at the first failure. */
    method WriteMultiByte(device: nat, offset: nat, data: seq<byte>) returns (rc: Rc, ghost moved: nat)
      modifies this`faults, this`calls, this`mem, this`foreign
      ensures rc == (if faults == old(faults) then Ok else BusFault) && faults >= old(faults)
      ensures moved == Moved(answers, old(calls), |data|) && (rc.Ok? <==> moved == |data|)
      ensures mem == if device == addr then WriteMulti(old(mem), offset, data[..moved]) else old(mem)
      ensures Forwarded(device, offset, data[..moved])
      ensures calls == old(calls) + TransferCalls(answers, old(calls), |data|)
    {
      rc, moved := Ok, 0;
      assert data[..0] == [];
      for count := 0 to |data|
        invariant faults == old(faults) && rc.Ok? && calls == old(calls) + count && moved == count
        invariant forall i :: old(calls) <= i < calls ==> answers(i)
        invariant mem == if device == addr then WriteMulti(old(mem), offset, data[..count]) else old(mem)
        invariant Forwarded(device, offset, data[..count])
      {
        var ok := Succeeds();
        if !ok {
          MovedIs(answers, old(calls), |data|, count);
          rc := BusFault;
          return;
        }
        WriteNext(device, offset, data, count, old(mem), old(Other(device)));
        moved := moved + 1;
      }
      MovedIs(answers, old(calls), |data|, |data|);
    }

    /** One more byte of a transfer to a device that held `mine` or `others` before it. */
    method WriteNext(device: nat, offset: nat, data: seq<byte>, count: nat, ghost mine: Memory, ghost others: Memory)
      requires count < |data|
      requires mem == if device == addr then WriteMulti(mine, offset, data[..count]) else mine
      requires device != addr ==> Other(device) == WriteMulti(others, offset, data[..count])
      modifies this`mem, this`foreign
      ensures mem == if device == addr then WriteMulti(mine, offset, data[..count + 1]) else mine
      ensures device != addr ==> Other(device) == WriteMulti(others, offset, data[..count + 1])
      ensures forall d: nat :: d != device ==> Other(d) == old(Other(d))
    {
      WriteMultiStep(if device == addr then mine else others, offset, data, count);
      WriteTo(device, (offset + count) % 256, data[count]);
    }

    method WriteTo(device: nat, offset: byte, value: byte)
      modifies this`mem, this`foreign
      ensures mem == if device == addr then Write(old(mem), offset, value) else old(mem)
      ensures device != addr ==> Other(device) == Write(old(Other(device)), offset, value)
      ensures forall d: nat :: d != device ==> Other(d) == old(Other(d))
    {
      if device == addr {
        mem := Write(mem, offset, value);
      } else {
        foreign := foreign[device := Write(Chip(device), offset, value)];
      }
    }

    /** Taking each mutex and writing its level goes through, beginning at call `n`. */
    predicate BusCanSelect(n: nat) {
      && (muxSel.Some? ==> answers(n) && answers(n + 1))
      && (modSel.Some? ==> var next := n + if muxSel.Some? then 2 else 0; answers(next) && answers(next + 1))
    }

    /** So selecting the module succeeds if it is not selected: the mutexes are not recursive. */
    predicate CanSelect(n: nat)
      reads this`muxHeld, this`modHeld
    {
      (muxSel.Some? ==> !muxHeld) && (modSel.Some? ==> !modHeld) && BusCanSelect(n)
    }

    function ModuleSelectCalls(): nat { (if muxSel.Some? then 2 else 0) + if modSel.Some? then 2 else 0 }

    /** sdi_qsfp_module_select: all or nothing.  On success every configured pin group is held and
        shows the level that selects this module; on failure the locks are as before the call. */
    method ModuleSelect() returns (rc: Rc)
      modifies this`faults, this`calls, this`muxHeld, this`modHeld, this`muxLevel, this`modLevel
      ensures rc == (if faults == old(faults) then Ok else BusFault) && faults >= old(faults)
      ensures rc.Ok? ==>
        && (muxSel.Some? ==> !old(muxHeld) && muxHeld && muxLevel == muxSel.value)
        && (modSel.Some? ==> !old(modHeld) && modHeld && modLevel == modSel.value)
        && (muxSel.None? ==> muxHeld == old(muxHeld)) && (modSel.None? ==> modHeld == old(modHeld))
      ensures !rc.Ok? ==> muxHeld == old(muxHeld) && modHeld == old(modHeld)
      ensures rc.Ok? <==> old(CanSelect(calls))
      ensures rc.Ok? ==> calls == old(calls) + ModuleSelectCalls()
    {
      if muxSel.Some? {
        var ok := Succeeds();
        if !ok || muxHeld {
          if ok { faults := faults + 1; }  // the mutex is not recursive
          return BusFault;
        }
        muxHeld := true;
        ok := Succeeds();
        if !ok {
          muxHeld, muxLevel := false, *;
          return BusFault;
        }
        muxLevel := muxSel.value;
      }
      if modSel.Some? {
        var ok := Succeeds();
        if !ok || modHeld {
          if ok { faults := faults + 1; }
          if muxSel.Some? { muxHeld := false; }
          return BusFault;
        }
        modHeld := true;
        ok := Succeeds();
        if !ok {
          modLevel := *;
          if muxSel.Some? { muxHeld := false; }
          modHeld := false;
          return BusFault;
        }
        modLevel := modSel.value;
      }
      rc := Ok;
    }

    method ModuleDeselect()
      modifies this`muxHeld, this`modHeld
      ensures muxHeld == (old(muxHeld) && muxSel.None?) && modHeld == (old(modHeld) && modSel.None?)
    {
      if muxSel.Some? { muxHeld := false; }
      if modSel.Some? { modHeld := false; }
    }

    /** sdi_qsfp_page_select. */
    method PageSelect(page: nat) returns (rc: Rc)
      modifies this`faults, this`calls, this`mem
      ensures faults == old(faults) ==> rc == if Flat(old(mem)) then NotSupported else Ok
      ensures faults != old(faults) ==> rc == BusFault && faults > old(faults)
      ensures mem == if rc.Ok? then old(mem)[127 := page % 256] else old(mem)
      ensures rc.Ok? ==> !Bit(old(mem)[2], 2) && mem == SelectPage(old(mem), page)
      ensures rc.NotSupported? ==> Bit(old(mem)[2], 2)
      ensures rc == SelectRc(answers, old(calls), Flat(old(mem)))
      ensures calls == old(calls) + SelectCalls(answers, old(calls), Flat(old(mem)))
    {
      var buf;
      rc, buf := ReadByte(STATUS_INDICATOR);
      if !rc.Ok? {
        return;
      }
      if Bit(buf, FLAT_MEM_BIT) {
        return NotSupported;
      }
      rc := WriteByte(PAGE_SELECT, page % 256);
    }

    // ----- API calls

    predicate Own(deviceAddr: int) { deviceAddr == DEVICE_ADDR_AUTO || deviceAddr == addr }

    /** Nothing but the page-select byte may differ. */
    twostate predicate OnlySelectChanged()
      reads this`mem
    {
      forall c :: 0 <= c < |mem| && c != PAGE_SELECT ==> mem[c] == old(mem)[c]
    }

    /** The checks that sdi_qsfp_read_generic and sdi_qsfp_write_generic begin with. */
    method CheckAddress(deviceAddr: int, page: int, probe: Option<byte>) returns (valid: bool, device: nat, paging: bool)
      ensures valid <==> deviceAddr >= DEVICE_ADDR_AUTO && page >= -1
      ensures valid ==> (device == addr <==> Own(deviceAddr)) && (deviceAddr >= 0 ==> device == deviceAddr)
      ensures valid ==> (paging <==> page >= 0 && probe.Some? && !Bit(probe.value, 2))
    {
      valid, device, paging := true, addr, false;
      if deviceAddr == DEVICE_ADDR_AUTO {
        device := addr;
      } else if deviceAddr < DEVICE_ADDR_AUTO {
        valid := false;
      } else {
        device := deviceAddr;
      }
      if page < -1 {
        valid := false;
      } else if page != -1 {
        paging := probe.Some? && !Bit(probe.value, FLAT_MEM_BIT);
      }
    }

    /** The part of sdi_qsfp_read_generic between select and deselect. */
    method ReadSelected(paging: bool, device: nat, page: nat, offset: nat, len: nat) returns (rc: Rc, data: seq<byte>)
      modifies this`faults, this`calls, this`mem
      ensures OnlySelectChanged() && faults >= old(faults)
      ensures paging ==>
        var o := Paged(answers, old(calls), old(mem), page, Transfer(offset, len, None));
        rc == o.rc && mem == o.mem && |data| == o.moved
      ensures paging && |data| > 0 && device == addr ==> data == ReadMulti(SelectPage(old(mem), page), offset, |data|)
      ensures paging && faults == old(faults) ==>
        if Flat(old(mem)) then rc == NotSupported && mem == old(mem) && data == []
        else rc == Ok && |data| == len && mem == SelectPage(SelectPage(old(mem), page), PAGE_DEFAULT)
      ensures !paging ==> mem == old(mem) && (rc.Ok? <==> |data| == len) && (faults == old(faults) ==> rc.Ok?)
      ensures !paging && device == addr ==> data == ReadMulti(mem, offset, |data|)
      ensures device != addr ==> data == ReadMulti(Other(device), offset, |data|)
    {
      rc, data := Ok, [];
      var restore := paging;
      if paging {
        rc := PageSelect(page);
      }
      if rc.NotSupported? {
        restore := false;
      } else if rc.Ok? {
        rc, data := ReadMultiByte(device, offset, len);
      }
      if restore {
        rc := PageSelect(PAGE_DEFAULT);  // replaces the code of the read
      }
    }

    /** sdi_qsfp_read_generic. */
    method ReadGeneric(deviceAddr: int, page: int, offset: nat, len: nat, probe: Option<byte>)
      returns (rc: Rc, data: seq<byte>)
      requires len > 0
      modifies this`faults, this`calls, this`mem, this`muxHeld, this`modHeld, this`muxLevel, this`modLevel
      ensures muxHeld == old(muxHeld) && modHeld == old(modHeld)
      ensures OnlySelectChanged()
      ensures isAdapter || deviceAddr < DEVICE_ADDR_AUTO || page < -1 ==>
        mem == old(mem) && rc == if isAdapter then ToSfp else Invalid
      ensures !isAdapter && deviceAddr >= DEVICE_ADDR_AUTO && page >= -1 && faults == old(faults) ==>
        var c := Call.ReadGeneric(Own(deviceAddr), page, offset, len, probe);
        mem == Effect(old(mem), c) && (Own(deviceAddr) ==> (rc, data) == Reply(old(mem), c))
      ensures !isAdapter && deviceAddr >= DEVICE_ADDR_AUTO && Paging(page, probe) && old(CanSelect(calls)) ==>
        var o := Paged(answers, old(calls) + ModuleSelectCalls(), old(mem), page, Transfer(offset, len, None));
        rc == o.rc && mem == o.mem && |data| == o.moved
      ensures Paging(page, probe) && |data| > 0 && Own(deviceAddr) ==>
        data == ReadMulti(SelectPage(old(mem), page), offset, |data|)
      ensures Own(deviceAddr) && !Paging(page, probe) ==> data == ReadMulti(mem, offset, |data|)
      ensures deviceAddr >= 0 && deviceAddr != addr ==> data == ReadMulti(Other(deviceAddr), offset, |data|)
      ensures rc.Ok? && !Paging(page, probe) ==> |data| == len
      ensures faults == old(faults) ==> |data| == if rc.Ok? then len else 0
    {
      data := [];
      if isAdapter {
        return ToSfp, data;
      }
      var valid, device, paging := CheckAddress(deviceAddr, page, probe);
      if !valid {
        return Invalid, data;
      }
      rc := ModuleSelect();
      if !rc.Ok? {
        return;
      }
      rc, data := ReadSelected(paging, device, if paging then page else 0, offset, len);
      ModuleDeselect();
    }

    /** How many bytes a write moves, from call `n` on: none if its page cannot be selected. */
    function WriteMoves(paging: bool, n: nat, len: nat, m: Memory): (k: nat)
      ensures k <= len
    {
      if paging then PagedMoved(answers, n, m, len) else Moved(answers, n, len)
    }

    /** The part of sdi_qsfp_write_generic between select and deselect. */
    method WriteSelected(paging: bool, device: nat, page: nat, offset: nat, data: seq<byte>)
      returns (rc: Rc, ghost moved: nat)
      modifies this`faults, this`calls, this`mem, this`foreign
      ensures faults >= old(faults) && moved == WriteMoves(paging, old(calls), |data|, old(mem))
      ensures paging ==>
        var t := Transfer(offset, |data|, if device == addr then Some(data) else None);
        var o := Paged(answers, old(calls), old(mem), page, t);
        rc == o.rc && mem == o.mem
      ensures paging && faults == old(faults) ==>
        var selected := SelectPage(old(mem), page);
        var written := if device == addr then WriteMulti(selected, offset, data) else selected;
        if Flat(old(mem)) then rc == NotSupported && mem == old(mem)
        else mem == SelectPage(written, PAGE_DEFAULT) && rc == if Flat(written) then NotSupported else Ok
      ensures !paging ==>
        && (rc.Ok? <==> moved == |data|) && (faults == old(faults) ==> rc.Ok?)
        && mem == if device == addr then WriteMulti(old(mem), offset, data[..moved]) else old(mem)
      ensures Forwarded(device, offset, data[..moved])
    {
      assert data[..|data|] == data;
      rc, moved := SelectAndWrite(paging, device, page, offset, data);
      if paging && !rc.NotSupported? {
        rc := PageSelect(PAGE_DEFAULT);  // replaces the code of the write
      }
    }

    /** Its first half: the page is selected, if one is asked for, and the bytes are written to it. */
    method SelectAndWrite(paging: bool, device: nat, page: nat, offset: nat, data: seq<byte>)
      returns (rc: Rc, ghost moved: nat)
      modifies this`faults, this`calls, this`mem, this`foreign
      ensures faults >= old(faults) && moved == WriteMoves(paging, old(calls), |data|, old(mem))
      ensures paging ==>
        var t := Transfer(offset, |data|, if device == addr then Some(data) else None);
        && mem == Before(answers, old(calls), old(mem), page, t) && calls == RestoreAt(answers, old(calls), old(mem), |data|)
        && (rc.NotSupported? <==> SelectRc(answers, old(calls), Flat(old(mem))).NotSupported?)
      ensures paging && faults == old(faults) && !Flat(old(mem)) ==> rc.Ok? && moved == |data|
      ensures !paging ==>
        && (rc.Ok? <==> moved == |data|) && (faults == old(faults) ==> rc.Ok?)
        && mem == if device == addr then WriteMulti(old(mem), offset, data[..moved]) else old(mem)
      ensures Forwarded(device, offset, data[..moved])
    {
      rc, moved := Ok, 0;
      assert data[..0] == [];
      if paging {
        rc := PageSelect(page);
      }
      if rc.Ok? {
        rc, moved := WriteMultiByte(device, offset, data);
      }
    }

    /** sdi_qsfp_write_generic. */
    method WriteGeneric(deviceAddr: int, page: int, offset: nat, data: seq<byte>, probe: Option<byte>)
      returns (rc: Rc, ghost moved: nat)
      requires |data| > 0
      modifies this`faults, this`calls, this`mem, this`foreign, this`muxHeld, this`modHeld, this`muxLevel, this`modLevel
      ensures muxHeld == old(muxHeld) && modHeld == old(modHeld)
      ensures moved ==
        if !isAdapter && deviceAddr >= DEVICE_ADDR_AUTO && page >= -1 && old(CanSelect(calls))
        then WriteMoves(Paging(page, probe), old(calls) + ModuleSelectCalls(), |data|, old(mem)) else 0
      ensures isAdapter || deviceAddr < DEVICE_ADDR_AUTO || page < -1 ==>
        mem == old(mem) && rc == if isAdapter then ToSfp else Invalid
      ensures !isAdapter && deviceAddr >= DEVICE_ADDR_AUTO && page >= -1 && faults == old(faults) ==>
        var c := Call.WriteGeneric(Own(deviceAddr), page, offset, data, probe);
        mem == Effect(old(mem), c) && rc == WriteGenericRc(old(mem), c)
      ensures !isAdapter && deviceAddr >= DEVICE_ADDR_AUTO && Paging(page, probe) && old(CanSelect(calls)) ==>
        var t := WriteOf(Call.WriteGeneric(Own(deviceAddr), page, offset, data, probe));
        var o := Paged(answers, old(calls) + ModuleSelectCalls(), old(mem), page, t);
        rc == o.rc && mem == o.mem
      ensures !isAdapter && Own(deviceAddr) && page >= -1 && !Paging(page, probe) && old(CanSelect(calls)) ==>
        (rc.Ok? <==> moved == |data|) && mem == WriteMulti(old(mem), offset, data[..moved])
      ensures Forwarded(if deviceAddr >= 0 then deviceAddr else addr, offset, data[..moved])
    {
      moved := 0;
      assert data[..0] == [] && data[..|data|] == data;
      if isAdapter {
        return ToSfp, moved;
      }
      var valid, device, paging := CheckAddress(deviceAddr, page, probe);
      if !valid {
        return Invalid, moved;
      }
      rc, moved := WriteChecked(paging, device, if paging then page else 0, offset, data);
    }

    /** The part after the checks. */
    method WriteChecked(paging: bool, device: nat, page: nat, offset: nat, data: seq<byte>)
      returns (rc: Rc, ghost moved: nat)
      modifies this`faults, this`calls, this`mem, this`foreign, this`muxHeld, this`modHeld, this`muxLevel, this`modLevel
      ensures muxHeld == old(muxHeld) && modHeld == old(modHeld)
      ensures faults >= old(faults)
      ensures moved == if old(CanSelect(calls)) then WriteMoves(paging, old(calls) + ModuleSelectCalls(), |data|, old(mem)) else 0
      ensures paging && old(CanSelect(calls)) ==>
        var t := Transfer(offset, |data|, if device == addr then Some(data) else None);
        var o := Paged(answers, old(calls) + ModuleSelectCalls(), old(mem), page, t);
        rc == o.rc && mem == o.mem
      ensures paging && faults == old(faults) ==>
        var selected := SelectPage(old(mem), page);
        var written := if device == addr then WriteMulti(selected, offset, data) else selected;
        if Flat(old(mem)) then rc == NotSupported && mem == old(mem)
        else mem == SelectPage(written, PAGE_DEFAULT) && rc == if Flat(written) then NotSupported else Ok
      ensures !paging ==>
        && (faults == old(faults) ==> moved == |data|) && (moved == |data| && moved > 0 ==> rc.Ok?)
        && (rc.Ok? ==> moved == |data|)
        && mem == if device == addr then WriteMulti(old(mem), offset, data[..moved]) else old(mem)
      ensures Forwarded(device, offset, data[..moved])
    {
      moved := 0;
      assert data[..0] == [];
      rc := ModuleSelect();
      if !rc.Ok? {
        return;
      }
      rc, moved := WriteSelected(paging, device, page, offset, data);
      ModuleDeselect();
    }

    /** The part of sdi_qsfp_threshold_get between select and deselect. */
    method ReadThreshold(page: nat, register: byte) returns (rc: Rc, data: seq<byte>)
      modifies this`faults, this`calls, this`mem
      ensures OnlySelectChanged() && faults >= old(faults)
      ensures var o := Paged(answers, old(calls), old(mem), page, Transfer(register, 1, None)); rc == o.rc && mem == o.mem
      ensures faults == old(faults) ==>
        if Flat(old(mem)) then rc == NotSupported && mem == old(mem) && data == []
        else rc == Ok && data == ReadMulti(SelectPage(old(mem), page), register, 2)
             && mem == SelectPage(SelectPage(old(mem), page), PAGE_DEFAULT)
    {
      data := [];
      var restore := true;
      rc := PageSelect(page);
      if rc.NotSupported? {
        restore := false;
      } else if rc.Ok? {
        rc, data := ReadWord(register);
        assert Moved(answers, calls, 0) == 0;
      }
      if restore {
        rc := PageSelect(PAGE_DEFAULT);  // replaces the code of the read
      }
    }

    /** sdi_qsfp_threshold_get, up to the conversion of the two bytes; `register` is the table entry. */
    method ThresholdGet(register: byte) returns (rc: Rc, data: seq<byte>)
      modifies this`faults, this`calls, this`mem, this`muxHeld, this`modHeld, this`muxLevel, this`modLevel
      ensures muxHeld == old(muxHeld) && modHeld == old(modHeld)
      ensures OnlySelectChanged()
      ensures isAdapter ==> rc == ToSfp && mem == old(mem)
      ensures !isAdapter && faults == old(faults) ==>
        var c := Call.ThresholdGet(if eepromVersion >= 0x30 then 2 else 3, register);
        mem == Effect(old(mem), c) && (rc, data) == Reply(old(mem), c)
      ensures !isAdapter && register != 0 && old(CanSelect(calls)) ==>
        var o := Paged(answers, old(calls) + ModuleSelectCalls(), old(mem), if eepromVersion >= 0x30 then 2 else 3,
                       Transfer(register, 1, None));
        rc == o.rc && mem == o.mem
    {
      data := [];
      if isAdapter {
        return ToSfp, data;
      }
      var page := if eepromVersion >= 0x30 then 2 else 3;
      if register == 0 {
        return OpNotSupported, data;
      }
      rc := ModuleSelect();
      if !rc.Ok? {
        return;
      }
      rc, data := ReadThreshold(page, register);
      ModuleDeselect();
    }

    /** sdi_qsfp_parameter_get, up to the conversion of the bytes; register and size come from the table.
        For the cable length of a revision-3 module the lane assignment is read first, and `lengthCode`
        says whether the byte is a length code. */
    method ParameterGet(register: byte, size: nat) returns (rc: Rc, data: seq<byte>, lengthCode: bool)
      modifies this`faults, this`calls, this`muxHeld, this`modHeld, this`muxLevel, this`modLevel
      ensures muxHeld == old(muxHeld) && modHeld == old(modHeld)
      ensures isAdapter ==> rc == ToSfp
      ensures !isAdapter && faults == old(faults) ==> (rc, data) == Reply(mem, Call.ParameterGet(register, size))
      ensures rc.Ok? ==> (lengthCode <==> eepromVersion >= 0x30 && register == 202 && mem[89] > 0)
    {
      data, lengthCode := [], false;
      if isAdapter {
        return ToSfp, data, lengthCode;
      }
      if register == 0 && size == 0 {
        return OpNotSupported, data, lengthCode;
      }
      rc := ModuleSelect();
      if !rc.Ok? {
        return;
      }
      if eepromVersion >= 0x30 && register == CABLE_LENGTH_REV3 {
        var lanes;
        rc, lanes := ReadByte(LANE_ASSIGNMENT);
        lengthCode := rc.Ok? && lanes > 0;
      }
      if rc.Ok? {
        rc, data := ReadParameter(register, size);
      }
      ModuleDeselect();
    }

    method ReadParameter(register: byte, size: nat) returns (rc: Rc, data: seq<byte>)
      modifies this`faults, this`calls
      ensures faults >= old(faults)
      ensures (register != 0 || size != 0) && faults == old(faults) ==> (rc, data) == Reply(mem, Call.ParameterGet(register, size))
    {
      data := [];
      if size == 1 {
        var b;
        rc, b := ReadByte(register);
        data := [b];
        assert rc.Ok? ==> data == ReadMulti(mem, register, 1);
      } else if size == 2 {
        rc, data := ReadWord(register);
      } else if size == 4 {
        rc, data := ReadMultiByte(addr, register, 4);
      } else {
        rc := Invalid;
      }
    }

    /** One bit of one register has the value, and nothing else is different. */
    twostate predicate OnlyBitSet(register: byte, bit: nat, value: bool)
      reads this`mem
    {
      && (forall i: nat :: Bit(mem[register], i) <==> if i == bit then value else Bit(old(mem)[register], i))
      && (forall c :: 0 <= c < |mem| && c != register as nat ==> mem[c] == old(mem)[c])
    }

    /** sdi_qsfp_tx_control: the bit of a channel is set to disable it.  Channels are 0-3, or 0-7 on a
        double-density module. */
    method TxControl(channel: nat, enable: bool) returns (rc: Rc)
      modifies this`faults, this`calls, this`mem, this`muxHeld, this`modHeld, this`muxLevel, this`modLevel
      ensures muxHeld == old(muxHeld) && modHeld == old(modHeld)
      ensures isAdapter ==> rc == ToSfp && mem == old(mem)
      ensures !isAdapter ==> (rc == Param <==> channel > if doubleDensity then 7 else 3)
      ensures !rc.Ok? ==> mem == old(mem)
      ensures rc == Ok ==> OnlyBitSet(if doubleDensity then 84 else 86, channel, !enable)
      ensures rc == Ok || rc == OpNotSupported ==> (rc == Ok <==> Bit(Read(old(mem), 195), 4))
      ensures rc == BusFault <==> faults != old(faults)
      ensures !isAdapter && faults == old(faults) ==> mem == Effect(old(mem), Call.TxControl(doubleDensity, channel, enable))
    {
      if isAdapter {
        return ToSfp;
      }
      if !ValidChannel(doubleDensity, channel) {
        return Param;
      }
      rc := ModuleSelect();
      if !rc.Ok? {
        return;
      }
      var options;
      rc, options := ReadByte(OPTIONS4);
      if rc.Ok? {
        if !Bit(options, TX_DISABLE_BIT) {
          rc := OpNotSupported;
        } else {
          var buf;
          rc, buf := ReadByte(TxOffset(doubleDensity));
          if rc.Ok? {
            TxByteIsByte(buf, channel, enable);
            buf := TxByte(buf, channel, enable);
            rc := WriteByte(TxOffset(doubleDensity), buf);
            TxControlSetsOneChannel(old(mem), doubleDensity, channel, enable);
          }
        }
      }
      ModuleDeselect();
    }

    /** sdi_qsfp_tx_control_status_get. */
    method TxControlStatusGet(channel: nat) returns (rc: Rc, enabled: bool)
      modifies this`faults, this`calls, this`muxHeld, this`modHeld, this`muxLevel, this`modLevel
      ensures muxHeld == old(muxHeld) && modHeld == old(modHeld)
      ensures !isAdapter ==> (rc == Param <==> channel > if doubleDensity then 7 else 3)
      ensures rc.Ok? ==> (enabled <==> !Bit(mem[if doubleDensity then 84 else 86], channel))
      ensures rc == (if isAdapter then ToSfp else if faults != old(faults) then BusFault else if rc == Param then Param else Ok)
    {
      enabled := false;
      if isAdapter {
        return ToSfp, enabled;
      }
      if !ValidChannel(doubleDensity, channel) {
        return Param, enabled;
      }
      rc := ModuleSelect();
      if !rc.Ok? {
        return;
      }
      var buf;
      rc, buf := ReadByte(TxOffset(doubleDensity));
      ModuleDeselect();
      if rc.Ok? {
        enabled := !Bit(buf, channel);
      }
    }

    /** Beginning at call `n`, the select would succeed and the one read after it fail. */
    predicate PowerReadFails(n: nat)
      reads this`muxHeld, this`modHeld
    {
      CanSelect(n) && !answers(n + ModuleSelectCalls())
    }

    /** The locks are those of before, or taken and kept if `leak`. */
    twostate predicate LocksKept(leak: bool)
      reads this`muxHeld, this`modHeld
    {
      muxHeld == (old(muxHeld) || (leak && muxSel.Some?)) && modHeld == (old(modHeld) || (leak && modSel.Some?))
    }

    /** sdi_qsfp_media_max_power_get.  It keeps the locks exactly when the select succeeds and its read
        fails: it then returns without deselecting. */
    method MaxPowerGet() returns (rc: Rc, milliwatts: int, soft: bool)
      modifies this`faults, this`calls, this`muxHeld, this`modHeld, this`muxLevel, this`modLevel
      ensures faults >= old(faults)
      ensures LocksKept(!isAdapter && old(PowerReadFails(calls)))
      ensures isAdapter ==> rc == NotSupported
      ensures !isAdapter && !rc.Ok? ==> rc == BusFault
      ensures !isAdapter ==> (rc.Ok? <==> old(CanSelect(calls)) && !old(PowerReadFails(calls)))
      ensures faults == old(faults) ==> isAdapter || !old(PowerReadFails(calls))
      ensures rc.Ok? ==>
        var id := Read(mem, 129);
        && (soft <==> Bit(id, 0) || Bit(id, 1))
        && milliwatts == if Bit(id, 1) then (if Bit(id, 0) then 5000 else 4500)
                         else if Bit(id, 0) then 4000
                         else if Bit(id, 7) then (if Bit(id, 6) then 3500 else 2500)
                         else if Bit(id, 6) then 2000 else 1500
      ensures !rc.Ok? ==> milliwatts == -1 && !soft
      ensures !isAdapter && faults == old(faults) ==> rc.Ok?
    {
      milliwatts, soft := NO_MAX_POWER, false;
      if isAdapter {
        rc := NotSupported;
        return;
      }
      rc := ModuleSelect();
      if !rc.Ok? {
        return;
      }
      var buf;
      rc, buf := ReadByte(EXT_IDENTIFIER);
      if !rc.Ok? {
        return;
      }
      milliwatts := [1500, 2000, 2500, 3500][buf / 64];
      TopTwo(buf);
      LowTwo(buf);
      if Low(buf, 2) != 0 {
        soft := true;
        milliwatts := [0, 4000, 4500, 5000][Low(buf, 2)];
      }
      ModuleDeselect();
    }

    /** sdi_is_software_controlled_power_mode_supported. */
    method SoftPowerSupported() returns (rc: Rc, supported: bool)
      modifies this`faults, this`calls, this`mem
      ensures faults >= old(faults) && OnlySelectChanged()
      ensures faults == old(faults) ==>
        mem == SelectPage(old(mem), PAGE_DEFAULT) && rc.Ok? &&
        (supported <==> Low(Read(mem, EXT_IDENTIFIER), 2) != 0)
    {
      supported := false;
      var status, buf;
      rc, status := ReadByte(STATUS_INDICATOR);
      if rc.Ok? && !Bit(status, FLAT_MEM_BIT) {
        rc := PageSelect(PAGE_DEFAULT);
      }
      rc, buf := ReadByte(EXT_IDENTIFIER);
      if !rc.Ok? {
        return;
      }
      supported := Low(buf, 2) != 0;
    }

    /** sdi_qsfp_media_force_power_mode_set. */
    method ForcePowerMode(high: bool) returns (rc: Rc)
      modifies this`faults, this`calls, this`mem, this`muxHeld, this`modHeld, this`muxLevel, this`modLevel
      ensures muxHeld == old(muxHeld) && modHeld == old(modHeld)
      ensures isAdapter ==> rc == NotSupported && mem == old(mem)
      ensures !isAdapter && faults == old(faults) ==> mem == Effect(old(mem), Call.ForcePowerMode(high))
      ensures !isAdapter && faults == old(faults) ==> rc == if SoftPower(old(mem)) then Ok else NotSupported
      ensures faults >= old(faults)
    {
      if isAdapter {
        return NotSupported;
      }
      rc := ModuleSelect();
      if !rc.Ok? {
        return;
      }
      var supported;
      SoftPowerIs(mem);
      rc, supported := SoftPowerSupported();
      if rc.Ok? {
        if !supported {
          rc := NotSupported;
        } else {
          var buf;
          rc, buf := ReadByte(POWER_CLASS_CONTROL);
          if rc.Ok? {
            PowerByteIsByte(buf, high);
            buf := PowerByte(buf, high);
            rc := WriteByte(POWER_CLASS_CONTROL, buf);
          }
        }
      }
      ModuleDeselect();
    }

    /** The double-density part of sdi_qsfp_module_init; its errors are only logged or overwritten. */
    method PowerUpDatapath() returns (rc: Rc)
      modifies this`faults, this`calls, this`mem, this`eepromVersion
      ensures faults >= old(faults)
      ensures faults == old(faults) ==> rc.Ok? && mem == DatapathEffect(old(mem)) && eepromVersion == old(mem)[1]
    {
      var version, state;
      var offset: byte, page := DD_DATAPATH_POWERUP, PAGE_DEFAULT;
      rc, version := ReadByte(EEPROM_VERSION);
      eepromVersion := version;
      if version == 0x30 {
        offset, page := DD_DATAPATH_POWERUP_REV3, 16;
      }
      rc, version := ReadByte(EEPROM_VERSION);
      if version >= 0x20 {
        var ignored := PageSelect(page);
        rc := WriteByte(offset, 0xFF);
        rc, state := ReadByte(offset);
        ignored := PageSelect(PAGE_DEFAULT);
      }
    }

    /** The last part of sdi_qsfp_module_init for other modules. */
    method StartInLowPower()
      modifies this`faults, this`calls, this`mem, this`muxHeld, this`modHeld, this`muxLevel, this`modLevel
      ensures faults >= old(faults)
      ensures LocksKept(!isAdapter && old(PowerReadFails(calls)))
      ensures !isAdapter && faults == old(faults) ==> mem == LowPowerEffect(old(mem)) && !old(PowerReadFails(calls))
    {
      LowTwo(Read(mem, EXT_IDENTIFIER));
      var power, mw, soft := MaxPowerGet();
      if power.Ok? && soft {
        var ignored := ForcePowerMode(false);
      }
    }

    /** Where sdi_qsfp_module_init reads the maximal power, if it probes the status byte at `n`. */
    function PowerReadAt(n: nat): nat
      reads this`mem
    {
      n + 1 + if answers(n) && !Flat(mem) then SelectCalls(answers, n + 1, false) else 0
    }

    /** sdi_qsfp_module_init keeps the locks exactly when it gets to the power of a plain module and that
        read leaks. */
    predicate InitLeaks()
      reads this`calls, this`mem, this`isAdapter, this`muxHeld, this`modHeld
    {
      var n := calls + ModuleSelectCalls();
      && !isAdapter && !IsAdapter(mem[IDENTIFIER]) && mem[IDENTIFIER] != DD_IDENTIFIER
      && CanSelect(calls) && answers(n) && PowerReadFails(PowerReadAt(n + 1))
    }

    /** The part of sdi_qsfp_module_init that selects page 0 where the status byte allows it. */
    method SelectDefaultPage() returns (rc: Rc)
      modifies this`faults, this`calls, this`mem
      ensures faults >= old(faults) && (faults == old(faults) ==> mem == SelectPage(old(mem), PAGE_DEFAULT) && rc.Ok?)
      ensures calls == old(calls) + 1 +
        if answers(old(calls)) && !Flat(old(mem)) then SelectCalls(answers, old(calls) + 1, false) else 0
      ensures OnlySelectChanged()
    {
      rc := Ok;
      var probe, status := ReadByte(STATUS_INDICATOR);
      if probe.Ok? && !Bit(status, FLAT_MEM_BIT) {
        rc := PageSelect(PAGE_DEFAULT);
      }
    }

    /** The part of sdi_qsfp_module_init for a module that is not an adapter, once it is selected. */
    method InitSelected(identifier: byte) returns (rc: Rc)
      requires !isAdapter && (muxSel.Some? ==> muxHeld) && (modSel.Some? ==> modHeld)
      modifies this`faults, this`calls, this`mem, this`muxHeld, this`modHeld, this`muxLevel, this`modLevel, this`eepromVersion
      ensures var at := old(PowerReadAt(calls));
        var leak := identifier != DD_IDENTIFIER && BusCanSelect(at) && !answers(at + ModuleSelectCalls());
        && muxHeld == (old(muxHeld) && (muxSel.None? || leak)) && modHeld == (old(modHeld) && (modSel.None? || leak))
        && (faults == old(faults) ==> !leak)
      ensures faults >= old(faults)
      ensures faults == old(faults) ==> rc.Ok?
      ensures faults == old(faults) ==>
        var m := SelectPage(old(mem), PAGE_DEFAULT);
        mem == if identifier == DD_IDENTIFIER then DatapathEffect(m) else LowPowerEffect(m)
    {
      rc := SelectDefaultPage();
      if identifier == DD_IDENTIFIER {
        rc := PowerUpDatapath();
        ModuleDeselect();
      } else {
        ModuleDeselect();
        StartInLowPower();
      }
    }

    /** The part of sdi_qsfp_module_init that tells what kind of module it is. */
    method Identify() returns (rc: Rc, identifier: byte)
      modifies this`faults, this`calls, this`isAdapter, this`doubleDensity
      ensures (rc.Ok? <==> answers(old(calls))) && calls == old(calls) + 1
      ensures rc == (if faults == old(faults) then Ok else BusFault) && faults >= old(faults)
      ensures rc.Ok? ==> identifier == mem[IDENTIFIER] && doubleDensity == (identifier == DD_IDENTIFIER)
                         && isAdapter == (old(isAdapter) || IsAdapter(identifier))
      ensures !rc.Ok? ==> isAdapter == old(isAdapter) && doubleDensity == old(doubleDensity)
    {
      rc, identifier := ReadByte(IDENTIFIER);
      if rc.Ok? {
        if IsAdapter(identifier) {
          isAdapter := true;
        }
        doubleDensity := identifier == DD_IDENTIFIER;
      }
    }

    /** sdi_qsfp_module_init of a module that is there. */
    method InitPresent() returns (rc: Rc)
      modifies this`faults, this`calls, this`mem, this`muxHeld, this`modHeld, this`muxLevel, this`modLevel,
               this`isAdapter, this`doubleDensity, this`eepromVersion
      ensures LocksKept(old(InitLeaks()))
      ensures faults == old(faults) ==> rc.Ok? && !old(InitLeaks())
      ensures !old(isAdapter) && faults == old(faults) ==> mem == InitEffect(old(mem))
      ensures !old(isAdapter) && faults == old(faults) ==>
        (isAdapter <==> old(mem)[0] in {0x03, 0x0B}) && (doubleDensity <==> old(mem)[0] == 0x18)
    {
      rc := ModuleSelect();
      if !rc.Ok? {
        return;
      }
      var identifier;
      rc, identifier := Identify();
      if rc.Ok? && !isAdapter {
        rc := InitSelected(identifier);
        return;
      }
      ModuleDeselect();
    }

    /** sdi_qsfp_module_init. */
    method ModuleInit(present: bool) returns (rc: Rc)
      modifies this`faults, this`calls, this`mem, this`muxHeld, this`modHeld, this`muxLevel, this`modLevel,
               this`isAdapter, this`doubleDensity, this`eepromVersion
      ensures LocksKept(present && old(InitLeaks()))
      ensures faults == old(faults) ==> rc.Ok? && !(present && old(InitLeaks()))
      ensures !present ==> mem == old(mem) && !isAdapter
      ensures !old(isAdapter) && faults == old(faults) ==> mem == Effect(old(mem), Call.ModuleInit(present))
      ensures !old(isAdapter) && present && faults == old(faults) ==>
        (isAdapter <==> old(mem)[0] in {0x03, 0x0B}) && (doubleDensity <==> old(mem)[0] == 0x18)
    {
      rc := Ok;
      eepromVersion := 0;
      if present {
        rc := InitPresent();
      } else {
        isAdapter := false;
      }
    }
  }

  /** The leak, and what it costs: when the one read of the power call fails, the module can never be
      selected again if any of its pin groups is configured. */
  method LeakStopsTheModule(addr: nat, muxSel: Option<nat>, modSel: Option<nat>, mem: Memory)
    returns (m: QsfpModule, power: Rc, later: Rc)
    requires muxSel.Some? || modSel.Some?
    ensures fresh(m) && m.muxSel == muxSel && m.modSel == modSel
    ensures forall n: nat :: m.answers(n) <==> n != m.ModuleSelectCalls()
    ensures power.BusFault? && !later.Ok? && forall n: nat :: !m.CanSelect(n)
  {
    var n := (if muxSel.Some? then 2 else 0) + if modSel.Some? then 2 else 0;
    m := new QsfpModule(addr, muxSel, modSel, mem, map[], k => k != n);
    var milliwatts, soft;
    power, milliwatts, soft := m.MaxPowerGet();
    later := m.ModuleSelect();
  }

  lemma ShrBySix(x: nat)
    ensures Shr(x, 6) == x / 64
  {
    ShrShr(x, 3, 3);
    ShrByThree(x);
    ShrByThree(x / 8);
  }

  lemma TopTwo(x: byte)
    ensures x / 64 == FromBit(Bit(x, 6)) + 2 * FromBit(Bit(x, 7))
  {
    ShrBySix(x);
    ShrBit(x, 6, 0);
    ShrBit(x, 6, 1);
  }

  /** One more byte of a transfer. */
  lemma WriteMultiStep(m: Memory, offset: nat, data: seq<byte>, k: nat)
    requires k < |data|
    ensures WriteMulti(m, offset, data[..k + 1]) == Write(WriteMulti(m, offset, data[..k]), (offset + k) % 256, data[k])
  {
    WriteMultiSnoc(m, offset, data[..k], data[k]);
    assert data[..k + 1] == data[..k] + [data[k]];
  }

  lemma {:induction false} WriteMultiSnoc(m: Memory, offset: nat, data: seq<byte>, last: byte)
    ensures WriteMulti(m, offset, data + [last]) == Write(WriteMulti(m, offset, data), (offset + |data|) % 256, last)
    decreases |data|
  {
    if data == [] {
      assert WriteMulti(Write(m, offset % 256, last), offset + 1, []) == Write(m, offset % 256, last);
    } else {
      WriteMultiSnoc(Write(m, offset % 256, data[0]), offset + 1, data[1..], last);
      assert (data + [last])[1..] == data[1..] + [last];
    }
  }
}
