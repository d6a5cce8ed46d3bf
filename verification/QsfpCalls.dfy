/** The API calls of src/drivers/sdi_qsfp_eeprom.c as functions on a module's memory, for the case
    that no bus call fails, and the theorems about sequences of them.  `QsfpDriver` proves that the
    driver code computes these functions. */
module QsfpCalls {
  import opened Bits
  import opened QsfpMemory
  import opened Wrappers

  datatype Rc = Ok | BusFault | NotSupported | OpNotSupported | Invalid | Param | ToSfp

  const IDENTIFIER := 0
  const EEPROM_VERSION := 1
  const TX_CONTROL := 86
  const DD_TX_CONTROL := 84
  const DD_DATAPATH_POWERUP := 92
  const POWER_CLASS_CONTROL := 93
  const DD_DATAPATH_POWERUP_REV3 := 128
  const EXT_IDENTIFIER := 129
  const OPTIONS4 := 195
  const TX_DISABLE_BIT := 4
  const DD_IDENTIFIER := 0x18

  /** `probe` is what the status byte read before the module is selected returned (the driver decides
      there whether to select a page at all); `own` is false when another device address was given. */
  datatype Call =
    | ReadGeneric(own: bool, page: int, offset: nat, len: nat, probe: Option<byte>)
    | WriteGeneric(own: bool, page: int, offset: nat, data: seq<byte>, probe: Option<byte>)
    | ThresholdGet(thresholdPage: byte, register: byte)
    | ParameterGet(register: byte, size: nat)
    | TxControl(doubleDensity: bool, channel: nat, enable: bool)
    | ForcePowerMode(high: bool)
    | ModuleInit(present: bool)

  /** Whether a raw read or write tries to select a page (sdi_qsfp_eeprom.c:2374-2384). */
  predicate Paging(page: int, probe: Option<byte>) {
    page >= 0 && probe.Some? && !Bit(probe.value, FLAT_MEM_BIT)
  }

  predicate ValidChannel(doubleDensity: bool, channel: nat) {
    channel <= if doubleDensity then 7 else 3
  }

  function TxOffset(doubleDensity: bool): byte {
    if doubleDensity then DD_TX_CONTROL else TX_CONTROL
  }

  /** In the control byte a set bit disables the channel. */
  function TxByte(control: byte, channel: nat, enable: bool): nat {
    if enable then ClearBit(control, channel) else SetBit(control, channel)
  }

  /** Bit 2 enables the high power class, bit 1 is the power-set bit (active low), bit 0 overrides the pin. */
  function PowerByte(control: byte, high: bool): nat {
    var b2 := if high then SetBit(control, 2) else ClearBit(control, 2);
    var b1 := if !high then SetBit(b2, 1) else ClearBit(b2, 1);
    SetBit(b1, 0)
  }

  lemma BitUpdateIsByte(x: nat, k: nat)
    requires x < 256 && k < 8
    ensures SetBit(x, k) < 256 && ClearBit(x, k) < 256
  {
    assert Pow2(8) == 256 by { assert Pow2(4) == 16; }
    if SetBit(x, k) >= 256 {
      var i := HighBit(SetBit(x, k), 8);
      SetBitBit(x, k, i);
      NoHighBit(x, 8, i);
    }
    if ClearBit(x, k) >= 256 {
      var i := HighBit(ClearBit(x, k), 8);
      AndBit(x, Flip(Shl(1, k), 32), i);
      NoHighBit(x, 8, i);
    }
  }

  // ----- The device as it is: every access goes to the page selected

  function TxControlEffect(m: Memory, doubleDensity: bool, channel: nat, enable: bool): Memory {
    if ValidChannel(doubleDensity, channel) && Bit(Read(m, OPTIONS4), TX_DISABLE_BIT) then
      BitUpdateIsByte(Read(m, TxOffset(doubleDensity)), channel);
      Write(m, TxOffset(doubleDensity), TxByte(Read(m, TxOffset(doubleDensity)), channel, enable))
    else m
  }

  function ForcePowerEffect(m: Memory, high: bool): Memory {
    var m := SelectPage(m, PAGE_DEFAULT);
    if Low(Read(m, EXT_IDENTIFIER), 2) == 0 then m
    else
      PowerByteIsByte(Read(m, POWER_CLASS_CONTROL), high);
      Write(m, POWER_CLASS_CONTROL, PowerByte(Read(m, POWER_CLASS_CONTROL), high))
  }

  lemma PowerByteIsByte(control: byte, high: bool)
    ensures PowerByte(control, high) < 256
  {
    BitUpdateIsByte(control, 2);
    var b2 := if high then SetBit(control, 2) else ClearBit(control, 2);
    BitUpdateIsByte(b2, 1);
    BitUpdateIsByte(if !high then SetBit(b2, 1) else ClearBit(b2, 1), 0);
  }

  /** What forcing a power mode does to the control byte: three bits say so, the others stay. */
  lemma PowerByteBit(control: byte, high: bool, i: nat)
    ensures Bit(PowerByte(control, high), i) <==>
      if i == 0 then true else if i == 1 then !high else if i == 2 then high else Bit(control, i)
  {
    var b2 := if high then SetBit(control, 2) else ClearBit(control, 2);
    var b1 := if !high then SetBit(b2, 1) else ClearBit(b2, 1);
    PowerByteIsByte(control, high);
    if i >= 8 {
      ByteHasNoHighBit(control, i);
      ByteHasNoHighBit(PowerByte(control, high), i);
    } else {
      SetBitBit(control, 2, i);
      ClearBitBit(control, 2, i);
      SetBitBit(b2, 1, i);
      ClearBitBit(b2, 1, i);
      SetBitBit(b1, 0, i);
    }
  }

  /** Power up the data path of a double-density module of revision 2 or later. */
  function DatapathEffect(m: Memory): Memory {
    var rev3 := m[EEPROM_VERSION] == 0x30;
    if m[EEPROM_VERSION] < 0x20 then m
    else
      var m := SelectPage(m, if rev3 then 16 else PAGE_DEFAULT);
      var m := Write(m, if rev3 then DD_DATAPATH_POWERUP_REV3 else DD_DATAPATH_POWERUP, 0xFF);
      SelectPage(m, PAGE_DEFAULT)
  }

  /** Identifiers of an SFP in a QSFP adapter, served by the SFP driver from then on. */
  predicate IsAdapter(identifier: byte) { identifier == 0x03 || identifier == 0x0b }

  function InitEffect(m: Memory): Memory {
    if IsAdapter(m[IDENTIFIER]) then m
    else
      var m := SelectPage(m, PAGE_DEFAULT);
      if m[IDENTIFIER] == DD_IDENTIFIER then DatapathEffect(m) else LowPowerEffect(m)
  }

  /** Modules whose power is under software control are started in low power. */
  function LowPowerEffect(m: Memory): Memory {
    if Low(Read(m, EXT_IDENTIFIER), 2) != 0 then ForcePowerEffect(m, false) else m
  }

  function WriteGenericEffect(m: Memory, c: Call): Memory
    requires c.WriteGeneric?
  {
    if !Paging(c.page, c.probe) then (if c.own then WriteMulti(m, c.offset, c.data) else m)
    else if Flat(m) then m
    else
      var m := SelectPage(m, c.page);
      var m := if c.own then WriteMulti(m, c.offset, c.data) else m;
      SelectPage(m, PAGE_DEFAULT)
  }

  /** The code a raw write returns: the page cannot be selected, or cannot be restored once the write
      has marked the module flat. */
  function WriteGenericRc(m: Memory, c: Call): Rc
    requires c.WriteGeneric?
  {
    if Paging(c.page, c.probe) &&
       (Flat(m) || (c.own && Flat(WriteMulti(SelectPage(m, c.page), c.offset, c.data)))) then NotSupported else Ok
  }

  /** The memory after a call. */
  function Effect(m: Memory, c: Call): Memory {
    match c
    case ReadGeneric(_, page, _, _, probe) => if Paging(page, probe) then SelectPage(m, PAGE_DEFAULT) else m
    case WriteGeneric(_, _, _, _, _) => WriteGenericEffect(m, c)
    case ThresholdGet(_, offset) => if offset == 0 then m else SelectPage(m, PAGE_DEFAULT)
    case ParameterGet(_, _) => m
    case TxControl(dd, channel, enable) => TxControlEffect(m, dd, channel, enable)
    case ForcePowerMode(high) => ForcePowerEffect(m, high)
    case ModuleInit(present) => if present then InitEffect(m) else m
  }

  /** The code returned and the bytes read by the calls that read bytes of the module. */
  function Reply(m: Memory, c: Call): (Rc, seq<byte>)
    requires (c.ReadGeneric? && c.own) || c.ThresholdGet? || c.ParameterGet?
  {
    match c
    case ReadGeneric(_, page, offset, len, probe) =>
      if !Paging(page, probe) then (Ok, ReadMulti(m, offset, len))
      else if Flat(m) then (NotSupported, [])
      else (Ok, ReadMulti(SelectPage(m, page), offset, len))
    case ThresholdGet(page, offset) =>
      if offset == 0 then (OpNotSupported, [])
      else if Flat(m) then (NotSupported, [])
      else (Ok, ReadMulti(SelectPage(m, page), offset, 2))
    case ParameterGet(offset, size) =>
      if offset == 0 && size == 0 then (OpNotSupported, [])
      else if size !in {1, 2, 4} then (Invalid, [])
      else (Ok, ReadMulti(m, offset, size))
  }

  // ----- What these calls do, register by register

  lemma LowTwo(x: nat)
    ensures Low(x, 2) == FromBit(Bit(x, 0)) + 2 * FromBit(Bit(x, 1))
  {
    assert Low(x / 2, 1) == x / 2 % 2;
  }

  /** The module can be told its power: bits 0 and 1 of offset 129 of page 00 are not both clear.  A flat
      module shows that offset of the page it has. */
  predicate SoftPower(m: Memory) {
    var id := if Bit(m[2], 2) then Read(m, 129) else m[129];
    Bit(id, 0) || Bit(id, 1)
  }

  lemma SoftPowerIs(m: Memory)
    ensures SoftPower(m) <==> Low(Read(SelectPage(m, PAGE_DEFAULT), EXT_IDENTIFIER), 2) != 0
  {
    var id := if Bit(m[2], 2) then Read(m, 129) else m[129];
    LowTwo(id);
    assert Read(SelectPage(m, PAGE_DEFAULT), EXT_IDENTIFIER) == id;
  }

  /** Forcing a power mode sets bit 0 of byte 93, sets one of bits 1 (low power) and 2 (high power) and
      clears the other, if the module can be told its power; nothing else changes but the selection. */
  lemma ForcePowerRegisters(m: Memory, high: bool)
    ensures var m' := ForcePowerEffect(m, high);
      && m'[127] == (if Bit(m[2], 2) then m[127] else 0)
      && (forall c :: 0 <= c < |m| && c != 93 && c != 127 ==> m'[c] == m[c])
      && (forall i: nat :: Bit(m'[93], i) <==>
            if SoftPower(m) && i <= 2 then i == 0 || (i == 1 && !high) || (i == 2 && high) else Bit(m[93], i))
  {
    SoftPowerIs(m);
    PowerByteIsByte(m[93], high);
    forall i: nat ensures Bit(PowerByte(m[93], high), i) <==>
      if i <= 2 then i == 0 || (i == 1 && !high) || (i == 2 && high) else Bit(m[93], i)
    {
      PowerByteBit(m[93], high, i);
    }
  }

  /** Where the data path of a double-density module is powered up: byte 92, or offset 128 of page 16 for
      revision 3 (of the page it has, if it is flat). */
  function PowerUpCell(m: Memory): (c: nat)
    ensures c < |m|
  {
    if m[1] != 0x30 then 92 else if Bit(m[2], 2) then 128 + 128 * m[127] as nat else 2176
  }

  /** Powering up writes 0xFF there from revision 2 on, and nothing else changes but the selection. */
  lemma DatapathRegisters(m: Memory)
    ensures var m' := DatapathEffect(m);
      && (m[1] < 0x20 ==> m' == m)
      && (m[1] >= 0x20 ==> m'[PowerUpCell(m)] == 0xFF && m'[127] == if Bit(m[2], 2) then m[127] else 0)
      && (forall c :: 0 <= c < |m| && c != PowerUpCell(m) && c != 127 ==> m'[c] == m[c])
  {}

  /** Initialising a module that is there leaves an adapter alone, powers up a double-density module and
      puts any other module that can be told its power into low power; page 0 is selected if any can be. */
  lemma InitRegisters(m: Memory)
    ensures var m', plain := Effect(m, ModuleInit(true)), m[0] !in {0x03, 0x0B, 0x18};
      && (m[0] in {0x03, 0x0B} ==> m' == m)
      && (m[0] !in {0x03, 0x0B} ==> m'[127] == if Bit(m[2], 2) then m[127] else 0)
      && (m[0] == 0x18 ==> m'[PowerUpCell(m)] == if m[1] >= 0x20 then 0xFF else m[PowerUpCell(m)])
      && (m[0] == 0x18 ==> forall c :: 0 <= c < |m| && c != PowerUpCell(m) && c != 127 ==> m'[c] == m[c])
      && (plain ==> forall c :: 0 <= c < |m| && c != 93 && c != 127 ==> m'[c] == m[c])
      && (plain ==> forall i: nat :: Bit(m'[93], i) <==> if SoftPower(m) && i <= 2 then i <= 1 else Bit(m[93], i))
  {
    var selected := SelectPage(m, PAGE_DEFAULT);
    if m[0] == 0x18 {
      DatapathRegisters(selected);
    } else if m[0] !in {0x03, 0x0B} {
      SoftPowerIs(m);
      ForcePowerRegisters(selected, false);
    }
  }

  // ----- The flat view: no page is ever selected

  /** The page a raw access or threshold read works on: a flat module has only page 0. */
  function EffectivePage(m: Memory, page: int): byte
    requires page >= 0
  {
    if Flat(m) then PAGE_DEFAULT else page % 256
  }

  function FlatEffect(m: Memory, c: Call): Memory {
    match c
    case ReadGeneric(_, _, _, _, _) => m
    case WriteGeneric(own, page, offset, data, probe) =>
      if !own || (Paging(page, probe) && Flat(m)) then m
      else FlatWrite(m, if Paging(page, probe) then page % 256 else PAGE_DEFAULT, offset, data)
    case ThresholdGet(_, _) => m
    case ParameterGet(_, _) => m
    case TxControl(dd, channel, enable) =>
      if ValidChannel(dd, channel) && Bit(m[Cell(PAGE_DEFAULT, OPTIONS4)], TX_DISABLE_BIT) then
        BitUpdateIsByte(m[TxOffset(dd)], channel);
        m[TxOffset(dd) := TxByte(m[TxOffset(dd)], channel, enable)]
      else m
    case ForcePowerMode(high) => FlatForcePower(m, high)
    case ModuleInit(present) =>
      if !present || IsAdapter(m[IDENTIFIER]) then m
      else if m[IDENTIFIER] == DD_IDENTIFIER then
        if m[EEPROM_VERSION] < 0x20 then m
        else if m[EEPROM_VERSION] == 0x30 then m[Cell(EffectivePage(m, 16), DD_DATAPATH_POWERUP_REV3) := 0xFF]
        else m[DD_DATAPATH_POWERUP := 0xFF]
      else FlatForcePower(m, false)
  }

  function FlatForcePower(m: Memory, high: bool): Memory {
    if Low(m[Cell(PAGE_DEFAULT, EXT_IDENTIFIER)], 2) == 0 then m
    else
      PowerByteIsByte(m[POWER_CLASS_CONTROL], high);
      m[POWER_CLASS_CONTROL := PowerByte(m[POWER_CLASS_CONTROL], high)]
  }

  function FlatReply(m: Memory, c: Call): (Rc, seq<byte>)
    requires (c.ReadGeneric? && c.own) || c.ThresholdGet? || c.ParameterGet?
  {
    match c
    case ReadGeneric(_, page, offset, len, probe) =>
      if Paging(page, probe) && Flat(m) then (NotSupported, [])
      else (Ok, FlatRead(m, if Paging(page, probe) then page % 256 else PAGE_DEFAULT, offset, len))
    case ThresholdGet(page, offset) =>
      if offset == 0 then (OpNotSupported, [])
      else if Flat(m) then (NotSupported, [])
      else (Ok, FlatRead(m, page, offset, 2))
    case ParameterGet(offset, size) =>
      if offset == 0 && size == 0 then (OpNotSupported, [])
      else if size !in {1, 2, 4} then (Invalid, [])
      else (Ok, FlatRead(m, PAGE_DEFAULT, offset, size))
  }

  // ----- Page 0 is selected between calls

  predicate PageZero(m: Memory) { m[PAGE_SELECT] == PAGE_DEFAULT }

  /** What a caller can check before a raw write: after it, does page 0 end up selected?  The last
      byte sent to the page-select offset counts unless the driver restores the page, which it cannot
      do once the write has marked the module flat. */
  predicate LeavesPageZero(m: Memory, c: Call) {
    c.WriteGeneric? && c.own && !(Paging(c.page, c.probe) && Flat(m)) ==>
      var select := Sent(c.offset, c.data, PAGE_SELECT);
      var status := Sent(c.offset, c.data, STATUS_INDICATOR);
      || (Paging(c.page, c.probe) && (status == -1 || !Bit(status, FLAT_MEM_BIT)))
      || select == PAGE_DEFAULT
      || (select == -1 && (Paging(c.page, c.probe) ==> c.page % 256 == PAGE_DEFAULT))
  }

  /** Exactly when a call keeps page 0 selected. */
  lemma PageZeroIff(m: Memory, c: Call)
    requires PageZero(m)
    ensures PageZero(Effect(m, c)) <==> LeavesPageZero(m, c)
  {
    if c.WriteGeneric? && c.own {
      var m1 := if Paging(c.page, c.probe) then SelectPage(m, c.page) else m;
      WriteMultiLower(m1, c.offset, c.data, PAGE_SELECT);
      WriteMultiLower(m1, c.offset, c.data, STATUS_INDICATOR);
    }
  }

  /** A transfer of `len` bytes from `offset` stops short of the page-select byte. */
  predicate AvoidsSelect(offset: nat, len: nat) {
    len <= (PAGE_SELECT - offset) % 256
  }

  /** A raw write that touches neither the page-select byte nor the status byte, or a read, with a
      page selected for it, that does not look at the page-select byte. */
  predicate Polite(c: Call) {
    && (c.WriteGeneric? && c.own ==>
          Sent(c.offset, c.data, PAGE_SELECT) == -1 && Sent(c.offset, c.data, STATUS_INDICATOR) == -1)
    && (c.ReadGeneric? && Paging(c.page, c.probe) ==> AvoidsSelect(c.offset, c.len))
    && (c.ThresholdGet? ==> AvoidsSelect(c.register, 2))
  }

  lemma {:induction false} FlatWriteKeepsSelect(m: Memory, page: byte, select: byte, offset: nat, data: seq<byte>)
    requires Sent(offset, data, PAGE_SELECT) == -1
    ensures FlatWrite(m[PAGE_SELECT := select], page, offset, data) == FlatWrite(m, page, offset, data)[PAGE_SELECT := select]
    decreases |data|
  {
    if data != [] {
      var c := Cell(page, offset % 256);
      assert m[PAGE_SELECT := select][c := data[0]] == m[c := data[0]][PAGE_SELECT := select];
      FlatWriteKeepsSelect(m[c := data[0]], page, select, offset + 1, data[1..]);
    }
  }

  lemma WriteGenericIsFlat(m: Memory, c: Call)
    requires PageZero(m) && c.WriteGeneric? && c.own && Polite(c)
    ensures Effect(m, c) == FlatEffect(m, c)
  {
    if !Paging(c.page, c.probe) {
      WriteMultiIsFlat(m, c.offset, c.data);
    } else if !Flat(m) {
      var page := c.page % 256;
      var m1 := SelectPage(m, c.page);
      var m2 := FlatWrite(m, page, c.offset, c.data);
      WriteMultiIsFlat(m1, c.offset, c.data);
      FlatWriteKeepsSelect(m, page, page, c.offset, c.data);
      FlatWriteAt(m, page, c.offset, c.data, 0, STATUS_INDICATOR);
      FlatWriteAt(m, page, c.offset, c.data, 0, PAGE_SELECT);
      assert m2[PAGE_SELECT := page][PAGE_SELECT := 0] == m2;
    }
  }

  /** Refinement, one call: with page 0 selected, the paged device and the flat map agree on what
      every polite call does and returns. */
  lemma CallIsFlat(m: Memory, c: Call)
    requires PageZero(m) && Polite(c)
    ensures Effect(m, c) == FlatEffect(m, c)
    ensures (c.ReadGeneric? && c.own) || c.ThresholdGet? || c.ParameterGet? ==> Reply(m, c) == FlatReply(m, c)
  {
    assert m[PAGE_SELECT := 0] == m;
    match c
    case WriteGeneric(own, _, _, _, _) => if own { WriteGenericIsFlat(m, c); } else { OtherDeviceIsFlat(m, c); }
    case ModuleInit(present) => if present { InitIsFlat(m); }
    case ReadGeneric(own, page, offset, len, probe) =>
      PageZeroReadIsFlat(m, offset, len);
      if Paging(page, probe) && !Flat(m) { SelectedReadIsFlat(m, page, offset, len); }
    case ThresholdGet(page, offset) => if !Flat(m) { SelectedReadIsFlat(m, page, offset, 2); }
    case ForcePowerMode(_) =>
    case TxControl(_, _, _) =>
    case ParameterGet(offset, size) => PageZeroReadIsFlat(m, offset, size);
  }

  lemma OtherDeviceIsFlat(m: Memory, c: Call)
    requires PageZero(m) && c.WriteGeneric? && !c.own
    ensures Effect(m, c) == m
  {
    if Paging(c.page, c.probe) && !Flat(m) {
      assert m[PAGE_SELECT := c.page % 256][PAGE_SELECT := 0] == m;
    }
  }

  lemma SelectedReadIsFlat(m: Memory, page: nat, offset: nat, len: nat)
    requires PageZero(m) && !Flat(m) && AvoidsSelect(offset, len)
    ensures ReadMulti(SelectPage(m, page), offset, len) == FlatRead(m, page % 256, offset, len)
  {
    var m1 := SelectPage(m, page);
    forall i | 0 <= i < len ensures ReadMulti(m1, offset, len)[i] == FlatRead(m, page % 256, offset, len)[i] {
      var o := (offset + i) % 256;
      assert o != PAGE_SELECT;
      assert Read(m1, o) == m[Cell(page % 256, o)];
    }
  }

  lemma PageZeroReadIsFlat(m: Memory, offset: nat, len: nat)
    requires PageZero(m)
    ensures ReadMulti(m, offset, len) == FlatRead(m, PAGE_DEFAULT, offset, len)
  {
    forall i | 0 <= i < len ensures ReadMulti(m, offset, len)[i] == FlatRead(m, PAGE_DEFAULT, offset, len)[i] {
      var o := (offset + i) % 256;
      assert Read(m, o) == m[Cell(PAGE_DEFAULT, o)];
    }
  }

  lemma InitIsFlat(m: Memory)
    requires PageZero(m)
    ensures InitEffect(m) == FlatEffect(m, ModuleInit(true))
  {
    assert m[PAGE_SELECT := 0] == m;
    if !Flat(m) && m[EEPROM_VERSION] == 0x30 {
      var c := Cell(16, DD_DATAPATH_POWERUP_REV3);
      assert m[PAGE_SELECT := 16][c := 0xFF][PAGE_SELECT := 0] == m[c := 0xFF];
    }
  }

  // ----- Sequences of calls

  function Run(m: Memory, cs: seq<Call>): Memory {
    if cs == [] then m else Effect(Run(m, cs[..|cs| - 1]), cs[|cs| - 1])
  }

  function FlatRun(m: Memory, cs: seq<Call>): Memory {
    if cs == [] then m else FlatEffect(FlatRun(m, cs[..|cs| - 1]), cs[|cs| - 1])
  }

  /** A successful `module_init` of a paged module that is not an adapter leaves page 0 selected,
      whatever page it found. */
  lemma InitSelectsPageZero(m: Memory)
    requires !Flat(m) && !IsAdapter(m[IDENTIFIER])
    ensures PageZero(InitEffect(m)) && !Flat(InitEffect(m))
  {
  }

  /** Refinement, whole runs: over any sequence of polite calls starting with page 0 selected, page 0
      is selected between calls and the memory is that of the flat map; so the next call answers from
      the flat map too, and in particular every `parameter_get` of an upper offset reads page 00. */
  lemma {:induction false} RunsAreFlat(m: Memory, cs: seq<Call>)
    requires PageZero(m) && forall c :: c in cs ==> Polite(c)
    ensures PageZero(Run(m, cs)) && Run(m, cs) == FlatRun(m, cs)
    ensures forall register: byte, size: nat :: register >= 128 && size in {1, 2, 4} ==>
      Reply(Run(m, cs), ParameterGet(register, size)) == (Ok, FlatRead(FlatRun(m, cs), PAGE_DEFAULT, register, size))
  {
    if cs != [] {
      var before, c := Run(m, cs[..|cs| - 1]), cs[|cs| - 1];
      RunsAreFlat(m, cs[..|cs| - 1]);
      CallIsFlat(before, c);
      PageZeroIff(before, c);
    }
    forall register: byte, size: nat | register >= 128 && size in {1, 2, 4}
      ensures Reply(Run(m, cs), ParameterGet(register, size)) == (Ok, FlatRead(FlatRun(m, cs), PAGE_DEFAULT, register, size))
    {
      CallIsFlat(Run(m, cs), ParameterGet(register, size));
    }
  }

  /** After a successful `module_init` of a paged module, whatever page was selected before it. */
  lemma AfterInitParametersAreOfPageZero(m: Memory, cs: seq<Call>, register: byte, size: nat)
    requires !Flat(m) && !IsAdapter(m[IDENTIFIER])
    requires forall c :: c in cs ==> Polite(c)
    requires register >= 128 && size in {1, 2, 4}
    ensures var m0 := Effect(m, ModuleInit(true));
      && PageZero(Run(m0, cs))
      && Reply(Run(m0, cs), ParameterGet(register, size)) == (Ok, FlatRead(FlatRun(m0, cs), PAGE_DEFAULT, register, size))
  {
    InitSelectsPageZero(m);
    RunsAreFlat(Effect(m, ModuleInit(true)), cs);
  }

  /** Page 0 is selected before, between and after the calls. */
  predicate AlwaysPageZero(m: Memory, cs: seq<Call>) {
    PageZero(Run(m, cs)) && (cs == [] || AlwaysPageZero(m, cs[..|cs| - 1]))
  }

  /** Every call, where it is made, leaves page 0 selected. */
  predicate EachLeavesPageZero(m: Memory, cs: seq<Call>) {
    cs == [] || (LeavesPageZero(Run(m, cs[..|cs| - 1]), cs[|cs| - 1]) && EachLeavesPageZero(m, cs[..|cs| - 1]))
  }

  /** Over any sequence of calls, polite or not, the two are the same. */
  lemma {:induction false} AlwaysPageZeroIff(m: Memory, cs: seq<Call>)
    requires PageZero(m)
    ensures AlwaysPageZero(m, cs) <==> EachLeavesPageZero(m, cs)
    decreases |cs|
  {
    if cs != [] {
      var init, c := cs[..|cs| - 1], cs[|cs| - 1];
      AlwaysPageZeroIff(m, init);
      if AlwaysPageZero(m, init) {
        assert PageZero(Run(m, init));
        PageZeroIff(Run(m, init), c);
      }
    }
  }

  /** Without politeness the invariant fails: one raw write to the page-select byte, with no page
      asked for, and the next parameter is read from page 3. */
  lemma RawSelectMisroutesParameters(m: Memory, register: byte)
    requires PageZero(m) && register >= 128 && m[Cell(3, register)] != m[Cell(0, register)]
    ensures var c := WriteGeneric(true, -1, PAGE_SELECT, [3], None);
      Reply(Effect(m, c), ParameterGet(register, 1)) != Reply(m, ParameterGet(register, 1))
  {
    var c := WriteGeneric(true, -1, PAGE_SELECT, [3], None);
    assert WriteMulti(m, PAGE_SELECT, [3]) == Write(m, PAGE_SELECT, 3);
    assert ReadMulti(Effect(m, c), register, 1)[0] != ReadMulti(m, register, 1)[0];
  }

  // ----- Transmitter control of double-density modules

  /** A sub-port of a double-density module sees its channels shifted by an offset
      (src/drivers/sdi_qsfp28_dd_eeprom.c:43-56, 109-128). */
  datatype SubPort = SubPort(offset: nat, channels: nat) {
    predicate Has(channel: nat) { offset <= channel < offset + channels }
  }

  datatype TxCall = TxCall(port: SubPort, channel: nat, enable: bool) {
    function Absolute(): nat { channel + port.offset }
  }

  function RunTx(m: Memory, cs: seq<TxCall>): Memory {
    if cs == [] then m
    else
      var c := cs[|cs| - 1];
      TxControlEffect(RunTx(m, cs[..|cs| - 1]), true, c.Absolute(), c.enable)
  }

  /** The value this sub-port last set for its own channel, looking only at its own calls. */
  function LastSet(cs: seq<TxCall>, port: SubPort, channel: nat, initial: bool): bool {
    if cs == [] then initial
    else if cs[|cs| - 1].port == port && cs[|cs| - 1].channel == channel then cs[|cs| - 1].enable
    else LastSet(cs[..|cs| - 1], port, channel, initial)
  }

  /** Where tx control is supported, bit `channel` of the control register (84 for double density, else
      86) is set to disable the channel and cleared to enable it; every other bit of the module stays. */
  lemma TxControlSetsOneChannel(m: Memory, dd: bool, channel: nat, enable: bool)
    requires channel <= (if dd then 7 else 3) && Bit(Read(m, 195), 4)
    ensures var m', register := TxControlEffect(m, dd, channel, enable), if dd then 84 else 86;
      && (forall i: nat :: Bit(m'[register], i) <==> if i == channel then !enable else Bit(m[register], i))
      && (forall c :: 0 <= c < |m| && c != register ==> m'[c] == m[c])
      && Read(m', 195) == Read(m, 195)
  {
    var control := m[if dd then 84 else 86];
    TxByteIsByte(control, channel, enable);
    forall i: nat ensures Bit(TxByte(control, channel, enable), i) <==> if i == channel then !enable else Bit(control, i) {
      TxByteBit(control, channel, enable, i);
    }
  }

  lemma TxByteIsByte(control: byte, channel: nat, enable: bool)
    requires channel <= 7
    ensures TxByte(control, channel, enable) < 256
  {
    BitUpdateIsByte(control, channel);
  }

  lemma TxByteBit(control: byte, channel: nat, enable: bool, i: nat)
    requires channel <= 7
    ensures Bit(TxByte(control, channel, enable), i) <==> if i == channel then !enable else Bit(control, i)
  {
    TxByteIsByte(control, channel, enable);
    if i >= 8 {
      ByteHasNoHighBit(control, i);
      ByteHasNoHighBit(TxByte(control, channel, enable), i);
    } else {
      SetBitBit(control, channel, i);
      ClearBitBit(control, channel, i);
    }
  }

  lemma SubPortSets(m: Memory, c: TxCall, i: nat)
    requires c.channel + c.port.offset <= 7 && Bit(Read(m, 195), 4)
    ensures var m' := TxControlEffect(m, true, c.Absolute(), c.enable);
      && (Bit(m'[84], i) <==> if i == c.channel + c.port.offset then !c.enable else Bit(m[84], i))
      && Read(m', 195) == Read(m, 195)
  {
    TxControlSetsOneChannel(m, true, c.channel + c.port.offset, c.enable);
  }

  /** Sub-ports with disjoint channels do not disturb each other: after any sequence of calls, the bit of
      each channel in register 84 is clear exactly when its own sub-port last enabled the channel, or, if it
      made no call for it, when the bit was clear before. */
  lemma {:induction false} SubPortsDoNotDisturb(m: Memory, cs: seq<TxCall>, port: SubPort, channel: nat)
    requires Bit(Read(m, 195), 4)
    requires channel < port.channels && channel + port.offset <= 7
    requires forall c :: c in cs ==> c.channel < c.port.channels && c.channel + c.port.offset <= 7
    requires forall c :: c in cs && c.port != port ==> forall a: nat :: !(c.port.Has(a) && port.Has(a))
    ensures Bit(RunTx(m, cs)[84], channel + port.offset) <==>
      !LastSet(cs, port, channel, !Bit(m[84], channel + port.offset))
    ensures Read(RunTx(m, cs), 195) == Read(m, 195)
  {
    if cs != [] {
      var before, c := cs[..|cs| - 1], cs[|cs| - 1];
      SubPortsDoNotDisturb(m, before, port, channel);
      SubPortSets(RunTx(m, before), c, channel + port.offset);
      if c.port != port {
        assert c.port.Has(c.channel + c.port.offset) && port.Has(channel + port.offset);
      }
    }
  }
}
