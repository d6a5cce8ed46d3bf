# Verified models of the system device interface drivers

The repository is a set of C drivers for the devices of a network switch: I2C multiplexers, pluggable
optics, EEPROMs, CPLD pins, fan controllers, power supplies and management controllers. This project
models, in Dafny 4.11, the drivers in which a promise about shared registers, locks or byte formats
is not visible from any single function, and proves those promises.

A device is explicit state (a register array, a paged memory, lock owners, a byte buffer). Where a driver
changes state step by step, a class with the same fields and methods is proved against a specification, and
the theorems are stated about that specification over all inputs and whole runs. Every bus call may
fail; a failed write leaves the device as it was unless stated otherwise.

| files | subject |
|---|---|
| `I2cMuxPin.dfy`, `I2cMuxDeadlock.dfy`, `I2cMuxPinDriver.dfy` | bus acquisition over a tree of pin-selected muxes, any number of threads; exactly when it can deadlock |
| `I2cMuxPca.dfy` | PCA mux chips that share one mux lock |
| `CpldPins.dfy`, `CpldDriver.dfy` | bit fields over several registers, and single pins |
| `QsfpMemory.dfy`, `QsfpCalls.dfy`, `QsfpFaults.dfy`, `QsfpDriver.dfy` | paged QSFP memory as a flat map; the API calls over it, without and with failures |
| `OnieEeprom.dfy`, `OnieDriver.dfy` | the TlvInfo board EEPROM: encoder, validators, the driver's walk |
| `CommMailbox.dfy`, `CommDriver.dfy` | the mailbox of the communication device and its checksum |
| `Max6620.dfy`, `Max6620Driver.dfy` | tach counts, register packing and the shared fault latch |
| `FanSpeedMap.dfy` | fan speed maps of the S6000 power supply and their look-ups |
| `BmcPollers.dfy` | grouping of OEM pollers by sensor |
| `Bits.dfy`, `Selections.dfy`, `Wrappers.dfy` | bit operations on natural numbers, described by the bits of their results; choosing positions in order; a value that may be missing |

`dafny verify dfyconfig.toml` checks everything.

## What the proofs found

Each of these is a theorem with its exact condition or a concrete counterexample below.

- Pin muxes: routing and exclusion hold with no assumption on pin groups. A family of buses can deadlock exactly
  when its pin groups nest in a cycle (`DeadlockIff`); one thread can get stuck by itself exactly when two muxes
  of its route share a group (`SticksAloneIff`), and two routes that each could not can still deadlock with
  each other (`CrossingRoutesDeadlock`).
- PCA muxes: a deselect that fails is only logged and the lock is dropped, after which two chips can be
  selected at once (`FailedDeselectLeavesTwoChips`).
- Pin groups: writing shifts by whole registers and reading by the start offset as well, so the round trip
  holds exactly for one register or start offset 0 (`RoundTripIffAligned`). With normal polarity a value
  too wide for the field is ored into the bits above it (`WriteIsFramedIff`).
- QSFP: a raw write that reaches the page-select byte misroutes later reads (`RawSelectMisroutesParameters`;
  `PageZeroIff` is the exact condition). A paged call returns the code of restoring page 0: OK means that page 0
  is selected (`OkMeansPageZero`), not that the bytes were moved (`PagedOkIff`, `OkWithoutTransfer`).
  `sdi_qsfp_media_max_power_get` keeps its locks exactly when its read fails (`MaxPowerGet`), after which the
  module cannot be selected again (`LeakStopsTheModule`).
- ONIE: the code of the second read is dropped, and what arrived before a failure stays in the buffer. Success
  means that all the CRC covers came from the ROM (`CoveredArrived`), not that the CRC itself did
  (`PartialReadIsAccepted`, `LoadedIff`); for a ROM that holds an image that is enough (`AcceptedImageIsLoaded`).
- ONIE: the walk subtracts the length of the next field, not the present one, and runs past the end. It is
  harmless exactly when the buffer has `Slack` zero bytes beyond the image (`WalkOfImage`).
- Mailbox: the header describes the string, the payload written is the length passed. The reader recovers
  the message exactly when that length covers the string with its NUL (`ReaderRecoversIff`). A message longer
  than 4096 bytes overwrites the southbound mailbox (`StaysInMailboxIff`).
- MAX6620: the count is masked to eleven bits without a check. A speed reads back within one count exactly
  when it is in range (`ReadsBackCloseIff`); asking for 3000 of 18000 RPM programs 13724, and what reads
  back from the maximum is above it (`SlowRunsFast`).
- Speed maps: without a map, a percentage survives the trip through RPM exactly under the condition of
  `PlainRoundTripIff`.
- Pollers: sensor names are compared whole but stored cut to 63 characters; the list is a grouping exactly
  when no over-long name is cut to one already there (`GroupsIff`).

## Model

| member | source | states |
|---|---|---|
| I2cMuxPin.StepKeepsInv | src/drivers/sdi_i2cmux_pin.c:80-147 | every step of every thread, including failures and the undo after them, keeps: owned locks are exactly the calls made and not undone, and every pin group whose write stands shows that level |
| I2cMuxPin.UsersAreRoutedAndExclusive | src/drivers/sdi_i2cmux_pin.c:80-186 | in every state of every interleaving, a thread using a bus finds each mux on its path set to that path's channel, and no two users' paths share a mux; no assumption on shared pin groups |
| I2cMuxPin.OwnsExactlyItsPrefix | src/drivers/sdi_i2cmux_pin.c:87-125 | all or nothing: a thread owns exactly the locks of its standing calls, so all while using and none once idle |
| I2cMuxPin.FollowWaitChain | src/drivers/sdi_i2cmux_pin.c:87-146 | for any ranking that every plan descends, the wait chain from a busy thread ends at one that can proceed |
| I2cMuxPin.PlanDescends | src/drivers/sdi_i2cmux_pin.c:87-118 | if muxes that share a pin group are at one depth of the tree, the order mux, pin group, parent descends a rank by depth |
| I2cMuxPin.NeverDeadlocks | src/drivers/sdi_i2cmux_pin.c:80-146 | while the buses in use have a ranking that their plans descend, no run of any number of threads over a tree of any depth gets stuck |
| I2cMuxPin.LevelSharingNeverDeadlocks | src/drivers/sdi_i2cmux_pin.c:80-146 | in particular if each mux has its own pin group, or only muxes of one depth share one |
| I2cMuxDeadlock.DeadlockIff | src/drivers/sdi_i2cmux_pin.c:80-146 | a family of buses with the parents they lead through can deadlock, for some number of threads and some interleaving, if and only if its pin groups nest in a cycle |
| I2cMuxDeadlock.DeadlockHasCycle | src/drivers/sdi_i2cmux_pin.c:95-118 | from any stuck state the waits give a cycle of directly nested groups |
| I2cMuxDeadlock.CycleDeadlocks | src/drivers/sdi_i2cmux_pin.c:95-118 | on a cycle of distinct groups, one thread for each reaches a state in which nobody can proceed |
| I2cMuxDeadlock.SticksAloneIff | src/drivers/sdi_i2cmux_pin.c:87-118 | a single thread can get stuck acquiring a bus if and only if two muxes of its route share a pin group |
| I2cMuxDeadlock.CrossingRoutesDeadlock | src/drivers/sdi_i2cmux_pin.c:87-118 | a family in which no route repeats a group and which can deadlock all the same |
| I2cMuxPin.RunsAreBounded | src/drivers/sdi_i2cmux_pin.c:80-186 | without new transactions a run is no longer than the work outstanding, so every transaction ends |
| I2cMuxPinDriver.MuxDriver.AcquireBus | src/drivers/sdi_i2cmux_pin.c:80-127 | the recursive code, with other threads running between its calls, makes only steps of the protocol; on failure the thread is back where it was, on success at the end of its plan |
| I2cMuxPinDriver.MuxDriver.ReleaseBus | src/drivers/sdi_i2cmux_pin.c:138-147 | release undoes exactly the steps of the bus released |
| I2cMuxPinDriver.MuxDriver.Execute | src/drivers/sdi_i2cmux_pin.c:175-186 | a transaction is handed from parent to parent to a host whose lock the thread owns, and it owns no other host's; the whole route to it is switched and meets no other user's |
| I2cMuxPinDriver.MuxDriver.ReadByte | src/drivers/sdi_i2cmux_pin.c:192-197 | acquire, execute, release through the operations table: the thread starts and ends idle |
| I2cMuxPca.StepKeepsInv | src/drivers/sdi_i2cmux_pca.c:68-127 | every step keeps: a selected chip is the lock holder's, with the holder's value, or left by a failed deselect |
| I2cMuxPca.SelectedChipsAreAccountedFor | src/drivers/sdi_i2cmux_pca.c:68-127 | in every run, with failures, a selected chip is the lock holder's with the holder's value or a stale one |
| I2cMuxPca.OnlyTheHolderSelects | src/drivers/sdi_i2cmux_pca.c:68-127 | in every run without a failed deselect, only the holder's chip is selected, with its value, and none while the lock is free |
| I2cMuxPca.FreeAndCleanIffNotStale | src/drivers/sdi_i2cmux_pca.c:114-127 | while the lock is free, all chips are deselected if and only if no failed deselect is outstanding |
| I2cMuxPca.FailedDeselectLeavesTwoChips | src/drivers/sdi_i2cmux_pca.c:120-126 | a concrete run with one failed deselect leaves two chips selected |
| I2cMuxPca.PcaDriver.AcquireBus | src/drivers/sdi_i2cmux_pca.c:68-100 | on success the lock is held and the chip shows the channel's select value as one byte; on failure the lock is not kept and the thread has changed no chip |
| I2cMuxPca.PcaDriver.ReleaseBus | src/drivers/sdi_i2cmux_pca.c:114-127 | the lock is given up and the chip is deselected, or recorded as stale |
| CpldPins.VisitsEachOnce | src/drivers/sdi_cpld_pin_group.c:311-388 | ascending or descending, the loops visit each register of the range exactly once |
| CpldPins.ReadLevelBit | src/drivers/sdi_cpld_pin_group.c:139-213 | what the read loop returns, bit by bit: the field from the start offset to the end offset of the last register of the little-endian concatenation (with inverted polarity, of an aligned field) |
| CpldPins.ReadLevelIsField | src/drivers/sdi_cpld_pin_group.c:139-213 | bit by bit on the registers: bit p of the level is bit (p + start offset) mod 8 of the register (p + start offset) div 8 steps from the start address, turned over for inverted polarity, and clear beyond the end offset |
| CpldPins.WriteLevelIsField | src/drivers/sdi_cpld_pin_group.c:311-388 | bit by bit on the registers: where each bit of a written value ends up, register by register |
| CpldPins.WriteIsFramedIff | src/drivers/sdi_cpld_pin_group.c:233-249 | a write changes no bit outside the field, whatever the registers held, if and only if polarity is inverted or the value has no surplus bits over the field |
| CpldPins.FittingHasNoSurplus | src/drivers/sdi_cpld_pin_group.c:334-372 | a value that fits the field width never spills |
| CpldPins.WriteFrame | src/drivers/sdi_cpld_pin_group.c:321-388 | registers outside the range and bits outside the field keep their values |
| CpldPins.WriteThenRead | src/drivers/sdi_cpld_pin_group.c:88-215 | for either direction and polarity and any number of registers, an aligned group reads back every fitting value written |
| CpldPins.RoundTripIffAligned | src/drivers/sdi_cpld_pin_group.c:178-379 | for the groups a 32-bit level can hold, at most four registers, the round trip holds of all contents and fitting values exactly for one register or start offset 0 |
| CpldPins.LevelFits | src/drivers/sdi_cpld_pin_group.c:139-213 | the level stays within 32 bits at every step of the read loop |
| CpldPins.EachReadsItsOwnLastWrite | src/drivers/sdi_cpld_pin_group.c:262-390 | over any sequence of writes to disjoint groups and pins, each reads its own last written level |
| CpldPins.PinIsGroup | src/drivers/sdi_cpld_pin.c:63-168 | writing and reading a pin is writing and reading its one-bit group |
| CpldPins.SetSubBitstreamBit | src/drivers/sdi_cpld_pin_group.c:233-249 | each bit of the merged word: the source's bits from the start on, the target's outside the window |
| CpldPins.MergedByteIsWritten | src/drivers/sdi_cpld_pin_group.c:334-372 | the driver's masks and shifts store exactly the byte specified bit by bit |
| CpldDriver.Cpld.GroupReadLevel | src/drivers/sdi_cpld_pin_group.c:88-215 | the read loop computes the level of `ReadLevelBit` within 32 bits, or reports a bus error |
| CpldDriver.Cpld.MergeRegister | src/drivers/sdi_cpld_pin_group.c:334-372 | each case of the write loop merges the right part of the level into one register |
| CpldDriver.Cpld.GroupWriteLevel | src/drivers/sdi_cpld_pin_group.c:262-390 | on success the whole field is written; a bus error leaves the registers before it written and the rest untouched |
| CpldDriver.Cpld.PinReadLevel | src/drivers/sdi_cpld_pin.c:63-100 | the pin's bit of its register, turned over for inverted polarity; the code is OK exactly when no bus call failed |
| CpldDriver.Cpld.PinWriteLevel | src/drivers/sdi_cpld_pin.c:115-168 | refused exactly for an input pin; on success the pin's bit of its register is the level, turned over for inverted polarity, and no other bit of the device differs; otherwise nothing changes |
| QsfpMemory.FlatWriteAt | src/drivers/sdi_qsfp_eeprom.c:2438-2528 | a flat write puts each byte where it was sent, in the page addressed, and changes nothing else |
| QsfpMemory.FlatWriteThenRead | src/drivers/sdi_qsfp_eeprom.c:2337-2528 | what was written at a page and offset is read back, and other pages' upper bytes are untouched |
| QsfpMemory.WriteMultiIsFlat | src/drivers/sdi_qsfp_eeprom.c:2496-2512 | a device write off the page-select byte is a flat write to the page selected |
| QsfpCalls.PageZeroIff | src/drivers/sdi_qsfp_eeprom.c:2416-2423 | exactly when a call keeps page 0 selected, by a condition on what a raw write sends to the select and status bytes |
| QsfpCalls.AlwaysPageZeroIff | src/drivers/sdi_qsfp_eeprom.c:2337-2528 | over any sequence of calls page 0 is selected at every point between them exactly when each call leaves it so |
| QsfpCalls.CallIsFlat | src/drivers/sdi_qsfp_eeprom.c:415-440 | refinement: with page 0 selected, every polite call does and answers on the paged device what it does on the flat map |
| QsfpCalls.InitSelectsPageZero | src/drivers/sdi_qsfp_eeprom.c:2746-2925 | initialising a paged module leaves page 0 selected whatever page it found |
| QsfpCalls.RunsAreFlat | src/drivers/sdi_qsfp_eeprom.c:1596-1729 | whole runs refine the flat map, so every parameter at an upper offset is read from page 00 |
| QsfpCalls.AfterInitParametersAreOfPageZero | src/drivers/sdi_qsfp_eeprom.c:1596-1729 | the same for every run after a successful initialisation |
| QsfpCalls.RawSelectMisroutesParameters | src/drivers/sdi_qsfp_eeprom.c:2557-2566 | one raw write to the page-select byte and the next parameter comes from another page |
| QsfpCalls.PowerByteBit | src/drivers/sdi_qsfp_eeprom.c:675-741 | forcing a power mode sets the override bit, the class bit to the mode and the power-set bit to its opposite, and keeps the other five |
| QsfpCalls.ForcePowerRegisters | src/drivers/sdi_qsfp_eeprom.c:675-741 | where bits 0 and 1 of page 00 offset 129 are not both clear, byte 93 gets bit 0 set, bit 2 set for high power and bit 1 for low; nothing else of the module changes but the selected page, which is 00 |
| QsfpCalls.DatapathRegisters | src/drivers/sdi_qsfp_eeprom.c:2838-2904 | from revision 0x20 on, 0xFF is written to byte 92, or for revision 0x30 to page 16 offset 128, and nothing else changes but the selected page, which is 00 |
| QsfpCalls.InitRegisters | src/drivers/sdi_qsfp_eeprom.c:2746-2925 | what initialisation does to each register, by identifier: nothing for an adapter, power-up of the data path for 0x18, low power for any other that is under software control |
| QsfpCalls.TxControlSetsOneChannel | src/drivers/sdi_qsfp_eeprom.c:1163-1304 | enabling a channel clears its bit of register 86 (84 on a double-density module) and disabling sets it; every other bit of that register and every other byte of the module stays |
| QsfpCalls.SubPortsDoNotDisturb | src/drivers/sdi_qsfp28_dd_eeprom.c:43-128 | over any sequence of tx-control calls on sub-ports with disjoint channels, the bit of a channel in register 84 is clear exactly when its own sub-port last enabled it |
| QsfpFaults.PagedOkIff | src/drivers/sdi_qsfp_eeprom.c:2390-2427 | under any failures, a call that selects a page says OK exactly when page 0 could be selected again, whatever became of the transfer |
| QsfpFaults.OkMeansPageZero | src/drivers/sdi_qsfp_eeprom.c:2416-2423 | so OK means that page 0 is selected, whatever failed |
| QsfpFaults.PagedReadOkIff | src/drivers/sdi_qsfp_eeprom.c:1936-1961 | the same for reads of a paged module, which besides change nothing but the selection |
| QsfpFaults.OkWithoutTransfer | src/drivers/sdi_qsfp_eeprom.c:2406-2423 | OK does not mean that the bytes were moved: on every paged module one failing call moves nothing and returns OK |
| QsfpFaults.FaultAfterTransfer | src/drivers/sdi_qsfp_eeprom.c:2406-2423 | and a failure does not mean that they were not |
| QsfpFaults.CleanWriteIsEffect | src/drivers/sdi_qsfp_eeprom.c:2438-2528 | without failures a paged write has the effect and the code of the specification |
| QsfpFaults.CleanReadIsEffect | src/drivers/sdi_qsfp_eeprom.c:2337-2428 | without failures a paged read moves all bytes and restores page 0, and a flat module is refused |
| QsfpDriver.QsfpModule.ModuleSelect | src/drivers/sdi_qsfp_eeprom.c:288-350 | all or nothing, and succeeds exactly when nothing is held and every call goes through: every configured pin group held at its level, or the locks as before |
| QsfpDriver.QsfpModule.ModuleDeselect | src/drivers/sdi_qsfp_eeprom.c:352-363 | every configured lock is given up |
| QsfpDriver.QsfpModule.PageSelect | src/drivers/sdi_qsfp_eeprom.c:415-440 | byte 127 of a paged module becomes the page and nothing else changes; a flat one (bit 2 of byte 2) is refused; the memory is left alone on any failure |
| QsfpDriver.QsfpModule.ReadSelected | src/drivers/sdi_qsfp_eeprom.c:2392-2423 | under any failures the code, the memory and the number of bytes moved are those of the specification with failures |
| QsfpDriver.QsfpModule.ReadGeneric | src/drivers/sdi_qsfp_eeprom.c:2337-2428 | ends with the locks it began with; with a page, code, memory and bytes are as specified under any failures; without failures the answer is that of the specification; another device address answers with its own bytes |
| QsfpDriver.QsfpModule.WriteGeneric | src/drivers/sdi_qsfp_eeprom.c:2438-2528 | ends with the locks it began with; code, memory and number of bytes are as specified under any failures, with a page or without; another device address gets exactly those bytes and no third device changes |
| QsfpDriver.QsfpModule.ThresholdGet | src/drivers/sdi_qsfp_eeprom.c:1889-1963 | locks balanced; code and memory as specified under any failures; without failures the two bytes of the page asked for, and page 0 selected again |
| QsfpDriver.QsfpModule.ParameterGet | src/drivers/sdi_qsfp_eeprom.c:1596-1729 | locks balanced; without failures the bytes of the page selected; for the cable length of a revision-3 module, whether the byte is a length code |
| QsfpDriver.QsfpModule.TxControl | src/drivers/sdi_qsfp_eeprom.c:1163-1239 | locks balanced; refused exactly for a channel above 3, or 7 on a double-density module; OK exactly where bit 4 of offset 195 says it is supported, and then the channel's bit of register 86 or 84 is clear for enabled and set for disabled and nothing else differs; any other code changes nothing |
| QsfpDriver.QsfpModule.TxControlStatusGet | src/drivers/sdi_qsfp_eeprom.c:1248-1304 | locks balanced; enabled exactly when the channel's bit of register 86 or 84 is clear; the same channels are refused |
| QsfpDriver.QsfpModule.MaxPowerGet | src/drivers/sdi_qsfp_eeprom.c:594-670 | the locks are kept if and only if the select succeeds and the read fails; the power and whether software controls it, from bits 7, 6, 1 and 0 of offset 129 |
| QsfpDriver.LeakStopsTheModule | src/drivers/sdi_qsfp_eeprom.c:623-629 | after one failing read in the power call no select of the module can succeed, if a pin group is configured |
| QsfpDriver.QsfpModule.ForcePowerMode | src/drivers/sdi_qsfp_eeprom.c:675-741 | locks balanced; without failures the power control bits are set, and the code is OK, exactly where power is under software control |
| QsfpDriver.QsfpModule.PowerUpDatapath | src/drivers/sdi_qsfp_eeprom.c:2838-2904 | powers up the data path of double-density modules of revision 2 or later and restores page 0 |
| QsfpDriver.QsfpModule.ModuleInit | src/drivers/sdi_qsfp_eeprom.c:2746-2925 | without failures it is recorded as an adapter exactly for identifiers 0x03 and 0x0b and as double density for 0x18, and the effect is that of the specification; the locks are kept if and only if the power read of a plain module leaks them |
| OnieEeprom.ImagesAreValid | src/drivers/sdi_onie_eeprom.c:75-120 | both validators accept every image of the reference encoder |
| OnieEeprom.WalkTail | src/drivers/sdi_onie_eeprom.c:387-389 | the steps over the CRC field and zero padding change nothing and stay in the buffer exactly while it lasts |
| OnieEeprom.WalkFields | src/drivers/sdi_onie_eeprom.c:336-390 | over any field list the walk applies each field once, in order, then takes as many extra steps as the first length and the number of fields say |
| OnieEeprom.EachMemberIsItsLastField | src/drivers/sdi_onie_eeprom.c:336-385 | after any field list each member read straight from a field comes from the last field of its own tag, cut and checked as a string, from no other field, and is unchanged if there is none |
| OnieEeprom.ExtensionComesFromVendorFields | src/drivers/sdi_onie_eeprom.c:373-376 | the other members come from the vendor extensions applied in order, and from nothing else |
| OnieEeprom.WalkOfImage | src/drivers/sdi_onie_eeprom.c:315-393 | on the image of any field list followed by zeros the walk gives exactly the fields applied in order, and leaves the buffer if and only if the zeros are fewer than the slack |
| OnieDriver.CopyBytesToString | src/drivers/sdi_onie_eeprom.c:49-64 | leaves in the buffer the printable text up to a NUL or the size, or the empty string if any character before that is unprintable; a printable value that fits comes whole |
| OnieDriver.PrintableTextIsWhole | src/drivers/sdi_onie_eeprom.c:49-64 | a value of characters 0x20 to 0x7e that fits comes whole |
| OnieDriver.TextStopsAtNul | src/drivers/sdi_onie_eeprom.c:49-64 | a NUL ends the text |
| OnieDriver.UnprintableTextIsEmpty | src/drivers/sdi_onie_eeprom.c:49-64 | a character outside 0x20 to 0x7e before the NUL and the size leaves nothing |
| OnieDriver.FillTlvEntityInfo | src/drivers/sdi_onie_eeprom.c:315-393 | the loop terminates and computes the walk |
| OnieDriver.DeviceRead | src/drivers/sdi_eeprom.c:104-190 | a read fills the buffer byte by byte, and one that fails leaves exactly what arrived before |
| OnieDriver.AcceptedIff | src/drivers/sdi_onie_eeprom.c:75-120 | byte by byte, what both validators ask: the identifier with its NUL, version 1, a big-endian length that fits, tag 0xfe with length 4 at its end, and a CRC equal to the big-endian word behind it |
| OnieDriver.CoveredArrived | src/drivers/sdi_onie_eeprom.c:75-101 | if what arrived is accepted, at most the four CRC bytes are missing: all that the CRC covers came from the ROM |
| OnieDriver.LoadedIff | src/drivers/sdi_onie_eeprom.c:450-462 | the whole image is then in the buffer if and only if the CRC bytes that did not arrive are zero in the ROM |
| OnieDriver.PartialReadIsAccepted | src/drivers/sdi_onie_eeprom.c:450-462 | a concrete buffer, ROM and CRC for which an incomplete read passes both validators |
| OnieDriver.AcceptedImageIsLoaded | src/drivers/sdi_onie_eeprom.c:404-493 | if the ROM holds the image of a field list, acceptance means that it is loaded, whatever broke off |
| OnieDriver.HeaderAloneFails | src/drivers/sdi_onie_eeprom.c:435-459 | if nothing arrived after a valid header, the checksum never passes |
| OnieDriver.ReadImage | src/drivers/sdi_onie_eeprom.c:424-456 | the header is checked before the second read; the buffer then holds what arrived of the ROM, and zeros |
| OnieDriver.DataGet | src/drivers/sdi_onie_eeprom.c:404-493 | success means that both validators passed and that all the CRC covers arrived, although the second read's code is dropped; the result is the walk, in which for fans and power supplies a maximal speed or number of fans of zero is replaced by the configured one and every other member stays; a bus error exactly when the header did not arrive |
| OnieDriver.DataGetOfImage | src/drivers/sdi_onie_eeprom.c:404-493 | end to end, whatever broke off: a ROM that holds an image gives the meaning of its fields once accepted, given the slack |
| CommMailbox.StoreTwo | src/drivers/sdi_comm_dev_driver.c:255-275 | two adjacent stores are both there and nothing else changed |
| CommMailbox.PreparedRegisters | src/drivers/sdi_comm_dev_driver.c:586-627 | before a write registers 0x7C90 and 0x7C91 are zero and bit 0 of 0x7C92 is set; every other bit is kept |
| CommMailbox.MailboxBytes | src/drivers/sdi_comm_dev_driver.c:230-282 | where the bytes go: checksum at 0x8500 and size at 0x8502, low byte first, payload from 0x8504; checksum, the two size bytes and the string with its NUL add up to zero in 16 bits |
| CommMailbox.AcceptsBytes | src/drivers/sdi_comm_dev_driver.c:155-204 | a reader accepts at a base address exactly at most 4100 bytes that add up to zero in 16 bits with the size and the checksum in front of them |
| CommMailbox.WriteIsFramed | src/drivers/sdi_comm_dev_driver.c:230-282 | a mailbox write changes only the header, the payload, the status register and the control register |
| CommMailbox.StaysInMailboxIff | src/drivers/sdi_comm_dev_driver.c:252-278 | among the lengths callers may pass, a write stays inside the northbound mailbox, whatever the memory held, if and only if header and payload fit its 4100 bytes |
| CommMailbox.ReaderRecovers | src/drivers/sdi_comm_dev_driver.c:155-282 | the reading algorithm accepts what was written and recovers the string with its NUL |
| CommMailbox.ReaderRecoversIff | src/drivers/sdi_comm_dev_driver.c:230-282 | the same holds whatever the memory held if and only if the length passed exceeds the string length |
| CommMailbox.SameChecksumIff | src/drivers/sdi_comm_dev_driver.c:209-225 | two payloads of one size have the same checksum exactly when their sums agree modulo 2^16 |
| CommMailbox.SingleByteChangeIsDetected | src/drivers/sdi_comm_dev_driver.c:155-176 | changing any one payload byte of an accepted message makes the reader reject it |
| CommDriver.CommDevice.RecvBytes | src/drivers/sdi_comm_dev_driver.c:47-67 | the auto-increment read fills the buffer with the registers in order |
| CommDriver.CommDevice.WriteBlocks | src/drivers/sdi_comm_dev_driver.c:115-147 | blocks of at most 16 bytes store exactly the data, or on failure a prefix of it |
| CommDriver.CommDevice.StatusCheckAndClear | src/drivers/sdi_comm_dev_driver.c:586-627 | clears the status register and requests a flush of the mailbox |
| CommDriver.CommDevice.SendMessage | src/drivers/sdi_comm_dev_driver.c:230-282 | without bus failure the memory is that of the mailbox write |
| CommDriver.CommDevice.CheckHeader | src/drivers/sdi_comm_dev_driver.c:155-176 | the 16-bit accumulation accepts exactly the payloads with the announced checksum |
| CommDriver.CommDevice.ReceiveMessage | src/drivers/sdi_comm_dev_driver.c:181-204 | without bus failure succeeds exactly when the message is acceptable, and returns it |
| Max6620.SpeedReadsBackClose | src/drivers/sdi_max6620.c:526-614 | every speed s in range programs a count t below the maximum whose speed s' satisfies s <= s' and (s' - s) t < s, and setting s' programs t again |
| Max6620.ReadsBackCloseIff | src/drivers/sdi_max6620.c:575-614 | through the eleven bits of the registers, a speed reads back close if and only if it is in range |
| Max6620.CountIsAntitone | src/drivers/sdi_max6620.c:595-604 | a faster speed never asks for a larger count |
| Max6620.CountIs | src/drivers/sdi_max6620.c:575-604 | the count is period * 491520 / (pulses * speed), and 2047 for a standstill |
| Max6620.SpeedIs | src/drivers/sdi_max6620.c:526-566 | the speed is period * 491520 / (pulses * count), 0 for count 2047 and none for count 0 |
| Max6620.OnlyZeroStops | src/drivers/sdi_max6620.c:595-604 | among zero and the speeds in range, only zero reads back as a standstill |
| Max6620.PeriodSuitsSpeed | src/drivers/sdi_max6620.c:200-237 | which speeds the chosen period puts in range with two pulses per revolution; half the maximum always is |
| Max6620.PeriodReachesMaximum | src/drivers/sdi_max6620.c:200-237 | the code is the least c with the maximum at most 500 * 2^c, and 5 without a maximum or above 16000 |
| Max6620.SlowRunsFast | src/drivers/sdi_max6620.c:590-604 | concrete failures: a slow speed programmed as a fast one, and a read-back above the maximum |
| Max6620.CountSurvivesTheRegisters | src/drivers/sdi_max6620.c:311-345 | packing and unpacking gives the low eleven bits, and the second register's low five bits survive |
| Max6620.TargetedRegisters | src/drivers/sdi_max6620.c:311-345 | setting a target leaves the count modulo 2048 as 8 times register 0x20 + 2f plus the top three bits of 0x21 + 2f, keeps the low five, and changes no other register |
| Max6620.EachFanKeepsItsTarget | src/drivers/sdi_max6620.c:311-345 | over any sequence of targets set for any fans, each fan's pair of registers holds the one last set for it |
| Max6620.LatchedIffUntold | src/drivers/sdi_max6620.c:623-680 | over any run with any failures, a fan's bit is latched exactly while some call saw it and no successful call has told of it since |
| Max6620.FaultyIffSeenSinceTold | src/drivers/sdi_max6620.c:645-648 | a status call reports a fault exactly when it was seen, by any fan's call, since that fan's last successful report |
| Max6620.NothingIsDropped | src/drivers/sdi_max6620.c:648-677 | failed calls and calls for other fans never drop a latched bit |
| Max6620Driver.Chip.TachCountPeriodSet | src/drivers/sdi_max6620.c:183-262 | the period is remembered even if the bus fails; on success its code is in the top three bits and nothing else changes |
| Max6620Driver.Chip.TargetTachCountSet | src/drivers/sdi_max6620.c:311-355 | registers 0x20 + 2f and 0x21 + 2f then hold the count's low eleven bits; every other bit of the chip, the other fans' registers among them, is untouched; failure changes nothing |
| Max6620Driver.Chip.SpeedGet | src/drivers/sdi_max6620.c:526-566 | the speed of the count in the registers; a zero count leaves the caller's value alone |
| Max6620Driver.Chip.SpeedSet | src/drivers/sdi_max6620.c:575-614 | refused exactly above the maximum; on success registers 0x20 + 2f and 0x21 + 2f hold a count that reads back close for a speed in range; no other register, and no other fan's, changes |
| Max6620Driver.Chip.StatusGet | src/drivers/sdi_max6620.c:623-680 | changes no register whatever fails, and reports a fault exactly when one was seen and not yet told |
| FanSpeedMap.Psu.constructor | src/drivers/sdi_s6k_psu.c:88-150 | the lists hold exactly the usable maps and entries of the configuration, last first; which they are on the nodes' own attributes is `MapsAre` and `EntriesAre` |
| FanSpeedMap.Psu.ReadSpeeds | src/drivers/sdi_s6k_psu.c:118-149 | the entry list of one map is the reverse of the usable entries |
| FanSpeedMap.EntriesAre | src/drivers/sdi_s6k_psu.c:118-149 | on the nodes' attributes: the entries are exactly the nodes with tag "speed" and both attributes, each once and in order, speed from the rpm attribute and percentage from the percent attribute |
| FanSpeedMap.MapsAre | src/drivers/sdi_s6k_psu.c:88-150 | on the nodes' attributes: the maps are exactly the nodes with tag "fan" whose ppid compiles, each once and in order |
| FanSpeedMap.SingleEntryAnswers | src/drivers/sdi_pmbus_dev.c:282-383 | end to end: configured with one map and one entry of speed r and percentage p, every speed is p percent and every percentage r RPM |
| FanSpeedMap.Psu.FindMap | src/drivers/sdi_pmbus_dev.c:297-300 | finds the last configured map whose pattern matches, if any |
| FanSpeedMap.FindNearest | src/drivers/sdi_pmbus_dev.c:305-312 | the loop finds the first entry of the list at the least distance |
| FanSpeedMap.Psu.RpmToPct | src/drivers/sdi_pmbus_dev.c:282-334 | answers from the nearest entry, the last configured at the least distance and the only such, of the last configured matching map, or from the maximal speed |
| FanSpeedMap.Psu.PctToRpm | src/drivers/sdi_pmbus_dev.c:336-383 | the same by percentage |
| FanSpeedMap.NearestRises | src/drivers/sdi_pmbus_dev.c:305-312 | going up in the values looked for never goes down in the values found, ties included |
| FanSpeedMap.NearestOfListed | src/drivers/sdi_pmbus_dev.c:305-312 | looking up a listed value finds its last listing |
| FanSpeedMap.LookupRisesIff | src/drivers/sdi_pmbus_dev.c:287-334 | RPM-to-percent is monotone over all speeds exactly when it is over the entries no later entry overrides |
| FanSpeedMap.IncreasingMaps | src/drivers/sdi_pmbus_dev.c:287-383 | in strictly increasing maps RPM-to-percent is monotone and the two look-ups are inverse on the listed values |
| FanSpeedMap.PlainRoundTripIff | src/drivers/sdi_pmbus_dev.c:324-380 | without a map, a percentage survives the trip through a speed exactly when the gain from the remainder stays below the divisor |
| BmcPollers.BmcDevice.GetPollerForSensor | src/drivers/sdi_bmc_dev.c:138-150 | the first poller of that name, if any |
| BmcPollers.BmcDevice.PopulateDevList | src/drivers/sdi_bmc_dev.c:157-246 | every fan node without a status attribute whose child asks for a sensor has its command in the poller of that name, and the pollers have as many commands as there are such nodes; no nodes leave the list alone |
| BmcPollers.RequestsAre | src/drivers/sdi_bmc_dev.c:201-213 | the requests are exactly the children of the nodes with tag "fan", no status attribute and a child, each once and in configuration order |
| BmcPollers.AskersArePolled | src/drivers/sdi_bmc_dev.c:201-246 | on the nodes' own attributes: each asking node's command is in the poller of its name as stored, and there are as many commands as asking nodes |
| BmcPollers.CountsAddUp | src/drivers/sdi_bmc_dev.c:221-237 | however names are cut, the commands of all pollers are as many as the fans asking |
| BmcPollers.EveryNameIsPolled | src/drivers/sdi_bmc_dev.c:221-234 | every name asked for, as stored, has a poller |
| BmcPollers.CommandIsPolled | src/drivers/sdi_bmc_dev.c:221-243 | every request's command is in a poller of its name cut to 63 characters |
| BmcPollers.GroupsIff | src/drivers/sdi_bmc_dev.c:213-246 | the list is the stable grouping by stored name (distinct names in order of first appearance, each poller with exactly its fans' commands in order and the first one's bit) if and only if no over-long name is cut to one already there |
| BmcPollers.FittingNamesGroup | src/drivers/sdi_bmc_dev.c:213-246 | where every name fits the buffer, the grouping is by name |
| BmcPollers.LongNameIsPolledTwice | src/drivers/sdi_bmc_dev.c:221-234 | two fans naming one sensor by 64 characters or more get two pollers of the same name |

## Left out

- QsfpCalls.CallIsFlat: raw writes that touch byte 2 or byte 127, and paged reads over byte 127, are excluded; `PageZeroIff` says what such writes do to the selected page, and the paged device answers byte 127 with the page selected, which the flat map does not know.
- CpldPins.ReadLevelBit: leaves out, for inverted polarity with a start offset over several registers, the bits taken from the first register; `RoundTripIffAligned` shows that such a group does not round-trip.
- CpldPins.RoundTripIffAligned: groups of more than four registers are left out: the driver would shift its 32-bit level by 32 bits or more, which C does not define.
- Max6620.ReadsBackCloseIff: assumes that the products with the pulse count fit 32 bits; `SpeedReadsBackClose`, the half that matters in use, needs no such assumption.
- OnieEeprom.WalkOfImage: a walk that would leave the buffer is one outcome, `Overrun`; what the C code finds there is not modelled, and a known field whose value would leave the buffer counts as such even where the code copies less of it.
- QsfpDriver.QsfpModule.ThresholdGet: the conversion of the two bytes to a value is left out.
- QsfpDriver.QsfpModule.ParameterGet: the conversion of the bytes to a value, by unit or length code, is left out.
- QsfpDriver.QsfpModule.ModuleSelect: the locks are those of one module; that two modules sharing a mux pin group exclude each other is not stated.
- OnieDriver.DeviceRead: the ROM is what the device answers at each offset; that the driver sends only eight bits of an offset to a device of 8192 bytes is not modelled.
- CommDriver.CommDevice.WriteBlocks: the sleeps between blocks are not modelled.
- CommDriver.CommDevice.RecvBytes: the code of the byte loop is that of its last read, as in the source, so nothing is promised about the data after a failure.
- FanSpeedMap.Psu.RpmToPct: pattern compilation and matching are parameters, allocation does not fail, and the maximal speed is 0 or at least 100, without which the C code divides by zero.
- BmcPollers.BmcDevice.PopulateDevList: optional command attributes absent from the configuration are undefined memory in the source and plain values here; the sensor location is not modelled.
- QSFP page numbers and offsets are cut to a byte, as the register writes cut them; the status read that decides about paging happens before the module is selected (sdi_qsfp_eeprom.c:2379), so its answer is a parameter.
- QSFP unit conversions, vendor strings, monitors, CDR, rate selection, wavelength and PHY calls: they read a byte or a word between the same select and deselect.
- Modules in an adapter are handed to the SFP driver, which is not part of this model; a call on one answers `ToSfp`.
- A freed module record on removal, and the allocation of the SFP device, are left out of `ModuleInit`.
- ONIE vendor-extension tokens: their meaning is a parameter of the walk, and so is CRC-32; the copy of the system part number kept for other drivers is left out.
- The MAX6620 initial speed from the drive voltage, the full-speed-on-failure bit and the clearing of fault masks: single register writes.
- The PCA driver does not hold its parent bus between select and deselect, so only channel selection is claimed there, not routing.
- Mutex and pin-group calls into the framework may fail for no modelled reason; their own implementation is not part of this model.
- The standard bit macros (`STD_BIT_SET` and its like) are taken to set, clear and test one bit.
- Registration from configuration files, resource tables, logging and delays, and the permission check on the resource type.
- Polled mailbox of the media extension modules (sdi_media_ext_mod_ctrl.c), the OpenIPMI threads, and drivers that read one register and scale it.
