# Basic keyboard report engine and config write, modelled in Dafny

This project models the USB basic-keyboard interface of the right-half
firmware (`usb_interface_basic_keyboard.c` and its header) and the generic
HID command `UsbCommand_WriteConfig`. It proves properties of the model.

- **The packed report** (`report_layout.dfy`, module `ReportLayout`). A
  report is one run of bytes: byte 0 holds the modifiers and byte 1 is
  reserved. The payload after them is a union. Boot protocol reads it as six
  scancode slots; report protocol reads it as a bitfield with one bit per
  key. Both views are offsets into the same bytes. The `test_bit`, `set_bit`
  and `clear_bit` helpers and the two range macros are modelled here.
- **The scancode codec** (`scancode_codec.dfy`, module `ScancodeCodec`).
  Add, remove, contains, merge and the rollover stamp are written as
  functions on report contents. The lemmas state what they do in each
  protocol.
- **The interface state** (`usb_basic_keyboard.dfy`, module
  `UsbBasicKeyboard`). Class `BasicKeyboard` holds:
  - the double buffer of two report arrays;
  - the flag saying which report is active;
  - the 32-bit action counter;
  - the latched protocol.

  Its methods are the transmit step `Action`, the HID event dispatcher
  `Callback`, `SetConfiguration`, and the codec acting in place on a report
  array. Each in-place method is proved against the matching codec function.
  The class invariant `Valid` says the first report is active exactly when
  the counter is even. Every step that changes state preserves it, including
  the counter's wrap-around.
- **Config write** (`usb_command_write_config.dfy`, module
  `UsbCommandWriteConfig`). The in-buffer carries a length byte, a
  little-endian offset and the data. The command checks the length first,
  then the bounds, then copies the data into the hardware buffer or into the
  staging user buffer. `Decide` names the three outcomes, and `WriteConfig`
  is proved to write exactly what the outcome calls for.

The header's constants are not part of this model, so their values are
assumptions: six boot keys, bitfield codes 0x04..0xDD in 28 bytes, modifier
codes 0xE0..0xE7, ErrorRollOver 0x01. The values were chosen to satisfy the
facts that `ReportLayout.ConstantsAgree` collects, and
`ReportLayout.ConstantsHold` proves that they do:
- the bitfield range fits in the bitfield, and the modifier range in one byte;
- the two ranges are disjoint;
- the payload is longer than the six slots.

The other proofs work on the concrete values; they are meant to depend on
nothing beyond these facts, but Dafny does not check that.

Behaviour of the code worth knowing:
- **Set-Configuration event.** It only answers Success. The switch to report
  protocol happens in `UsbBasicKeyboardSetConfiguration`, which sets the
  protocol to 1 and returns Error.
- **Set-Protocol.** It stores the value in the HID handle, not in the codec's
  protocol. The codec sees the change only when `Action` re-latches it. The
  16-bit parameter is cut to its low byte before the `<= 1` test.
- **Initial protocol.** The latched protocol starts at 0 (boot), because the
  global is zero-initialised. Section 7.2.6 of the HID 1.11 specification has
  a device start in report protocol; here that happens only once
  `UsbBasicKeyboardSetConfiguration` runs.
- **Merge cursor.** `MergeReports` reads `*idx` without a NULL check, but
  only inside the boot-protocol loop. A NULL idx is therefore safe in report
  protocol, and in boot protocol when source slot 0 is empty; the model takes
  the cursor as an option and admits exactly those NULL calls.
- **Rollover guard.** It looks only at slot 0. When the first key already
  held is ErrorRollOver itself, a seventh key changes nothing
  (`ScancodeCodec.SeventhKeyRollsOver`).
- **Boot merge loop bound.** The loop stops only at a zero source byte and
  never checks its index against six. The cursor stops it at index 6, which
  is the seventh payload byte, a bitfield byte of the union. So when all six
  source slots are full, that byte decides between an append and a rollover
  (`ScancodeCodec.MergeConsultsPayloadByteSix`). The model reads it as the
  code does.
- **Parameter order of `MergeReports`.** The header prototype names the
  parameters in the reverse order. The model follows the definition: target
  first, then source.
- **Interface reset.** Neither Set-Interface nor Set-Configuration clears the
  active report.

## Model

| member | source | states |
|---|---|---|
| ReportLayout.ConstantsHold | right/src/usb_interfaces/usb_interface_basic_keyboard.h:33-40 | The assumed constants fit the report. The bitfield range fits in BitfieldLength*8 bits and the modifier range in one byte. The ranges are disjoint. The payload is longer than the six slots. The boot report is the two header bytes plus six slots. Both bit arrays lie inside the report and never reach the reserved byte. |
| ReportLayout.RangesInclusive | right/src/usb_interfaces/usb_interface_basic_keyboard.h:22-23 | Both range tests are inclusive: each accepts its MIN and MAX and rejects MIN-1 and MAX+1. No code is in both ranges. |
| ReportLayout.ScancodeView | right/src/usb_interfaces/usb_interface_basic_keyboard.h:36-37 | The boot view has six slots, and slot i is payload byte i. |
| ReportLayout.BitfieldView | right/src/usb_interfaces/usb_interface_basic_keyboard.h:38 | The report view has BitfieldLength bytes. |
| ReportLayout.ViewsOverlap | right/src/usb_interfaces/usb_interface_basic_keyboard.h:33-40 | The six scancode slots are the first six bytes of the bitfield. |
| ReportLayout.IsInBitfield | right/src/usb_interfaces/usb_interface_basic_keyboard.h:22 | An inclusive range test. Its meaning is stated by `RangesInclusive` and `ReportBitPositions`. |
| ReportLayout.IsInModifiers | right/src/usb_interfaces/usb_interface_basic_keyboard.h:23 | An inclusive range test. Its meaning is stated by `RangesInclusive` and `ReportBitPositions`. |
| ReportLayout.TestBit | right/src/usb_interfaces/usb_interface_basic_keyboard.h:65-69 | test_bit. What it reports after set_bit, clear_bit and an or is stated by `SetBitExact`, `SetBitKeepsOthers`, `ClearBitExact`, `ClearBitKeepsOthers` and `TestBitOfOr`. |
| ReportLayout.SetBit | right/src/usb_interfaces/usb_interface_basic_keyboard.h:70-74 | The array afterwards is the old contents with bit nr&7 of byte nr>>3 or-ed in. |
| ReportLayout.ClearBit | right/src/usb_interfaces/usb_interface_basic_keyboard.h:75-79 | The array afterwards is the old contents with bit nr&7 of byte nr>>3 cleared. |
| ReportLayout.SetBitExact | right/src/usb_interfaces/usb_interface_basic_keyboard.h:65-74 | After set_bit, test_bit of the same nr is true. The length and every byte other than nr>>3 are unchanged. |
| ReportLayout.SetBitKeepsOthers | right/src/usb_interfaces/usb_interface_basic_keyboard.h:65-74 | set_bit leaves test_bit of every other bit of the array as it was, including the other bits of the same byte. |
| ReportLayout.ClearBitExact | right/src/usb_interfaces/usb_interface_basic_keyboard.h:65-79 | After clear_bit, test_bit of the same nr is false. The length and every byte other than nr>>3 are unchanged. |
| ReportLayout.ClearBitKeepsOthers | right/src/usb_interfaces/usb_interface_basic_keyboard.h:65-79 | clear_bit leaves test_bit of every other bit of the array as it was. |
| ReportLayout.SetClearAlgebra | right/src/usb_interfaces/usb_interface_basic_keyboard.h:70-79 | set_bit twice equals set_bit once, and likewise clear_bit. set_bit after clear_bit equals set_bit alone, whatever the bit was. clear_bit after set_bit equals clear_bit alone. |
| ReportLayout.TestBitOfOr | right/src/usb_interfaces/usb_interface_basic_keyboard.h:65-69 | In a byte that is the or of two bytes, a bit tests set iff it is set in either of them. |
| ScancodeCodec.FindSlot | right/src/usb_interfaces/usb_interface_basic_keyboard.c:191-196 | The slot search returns the first slot at or after the start that holds the value, or none when no such slot exists. |
| ScancodeCodec.Rollover | right/src/usb_interfaces/usb_interface_basic_keyboard.c:156-161 | Rollover changes nothing outside the six scancode slots. |
| ScancodeCodec.RolloverEffect | right/src/usb_interfaces/usb_interface_basic_keyboard.c:156-161 | If slot 0 does not hold ErrorRollOver, all six slots get it. Otherwise the report is unchanged. Rollover is idempotent. |
| ScancodeCodec.CodeBit | right/src/usb_interfaces/usb_interface_basic_keyboard.c:181-185 | A code has a bit iff it is in the bitfield range or the modifier range; the bitfield range is tried first. The bit lies inside the report and never in the reserved byte. |
| ScancodeCodec.CodeBitsApart | right/src/usb_interfaces/usb_interface_basic_keyboard.c:181-185 | Two different codes that both have a bit have different bits. |
| ScancodeCodec.ReportBitPositions | right/src/usb_interfaces/usb_interface_basic_keyboard.c:213-218 | Under report protocol, a bitfield code is contained iff bit `code - MIN_BITFIELD` of the bitfield is set, and a modifier code iff bit `code - MIN_MODIFIERS` of the modifier byte is set. Any other code is never contained. |
| ScancodeCodec.ReportWirePositions | right/src/usb_interfaces/usb_interface_basic_keyboard.c:181-185 | The ends of both ranges on the wire. The lowest bitfield code is bit 0 of report byte 2 and the highest is bit 1 of byte 29. LeftControl is bit 0 of the modifier byte and RightGUI is bit 7. |
| ScancodeCodec.KeyBitsApart | right/src/usb_interfaces/usb_interface_basic_keyboard.c:181-185 | Two different scancode bytes that both have a bit have different bits. |
| ScancodeCodec.BootAdd | right/src/usb_interfaces/usb_interface_basic_keyboard.c:165-180 | The boot-protocol add. Its cases are stated by `BootAddCases`, and its effect on contains by `BootAddThenContains`, `AddAllFillsInOrder` and `SeventhKeyRollsOver`. |
| ScancodeCodec.ReportAdd | right/src/usb_interfaces/usb_interface_basic_keyboard.c:181-185 | The report-protocol add. Its effect is stated by `ReportAddExact`. |
| ScancodeCodec.Add | right/src/usb_interfaces/usb_interface_basic_keyboard.c:163-186 | The add, dispatched on the protocol. Its result is a report, and it never changes the reserved byte (`ReservedByteKept`). |
| ScancodeCodec.BootRemove | right/src/usb_interfaces/usb_interface_basic_keyboard.c:190-196 | The boot-protocol remove. Its effect is stated by `BootRemoveThenContains` and `BootRemoveZero`. |
| ScancodeCodec.ReportRemove | right/src/usb_interfaces/usb_interface_basic_keyboard.c:197-201 | The report-protocol remove. Its effect is stated by `ReportRemoveExact`. |
| ScancodeCodec.Remove | right/src/usb_interfaces/usb_interface_basic_keyboard.c:188-202 | The remove, dispatched on the protocol. Its result is a report, and it never changes the reserved byte (`ReservedByteKept`). |
| ScancodeCodec.BootContains | right/src/usb_interfaces/usb_interface_basic_keyboard.c:206-212 | True iff some slot holds the scancode (`BasicKeyboard.ContainsScancode` states this). |
| ScancodeCodec.ReportContains | right/src/usb_interfaces/usb_interface_basic_keyboard.c:213-219 | The bit test of the scancode's bit. Which bit that is, is stated by `ReportBitPositions`. |
| ScancodeCodec.Contains | right/src/usb_interfaces/usb_interface_basic_keyboard.c:204-220 | The contains, dispatched on the protocol. It is computed in place by `BasicKeyboard.ContainsScancode`. |
| ScancodeCodec.BootMergeFrom | right/src/usb_interfaces/usb_interface_basic_keyboard.c:226-233 | The merge loop from source index i. It changes nothing outside the six slots, and that is proved by recursion. What it does to the slots is stated by `MergeFromAppends` and `MergeFromOverflows`. |
| ScancodeCodec.BootMerge | right/src/usb_interfaces/usb_interface_basic_keyboard.c:224-233 | The boot-protocol merge. Its effect is stated by `BootMergeAppends`, `BootMergeOverflows` and `MergeConsultsPayloadByteSix`. |
| ScancodeCodec.ReportMerge | right/src/usb_interfaces/usb_interface_basic_keyboard.c:234-239 | The report-protocol merge. Its effect is stated by `ReportMergeUnion` and `MergeBit`. |
| ScancodeCodec.Merge | right/src/usb_interfaces/usb_interface_basic_keyboard.c:222-240 | The merge, dispatched on the protocol. Its result is a report, and it never changes the reserved byte (`ReservedByteKept`). |
| ScancodeCodec.BootAddCases | right/src/usb_interfaces/usb_interface_basic_keyboard.c:165-180 | Boot add has three cases. A cursor below 6 writes at the cursor and advances it. Without a cursor, the key goes into the first empty slot. With a cursor at 6 or more, or no empty slot, rollover is applied and the cursor is unchanged. |
| ScancodeCodec.BootAddThenContains | right/src/usb_interfaces/usb_interface_basic_keyboard.c:163-180 | A boot add that does not roll over leaves the scancode contained. |
| ScancodeCodec.BootRemoveThenContains | right/src/usb_interfaces/usb_interface_basic_keyboard.c:190-196 | Boot remove zeroes only the first matching slot. A non-zero scancode is still contained afterwards iff it occupied two or more slots. |
| ScancodeCodec.BootRemoveZero | right/src/usb_interfaces/usb_interface_basic_keyboard.c:190-196 | Removing scancode 0 leaves a boot report unchanged. |
| ScancodeCodec.FirstEmptySlot | right/src/usb_interfaces/usb_interface_basic_keyboard.c:172-177 | The search for an empty slot stops at the first zero slot. |
| ScancodeCodec.FillSlot | right/src/usb_interfaces/usb_interface_basic_keyboard.c:171-178 | When the first n slots are taken and the rest are empty, an add without a cursor writes slot n and changes no other slot. |
| ScancodeCodec.AddAllFillsInOrder | right/src/usb_interfaces/usb_interface_basic_keyboard.c:171-178 | Up to six non-zero keys added to an empty boot report without a cursor fill slots 0.. in order. The other slots stay empty and bytes outside the slots are unchanged. |
| ScancodeCodec.SeventhKeyRollsOver | right/src/usb_interfaces/usb_interface_basic_keyboard.c:163-180 | A seventh key added to six held keys makes all six slots ErrorRollOver. The exception is a first key that is ErrorRollOver itself: then the seventh add changes nothing and the six keys stay. |
| ScancodeCodec.ReportAddExact | right/src/usb_interfaces/usb_interface_basic_keyboard.c:181-185 | Report add makes Contains true for a scancode that has a bit, and leaves Contains of every other scancode unchanged. A scancode outside both ranges leaves the report unchanged and is never contained. |
| ScancodeCodec.ReportRemoveExact | right/src/usb_interfaces/usb_interface_basic_keyboard.c:197-201 | After report remove, Contains is false for the scancode. Contains of every other scancode is unchanged. A scancode outside both ranges leaves the report unchanged. |
| ScancodeCodec.MergeFromAppends | right/src/usb_interfaces/usb_interface_basic_keyboard.c:226-233 | From any point of the merge loop, a non-zero run that ends in a zero and fits after the cursor is copied slot by slot, and the cursor advances by its length. |
| ScancodeCodec.MergeFromOverflows | right/src/usb_interfaces/usb_interface_basic_keyboard.c:226-233 | From any point of the merge loop, a non-zero run longer than the room left fills the room, then applies rollover and stops. |
| ScancodeCodec.PlacedStep | right/src/usb_interfaces/usb_interface_basic_keyboard.c:228 | Copying one more source slot to the cursor extends the copied run by one. |
| ScancodeCodec.PlacedContents | right/src/usb_interfaces/usb_interface_basic_keyboard.c:226-233 | After n slots are copied from the cursor on, those slots hold the source's first n slots and every other byte holds the target's. |
| ScancodeCodec.BootMergeAppends | right/src/usb_interfaces/usb_interface_basic_keyboard.c:224-233 | Boot merge without overflow ors the modifier bytes and copies the source's non-zero prefix to the slots from the cursor on. The cursor advances by the prefix length and every other byte is unchanged. An empty source only ors the modifier bytes, whatever the cursor. |
| ScancodeCodec.BootMergeOverflows | right/src/usb_interfaces/usb_interface_basic_keyboard.c:224-233 | Boot merge with a source prefix longer than the room fills the room. It then applies rollover and stops, and the remaining source codes are not processed. |
| ScancodeCodec.MergeConsultsPayloadByteSix | right/src/usb_interfaces/usb_interface_basic_keyboard.c:226 | With all six source slots non-zero and the cursor at 0, payload byte 6 decides the result. If it is zero the six codes are copied; otherwise the result is rollover. |
| ScancodeCodec.ReportMergeUnion | right/src/usb_interfaces/usb_interface_basic_keyboard.c:234-239 | After a report-protocol merge, a key is contained iff either report contained it. |
| ScancodeCodec.MergeBit | right/src/usb_interfaces/usb_interface_basic_keyboard.c:235-238 | Each bit of the modifier byte or of the bitfield after the merge is the or of that bit in the two reports. |
| ScancodeCodec.ReservedByteKept | right/src/usb_interfaces/usb_interface_basic_keyboard.c:163-240 | Add, remove and merge never change the reserved byte, in either protocol. |
| UsbBasicKeyboard.Inc32 | right/src/usb_interfaces/usb_interface_basic_keyboard.c:46 | The uint32 increment wraps modulo 2^32 and always flips the counter's parity. |
| UsbBasicKeyboard.SendLength | right/src/usb_interfaces/usb_interface_basic_keyboard.c:40 | Boot protocol sends the 8-byte boot report, and any other protocol sends the whole report of ReportLength bytes. |
| UsbBasicKeyboard.BasicKeyboard.constructor | right/src/usb_interfaces/usb_interface_basic_keyboard.c:8-12 | Both reports start zeroed. The first report is active, the counter and the latched protocol are 0, and the invariant holds. |
| UsbBasicKeyboard.BasicKeyboard.Active | right/src/usb_interfaces/usb_interface_basic_keyboard.c:12 | The active report is one of the two reports, and it is the first exactly when the flag says so. |
| UsbBasicKeyboard.BasicKeyboard.Inactive | right/src/usb_interfaces/usb_interface_basic_keyboard.c:14-17 | The inactive report is always the one that is not active. |
| UsbBasicKeyboard.BasicKeyboard.Switch | right/src/usb_interfaces/usb_interface_basic_keyboard.c:19-22 | A switch flips which report is active: the old inactive report becomes active, and the other way round. |
| UsbBasicKeyboard.BasicKeyboard.SwitchTwice | right/src/usb_interfaces/usb_interface_basic_keyboard.c:19-22 | Two switches restore the original active report. |
| UsbBasicKeyboard.BasicKeyboard.ResetActiveReport | right/src/usb_interfaces/usb_interface_basic_keyboard.c:24-27 | Every byte of the active report becomes zero and the inactive report is unchanged. |
| UsbBasicKeyboard.BasicKeyboard.CheckReportReady | right/src/usb_interfaces/usb_interface_basic_keyboard.c:61-67 | The answer is Success iff the two reports differ in some byte; otherwise it is Busy. |
| UsbBasicKeyboard.BasicKeyboard.Action | right/src/usb_interfaces/usb_interface_basic_keyboard.c:34-54 | Detached, it returns Error and changes nothing: nothing is sent, the counter and the active report stay, and the protocol is not re-latched. Attached, it sends the boot length or the full length of the active report, per the protocol, and returns the send status. The counter is incremented and the reports swapped only when the send succeeds. The protocol is always re-latched from the handle, and the invariant is kept. |
| UsbBasicKeyboard.BasicKeyboard.Callback | right/src/usb_interfaces/usb_interface_basic_keyboard.c:69-143 | The result for each event is stated in full, as are the outcomes it can never have. Set-Configuration answers Success. Set-Interface succeeds iff the alternate setting is 0. Send-Response succeeds iff the device is attached. Get_Report (Input, id 0, length within the report) hands out the active report, increments the counter and swaps; any other Get_Report answers InvalidRequest and changes nothing. Set_Report (Output, id 0, one byte) yields the Caps Lock bit. Request-Report-Buffer succeeds iff the length fits the out-buffer, and answers AllocFail otherwise. Set-Protocol stores the low byte of its value in the handle iff that byte is at most 1. Other events answer InvalidRequest. The latched protocol never changes here. |
| UsbBasicKeyboard.BasicKeyboard.SetConfiguration | right/src/usb_interfaces/usb_interface_basic_keyboard.c:145-149 | The latched protocol becomes 1 (report) and the status is Error. |
| UsbBasicKeyboard.BasicKeyboard.AddScancode | right/src/usb_interfaces/usb_interface_basic_keyboard.c:163-186 | The report array and cursor afterwards are exactly the codec's add under the latched protocol. |
| UsbBasicKeyboard.BasicKeyboard.RemoveScancode | right/src/usb_interfaces/usb_interface_basic_keyboard.c:188-202 | The report array afterwards is exactly the codec's remove under the latched protocol. |
| UsbBasicKeyboard.BasicKeyboard.ContainsScancode | right/src/usb_interfaces/usb_interface_basic_keyboard.c:204-220 | The answer is the codec's contains. In boot protocol it is true iff some slot holds the scancode. |
| UsbBasicKeyboard.BasicKeyboard.MergeReports | right/src/usb_interfaces/usb_interface_basic_keyboard.c:222-240 | With a cursor, the target array and cursor afterwards are exactly the codec's merge under the latched protocol. Without one (a NULL idx, allowed in report protocol or when source slot 0 is empty), the target is the codec's merged report and the cursor stays absent; in boot protocol only the modifier byte changes. |
| UsbBasicKeyboard.SetRolloverError | right/src/usb_interfaces/usb_interface_basic_keyboard.c:156-161 | The report array afterwards is the rollover of its old contents. |
| UsbBasicKeyboard.BootMergeInPlace | right/src/usb_interfaces/usb_interface_basic_keyboard.c:224-233 | The target array and cursor afterwards are the boot merge of the old target with the source. |
| UsbBasicKeyboard.AppendKeys | right/src/usb_interfaces/usb_interface_basic_keyboard.c:226-233 | The merge loop leaves the target and cursor that the boot merge from index 0 describes. |
| UsbBasicKeyboard.ReportMergeInPlace | right/src/usb_interfaces/usb_interface_basic_keyboard.c:234-239 | The target array afterwards is the pairwise or of the modifier byte and of every bitfield byte, with the reserved byte kept. |
| UsbCommandWriteConfig.ReadUint16 | right/src/usb_commands/usb_command_write_config.c:9 | The offset read is below 2^16. Its low byte is the first buffer byte and its high byte the second. |
| UsbCommandWriteConfig.LengthOf | right/src/usb_commands/usb_command_write_config.c:8 | The length is in-buffer byte 1, so it is below 256. |
| UsbCommandWriteConfig.OffsetOf | right/src/usb_commands/usb_command_write_config.c:9 | The offset is below 2^16. Its low byte is in-buffer byte 2 and its high byte is byte 3. |
| UsbCommandWriteConfig.OutcomeOf | right/src/usb_commands/usb_command_write_config.c:8-22 | The outcome of the checks for this in-buffer. What each outcome means is stated by `Decide`. |
| UsbCommandWriteConfig.Decide | right/src/usb_commands/usb_command_write_config.c:11-22 | LengthTooLarge iff the length exceeds the buffer length minus 4, so the length check comes first. BufferOutOfBounds iff the length is acceptable but offset+length exceeds the chosen size. A write is in bounds, and ending exactly at the buffer's end is accepted. |
| UsbCommandWriteConfig.StatusOf | right/src/usb_commands/usb_command_write_config.c:11-22 | Each rejection leaves a non-zero status, and the two rejections leave different ones. |
| UsbCommandWriteConfig.CopiedAt | right/src/usb_commands/usb_command_write_config.c:24 | After the copy, buffer[offset+j] is data[j] and every byte outside the copied range is unchanged. |
| UsbCommandWriteConfig.DataOf | right/src/usb_commands/usb_command_write_config.c:24 | The data copied are exactly `length` bytes. |
| UsbCommandWriteConfig.WriteConfig | right/src/usb_commands/usb_command_write_config.c:6-25 | On a rejection, out-buffer byte 0 gets the status and neither configuration buffer changes. On success, the out-buffer is left alone and the chosen buffer gets in-buffer bytes 4..4+length at the offset. The buffer that was not chosen is never touched. |
| UsbCommandWriteConfig.Copy | right/src/usb_commands/usb_command_write_config.c:24 | memcpy puts the source range at the destination offset and leaves the rest of the destination unchanged. |

## Left out

- USB_DeviceHidSend and the device stack: the send's status is an input of `Action`, and the bytes it would send are returned as `sent`.
- LedDisplay_SetIcon: the Caps Lock state Set_Report passes to the display is returned as the `CapsLockIcon` reply. The display is not modelled.
- The UsbReportUpdateSemaphore update in Send-Response, and the interrupt/thread race that the protocol latch guards against: events are modelled as running one at a time.
- UsbBasicKeyboardCheckIdleElapsed: a stub that always answers Busy. It is written into the contract of `CheckReportReady`.
- UsbBasicKeyboardSetInterface: a stub that always answers Error, with no state.
- UsbBasicKeyboardGetProtocol: it only reads the latched protocol, which is the `protocol` field of `BasicKeyboard`.
- UsbBasicKeyboard_ScancodeCount: declared in the header, but its definition is not part of this model.
- Descriptor tables, endpoint and interface numbers, the USB buffer accessor macros and the EEPROM buffer definitions are not part of this model. The constants the code needs are given assumed values, which are listed above. `GET_USB_BUFFER_UINT16` is read as little-endian.
- The HID class handle is reduced to its protocol field. The other fields of `usb_device_hid_report_struct_t` are the parameters of the `HidEvent` constructors.
- UsbBasicKeyboard.BasicKeyboard.MergeReports: requires the target and source to be different arrays. A merge of a report into itself is not modelled.
- UsbBasicKeyboard.BasicKeyboard.Callback: requires the Set_Report buffer to be as long as its stated length, which is what the device stack provides.
- UsbCommandWriteConfig.WriteConfig: the USB buffers and the configuration buffers are modelled as arrays of byte values 0..255. The in-buffer and out-buffer are taken to be different arrays.
- Bit shifts with a negative bit number do not occur: every caller passes a scancode minus the bottom of its range.
