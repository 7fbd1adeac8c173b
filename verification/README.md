# LED status indicator firmware — Dafny model

A model of the control core of a CH55x firmware that drives a 10-pixel
NeoPixel strip as a host status indicator and turns one button into a
Ctrl+Alt+Del macro:

- the **status table** (`statuses[]`): ten records `(r, g, b, remaining_ms)`,
  written by `set_status`, switched off by `clear_status` and counted down by
  the timeout sweep `update_timeouts`;
- the **host report decoder** of the endpoint 2 OUT handler: a buffer of at
  least five bytes tagged `0x03` becomes `set_status(index, r, g, b)`, with
  the index passed on unchecked;
- the **strip renderer** and the **reboot macro**, as event traces;
- the **button edge detector**, a one-bit state machine;
- the **endpoint 1 write-busy flag**, set by a send and cleared by the IN
  completion or a bus reset;
- the **boot sequence and main loop**: clear the table, light pixel 0 in the
  boot colour, render; then forever poll the button, sweep, render, wait and
  feed the watchdog.

Modules, one per file: `Types` (uint8/uint16, `Option`), `Events` (trace
events), `StatusTable`, `Strip`, `Keyboard`, `Button`, `Hid`, `Firmware`.

Everything is pure: the table is a `seq<Slot>` of length 10, the device state
is the table plus the remembered button level, and calls into the NeoPixel
driver, the keyboard driver, the delay service and the watchdog become events
(`WriteColor`, `Latch`, `InterruptsOff`/`InterruptsOn` for `EA`, `Press`,
`Release`, `Delay`, `WatchdogReset`). Host reports arrive as inputs between
loop iterations (`Firmware.Run`). The strip driver's full brightness
`NEO_MAX` is a parameter (`neoMax: uint8`) of `Firmware.Boot`.

The table invariant proved throughout (`StatusTable.Valid`) says that a slot
never holds more than 5000 ms and that a slot with no lifetime left is black.
Every operation keeps it when host reports arrive between loop iterations,
which is the only interleaving the model has. The converse does not hold in
the code and is not claimed: a host may set a slot to (0, 0, 0), which then
lives for 5000 ms while dark.

## Model

| member | source | states |
|---|---|---|
| StatusTable.Set | 3keys_1knob.c:59-68 | An index below 10 makes that slot (r, g, b, 5000) and leaves every other slot as it was; an index of 10 or more leaves the table unchanged; the table invariant is preserved. |
| StatusTable.Clear | 3keys_1knob.c:70-79 | An index below 10 makes that slot black with no lifetime and leaves the others alone; any other index changes nothing; the invariant is preserved. |
| StatusTable.SweepSlot | 3keys_1knob.c:85-95 | One slot's sweep never increases its lifetime (no underflow) and keeps the slot invariant. |
| StatusTable.Tick | 3keys_1knob.c:81-97 | A sweep never increases any slot's lifetime and preserves the table invariant. |
| StatusTable.UpdateTimeouts | 3keys_1knob.c:81-97 | The in-order loop leaves dead slots untouched, switches off every live slot whose lifetime is at most the elapsed time, keeps the colour of every other slot and lowers its lifetime by exactly the elapsed time; it agrees with `Tick`. |
| StatusTable.TickZeroIsIdentity | 3keys_1knob.c:81-97 | A sweep over 0 ms is the identity on the table. |
| StatusTable.SweepsOfOffSlot | 3keys_1knob.c:85-86 | A switched-off slot stays off under any number of sweeps. |
| StatusTable.SweepsCountDown | 3keys_1knob.c:85-95 | A live slot swept n times over e ms keeps its colour with lifetime reduced by n·e while n·e is below its lifetime, and is off once n·e reaches it. |
| StatusTable.TicksSlotwise | 3keys_1knob.c:83-96 | Repeated table sweeps act on each slot independently. |
| Strip.Frame | 3keys_1knob.c:48-57 | A frame is interrupts off, one pixel write per slot in index order, interrupts on, then the latch. |
| Strip.Writes | 3keys_1knob.c:51-54 | The pixel writes are exactly one per slot, slot i's colour at position i. |
| Strip.ApplyStatusStrip | 3keys_1knob.c:48-57 | The loop that shifts the colours out produces exactly the frame. |
| Strip.FrameShowsTable | 3keys_1knob.c:48-57 | The colours a frame puts on the strip are the table's colours, slot 0 first. |
| Strip.SetThenRender | 3keys_1knob.c:48-68 | After a set in range, the rendered frame shows the new colour at that pixel and the old colour at every other pixel. |
| Strip.SetEachSlots | 3keys_1knob.c:59-68 | Setting slots 0..k-1 in order gives each of them its colour and a full lifetime and leaves the rest untouched. |
| Strip.SetEveryPixelThenRender | 3keys_1knob.c:48-68 | Ten sets, one per slot in ascending order, then a render show exactly those ten colours in order. |
| Keyboard.CtrlAltDelKeys | 3keys_1knob.c:99-110 | The macro presses Ctrl, Alt, Del in that order, has all three held during the 10 ms dwell, releases them in the reverse order and leaves no key held. |
| Keyboard.CtrlAltDelWritesNoPixel | 3keys_1knob.c:99-110 | The macro emits only keyboard and delay events. |
| Button.ButtonStep | 3keys_1knob.c:112-120 | A poll fires exactly when the button is pressed and was not before, and always remembers the current level. |
| Button.FiresOnRisingEdges | 3keys_1knob.c:112-120 | Over any level sequence the macro fires at exactly the positions of a released-to-pressed transition. |
| Button.LastAfterIsLastLevel | 3keys_1knob.c:119 | After a run of polls the remembered level is the last level read. |
| Button.NoConsecutiveFires | 3keys_1knob.c:114-119 | Holding the button never fires on two consecutive polls. |
| Button.PressAndHoldFiresOnce | 3keys_1knob.c:112-120 | Levels released, released, pressed, pressed, released fire once, on the third poll. |
| Hid.Decode | include/usb_hid.c:71-81 | A buffer decodes exactly when it has at least 5 bytes and starts with 0x03, and then to bytes 1..4 as (index, r, g, b) with the index unchecked. |
| Hid.DecodeEncode | include/usb_hid.c:74-76 | Every status report decodes back from its encoding. |
| Hid.DecodeAcceptsOnlyEncodings | include/usb_hid.c:74-76 | A buffer decodes to a report exactly when its first five bytes are that report's encoding. |
| Hid.DecodeReadsFiveBytes | include/usb_hid.c:74-76 | Bytes after the fifth never change the decoding. |
| Hid.HandleOut | include/usb_hid.c:71-81 | An accepted buffer performs exactly `set_status(buf[1], buf[2], buf[3], buf[4])`; a short buffer or another tag leaves the table unchanged; the invariant is preserved. |
| Hid.OutOfRangeReportIgnored | include/usb_hid.c:74-76 | A well-formed report with index 10 or more is accepted by the decoder yet leaves the table unchanged. |
| Hid.TruncatedReportIgnored | include/usb_hid.c:74 | The short report `[0x03, 9]` changes nothing. |
| Hid.Sent | include/usb_hid.c:31-38 | A send leaves the flag set, the upload length equal to `len`, the first `len` buffer bytes equal to the report and the rest of the buffer unchanged. |
| Hid.SendReport | include/usb_hid.c:31-38 | Starting with the flag clear, the byte-copy loop produces exactly that endpoint state. |
| Hid.InComplete | include/usb_hid.c:64-68 | The IN completion clears the flag and the upload length and keeps the buffer. |
| Hid.Reset | include/usb_hid.c:57-61 | A bus reset clears the flag and keeps buffer and length. |
| Hid.BusyIffLastWasSend | include/usb_hid.c:31-68 | After any admissible sequence of sends, completions and resets, the flag is set exactly when the last event was a send. |
| Hid.SendsNeedCompletionBetween | include/usb_hid.c:33-36 | Two sends with no completion or reset between them are never admissible. |
| Firmware.ClearAll | 3keys_1knob.c:136-139 | The boot clearing loop switches every slot off, whatever the table held. |
| Firmware.Boot | 3keys_1knob.c:136-143 | After boot slot 0 is (NEO_MAX, NEO_MAX/3, 0, 5000), slots 1..9 are off, the button is remembered as released and the invariant holds. |
| Firmware.BootFrameShowsBootColour | 3keys_1knob.c:141-144 | The boot frame shows the boot colour on pixel 0 and black elsewhere. |
| Firmware.Iterate | 3keys_1knob.c:147-156 | One loop iteration remembers the pressed level (the pin reads low when pressed), sweeps the table once over 20 ms, and keeps the invariant. |
| Firmware.LoopTrace | 3keys_1knob.c:149-155 | An iteration's events are the whole Ctrl+Alt+Del macro first when the button fired (and no key event otherwise), then the frame of the swept table, then the 20 ms delay and the watchdog reset: keys pressed are exactly Ctrl, Alt, Del and released exactly Del, Alt, Ctrl when fired and none otherwise, every key event precedes every pixel write, and the pixels shown are the swept table's colours. |
| Firmware.LoopStep | 3keys_1knob.c:147-156 | One iteration remembers the level and sweeps the table; its events are the whole macro, before anything else, exactly on a released-to-pressed edge, then the frame of the table after this iteration's sweep, then the 20 ms delay and the watchdog reset (button, then sweep, then render). |
| Firmware.KeysBeforeWrites | 3keys_1knob.c:149-152 | In events made of a part without pixel writes followed by a part without key events, every key event precedes every pixel write. |
| Firmware.MacroThenRestKeys | 3keys_1knob.c:149-152 | The macro followed by events without key events presses and releases exactly the macro's keys. |
| Firmware.FrameAndTailHaveNoKeys | 3keys_1knob.c:152-155 | The render, the loop delay and the watchdog reset hold no keyboard event. |
| Firmware.RunPreservesValid | 3keys_1knob.c:147-156 | No sequence of host reports arriving between loop iterations, and loop iterations, breaks the table invariant. |
| Firmware.IdleRunSweeps | 3keys_1knob.c:147-156 | n idle iterations sweep the table n times and do nothing else to it. |
| Firmware.IterationsSweepAndRemember | 3keys_1knob.c:147-156 | Any run of iterations leaves the last pressed level remembered and the table swept once per iteration. |
| Firmware.SetStatusExpiresOnSweep250 | 3keys_1knob.c:81-97 | With the 5000 ms timeout and 20 ms sweeps, a freshly set slot stays lit in its colour for 249 sweeps and is off after exactly 250. |
| Firmware.ReportThenIdle | 3keys_1knob.c:147-156 | A host report followed by n idle iterations is the handler's update followed by n sweeps. |
| Firmware.BootReportExpireScenario | 3keys_1knob.c:136-156 | After boot and a report turning pixel 3 red, pixels 0 and 3 still have 20 ms left after 249 iterations and are both off after 250. |

## Left out

- USB setup and endpoint control (`HID_init`, `HID_setup`, the `UEP*` register writes, re-arming endpoint 2 after a report): register plumbing with no state of the model's concern.
- The NeoPixel bit timing inside `NEO_writeColor`/`NEO_latch` and the internals of `KBD_press`/`KBD_release` (which send keyboard reports through `HID_sendReport`): their sources are not part of this model; they appear only as trace events.
- `NEO_init`, `CLK_config`, `DLY_ms(5)`, `KBD_init`, `WDT_start` and `PIN_input_PU` at boot: hardware services with no effect on the modelled state; the only boot output modelled is the first render, `Frame(Boot(neoMax).table)`.
- Interrupt concurrency: the endpoint 2 handler runs as an input between loop iterations, never in the middle of one; masking (`EA`) appears only as the order of events in a frame.
- Firmware.RunPreservesValid: holds for reports that arrive between loop iterations only. In the firmware the endpoint 2 interrupt is masked only while the colours are shifted out (3keys_1knob.c:50-55). A report that lands between the four stores of `clear_status` during a sweep (3keys_1knob.c:75-78, called from line 90) can leave a slot with a colour and 0 ms left. Every later sweep skips such a slot (line 85-86), so that pixel stays lit until the next report for it. The model does not represent such torn updates.
- The `while(HID_EP1_writeBusyFlag)` spin: modelled as the precondition that a send starts with the flag clear.
- The value of `NEO_MAX`: it comes from a header that is not part of this model, so it is a parameter of `Firmware.Boot`.
- The received length `USB_RX_LEN`: taken to be the length of the received buffer.
- Hid.Sent: requires the report to fit in the endpoint buffer (`len <= |ep.buffer|`), whose size is in a header that is not part of this model; the C code copies without any check.
- Hid.SendReport: also requires the report to fit in the endpoint buffer, whose size is in a header that is not part of this model; the C code copies without any check.
