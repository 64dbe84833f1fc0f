# cockpit_joystick core, modelled in Dafny

The cockpit_joystick firmware runs on an Arduino-class board that acts as a
USB HID joystick. Four button-and-axis devices sit on an I2C bus at
addresses 0x0C to 0x0F. At start-up every device is probed and, when it
answers, primed with a baseline. After that, every 60 Hz cycle asks each
device for an 11-byte reply. The reply is decoded into a 32-bit signal
word (25 buttons) and two signed 16-bit axis values. Only the differences
from the last reported values are sent to the joystick:

- one `setButton` per changed button, numbered `i + 25 * device`;
- one axis update per axis that moved by more than 5.

A cycle timer measures each cycle. It returns the wait for the rest of the
16666 µs period and keeps a running sum, minimum, maximum and count of
cycle durations. Once the count exceeds 500, it reports those figures and
resets them.

The model has one module per source unit:

- `BitManipulation`: `readBit`/`setBit` on words held as integers below 2^32.
- `Timing`: the `TimeManagement` class. It has pure functions for the
  benchmark accumulator and lemmas about a whole window of samples.
- `I2cComm`: the outcome of a request cycle (`Transfer`).
- `Hid`: the joystick, as an append-only log of the updates it receives.
- `DeviceLogic`: the functions one device handler computes in a cycle —
  decode, button diff, axis diff and the axis table — with their lemmas.
- `Devices`: the `DeviceHandler` class. Each method is proved to follow
  those functions.
- `Joysticks`: the `JoystickManager` class and the lemmas about a whole
  cycle over all four devices.

External inputs are parameters:

- The microsecond clock `micros()` is the argument `now`.
- Each `requestCycle` is an oracle `Transfer`: `Failed`, or the bytes read.
- The serial benchmark report is returned as an `Option<Report>`.

Where the written behaviour of the code differs from its comments or
evident design, the model follows the code:

- `initiatePreviousData` does not decode the baseline reply. It copies the
  current signal word and axis values into the last reported ones
  (`Baseline`). At start-up those are still the constructor's zeros, so the
  first cycle reports every held button as a press
  (`StartupPrimeReportsPresses`).
- The benchmark report fires on the 501st sample after a reset, because the
  test is `count > 500` and the increment comes first (`WindowReport`).
- After a clock wrap, `findCycleDuration` returns `4294967295 - start + now`.
  This is one less than the modular difference (`CycleDuration`).
- Several spellings in the C++ would not compile as written:
  - `signalState` and `axisState[device][i]` in place of the `m_` fields;
  - a one-argument `evaluateJoystickAxisChange` called with no argument;
  - `m_devices[device].` used on a pointer;
  - the constructor's `m_axisState[2] = {0, 0}` (and the same for
    `m_prevAxisState`), which assigns a two-element list to a single,
    out-of-range element.

  The model reads them as the fields of the handler, and passes the
  handler's own `m_deviceId` to `setAxis`.
- `setAxis` is modelled with the three parameters of its definition, not
  the two of its declaration in device_handler.h.
- The handler constructor is modelled as what the field initialisers in
  device_handler.h do: both axis arrays start at zero.

## Model

| member | source | states |
|---|---|---|
| IntTypes.Abs | cockpit_joystick/device_handler.cpp:190 | `abs` returns the value or its negation, never negative |
| BitManipulation.SetBit | cockpit_joystick/bit_manipulation.cpp:12-15 | bit `index` of the result is `x` and every other bit of the 32-bit word equals that bit of `vect`; the result is a 32-bit word |
| BitManipulation.SetBitOfReadBit | cockpit_joystick/bit_manipulation.cpp:7-15 | writing back the bit just read returns the word unchanged |
| BitManipulation.SetBitIdempotent | cockpit_joystick/bit_manipulation.cpp:12-15 | forcing the same bit to the same value twice equals forcing it once |
| BitManipulation.ClearBitFrame | cockpit_joystick/bit_manipulation.cpp:14 | masking out a set bit subtracts its weight 2^i, clears that bit and keeps every other bit |
| BitManipulation.PlaceBitFrame | cockpit_joystick/bit_manipulation.cpp:14 | or-ing a one into a clear bit adds 2^i, sets that bit and keeps every other bit |
| BitManipulation.PlaceBitBound | cockpit_joystick/bit_manipulation.cpp:14 | setting a clear bit of an n-bit word keeps it an n-bit word, so `setBit` stays within 32 bits |
| BitManipulation.ReadBit | cockpit_joystick/bit_manipulation.cpp:7-10 | bit `index` of the word, bit 0 least significant: `index` halvings (the right shift) and the parity (`& 1`); its meaning is fixed by SetBitWeight, ZeroHasNoBits and BitsDetermineWord |
| BitManipulation.SetBitWeight | cockpit_joystick/bit_manipulation.cpp:7-10 | a word with bit i set is at least 2^i |
| BitManipulation.ZeroHasNoBits | cockpit_joystick/bit_manipulation.cpp:7-10 | `readBit(0, i)` is false for every i below 32 |
| BitManipulation.BitsDetermineWord | cockpit_joystick/bit_manipulation.cpp:7-10 | two words whose `readBit` agrees at every index are equal |
| Timing.CycleDuration | cockpit_joystick/time_management.cpp:26-37 | the duration is `(now - start) mod 2^32`, minus one exactly when the clock wrapped (`now < start`) |
| Timing.Tally | cockpit_joystick/time_management.cpp:68-80 | the accumulator after one sample before the window check: the sum and count wrap modulo 2^32, max and min move to take the sample in; Record and WindowSummary give its effect over a window |
| Timing.Average | cockpit_joystick/time_management.cpp:86 | the unsigned quotient `sum / count` of the report; it stays a 32-bit word (QuotientBound) |
| Timing.Record | cockpit_joystick/time_management.cpp:66-94 | from an in-window accumulator the sample keeps it in window (count ≤ 500, min ≤ max, reset state when empty) and lies within [min, max]; the count returns to 0 exactly when it was 500; below 500 the count grows by 1, the sum grows by the sample modulo 2^32, the max never falls and the min never rises |
| Timing.ReportOf | cockpit_joystick/time_management.cpp:82-93 | from an in-window accumulator a report is produced exactly when the count was 500 before the sample |
| Timing.ModuloSum | cockpit_joystick/time_management.cpp:68 | adding to a sum kept modulo 2^32 agrees with adding to the true sum |
| Timing.WindowSummary | cockpit_joystick/time_management.cpp:66-80 | after up to 500 samples from a reset, the accumulator is in window, its count is the number of samples and its sum is their total modulo 2^32 |
| Timing.WindowExtremes | cockpit_joystick/time_management.cpp:70-78 | after 1 to 500 samples from a reset, the accumulator's min and max are the smallest and largest sample, and both occur among the samples |
| Timing.ExtremesStep | cockpit_joystick/time_management.cpp:70-78 | the min/max updates of one sample turn the extremes of a sequence into those of the sequence extended by that sample |
| Timing.NoReportWithinWindow | cockpit_joystick/time_management.cpp:82 | none of the first 500 samples after a reset produces a report |
| Timing.WindowReport | cockpit_joystick/time_management.cpp:82-93 | the 501st sample after a reset produces a report whose average is the total of the 501 samples modulo 2^32 divided by 501, whose min and max are the extremes of those samples, and leaves the accumulator reset |
| Timing.TimeManagement.constructor | cockpit_joystick/time_management.cpp:8-18 | start 0, period 16666 and the reset accumulator (min 4294967295) |
| Timing.TimeManagement.SampleTime | cockpit_joystick/time_management.cpp:21-24 | the start time becomes the clock reading |
| Timing.TimeManagement.FindCycleDuration | cockpit_joystick/time_management.cpp:26-37 | returns `CycleDuration(start, now)` |
| Timing.TimeManagement.GetDelay | cockpit_joystick/time_management.cpp:39-51 | feeds exactly the measured duration to the benchmark, keeps it in window, returns its report; the delay is at most the period, 0 once the duration reaches it, and delay + duration equals the period otherwise |
| Timing.TimeManagement.DoPeriodDelay | cockpit_joystick/time_management.cpp:53-56 | the wait is the delay of `getDelay`: at most the period, 0 once the duration reaches it, period minus duration otherwise; with the same benchmark effect |
| Timing.TimeManagement.ResetBenchmarking | cockpit_joystick/time_management.cpp:58-64 | sum 0, max 0, min 4294967295, count 0 |
| Timing.TimeManagement.BenchmarkHandleDuration | cockpit_joystick/time_management.cpp:66-94 | the accumulator becomes `Record(old, d)` and the report `ReportOf(old, d)`, keeping it in window |
| Hid.HidSink.SetButton | cockpit_joystick/device_handler.cpp:136 | the joystick receives exactly one button update |
| Hid.HidSink.SetAxisValue | cockpit_joystick/device_handler.cpp:149-184 | the joystick receives exactly one update of the named axis |
| DeviceLogic.ToInt16 | cockpit_joystick/device_handler.cpp:53-54 | storing a 16-bit value in an `int16_t` field gives a value in the int16 range |
| DeviceLogic.ToInt16Wraps | cockpit_joystick/device_handler.cpp:53-54 | the stored value is the 16-bit pattern modulo 2^16, and it keeps its value exactly when the pattern is below 0x8000 |
| DeviceLogic.PackWordBytes | cockpit_joystick/device_handler.cpp:52 | the big-endian word of four bytes is below 2^32 and each byte is recovered by shift and mask |
| DeviceLogic.Decode | cockpit_joystick/device_handler.cpp:52-54 | an 11-byte reply decodes to a signal word and exactly two axis values |
| DeviceLogic.DecodeFields | cockpit_joystick/device_handler.cpp:52-54 | bytes 5..8 are the signal word, high byte first; axis i is an int16 whose bit pattern is bytes 2i+1 and 2i+2, high byte first |
| DeviceLogic.DecodeIgnoresFraming | cockpit_joystick/device_handler.cpp:46-54 | replies that agree on bytes 1..8 decode alike: bytes 0, 9 and 10 never reach the state |
| DeviceLogic.ButtonChange | cockpit_joystick/device_handler.cpp:122-145 | one button visit emits at most one event |
| DeviceLogic.ButtonDiff | cockpit_joystick/device_handler.cpp:120-146 | the pass over n buttons emits at most n events |
| DeviceLogic.ButtonDiffOrdered | cockpit_joystick/device_handler.cpp:120-146 | every event of the button pass is a button event numbered within the device's block `[25·id, 25·id + n)`, in strictly ascending order |
| DeviceLogic.ButtonDiffExact | cockpit_joystick/device_handler.cpp:120-146 | `setButton(i + 25·id, p)` is emitted exactly when i is a visited button whose bit differs between the signal word and the last reported word, and p is its new state |
| DeviceLogic.ButtonDiffQuiet | cockpit_joystick/device_handler.cpp:120-146 | buttons on which the words agree emit nothing |
| DeviceLogic.CopyLowBits | cockpit_joystick/device_handler.cpp:120-146 | the last reported word after the pass has patched buttons `0 .. k-1` with `setBit`; CopyLowBitsBits gives its bits |
| DeviceLogic.CopyLowBitsBits | cockpit_joystick/device_handler.cpp:141 | after patching n buttons, bits below n of the last reported word are those of the signal word and bits from n up are unchanged |
| DeviceLogic.ButtonStep | cockpit_joystick/device_handler.cpp:122-141 | during the pass bit i of the last reported word is still the old one, and the patch of a changed bit is `setBit(prev, i, bs)` while an unchanged bit leaves the word as it is |
| DeviceLogic.ButtonDiffSettles | cockpit_joystick/device_handler.cpp:114-147 | a second button pass emits nothing and leaves the last reported word as the first left it |
| DeviceLogic.AxisFor | cockpit_joystick/device_handler.cpp:149-184 | a (device, axis index) pair drives an axis exactly when device < 3 and index < 2, and that axis belongs to that pair (X, Y, Z, Rx, Ry, Rz in order) |
| DeviceLogic.AxisForInjective | cockpit_joystick/device_handler.cpp:149-184 | distinct pairs drive distinct axes |
| DeviceLogic.AxisUpdate | cockpit_joystick/device_handler.cpp:149-184 | `setAxis` emits one update of the pair's own axis with the given value when the pair has an axis, nothing otherwise |
| DeviceLogic.AxisChange | cockpit_joystick/device_handler.cpp:190-196 | the events of one axis visit: its `setAxis` update when the change exceeds the deadband, none otherwise; AxisDiffExact and AxisDiffOwned give its meaning |
| DeviceLogic.AxisDiff | cockpit_joystick/device_handler.cpp:186-198 | the events of the axis pass over axes `0 .. n-1`; AxisDiffOwned and AxisDiffExact give their content, AxisDiffOrdered their number and order |
| DeviceLogic.AxisDiffOwned | cockpit_joystick/device_handler.cpp:186-198 | every event of the axis pass updates one of the device's own axes below n, with that axis's current value |
| DeviceLogic.AxisDiffOrdered | cockpit_joystick/device_handler.cpp:186-198 | the axis pass emits at most one update per visited axis, in strictly ascending axis order, and none for a device without axes (3 and above) |
| DeviceLogic.AxisDiffExact | cockpit_joystick/device_handler.cpp:188-196 | for devices 0..2, the update of axis i is emitted exactly when its change exceeds the deadband of 5 |
| DeviceLogic.SyncAxes | cockpit_joystick/device_handler.cpp:186-198 | the last reported axis values after the pass are two values |
| DeviceLogic.SyncAxesDeadband | cockpit_joystick/device_handler.cpp:186-198 | afterwards every axis is within 5 of its last reported value, and a last reported value changes exactly when it takes the current value of an axis that exceeded the deadband |
| DeviceLogic.AxisDiffSettles | cockpit_joystick/device_handler.cpp:186-198 | a second axis pass emits nothing and changes nothing |
| DeviceLogic.Fetched | cockpit_joystick/device_handler.cpp:44-79 | the data request never touches the last reported word or axes |
| DeviceLogic.Processed | cockpit_joystick/device_handler.cpp:208-215 | the state after a cycle keeps two axis values and two last reported values |
| DeviceLogic.CycleEvents | cockpit_joystick/device_handler.cpp:208-215 | the events of one cycle: none after a failed fetch, else the button diff then the axis diff of the fetched state; CycleEventsOrdered and CycleSettles give their properties |
| DeviceLogic.CycleEventsOrdered | cockpit_joystick/device_handler.cpp:208-215 | a failed fetch emits nothing; otherwise the button events lie in the device's block in ascending order, every axis update drives one of the device's own axes, and no button event follows an axis update |
| DeviceLogic.CycleSettles | cockpit_joystick/device_handler.cpp:208-215 | a second cycle with the same reply emits nothing and changes nothing |
| DeviceLogic.Baseline | cockpit_joystick/device_handler.cpp:33-42 | the baseline copies the current signal word and axes into the last reported ones and changes nothing else |
| DeviceLogic.Primed | cockpit_joystick/device_handler.cpp:200-206 | the state after `initiateDevice`: the Baseline when both the probe and the baseline request succeed, unchanged otherwise |
| DeviceLogic.PrimedIsQuiet | cockpit_joystick/device_handler.cpp:200-206 | a primed device whose next reply repeats its current state emits no events |
| DeviceLogic.StartupPrimeReportsPresses | cockpit_joystick/device_handler.cpp:33-42 | priming a device still holding the constructor's zeros keeps the zeros, so a first reply with signal word 1 reports button 0 of that device as pressed and compares the axes against zero |
| DeviceLogic.ButtonDiffExample | cockpit_joystick/device_handler.cpp:120-146 | device 1 seeing bits 0 and 2 rise emits presses of buttons 25 and 27, in that order |
| DeviceLogic.CopyLowBitsExample | cockpit_joystick/device_handler.cpp:141 | that pass leaves the last reported word equal to the signal word 5 |
| DeviceLogic.AxisDiffExample | cockpit_joystick/device_handler.cpp:186-198 | device 0 moving its axes by 4 and 20 emits only the Y update, and only Y's last reported value changes |
| Devices.DeviceHandler.constructor | cockpit_joystick/device_handler.cpp:4-12 | id and address as given, words and axis values all zero |
| Devices.DeviceHandler.ReportDeviceExists | cockpit_joystick/device_handler.cpp:14-31 | the device is reported present exactly when the 7-byte request cycle succeeds |
| Devices.DeviceHandler.InitiatePreviousData | cockpit_joystick/device_handler.cpp:33-42 | on success the state becomes its `Baseline`; on failure nothing changes |
| Devices.DeviceHandler.GetDeviceData | cockpit_joystick/device_handler.cpp:44-79 | returns true exactly on success; on success the signal word and axes become the decode of the reply; on failure nothing changes |
| Devices.DeviceHandler.EvaluateJoystickButtonChange | cockpit_joystick/device_handler.cpp:114-147 | the joystick receives exactly the button diff, and the last reported word has bits 0..24 copied from the signal word |
| Devices.DeviceHandler.SetAxis | cockpit_joystick/device_handler.cpp:149-184 | the joystick receives exactly the events of `AxisUpdate` for the pair |
| Devices.DeviceHandler.EvaluateJoystickAxisChange | cockpit_joystick/device_handler.cpp:186-198 | the joystick receives exactly the axis diff, and the last reported axes become `SyncAxes` of the old ones |
| Devices.DeviceHandler.InitiateDevice | cockpit_joystick/device_handler.cpp:200-206 | the baseline is taken only when the probe succeeds, and then only when the baseline request succeeds |
| Devices.DeviceHandler.ProcessDevice | cockpit_joystick/device_handler.cpp:208-215 | the state becomes `Processed(old, t)` and the joystick receives exactly `CycleEvents`: nothing after a failed fetch |
| Joysticks.CycleLog | cockpit_joystick/joystick_manager.cpp:405-411 | the joystick events of one cycle over devices `0 .. n-1`: the cycle events of each device in device order; CycleLogOrdered and ProcessSettles give its properties |
| Joysticks.CycleLogOrdered | cockpit_joystick/joystick_manager.cpp:405-411 | over one cycle of the first n devices every button event lies in `[0, 25n)`, so within the 100 buttons of four devices; button numbers strictly ascend across devices, so the blocks are disjoint; and every axis update belongs to one of those devices |
| Joysticks.ProcessSettles | cockpit_joystick/joystick_manager.cpp:405-411 | a second cycle over all devices with the same replies emits nothing and changes no device |
| Joysticks.JoystickManager.constructor | cockpit_joystick/joystick_manager.cpp:387-393 | four handlers, handler k with id k and address 0x0C + k, no two sharing state, all state zero |
| Joysticks.JoystickManager.InitiateAllDevices | cockpit_joystick/joystick_manager.cpp:397-403 | every device k ends `Primed` by its own probe and baseline replies |
| Joysticks.JoystickManager.InitiateTurn | cockpit_joystick/joystick_manager.cpp:401 | initiating device k changes only device k |
| Joysticks.JoystickManager.ProcessDevices | cockpit_joystick/joystick_manager.cpp:405-411 | every device k ends `Processed` with its own reply, and the joystick receives the events of device 0, then 1, then 2, then 3 |
| Joysticks.JoystickManager.ProcessTurn | cockpit_joystick/joystick_manager.cpp:409 | processing device k changes only device k, and appends only its cycle's events |

## Left out

- The I2C bus: `Wire` transfers, the register select and process command, and the 250 µs settling waits in cockpit_joystick/i2c_comm.cpp. Each `requestCycle` is an oracle `Transfer`. A successful outcome carries exactly the requested number of bytes. A failed one stands for the unacknowledged register select, after which the source reads nothing.
- The clock and the waits: `micros()` is the parameter `now`. `delayMicroseconds` is not modelled, so `DoPeriodDelay` returns the delay it would wait.
- Serial output: the presence messages of `reportDeviceExists` are not modelled. The benchmark report is returned as a value instead of printed.
- `evaluateDeviceSignalChange` (device_handler.cpp:81-112): it repeats the button pass and uses a constant its class does not declare.
- The copies of the time, bit, I2C and device code in cockpit_joystick/joystick_manager.cpp:8-383 and the global-array variants in cockpit_joystick_common.h. Only the JoystickManager part of that file is modelled.
- The Joystick library object and its configuration (25·4 buttons, six axes), `runTest`, and the `setup`/`loop` sketch entry points.
- `buf`: the shared buffer is declared with 10 bytes, but the data request reads 11. The model's reply always holds the 11 bytes read. It does not model the write past the end of the buffer.
- `m_devices` is an array of pointers filled once by the constructor. It is modelled as an immutable sequence of handler references.
- Devices.DeviceHandler.EvaluateJoystickAxisChange: the model computes `abs(axis - prev)` exactly. On the 16-bit `int` of the AVR target the subtraction of two `int16_t` values can overflow, and that is not modelled.
- DeviceLogic.Exceeds: the same exact difference is used, without the 16-bit overflow.
- Timing.TimeManagement.BenchmarkHandleDuration: it is declared `bool` but returns nothing. The model returns the optional report.
- Timing.TimeManagement.DoPeriodDelay: it is declared `unsigned` but returns nothing. The model returns the delay and the report.
