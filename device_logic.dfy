/**
 * What one device handler computes in a cycle, as functions of its state:
 * the decode of the 11-byte data reply, the bit-by-bit button diff, the
 * axis diff with its deadband, and the fixed table that names the HID axis
 * of each (device, axis index) pair. The class in `Devices` is proved to
 * follow these functions step by step.
 *
 * The functions carry only the facts every caller needs (lengths and
 * shapes); what they mean is stated by the lemmas beside them.
 */
module DeviceLogic {
  import opened IntTypes
  import opened Wrappers
  import opened BitManipulation
  import opened Hid
  import opened I2cComm

  const BUTTONS_PER_DEVICE: nat := 25
  const AXES_PER_DEVICE: nat := 2
  /** An axis change must exceed this to be reported. */
  const AXIS_DEADBAND: nat := 5
  /** Bytes requested by the presence probe and by the baseline request. */
  const PROBE_BYTES: nat := 7
  /** Bytes requested by the per-cycle data request. */
  const DATA_BYTES: nat := 11

  /** Storing a 16-bit unsigned value in an `int16_t`: values from 0x8000 up wrap to negatives. */
  function ToInt16(u: nat): (v: int)
    requires u < 0x1_0000
    ensures IsInt16(v)
  {
    if u < 0x8000 then u else u - 0x1_0000
  }

  /** The stored value is the 16-bit pattern read modulo 2^16, and patterns below 0x8000 keep their value. */
  lemma ToInt16Wraps(u: nat)
    requires u < 0x1_0000
    ensures ToInt16(u) % 0x1_0000 == u
    ensures u < 0x8000 <==> ToInt16(u) == u
  {
  }

  /** The decoded contents of one data reply. */
  datatype Sample = Sample(signal: uint32, axes: seq<int>)

  /** The big-endian word of four bytes. */
  function PackWord(b0: uint8, b1: uint8, b2: uint8, b3: uint8): nat {
    b0 * 0x100_0000 + b1 * 0x1_0000 + b2 * 0x100 + b3
  }

  /** Each byte of a packed word is recovered by a shift and a mask, and the word fits in 32 bits. */
  lemma PackWordBytes(b0: uint8, b1: uint8, b2: uint8, b3: uint8)
    ensures PackWord(b0, b1, b2, b3) < WORD_MODULUS
    ensures PackWord(b0, b1, b2, b3) / 0x100_0000 == b0
    ensures (PackWord(b0, b1, b2, b3) / 0x1_0000) % 0x100 == b1
    ensures (PackWord(b0, b1, b2, b3) / 0x100) % 0x100 == b2
    ensures PackWord(b0, b1, b2, b3) % 0x100 == b3
  {
    var w := PackWord(b0, b1, b2, b3);
    var hi := b0 * 0x100 + b1;
    var mid := hi * 0x100 + b2;
    assert w == mid * 0x100 + b3;
    assert w / 0x100 == mid;
    assert mid / 0x100 == hi;
    assert w / 0x1_0000 == hi;
    assert w / 0x100_0000 == hi / 0x100;
  }

  /**
   * The decode of `getDeviceData`: bytes 5..8 are the big-endian signal
   * word, bytes 1..2 and 3..4 the two big-endian axis values. The shifted
   * bytes do not overlap, so their bitwise or is their sum.
   */
  function Decode(buf: seq<uint8>): (s: Sample)
    requires |buf| == DATA_BYTES
    ensures |s.axes| == AXES_PER_DEVICE
  {
    PackWordBytes(buf[5], buf[6], buf[7], buf[8]);
    Sample(
      PackWord(buf[5], buf[6], buf[7], buf[8]),
      [ToInt16(buf[1] as int * 0x100 + buf[2] as int), ToInt16(buf[3] as int * 0x100 + buf[4] as int)])
  }

  /**
   * Every byte of the signal word is recovered from its place in the reply,
   * and each axis value is an `int16_t` whose bit pattern is its two reply
   * bytes, high byte first.
   */
  lemma DecodeFields(buf: seq<uint8>)
    requires |buf| == DATA_BYTES
    ensures Decode(buf).signal / 0x100_0000 == buf[5]
    ensures (Decode(buf).signal / 0x1_0000) % 0x100 == buf[6]
    ensures (Decode(buf).signal / 0x100) % 0x100 == buf[7]
    ensures Decode(buf).signal % 0x100 == buf[8]
    ensures forall i :: 0 <= i < AXES_PER_DEVICE ==>
      IsInt16(Decode(buf).axes[i])
      && Decode(buf).axes[i] % 0x1_0000 == buf[2 * i + 1] as int * 0x100 + buf[2 * i + 2] as int
  {
    PackWordBytes(buf[5], buf[6], buf[7], buf[8]);
    ToInt16Wraps(buf[1] as int * 0x100 + buf[2] as int);
    ToInt16Wraps(buf[3] as int * 0x100 + buf[4] as int);
    var axes := Decode(buf).axes;
    assert forall i :: 0 <= i < AXES_PER_DEVICE ==>
      axes[i] == ToInt16(buf[2 * i + 1] as int * 0x100 + buf[2 * i + 2] as int);
  }

  /** Byte 0 and bytes 9 and 10 of the reply do not reach the device state. */
  lemma DecodeIgnoresFraming(a: seq<uint8>, b: seq<uint8>)
    requires |a| == DATA_BYTES && |b| == DATA_BYTES
    requires a[1..9] == b[1..9]
    ensures Decode(a) == Decode(b)
  {
    assert forall k :: 1 <= k < 9 ==> a[k] == a[1..9][k - 1] && b[k] == b[1..9][k - 1];
  }

  /** The fields of one device handler: signal word, axes, and their last reported values. */
  datatype DeviceState = DeviceState(signal: uint32, prevSignal: uint32, axes: seq<int>, prevAxes: seq<int>)

  predicate Shaped(v: DeviceState) {
    |v.axes| == AXES_PER_DEVICE && |v.prevAxes| == AXES_PER_DEVICE
  }

  /** The flat HID button number of local button `i` of device `deviceId`. */
  function ButtonIndex(deviceId: nat, i: nat): nat {
    i + BUTTONS_PER_DEVICE * deviceId
  }

  /** The event for local button `i`: one event carrying the new state when its bit changed, none otherwise. */
  function ButtonChange(deviceId: nat, signal: uint32, prev: uint32, i: nat): (events: seq<HidEvent>)
    requires i < BUTTONS_PER_DEVICE
    ensures |events| <= 1
  {
    if ReadBit(signal, i) != ReadBit(prev, i) then [ButtonEvent(ButtonIndex(deviceId, i), ReadBit(signal, i))] else []
  }

  /**
   * The button events of the diff over local buttons `0 .. n-1`, in the
   * order the pass visits them: one event per button whose bit differs
   * between `signal` and `prev`.
   */
  function ButtonDiff(deviceId: nat, signal: uint32, prev: uint32, n: nat): (events: seq<HidEvent>)
    requires n <= BUTTONS_PER_DEVICE
    ensures |events| <= n
  {
    if n == 0 then [] else ButtonDiff(deviceId, signal, prev, n - 1) + ButtonChange(deviceId, signal, prev, n - 1)
  }

  /**
   * Every event of the diff is a button event inside the device's block of
   * 25 buttons, below button `n`, and the buttons strictly ascend.
   */
  lemma {:induction false} ButtonDiffOrdered(deviceId: nat, signal: uint32, prev: uint32, n: nat)
    requires n <= BUTTONS_PER_DEVICE
    ensures forall k :: 0 <= k < |ButtonDiff(deviceId, signal, prev, n)| ==>
      ButtonDiff(deviceId, signal, prev, n)[k].ButtonEvent?
      && ButtonIndex(deviceId, 0) <= ButtonDiff(deviceId, signal, prev, n)[k].button < ButtonIndex(deviceId, n)
    ensures forall k, l :: 0 <= k < l < |ButtonDiff(deviceId, signal, prev, n)| ==>
      ButtonDiff(deviceId, signal, prev, n)[k].button < ButtonDiff(deviceId, signal, prev, n)[l].button
  {
    if n > 0 {
      ButtonDiffOrdered(deviceId, signal, prev, n - 1);
      var before := ButtonDiff(deviceId, signal, prev, n - 1);
      var change := ButtonChange(deviceId, signal, prev, n - 1);
      assert forall k :: 0 <= k < |change| ==> change[k] == ButtonEvent(ButtonIndex(deviceId, n - 1), ReadBit(signal, n - 1));
      assert forall k :: 0 <= k < |before + change| ==>
        (before + change)[k] == if k < |before| then before[k] else change[k - |before|];
    }
  }

  /** A button event is emitted exactly for a changed button below `n`, with the button's new state. */
  lemma {:induction false} ButtonDiffExact(deviceId: nat, signal: uint32, prev: uint32, n: nat, i: nat, pressed: bool)
    requires n <= BUTTONS_PER_DEVICE
    ensures ButtonEvent(ButtonIndex(deviceId, i), pressed) in ButtonDiff(deviceId, signal, prev, n)
      <==> i < n && ReadBit(signal, i) != ReadBit(prev, i) && pressed == ReadBit(signal, i)
  {
    if n > 0 {
      ButtonDiffExact(deviceId, signal, prev, n - 1, i, pressed);
    }
  }

  /** Buttons `m .. n-1` on which `prev` already agrees with `signal` add no events. */
  lemma {:induction false} ButtonDiffQuiet(deviceId: nat, signal: uint32, prev: uint32, m: nat, n: nat)
    requires m <= n <= BUTTONS_PER_DEVICE
    requires forall j :: m <= j < n ==> ReadBit(signal, j) == ReadBit(prev, j)
    ensures ButtonDiff(deviceId, signal, prev, n) == ButtonDiff(deviceId, signal, prev, m)
  {
    if m < n {
      ButtonDiffQuiet(deviceId, signal, prev, m, n - 1);
    }
  }

  /** `prev` with its bits below `k` patched, one `setBit` at a time, to those of `signal`. */
  function CopyLowBits(prev: uint32, signal: uint32, k: nat): uint32
    requires k <= BUTTONS_PER_DEVICE
  {
    if k == 0 then prev else SetBit(CopyLowBits(prev, signal, k - 1), k - 1, ReadBit(signal, k - 1))
  }

  /** The patched word has the bits of `signal` below `k` and the bits of `prev` from `k` up. */
  lemma {:induction false} CopyLowBitsBits(prev: uint32, signal: uint32, k: nat)
    requires k <= BUTTONS_PER_DEVICE
    ensures forall j :: 0 <= j < WORD_BITS ==>
      ReadBit(CopyLowBits(prev, signal, k), j) == if j < k then ReadBit(signal, j) else ReadBit(prev, j)
  {
    if k > 0 {
      CopyLowBitsBits(prev, signal, k - 1);
    }
  }

  /**
   * One step of the button pass: bit `i` of the partly patched word is
   * still the old one, and the next patched word is a `setBit` of bit `i`
   * when it changed and the same word when it did not.
   */
  lemma ButtonStep(signal: uint32, prev: uint32, i: nat)
    requires i < BUTTONS_PER_DEVICE
    ensures ReadBit(CopyLowBits(prev, signal, i), i) == ReadBit(prev, i)
    ensures CopyLowBits(prev, signal, i + 1) ==
      if ReadBit(signal, i) != ReadBit(prev, i) then SetBit(CopyLowBits(prev, signal, i), i, ReadBit(signal, i))
      else CopyLowBits(prev, signal, i)
  {
    CopyLowBitsBits(prev, signal, i);
    SetBitOfReadBit(CopyLowBits(prev, signal, i), i);
  }

  /** After the diff the button bits agree with the signal word, so a repeated diff emits nothing and changes nothing. */
  lemma ButtonDiffSettles(deviceId: nat, signal: uint32, prev: uint32)
    ensures ButtonDiff(deviceId, signal, CopyLowBits(prev, signal, BUTTONS_PER_DEVICE), BUTTONS_PER_DEVICE) == []
    ensures CopyLowBits(CopyLowBits(prev, signal, BUTTONS_PER_DEVICE), signal, BUTTONS_PER_DEVICE)
      == CopyLowBits(prev, signal, BUTTONS_PER_DEVICE)
  {
    var synced := CopyLowBits(prev, signal, BUTTONS_PER_DEVICE);
    CopyLowBitsBits(prev, signal, BUTTONS_PER_DEVICE);
    CopyLowBitsBits(synced, signal, BUTTONS_PER_DEVICE);
    ButtonDiffQuiet(deviceId, signal, synced, 0, BUTTONS_PER_DEVICE);
    WordModulus();
    BitsDetermineWord(CopyLowBits(synced, signal, BUTTONS_PER_DEVICE), synced, WORD_BITS);
  }

  /** The HID axis each (device, axis index) pair drives; device 3 and other indices drive none. */
  function AxisFor(device: nat, axisIndex: nat): (a: Option<AxisName>)
    ensures a.Some? <==> device < 3 && axisIndex < AXES_PER_DEVICE
    ensures a.Some? ==> AxisSlot(a.value) == (device, axisIndex)
  {
    if device == 0 then
      if axisIndex == 0 then Some(X) else if axisIndex == 1 then Some(Y) else None
    else if device == 1 then
      if axisIndex == 0 then Some(Z) else if axisIndex == 1 then Some(Rx) else None
    else if device == 2 then
      if axisIndex == 0 then Some(Ry) else if axisIndex == 1 then Some(Rz) else None
    else
      None
  }

  /** The (device, axis index) pair that owns each HID axis. */
  function AxisSlot(a: AxisName): (nat, nat) {
    match a
    case X => (0, 0)
    case Y => (0, 1)
    case Z => (1, 0)
    case Rx => (1, 1)
    case Ry => (2, 0)
    case Rz => (2, 1)
  }

  /** Distinct pairs drive distinct axes. */
  lemma AxisForInjective(d1: nat, i1: nat, d2: nat, i2: nat)
    requires AxisFor(d1, i1).Some? && AxisFor(d1, i1) == AxisFor(d2, i2)
    ensures d1 == d2 && i1 == i2
  {
  }

  /** The events of `setAxis(device, axisIndex, value)`: at most one update, of the pair's own axis. */
  function AxisUpdate(device: nat, axisIndex: nat, value: int): (events: seq<HidEvent>)
    ensures |events| == (if device < 3 && axisIndex < AXES_PER_DEVICE then 1 else 0)
    ensures |events| == 1 ==>
      events[0].AxisEvent? && events[0].value == value && AxisSlot(events[0].axis) == (device, axisIndex)
  {
    match AxisFor(device, axisIndex)
    case Some(a) => [AxisEvent(a, value)]
    case None => []
  }

  /** A change of an axis is reported only when it exceeds the deadband. */
  predicate Exceeds(value: int, prev: int) {
    Abs(value - prev) > AXIS_DEADBAND
  }

  /** The events for axis `i`: its update when its change exceeds the deadband, none otherwise. */
  function AxisChange(deviceId: nat, axes: seq<int>, prev: seq<int>, i: nat): seq<HidEvent>
    requires |axes| == AXES_PER_DEVICE && |prev| == AXES_PER_DEVICE && i < AXES_PER_DEVICE
  {
    if Exceeds(axes[i], prev[i]) then AxisUpdate(deviceId, i, axes[i]) else []
  }

  /** The axis events of the diff over axes `0 .. n-1`, in axis order. */
  function AxisDiff(deviceId: nat, axes: seq<int>, prev: seq<int>, n: nat): seq<HidEvent>
    requires |axes| == AXES_PER_DEVICE && |prev| == AXES_PER_DEVICE && n <= AXES_PER_DEVICE
  {
    if n == 0 then [] else AxisDiff(deviceId, axes, prev, n - 1) + AxisChange(deviceId, axes, prev, n - 1)
  }

  /** Every event of the axis diff drives one of the device's own axes, below `n`, with that axis's current value. */
  lemma {:induction false} AxisDiffOwned(deviceId: nat, axes: seq<int>, prev: seq<int>, n: nat)
    requires |axes| == AXES_PER_DEVICE && |prev| == AXES_PER_DEVICE && n <= AXES_PER_DEVICE
    ensures forall k :: 0 <= k < |AxisDiff(deviceId, axes, prev, n)| ==>
      AxisDiff(deviceId, axes, prev, n)[k].AxisEvent?
      && AxisSlot(AxisDiff(deviceId, axes, prev, n)[k].axis).0 == deviceId
      && AxisSlot(AxisDiff(deviceId, axes, prev, n)[k].axis).1 < n
      && AxisDiff(deviceId, axes, prev, n)[k].value == axes[AxisSlot(AxisDiff(deviceId, axes, prev, n)[k].axis).1]
  {
    if n > 0 {
      AxisDiffOwned(deviceId, axes, prev, n - 1);
      var before := AxisDiff(deviceId, axes, prev, n - 1);
      var change := AxisChange(deviceId, axes, prev, n - 1);
      assert forall k :: 0 <= k < |before + change| ==>
        (before + change)[k] == if k < |before| then before[k] else change[k - |before|];
    }
  }

  /**
   * The axis pass emits at most one update per visited axis, in axis order,
   * and nothing at all for a device without axes.
   */
  lemma {:induction false} AxisDiffOrdered(deviceId: nat, axes: seq<int>, prev: seq<int>, n: nat)
    requires |axes| == AXES_PER_DEVICE && |prev| == AXES_PER_DEVICE && n <= AXES_PER_DEVICE
    ensures |AxisDiff(deviceId, axes, prev, n)| <= n
    ensures forall k, l ::
      (0 <= k < l < |AxisDiff(deviceId, axes, prev, n)|
       && AxisDiff(deviceId, axes, prev, n)[k].AxisEvent? && AxisDiff(deviceId, axes, prev, n)[l].AxisEvent?) ==>
      AxisSlot(AxisDiff(deviceId, axes, prev, n)[k].axis).1 < AxisSlot(AxisDiff(deviceId, axes, prev, n)[l].axis).1
    ensures deviceId >= 3 ==> AxisDiff(deviceId, axes, prev, n) == []
  {
    if n > 0 {
      AxisDiffOrdered(deviceId, axes, prev, n - 1);
      AxisDiffOwned(deviceId, axes, prev, n - 1);
      var before := AxisDiff(deviceId, axes, prev, n - 1);
      var change := AxisChange(deviceId, axes, prev, n - 1);
      assert |change| <= 1;
      assert forall k :: 0 <= k < |change| ==> change[k].AxisEvent? && AxisSlot(change[k].axis).1 == n - 1;
      assert forall k :: 0 <= k < |before + change| ==>
        (before + change)[k] == if k < |before| then before[k] else change[k - |before|];
    }
  }

  /** For a device with axes, the update of axis `i` is emitted exactly when its change exceeds the deadband. */
  lemma AxisDiffExact(deviceId: nat, axes: seq<int>, prev: seq<int>, i: nat)
    requires |axes| == AXES_PER_DEVICE && |prev| == AXES_PER_DEVICE
    requires deviceId < 3 && i < AXES_PER_DEVICE
    ensures AxisEvent(AxisFor(deviceId, i).value, axes[i]) in AxisDiff(deviceId, axes, prev, AXES_PER_DEVICE)
      <==> Exceeds(axes[i], prev[i])
  {
    assert AxisDiff(deviceId, axes, prev, 1) == AxisChange(deviceId, axes, prev, 0);
  }

  /** The last reported axis values after the diff: an axis is taken over exactly when it exceeds the deadband. */
  function SyncAxes(axes: seq<int>, prev: seq<int>): (r: seq<int>)
    requires |axes| == AXES_PER_DEVICE && |prev| == AXES_PER_DEVICE
    ensures |r| == AXES_PER_DEVICE
  {
    seq(AXES_PER_DEVICE, i requires 0 <= i < AXES_PER_DEVICE => if Exceeds(axes[i], prev[i]) then axes[i] else prev[i])
  }

  /**
   * After the diff every last reported value lies within the deadband of
   * the current value, and a last reported value changes only to the
   * current value of an axis that exceeded the deadband.
   */
  lemma SyncAxesDeadband(axes: seq<int>, prev: seq<int>)
    requires |axes| == AXES_PER_DEVICE && |prev| == AXES_PER_DEVICE
    ensures forall i :: 0 <= i < AXES_PER_DEVICE ==> Abs(axes[i] - SyncAxes(axes, prev)[i]) <= AXIS_DEADBAND
    ensures forall i :: 0 <= i < AXES_PER_DEVICE ==>
      (SyncAxes(axes, prev)[i] != prev[i] <==> SyncAxes(axes, prev)[i] == axes[i] && Exceeds(axes[i], prev[i]))
  {
  }

  /** After the axis diff a repeated diff emits nothing and changes nothing. */
  lemma AxisDiffSettles(deviceId: nat, axes: seq<int>, prev: seq<int>)
    requires |axes| == AXES_PER_DEVICE && |prev| == AXES_PER_DEVICE
    ensures AxisDiff(deviceId, axes, SyncAxes(axes, prev), AXES_PER_DEVICE) == []
    ensures SyncAxes(axes, SyncAxes(axes, prev)) == SyncAxes(axes, prev)
  {
    var synced := SyncAxes(axes, prev);
    assert !Exceeds(axes[0], synced[0]) && !Exceeds(axes[1], synced[1]);
    assert AxisDiff(deviceId, axes, synced, 1) == [];
  }

  /** `getDeviceData`: on a reply, the signal word and axes are overwritten by its decode; on failure nothing changes. */
  function Fetched(v: DeviceState, t: Transfer): (r: DeviceState)
    requires Shaped(v) && Delivers(t, DATA_BYTES)
    ensures Shaped(r)
    ensures r.prevSignal == v.prevSignal && r.prevAxes == v.prevAxes
  {
    match t
    case Failed => v
    case Received(bytes) =>
      var s := Decode(bytes);
      v.(signal := s.signal, axes := s.axes)
  }

  /** `processDevice`: fetch, then the button diff, then the axis diff; nothing at all when the fetch fails. */
  function Processed(v: DeviceState, t: Transfer): (r: DeviceState)
    requires Shaped(v) && Delivers(t, DATA_BYTES)
    ensures Shaped(r)
  {
    if t.Failed? then
      v
    else
      var f := Fetched(v, t);
      f.(prevSignal := CopyLowBits(f.prevSignal, f.signal, BUTTONS_PER_DEVICE),
         prevAxes := SyncAxes(f.axes, f.prevAxes))
  }

  /**
   * The HID events `processDevice` emits: none when the fetch fails, else
   * the button events of the fetched state followed by its axis events.
   */
  function CycleEvents(deviceId: nat, v: DeviceState, t: Transfer): seq<HidEvent>
    requires Shaped(v) && Delivers(t, DATA_BYTES)
  {
    if t.Failed? then
      []
    else
      var f := Fetched(v, t);
      ButtonDiff(deviceId, f.signal, f.prevSignal, BUTTONS_PER_DEVICE) + AxisDiff(deviceId, f.axes, f.prevAxes, AXES_PER_DEVICE)
  }

  /** The button events of a log strictly ascend. */
  predicate ButtonsAscending(events: seq<HidEvent>) {
    forall k, l :: 0 <= k < l < |events| && events[k].ButtonEvent? && events[l].ButtonEvent? ==>
      events[k].button < events[l].button
  }

  /** Every button event of a log lies in `[lo, hi)`. */
  predicate ButtonsWithin(events: seq<HidEvent>, lo: nat, hi: nat) {
    forall k :: 0 <= k < |events| && events[k].ButtonEvent? ==> lo <= events[k].button < hi
  }

  /** No button event of a log comes after an axis event. */
  predicate ButtonsBeforeAxes(events: seq<HidEvent>) {
    forall k, l :: 0 <= k < l < |events| && events[k].AxisEvent? ==> events[l].AxisEvent?
  }

  /** Every axis event of a log drives an axis owned by a device in `[lo, hi)`. */
  predicate AxesOwnedWithin(events: seq<HidEvent>, lo: nat, hi: nat) {
    forall k :: 0 <= k < |events| && events[k].AxisEvent? ==> lo <= AxisSlot(events[k].axis).0 < hi
  }

  /** Two ascending logs whose button ranges follow each other make an ascending log. */
  lemma AppendOrdered(a: seq<HidEvent>, b: seq<HidEvent>, lo: nat, mid: nat, hi: nat)
    requires lo <= mid <= hi
    requires ButtonsAscending(a) && ButtonsWithin(a, lo, mid)
    requires ButtonsAscending(b) && ButtonsWithin(b, mid, hi)
    ensures ButtonsAscending(a + b) && ButtonsWithin(a + b, lo, hi)
  {
    var ab := a + b;
    forall k, l | 0 <= k < l < |ab| && ab[k].ButtonEvent? && ab[l].ButtonEvent?
      ensures ab[k].button < ab[l].button
    {
      if l < |a| {
        assert ab[k] == a[k] && ab[l] == a[l];
      } else if k < |a| {
        assert ab[k] == a[k] && ab[l] == b[l - |a|];
      } else {
        assert ab[k] == b[k - |a|] && ab[l] == b[l - |a|];
      }
    }
    forall k | 0 <= k < |ab| && ab[k].ButtonEvent?
      ensures lo <= ab[k].button < hi
    {
      if k < |a| {
        assert ab[k] == a[k];
      } else {
        assert ab[k] == b[k - |a|];
      }
    }
  }

  /** Two logs whose axis owners lie in adjacent ranges make a log with owners in the joined range. */
  lemma AppendOwned(a: seq<HidEvent>, b: seq<HidEvent>, lo: nat, mid: nat, hi: nat)
    requires lo <= mid <= hi
    requires AxesOwnedWithin(a, lo, mid) && AxesOwnedWithin(b, mid, hi)
    ensures AxesOwnedWithin(a + b, lo, hi)
  {
    var ab := a + b;
    forall k | 0 <= k < |ab| && ab[k].AxisEvent?
      ensures lo <= AxisSlot(ab[k].axis).0 < hi
    {
      if k < |a| {
        assert ab[k] == a[k];
      } else {
        assert ab[k] == b[k - |a|];
      }
    }
  }

  /**
   * A cycle emits nothing after a failed fetch; otherwise its button events
   * lie in the device's block in ascending order and its axis events drive
   * only the device's own axes.
   */
  lemma CycleEventsOrdered(deviceId: nat, v: DeviceState, t: Transfer)
    requires Shaped(v) && Delivers(t, DATA_BYTES)
    ensures t.Failed? ==> CycleEvents(deviceId, v, t) == []
    ensures ButtonsWithin(CycleEvents(deviceId, v, t), ButtonIndex(deviceId, 0), ButtonIndex(deviceId, BUTTONS_PER_DEVICE))
    ensures AxesOwnedWithin(CycleEvents(deviceId, v, t), deviceId, deviceId + 1)
    ensures ButtonsAscending(CycleEvents(deviceId, v, t))
    ensures ButtonsBeforeAxes(CycleEvents(deviceId, v, t))
  {
    if t.Received? {
      var f := Fetched(v, t);
      var buttons := ButtonDiff(deviceId, f.signal, f.prevSignal, BUTTONS_PER_DEVICE);
      var axes := AxisDiff(deviceId, f.axes, f.prevAxes, AXES_PER_DEVICE);
      assert CycleEvents(deviceId, v, t) == buttons + axes;
      ButtonDiffOrdered(deviceId, f.signal, f.prevSignal, BUTTONS_PER_DEVICE);
      AxisDiffOwned(deviceId, f.axes, f.prevAxes, AXES_PER_DEVICE);
      var end := ButtonIndex(deviceId, BUTTONS_PER_DEVICE);
      AppendOrdered(buttons, axes, ButtonIndex(deviceId, 0), end, end);
      AppendOwned(buttons, axes, deviceId, deviceId, deviceId + 1);
      assert forall k :: 0 <= k < |buttons + axes| ==>
        (buttons + axes)[k] == if k < |buttons| then buttons[k] else axes[k - |buttons|];
    }
  }

  /** Running the same cycle twice: the second run emits nothing and leaves the state as the first left it. */
  lemma CycleSettles(deviceId: nat, v: DeviceState, t: Transfer)
    requires Shaped(v) && Delivers(t, DATA_BYTES)
    ensures CycleEvents(deviceId, Processed(v, t), t) == []
    ensures Processed(Processed(v, t), t) == Processed(v, t)
  {
    if t.Received? {
      var f := Fetched(v, t);
      ButtonDiffSettles(deviceId, f.signal, f.prevSignal);
      AxisDiffSettles(deviceId, f.axes, f.prevAxes);
    }
  }

  /** `initiatePreviousData` on a reply: the current fields become the last reported ones, without a decode. */
  function Baseline(v: DeviceState): (r: DeviceState)
    ensures r.signal == v.signal && r.axes == v.axes
    ensures r.prevSignal == v.signal && r.prevAxes == v.axes
  {
    v.(prevSignal := v.signal, prevAxes := v.axes)
  }

  /** `initiateDevice`: the baseline is taken only when the probe and the baseline request both succeed. */
  function Primed(v: DeviceState, probe: Transfer, prime: Transfer): DeviceState {
    if probe.Received? && prime.Received? then Baseline(v) else v
  }

  /** A primed device whose next reply repeats its current state emits nothing. */
  lemma PrimedIsQuiet(deviceId: nat, v: DeviceState, probe: Transfer, prime: Transfer, t: Transfer)
    requires Shaped(v) && Delivers(t, DATA_BYTES) && probe.Received? && prime.Received? && t.Received?
    requires Decode(t.bytes) == Sample(v.signal, v.axes)
    ensures CycleEvents(deviceId, Primed(v, probe, prime), t) == []
  {
    ButtonDiffQuiet(deviceId, v.signal, v.signal, 0, BUTTONS_PER_DEVICE);
    assert !Exceeds(v.axes[0], v.axes[0]) && !Exceeds(v.axes[1], v.axes[1]);
    assert AxisDiff(deviceId, v.axes, v.axes, 1) == [];
  }

  /**
   * Priming at start-up copies the constructor's zeros, not a decoded reply:
   * the first cycle after it reports a pressed button 0 and compares the
   * axes against zero.
   */
  lemma StartupPrimeReportsPresses(deviceId: nat, probe: Transfer, prime: Transfer, t: Transfer)
    requires probe.Received? && prime.Received? && t.Received? && Delivers(t, DATA_BYTES)
    requires Decode(t.bytes).signal == 1
    ensures CycleEvents(deviceId, Primed(DeviceState(0, 0, [0, 0], [0, 0]), probe, prime), t)
      == [ButtonEvent(ButtonIndex(deviceId, 0), true)] + AxisDiff(deviceId, Decode(t.bytes).axes, [0, 0], AXES_PER_DEVICE)
  {
    assert Primed(DeviceState(0, 0, [0, 0], [0, 0]), probe, prime) == DeviceState(0, 0, [0, 0], [0, 0]);
    forall j | 1 <= j < BUTTONS_PER_DEVICE
      ensures ReadBit(1, j) == ReadBit(0, j)
    {
      assert ReadBit(1, j) == ReadBit(0, j - 1);
      ZeroHasNoBits(j - 1);
      ZeroHasNoBits(j);
    }
    ButtonDiffQuiet(deviceId, 1, 0, 1, BUTTONS_PER_DEVICE);
    assert ButtonDiff(deviceId, 1, 0, 1) == [ButtonEvent(ButtonIndex(deviceId, 0), true)];
  }

  /** 5 is 0b101: no bit from 3 up is set. */
  lemma HighBitsOfFive(j: nat)
    requires 3 <= j < WORD_BITS
    ensures !ReadBit(5, j)
  {
    assert ReadBit(5, j) == ReadBit(2, j - 1);
    assert ReadBit(2, j - 1) == ReadBit(1, j - 2);
    assert ReadBit(1, j - 2) == ReadBit(0, j - 3);
    ZeroHasNoBits(j - 3);
  }

  /** Device 1 sees bits 0 and 2 rise from an all-clear word: buttons 25 and 27 are pressed. */
  lemma ButtonDiffExample()
    ensures ButtonDiff(1, 5, 0, BUTTONS_PER_DEVICE) == [ButtonEvent(25, true), ButtonEvent(27, true)]
  {
    forall j | 3 <= j < BUTTONS_PER_DEVICE
      ensures ReadBit(5, j) == ReadBit(0, j)
    {
      HighBitsOfFive(j);
      ZeroHasNoBits(j);
    }
    ButtonDiffQuiet(1, 5, 0, 3, BUTTONS_PER_DEVICE);
    assert ButtonDiff(1, 5, 0, 1) == [ButtonEvent(25, true)];
    assert ButtonDiff(1, 5, 0, 2) == [ButtonEvent(25, true)];
  }

  /** The same diff leaves the last reported word equal to the signal word. */
  lemma CopyLowBitsExample()
    ensures CopyLowBits(0, 5, BUTTONS_PER_DEVICE) == 5
  {
    var synced := CopyLowBits(0, 5, BUTTONS_PER_DEVICE);
    CopyLowBitsBits(0, 5, BUTTONS_PER_DEVICE);
    forall j | 0 <= j < WORD_BITS
      ensures ReadBit(synced, j) == ReadBit(5, j)
    {
      if j >= BUTTONS_PER_DEVICE {
        HighBitsOfFive(j);
        ZeroHasNoBits(j);
      }
    }
    WordModulus();
    BitsDetermineWord(synced, 5, WORD_BITS);
  }

  /** Device 0 moves its axes by 4 and by 20: only the Y update, to 520, is emitted. */
  lemma AxisDiffExample()
    ensures AxisDiff(0, [504, 520], [500, 500], AXES_PER_DEVICE) == [AxisEvent(Y, 520)]
    ensures SyncAxes([504, 520], [500, 500]) == [500, 520]
  {
  }
}
