/**
 * One joystick device on the I2C bus: its identity, the last decoded
 * signal word and axis values, and the values last reported to the HID
 * joystick. Each method is proved to follow the functions of
 * `DeviceLogic`; the HID joystick is the append-only `HidSink` log and
 * every request cycle is an oracle `Transfer` passed in by the caller.
 */
module Devices {
  import opened IntTypes
  import opened BitManipulation
  import opened Hid
  import opened I2cComm
  import opened DeviceLogic

  class DeviceHandler {
    const deviceId: uint8
    const i2cAddr: uint8
    var signalState: uint32
    var prevSignalState: uint32
    /** `int16_t m_axisState[2]` */
    const axisState: array<int>
    /** `int16_t m_prevAxisState[2]` */
    const prevAxisState: array<int>

    /** Both axis buffers hold two values and are distinct. */
    ghost predicate Valid() {
      axisState.Length == AXES_PER_DEVICE && prevAxisState.Length == AXES_PER_DEVICE
      && axisState != prevAxisState
    }

    /** Everything the handler's methods may update. */
    ghost function Repr(): set<object> {
      {this, axisState, prevAxisState}
    }

    /** Two handlers share no object. */
    ghost predicate Separate(other: DeviceHandler) {
      this != other
      && axisState != other.axisState && axisState != other.prevAxisState
      && prevAxisState != other.axisState && prevAxisState != other.prevAxisState
    }

    ghost function State(): DeviceState
      reads this, axisState, prevAxisState
    {
      DeviceState(signalState, prevSignalState, axisState[..], prevAxisState[..])
    }

    /** A handler starts with every word and axis value zero. */
    constructor (deviceId: uint8, i2cAddr: uint8)
      ensures this.deviceId == deviceId && this.i2cAddr == i2cAddr
      ensures Valid() && fresh(axisState) && fresh(prevAxisState)
      ensures State() == DeviceState(0, 0, [0, 0], [0, 0])
    {
      this.deviceId := deviceId;
      this.i2cAddr := i2cAddr;
      signalState := 0;
      prevSignalState := 0;
      axisState := new int[AXES_PER_DEVICE](_ => 0);
      prevAxisState := new int[AXES_PER_DEVICE](_ => 0);
      new;
      assert axisState[..] == [0, 0];
      assert prevAxisState[..] == [0, 0];
    }

    /** The presence probe: a 7-byte request cycle; the device is present exactly when it succeeds. */
    method ReportDeviceExists(probe: Transfer) returns (present: bool)
      requires Delivers(probe, PROBE_BYTES)
      ensures present <==> probe.Received?
    {
      if probe.Received? {
        present := true;
      } else {
        present := false;
      }
    }

    /**
     * The baseline request: when the 7-byte cycle succeeds the current
     * signal word and axis values are copied into the last reported ones.
     * The reply itself is not decoded.
     */
    method InitiatePreviousData(prime: Transfer)
      requires Valid() && Delivers(prime, PROBE_BYTES)
      modifies this`prevSignalState, prevAxisState
      ensures State() == if prime.Received? then Baseline(old(State())) else old(State())
    {
      if prime.Received? {
        prevSignalState := signalState;
        prevAxisState[0] := axisState[0];
        prevAxisState[1] := axisState[1];
        assert prevAxisState[..] == axisState[..];
      }
    }

    /** The 11-byte data request: on success the signal word and axes are replaced by the decode of the reply. */
    method GetDeviceData(t: Transfer) returns (ok: bool)
      requires Valid() && Delivers(t, DATA_BYTES)
      modifies this`signalState, axisState
      ensures ok <==> t.Received?
      ensures State() == Fetched(old(State()), t)
    {
      if t.Received? {
        var buf := t.bytes;
        PackWordBytes(buf[5], buf[6], buf[7], buf[8]);
        signalState := PackWord(buf[5], buf[6], buf[7], buf[8]);
        axisState[0] := ToInt16(buf[1] as int * 0x100 + buf[2] as int);
        axisState[1] := ToInt16(buf[3] as int * 0x100 + buf[4] as int);
        assert axisState[..] == Decode(buf).axes;
        return true;
      }
      return false;
    }

    /**
     * The button pass: for each of the 25 buttons whose bit differs from
     * the last reported word, report the new state to the joystick and
     * patch that bit of the last reported word.
     */
    method EvaluateJoystickButtonChange(hid: HidSink)
      requires Valid()
      modifies this`prevSignalState, hid
      ensures State() == old(State()).(prevSignal := CopyLowBits(old(prevSignalState), signalState, BUTTONS_PER_DEVICE))
      ensures hid.log == old(hid.log) + ButtonDiff(deviceId, signalState, old(prevSignalState), BUTTONS_PER_DEVICE)
    {
      ghost var prev0 := prevSignalState;
      var i: nat := 0;
      while i < BUTTONS_PER_DEVICE
        invariant i <= BUTTONS_PER_DEVICE
        invariant prevSignalState == CopyLowBits(prev0, signalState, i)
        invariant hid.log == old(hid.log) + ButtonDiff(deviceId, signalState, prev0, i)
      {
        ButtonStep(signalState, prev0, i);
        var bs := ReadBit(signalState, i);
        if bs != ReadBit(prevSignalState, i) {
          hid.SetButton(i + BUTTONS_PER_DEVICE * deviceId, bs);
          prevSignalState := SetBit(prevSignalState, i, bs);
        }
        i := i + 1;
      }
    }

    /** `setAxis`: the axis of the (device, axis index) pair gets the value; other pairs change nothing. */
    method SetAxis(hid: HidSink, device: uint8, axisIndex: uint8, value: int)
      modifies hid
      ensures hid.log == old(hid.log) + AxisUpdate(device, axisIndex, value)
    {
      if device == 0 {
        if axisIndex == 0 {
          hid.SetAxisValue(X, value);
        } else if axisIndex == 1 {
          hid.SetAxisValue(Y, value);
        }
      } else if device == 1 {
        if axisIndex == 0 {
          hid.SetAxisValue(Z, value);
        } else if axisIndex == 1 {
          hid.SetAxisValue(Rx, value);
        }
      } else if device == 2 {
        if axisIndex == 0 {
          hid.SetAxisValue(Ry, value);
        } else if axisIndex == 1 {
          hid.SetAxisValue(Rz, value);
        }
      }
    }

    /**
     * The axis pass: each axis whose value moved more than the deadband
     * from the last reported one is reported and becomes the last reported.
     */
    method EvaluateJoystickAxisChange(hid: HidSink)
      requires Valid()
      modifies prevAxisState, hid
      ensures State() == old(State()).(prevAxes := SyncAxes(axisState[..], old(prevAxisState[..])))
      ensures hid.log == old(hid.log) + AxisDiff(deviceId, axisState[..], old(prevAxisState[..]), AXES_PER_DEVICE)
    {
      ghost var prev0 := prevAxisState[..];
      ghost var synced := SyncAxes(axisState[..], prev0);
      var i: nat := 0;
      while i < AXES_PER_DEVICE
        invariant i <= AXES_PER_DEVICE
        invariant forall k :: 0 <= k < AXES_PER_DEVICE ==> prevAxisState[k] == if k < i then synced[k] else prev0[k]
        invariant hid.log == old(hid.log) + AxisDiff(deviceId, axisState[..], prev0, i)
      {
        if Abs(axisState[i] - prevAxisState[i]) > AXIS_DEADBAND {
          SetAxis(hid, deviceId, i, axisState[i]);
          prevAxisState[i] := axisState[i];
        }
        i := i + 1;
      }
      assert prevAxisState[..] == synced;
    }

    /** `initiateDevice`: the baseline is requested only from a device that answered the probe. */
    method InitiateDevice(probe: Transfer, prime: Transfer)
      requires Valid() && Delivers(probe, PROBE_BYTES) && Delivers(prime, PROBE_BYTES)
      modifies this`prevSignalState, prevAxisState
      ensures State() == Primed(old(State()), probe, prime)
    {
      var present := ReportDeviceExists(probe);
      if present {
        InitiatePreviousData(prime);
      }
    }

    /** `processDevice`: one cycle of fetch, button pass and axis pass; nothing after a failed fetch. */
    method ProcessDevice(hid: HidSink, t: Transfer)
      requires Valid() && Delivers(t, DATA_BYTES)
      modifies this`signalState, this`prevSignalState, axisState, prevAxisState, hid
      ensures State() == Processed(old(State()), t)
      ensures hid.log == old(hid.log) + CycleEvents(deviceId, old(State()), t)
    {
      var ok := GetDeviceData(t);
      if ok {
        EvaluateJoystickButtonChange(hid);
        EvaluateJoystickAxisChange(hid);
      }
    }
  }
}
