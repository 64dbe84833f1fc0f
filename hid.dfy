/**
 * The USB HID joystick the firmware drives. The library itself is an
 * external collaborator; here it is an append-only log of the updates it
 * receives, so that "emit exactly these deltas" can be stated.
 */
module Hid {
  /** The six axes the joystick is configured with. */
  datatype AxisName = X | Y | Z | Rx | Ry | Rz

  datatype HidEvent =
    | ButtonEvent(button: nat, pressed: bool)
    | AxisEvent(axis: AxisName, value: int)

  class HidSink {
    var log: seq<HidEvent>

    constructor ()
      ensures log == []
    {
      log := [];
    }

    /** `Joystick.setButton(button, value)`. */
    method SetButton(button: nat, pressed: bool)
      modifies this
      ensures log == old(log) + [ButtonEvent(button, pressed)]
    {
      log := log + [ButtonEvent(button, pressed)];
    }

    /** `Joystick.setXAxis(value)`, `setYAxis`, ... selected by `axis`. */
    method SetAxisValue(axis: AxisName, value: int)
      modifies this
      ensures log == old(log) + [AxisEvent(axis, value)]
    {
      log := log + [AxisEvent(axis, value)];
    }
  }
}
