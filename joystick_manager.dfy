/**
 * The top level: four device handlers at fixed I2C addresses, set up once
 * and then processed in series every cycle. The HID joystick is shared by
 * all four, so the events of one cycle are the events of device 0, then
 * device 1, then device 2, then device 3.
 */
module Joysticks {
  import opened IntTypes
  import opened Hid
  import opened I2cComm
  import opened DeviceLogic
  import opened Devices

  const NUM_DEVICES: nat := 4
  /** The I2C address of each device, by device number. */
  const I2C_ADDRESSES: seq<uint8> := [0x0C, 0x0D, 0x0E, 0x0F]

  /** Every device's outcome in a cycle came from a request cycle of the expected length. */
  predicate AllDeliver(ts: seq<Transfer>, count: nat) {
    |ts| == NUM_DEVICES && forall k :: 0 <= k < NUM_DEVICES ==> Delivers(ts[k], count)
  }

  predicate AllShaped(states: seq<DeviceState>) {
    forall k :: 0 <= k < |states| ==> Shaped(states[k])
  }

  /** The HID events of one cycle over devices `0 .. n-1`, in the order they are processed. */
  function CycleLog(states: seq<DeviceState>, ts: seq<Transfer>, n: nat): (events: seq<HidEvent>)
    requires n <= |states| == |ts| == NUM_DEVICES && AllShaped(states) && AllDeliver(ts, DATA_BYTES)
  {
    if n == 0 then [] else CycleLog(states, ts, n - 1) + CycleEvents(n - 1, states[n - 1], ts[n - 1])
  }

  lemma AppendAssoc(a: seq<HidEvent>, b: seq<HidEvent>, c: seq<HidEvent>)
    ensures (a + b) + c == a + (b + c)
  {
  }

  /**
   * Over the first `n` devices, every button event lies below the block of
   * device `n`, the buttons strictly ascend across the whole cycle, and
   * every axis event belongs to one of those devices.
   */
  lemma {:induction false} CycleLogOrdered(states: seq<DeviceState>, ts: seq<Transfer>, n: nat)
    requires n <= |states| == |ts| == NUM_DEVICES && AllShaped(states) && AllDeliver(ts, DATA_BYTES)
    ensures ButtonsWithin(CycleLog(states, ts, n), 0, ButtonIndex(n, 0))
    ensures AxesOwnedWithin(CycleLog(states, ts, n), 0, n)
    ensures ButtonsAscending(CycleLog(states, ts, n))
  {
    if n > 0 {
      CycleLogOrdered(states, ts, n - 1);
      CycleEventsOrdered(n - 1, states[n - 1], ts[n - 1]);
      var before := CycleLog(states, ts, n - 1);
      var mine := CycleEvents(n - 1, states[n - 1], ts[n - 1]);
      assert CycleLog(states, ts, n) == before + mine;
      assert ButtonIndex(n - 1, BUTTONS_PER_DEVICE) == ButtonIndex(n, 0);
      AppendOrdered(before, mine, 0, ButtonIndex(n - 1, 0), ButtonIndex(n, 0));
      AppendOwned(before, mine, 0, n - 1, n);
    }
  }

  /** Running a cycle again with the same replies emits nothing and changes no device. */
  lemma ProcessSettles(states: seq<DeviceState>, ts: seq<Transfer>)
    requires |states| == NUM_DEVICES && AllShaped(states) && AllDeliver(ts, DATA_BYTES)
    ensures var next := seq(NUM_DEVICES, k requires 0 <= k < NUM_DEVICES => Processed(states[k], ts[k]));
      && AllShaped(next)
      && CycleLog(next, ts, NUM_DEVICES) == []
      && seq(NUM_DEVICES, k requires 0 <= k < NUM_DEVICES => Processed(next[k], ts[k])) == next
  {
    var next := seq(NUM_DEVICES, k requires 0 <= k < NUM_DEVICES => Processed(states[k], ts[k]));
    forall k | 0 <= k < NUM_DEVICES
      ensures CycleEvents(k, next[k], ts[k]) == [] && Processed(next[k], ts[k]) == next[k]
    {
      CycleSettles(k, states[k], ts[k]);
    }
    assert CycleLog(next, ts, 1) == [];
    assert CycleLog(next, ts, 2) == [];
    assert CycleLog(next, ts, 3) == [];
  }

  class JoystickManager {
    /** `DeviceHandler* m_devices[4]`, filled once by the constructor and never reassigned. */
    const devices: seq<DeviceHandler>
    ghost const Repr: set<object>

    /**
     * Four handlers, device `k` at the `k`-th address, each owning its own
     * buffers: no two handlers share an object.
     */
    ghost predicate Valid() {
      |devices| == NUM_DEVICES
      && (forall k :: 0 <= k < NUM_DEVICES ==>
            devices[k].Valid() && devices[k].Repr() <= Repr
            && devices[k].deviceId as nat == k && devices[k].i2cAddr == I2C_ADDRESSES[k])
      && (forall k, l :: 0 <= k < NUM_DEVICES && 0 <= l < NUM_DEVICES && k != l ==> devices[k].Separate(devices[l]))
    }

    /** The state of every handler, by device number. */
    ghost function States(): (s: seq<DeviceState>)
      requires Valid()
      reads Repr
      ensures |s| == NUM_DEVICES && AllShaped(s)
    {
      [devices[0].State(), devices[1].State(), devices[2].State(), devices[3].State()]
    }

    /** One handler per device, each at its own address and with all state zero. */
    constructor ()
      ensures Valid() && fresh(Repr)
      ensures forall k :: 0 <= k < NUM_DEVICES ==> States()[k] == DeviceState(0, 0, [0, 0], [0, 0])
    {
      var handlers: seq<DeviceHandler> := [];
      ghost var objects: set<object> := {};
      var device := 0;
      while device < NUM_DEVICES
        invariant device <= NUM_DEVICES && |handlers| == device && fresh(objects)
        invariant forall k :: 0 <= k < device ==>
          handlers[k].Valid() && handlers[k].Repr() <= objects
          && handlers[k].deviceId as nat == k && handlers[k].i2cAddr == I2C_ADDRESSES[k]
          && handlers[k].State() == DeviceState(0, 0, [0, 0], [0, 0])
        invariant forall k, l :: 0 <= k < device && 0 <= l < device && k != l ==> handlers[k].Separate(handlers[l])
      {
        var handler := new DeviceHandler(device as uint8, I2C_ADDRESSES[device]);
        handlers := handlers + [handler];
        objects := objects + handler.Repr();
        device := device + 1;
      }
      devices := handlers;
      Repr := objects;
    }

    /** `initiateAllDevices`: every device in turn is probed and, when present, primed. */
    method InitiateAllDevices(probes: seq<Transfer>, primes: seq<Transfer>)
      requires Valid() && AllDeliver(probes, PROBE_BYTES) && AllDeliver(primes, PROBE_BYTES)
      modifies Repr
      ensures forall k :: 0 <= k < NUM_DEVICES ==> States()[k] == Primed(old(States())[k], probes[k], primes[k])
    {
      ghost var s0 := States();
      for device := 0 to NUM_DEVICES
        invariant forall k :: 0 <= k < NUM_DEVICES ==>
          devices[k].State() == if k < device then Primed(s0[k], probes[k], primes[k]) else s0[k]
      {
        InitiateTurn(device, probes[device], primes[device]);
      }
    }

    /** One turn of the `initiateAllDevices` loop: device `device` is set up and no other handler changes. */
    method InitiateTurn(device: nat, probe: Transfer, prime: Transfer)
      requires Valid() && device < NUM_DEVICES && Delivers(probe, PROBE_BYTES) && Delivers(prime, PROBE_BYTES)
      modifies Repr
      ensures forall k :: 0 <= k < NUM_DEVICES ==>
        devices[k].State() == if k == device then Primed(old(devices[k].State()), probe, prime) else old(devices[k].State())
    {
      devices[device].InitiateDevice(probe, prime);
    }

    /** `processDevices`: one cycle of every device in turn; the joystick sees their events in device order. */
    method ProcessDevices(hid: HidSink, ts: seq<Transfer>)
      requires Valid() && AllDeliver(ts, DATA_BYTES)
      modifies Repr, hid
      ensures forall k :: 0 <= k < NUM_DEVICES ==> States()[k] == Processed(old(States())[k], ts[k])
      ensures hid.log == old(hid.log) + CycleLog(old(States()), ts, NUM_DEVICES)
    {
      ghost var s0 := States();
      for device := 0 to NUM_DEVICES
        invariant forall k :: 0 <= k < NUM_DEVICES ==> devices[k].State() == if k < device then Processed(s0[k], ts[k]) else s0[k]
        invariant hid.log == old(hid.log) + CycleLog(s0, ts, device)
      {
        ProcessTurn(hid, device, ts[device]);
        AppendAssoc(old(hid.log), CycleLog(s0, ts, device), CycleEvents(device, s0[device], ts[device]));
      }
    }

    /** One turn of the `processDevices` loop: device `device` runs its cycle and no other handler changes. */
    method ProcessTurn(hid: HidSink, device: nat, t: Transfer)
      requires Valid() && device < NUM_DEVICES && Delivers(t, DATA_BYTES)
      modifies Repr, hid
      ensures forall k :: 0 <= k < NUM_DEVICES ==>
        devices[k].State() == if k == device then Processed(old(devices[k].State()), t) else old(devices[k].State())
      ensures hid.log == old(hid.log) + CycleEvents(device, old(devices[device].State()), t)
    {
      devices[device].ProcessDevice(hid, t);
    }
  }
}
