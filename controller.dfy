/**
 * AVRCPController (plugins/audio_interface/bluetooth_controller/AVRCP.ts) as a class
 * whose methods update the device dictionary in place. Each method is proved to
 * perform exactly the corresponding step of DeviceRegistry, and to keep its
 * invariants; the properties of those steps are proved in RegistryProperties.
 *
 * The udev monitor, the input-event library and the event dispatcher are foreign:
 * opening a keyboard appends the path it is opened on to `streams` (its handle is
 * its position there), `close()` appends the handle to `closes`, and dispatching a
 * key appends its code to `emitted`.
 */
module Avrcp {
  import opened Wrappers
  import opened Quotes
  import opened DeviceRegistry
  import RegistryProperties

  class Controller {
    var devices: map<Mac, Entry>
    var order: seq<Mac>
    var streams: seq<string>
    var closes: seq<HandleId>
    var emitted: seq<int>

    /** The controller's state as a value. */
    function View(): State
      reads this
    {
      State(devices, order, streams, closes, emitted)
    }

    ghost predicate Valid()
      reads this
    {
      DeviceRegistry.Valid(View())
    }

    /** A new controller starts with an empty dictionary and has opened nothing. */
    constructor ()
      ensures Valid() && View() == Initial
    {
      devices := map[];
      order := [];
      streams := [];
      closes := [];
      emitted := [];
    }

    /** addDevice(mac) */
    method AddDevice(mac: Mac)
      requires Valid()
      modifies this
      ensures Valid()
      ensures View() == DeviceRegistry.AddDevice(old(View()), mac)
    {
      RegistryProperties.StepKeepsInvariants(View(), AddDeviceCall(mac));
      var known := mac in devices;
      if !known {
        devices := devices[mac := Unbound];
        order := order + [mac];
      }
    }

    /** removeDevice(mac) */
    method RemoveDevice(mac: Mac) returns (o: Outcome)
      requires Valid()
      modifies this
      ensures Valid()
      ensures (View(), o) == DeviceRegistry.RemoveDevice(old(View()), mac)
    {
      RegistryProperties.StepKeepsInvariants(View(), RemoveDeviceCall(mac));
      if mac in devices {
        var known := devices[mac];
        if known.inputEvent.None? {
          // `.close()` on the null keyboard throws before the delete
          return TypeError;
        }
        closes := closes + [known.inputEvent.value];
        devices := devices - {mac};
        order := Without(order, mac);
      }
      o := Done;
    }

    /** The udev monitor's `add` handler. */
    method OnUdevAdd(device: UdevDevice) returns (o: Outcome)
      requires Valid()
      modifies this
      ensures Valid()
      ensures (View(), o) == UdevAdd(old(View()), device)
    {
      ghost var s := View();
      if Truthy(device.name) && StripQuotes(device.name.value) in devices {
        var raw := device.name.value;
        if raw !in devices {
          // the write goes through the unstripped NAME: `undefined.virtualPath = ...`
          return TypeError;
        }
        devices := devices[raw := devices[raw].(virtualPath := device.devpath)];
        o := Done;
      } else if Truthy(device.devpath) {
        BindKeyboards(device.devpath.value);
        o := Done;
      } else {
        o := Done;
      }
      assert Valid() by {
        RegistryProperties.StepKeepsInvariants(s, UdevAddEvent(device));
      }
    }

    /**
     * The for..in loop of the `add` handler: open a keyboard for every entry whose
     * virtualPath equals `devpath`, on that entry's devicePath, and store it there.
     */
    method BindKeyboards(devpath: string)
      requires forall i :: 0 <= i < |order| ==> order[i] in devices
      modifies this
      ensures order == old(order) && closes == old(closes) && emitted == old(emitted)
      ensures devices == BindAll(old(devices), order, devpath, |old(streams)|).0
      ensures streams == old(streams) + BindAll(old(devices), order, devpath, |old(streams)|).1
    {
      var i := 0;
      while i < |order|
        invariant 0 <= i <= |order|
        invariant order == old(order) && closes == old(closes) && emitted == old(emitted)
        invariant devices.Keys == old(devices).Keys
        invariant devices == BindAll(old(devices), order[..i], devpath, |old(streams)|).0
        invariant streams == old(streams) + BindAll(old(devices), order[..i], devpath, |old(streams)|).1
      {
        var mac := order[i];
        assert order[..i + 1][..i] == order[..i];
        if devices[mac].virtualPath == Some(devpath) {
          var item := devices[mac];
          // `item.devicePath == device.DEVNAME` is a comparison whose result is dropped
          var keyboard := |streams|;
          streams := streams + [item.devicePath];
          devices := devices[mac := item.(inputEvent := Some(keyboard))];
        }
        i := i + 1;
      }
      assert order[..|order|] == order;
    }

    /** The udev monitor's `remove` handler. */
    method OnUdevRemove(device: UdevDevice) returns (o: Outcome)
      requires Valid()
      modifies this
      ensures Valid()
      ensures (View(), o) == UdevRemove(old(View()), device)
    {
      ghost var s := View();
      o := Done;
      if Truthy(device.devname) {
        var failed := CloseKeyboards(device.devname.value);
        if failed {
          o := TypeError;
        }
      }
      assert Valid() by {
        RegistryProperties.StepKeepsInvariants(s, UdevRemoveEvent(device));
      }
    }

    /**
     * The for..in loop of the `remove` handler: close the keyboard of every entry whose
     * devicePath equals `devname`, stopping with a TypeError at a null keyboard.
     */
    method CloseKeyboards(devname: string) returns (failed: bool)
      requires forall i :: 0 <= i < |order| ==> order[i] in devices
      modifies this
      ensures devices == old(devices) && order == old(order) && streams == old(streams) && emitted == old(emitted)
      ensures closes == old(closes) + CloseMatching(devices, order, devname).0
      ensures failed == CloseMatching(devices, order, devname).1
    {
      var i := 0;
      while i < |order|
        invariant 0 <= i <= |order|
        invariant devices == old(devices) && order == old(order) && streams == old(streams) && emitted == old(emitted)
        invariant closes == old(closes) + CloseMatching(devices, order[..i], devname).0
        invariant !CloseMatching(devices, order[..i], devname).1
      {
        var mac := order[i];
        assert order[..i + 1][..i] == order[..i];
        if devices[mac].devicePath == devname {
          if devices[mac].inputEvent.None? {
            // `.close()` on the null keyboard throws; the keyboards closed so far stay closed
            RegistryProperties.CloseMatchingStops(devices, order, devname, i + 1);
            return true;
          }
          closes := closes + [devices[mac].inputEvent.value];
        }
        i := i + 1;
      }
      assert order[..|order|] == order;
      failed := false;
    }

    /** A `keypress` from a live keyboard is re-dispatched to onKeyPress subscribers. */
    method DispatchKeyPress(h: HandleId, code: int)
      requires Valid() && Live(View(), h)
      modifies this
      ensures Valid()
      ensures View() == KeyPress(old(View()), h, code)
    {
      RegistryProperties.StepKeepsInvariants(View(), KeyPressEvent(h, code));
      emitted := emitted + [code];
    }
  }
}
