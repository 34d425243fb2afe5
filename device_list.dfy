/**
 * deviceListChanged (plugins/audio_interface/bluetooth_controller/index.ts): when
 * bluetoothctl reports its device list, every trusted device's MAC is registered with
 * the AVRCP controller through addDevice, in list order.
 */
module DeviceList {
  import opened DeviceRegistry
  import Avrcp

  /** A device as bluetoothctl reports it; only the MAC and the trusted flag are read. */
  datatype BtDevice = BtDevice(mac: Mac, trusted: bool)

  /** The MACs of the trusted devices, in list order. */
  function TrustedMacs(devices: seq<BtDevice>): (r: seq<Mac>)
    ensures |r| <= |devices|
  {
    if devices == [] then []
    else
      var pre := TrustedMacs(devices[..|devices| - 1]);
      var d := devices[|devices| - 1];
      if d.trusted then pre + [d.mac] else pre
  }

  /** addDevice for each MAC in turn. */
  function AddAll(s: State, macs: seq<Mac>): (r: State)
    ensures forall k :: k in r.devices <==> k in s.devices || k in macs
    ensures r.streams == s.streams && r.closes == s.closes && r.emitted == s.emitted
  {
    if macs == [] then s else AddDevice(AddAll(s, macs[..|macs| - 1]), macs[|macs| - 1])
  }

  /** deviceListChanged: addDevice is called for exactly the trusted devices, in list order. */
  method DeviceListChanged(monitor: Avrcp.Controller, devices: seq<BtDevice>)
    requires monitor.Valid()
    modifies monitor
    ensures monitor.Valid()
    ensures monitor.View() == AddAll(old(monitor.View()), TrustedMacs(devices))
  {
    var i := 0;
    while i < |devices|
      invariant 0 <= i <= |devices|
      invariant monitor.Valid()
      invariant monitor.View() == AddAll(old(monitor.View()), TrustedMacs(devices[..i]))
    {
      assert devices[..i + 1][..i] == devices[..i];
      if devices[i].trusted {
        monitor.AddDevice(devices[i].mac);
      }
      i := i + 1;
    }
    assert devices[..|devices|] == devices;
  }

  // ---------------------------------------------------------------------------

  /** A MAC is registered exactly when some listed device with that MAC is trusted. */
  lemma {:induction false} TrustedMacsMembers(devices: seq<BtDevice>, m: Mac)
    ensures m in TrustedMacs(devices) <==> exists i :: 0 <= i < |devices| && devices[i].trusted && devices[i].mac == m
    decreases |devices|
  {
    if devices != [] {
      var pre := devices[..|devices| - 1];
      TrustedMacsMembers(pre, m);
      if exists i :: 0 <= i < |devices| && devices[i].trusted && devices[i].mac == m {
        var i :| 0 <= i < |devices| && devices[i].trusted && devices[i].mac == m;
        if i < |pre| {
          assert pre[i] == devices[i];
        }
      }
      if exists i :: 0 <= i < |pre| && pre[i].trusted && pre[i].mac == m {
        var i :| 0 <= i < |pre| && pre[i].trusted && pre[i].mac == m;
        assert devices[i] == pre[i];
      }
    }
  }

  /** Two reports in a row register the MACs of the first, then those of the second. */
  lemma {:induction false} TrustedMacsAppend(a: seq<BtDevice>, b: seq<BtDevice>)
    ensures TrustedMacs(a + b) == TrustedMacs(a) + TrustedMacs(b)
    decreases |b|
  {
    if b == [] {
      assert a + b == a;
    } else {
      var b' := b[..|b| - 1];
      assert (a + b)[..|a + b| - 1] == a + b';
      assert (a + b)[|a + b| - 1] == b[|b| - 1];
      TrustedMacsAppend(a, b');
    }
  }

  /**
   * Registering a list of MACs adds exactly the unknown ones, each unbound, and keeps
   * every known entry and everything the controller opened, closed or dispatched.
   */
  lemma {:induction false} AddAllSpec(s: State, macs: seq<Mac>)
    ensures AddAll(s, macs).devices.Keys == s.devices.Keys + (set m | m in macs)
    ensures forall k :: k in s.devices ==> AddAll(s, macs).devices[k] == s.devices[k]
    ensures forall k :: k in AddAll(s, macs).devices && k !in s.devices ==> AddAll(s, macs).devices[k] == Unbound
    ensures AddAll(s, macs).streams == s.streams && AddAll(s, macs).closes == s.closes
    ensures AddAll(s, macs).emitted == s.emitted
    decreases |macs|
  {
    if macs != [] {
      var pre := macs[..|macs| - 1];
      AddAllSpec(s, pre);
      assert (set m | m in macs) == (set m | m in pre) + {macs[|macs| - 1]} by {
        assert forall m :: m in macs <==> m in pre || m == macs[|macs| - 1];
      }
    }
  }

  /** When every MAC is already known, registering them changes nothing. */
  lemma {:induction false} AddAllKnown(s: State, macs: seq<Mac>)
    requires forall i :: 0 <= i < |macs| ==> macs[i] in s.devices
    ensures AddAll(s, macs) == s
    decreases |macs|
  {
    if macs != [] {
      AddAllKnown(s, macs[..|macs| - 1]);
    }
  }

  /** Reporting the same device list twice registers the same devices as reporting it once. */
  lemma DeviceListChangedIdempotent(s: State, devices: seq<BtDevice>)
    ensures AddAll(AddAll(s, TrustedMacs(devices)), TrustedMacs(devices)) == AddAll(s, TrustedMacs(devices))
  {
    var macs := TrustedMacs(devices);
    AddAllSpec(s, macs);
    AddAllKnown(AddAll(s, macs), macs);
  }
}
