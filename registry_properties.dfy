/**
 * What each step of DeviceRegistry does, and the invariants every step keeps.
 */
module RegistryProperties {
  import opened Wrappers
  import opened Quotes
  import opened DeviceRegistry

  lemma NoDupPrefix(keys: seq<Mac>, n: nat)
    requires NoDup(keys) && n <= |keys|
    ensures NoDup(keys[..n])
  {
    assert forall i :: 0 <= i < n ==> keys[..n][i] == keys[i];
  }

  // ---------------------------------------------------------------------------
  // Key order

  /** `delete` keeps the for..in order of the other keys: removal distributes over concatenation. */
  lemma {:induction false} WithoutAppend(a: seq<Mac>, b: seq<Mac>, mac: Mac)
    ensures Without(a + b, mac) == Without(a, mac) + Without(b, mac)
    decreases |b|
  {
    if b == [] {
      assert a + b == a;
    } else {
      var pre := b[..|b| - 1];
      assert (a + b)[..|a + b| - 1] == a + pre;
      assert (a + b)[|a + b| - 1] == b[|b| - 1];
      WithoutAppend(a, pre, mac);
    }
  }

  /** The DEVPATH loop visits the listening entries in key order: selection distributes over concatenation. */
  lemma {:induction false} ListeningAppend(m: map<Mac, Entry>, a: seq<Mac>, b: seq<Mac>, devpath: string)
    ensures Listening(m, a + b, devpath) == Listening(m, a, devpath) + Listening(m, b, devpath)
    decreases |b|
  {
    if b == [] {
      assert a + b == a;
    } else {
      var pre := b[..|b| - 1];
      assert (a + b)[..|a + b| - 1] == a + pre;
      assert (a + b)[|a + b| - 1] == b[|b| - 1];
      ListeningAppend(m, a, pre, devpath);
    }
  }

  // ---------------------------------------------------------------------------
  // The two for..in loops

  /**
   * The DEVPATH loop opens one keyboard per listening entry and changes nothing but
   * their keyboards: keys and paths stay, and entries with another virtualPath are
   * left alone.
   */
  lemma {:induction false} BindAllFrame(m: map<Mac, Entry>, keys: seq<Mac>, devpath: string, next: HandleId)
    ensures var (m', paths) := BindAll(m, keys, devpath, next);
      && m'.Keys == m.Keys
      && |paths| == |Listening(m, keys, devpath)|
      && (forall k :: k in m ==> m'[k].virtualPath == m[k].virtualPath && m'[k].devicePath == m[k].devicePath)
      && (forall k :: k in m && m[k].virtualPath != Some(devpath) ==> m'[k] == m[k])
  {
    if keys != [] {
      BindAllFrame(m, keys[..|keys| - 1], devpath, next);
    }
  }

  /**
   * The DEVPATH loop gives the i-th listening entry, in key order, handle `next + i`,
   * opened on its own devicePath.
   */
  lemma {:induction false} BindAllBinds(m: map<Mac, Entry>, keys: seq<Mac>, devpath: string, next: HandleId)
    requires NoDup(keys)
    ensures var (m', paths) := BindAll(m, keys, devpath, next);
      var l := Listening(m, keys, devpath);
      && |paths| == |l|
      && (forall i :: 0 <= i < |l| ==>
            l[i] in m' && m'[l[i]].inputEvent == Some(next + i) && paths[i] == m[l[i]].devicePath)
  {
    if keys != [] {
      var pre := keys[..|keys| - 1];
      var last := keys[|keys| - 1];
      NoDupPrefix(keys, |keys| - 1);
      BindAllBinds(m, pre, devpath, next);
      BindAllFrame(m, pre, devpath, next);
      var (m1, paths1) := BindAll(m, pre, devpath, next);
      var lpre := Listening(m, pre, devpath);
      assert last !in lpre by {
        assert last !in pre;
      }
      if last in m && m[last].virtualPath == Some(devpath) {
        var m' := m1[last := m1[last].(inputEvent := Some(next + |paths1|))];
        var paths := paths1 + [m1[last].devicePath];
        assert BindAll(m, keys, devpath, next) == (m', paths);
        assert Listening(m, keys, devpath) == lpre + [last];
        forall i | 0 <= i < |lpre| + 1
          ensures (lpre + [last])[i] in m' && m'[(lpre + [last])[i]].inputEvent == Some(next + i)
          ensures paths[i] == m[(lpre + [last])[i]].devicePath
        {
          if i < |lpre| {
            assert lpre[i] != last;
          }
        }
      }
    }
  }

  /**
   * The `remove` loop closes the keyboards of the entries on `devname` in key order,
   * and stops with a TypeError at the first such entry whose keyboard is `null`.
   */
  lemma {:induction false} CloseMatchingSpec(m: map<Mac, Entry>, keys: seq<Mac>, devname: string)
    ensures var (closed, failed) := CloseMatching(m, keys, devname);
      var l := OnNode(m, keys, devname);
      && |closed| <= |l|
      && (forall i :: 0 <= i < |closed| ==> m[l[i]].inputEvent == Some(closed[i]))
      && (failed <==> |closed| < |l|)
      && (failed ==> m[l[|closed|]].inputEvent.None?)
  {
    if keys != [] {
      CloseMatchingSpec(m, keys[..|keys| - 1], devname);
    }
  }

  /** Once the `remove` loop has thrown, the keys after that point change nothing. */
  lemma {:induction false} CloseMatchingStops(m: map<Mac, Entry>, keys: seq<Mac>, devname: string, n: nat)
    requires n <= |keys| && CloseMatching(m, keys[..n], devname).1
    ensures CloseMatching(m, keys, devname) == CloseMatching(m, keys[..n], devname)
  {
    if n < |keys| {
      var pre := keys[..|keys| - 1];
      assert pre[..n] == keys[..n];
      CloseMatchingStops(m, pre, devname, n);
    } else {
      assert keys[..n] == keys;
    }
  }

  // ---------------------------------------------------------------------------
  // addDevice and removeDevice

  /** addDevice on an unknown MAC inserts exactly one unbound entry, last in key order. */
  lemma AddDeviceUnknown(s: State, mac: Mac)
    requires mac !in s.devices
    ensures var s' := AddDevice(s, mac);
      && s'.devices.Keys == s.devices.Keys + {mac}
      && s'.devices[mac] == Unbound
      && (forall k :: k in s.devices ==> s'.devices[k] == s.devices[k])
      && s'.order == s.order + [mac]
      && s'.streams == s.streams && s'.closes == s.closes && s'.emitted == s.emitted
  {
  }

  /** addDevice on a known MAC changes nothing, so calling it twice is calling it once. */
  lemma AddDeviceIdempotent(s: State, mac: Mac)
    ensures mac in s.devices ==> AddDevice(s, mac) == s
    ensures AddDevice(AddDevice(s, mac), mac) == AddDevice(s, mac)
  {
  }

  /**
   * removeDevice on an unknown MAC changes nothing. On a MAC whose keyboard is still
   * `null` it throws and changes nothing. Otherwise it closes that keyboard, which
   * stops being live, and deletes only that key: every other entry, and whether its
   * keyboard is live, is unchanged.
   */
  lemma RemoveDeviceSpec(s: State, mac: Mac)
    requires Valid(s)
    ensures var (s', o) := RemoveDevice(s, mac);
      && (mac !in s.devices ==> s' == s && o == Done)
      && (mac in s.devices && s.devices[mac].inputEvent.None? ==> s' == s && o == TypeError)
      && (mac in s.devices && s.devices[mac].inputEvent.Some? ==>
            var h := s.devices[mac].inputEvent.value;
            && o == Done
            && s'.devices.Keys == s.devices.Keys - {mac}
            && (forall k :: k in s'.devices ==> s'.devices[k] == s.devices[k])
            && (forall k :: k in s'.order <==> k in s.order && k != mac)
            && s'.streams == s.streams && s'.emitted == s.emitted
            && s'.closes == s.closes + [h]
            && !Live(s', h)
            && (forall k :: k in s'.devices && s'.devices[k].inputEvent.Some? ==>
                  (Live(s', s'.devices[k].inputEvent.value) <==> Live(s, s'.devices[k].inputEvent.value))))
  {
  }

  /** removeDevice leaves the other keys in the for..in order they had. */
  lemma RemoveDeviceKeepsOrder(s: State, mac: Mac, before: seq<Mac>, after: seq<Mac>)
    requires Valid(s) && s.order == before + [mac] + after
    ensures var (s', o) := RemoveDevice(s, mac);
      o == Done ==> s'.order == before + after
  {
    assert s.order[|before|] == mac;
    assert mac !in before by {
      assert forall i :: 0 <= i < |before| ==> s.order[i] == before[i];
    }
    assert mac !in after by {
      assert forall i :: 0 <= i < |after| ==> s.order[|before| + 1 + i] == after[i];
    }
    WithoutAppend(before + [mac], after, mac);
    WithoutAppend(before, [mac], mac);
  }

  /** A keyboard closed by removeDevice delivers no further key press. */
  lemma RemovedKeyboardIsSilent(s: State, mac: Mac, code: int)
    requires Valid(s) && mac in s.devices && s.devices[mac].inputEvent.Some?
    ensures var s' := RemoveDevice(s, mac).0;
      Step(s', KeyPressEvent(s.devices[mac].inputEvent.value, code)) == (s', Done)
  {
    RemoveDeviceSpec(s, mac);
  }

  /** Every entry starts with a `null` keyboard, so removeDevice right after addDevice throws. */
  lemma RemoveAfterAddThrows(s: State, mac: Mac)
    requires mac !in s.devices
    ensures RemoveDevice(AddDevice(s, mac), mac) == (AddDevice(s, mac), TypeError)
  {
  }

  // ---------------------------------------------------------------------------
  // The udev `add` handler

  /**
   * The NAME branch: when the raw NAME is itself a key, only that entry's virtualPath
   * changes, to DEVPATH, and no keyboard is opened. When the quote-stripped NAME is a
   * key but the raw NAME is not, the write through the raw NAME throws and nothing
   * changes; a NAME without quotes never throws.
   */
  lemma UdevAddByName(s: State, dev: UdevDevice)
    requires NameKnown(s, dev)
    ensures var raw := dev.name.value;
      var (s', o) := UdevAdd(s, dev);
      && (o == TypeError <==> raw !in s.devices)
      && (QuoteFree(raw) ==> o == Done)
      && (raw !in s.devices ==> s' == s)
      && (raw in s.devices ==>
            && s'.devices.Keys == s.devices.Keys
            && s'.devices[raw].virtualPath == dev.devpath
            && s'.devices[raw].devicePath == s.devices[raw].devicePath
            && s'.devices[raw].inputEvent == s.devices[raw].inputEvent
            && (forall k :: k in s.devices && k != raw ==> s'.devices[k] == s.devices[k])
            && s'.order == s.order && s'.streams == s.streams
            && s'.closes == s.closes && s'.emitted == s.emitted)
  {
    var raw := dev.name.value;
    if QuoteFree(raw) {
      StripQuotesFixedPoint(raw);
    }
  }

  /** The entries the DEVPATH branch binds are exactly those whose virtualPath is DEVPATH. */
  lemma ListeningSelects(s: State, devpath: string)
    requires KeysListed(s)
    ensures var l := Listening(s.devices, s.order, devpath);
      forall k :: k in s.devices ==> (k in l <==> s.devices[k].virtualPath == Some(devpath))
  {
    var l := Listening(s.devices, s.order, devpath);
    forall k | k in s.devices ensures (k in l <==> s.devices[k].virtualPath == Some(devpath)) {
      assert k in s.order;
    }
  }

  /** The DEVPATH branch changes only entries and opens keyboards: no key, close or dispatch. */
  lemma AddByPathFrame(s: State, devpath: string)
    ensures var s' := AddByPath(s, devpath);
      && s'.devices.Keys == s.devices.Keys && s'.order == s.order
      && s'.closes == s.closes && s'.emitted == s.emitted
      && |s'.streams| == |s.streams| + |Listening(s.devices, s.order, devpath)|
      && s'.streams[..|s.streams|] == s.streams
  {
    var (m', paths) := BindAll(s.devices, s.order, devpath, |s.streams|);
    BindAllFrame(s.devices, s.order, devpath, |s.streams|);
    assert (s.streams + paths)[..|s.streams|] == s.streams;
  }

  /** The DEVPATH branch changes no path, and leaves entries with another virtualPath alone. */
  lemma AddByPathUntouched(s: State, devpath: string)
    ensures var s' := AddByPath(s, devpath);
      forall k :: k in s.devices ==>
        && k in s'.devices
        && s'.devices[k].virtualPath == s.devices[k].virtualPath
        && s'.devices[k].devicePath == s.devices[k].devicePath
        && (s.devices[k].virtualPath != Some(devpath) ==> s'.devices[k] == s.devices[k])
  {
    BindAllFrame(s.devices, s.order, devpath, |s.streams|);
  }

  /** The DEVPATH branch stores in the i-th listening entry the keyboard it opened i-th, on its devicePath. */
  lemma AddByPathBindsAt(s: State, devpath: string, i: nat)
    requires NoDup(s.order) && i < |Listening(s.devices, s.order, devpath)|
    ensures var s' := AddByPath(s, devpath);
      var k := Listening(s.devices, s.order, devpath)[i];
      && k in s'.devices && |s.streams| + i < |s'.streams|
      && s'.devices[k].inputEvent == Some(|s.streams| + i)
      && s'.streams[|s.streams| + i] == s.devices[k].devicePath
  {
    var n := |s.streams|;
    var s' := AddByPath(s, devpath);
    var l := Listening(s.devices, s.order, devpath);
    var k := l[i];
    var (m', paths) := BindAll(s.devices, s.order, devpath, n);
    assert s'.devices == m';
    assert s'.streams == s.streams + paths;
    BindAllBinds(s.devices, s.order, devpath, n);
    assert |paths| == |l|;
    assert k in m' && m'[k].inputEvent == Some(n + i) && paths[i] == s.devices[k].devicePath;
    assert (s.streams + paths)[n + i] == paths[i];
  }

  lemma AddByPathBinds(s: State, devpath: string)
    requires NoDup(s.order)
    ensures forall i :: 0 <= i < |Listening(s.devices, s.order, devpath)| ==>
      var s' := AddByPath(s, devpath);
      var k := Listening(s.devices, s.order, devpath)[i];
      && k in s'.devices && |s.streams| + i < |s'.streams|
      && s'.devices[k].inputEvent == Some(|s.streams| + i)
      && s'.streams[|s.streams| + i] == s.devices[k].devicePath
  {
    forall i | 0 <= i < |Listening(s.devices, s.order, devpath)|
      ensures var s' := AddByPath(s, devpath);
        var k := Listening(s.devices, s.order, devpath)[i];
        && k in s'.devices && |s.streams| + i < |s'.streams|
        && s'.devices[k].inputEvent == Some(|s.streams| + i)
        && s'.streams[|s.streams| + i] == s.devices[k].devicePath
    {
      AddByPathBindsAt(s, devpath, i);
    }
  }

  /**
   * The DEVPATH branch: one keyboard is opened for each entry whose virtualPath equals
   * DEVPATH (by equality, not by prefix), in key order, opened on that entry's
   * devicePath and stored in it. No keyboard is closed, even one the entry already
   * held. Entries with another virtualPath are untouched and no path changes.
   */
  lemma UdevAddByPath(s: State, devpath: string)
    requires KeysListed(s)
    ensures var s' := AddByPath(s, devpath);
      && s'.devices.Keys == s.devices.Keys && s'.order == s.order
      && s'.closes == s.closes && s'.emitted == s.emitted
      && |s'.streams| == |s.streams| + |Listening(s.devices, s.order, devpath)|
      && s'.streams[..|s.streams|] == s.streams
    ensures var l := Listening(s.devices, s.order, devpath);
      forall k :: k in s.devices ==> (k in l <==> s.devices[k].virtualPath == Some(devpath))
    ensures var s' := AddByPath(s, devpath);
      forall k :: k in s.devices ==>
        && k in s'.devices
        && s'.devices[k].virtualPath == s.devices[k].virtualPath
        && s'.devices[k].devicePath == s.devices[k].devicePath
        && (s.devices[k].virtualPath != Some(devpath) ==> s'.devices[k] == s.devices[k])
    ensures forall i :: 0 <= i < |Listening(s.devices, s.order, devpath)| ==>
      var s' := AddByPath(s, devpath);
      var k := Listening(s.devices, s.order, devpath)[i];
      && k in s'.devices && |s.streams| + i < |s'.streams|
      && s'.devices[k].inputEvent == Some(|s.streams| + i)
      && s'.streams[|s.streams| + i] == s.devices[k].devicePath
  {
    AddByPathFrame(s, devpath);
    ListeningSelects(s, devpath);
    AddByPathUntouched(s, devpath);
    AddByPathBinds(s, devpath);
  }

  /** Without a known NAME and without a truthy DEVPATH the `add` handler does nothing. */
  lemma UdevAddIgnored(s: State, dev: UdevDevice)
    requires !NameKnown(s, dev) && !Truthy(dev.devpath)
    ensures UdevAdd(s, dev) == (s, Done)
  {
  }

  /**
   * A second matching `add` leaks the keyboard an entry already held: it is replaced
   * without being closed, no entry holds it any more, and its key presses are still
   * dispatched.
   */
  lemma RebindLeaksKeyboard(s: State, dev: UdevDevice, k: Mac, code: int)
    requires Valid(s) && !NameKnown(s, dev) && Truthy(dev.devpath)
    requires k in s.devices && s.devices[k].virtualPath == dev.devpath && s.devices[k].inputEvent.Some?
    ensures var h := s.devices[k].inputEvent.value;
      var s' := UdevAdd(s, dev).0;
      && s'.devices.Keys == s.devices.Keys
      && s'.closes == s.closes
      && s'.devices[k].inputEvent.Some? && s'.devices[k].inputEvent != Some(h)
      && (forall j :: j in s'.devices ==> s'.devices[j].inputEvent != Some(h))
      && (Live(s, h) ==> Live(s', h) && Step(s', KeyPressEvent(h, code)).0.emitted == s'.emitted + [code])
  {
    var h := s.devices[k].inputEvent.value;
    var devpath := dev.devpath.value;
    var s' := UdevAdd(s, dev).0;
    assert s' == AddByPath(s, devpath);
    AddByPathFrame(s, devpath);
    var i := AddByPathAt(s, devpath, k);
    forall j | j in s'.devices ensures s'.devices[j].inputEvent != Some(h) {
      var ij := AddByPathAt(s, devpath, j);
    }
    if Live(s, h) {
      assert Live(s', h);
      LiveKeyboardDispatches(s', h, code);
    }
  }

  /** A key press on a live keyboard is dispatched and changes nothing else. */
  lemma LiveKeyboardDispatches(s: State, h: HandleId, code: int)
    requires Live(s, h)
    ensures Step(s, KeyPressEvent(h, code)) == (s.(emitted := s.emitted + [code]), Done)
  {
  }

  // ---------------------------------------------------------------------------
  // The udev `remove` handler

  /**
   * The `remove` handler never changes the dictionary, the key order or any path. With
   * no truthy DEVNAME it does nothing. Otherwise it closes, in key order, the keyboards
   * of the entries whose devicePath equals DEVNAME, and throws at the first such entry
   * whose keyboard is `null`, after closing the ones before it.
   */
  lemma UdevRemoveSpec(s: State, dev: UdevDevice)
    ensures var (s', o) := UdevRemove(s, dev);
      && s'.devices == s.devices && s'.order == s.order
      && s'.streams == s.streams && s'.emitted == s.emitted
      && (!Truthy(dev.devname) ==> s' == s && o == Done)
      && (Truthy(dev.devname) ==>
            var l := OnNode(s.devices, s.order, dev.devname.value);
            var closed := s'.closes[|s.closes|..];
            && s'.closes[..|s.closes|] == s.closes
            && |closed| <= |l|
            && (forall i :: 0 <= i < |closed| ==> s.devices[l[i]].inputEvent == Some(closed[i]))
            && (o == Done <==> |closed| == |l|)
            && (o == TypeError ==> s.devices[l[|closed|]].inputEvent.None?))
  {
    if Truthy(dev.devname) {
      var (closed, failed) := CloseMatching(s.devices, s.order, dev.devname.value);
      CloseMatchingSpec(s.devices, s.order, dev.devname.value);
      var s' := UdevRemove(s, dev).0;
      assert s'.closes == s.closes + closed;
      assert s'.closes[|s.closes|..] == closed;
    }
  }

  /** Neither udev handler adds or deletes a key: only addDevice and removeDevice do. */
  lemma HandlersKeepKeys(s: State, dev: UdevDevice)
    requires Valid(s)
    ensures UdevAdd(s, dev).0.devices.Keys == s.devices.Keys
    ensures UdevAdd(s, dev).0.order == s.order
    ensures UdevRemove(s, dev).0.devices.Keys == s.devices.Keys
    ensures UdevRemove(s, dev).0.order == s.order
  {
    if !NameKnown(s, dev) && Truthy(dev.devpath) {
      AddByPathFrame(s, dev.devpath.value);
    }
  }

  /** No entry is on a non-empty node while every devicePath is ''. */
  lemma {:induction false} OnNodeEmpty(m: map<Mac, Entry>, keys: seq<Mac>, devname: string)
    requires devname != ""
    requires forall k :: k in m ==> m[k].devicePath == ""
    ensures OnNode(m, keys, devname) == []
  {
    if keys != [] {
      OnNodeEmpty(m, keys[..|keys| - 1], devname);
    }
  }

  /** While every devicePath is '' (always, see RunKeepsInvariants) the `remove` handler does nothing. */
  lemma RemoveEventInert(s: State, dev: UdevDevice)
    requires PathsNeverSet(s)
    ensures UdevRemove(s, dev) == (s, Done)
  {
    if Truthy(dev.devname) {
      OnNodeEmpty(s.devices, s.order, dev.devname.value);
      CloseMatchingSpec(s.devices, s.order, dev.devname.value);
      assert s.closes + [] == s.closes;
    }
  }

  // ---------------------------------------------------------------------------
  // Invariants of every reachable state

  lemma AddDeviceKeepsInvariants(s: State, mac: Mac)
    requires Valid(s)
    ensures Valid(AddDevice(s, mac))
    ensures PathsNeverSet(s) ==> PathsNeverSet(AddDevice(s, mac))
  {
    if mac !in s.devices {
      var s' := AddDevice(s, mac);
      assert forall i :: 0 <= i < |s.order| ==> s'.order[i] == s.order[i];
    }
  }

  lemma RemoveDeviceKeepsInvariants(s: State, mac: Mac)
    requires Valid(s)
    ensures Valid(RemoveDevice(s, mac).0)
    ensures PathsNeverSet(s) ==> PathsNeverSet(RemoveDevice(s, mac).0)
  {
    RemoveDeviceSpec(s, mac);
  }

  lemma UdevAddKeepsInvariants(s: State, dev: UdevDevice)
    requires Valid(s)
    ensures Valid(UdevAdd(s, dev).0)
    ensures PathsNeverSet(s) ==> PathsNeverSet(UdevAdd(s, dev).0)
  {
    if !NameKnown(s, dev) && Truthy(dev.devpath) {
      UdevAddByPathKeepsInvariants(s, dev.devpath.value);
    }
  }

  lemma UdevRemoveKeepsInvariants(s: State, dev: UdevDevice)
    requires Valid(s)
    ensures Valid(UdevRemove(s, dev).0)
    ensures PathsNeverSet(s) ==> PathsNeverSet(UdevRemove(s, dev).0)
  {
    UdevRemoveSpec(s, dev);
  }

  lemma {:induction false} StepKeepsInvariants(s: State, e: Event)
    requires Valid(s)
    ensures Valid(Step(s, e).0)
    ensures PathsNeverSet(s) ==> PathsNeverSet(Step(s, e).0)
  {
    match e
    case AddDeviceCall(mac) => AddDeviceKeepsInvariants(s, mac);
    case RemoveDeviceCall(mac) => RemoveDeviceKeepsInvariants(s, mac);
    case UdevAddEvent(dev) => UdevAddKeepsInvariants(s, dev);
    case UdevRemoveEvent(dev) => UdevRemoveKeepsInvariants(s, dev);
    case KeyPressEvent(h, code) =>
  }

  /**
   * What the DEVPATH branch does to one entry. A listening entry, the i-th in key
   * order, gets the keyboard opened i-th, on its devicePath. Any other entry is
   * unchanged. No path changes.
   */
  lemma AddByPathAt(s: State, devpath: string, k: Mac) returns (i: nat)
    requires KeysListed(s) && k in s.devices
    ensures var s' := AddByPath(s, devpath);
      && k in s'.devices
      && s'.devices[k].virtualPath == s.devices[k].virtualPath
      && s'.devices[k].devicePath == s.devices[k].devicePath
      && (s.devices[k].virtualPath != Some(devpath) ==> s'.devices[k] == s.devices[k])
    ensures var s' := AddByPath(s, devpath);
      var l := Listening(s.devices, s.order, devpath);
      s.devices[k].virtualPath == Some(devpath) ==>
        && i < |l| && l[i] == k
        && |s.streams| + i < |s'.streams|
        && s'.devices[k].inputEvent == Some(|s.streams| + i)
        && s'.streams[|s.streams| + i] == s.devices[k].devicePath
  {
    AddByPathUntouched(s, devpath);
    i := 0;
    if s.devices[k].virtualPath == Some(devpath) {
      var l := Listening(s.devices, s.order, devpath);
      assert k in s.order;
      assert k in l;
      i :| 0 <= i < |l| && l[i] == k;
      AddByPathBindsAt(s, devpath, i);
    }
  }

  lemma AddByPathKeepsHandlesOpened(s: State, devpath: string)
    requires KeysListed(s) && HandlesOpened(s)
    ensures HandlesOpened(AddByPath(s, devpath))
  {
    var s' := AddByPath(s, devpath);
    var n := |s.streams|;
    AddByPathFrame(s, devpath);
    forall k | k in s'.devices && s'.devices[k].inputEvent.Some?
      ensures s'.devices[k].inputEvent.value < |s'.streams|
      ensures s'.streams[s'.devices[k].inputEvent.value] == s'.devices[k].devicePath
    {
      var i := AddByPathAt(s, devpath, k);
      if s.devices[k].virtualPath != Some(devpath) {
        var h := s.devices[k].inputEvent.value;
        assert s'.streams[..n][h] == s'.streams[h];
      }
    }
  }

  lemma AddByPathKeepsHandlesUnshared(s: State, devpath: string)
    requires KeysListed(s) && HandlesOpened(s) && HandlesUnshared(s)
    ensures HandlesUnshared(AddByPath(s, devpath))
  {
    var s' := AddByPath(s, devpath);
    AddByPathFrame(s, devpath);
    forall k1, k2 | k1 in s'.devices && k2 in s'.devices && k1 != k2 &&
        s'.devices[k1].inputEvent.Some? && s'.devices[k2].inputEvent.Some?
      ensures s'.devices[k1].inputEvent != s'.devices[k2].inputEvent
    {
      var i1 := AddByPathAt(s, devpath, k1);
      var i2 := AddByPathAt(s, devpath, k2);
    }
  }

  lemma AddByPathKeepsPathsNeverSet(s: State, devpath: string)
    requires KeysListed(s) && PathsNeverSet(s)
    ensures PathsNeverSet(AddByPath(s, devpath))
  {
    var s' := AddByPath(s, devpath);
    var n := |s.streams|;
    AddByPathFrame(s, devpath);
    forall k | k in s'.devices ensures s'.devices[k].devicePath == "" {
      var i := AddByPathAt(s, devpath, k);
    }
    forall h | 0 <= h < |s'.streams| ensures s'.streams[h] == "" {
      if h < n {
        assert s'.streams[..n][h] == s'.streams[h];
      } else {
        AddByPathBindsAt(s, devpath, h - n);
      }
    }
  }

  lemma UdevAddByPathKeepsInvariants(s: State, devpath: string)
    requires Valid(s)
    ensures Valid(AddByPath(s, devpath))
    ensures PathsNeverSet(s) ==> PathsNeverSet(AddByPath(s, devpath))
  {
    AddByPathFrame(s, devpath);
    AddByPathKeepsHandlesOpened(s, devpath);
    AddByPathKeepsHandlesUnshared(s, devpath);
    if PathsNeverSet(s) {
      AddByPathKeepsPathsNeverSet(s, devpath);
    }
  }

  /** Every state a controller reaches is valid, and in it no devicePath was ever set. */
  lemma {:induction false} RunKeepsInvariants(s: State, events: seq<Event>)
    requires Valid(s) && PathsNeverSet(s)
    ensures Valid(Run(s, events).0) && PathsNeverSet(Run(s, events).0)
    decreases |events|
  {
    if events != [] {
      StepKeepsInvariants(s, events[0]);
      var s1 := Step(s, events[0]).0;
      if Step(s, events[0]).1 != TypeError {
        RunKeepsInvariants(s1, events[1..]);
      }
    }
  }

  /**
   * Consequently, in every reachable state every keyboard was opened on '', and a
   * udev `remove` event never closes anything.
   */
  lemma ReachableRemoveIsInert(events: seq<Event>, dev: UdevDevice)
    ensures var s := Run(Initial, events).0;
      && (forall h :: 0 <= h < |s.streams| ==> s.streams[h] == "")
      && UdevRemove(s, dev) == (s, Done)
  {
    RunKeepsInvariants(Initial, events);
    RemoveEventInert(Run(Initial, events).0, dev);
  }

  // ---------------------------------------------------------------------------
  // One remote from registration to removal

  /**
   * A MAC reported in quotes is found after stripping, but the write goes through the
   * quoted NAME, which is not a key: the handler throws and the entry stays as it was.
   */
  lemma QuotedNameThrows(s: State, mac: Mac, devpath: Option<string>)
    requires mac in s.devices && QuoteFree(mac) && "'" + mac + "'" !in s.devices
    ensures UdevAdd(s, UdevDevice(Some("'" + mac + "'"), devpath, None)) == (s, TypeError)
  {
    var name := "'" + mac + "'";
    assert StripQuotes(name) == mac by {
      assert name == "'" + (mac + "'");
      StripQuotesAppend("'", mac + "'");
      StripQuotesAppend(mac, "'");
      StripQuotesFixedPoint(mac);
    }
  }

  /** A registered remote whose virtual input device was announced. */
  function Announced(mac: Mac, vpath: string): State {
    State(map[mac := Entry(Some(vpath), "", None)], [mac], [], [], [])
  }

  /** The same remote after a keyboard was bound to it. */
  function Bound(mac: Mac, vpath: string): State {
    Announced(mac, vpath).(devices := map[mac := Entry(Some(vpath), "", Some(0))], streams := [""])
  }

  /**
   * An unquoted NAME records DEVPATH as the virtualPath. The event node, whose DEVPATH
   * only starts with that path, binds nothing; an `add` with exactly that DEVPATH opens
   * keyboard 0, on '' since devicePath was never set. A `remove` of the event node then
   * closes nothing, while removeDevice closes keyboard 0 and forgets the remote.
   */
  lemma RemoteLifecycle(mac: Mac, vpath: string, suffix: string, node: string)
    requires mac != "" && QuoteFree(mac) && suffix != "" && node != ""
    ensures UdevAdd(AddDevice(Initial, mac), UdevDevice(Some(mac), Some(vpath), None)) == (Announced(mac, vpath), Done)
    ensures UdevAdd(Announced(mac, vpath), UdevDevice(None, Some(vpath + suffix), Some(node))) == (Announced(mac, vpath), Done)
    ensures vpath != "" ==> UdevAdd(Announced(mac, vpath), UdevDevice(None, Some(vpath), Some(node))) == (Bound(mac, vpath), Done)
    ensures UdevRemove(Bound(mac, vpath), UdevDevice(None, None, Some(node))) == (Bound(mac, vpath), Done)
    ensures RemoveDevice(Bound(mac, vpath), mac) == (Initial.(streams := [""], closes := [0]), Done)
  {
    LifecycleAnnounce(mac, vpath);
    LifecycleEventNode(mac, vpath, suffix, node);
    if vpath != "" {
      LifecycleBind(mac, vpath, node);
    }
    LifecycleRemoveNode(mac, vpath, node);
    LifecycleForget(mac, vpath);
  }

  lemma LifecycleAnnounce(mac: Mac, vpath: string)
    requires mac != "" && QuoteFree(mac)
    ensures UdevAdd(AddDevice(Initial, mac), UdevDevice(Some(mac), Some(vpath), None)) == (Announced(mac, vpath), Done)
  {
    StripQuotesFixedPoint(mac);
    var s1 := AddDevice(Initial, mac);
    assert s1.order == [mac];
    assert s1.devices[mac := s1.devices[mac].(virtualPath := Some(vpath))] == Announced(mac, vpath).devices;
  }

  lemma LifecycleEventNode(mac: Mac, vpath: string, suffix: string, node: string)
    requires mac != "" && suffix != ""
    ensures UdevAdd(Announced(mac, vpath), UdevDevice(None, Some(vpath + suffix), Some(node))) == (Announced(mac, vpath), Done)
  {
    var a := Announced(mac, vpath);
    var m := a.devices;
    assert [mac][..0] == [];
    assert |vpath + suffix| != |vpath|;
    assert BindAll(m, [mac], vpath + suffix, 0) == (m, []);
    assert a.(devices := m, streams := a.streams + []) == a;
  }

  lemma LifecycleBind(mac: Mac, vpath: string, node: string)
    requires mac != "" && vpath != ""
    ensures UdevAdd(Announced(mac, vpath), UdevDevice(None, Some(vpath), Some(node))) == (Bound(mac, vpath), Done)
  {
    var a := Announced(mac, vpath);
    var m := a.devices;
    assert [mac][..0] == [];
    assert BindAll(m, [mac], vpath, 0) == (m[mac := m[mac].(inputEvent := Some(0))], [] + [""]);
    assert a.(devices := m[mac := m[mac].(inputEvent := Some(0))], streams := a.streams + ([] + [""])) == Bound(mac, vpath);
  }

  lemma LifecycleRemoveNode(mac: Mac, vpath: string, node: string)
    requires node != ""
    ensures UdevRemove(Bound(mac, vpath), UdevDevice(None, None, Some(node))) == (Bound(mac, vpath), Done)
  {
    var b := Bound(mac, vpath);
    assert [mac][..0] == [];
    assert CloseMatching(b.devices, [mac], node) == ([], false);
    assert b.(closes := b.closes + []) == b;
  }

  lemma LifecycleForget(mac: Mac, vpath: string)
    ensures RemoveDevice(Bound(mac, vpath), mac) == (Initial.(streams := [""], closes := [0]), Done)
  {
    var b := Bound(mac, vpath);
    assert Without([mac], mac) == [];
    assert b.devices - {mac} == map[];
    assert b.closes + [0] == [0];
  }
}
