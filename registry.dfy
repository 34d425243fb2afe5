/**
 * The state of an AVRCPController (plugins/audio_interface/bluetooth_controller/AVRCP.ts)
 * as a value, and one function per thing that changes it: `addDevice`,
 * `removeDevice`, the udev `add` and `remove` handlers and a key press on an
 * opened keyboard. The class in controller.dfy performs these steps in place;
 * the lemmas here state what each step does and which invariants it keeps.
 */
module DeviceRegistry {
  import opened Wrappers
  import opened Quotes

  type Mac = string

  /** Keyboards are identified by the order in which they were opened: handle h is the h-th. */
  type HandleId = nat

  /**
   * One DeviceListEntry. `virtualPath` is None when the udev NAME handler stored an
   * undefined DEVPATH; `inputEvent` is None for the `null` that addDevice stores.
   */
  datatype Entry = Entry(virtualPath: Option<string>, devicePath: string, inputEvent: Option<HandleId>)

  /** The entry addDevice creates: `{virtualPath: '', devicePath: '', inputEvent: null}`. */
  const Unbound: Entry := Entry(Some(""), "", None)

  /** The udev attributes the handlers read: NAME, DEVPATH and DEVNAME, each possibly undefined. */
  datatype UdevDevice = UdevDevice(name: Option<string>, devpath: Option<string>, devname: Option<string>)

  /** How a call or handler finished: normally, or by a TypeError from a property access on undefined or null. */
  datatype Outcome = Done | TypeError

  /**
   * `devices` is the devicelist dictionary and `order` its keys in for..in order
   * (insertion order). The other three fields record what the controller did to the
   * outside world: `streams[h]` is the path keyboard h was opened on, `closes` every
   * close() call in order, `emitted` every key code dispatched on keyPressEvent.
   */
  datatype State = State(
    devices: map<Mac, Entry>,
    order: seq<Mac>,
    streams: seq<string>,
    closes: seq<HandleId>,
    emitted: seq<int>)

  /** A fresh controller: empty dictionary, nothing opened, closed or dispatched. */
  const Initial: State := State(map[], [], [], [], [])

  /** JavaScript truthiness of a possibly undefined string attribute. */
  predicate Truthy(a: Option<string>) {
    a.Some? && a.value != ""
  }

  predicate NoDup(s: seq<Mac>) {
    forall i, j :: 0 <= i < j < |s| ==> s[i] != s[j]
  }

  /** The logs only grow: `t` has opened, closed and dispatched everything `s` had, in the same order. */
  predicate LogsExtend(s: State, t: State) {
    s.streams <= t.streams && s.closes <= t.closes && s.emitted <= t.emitted
  }

  /** A keyboard is live when it was opened and close() was never called on it. */
  predicate Live(s: State, h: HandleId) {
    h < |s.streams| && h !in s.closes
  }

  // ---------------------------------------------------------------------------
  // Invariants

  /** The key order lists exactly the keys of the dictionary, each once. */
  ghost predicate KeysListed(s: State) {
    && NoDup(s.order)
    && (forall k :: k in s.devices <==> k in s.order)
  }

  /** Every stored keyboard was opened, on the entry's own devicePath. */
  ghost predicate HandlesOpened(s: State) {
    forall k :: k in s.devices && s.devices[k].inputEvent.Some? ==>
      s.devices[k].inputEvent.value < |s.streams| &&
      s.streams[s.devices[k].inputEvent.value] == s.devices[k].devicePath
  }

  /** No keyboard is stored in two entries. */
  ghost predicate HandlesUnshared(s: State) {
    forall k1, k2 ::
      (k1 in s.devices && k2 in s.devices && k1 != k2 &&
       s.devices[k1].inputEvent.Some? && s.devices[k2].inputEvent.Some?) ==>
      s.devices[k1].inputEvent != s.devices[k2].inputEvent
  }

  ghost predicate Valid(s: State) {
    KeysListed(s) && HandlesOpened(s) && HandlesUnshared(s)
  }

  /**
   * Nothing ever assigns devicePath after addDevice (AVRCP.ts:45 compares instead of
   * assigning), so every devicePath stays '' and every keyboard is opened on ''.
   */
  ghost predicate PathsNeverSet(s: State) {
    && (forall k :: k in s.devices ==> s.devices[k].devicePath == "")
    && (forall h :: 0 <= h < |s.streams| ==> s.streams[h] == "")
  }

  // ---------------------------------------------------------------------------
  // addDevice and removeDevice

  /** addDevice(mac): insert an unbound entry unless the MAC is already known. */
  function AddDevice(s: State, mac: Mac): (r: State)
    ensures r.devices.Keys == s.devices.Keys + {mac}
    ensures mac in s.devices ==> r == s
    ensures r.streams == s.streams && r.closes == s.closes && r.emitted == s.emitted
  {
    if mac in s.devices then s
    else s.(devices := s.devices[mac := Unbound], order := s.order + [mac])
  }

  /** The key order after `delete`: the same keys without `mac`, order kept. */
  function Without(keys: seq<Mac>, mac: Mac): (r: seq<Mac>)
    ensures forall k :: k in r <==> k in keys && k != mac
    ensures NoDup(keys) ==> NoDup(r)
    ensures mac !in keys ==> r == keys
  {
    if keys == [] then []
    else
      var pre := Without(keys[..|keys| - 1], mac);
      var k := keys[|keys| - 1];
      assert forall j :: j in keys ==> j in keys[..|keys| - 1] || j == k;
      assert NoDup(keys) ==> NoDup(keys[..|keys| - 1]) && k !in pre by {
        if NoDup(keys) {
          assert forall i :: 0 <= i < |keys| - 1 ==> keys[..|keys| - 1][i] == keys[i];
        }
      }
      assert mac !in keys ==> keys == keys[..|keys| - 1] + [k];
      if k == mac then pre else pre + [k]
  }

  /**
   * removeDevice(mac): on a known MAC, close its keyboard and delete the entry. The
   * keyboard may still be the `null` addDevice stored; `.close()` then throws before
   * the delete and nothing changes.
   */
  function RemoveDevice(s: State, mac: Mac): (r: (State, Outcome))
    ensures r.1 == TypeError <==> mac in s.devices && s.devices[mac].inputEvent.None?
    ensures r.1 == TypeError || mac !in s.devices ==> r.0 == s
    ensures r.1 == Done ==> r.0.devices.Keys == s.devices.Keys - {mac}
    ensures r.0.streams == s.streams && r.0.emitted == s.emitted && s.closes <= r.0.closes
  {
    if mac !in s.devices then (s, Done)
    else
      match s.devices[mac].inputEvent
      case None => (s, TypeError)
      case Some(h) =>
        (s.(devices := s.devices - {mac}, order := Without(s.order, mac), closes := s.closes + [h]), Done)
  }

  // ---------------------------------------------------------------------------
  // The udev `add` handler

  /** The first test of the handler: NAME is truthy and, quotes stripped, a known MAC. */
  predicate NameKnown(s: State, dev: UdevDevice) {
    Truthy(dev.name) && StripQuotes(dev.name.value) in s.devices
  }

  /** The entries, in key order, whose virtualPath equals `devpath`. */
  function Listening(m: map<Mac, Entry>, keys: seq<Mac>, devpath: string): (r: seq<Mac>)
    ensures forall i :: 0 <= i < |r| ==> r[i] in m && m[r[i]].virtualPath == Some(devpath)
    ensures forall k :: k in r <==> k in keys && k in m && m[k].virtualPath == Some(devpath)
    ensures NoDup(keys) ==> NoDup(r)
  {
    if keys == [] then []
    else
      var pre := Listening(m, keys[..|keys| - 1], devpath);
      var k := keys[|keys| - 1];
      assert forall j :: j in keys ==> j in keys[..|keys| - 1] || j == k;
      if k in m && m[k].virtualPath == Some(devpath) then pre + [k] else pre
  }

  /**
   * The for..in loop of the DEVPATH branch over `keys`: each entry whose virtualPath
   * equals `devpath` gets a newly opened keyboard (handle `next`, `next + 1`, ...)
   * opened on its devicePath. Returns the new dictionary and the opened paths.
   */
  function BindAll(m: map<Mac, Entry>, keys: seq<Mac>, devpath: string, next: HandleId): (r: (map<Mac, Entry>, seq<string>))
    ensures r.0.Keys == m.Keys && |r.1| <= |keys|
  {
    if keys == [] then (m, [])
    else
      var (m1, paths) := BindAll(m, keys[..|keys| - 1], devpath, next);
      var k := keys[|keys| - 1];
      if k in m1 && m1[k].virtualPath == Some(devpath) then
        (m1[k := m1[k].(inputEvent := Some(next + |paths|))], paths + [m1[k].devicePath])
      else (m1, paths)
  }

  /** The DEVPATH branch of the udev `add` handler: bind every entry listening on `devpath`. */
  function AddByPath(s: State, devpath: string): (r: State)
    ensures r.devices.Keys == s.devices.Keys && r.order == s.order
    ensures r.closes == s.closes && r.emitted == s.emitted && s.streams <= r.streams
  {
    var (m, paths) := BindAll(s.devices, s.order, devpath, |s.streams|);
    s.(devices := m, streams := s.streams + paths)
  }

  /**
   * The udev `add` handler. When NAME is known after stripping quotes, the write goes
   * through the unstripped NAME, which throws when that key is absent. Otherwise a
   * truthy DEVPATH binds a keyboard to every entry whose virtualPath equals it.
   */
  function UdevAdd(s: State, dev: UdevDevice): (r: (State, Outcome))
    ensures r.1 == TypeError <==> NameKnown(s, dev) && dev.name.value !in s.devices
    ensures r.1 == TypeError ==> r.0 == s
    ensures r.0.devices.Keys == s.devices.Keys && r.0.order == s.order
    ensures r.0.closes == s.closes && r.0.emitted == s.emitted && s.streams <= r.0.streams
  {
    if NameKnown(s, dev) then
      var raw := dev.name.value;
      if raw in s.devices then
        (s.(devices := s.devices[raw := s.devices[raw].(virtualPath := dev.devpath)]), Done)
      else (s, TypeError)
    else if Truthy(dev.devpath) then (AddByPath(s, dev.devpath.value), Done)
    else (s, Done)
  }

  // ---------------------------------------------------------------------------
  // The udev `remove` handler

  /** The entries, in key order, whose devicePath equals `devname`. */
  function OnNode(m: map<Mac, Entry>, keys: seq<Mac>, devname: string): (r: seq<Mac>)
    ensures forall i :: 0 <= i < |r| ==> r[i] in m && m[r[i]].devicePath == devname
    ensures forall k :: k in r <==> k in keys && k in m && m[k].devicePath == devname
  {
    if keys == [] then []
    else
      var pre := OnNode(m, keys[..|keys| - 1], devname);
      var k := keys[|keys| - 1];
      assert forall j :: j in keys ==> j in keys[..|keys| - 1] || j == k;
      if k in m && m[k].devicePath == devname then pre + [k] else pre
  }

  /**
   * The for..in loop of the `remove` handler over `keys`: close the keyboard of each
   * entry whose devicePath equals `devname`. Returns the handles closed and whether
   * the loop stopped at a `null` keyboard (a TypeError).
   */
  function CloseMatching(m: map<Mac, Entry>, keys: seq<Mac>, devname: string): (r: (seq<HandleId>, bool))
    ensures |r.0| <= |keys|
    ensures r.1 <==> exists k :: k in keys && k in m && m[k].devicePath == devname && m[k].inputEvent.None?
  {
    if keys == [] then ([], false)
    else
      var (closed, failed) := CloseMatching(m, keys[..|keys| - 1], devname);
      var k := keys[|keys| - 1];
      assert forall j :: j in keys ==> j in keys[..|keys| - 1] || j == k;
      if failed then (closed, true)
      else if k in m && m[k].devicePath == devname then
        match m[k].inputEvent
        case None => (closed, true)
        case Some(h) => (closed + [h], false)
      else (closed, false)
  }

  /** The udev `remove` handler: with a truthy DEVNAME, close every keyboard on that node. */
  function UdevRemove(s: State, dev: UdevDevice): (r: (State, Outcome))
    ensures !Truthy(dev.devname) ==> r == (s, Done)
    ensures r.0.devices == s.devices && r.0.order == s.order
    ensures r.0.streams == s.streams && r.0.emitted == s.emitted && s.closes <= r.0.closes
  {
    if Truthy(dev.devname) then
      var (closed, failed) := CloseMatching(s.devices, s.order, dev.devname.value);
      (s.(closes := s.closes + closed), if failed then TypeError else Done)
    else (s, Done)
  }

  // ---------------------------------------------------------------------------
  // Key presses

  /** A keypress on a live keyboard is re-dispatched on keyPressEvent. */
  function KeyPress(s: State, h: HandleId, code: int): (r: State)
    requires Live(s, h)
    ensures r.devices == s.devices && r.order == s.order && r.streams == s.streams && r.closes == s.closes
    ensures |r.emitted| == |s.emitted| + 1 && s.emitted <= r.emitted && r.emitted[|s.emitted|] == code
  {
    s.(emitted := s.emitted + [code])
  }

  /** Everything that can happen to a controller. */
  datatype Event =
    | AddDeviceCall(mac: Mac)
    | RemoveDeviceCall(mac: Mac)
    | UdevAddEvent(dev: UdevDevice)
    | UdevRemoveEvent(dev: UdevDevice)
    | KeyPressEvent(handle: HandleId, code: int)

  /** One event; a closed or never-opened keyboard delivers no keypress. */
  function Step(s: State, e: Event): (r: (State, Outcome))
    ensures LogsExtend(s, r.0)
    ensures r.1 == TypeError ==> r.0.devices == s.devices && r.0.order == s.order
    ensures e.KeyPressEvent? && !Live(s, e.handle) ==> r == (s, Done)
  {
    match e
    case AddDeviceCall(mac) => (AddDevice(s, mac), Done)
    case RemoveDeviceCall(mac) => RemoveDevice(s, mac)
    case UdevAddEvent(dev) => UdevAdd(s, dev)
    case UdevRemoveEvent(dev) => UdevRemove(s, dev)
    case KeyPressEvent(h, code) => if Live(s, h) then (KeyPress(s, h, code), Done) else (s, Done)
  }

  /** Events in order; an uncaught TypeError ends the run. */
  function Run(s: State, events: seq<Event>): (r: (State, Outcome))
    ensures LogsExtend(s, r.0)
    decreases |events|
  {
    if events == [] then (s, Done)
    else
      var (s1, o) := Step(s, events[0]);
      if o == TypeError then (s1, TypeError) else Run(s1, events[1..])
  }
}
