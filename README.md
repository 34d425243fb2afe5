# Volumio bluetooth_controller: AVRCP remote handling, in Dafny

This project models the part of Volumio's `bluetooth_controller` plugin that turns the
buttons of a Bluetooth AVRCP remote into playback commands:

- **AVRCPController** (`plugins/audio_interface/bluetooth_controller/AVRCP.ts`). It keeps a dictionary from the remote's MAC address to a
  `{virtualPath, devicePath, inputEvent}` entry. `addDevice` and `removeDevice` change
  the dictionary. The udev `add` handler records the virtual input device's DEVPATH
  under the MAC named by NAME, or opens a keyboard reader for every entry whose
  virtualPath equals DEVPATH. The udev `remove` handler closes the keyboard of every
  entry whose devicePath equals DEVNAME. Key presses from open keyboards are
  re-dispatched to subscribers; as written, though, every keyboard is opened on `''`
  (see below), so no real key press reaches them.
- **The plugin side** (`plugins/audio_interface/bluetooth_controller/index.ts`):
  - the switch that maps key codes 165, 163, 200 and 201 to the socket messages
    `prev`, `next`, `play` and `pause`;
  - `getConfigParam`, which reads a configuration key or the list of its sub-keys;
  - `getMPDConfigString`, which writes one MPD `audio_output` block per paired device;
  - `deviceListChanged`, which registers every trusted device with the controller.

## Structure

- `registry.dfy` (`DeviceRegistry`): the controller's state as a value and one pure step
  function per operation. JavaScript's for..in order over the dictionary is the explicit
  insertion order `order`.
- Foreign effects are recorded in logs:
  - `streams[h]` is the path keyboard `h` was opened on;
  - `closes` lists every `close()` call;
  - `emitted` lists every key code that was dispatched.
- A TypeError (a property access on `undefined` or `null`) is the `Outcome` `TypeError`.
- `controller.dfy` (`Avrcp.Controller`): the class itself. Its fields are updated in
  place. Each public method and handler is proved to perform exactly the matching step
  of `DeviceRegistry` and to keep the invariant `Valid`. The two for..in loops
  (`BindKeyboards`, `CloseKeyboards`) are proved equal to the loop functions `BindAll`
  and `CloseMatching`, which those steps use.
- `registry_properties.dfy` (`RegistryProperties`): what each step does, and that the
  invariants hold in every reachable state.
- `quotes.dfy` (`Quotes`): the quote stripping applied to NAME.
- `keymap.dfy`, `config_param.dfy`, `mpd_config.dfy` and `device_list.dfy`: the plugin side.

## Behaviour of the code as written

The model follows the code. In several places the code does something other than its
evident intent:

- **NAME lookup and write use different keys.** The `add` handler looks NAME up with
  quotes stripped, but writes through the raw NAME (AVRCP.ts:38-39). A quoted NAME whose
  stripped form is registered therefore throws a TypeError.
- **virtualPath is matched by equality** (AVRCP.ts:43), not by prefix. An event node whose
  DEVPATH extends the virtual device's path binds nothing.
- **devicePath is never assigned.** AVRCP.ts:45 is a comparison, not an assignment. Every
  devicePath stays `''` and every keyboard is opened on `''`. So a udev `remove` with a
  DEVNAME never matches an entry in any reachable state (`ReachableRemoveIsInert`).
- **No real key press arrives.** Because of AVRCP.ts:45-46 every keyboard reader is
  opened on the path `''`, which names no input device node. So, as written, no key press
  of a real remote reaches `onKeyPress`, and the key-code switch in index.ts never runs.
- **The `remove` handler only closes.** It does not clear paths or revert the entry.
- **A second matching `add` leaks.** It overwrites the stored keyboard without closing it
  (`RebindLeaksKeyboard`).
- **removeDevice can throw.** On an entry whose keyboard is still `null`, `.close()`
  throws before the delete (`RemoveAfterAddThrows`).
- **Device names are not escaped.** index.ts:266 writes the name between `"` without
  escaping it. A paired device whose name holds a `"` yields an `audio_output` block whose
  `name` ends early, so the text no longer reads back as the device list; the round trip
  (`ParseBlocksRoundTrip`) holds only for names without `"` and MACs without `,`.

## Model

| member | source | states |
|---|---|---|
| Quotes.StripQuotes | plugins/audio_interface/bluetooth_controller/AVRCP.ts:38 | The stripped NAME has no quote character and is no longer than NAME. It has the same length when NAME has no quotes. |
| Quotes.StripQuotesAppend | plugins/audio_interface/bluetooth_controller/AVRCP.ts:38 | Stripping distributes over concatenation, so the characters kept stay in their order. |
| Quotes.StripQuotesFixedPoint | plugins/audio_interface/bluetooth_controller/AVRCP.ts:38 | Stripping leaves a string unchanged exactly when it has no quote character. |
| Quotes.StripQuotesIdempotent | plugins/audio_interface/bluetooth_controller/AVRCP.ts:38 | Stripping twice equals stripping once. |
| Quotes.StripQuotesCounts | plugins/audio_interface/bluetooth_controller/AVRCP.ts:38 | Each non-quote character occurs as often after stripping as before, and no quote survives. |
| DeviceRegistry.Without | plugins/audio_interface/bluetooth_controller/AVRCP.ts:87 | `delete` leaves the key order holding exactly the other keys, still without duplicates; without `mac` in it, the order is unchanged. |
| DeviceRegistry.Listening | plugins/audio_interface/bluetooth_controller/AVRCP.ts:42-43 | The entries the DEVPATH loop binds are exactly the keys whose virtualPath equals DEVPATH, each once. |
| DeviceRegistry.OnNode | plugins/audio_interface/bluetooth_controller/AVRCP.ts:61-62 | The entries the `remove` loop visits are exactly the keys whose devicePath equals DEVNAME. |
| RegistryProperties.WithoutAppend | plugins/audio_interface/bluetooth_controller/AVRCP.ts:87 | `delete` keeps the other keys in their for..in order: removing a key from two runs of keys is removing it from each. |
| RegistryProperties.ListeningAppend | plugins/audio_interface/bluetooth_controller/AVRCP.ts:42-43 | The DEVPATH loop visits the listening entries in key order: the selection from two runs of keys is the selection from the first, then from the second. |
| DeviceRegistry.AddDevice | plugins/audio_interface/bluetooth_controller/AVRCP.ts:74-80 | addDevice adds exactly `mac` to the keys, changes nothing when `mac` is known, and opens, closes and dispatches nothing. |
| DeviceRegistry.RemoveDevice | plugins/audio_interface/bluetooth_controller/AVRCP.ts:82-89 | removeDevice throws exactly when `mac` is known and its keyboard is `null`. On a throw or an unknown MAC nothing changes; otherwise exactly `mac` leaves the keys. It opens and dispatches nothing, and only appends to the closes. |
| DeviceRegistry.BindAll | plugins/audio_interface/bluetooth_controller/AVRCP.ts:42-53 | The DEVPATH loop keeps the set of keys and opens at most one keyboard per key visited. |
| DeviceRegistry.AddByPath | plugins/audio_interface/bluetooth_controller/AVRCP.ts:41-53 | The DEVPATH branch keeps the keys and their order, closes and dispatches nothing, and only appends to the opened keyboards. |
| DeviceRegistry.UdevAdd | plugins/audio_interface/bluetooth_controller/AVRCP.ts:34-56 | The `add` handler throws exactly when the stripped NAME is a key and the raw NAME is not, and then changes nothing. It never adds, deletes or reorders keys, closes or dispatches anything, and only appends to the opened keyboards. |
| DeviceRegistry.CloseMatching | plugins/audio_interface/bluetooth_controller/AVRCP.ts:61-65 | The `remove` loop closes at most one keyboard per key, and throws exactly when some entry on DEVNAME still holds the `null` keyboard. |
| DeviceRegistry.UdevRemove | plugins/audio_interface/bluetooth_controller/AVRCP.ts:58-67 | Without a truthy DEVNAME the `remove` handler does nothing. It never changes the dictionary, the key order, the opened keyboards or the dispatched keys, and only appends to the closes. |
| DeviceRegistry.KeyPress | plugins/audio_interface/bluetooth_controller/AVRCP.ts:48-50 | A key press on a live keyboard dispatches exactly its code, after all earlier ones, and changes nothing else. |
| DeviceRegistry.Step | plugins/audio_interface/bluetooth_controller/AVRCP.ts:34-89 | Every operation only appends to the logs of opened, closed and dispatched keyboards. A TypeError leaves the dictionary and key order unchanged, and a key press on a keyboard that is not live does nothing. |
| DeviceRegistry.Run | plugins/audio_interface/bluetooth_controller/AVRCP.ts:34-89 | Any sequence of operations only appends to those logs. |
| RegistryProperties.BindAllFrame | plugins/audio_interface/bluetooth_controller/AVRCP.ts:42-53 | The DEVPATH loop opens one keyboard per listening entry. It changes no key and no path, and leaves entries with another virtualPath alone. |
| RegistryProperties.BindAllBinds | plugins/audio_interface/bluetooth_controller/AVRCP.ts:42-53 | The DEVPATH loop gives the i-th listening entry, in key order, the newly opened keyboard `next + i`, opened on its devicePath. |
| RegistryProperties.CloseMatchingSpec | plugins/audio_interface/bluetooth_controller/AVRCP.ts:61-65 | The `remove` loop closes the keyboards of the matching entries in key order. It fails exactly when it stops early, at an entry whose keyboard is `null`. |
| RegistryProperties.CloseMatchingStops | plugins/audio_interface/bluetooth_controller/AVRCP.ts:61-65 | Once the `remove` loop has thrown, the remaining keys change nothing. |
| RegistryProperties.AddDeviceUnknown | plugins/audio_interface/bluetooth_controller/AVRCP.ts:74-80 | addDevice on an unknown MAC inserts exactly one entry, `{'', '', null}`, last in key order. Nothing else changes. |
| RegistryProperties.AddDeviceIdempotent | plugins/audio_interface/bluetooth_controller/AVRCP.ts:76-79 | addDevice on a known MAC changes nothing, so calling it twice equals calling it once. |
| RegistryProperties.RemoveDeviceSpec | plugins/audio_interface/bluetooth_controller/AVRCP.ts:82-89 | On an unknown MAC removeDevice changes nothing. On a `null` keyboard it throws and changes nothing. Otherwise it closes that keyboard, which is no longer live, and deletes only that key; other entries, and whether their keyboards are live, are unchanged. |
| RegistryProperties.RemoveDeviceKeepsOrder | plugins/audio_interface/bluetooth_controller/AVRCP.ts:87 | After removeDevice the other keys keep the for..in order they had: `before + [mac] + after` becomes `before + after`. |
| RegistryProperties.RemovedKeyboardIsSilent | plugins/audio_interface/bluetooth_controller/AVRCP.ts:86-87 | After removeDevice, a key press on the closed keyboard dispatches nothing. |
| RegistryProperties.RemoveAfterAddThrows | plugins/audio_interface/bluetooth_controller/AVRCP.ts:74-89 | removeDevice right after addDevice throws, because the stored keyboard is `null`. |
| RegistryProperties.UdevAddByName | plugins/audio_interface/bluetooth_controller/AVRCP.ts:38-40 | When the stripped NAME is a key: it throws exactly when the raw NAME is not a key, and never when NAME has no quotes. Otherwise only that entry's virtualPath becomes DEVPATH, and no keyboard is opened. |
| RegistryProperties.ListeningSelects | plugins/audio_interface/bluetooth_controller/AVRCP.ts:42-43 | The entries the DEVPATH branch visits are exactly the keys whose virtualPath equals DEVPATH. |
| RegistryProperties.AddByPathFrame | plugins/audio_interface/bluetooth_controller/AVRCP.ts:41-53 | The DEVPATH branch adds, deletes and reorders no key. It closes and dispatches nothing, and appends exactly one opened keyboard per listening entry. |
| RegistryProperties.AddByPathUntouched | plugins/audio_interface/bluetooth_controller/AVRCP.ts:42-53 | The DEVPATH branch changes no virtualPath or devicePath, and leaves entries with another virtualPath unchanged. |
| RegistryProperties.AddByPathBindsAt | plugins/audio_interface/bluetooth_controller/AVRCP.ts:44-51 | The i-th listening entry holds the keyboard opened i-th in this event, opened on its devicePath. |
| RegistryProperties.AddByPathBinds | plugins/audio_interface/bluetooth_controller/AVRCP.ts:44-51 | The same holds for every listening entry. |
| RegistryProperties.AddByPathAt | plugins/audio_interface/bluetooth_controller/AVRCP.ts:42-53 | One entry: if it is listening, it is the i-th listening entry and holds keyboard i of this event, opened on its devicePath; otherwise it is unchanged. |
| RegistryProperties.UdevAddByPath | plugins/audio_interface/bluetooth_controller/AVRCP.ts:41-53 | The DEVPATH branch opens one keyboard per entry whose virtualPath equals DEVPATH, in key order, on that entry's devicePath, and stores it there. Other entries, keys, paths and closes are unchanged. |
| RegistryProperties.UdevAddIgnored | plugins/audio_interface/bluetooth_controller/AVRCP.ts:34-56 | With no known NAME and no DEVPATH the `add` handler does nothing. |
| RegistryProperties.RebindLeaksKeyboard | plugins/audio_interface/bluetooth_controller/AVRCP.ts:43-51 | A second matching `add` replaces an entry's keyboard without closing it. No entry holds the old keyboard, and its key presses are still dispatched. |
| RegistryProperties.LiveKeyboardDispatches | plugins/audio_interface/bluetooth_controller/AVRCP.ts:48-50 | A key press on a live keyboard is dispatched and changes nothing else. |
| RegistryProperties.UdevRemoveSpec | plugins/audio_interface/bluetooth_controller/AVRCP.ts:58-67 | The `remove` handler never changes the dictionary, order or paths. Without DEVNAME it does nothing. With DEVNAME it closes the keyboards of the entries on DEVNAME in key order, and throws at the first `null` one, after closing those before it. |
| RegistryProperties.HandlersKeepKeys | plugins/audio_interface/bluetooth_controller/AVRCP.ts:34-67 | Neither udev handler adds or deletes a key, or reorders keys. |
| RegistryProperties.OnNodeEmpty | plugins/audio_interface/bluetooth_controller/AVRCP.ts:61-62 | While every devicePath is `''`, no entry is on a non-empty DEVNAME. |
| RegistryProperties.RemoveEventInert | plugins/audio_interface/bluetooth_controller/AVRCP.ts:58-67 | While every devicePath is `''`, the `remove` handler does nothing. |
| RegistryProperties.AddDeviceKeepsInvariants | plugins/audio_interface/bluetooth_controller/AVRCP.ts:74-80 | addDevice keeps the invariants. |
| RegistryProperties.RemoveDeviceKeepsInvariants | plugins/audio_interface/bluetooth_controller/AVRCP.ts:82-89 | removeDevice keeps the invariants. |
| RegistryProperties.UdevAddKeepsInvariants | plugins/audio_interface/bluetooth_controller/AVRCP.ts:34-56 | The `add` handler keeps the invariants. |
| RegistryProperties.UdevRemoveKeepsInvariants | plugins/audio_interface/bluetooth_controller/AVRCP.ts:58-67 | The `remove` handler keeps the invariants. |
| RegistryProperties.StepKeepsInvariants | plugins/audio_interface/bluetooth_controller/AVRCP.ts:34-89 | Every operation keeps the invariants: keys are listed once in order; every stored keyboard was opened, on its entry's devicePath; no keyboard is shared; no devicePath is ever set. |
| RegistryProperties.AddByPathKeepsHandlesOpened | plugins/audio_interface/bluetooth_controller/AVRCP.ts:44-51 | After the DEVPATH branch, every stored keyboard was opened, on its entry's devicePath. |
| RegistryProperties.AddByPathKeepsHandlesUnshared | plugins/audio_interface/bluetooth_controller/AVRCP.ts:44-51 | After the DEVPATH branch, no keyboard is stored in two entries. |
| RegistryProperties.AddByPathKeepsPathsNeverSet | plugins/audio_interface/bluetooth_controller/AVRCP.ts:45-46 | After the DEVPATH branch, every devicePath is still `''` and every keyboard was opened on `''`. |
| RegistryProperties.UdevAddByPathKeepsInvariants | plugins/audio_interface/bluetooth_controller/AVRCP.ts:41-53 | The DEVPATH branch keeps those invariants. |
| RegistryProperties.RunKeepsInvariants | plugins/audio_interface/bluetooth_controller/AVRCP.ts:22-89 | Any sequence of operations keeps the invariants. |
| RegistryProperties.ReachableRemoveIsInert | plugins/audio_interface/bluetooth_controller/AVRCP.ts:58-67 | From a new controller, every keyboard is opened on `''` and a udev `remove` never closes anything. |
| RegistryProperties.QuotedNameThrows | plugins/audio_interface/bluetooth_controller/AVRCP.ts:38-39 | A NAME in quotes whose unquoted form is registered makes the `add` handler throw and change nothing. |
| RegistryProperties.RemoteLifecycle | plugins/audio_interface/bluetooth_controller/AVRCP.ts:34-89 | One remote end to end: an unquoted NAME records the virtual path; an event node under that path binds nothing; an exact DEVPATH opens keyboard 0 on `''`; removing the node closes nothing; removeDevice closes keyboard 0 and forgets the remote. |
| Avrcp.Controller.constructor | plugins/audio_interface/bluetooth_controller/AVRCP.ts:22-30 | A new controller has an empty dictionary, satisfies the invariants, and has opened nothing. |
| Avrcp.Controller.AddDevice | plugins/audio_interface/bluetooth_controller/AVRCP.ts:74-80 | Updates the fields in place exactly as the step addDevice does, and keeps the invariants. |
| Avrcp.Controller.RemoveDevice | plugins/audio_interface/bluetooth_controller/AVRCP.ts:82-89 | Updates the fields in place exactly as removeDevice does, including the throw on `null`, and keeps the invariants. |
| Avrcp.Controller.OnUdevAdd | plugins/audio_interface/bluetooth_controller/AVRCP.ts:34-56 | Performs the `add` handler in place, with both branches and the TypeError, and keeps the invariants. |
| Avrcp.Controller.BindKeyboards | plugins/audio_interface/bluetooth_controller/AVRCP.ts:42-53 | Its loop opens and stores keyboards exactly as the DEVPATH step does. |
| Avrcp.Controller.OnUdevRemove | plugins/audio_interface/bluetooth_controller/AVRCP.ts:58-67 | Performs the `remove` handler in place and keeps the invariants. |
| Avrcp.Controller.CloseKeyboards | plugins/audio_interface/bluetooth_controller/AVRCP.ts:61-65 | Its loop closes keyboards exactly as the `remove` step does, and reports the throw at a `null` keyboard. |
| Avrcp.Controller.DispatchKeyPress | plugins/audio_interface/bluetooth_controller/AVRCP.ts:48-50 | A key press on a live keyboard appends its code to what subscribers receive and changes nothing else. |
| KeyMap.ActionFor | plugins/audio_interface/bluetooth_controller/index.ts:72-86 | A recognised code is the key of its action. Exactly the codes 163, 165, 200 and 201 are recognised; every other code yields nothing. |
| KeyMap.ActionForIsInverse | plugins/audio_interface/bluetooth_controller/index.ts:72-86 | A code yields an action exactly when it is that action's key: 165 prev, 163 next, 200 play, 201 pause. |
| KeyMap.KeyOf | plugins/audio_interface/bluetooth_controller/index.ts:74-84 | Every action is asked for by one of the four key codes the switch tests. |
| KeyMap.Message | plugins/audio_interface/bluetooth_controller/index.ts:75-84 | Every action emits one of the socket messages `prev`, `next`, `play` and `pause`. |
| KeyMap.Messages | plugins/audio_interface/bluetooth_controller/index.ts:70-86 | Dispatching codes emits at most one message per code. |
| KeyMap.MessagesAppend | plugins/audio_interface/bluetooth_controller/index.ts:70-86 | The messages of two runs of key presses are the messages of the first run, then those of the second. |
| PluginConfig.SubValues | plugins/audio_interface/bluetooth_controller/index.ts:150-154 | One parsed value per sub-key. |
| PluginConfig.GetConfigParam | plugins/audio_interface/bluetooth_controller/index.ts:143-157 | A truthy direct value is returned unchanged. A falsy one is returned unchanged when there are no sub-keys. Otherwise the result is a list with one parsed value per sub-key, in sub-key order. |
| PluginConfig.GetConfigParamSubValues | plugins/audio_interface/bluetooth_controller/index.ts:148-155 | That list is exactly the parsed sub-key values. |
| MpdConfig.GetMpdConfigString | plugins/audio_interface/bluetooth_controller/index.ts:258-273 | The text is the concatenation of one block per paired device, in list order. |
| MpdConfig.Block | plugins/audio_interface/bluetooth_controller/index.ts:266-268 | A device's block is its name and MAC plus a fixed amount of text, and starts with the fixed opening followed by the name. |
| MpdConfig.Blocks | plugins/audio_interface/bluetooth_controller/index.ts:265-269 | The text is empty exactly when there are no devices. |
| MpdConfig.NoDevicesNoText | plugins/audio_interface/bluetooth_controller/index.ts:261-272 | With no paired devices the text is empty. |
| MpdConfig.BlocksSnoc | plugins/audio_interface/bluetooth_controller/index.ts:265-269 | Appending a device appends exactly its block. |
| MpdConfig.BlocksCons | plugins/audio_interface/bluetooth_controller/index.ts:265-269 | The text is the first device's block followed by the text of the rest. |
| MpdConfig.BlocksEnd | plugins/audio_interface/bluetooth_controller/index.ts:268 | A non-empty text ends with `}` and a newline. |
| MpdConfig.ParseBlock | plugins/audio_interface/bluetooth_controller/index.ts:266-268 | Reading a block off a text consumes part of it. |
| MpdConfig.ParseBlocks | plugins/audio_interface/bluetooth_controller/index.ts:265-269 | A text that reads back holds at most one device per character. |
| MpdConfig.ParseBlockOfBlock | plugins/audio_interface/bluetooth_controller/index.ts:266-268 | A block reads back as its device, when the name has no `"` and the MAC no `,`. |
| MpdConfig.ParseBlocksCons | plugins/audio_interface/bluetooth_controller/index.ts:265-269 | A text that starts with a writable block reads back as that device followed by the rest. |
| MpdConfig.ParseBlocksRoundTrip | plugins/audio_interface/bluetooth_controller/index.ts:265-269 | For such devices the whole text reads back as exactly the device list: nothing is lost or reordered. |
| DeviceList.TrustedMacs | plugins/audio_interface/bluetooth_controller/index.ts:205-210 | At most one MAC per listed device. |
| DeviceList.AddAll | plugins/audio_interface/bluetooth_controller/index.ts:205-210 | Registering a list of MACs makes the keys exactly the old keys and the listed MACs, and opens, closes and dispatches nothing. |
| DeviceList.DeviceListChanged | plugins/audio_interface/bluetooth_controller/index.ts:202-211 | Each trusted device is registered through addDevice, in list order, with its effect on the controller, and the invariants are kept. |
| DeviceList.TrustedMacsMembers | plugins/audio_interface/bluetooth_controller/index.ts:205-210 | A MAC is registered exactly when some listed device with that MAC is trusted. |
| DeviceList.TrustedMacsAppend | plugins/audio_interface/bluetooth_controller/index.ts:205-210 | Registering a concatenated list registers the MACs of the first part, then those of the second. |
| DeviceList.AddAllSpec | plugins/audio_interface/bluetooth_controller/index.ts:205-210 | Registering adds exactly the unknown MACs, each unbound. It keeps every known entry and every log. |
| DeviceList.AddAllKnown | plugins/audio_interface/bluetooth_controller/AVRCP.ts:76-79 | Registering known MACs changes nothing. |
| DeviceList.DeviceListChangedIdempotent | plugins/audio_interface/bluetooth_controller/index.ts:202-211 | Reporting the same device list twice leaves the controller as reporting it once. |

## Left out

- udev, `input-event` and `strongly-typed-events` are foreign libraries. Opening a keyboard,
  `close()` and dispatch are modelled as the logs `streams`, `closes` and `emitted`, and a
  keyboard is its index in `streams`. Closing a keyboard twice is recorded twice; what the
  library would do then is not modelled.
- Any opened keyboard that was not closed is modelled as able to deliver key presses,
  whatever path it was opened on. So `LiveKeyboardDispatches`, the last part of
  `RebindLeaksKeyboard` and `Avrcp.Controller.DispatchKeyPress` describe what a key press
  would do; as written the keyboards are opened on `''`, and no real key press arrives.
- DeviceRegistry.Run ends a sequence of events at the first TypeError. Whether the process
  goes on after an exception thrown in a udev handler or in removeDevice depends on the
  host, which is not modelled. `StepKeepsInvariants` covers both outcomes of every step.
- Key presses carry only their key code. The other fields of the event object are not modelled.
- Logging and `JSON.stringify` diagnostics have no behavioural effect and are left out.
- JavaScript object key order is modelled as insertion order. The order of integer-like keys,
  and keys inherited from the prototype, are not modelled. MAC addresses are never integer-like.
- Entries are values in a map. An entry object held elsewhere (the `item` alias at AVRCP.ts:44)
  is modelled by updating the map.
- PluginConfig.Value: JavaScript numbers are modelled as integers, so NaN and fractions are left out.
- PluginConfig.GetConfigParam: `JSON.parse` is the parameter `parse`. A parse error is not modelled.
- MpdConfig.GetMpdConfigString requires the direct value of `pairedDevices` to be falsy. The plugin
  only ever writes its sub-keys (index.ts:223-232). A truthy non-list value would be iterated by
  JavaScript, which is not modelled.
- MpdConfig.ParseBlocks is a reading of the text written here. MPD's own parser is not part of this model.
- Only the `trusted` flag and the MAC of a bluetoothctl device are read; `.toString()` on the MAC is the identity.
- Socket.io, bluetoothctl (pair, trust, connect, scan, remove), v-conf loading, saving and deleting,
  kew promises, the UI configuration page, commandRouter and toast calls are I/O and are left out.
  So are connectBluetoothDevice and disconnectBluetoothDevice, apart from the addDevice and
  removeDevice calls they make, which are modelled.
- The `setTimeout` that stops scanning and the commented-out `writeAsoundFile` (file writes
  and `execSync`) are left out.
- The plugin lifecycle (onVolumioStart, onStart wiring, onStop) is left out, apart from the
  key-code subscriber.
- Concurrency: JavaScript runs each handler to completion on one thread, so each call or event
  is one atomic step.
