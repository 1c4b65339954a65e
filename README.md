# Unity BLE plugin for Linux/BlueZ — a verified model of its core

The plugin lets a Unity host scan for, connect to and query Bluetooth Low
Energy devices through BlueZ on the D-Bus system bus. Below the D-Bus calls
there is a small state machine and a set of registries, and this project
models them:

- **UUID interning** (`Uuids`). Four 32-bit words are written as the
  lower-case 8-4-4-4-12 string of section 3 of RFC 4122. That string is the
  key of a lookup-or-insert registry of UUID objects.
- **Adapter gate** (`AdapterCheck`). It tracks the bus connection, the
  adapter proxy and the initialized flag. `IsAdapterAvailable`,
  `IsPowered` and `IsDiscovering` are derived from them. It also holds the
  first-match search for an `org.bluez.Adapter1` object and the discovery
  calls that these flags guard.
- **Scan registry** (`DeviceWatcher`). It has:
  - a scanning flag that the adapter gates;
  - a list of service-UUID filters;
  - a `std::map` from address to the latest sighting, filled in by polling
    BlueZ's managed-object enumeration (last write wins, filtered by UUID
    membership).
- **Device session** (`DeviceObject`). It holds:
  - the cached `Device1` properties;
  - connect and disconnect through the device proxy;
  - the characteristic list, rebuilt by discovery;
  - characteristic reads and writes;
  - the notification callback table.
- **Connection registry** (`DeviceManager`). It maps an address to a
  session and rewrites the address into a BlueZ object path. Connect is
  idempotent, disconnect is authoritative locally, there is a
  disconnect-all, and a sweep prunes sessions whose connected flag dropped.
  A session whose flag dropped leaves the connected list at once, because
  `GetConnectedDevices` filters on the flag (`BleDeviceManager.cpp:92-96`);
  it can still be found by address until `Update` erases it
  (`BleDeviceManager.cpp:104-110`). `DeviceManager.CleanupSweep` states this.
- **Host interface** (`UnityInterface`, `AddressCodec`, `Hex`).
  - The C entry points, as methods of one `BlePlugin` object that owns the
    four singletons.
  - The 48-bit address codec: `%02X:%02X:…` one way, and the
    `addr = (addr << 8) | stoul(…)` loop back.
  - Index accessors and handle accessors that answer 0, `""` or null.

Each D-Bus call is an oracle parameter of the operation that makes it:

| D-Bus call | parameter |
|---|---|
| `g_bus_get_sync`, `g_dbus_proxy_new_sync`, method calls | `bool` outcome |
| `GetManagedObjects` | `Option<seq<ManagedObject>>`, `None` when the proxy or the call fails |
| the proxy's cached properties | a `Properties` map |
| `ReadValue` | `Option<seq<byte>>` |

A ghost `busCalls` log on the adapter and on each session records which
adapter or device methods went out, so "no bus call" can be stated.

`std::map` iteration order is modelled as ascending order under
`std::string`'s `operator<` (`KeyOrder`). It is taken out of a set of
remaining keys by `LeastKey`, and the lemmas state what order the
snapshots come in.

## Model

| member | source | states |
|---|---|---|
| Hex.Fixed | bleplugin_projects/Linux/src/UuidManager.cpp:42-48 | `setw(n)` with fill '0' writes exactly `n` digits |
| Hex.ValueOfFixed | bleplugin_projects/Linux/src/UuidManager.cpp:42-48 | fixed-width hex text is all digits of the chosen case, and reading it back gives the number |
| Hex.FixedOfValue | bleplugin_projects/Linux/src/UnityInterface.cpp:70 | a digit string of one case is the fixed-width text of its own value |
| Hex.FixedInjective | bleplugin_projects/Linux/src/UuidManager.cpp:42-48 | two numbers below 16^n with the same n-digit text are equal |
| Uuids.UuidStringLayout | bleplugin_projects/Linux/src/UuidManager.cpp:41-49 | the canonical string has 36 characters: lower-case groups of 8-4-4-4-12, '-' at 8, 13, 18 and 23; its last 12 digits are the low half of d3 and then the 8 digits of d4, with no separator |
| Uuids.UuidRoundTrip | bleplugin_projects/Linux/src/UuidManager.cpp:41-49 | parsing the canonical string gives back (d1, d2, d3, d4) |
| Uuids.UuidStringInjective | bleplugin_projects/Linux/src/UuidManager.cpp:41-49 | distinct word tuples give distinct strings |
| Uuids.UuidObject.constructor | bleplugin_projects/Linux/src/UuidManager.cpp:5-17 | stores the four words and the same canonical string the manager builds |
| Uuids.UuidObject.GetUuidString | bleplugin_projects/Linux/src/UuidManager.cpp:19-21 | the stored string is in the RFC 4122 layout and parses back to the object's words |
| Uuids.UuidObject.GetUuid128 | bleplugin_projects/Linux/src/UuidManager.cpp:23-30 | writes d1, d2, d3, d4 in that order to the first four words and nothing else |
| Uuids.UuidManager.constructor | bleplugin_projects/Linux/src/UuidManager.cpp:32-35 | the registry starts empty |
| Uuids.UuidManager.GetOrCreateUuidObject | bleplugin_projects/Linux/src/UuidManager.cpp:37-62 | a known UUID returns the stored object and leaves the map unchanged; an unknown one inserts a fresh object under its string and keeps every other entry; either way the object is stored under its own string |
| Uuids.RegistryIsInjective | bleplugin_projects/Linux/src/UuidManager.cpp:52-61 | no object is stored under two keys |
| Uuids.InterningIsIdentity | bleplugin_projects/Linux/src/UuidManager.cpp:52-61 | the same words twice give the same object, and the registry after both calls is the registry after the first |
| Uuids.InterningSeparates | bleplugin_projects/Linux/src/UuidManager.cpp:52-61 | different words give different objects |
| AdapterCheck.FirstAdapterIsFirst | bleplugin_projects/Linux/src/BluetoothAdapterChecker.cpp:103-119 | the search finds nothing exactly when no object carries `Adapter1`; otherwise it finds the path of an adapter object with no adapter object before it |
| AdapterCheck.SearchFromEmpty | bleplugin_projects/Linux/src/BluetoothAdapterChecker.cpp:103-119 | the loop as written, started from an empty `adapterPath_`, is the first-match search |
| AdapterCheck.StalePathSurvives | bleplugin_projects/Linux/src/BluetoothAdapterChecker.cpp:103-119 | started from a stale path, the loop as written keeps it although the enumeration names another adapter |
| AdapterCheck.BluetoothAdapterChecker.constructor | bleplugin_projects/Linux/src/BluetoothAdapterChecker.cpp:16-21 | connects at once; initialized iff the bus, the enumeration, an adapter and its proxy are all there |
| AdapterCheck.BluetoothAdapterChecker.IsAdapterAvailable | bleplugin_projects/Linux/src/BluetoothAdapterChecker.cpp:150-152 | available iff initialized and the adapter proxy exists |
| AdapterCheck.BluetoothAdapterChecker.AvailableIffInitialized | bleplugin_projects/Linux/src/BluetoothAdapterChecker.cpp:150-152 | in every reachable state, availability is the initialized flag |
| AdapterCheck.BluetoothAdapterChecker.IsPowered | bleplugin_projects/Linux/src/BluetoothAdapterChecker.cpp:154-167 | true iff available and the cached `Powered` is present and true; powered implies available |
| AdapterCheck.BluetoothAdapterChecker.IsDiscovering | bleplugin_projects/Linux/src/BluetoothAdapterChecker.cpp:169-182 | true iff available and the cached `Discovering` is present and true |
| AdapterCheck.BluetoothAdapterChecker.InitializeDBusConnection | bleplugin_projects/Linux/src/BluetoothAdapterChecker.cpp:27-44 | initialized iff the bus connection and the adapter lookup both succeed; the connection flag is the bus outcome |
| AdapterCheck.BluetoothAdapterChecker.CleanupDBusConnection | bleplugin_projects/Linux/src/BluetoothAdapterChecker.cpp:46-56 | no adapter, no connection, not initialized, not available |
| AdapterCheck.BluetoothAdapterChecker.GetBlueZAdapter | bleplugin_projects/Linux/src/BluetoothAdapterChecker.cpp:58-148 | a failed enumeration fails and changes nothing; otherwise the path is the first adapter's path ("" if none), an empty result fails, and a found adapter succeeds iff its proxy is created |
| AdapterCheck.BluetoothAdapterChecker.RequestAdapterStatus | bleplugin_projects/Linux/src/BluetoothAdapterChecker.cpp:184-188 | initializes when uninitialized, otherwise changes nothing |
| AdapterCheck.BluetoothAdapterChecker.UpdateAdapterStatus | bleplugin_projects/Linux/src/BluetoothAdapterChecker.cpp:190-196 | re-initializes when uninitialized, otherwise changes nothing (the adapter-less initialized branch cannot be reached) |
| AdapterCheck.BluetoothAdapterChecker.StartDiscovery | bleplugin_projects/Linux/src/BluetoothAdapterChecker.cpp:198-221 | no bus call unless available and powered; succeeds iff powered and the call succeeds |
| AdapterCheck.BluetoothAdapterChecker.StopDiscovery | bleplugin_projects/Linux/src/BluetoothAdapterChecker.cpp:223-246 | no bus call unless available; succeeds iff available and the call succeeds |
| DeviceWatcher.IngestSnoc | bleplugin_projects/Linux/src/BleDeviceWatcher.cpp:162-167 | one sighting is upserted iff the filter admits it, and is skipped otherwise |
| DeviceWatcher.IngestAppend | bleplugin_projects/Linux/src/BleDeviceWatcher.cpp:124-169 | ingesting two batches one after the other is ingesting them joined |
| DeviceWatcher.IngestKeys | bleplugin_projects/Linux/src/BleDeviceWatcher.cpp:124-169 | after a poll a key is present iff it was before or an admitted sighting carried it: entries are never removed |
| DeviceWatcher.IngestUntouched | bleplugin_projects/Linux/src/BleDeviceWatcher.cpp:186-192 | an address no admitted sighting carries keeps its row |
| DeviceWatcher.IngestLastWins | bleplugin_projects/Linux/src/BleDeviceWatcher.cpp:186-192 | an address's row is its last admitted sighting |
| DeviceWatcher.IngestKeepsKeyed | bleplugin_projects/Linux/src/BleDeviceWatcher.cpp:186-192 | every row stays stored under its own address |
| DeviceWatcher.SnapshotIsTable | bleplugin_projects/Linux/src/BleDeviceWatcher.cpp:177-184 | the snapshot lists each stored address exactly once, in ascending order, with its current row |
| DeviceWatcher.FilterScenario | bleplugin_projects/Linux/src/BleDeviceWatcher.cpp:162-164 | with filter F, a device advertising {F, G} is kept and one advertising only {G} is not; after the filters are cleared, the second is kept |
| DeviceWatcher.MissingPropertiesOverwrite | bleplugin_projects/Linux/src/BleDeviceWatcher.cpp:132-167 | a sighting without `Name` and `RSSI` overwrites the row with "" and 0 |
| DeviceWatcher.BleDeviceWatcher.constructor | bleplugin_projects/Linux/src/BleDeviceWatcher.cpp:17-19 | not scanning, no filters, empty table |
| DeviceWatcher.BleDeviceWatcher.AddScanFilter | bleplugin_projects/Linux/src/BleDeviceWatcher.cpp:21-26 | a non-null UUID is appended at the end; null is ignored |
| DeviceWatcher.BleDeviceWatcher.ClearScanFilter | bleplugin_projects/Linux/src/BleDeviceWatcher.cpp:28-31 | the filter list becomes empty and the table is not touched |
| DeviceWatcher.BleDeviceWatcher.StartScan | bleplugin_projects/Linux/src/BleDeviceWatcher.cpp:33-49 | unavailable or unpowered: false, flag unchanged, no bus call; already scanning: true, no bus call; otherwise one `StartDiscovery`, and the flag and the result are its outcome |
| DeviceWatcher.BleDeviceWatcher.StopScan | bleplugin_projects/Linux/src/BleDeviceWatcher.cpp:51-63 | not scanning: true, no bus call; otherwise the scan stops iff `StopDiscovery` succeeds |
| DeviceWatcher.BleDeviceWatcher.OnDeviceFound | bleplugin_projects/Linux/src/BleDeviceWatcher.cpp:186-192 | the row for the address becomes (address, name, rssi), and all other rows are unchanged |
| DeviceWatcher.BleDeviceWatcher.CheckServiceUuid | bleplugin_projects/Linux/src/BleDeviceWatcher.cpp:194-202 | true iff some filter's canonical string is among the device's UUIDs; joined with the empty-list test this is the filter `Admits` |
| DeviceWatcher.BleDeviceWatcher.Update | bleplugin_projects/Linux/src/BleDeviceWatcher.cpp:65-175 | while scanning, with an enumeration, the table becomes the old table with every admitted `Device1` sighting upserted in bus order; otherwise it is unchanged |
| DeviceWatcher.BleDeviceWatcher.IngestInterfaces | bleplugin_projects/Linux/src/BleDeviceWatcher.cpp:130-169 | one object's `Device1` interfaces are read, filtered and upserted in order |
| DeviceWatcher.BleDeviceWatcher.GetScannedDevices | bleplugin_projects/Linux/src/BleDeviceWatcher.cpp:177-184 | the rows in ascending address order (the `TableSnapshot`) |
| DeviceObject.RefreshIdempotent | bleplugin_projects/Linux/src/BleDeviceObject.cpp:63-93 | refreshing twice from one cache is refreshing once; an empty cache changes nothing |
| DeviceObject.GattEntriesMembers | bleplugin_projects/Linux/src/BleDeviceObject.cpp:228-251 | an object contributes an entry with its path iff it has a `GattCharacteristic1` interface |
| DeviceObject.CharacteristicsMembers | bleplugin_projects/Linux/src/BleDeviceObject.cpp:217-253 | an entry is listed iff an object under the device path with that path carries `GattCharacteristic1`; its UUIDs are unset |
| DeviceObject.CharacteristicsAppend | bleplugin_projects/Linux/src/BleDeviceObject.cpp:217-253 | the list follows enumeration order: joined enumerations give joined lists |
| DeviceObject.BleDeviceObject.constructor | bleplugin_projects/Linux/src/BleDeviceObject.cpp:10-18 | starts at "", "", false, 0 and reads the proxy's cache when the proxy exists; no bus calls, no characteristics, no callbacks |
| DeviceObject.BleDeviceObject.GetDeviceProperties | bleplugin_projects/Linux/src/BleDeviceObject.cpp:63-93 | without a proxy: false and nothing changes; otherwise each present property overwrites its field and the absent ones keep their value |
| DeviceObject.BleDeviceObject.OnPropertiesChanged | bleplugin_projects/Linux/src/BleDeviceObject.cpp:95-99 | the same refresh from the proxy's cache |
| DeviceObject.BleDeviceObject.Connect | bleplugin_projects/Linux/src/BleDeviceObject.cpp:117-140 | false with no bus call without a proxy; only `busCalls` may change, so the connected flag is untouched |
| DeviceObject.BleDeviceObject.Disconnect | bleplugin_projects/Linux/src/BleDeviceObject.cpp:142-165 | false with no bus call without a proxy; otherwise one `Disconnect` and its outcome |
| DeviceObject.BleDeviceObject.DiscoverServices | bleplugin_projects/Linux/src/BleDeviceObject.cpp:167-259 | refused with the list untouched without a proxy or a connection; otherwise the list is cleared first (left empty when the enumeration fails) and then becomes `CharacteristicsOf` the enumeration |
| DeviceObject.BleDeviceObject.ReadCharacteristic | bleplugin_projects/Linux/src/BleDeviceObject.cpp:265-316 | succeeds iff there is a reply; `data` becomes exactly the reply's bytes in order, and is unchanged on failure |
| DeviceObject.BleDeviceObject.WriteCharacteristic | bleplugin_projects/Linux/src/BleDeviceObject.cpp:318-365 | the `ay` argument is exactly `data`; succeeds iff the proxy and the call succeed |
| DeviceObject.BleDeviceObject.EnableNotification | bleplugin_projects/Linux/src/BleDeviceObject.cpp:367-408 | the callback is stored, or replaces the old one, under the path iff `StartNotify` succeeds |
| DeviceObject.BleDeviceObject.DisableNotification | bleplugin_projects/Linux/src/BleDeviceObject.cpp:410-449 | the path's callback is erased iff `StopNotify` succeeds |
| DeviceObject.DiscoveryReplaces | bleplugin_projects/Linux/src/BleDeviceObject.cpp:167-259 | discovering twice leaves only the second enumeration's characteristics |
| DeviceObject.NotificationRoundTrip | bleplugin_projects/Linux/src/BleDeviceObject.cpp:367-449 | enable then disable removes the path and leaves every other callback as it was |
| DeviceManager.Replaced | bleplugin_projects/Linux/src/BleDeviceManager.cpp:47 | `std::replace` keeps the length |
| DeviceManager.DevicePathShape | bleplugin_projects/Linux/src/BleDeviceManager.cpp:46-47 | the path is `/org/bluez/hci0/dev_` followed by the address with every ':' turned into '_'; it contains no ':' and starts with '/' |
| DeviceManager.DevicePathInjective | bleplugin_projects/Linux/src/BleDeviceManager.cpp:46-47 | addresses without '_' have the same path iff they are equal |
| DeviceManager.ReplaceInPlace | bleplugin_projects/Linux/src/BleDeviceManager.cpp:47 | the buffer becomes its old content with `from` replaced by `to` |
| DeviceManager.BuildDevicePath | bleplugin_projects/Linux/src/BleDeviceManager.cpp:46-47 | the built path is `DevicePath(address)` |
| DeviceManager.ConnectedOnly | bleplugin_projects/Linux/src/BleDeviceManager.cpp:92-96 | a key is kept iff it is listed and its flag is set |
| DeviceManager.ConnectedOnlyAscending | bleplugin_projects/Linux/src/BleDeviceManager.cpp:92-96 | filtering keeps map order |
| DeviceManager.ConnectedKeysSpec | bleplugin_projects/Linux/src/BleDeviceManager.cpp:89-98 | the listed addresses are exactly the connected ones, in ascending order |
| DeviceManager.Pruned | bleplugin_projects/Linux/src/BleDeviceManager.cpp:104-110 | the swept registry holds exactly the connected entries |
| DeviceManager.PruneKeepsConnectedList | bleplugin_projects/Linux/src/BleDeviceManager.cpp:89-111 | pruning leaves the connected address list unchanged |
| DeviceManager.Pick | bleplugin_projects/Linux/src/BleDeviceManager.cpp:92-95 | one stored session per listed key, each drawn from the registry |
| DeviceManager.SweptListSame | bleplugin_projects/Linux/src/BleDeviceManager.cpp:89-111 | a registry and its swept copy list the same sessions |
| DeviceManager.PickExcludes | bleplugin_projects/Linux/src/BleDeviceManager.cpp:92-95 | a session stored under none of the listed keys is not listed |
| DeviceManager.PickHas | bleplugin_projects/Linux/src/BleDeviceManager.cpp:92-95 | a session stored under a listed key is listed |
| DeviceManager.ConnectedListMembers | bleplugin_projects/Linux/src/BleDeviceManager.cpp:89-98 | the connected list holds a session iff it is stored under an address whose flag is set |
| DeviceManager.BleDeviceManager.Flags | bleplugin_projects/Linux/src/BleDeviceManager.cpp:93 | one connected flag per registry key |
| DeviceManager.BleDeviceManager.constructor | bleplugin_projects/Linux/src/BleDeviceManager.cpp:8-11 | no sessions, no connection |
| DeviceManager.BleDeviceManager.InitializeDBusConnection | bleplugin_projects/Linux/src/BleDeviceManager.cpp:13-22 | the connection exists iff `g_bus_get_sync` succeeds |
| DeviceManager.BleDeviceManager.CleanupDBusConnection | bleplugin_projects/Linux/src/BleDeviceManager.cpp:24-29 | no connection afterwards |
| DeviceManager.BleDeviceManager.ConnectDevice | bleplugin_projects/Linux/src/BleDeviceManager.cpp:31-58 | a known address returns its session and changes nothing; otherwise the connection is made if missing, and a fresh session at `DevicePath(address)` with one `Connect` call is stored iff bus, proxy and `Connect` succeed; on failure null and the map is unchanged |
| DeviceManager.BleDeviceManager.DisconnectDevice | bleplugin_projects/Linux/src/BleDeviceManager.cpp:60-67 | the entry is removed whatever `Disconnect` returns; only that session gets a `Disconnect` call; an absent address is a no-op |
| DeviceManager.BleDeviceManager.DisconnectAllDevices | bleplugin_projects/Linux/src/BleDeviceManager.cpp:69-75 | every session with a proxy gets one `Disconnect`, and the map is left empty |
| DeviceManager.BleDeviceManager.IsDeviceConnected | bleplugin_projects/Linux/src/BleDeviceManager.cpp:77-81 | true iff the address is stored and its session's flag is set |
| DeviceManager.BleDeviceManager.GetDeviceByAddress | bleplugin_projects/Linux/src/BleDeviceManager.cpp:83-87 | the stored session, or null iff the address is absent |
| DeviceManager.BleDeviceManager.GetConnectedDevices | bleplugin_projects/Linux/src/BleDeviceManager.cpp:89-98 | exactly the sessions whose flag is set, in address order |
| DeviceManager.BleDeviceManager.Update | bleplugin_projects/Linux/src/BleDeviceManager.cpp:100-111 | exactly the disconnected entries are removed and the others keep their sessions |
| DeviceManager.ConnectIsIdempotent | bleplugin_projects/Linux/src/BleDeviceManager.cpp:35-58 | once a first connect returns a session, a second connect returns the same session, the registry is the first call's registry and `Connect` is not called again; a failed first call leaves the registry unchanged, and the second call is then a new attempt that stores a fresh session with one `Connect` or leaves the registry unchanged |
| DeviceManager.SweepKeepsConnectedList | bleplugin_projects/Linux/src/BleDeviceManager.cpp:89-111 | the connected list is the same before and after a sweep |
| DeviceManager.DisconnectIsAuthoritative | bleplugin_projects/Linux/src/BleDeviceManager.cpp:60-67 | after a disconnect the address reads as not connected, even when a stale "connected" refresh then reaches the old session |
| DeviceManager.CleanupSweep | bleplugin_projects/Linux/src/BleDeviceManager.cpp:83-111 | a session whose flag drops is left out of the connected list at once, is still found by address, and is gone after the sweep |
| DeviceManager.ConnectThenUpdate | bleplugin_projects/Linux/src/BleDeviceManager.cpp:50-57 | a new session whose cache does not say `Connected` is not connected, and the next sweep forgets it |
| Ints.ShiftLeft8 | bleplugin_projects/Linux/src/UnityInterface.cpp:70 | `x << 8` on `uint64` is `x * 256` when nothing is shifted out |
| AddressCodec.Octets | bleplugin_projects/Linux/src/UnityInterface.cpp:97-102 | six octets, `(addr >> (40 - 8i)) & 0xFF` |
| AddressCodec.EncodeAddress | bleplugin_projects/Linux/src/UnityInterface.cpp:95-102 | the text has 17 characters |
| AddressCodec.GroupValues | bleplugin_projects/Linux/src/UnityInterface.cpp:70 | six group values, one per `substr(3i, 2)` |
| AddressCodec.EncodeLayout | bleplugin_projects/Linux/src/UnityInterface.cpp:95-102 | the text has upper-case two-digit groups with ':' between them, and its group values are the six octets |
| AddressCodec.DecodeEncode | bleplugin_projects/Linux/src/UnityInterface.cpp:67-71 | decoding the encoding gives `addr & 0xFFFFFFFFFFFF` |
| AddressCodec.EncodeDecode | bleplugin_projects/Linux/src/UnityInterface.cpp:67-71 | a well-formed upper-case address decodes below 2^48 and encodes back to itself |
| AddressCodec.EncodeInjective | bleplugin_projects/Linux/src/UnityInterface.cpp:95-102 | two addresses have the same text iff their low 48 bits agree |
| AddressCodec.NoUnderscore | bleplugin_projects/Linux/src/UnityInterface.cpp:95-102 | the text contains no '_' |
| AddressCodec.ShiftClearsLowByte | bleplugin_projects/Linux/src/UnityInterface.cpp:70 | `x << 8` has a zero low byte, so or-ing in an octet adds it |
| AddressCodec.DecodeAddress | bleplugin_projects/Linux/src/UnityInterface.cpp:67-71 | the loop computes the base-256 value of the six groups, most significant first |
| UnityInterface.Handle | bleplugin_projects/Linux/src/UnityInterface.cpp:205 | an unset UUID is a null handle and a set one is its object |
| UnityInterface.EncodedPathsDistinct | bleplugin_projects/Linux/src/UnityInterface.cpp:93-104 | distinct 48-bit addresses reach the registry under distinct keys and distinct object paths |
| UnityInterface.HighBitsIgnored | bleplugin_projects/Linux/src/UnityInterface.cpp:181-192 | addresses that agree in their low 48 bits name the same session |
| UnityInterface.ScanThenConnect | bleplugin_projects/Linux/src/UnityInterface.cpp:63-105 | the number returned for a scanned address, passed back to connect, connects that address, and the session is then found by that number |
| UnityInterface.BlePlugin.constructor | bleplugin_projects/Linux/src/BluetoothAdapterChecker.cpp:11-21 | the singletons as they start: the adapter checker tries to initialize at once (`BluetoothAdapterChecker.cpp:11-21`), the watcher is not scanning with no filters (`BleDeviceWatcher.cpp:12-19`), and the device manager (`BleDeviceManager.cpp:8-11`) and UUID registry (`UuidManager.cpp:32-35`) are empty |
| UnityInterface.BlePlugin.AdapterStatusRequest | bleplugin_projects/Linux/src/UnityInterface.cpp:10-12 | initializes the adapter checker when it is uninitialized |
| UnityInterface.BlePlugin.AdapterUpdate | bleplugin_projects/Linux/src/UnityInterface.cpp:14-17 | 1 iff the adapter is powered after the status update, else 0 |
| UnityInterface.BlePlugin.DisconnectAllDevices | bleplugin_projects/Linux/src/UnityInterface.cpp:19-21 | every session with a proxy is disconnected and the registry is emptied (also `_BlePluginDisconnectAllDevice`, lines 120-122) |
| UnityInterface.BlePlugin.GetOrCreateUuidObject | bleplugin_projects/Linux/src/UnityInterface.cpp:23-25 | the interning contract of the registry |
| UnityInterface.BlePlugin.ConvertUuidUint128 | bleplugin_projects/Linux/src/UnityInterface.cpp:27-31 | the four words are written only when both handle and buffer are non-null; otherwise the buffer is untouched |
| UnityInterface.BlePlugin.UpdateWatcher | bleplugin_projects/Linux/src/UnityInterface.cpp:33-35 | one scan poll |
| UnityInterface.BlePlugin.UpdateDeviceManager | bleplugin_projects/Linux/src/UnityInterface.cpp:37-39 | the sweep: exactly the disconnected sessions go |
| UnityInterface.BlePlugin.AddScanServiceUuid | bleplugin_projects/Linux/src/UnityInterface.cpp:41-45 | a null handle adds no filter; a non-null one is appended |
| UnityInterface.BlePlugin.StartScan | bleplugin_projects/Linux/src/UnityInterface.cpp:47-49 | scanning afterwards iff powered and (already scanning or the call succeeds), or not powered and already scanning; `StartDiscovery` is called exactly when powered and not already scanning |
| UnityInterface.BlePlugin.StopScan | bleplugin_projects/Linux/src/UnityInterface.cpp:51-53 | scanning afterwards iff it was and the stop did not succeed; `StopDiscovery` is called exactly when scanning and the adapter is available |
| UnityInterface.BlePlugin.ClearScanFilter | bleplugin_projects/Linux/src/UnityInterface.cpp:55-57 | no filters afterwards |
| UnityInterface.BlePlugin.ScanGetDeviceLength | bleplugin_projects/Linux/src/UnityInterface.cpp:59-61 | the snapshot's size, one per scanned address |
| UnityInterface.BlePlugin.ScanGetDeviceAddr | bleplugin_projects/Linux/src/UnityInterface.cpp:63-75 | 0 out of range; in range the entry's address as a number, whose encoding is the stored text when that text is well formed |
| UnityInterface.BlePlugin.ScanGetDeviceName | bleplugin_projects/Linux/src/UnityInterface.cpp:77-83 | "" out of range, else the entry's name |
| UnityInterface.BlePlugin.ScanGetDeviceRssi | bleplugin_projects/Linux/src/UnityInterface.cpp:85-91 | 0 out of range, else the entry's signal strength |
| UnityInterface.BlePlugin.ConnectDevice | bleplugin_projects/Linux/src/UnityInterface.cpp:93-105 | the registry is keyed by the encoded address; a known address returns its session and changes nothing; a new address gets a fresh session, stored under that key with one `Connect` call and the state read from the cache, exactly when the bus connection, the proxy and `Connect` succeed, and otherwise null with the registry unchanged |
| UnityInterface.BlePlugin.DisconnectDevice | bleplugin_projects/Linux/src/UnityInterface.cpp:107-118 | the encoded address is removed, and the number then reads as not connected; only that session gets `Disconnect` (when it has a proxy) |
| UnityInterface.BlePlugin.IsDeviceConnectedByAddr | bleplugin_projects/Linux/src/UnityInterface.cpp:124-135 | agrees with `_BlePluginIsDeviceConnected` of the handle `_BlePluginGetDevicePtrByAddr` returns |
| UnityInterface.BlePlugin.IsDeviceConnected | bleplugin_projects/Linux/src/UnityInterface.cpp:137-142 | false for a null handle |
| UnityInterface.BlePlugin.DeviceGetAddr | bleplugin_projects/Linux/src/UnityInterface.cpp:144-154 | 0 for a null handle, else the session's address as a number |
| UnityInterface.BlePlugin.GetConnectDeviceNum | bleplugin_projects/Linux/src/UnityInterface.cpp:156-158 | the number of connected addresses |
| UnityInterface.BlePlugin.GetConnectDeviceAddr | bleplugin_projects/Linux/src/UnityInterface.cpp:160-171 | 0 out of range, else the address of the entry in the connected list |
| UnityInterface.BlePlugin.GetConnectDevicePtr | bleplugin_projects/Linux/src/UnityInterface.cpp:173-179 | null out of range, else the entry of the connected list |
| UnityInterface.BlePlugin.GetDevicePtrByAddr | bleplugin_projects/Linux/src/UnityInterface.cpp:181-192 | the session stored under the encoded address, or null iff none |
| UnityInterface.BlePlugin.DeviceCharacteristicsNum | bleplugin_projects/Linux/src/UnityInterface.cpp:194-199 | 0 for a null handle, else the characteristic count |
| UnityInterface.BlePlugin.DeviceCharacteristicUuid | bleplugin_projects/Linux/src/UnityInterface.cpp:201-209 | non-null iff the handle is non-null, the index is in range and that entry's characteristic UUID is set, in which case it is that UUID |
| UnityInterface.BlePlugin.DeviceCharacteristicServiceUuid | bleplugin_projects/Linux/src/UnityInterface.cpp:211-219 | the same for the service UUID |

## Left out

- GLib and D-Bus are not modelled. Each proxy creation, method call, enumeration and cached-property read is an oracle parameter, as described above. Signal connection and disconnection and `g_object_unref` are not modelled at all.
- The mutexes are left out: every operation runs to completion before the next one starts, and the properties-changed signal is an explicit `OnPropertiesChanged` call.
- The `GetInstance` singletons and `std::cerr` logging are left out. The four singletons are the fields of one `BlePlugin` object.
- The `TODO` entry points (`UnityInterface.cpp:221-286`: read and write requests, the notification queue, `Copy*`) have no behaviour to model. `ReadCharacteristic`, `WriteCharacteristic`, `EnableNotification`, `DisableNotification` and `DiscoverServices` are modelled on the session although the host interface never reaches them.
- UUID resolution in `DiscoverServices` is not modelled. The source never assigns the two UUID pointers of a `CharacteristicInfo` (`BleDeviceObject.cpp:231` default-initializes a struct whose pointers have no initializers, `BleDeviceObject.h:13-14`), so they hold indeterminate values and `_BlePluginDeviceCharastricUuid` and `_BlePluginDeviceCharastricServiceUuid` (`UnityInterface.cpp:205`, `:215`) hand the host undefined pointers. The model treats them as unset (`None`) and returns a null handle.
- Uuids.UuidObject.GetUuid128: the destination is an array of four `uint32` words. The `uint8_t*` buffer, the `reinterpret_cast` and host byte order are not modelled.
- Handles are object references (`UuidObject?`, `BleDeviceObject?`). Raw `void*` casts of unrelated pointers are not modelled.
- `_BlePluginScanGetDeviceName` returns the `c_str()` of a temporary, which dangles (`UnityInterface.cpp:80`). The model returns the string value.
- `std::stoul` and `substr` throw on malformed text. Instead, every decoding entry point has an `IsDecodable` precondition: at least 17 characters, and six hex groups at offsets 0, 3, …, 15. `substr` itself needs only 15 characters, and `stoul` also accepts inputs such as a single digit followed by a non-digit; neither case is modelled.
- AddressCodec.DecodeAddress: the `|` of the decode loop is modelled as `+`. `ShiftClearsLowByte` shows the two agree, since the shifted value has a zero low byte. The loop's values always stay below 2^48.
- The `static_cast<int>` of vector sizes in `_BlePluginScanGetDeviceLength` and `_BlePluginGetConectDeviceNum` is not wrapped to 32 bits.
- A property whose variant has an unexpected type: for `Connected`, `RSSI`, `Powered` and `Discovering`, `g_variant_get_boolean` and `g_variant_get_int16` log a critical warning and give false and 0, which the model reads too. For `Address` and `Name`, `g_variant_get_string` returns NULL and the source assigns it to a `std::string` (`BleDeviceObject.cpp:70`, `:76`; `BleDeviceWatcher.cpp:145`, `:147`), which is undefined behaviour; the model's "" replaces that undefined behaviour.
- An `a{sv}` property dictionary is a map, so a key appearing twice in one reply is not modelled.
- DeviceManager.BleDeviceManager.Update: the sweep erases from a copy of the registry and stores the copy once at the end, where the source erases in place while iterating. No other code runs during the sweep, so the final registry is the same.
- The `signalHandlers_` map and the leaking of the never-released object-manager and device proxies are not modelled.
- The uninitialized `dbusConnection_` of `BleDeviceManager` (`BleDeviceManager.h:32`) is modelled as starting absent, as the zeroed static storage of the singleton gives.
- A fresh session's connected flag comes only from the proxy's cache at construction. When the cache does not yet say `Connected`, the next sweep drops the session (`DeviceManager.ConnectThenUpdate`). The model states this and does not change it.

## Findings

| source | as written | input that shows it | evidently intended | confidence | as-written member | corrected member |
|---|---|---|---|---|---|---|
| bleplugin_projects/Linux/src/BluetoothAdapterChecker.cpp:103-119 | `adapterPath_` is not cleared before the search, the inner loop only overwrites it on a match, and the outer loop leaves as soon as it is non-empty. A second search therefore keeps the path of an earlier search and stops after the first object. | A first lookup finds `/org/bluez/hci0`, but its proxy cannot be created. On the retry the enumeration is `[/ (no interfaces), /org/bluez/hci1 (Adapter1)]`. | The retry searches afresh and finds `/org/bluez/hci1`, the first adapter of the new enumeration. | not executed | AdapterCheck.StalePathSurvives | AdapterCheck.BluetoothAdapterChecker.GetBlueZAdapter |
