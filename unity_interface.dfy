/** The C entry points the Unity host calls (UnityInterface.cpp). Each
    forwards to one of the plugin's singletons, here the fields of one
    `BlePlugin` object; addresses cross the boundary as 48-bit integers,
    and index accessors and handle accessors answer 0, "" or null when the
    index is out of range or the handle is null. */
module UnityInterface {
  import opened Wrappers
  import opened Ints
  import opened DBus
  import opened Uuids
  import opened AdapterCheck
  import opened DeviceWatcher
  import opened DeviceObject
  import opened DeviceManager
  import opened AddressCodec

  /** A stored UUID as the handle the host receives (null when unset). */
  function Handle(u: Option<UuidObject>): (h: UuidObject?)
    ensures h == null <==> u.None?
    ensures h != null ==> u == Some(h)
  {
    match u
    case Some(v) => v
    case None => null
  }

  /** Distinct 48-bit addresses reach the registry under distinct keys and
      map to distinct BlueZ device paths. */
  lemma EncodedPathsDistinct(a: uint64, b: uint64)
    requires a < 0x1_0000_0000_0000 && b < 0x1_0000_0000_0000 && a != b
    ensures EncodeAddress(a) != EncodeAddress(b)
    ensures DevicePath(EncodeAddress(a)) != DevicePath(EncodeAddress(b))
  {
    var ea, eb := EncodeAddress(a), EncodeAddress(b);
    assert ea != eb by {
      DivModUnique(a, 0x1_0000_0000_0000, 0, a);
      DivModUnique(b, 0x1_0000_0000_0000, 0, b);
      EncodeInjective(a, b);
    }
    assert '_' !in ea by { NoUnderscore(a); }
    assert '_' !in eb by { NoUnderscore(b); }
    DevicePathInjective(ea, eb);
  }

  class BlePlugin {
    const adapter: BluetoothAdapterChecker
    const watcher: BleDeviceWatcher
    const manager: BleDeviceManager
    const uuids: UuidManager

    ghost predicate Valid()
      reads this, adapter, watcher, manager, uuids
    {
      adapter.Valid() && watcher.Valid() && manager.Valid() && uuids.Valid()
    }

    /** The singletons as they start: the adapter checker connects and
        looks up the adapter at once, the others start empty. */
    constructor (busOk: bool, objects: Option<seq<ManagedObject>>, proxyOk: bool)
      ensures Valid()
      ensures fresh(adapter) && fresh(watcher) && fresh(manager) && fresh(uuids)
      ensures adapter.isInitialized <==> busOk && objects.Some? && FirstAdapter(objects.value).Some? && proxyOk
      ensures watcher.scanFilterUuids == [] && watcher.scannedDevices == map[] && !watcher.isScanning
      ensures manager.connectedDevices == map[] && !manager.dbusConnection
      ensures uuids.uuidMap == map[]
    {
      adapter := new BluetoothAdapterChecker(busOk, objects, proxyOk);
      watcher := new BleDeviceWatcher();
      manager := new BleDeviceManager();
      uuids := new UuidManager();
    }

    /** `_BlePluginBleAdapterStatusRequest`. */
    method AdapterStatusRequest(busOk: bool, objects: Option<seq<ManagedObject>>, proxyOk: bool)
      requires Valid()
      modifies adapter`dbusConnection, adapter`adapter, adapter`adapterPath, adapter`isInitialized
      ensures Valid()
      ensures old(adapter.isInitialized) ==> unchanged(adapter)
      ensures !old(adapter.isInitialized) ==>
                (adapter.isInitialized <==> busOk && objects.Some? && FirstAdapter(objects.value).Some? && proxyOk)
    {
      adapter.RequestAdapterStatus(busOk, objects, proxyOk);
    }

    /** `_BlePluginBleAdapterUpdate`: 1 exactly when the adapter is powered
        after the status update, 0 otherwise. */
    method AdapterUpdate(busOk: bool, objects: Option<seq<ManagedObject>>, proxyOk: bool, cache: Properties)
      returns (r: int)
      requires Valid()
      modifies adapter`dbusConnection, adapter`adapter, adapter`adapterPath, adapter`isInitialized
      ensures Valid()
      ensures r == 1 <==> adapter.IsPowered(cache)
      ensures r == 0 || r == 1
      ensures r == 1 ==> adapter.isInitialized
      ensures old(adapter.isInitialized) ==> unchanged(adapter)
    {
      adapter.UpdateAdapterStatus(busOk, objects, proxyOk);
      r := if adapter.IsPowered(cache) then 1 else 0;
    }

    /** `_BlePluginFinalize` and `_BlePluginDisconnectAllDevice`. */
    method DisconnectAllDevices(callOk: bool)
      requires Valid()
      modifies manager, manager.connectedDevices.Values`busCalls
      ensures Valid()
      ensures manager.connectedDevices == map[]
      ensures forall d | d in old(manager.connectedDevices.Values) ::
                d.busCalls == if d.hasProxy then old(d.busCalls) + [DisconnectCall] else old(d.busCalls)
    {
      manager.DisconnectAllDevices(callOk);
    }

    /** `_BlePluginGetOrCreateUuidObject`. */
    method GetOrCreateUuidObject(d1: uint32, d2: uint32, d3: uint32, d4: uint32) returns (u: UuidObject)
      requires Valid()
      modifies uuids
      ensures Valid()
      ensures u.Valid() && u.data1 == d1 && u.data2 == d2 && u.data3 == d3 && u.data4 == d4
      ensures UuidString(d1, d2, d3, d4) in old(uuids.uuidMap) ==>
                u == old(uuids.uuidMap)[UuidString(d1, d2, d3, d4)] && uuids.uuidMap == old(uuids.uuidMap)
      ensures UuidString(d1, d2, d3, d4) !in old(uuids.uuidMap) ==>
                fresh(u) && uuids.uuidMap == old(uuids.uuidMap)[UuidString(d1, d2, d3, d4) := u]
    {
      u := uuids.GetOrCreateUuidObject(d1, d2, d3, d4);
    }

    /** `_BlePluginConvertUuidUint128`: writes the four words only when
        both the handle and the buffer are non-null. */
    method ConvertUuidUint128(uuid: UuidObject?, out: array?<uint32>)
      requires out != null ==> out.Length >= 4
      modifies out
      ensures uuid != null && out != null ==>
                out[..4] == [uuid.data1, uuid.data2, uuid.data3, uuid.data4] && out[4..] == old(out[4..])
      ensures (uuid == null || out == null) && out != null ==> out[..] == old(out[..])
    {
      if uuid != null && out != null {
        uuid.GetUuid128(out);
      }
    }

    /** `_BlePluginUpdateWatcher`. */
    method UpdateWatcher(enumeration: Option<seq<ManagedObject>>)
      requires Valid()
      modifies watcher`scannedDevices
      ensures Valid()
      ensures watcher.isScanning && enumeration.Some? ==>
                watcher.scannedDevices ==
                Ingest(old(watcher.scannedDevices), FilterStrings(watcher.scanFilterUuids),
                       EnumerationSightings(enumeration.value))
      ensures !(watcher.isScanning && enumeration.Some?) ==> watcher.scannedDevices == old(watcher.scannedDevices)
    {
      watcher.Update(enumeration);
    }

    /** `_BlePluginUpdateDevicdeManger`: the sweep. */
    method UpdateDeviceManager()
      requires Valid()
      modifies manager`connectedDevices
      ensures Valid()
      ensures forall a :: a in manager.connectedDevices <==>
                a in old(manager.connectedDevices) && old(manager.connectedDevices)[a].isConnected
      ensures forall a | a in manager.connectedDevices :: manager.connectedDevices[a] == old(manager.connectedDevices)[a]
    {
      manager.Update();
    }

    /** `_BlePluginAddScanServiceUuid`: a null handle adds nothing. */
    method AddScanServiceUuid(uuid: UuidObject?)
      requires Valid() && (uuid != null ==> uuid.Valid())
      modifies watcher`scanFilterUuids
      ensures Valid()
      ensures watcher.scanFilterUuids == if uuid == null then old(watcher.scanFilterUuids)
                                         else old(watcher.scanFilterUuids) + [uuid]
    {
      if uuid != null {
        watcher.AddScanFilter(uuid);
      }
    }

    /** `_BlePluginStartScan`; the outcome is not reported to the host. */
    method StartScan(cache: Properties, callOk: bool)
      modifies watcher`isScanning, adapter`busCalls
      ensures watcher.isScanning == if adapter.IsPowered(cache) then old(watcher.isScanning) || callOk
                                    else old(watcher.isScanning)
      ensures adapter.busCalls == if adapter.IsPowered(cache) && !old(watcher.isScanning)
                                  then old(adapter.busCalls) + [StartDiscoveryCall] else old(adapter.busCalls)
    {
      var _ := watcher.StartScan(adapter, cache, callOk);
    }

    /** `_BlePluginStopScan`. */
    method StopScan(callOk: bool)
      modifies watcher`isScanning, adapter`busCalls
      ensures watcher.isScanning == (old(watcher.isScanning) && !(adapter.IsAdapterAvailable() && callOk))
      ensures adapter.busCalls == if old(watcher.isScanning) && adapter.IsAdapterAvailable()
                                  then old(adapter.busCalls) + [StopDiscoveryCall] else old(adapter.busCalls)
    {
      var _ := watcher.StopScan(adapter, callOk);
    }

    /** `_BlePluginClearScanFilter`. */
    method ClearScanFilter()
      requires Valid()
      modifies watcher`scanFilterUuids
      ensures Valid()
      ensures watcher.scanFilterUuids == []
    {
      watcher.ClearScanFilter();
    }

    /** `_BlePluginScanGetDeviceLength`: one entry per scanned address. */
    method ScanGetDeviceLength() returns (n: int)
      requires Valid()
      ensures n == |TableSnapshot(watcher.scannedDevices)| == |watcher.scannedDevices|
    {
      var devices := watcher.GetScannedDevices();
      SnapshotIsTable(watcher.scannedDevices);
      n := |devices|;
    }

    /** `_BlePluginScanGetDeviceAddr`: the address of entry `idx` as a
        number, 0 out of range. A well-formed address text is exactly the
        encoding of the number returned. */
    method ScanGetDeviceAddr(idx: int) returns (r: uint64)
      requires Valid()
      requires 0 <= idx < |TableSnapshot(watcher.scannedDevices)| ==>
                 IsDecodable(TableSnapshot(watcher.scannedDevices)[idx].address)
      ensures !(0 <= idx < |TableSnapshot(watcher.scannedDevices)|) ==> r == 0
      ensures 0 <= idx < |TableSnapshot(watcher.scannedDevices)| ==>
                r == AddressValue(TableSnapshot(watcher.scannedDevices)[idx].address)
      ensures 0 <= idx < |TableSnapshot(watcher.scannedDevices)| &&
              IsAddressLayout(TableSnapshot(watcher.scannedDevices)[idx].address) ==>
                EncodeAddress(r) == TableSnapshot(watcher.scannedDevices)[idx].address
    {
      var devices := watcher.GetScannedDevices();
      if 0 <= idx < |devices| {
        var text := devices[idx].address;
        r := DecodeAddress(text);
        if IsAddressLayout(text) {
          EncodeDecode(text);
        }
        return;
      }
      return 0;
    }

    /** `_BlePluginScanGetDeviceName`: "" out of range. */
    method ScanGetDeviceName(idx: int) returns (name: string)
      ensures name == if 0 <= idx < |TableSnapshot(watcher.scannedDevices)|
                      then TableSnapshot(watcher.scannedDevices)[idx].name else ""
    {
      var devices := watcher.GetScannedDevices();
      if 0 <= idx < |devices| {
        return devices[idx].name;
      }
      return "";
    }

    /** `_BlePluginScanGetDeviceRssi`: 0 out of range. */
    method ScanGetDeviceRssi(idx: int) returns (rssi: int)
      ensures rssi == if 0 <= idx < |TableSnapshot(watcher.scannedDevices)|
                      then TableSnapshot(watcher.scannedDevices)[idx].rssi else 0
    {
      var devices := watcher.GetScannedDevices();
      if 0 <= idx < |devices| {
        return devices[idx].rssi;
      }
      return 0;
    }

    /** `_BlePluginConnectDevice`: the registry is keyed by the address's
        `%02X` text, so only the low 48 bits matter. */
    method ConnectDevice(addr: uint64, busOk: bool, proxyOk: bool, cache: Properties, connectOk: bool)
      returns (device: BleDeviceObject?)
      requires Valid()
      modifies manager
      ensures Valid()
      ensures EncodeAddress(addr) in old(manager.connectedDevices) ==>
                device == old(manager.connectedDevices)[EncodeAddress(addr)] &&
                manager.connectedDevices == old(manager.connectedDevices)
      ensures device != null ==> manager.GetDeviceByAddress(EncodeAddress(addr)) == device
      ensures device == null ==> manager.connectedDevices == old(manager.connectedDevices)
      ensures EncodeAddress(addr) !in old(manager.connectedDevices) ==>
                manager.dbusConnection == (old(manager.dbusConnection) || busOk)
      ensures EncodeAddress(addr) !in old(manager.connectedDevices) &&
              !(manager.dbusConnection && proxyOk && connectOk) ==>
                device == null
      ensures EncodeAddress(addr) !in old(manager.connectedDevices) &&
              manager.dbusConnection && proxyOk && connectOk ==>
                device != null && fresh(device) && device.devicePath == DevicePath(EncodeAddress(addr)) &&
                manager.connectedDevices == old(manager.connectedDevices)[EncodeAddress(addr) := device] &&
                device.hasProxy && device.State() == Refresh(DeviceState("", "", false, 0), cache) &&
                device.busCalls == [ConnectCall] && device.characteristics == []
    {
      var text := EncodeAddress(addr);
      device := manager.ConnectDevice(text, busOk, proxyOk, cache, connectOk);
    }

    /** `_BlePluginDisconnectDevice`. */
    method DisconnectDevice(addr: uint64, callOk: bool)
      requires Valid()
      modifies manager, manager.connectedDevices.Values`busCalls
      ensures Valid()
      ensures manager.connectedDevices == old(manager.connectedDevices) - {EncodeAddress(addr)}
      ensures !IsDeviceConnectedByAddr(addr)
      ensures EncodeAddress(addr) in old(manager.connectedDevices) ==>
                var d := old(manager.connectedDevices)[EncodeAddress(addr)];
                d.busCalls == if d.hasProxy then old(d.busCalls) + [DisconnectCall] else old(d.busCalls)
      ensures forall d | d in old(manager.connectedDevices.Values) &&
                         (EncodeAddress(addr) !in old(manager.connectedDevices) ||
                          d != old(manager.connectedDevices)[EncodeAddress(addr)]) ::
                d.busCalls == old(d.busCalls)
    {
      manager.DisconnectDevice(EncodeAddress(addr), callOk);
    }

    /** `_BlePluginIsDeviceConnectedByAddr`. */
    function IsDeviceConnectedByAddr(addr: uint64): (r: bool)
      reads this, manager, manager.connectedDevices.Values
      ensures r <==> IsDeviceConnected(GetDevicePtrByAddr(addr))
    {
      manager.IsDeviceConnected(EncodeAddress(addr))
    }

    /** `_BlePluginIsDeviceConnected`: false for a null handle. */
    function IsDeviceConnected(device: BleDeviceObject?): (r: bool)
      reads device
      ensures r ==> device != null
    {
      device != null && device.IsConnected()
    }

    /** `_BlePluginDeviceGetAddr`: 0 for a null handle. */
    method DeviceGetAddr(device: BleDeviceObject?) returns (r: uint64)
      requires device != null ==> IsDecodable(device.address)
      ensures device == null ==> r == 0
      ensures device != null ==> r == AddressValue(device.address)
      ensures device != null && IsAddressLayout(device.address) ==> EncodeAddress(r) == device.address
    {
      if device != null {
        var text := device.GetAddress();
        r := DecodeAddress(text);
        if IsAddressLayout(text) {
          EncodeDecode(text);
        }
        return;
      }
      return 0;
    }

    /** `_BlePluginGetConectDeviceNum`. */
    method GetConnectDeviceNum() returns (n: int)
      ensures n == |ConnectedKeys(manager.Flags())|
    {
      var devices := manager.GetConnectedDevices();
      n := |devices|;
      ConnectedKeysSpec(manager.Flags());
    }

    /** `_BlePluginGetConectDevicAddr`: 0 out of range. */
    method GetConnectDeviceAddr(idx: int) returns (r: uint64)
      requires 0 <= idx < |Pick(manager.connectedDevices, ConnectedKeys(manager.Flags()))| ==>
                 IsDecodable(Pick(manager.connectedDevices, ConnectedKeys(manager.Flags()))[idx].address)
      ensures !(0 <= idx < |Pick(manager.connectedDevices, ConnectedKeys(manager.Flags()))|) ==> r == 0
      ensures 0 <= idx < |Pick(manager.connectedDevices, ConnectedKeys(manager.Flags()))| ==>
                IsDecodable(Pick(manager.connectedDevices, ConnectedKeys(manager.Flags()))[idx].address) &&
                r == AddressValue(Pick(manager.connectedDevices, ConnectedKeys(manager.Flags()))[idx].address)
    {
      ghost var flags := manager.Flags();
      var devices := manager.GetConnectedDevices();
      assert manager.Flags() == flags;
      if 0 <= idx < |devices| {
        var d := devices[idx];
        assert d in manager.connectedDevices.Values;
        var text := d.GetAddress();
        r := DecodeAddress(text);
        assert manager.Flags() == flags;
        return;
      }
      return 0;
    }

    /** `_BlePluginGetConnectDevicePtr`: null out of range; in range, a
        session that reports connected. */
    method GetConnectDevicePtr(idx: int) returns (device: BleDeviceObject?)
      ensures !(0 <= idx < |Pick(manager.connectedDevices, ConnectedKeys(manager.Flags()))|) ==> device == null
      ensures 0 <= idx < |Pick(manager.connectedDevices, ConnectedKeys(manager.Flags()))| ==>
                device == Pick(manager.connectedDevices, ConnectedKeys(manager.Flags()))[idx]
    {
      var devices := manager.GetConnectedDevices();
      if 0 <= idx < |devices| {
        return devices[idx];
      }
      return null;
    }

    /** `_BlePluginGetDevicePtrByAddr`. */
    function GetDevicePtrByAddr(addr: uint64): (device: BleDeviceObject?)
      reads this, manager
      ensures device != null <==> EncodeAddress(addr) in manager.connectedDevices
      ensures device != null ==> device == manager.connectedDevices[EncodeAddress(addr)]
    {
      manager.GetDeviceByAddress(EncodeAddress(addr))
    }

    /** `_BlePluginDeviceCharastricsNum`: 0 for a null handle. */
    function DeviceCharacteristicsNum(device: BleDeviceObject?): (n: int)
      reads device
      ensures device == null ==> n == 0
      ensures device != null ==> n == |device.characteristics|
    {
      if device != null then |device.GetCharacteristics()| else 0
    }

    /** `_BlePluginDeviceCharastricUuid`: null for a null handle or an index
        out of range, otherwise the entry's characteristic UUID (itself
        null while unset). */
    function DeviceCharacteristicUuid(device: BleDeviceObject?, idx: int): (u: UuidObject?)
      reads device
      ensures u != null ==> device != null && 0 <= idx < |device.characteristics| &&
                            device.characteristics[idx].characteristicUuid == Some(u)
      ensures (device != null && 0 <= idx < |device.characteristics| &&
               device.characteristics[idx].characteristicUuid.Some?) ==> u != null
    {
      if device != null && 0 <= idx < |device.GetCharacteristics()|
      then Handle(device.GetCharacteristics()[idx].characteristicUuid)
      else null
    }

    /** `_BlePluginDeviceCharastricServiceUuid`, like the above for the
        service UUID. */
    function DeviceCharacteristicServiceUuid(device: BleDeviceObject?, idx: int): (u: UuidObject?)
      reads device
      ensures u != null ==> device != null && 0 <= idx < |device.characteristics| &&
                            device.characteristics[idx].serviceUuid == Some(u)
      ensures (device != null && 0 <= idx < |device.characteristics| &&
               device.characteristics[idx].serviceUuid.Some?) ==> u != null
    {
      if device != null && 0 <= idx < |device.GetCharacteristics()|
      then Handle(device.GetCharacteristics()[idx].serviceUuid)
      else null
    }
  }

  /** Addresses that agree in their low 48 bits name the same session. */
  lemma HighBitsIgnored(p: BlePlugin, a: uint64, b: uint64)
    requires a % 0x1_0000_0000_0000 == b % 0x1_0000_0000_0000
    ensures p.GetDevicePtrByAddr(a) == p.GetDevicePtrByAddr(b)
    ensures p.IsDeviceConnectedByAddr(a) == p.IsDeviceConnectedByAddr(b)
  {
    EncodeInjective(a, b);
  }

  /** The number the host receives for a scanned device, passed back to
      `ConnectDevice`, connects that device's address; the returned session
      is then the one found by that number. */
  method ScanThenConnect(p: BlePlugin, idx: int, busOk: bool, proxyOk: bool, cache: Properties, connectOk: bool)
    returns (addr: uint64, device: BleDeviceObject?)
    requires p.Valid()
    requires 0 <= idx < |TableSnapshot(p.watcher.scannedDevices)|
    requires IsAddressLayout(TableSnapshot(p.watcher.scannedDevices)[idx].address)
    modifies p.manager
    ensures device != null ==>
              p.manager.GetDeviceByAddress(old(TableSnapshot(p.watcher.scannedDevices)[idx].address)) == device &&
              p.GetDevicePtrByAddr(addr) == device
  {
    EncodeDecode(TableSnapshot(p.watcher.scannedDevices)[idx].address);
    addr := p.ScanGetDeviceAddr(idx);
    device := p.ConnectDevice(addr, busOk, proxyOk, cache, connectOk);
  }
}
