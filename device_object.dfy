/** One device session (BleDeviceObject.cpp): the cached BlueZ `Device1`
    properties, connect and disconnect through the device proxy, the
    characteristic list rebuilt by discovery, characteristic reads and
    writes, and the notification callback table. */
module DeviceObject {
  import opened Wrappers
  import opened Ints
  import opened DBus
  import opened Uuids

  /** One discovered characteristic. Discovery never resolves the two
      UUIDs, so they stay unset. */
  datatype CharacteristicInfo =
    CharacteristicInfo(path: string, serviceUuid: Option<UuidObject>, characteristicUuid: Option<UuidObject>)

  /** The host's notification callback, seen only as a value to store. */
  datatype NotificationCallback = NotificationCallback(id: nat)

  /** The four cached device properties. */
  datatype DeviceState = DeviceState(address: string, name: string, isConnected: bool, rssi: int)

  /** `GetDeviceProperties` on a proxy whose cache is `cache`: each of
      `Address`, `Name`, `Connected`, `RSSI` overwrites its field only when
      the property is present. */
  function Refresh(d: DeviceState, cache: Properties): DeviceState {
    DeviceState(
      if "Address" in cache then AsString(cache["Address"]) else d.address,
      if "Name" in cache then AsString(cache["Name"]) else d.name,
      if "Connected" in cache then AsBool(cache["Connected"]) else d.isConnected,
      if "RSSI" in cache then AsInt16(cache["RSSI"]) else d.rssi)
  }

  /** Refreshing twice from the same cache is refreshing once, and a
      refresh from an empty cache changes nothing. */
  lemma RefreshIdempotent(d: DeviceState, cache: Properties)
    ensures Refresh(Refresh(d, cache), cache) == Refresh(d, cache)
    ensures Refresh(d, map[]) == d
  {
  }

  /** The entries one object contributes: one per `GattCharacteristic1`
      interface, with the object's path. */
  function GattEntries(path: string, ifaces: seq<Interface>): seq<CharacteristicInfo> {
    if |ifaces| == 0 then []
    else
      GattEntries(path, ifaces[..|ifaces| - 1]) +
      (if ifaces[|ifaces| - 1].name == GattCharacteristicInterface
       then [CharacteristicInfo(path, None, None)] else [])
  }

  /** The characteristic list discovery builds from an enumeration: the
      entries of the objects whose path starts with `devicePath`, in
      enumeration order. */
  function CharacteristicsOf(objs: seq<ManagedObject>, devicePath: string): seq<CharacteristicInfo> {
    if |objs| == 0 then []
    else
      var o := objs[|objs| - 1];
      CharacteristicsOf(objs[..|objs| - 1], devicePath) +
      (if StartsWith(o.path, devicePath) then GattEntries(o.path, o.interfaces) else [])
  }

  lemma {:induction false} GattEntriesMembers(path: string, ifaces: seq<Interface>)
    ensures forall c :: c in GattEntries(path, ifaces) <==>
              c == CharacteristicInfo(path, None, None) &&
              exists j | 0 <= j < |ifaces| :: ifaces[j].name == GattCharacteristicInterface
  {
    if |ifaces| > 0 {
      var init := ifaces[..|ifaces| - 1];
      GattEntriesMembers(path, init);
      forall j | 0 <= j < |init| ensures init[j] == ifaces[j] {}
    }
  }

  /** Discovery keeps exactly the characteristics nested under the device:
      an entry is listed iff some enumerated object under `devicePath`
      with that path carries `GattCharacteristic1`, and its UUIDs are
      unset. */
  lemma {:induction false} CharacteristicsMembers(objs: seq<ManagedObject>, devicePath: string)
    ensures forall c :: c in CharacteristicsOf(objs, devicePath) <==>
              c.serviceUuid.None? && c.characteristicUuid.None? &&
              exists i | 0 <= i < |objs| ::
                objs[i].path == c.path && StartsWith(objs[i].path, devicePath) &&
                HasInterface(objs[i], GattCharacteristicInterface)
  {
    if |objs| > 0 {
      var init := objs[..|objs| - 1];
      var o := objs[|objs| - 1];
      CharacteristicsMembers(init, devicePath);
      GattEntriesMembers(o.path, o.interfaces);
      forall c ensures c in CharacteristicsOf(objs, devicePath) <==>
                       c.serviceUuid.None? && c.characteristicUuid.None? &&
                       exists i | 0 <= i < |objs| ::
                         objs[i].path == c.path && StartsWith(objs[i].path, devicePath) &&
                         HasInterface(objs[i], GattCharacteristicInterface)
      {
        if exists i | 0 <= i < |objs| :: objs[i].path == c.path && StartsWith(objs[i].path, devicePath) &&
                                         HasInterface(objs[i], GattCharacteristicInterface) {
          var i :| 0 <= i < |objs| && objs[i].path == c.path && StartsWith(objs[i].path, devicePath) &&
                   HasInterface(objs[i], GattCharacteristicInterface);
          if i < |init| { assert init[i] == objs[i]; }
        }
        if exists i | 0 <= i < |init| :: init[i].path == c.path && StartsWith(init[i].path, devicePath) &&
                                         HasInterface(init[i], GattCharacteristicInterface) {
          var i :| 0 <= i < |init| && init[i].path == c.path && StartsWith(init[i].path, devicePath) &&
                   HasInterface(init[i], GattCharacteristicInterface);
          assert objs[i] == init[i];
        }
      }
    }
  }

  /** Discovery preserves enumeration order: the list for a joined
      enumeration is the two lists joined. */
  lemma {:induction false} CharacteristicsAppend(a: seq<ManagedObject>, b: seq<ManagedObject>, devicePath: string)
    ensures CharacteristicsOf(a + b, devicePath) == CharacteristicsOf(a, devicePath) + CharacteristicsOf(b, devicePath)
    decreases |b|
  {
    if |b| == 0 {
      assert a + b == a;
    } else {
      var init, last := b[..|b| - 1], b[|b| - 1];
      var ab := a + b;
      assert ab[..|ab| - 1] == a + init;
      assert ab[|ab| - 1] == last;
      var tail := if StartsWith(last.path, devicePath) then GattEntries(last.path, last.interfaces) else [];
      assert CharacteristicsOf(ab, devicePath) == CharacteristicsOf(a + init, devicePath) + tail;
      assert CharacteristicsOf(b, devicePath) == CharacteristicsOf(init, devicePath) + tail;
      CharacteristicsAppend(a, init, devicePath);
    }
  }

  class BleDeviceObject {
    const devicePath: string
    /** `deviceProxy_ != nullptr`: fixed when the constructor creates the proxy. */
    const hasProxy: bool
    var address: string
    var name: string
    var isConnected: bool
    var rssi: int
    var characteristics: seq<CharacteristicInfo>
    var notificationCallbacks: map<string, NotificationCallback>
    /** The device methods called on the bus, in order. */
    ghost var busCalls: seq<BusCall>

    function State(): DeviceState
      reads this
    {
      DeviceState(address, name, isConnected, rssi)
    }

    /** Creates the device proxy (`proxyOk`) and reads its cached
        properties (`cache`) over the initial "", "", false, 0. */
    constructor (path: string, proxyOk: bool, cache: Properties)
      ensures devicePath == path && hasProxy == proxyOk
      ensures State() == if proxyOk then Refresh(DeviceState("", "", false, 0), cache)
                         else DeviceState("", "", false, 0)
      ensures characteristics == [] && notificationCallbacks == map[] && busCalls == []
    {
      devicePath := path;
      hasProxy := proxyOk;
      address, name, isConnected, rssi := "", "", false, 0;
      characteristics, notificationCallbacks := [], map[];
      busCalls := [];
      new;
      var _ := GetDeviceProperties(cache);
    }

    /** Re-reads the cached properties; without a proxy nothing changes. */
    method GetDeviceProperties(cache: Properties) returns (ok: bool)
      modifies this`address, this`name, this`isConnected, this`rssi
      ensures ok == hasProxy
      ensures State() == if hasProxy then Refresh(old(State()), cache) else old(State())
    {
      if !hasProxy {
        return false;
      }
      if "Address" in cache {
        address := AsString(cache["Address"]);
      }
      if "Name" in cache {
        name := AsString(cache["Name"]);
      }
      if "Connected" in cache {
        isConnected := AsBool(cache["Connected"]);
      }
      if "RSSI" in cache {
        rssi := AsInt16(cache["RSSI"]);
      }
      ok := true;
    }

    /** The `g-properties-changed` handler: it ignores the signal's payload
        and re-reads the proxy's (already updated) cache. */
    method OnPropertiesChanged(cache: Properties)
      modifies this`address, this`name, this`isConnected, this`rssi
      ensures State() == if hasProxy then Refresh(old(State()), cache) else old(State())
    {
      var _ := GetDeviceProperties(cache);
    }

    function GetAddress(): string reads this { address }
    function GetName(): string reads this { name }
    function IsConnected(): bool reads this { isConnected }
    function GetRssi(): int reads this { rssi }
    function GetCharacteristics(): seq<CharacteristicInfo> reads this { characteristics }

    /** Calls `Connect` on the proxy; `callOk` is its outcome. Without a
        proxy no call is made. The connected flag is not touched: only a
        property refresh changes it. */
    method Connect(callOk: bool) returns (ok: bool)
      modifies this`busCalls
      ensures ok == (hasProxy && callOk)
      ensures busCalls == if hasProxy then old(busCalls) + [ConnectCall] else old(busCalls)
    {
      if !hasProxy {
        return false;
      }
      busCalls := busCalls + [ConnectCall];
      ok := callOk;
    }

    /** Calls `Disconnect` on the proxy; without a proxy no call is made. */
    method Disconnect(callOk: bool) returns (ok: bool)
      modifies this`busCalls
      ensures ok == (hasProxy && callOk)
      ensures busCalls == if hasProxy then old(busCalls) + [DisconnectCall] else old(busCalls)
    {
      if !hasProxy {
        return false;
      }
      busCalls := busCalls + [DisconnectCall];
      ok := callOk;
    }

    /** Rebuilds the characteristic list from `enumeration` (None when the
        object manager or `GetManagedObjects` fails). Refused without a
        proxy or a connection; otherwise the list is cleared first, so a
        failed enumeration leaves it empty. */
    method DiscoverServices(enumeration: Option<seq<ManagedObject>>) returns (ok: bool)
      modifies this`characteristics
      ensures !hasProxy || !isConnected ==> !ok && characteristics == old(characteristics)
      ensures hasProxy && isConnected && enumeration.None? ==> !ok && characteristics == []
      ensures hasProxy && isConnected && enumeration.Some? ==>
                ok && characteristics == CharacteristicsOf(enumeration.value, devicePath)
    {
      if !hasProxy || !isConnected {
        return false;
      }
      characteristics := [];
      if enumeration.None? {
        return false;
      }
      var objs := enumeration.value;
      var i := 0;
      while i < |objs|
        invariant 0 <= i <= |objs|
        invariant characteristics == CharacteristicsOf(objs[..i], devicePath)
      {
        assert objs[..i + 1][..i] == objs[..i];
        var path := objs[i].path;
        if !StartsWith(path, devicePath) {
          i := i + 1;
          continue;
        }
        var ifaces := objs[i].interfaces;
        ghost var before := characteristics;
        var j := 0;
        assert ifaces[..0] == [];
        while j < |ifaces|
          invariant 0 <= j <= |ifaces|
          invariant characteristics == before + GattEntries(path, ifaces[..j])
        {
          assert ifaces[..j + 1][..j] == ifaces[..j];
          if ifaces[j].name == GattCharacteristicInterface {
            var info := CharacteristicInfo(path, None, None);
            characteristics := characteristics + [info];
          }
          j := j + 1;
        }
        assert ifaces[..j] == ifaces;
        i := i + 1;
      }
      assert objs[..i] == objs;
      ok := true;
    }

    /** Reads a characteristic. `reply` is the `ReadValue` result (None when
        the proxy or the call fails). On success `data` is refilled with
        the returned bytes in order; on failure it is handed back as it was. */
    method ReadCharacteristic(servicePath: string, characteristicPath: string,
                              reply: Option<seq<byte>>, data: seq<byte>)
      returns (ok: bool, dataOut: seq<byte>)
      ensures ok <==> reply.Some?
      ensures dataOut == if ok then reply.value else data
    {
      if reply.None? {
        return false, data;
      }
      var bytes := reply.value;
      dataOut := [];
      var n := 0;
      while n < |bytes|
        invariant 0 <= n <= |bytes|
        invariant dataOut == bytes[..n]
      {
        dataOut := dataOut + [bytes[n]];
        n := n + 1;
      }
      assert bytes[..n] == bytes;
      ok := true;
    }

    /** Writes a characteristic. `sent` is the `ay` argument handed to
        `WriteValue` (None when the proxy cannot be created); `callOk` is
        the call's outcome. */
    method WriteCharacteristic(servicePath: string, characteristicPath: string, data: seq<byte>,
                               proxyOk: bool, callOk: bool)
      returns (ok: bool, sent: Option<seq<byte>>)
      ensures sent == if proxyOk then Some(data) else None
      ensures ok == (proxyOk && callOk)
    {
      if !proxyOk {
        return false, None;
      }
      var builder: seq<byte> := [];
      var n := 0;
      while n < |data|
        invariant 0 <= n <= |data|
        invariant builder == data[..n]
      {
        builder := builder + [data[n]];
        n := n + 1;
      }
      assert data[..n] == data;
      sent := Some(builder);
      ok := callOk;
    }

    /** Starts notifications; the callback is stored (or replaces the old
        one) under the characteristic path only when `StartNotify` succeeds. */
    method EnableNotification(servicePath: string, characteristicPath: string,
                              callback: NotificationCallback, proxyOk: bool, callOk: bool)
      returns (ok: bool)
      modifies this`notificationCallbacks
      ensures ok == (proxyOk && callOk)
      ensures notificationCallbacks ==
                if ok then old(notificationCallbacks)[characteristicPath := callback]
                else old(notificationCallbacks)
    {
      if !proxyOk || !callOk {
        return false;
      }
      notificationCallbacks := notificationCallbacks[characteristicPath := callback];
      ok := true;
    }

    /** Stops notifications; the path's callback is erased only when
        `StopNotify` succeeds. */
    method DisableNotification(servicePath: string, characteristicPath: string, proxyOk: bool, callOk: bool)
      returns (ok: bool)
      modifies this`notificationCallbacks
      ensures ok == (proxyOk && callOk)
      ensures notificationCallbacks ==
                if ok then old(notificationCallbacks) - {characteristicPath}
                else old(notificationCallbacks)
    {
      if !proxyOk || !callOk {
        return false;
      }
      notificationCallbacks := notificationCallbacks - {characteristicPath};
      ok := true;
    }
  }

  /** Discovering twice leaves only the second enumeration's
      characteristics. */
  method DiscoveryReplaces(d: BleDeviceObject, first: seq<ManagedObject>, second: seq<ManagedObject>)
    returns (ok1: bool, ok2: bool)
    requires d.hasProxy && d.isConnected
    modifies d
    ensures ok1 && ok2
    ensures d.characteristics == CharacteristicsOf(second, d.devicePath)
  {
    ok1 := d.DiscoverServices(Some(first));
    ok2 := d.DiscoverServices(Some(second));
  }

  /** A successful enable followed by a successful disable removes the
      path's callback and leaves every other path's callback as it was. */
  method NotificationRoundTrip(d: BleDeviceObject, servicePath: string, path: string, cb: NotificationCallback)
    modifies d
    ensures path !in d.notificationCallbacks
    ensures forall p | p in old(d.notificationCallbacks) && p != path ::
              p in d.notificationCallbacks && d.notificationCallbacks[p] == old(d.notificationCallbacks)[p]
    ensures d.notificationCallbacks.Keys == old(d.notificationCallbacks).Keys - {path}
  {
    var enabled := d.EnableNotification(servicePath, path, cb, true, true);
    var disabled := d.DisableNotification(servicePath, path, true, true);
  }
}
