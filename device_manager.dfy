/** The connection registry (BleDeviceManager.cpp): address -> device
    session, with idempotent connect, locally authoritative disconnect,
    disconnect-all, and a sweep that prunes sessions whose connected flag
    dropped. */
module DeviceManager {
  import opened Wrappers
  import opened DBus
  import opened KeyOrder
  import opened DeviceObject

  const DevicePathPrefix: string := "/org/bluez/hci0/dev_"

  /** `std::replace(s.begin(), s.end(), from, to)`. */
  function Replaced(s: string, from: char, to: char): (r: string)
    ensures |r| == |s|
  {
    seq(|s|, i requires 0 <= i < |s| => if s[i] == from then to else s[i])
  }

  /** The BlueZ object path of the device with this address. */
  function DevicePath(address: string): string {
    Replaced(DevicePathPrefix + address, ':', '_')
  }

  /** The path is the fixed prefix followed by the address with each ':'
      turned into '_'; it holds no ':' and is a D-Bus object path. */
  lemma DevicePathShape(address: string)
    ensures var p := DevicePath(address);
      |p| == |DevicePathPrefix| + |address| &&
      StartsWith(p, DevicePathPrefix) &&
      (forall i | 0 <= i < |address| ::
         p[|DevicePathPrefix| + i] == if address[i] == ':' then '_' else address[i]) &&
      ':' !in p &&
      p[0] == '/'
  {
    var p := DevicePath(address);
    assert p[..|DevicePathPrefix|] == DevicePathPrefix;
    forall i | 0 <= i < |address| ensures p[|DevicePathPrefix| + i] == if address[i] == ':' then '_' else address[i] {
      assert (DevicePathPrefix + address)[|DevicePathPrefix| + i] == address[i];
    }
  }

  /** Addresses without '_' (every `XX:XX:XX:XX:XX:XX` address) have
      distinct paths. */
  lemma DevicePathInjective(a: string, b: string)
    requires '_' !in a && '_' !in b
    ensures DevicePath(a) == DevicePath(b) <==> a == b
  {
    if DevicePath(a) == DevicePath(b) {
      DevicePathShape(a);
      DevicePathShape(b);
      assert |a| == |b|;
      forall i | 0 <= i < |a| ensures a[i] == b[i] {
        assert DevicePath(a)[|DevicePathPrefix| + i] == DevicePath(b)[|DevicePathPrefix| + i];
        assert a[i] in a && b[i] in b;
      }
    }
  }

  /** Rewrites `from` to `to` in place, left to right. */
  method ReplaceInPlace(a: array<char>, from: char, to: char)
    modifies a
    ensures a[..] == Replaced(old(a[..]), from, to)
  {
    var i := 0;
    while i < a.Length
      invariant 0 <= i <= a.Length
      invariant forall k | 0 <= k < i :: a[k] == if old(a[k]) == from then to else old(a[k])
      invariant forall k | i <= k < a.Length :: a[k] == old(a[k])
    {
      if a[i] == from {
        a[i] := to;
      }
      i := i + 1;
    }
  }

  /** Builds the device path: concatenation, then the in-place replace. */
  method BuildDevicePath(address: string) returns (path: string)
    ensures path == DevicePath(address)
  {
    var s := DevicePathPrefix + address;
    var buffer := new char[|s|](i requires 0 <= i < |s| => s[i]);
    assert buffer[..] == s;
    ReplaceInPlace(buffer, ':', '_');
    path := buffer[..];
  }

  /** The keys of `ks` whose flag is set, in `ks`'s order. */
  function ConnectedOnly(ks: seq<string>, flags: map<string, bool>): (r: seq<string>)
    ensures forall k :: k in r <==> k in ks && k in flags && flags[k]
  {
    if |ks| == 0 then []
    else
      var k := ks[|ks| - 1];
      ConnectedOnly(ks[..|ks| - 1], flags) + (if k in flags && flags[k] then [k] else [])
  }

  /** A subsequence of an ascending list is ascending. */
  lemma {:induction false} ConnectedOnlyAscending(ks: seq<string>, flags: map<string, bool>)
    requires StrictlyAscending(ks)
    ensures StrictlyAscending(ConnectedOnly(ks, flags))
  {
    if |ks| > 0 {
      var init := ks[..|ks| - 1];
      var k := ks[|ks| - 1];
      assert StrictlyAscending(init);
      ConnectedOnlyAscending(init, flags);
      var r := ConnectedOnly(init, flags);
      forall x | x in r ensures Less(x, k) {
        var i :| 0 <= i < |init| && init[i] == x;
        assert ks[i] == x;
      }
    }
  }

  /** The addresses `GetConnectedDevices` lists: those whose flag is set,
      in map order. */
  ghost function ConnectedKeys(flags: map<string, bool>): seq<string> {
    ConnectedOnly(Ascending(flags.Keys), flags)
  }

  /** The listed addresses are exactly the connected ones, ascending. */
  lemma ConnectedKeysSpec(flags: map<string, bool>)
    ensures forall k :: k in ConnectedKeys(flags) <==> k in flags && flags[k]
    ensures StrictlyAscending(ConnectedKeys(flags))
  {
    AscendingIsSorted(flags.Keys);
    ConnectedOnlyAscending(Ascending(flags.Keys), flags);
  }

  /** The registry after `Update`: the connected entries only. */
  function Pruned<T>(m: map<string, T>, flags: map<string, bool>): (r: map<string, T>)
    ensures forall k :: k in r <==> k in m && k in flags && flags[k]
  {
    map k | k in m && k in flags && flags[k] :: m[k]
  }

  /** Pruning does not change what `GetConnectedDevices` lists: a session
      whose flag dropped is already missing from the list before the sweep. */
  lemma PruneKeepsConnectedList(flags: map<string, bool>)
    ensures ConnectedKeys(Pruned(flags, flags)) == ConnectedKeys(flags)
  {
    var p := Pruned(flags, flags);
    ConnectedKeysSpec(flags);
    ConnectedKeysSpec(p);
    AscendingUnique(ConnectedKeys(p), ConnectedKeys(flags));
  }

  /** The devices at the keys `ks`, in that order. */
  function Pick(m: map<string, BleDeviceObject>, ks: seq<string>): (r: seq<BleDeviceObject>)
    ensures (forall k | k in ks :: k in m) ==> |r| == |ks|
    ensures forall d | d in r :: d in m.Values
  {
    if |ks| == 0 then []
    else
      var k := ks[|ks| - 1];
      Pick(m, ks[..|ks| - 1]) + (if k in m then [m[k]] else [])
  }

  lemma PickSnoc(m: map<string, BleDeviceObject>, ks: seq<string>, k: string)
    requires k in m
    ensures Pick(m, ks + [k]) == Pick(m, ks) + [m[k]]
  {
    assert (ks + [k])[..|ks|] == ks;
  }

  lemma {:induction false} PickSame(m: map<string, BleDeviceObject>, n: map<string, BleDeviceObject>, ks: seq<string>)
    requires forall x | x in ks :: (x in m <==> x in n) && (x in m ==> m[x] == n[x])
    ensures Pick(m, ks) == Pick(n, ks)
  {
    if |ks| > 0 {
      PickSame(m, n, ks[..|ks| - 1]);
    }
  }

  /** The connected list of a registry equals that of its pruned copy. */
  lemma PrunedListSame(r: map<string, BleDeviceObject>, f: map<string, bool>, r2: map<string, BleDeviceObject>)
    requires forall a | a in r2 :: a in r && r2[a] == r[a]
    requires forall a | a in f && f[a] :: a in r2
    ensures Pick(r, ConnectedKeys(f)) == Pick(r2, ConnectedKeys(Pruned(f, f)))
  {
    PruneKeepsConnectedList(f);
    ConnectedKeysSpec(f);
    PickSame(r, r2, ConnectedKeys(f));
  }

  /** The sweep's effect on registry and flags, stated on values, leaves
      the connected list as it was. */
  lemma SweptListSame(r: map<string, BleDeviceObject>, f: map<string, bool>,
                      r2: map<string, BleDeviceObject>, f2: map<string, bool>)
    requires r.Keys == f.Keys && r2.Keys == f2.Keys
    requires forall a :: a in r2 <==> a in r && f[a]
    requires forall a | a in r2 :: r2[a] == r[a] && f2[a] == f[a]
    ensures Pick(r, ConnectedKeys(f)) == Pick(r2, ConnectedKeys(f2))
  {
    assert f2 == Pruned(f, f);
    PrunedListSame(r, f, r2);
  }

  /** A device stored under none of `ks` is not among the devices picked. */
  lemma {:induction false} PickExcludes(m: map<string, BleDeviceObject>, ks: seq<string>, x: BleDeviceObject)
    requires forall k | k in ks && k in m :: m[k] != x
    ensures x !in Pick(m, ks)
  {
    if |ks| > 0 {
      PickExcludes(m, ks[..|ks| - 1], x);
    }
  }

  /** A device stored under one of `ks` is among the devices picked. */
  lemma {:induction false} PickHas(m: map<string, BleDeviceObject>, ks: seq<string>, k: string)
    requires k in ks && k in m
    ensures m[k] in Pick(m, ks)
    decreases |ks|
  {
    var init := ks[..|ks| - 1];
    if ks[|ks| - 1] != k {
      assert k in init by {
        var i :| 0 <= i < |ks| && ks[i] == k;
        assert init[i] == k;
      }
      PickHas(m, init, k);
    }
  }

  /** The connected list holds exactly the sessions stored under a
      flagged address. */
  lemma ConnectedListMembers(m: map<string, BleDeviceObject>, flags: map<string, bool>)
    requires m.Keys == flags.Keys
    ensures forall d :: d in Pick(m, ConnectedKeys(flags)) <==> exists k | k in m :: m[k] == d && flags[k]
  {
    ConnectedKeysSpec(flags);
    forall d ensures d in Pick(m, ConnectedKeys(flags)) <==> exists k | k in m :: m[k] == d && flags[k] {
      if exists k | k in m :: m[k] == d && flags[k] {
        var k :| k in m && m[k] == d && flags[k];
        PickHas(m, ConnectedKeys(flags), k);
      } else {
        PickExcludes(m, ConnectedKeys(flags), d);
      }
    }
  }

  class BleDeviceManager {
    var connectedDevices: map<string, BleDeviceObject>
    /** `dbusConnection_ != nullptr`. */
    var dbusConnection: bool

    /** Each session sits under the address its path was built from, and
        no session is stored twice. */
    ghost predicate Valid()
      reads this
    {
      (forall a | a in connectedDevices :: connectedDevices[a].devicePath == DevicePath(a)) &&
      (forall a, b | a in connectedDevices && b in connectedDevices && a != b ::
         connectedDevices[a] != connectedDevices[b])
    }

    /** Each session's connected flag. */
    function Flags(): (f: map<string, bool>)
      reads this, connectedDevices.Values
      ensures f.Keys == connectedDevices.Keys
    {
      map a | a in connectedDevices :: connectedDevices[a].isConnected
    }

    /** The singleton's static storage starts zeroed: no sessions, no connection. */
    constructor ()
      ensures Valid() && connectedDevices == map[] && !dbusConnection
    {
      connectedDevices := map[];
      dbusConnection := false;
    }

    method InitializeDBusConnection(busOk: bool) returns (ok: bool)
      modifies this`dbusConnection
      ensures dbusConnection == busOk && ok == busOk
    {
      dbusConnection := busOk;
      ok := busOk;
    }

    method CleanupDBusConnection()
      modifies this`dbusConnection
      ensures !dbusConnection
    {
      if dbusConnection {
        dbusConnection := false;
      }
    }

    /** Returns the session for `address`, connecting a new one when there
        is none. `busOk` is the bus connection outcome (used only when no
        connection exists), `proxyOk` and `cache` the new session's proxy
        and cached properties, `connectOk` the outcome of its `Connect`.
        Existing sessions are never touched; a new one is stored only when
        its `Connect` succeeds. */
    method ConnectDevice(address: string, busOk: bool, proxyOk: bool, cache: Properties, connectOk: bool)
      returns (device: BleDeviceObject?)
      requires Valid()
      modifies this
      ensures Valid()
      ensures address in old(connectedDevices) ==>
                device == old(connectedDevices)[address] &&
                connectedDevices == old(connectedDevices) && dbusConnection == old(dbusConnection)
      ensures address !in old(connectedDevices) ==> dbusConnection == (old(dbusConnection) || busOk)
      ensures address !in old(connectedDevices) && !(dbusConnection && proxyOk && connectOk) ==>
                device == null && connectedDevices == old(connectedDevices)
      ensures address !in old(connectedDevices) && dbusConnection && proxyOk && connectOk ==>
                device != null && fresh(device) &&
                connectedDevices == old(connectedDevices)[address := device] &&
                device.devicePath == DevicePath(address) && device.hasProxy &&
                device.State() == Refresh(DeviceState("", "", false, 0), cache) &&
                device.busCalls == [ConnectCall] && device.characteristics == []
    {
      if address in connectedDevices {
        return connectedDevices[address];
      }
      if !dbusConnection {
        var ok := InitializeDBusConnection(busOk);
        if !ok {
          return null;
        }
      }
      var devicePath := BuildDevicePath(address);
      var d := new BleDeviceObject(devicePath, proxyOk, cache);
      var connected := d.Connect(connectOk);
      if !connected {
        return null;
      }
      connectedDevices := connectedDevices[address := d];
      device := d;
    }

    /** Disconnects and forgets the session for `address`, whatever the
        device reports; an absent address is a no-op. */
    method DisconnectDevice(address: string, callOk: bool)
      requires Valid()
      modifies this, connectedDevices.Values`busCalls
      ensures Valid()
      ensures connectedDevices == old(connectedDevices) - {address}
      ensures address in old(connectedDevices) ==>
                var d := old(connectedDevices)[address];
                d.busCalls == if d.hasProxy then old(d.busCalls) + [DisconnectCall] else old(d.busCalls)
      ensures forall d | d in old(connectedDevices.Values) && (address !in old(connectedDevices) || d != old(connectedDevices)[address]) ::
                d.busCalls == old(d.busCalls)
      ensures dbusConnection == old(dbusConnection)
    {
      if address in connectedDevices {
        var d := connectedDevices[address];
        var _ := d.Disconnect(callOk);
        connectedDevices := connectedDevices - {address};
      }
    }

    /** Calls `Disconnect` on every session in map order, then empties the
        registry. The outcomes are ignored. */
    method DisconnectAllDevices(callOk: bool)
      requires Valid()
      modifies this, connectedDevices.Values`busCalls
      ensures Valid()
      ensures connectedDevices == map[]
      ensures forall d | d in old(connectedDevices.Values) ::
                d.busCalls == if d.hasProxy then old(d.busCalls) + [DisconnectCall] else old(d.busCalls)
      ensures dbusConnection == old(dbusConnection)
    {
      var remaining := connectedDevices.Keys;
      while remaining != {}
        invariant remaining <= connectedDevices.Keys
        invariant connectedDevices == old(connectedDevices) && dbusConnection == old(dbusConnection)
        invariant Valid()
        invariant forall a | a in connectedDevices ::
                    var d := connectedDevices[a];
                    d.busCalls == if a in remaining || !d.hasProxy then old(d.busCalls)
                                  else old(d.busCalls) + [DisconnectCall]
        decreases |remaining|
      {
        var a := LeastKey(remaining);
        var _ := connectedDevices[a].Disconnect(callOk);
        remaining := remaining - {a};
      }
      forall d | d in old(connectedDevices.Values)
        ensures d.busCalls == if d.hasProxy then old(d.busCalls) + [DisconnectCall] else old(d.busCalls)
      {
        var a :| a in connectedDevices && connectedDevices[a] == d;
      }
      connectedDevices := map[];
    }

    /** Whether the session for `address` exists and reports connected. */
    function IsDeviceConnected(address: string): (r: bool)
      reads this, connectedDevices.Values
      ensures r <==> address in Flags() && Flags()[address]
    {
      address in connectedDevices && connectedDevices[address].IsConnected()
    }

    /** The session for `address`, or null. */
    function GetDeviceByAddress(address: string): (d: BleDeviceObject?)
      reads this
      ensures d != null <==> address in connectedDevices
      ensures d != null ==> d == connectedDevices[address]
    {
      if address in connectedDevices then connectedDevices[address] else null
    }

    /** The sessions reporting connected, in address order. */
    method GetConnectedDevices() returns (devices: seq<BleDeviceObject>)
      ensures devices == Pick(connectedDevices, ConnectedKeys(Flags()))
    {
      ghost var flags := Flags();
      var remaining := connectedDevices.Keys;
      ghost var listed: seq<string> := [];
      devices := [];
      while remaining != {}
        invariant remaining <= connectedDevices.Keys
        invariant forall x :: x in listed <==> x in flags && x !in remaining && flags[x]
        invariant StrictlyAscending(listed)
        invariant forall x, r | x in listed && r in remaining :: Less(x, r)
        invariant devices == Pick(connectedDevices, listed)
        decreases |remaining|
      {
        var a := LeastKey(remaining);
        var d := connectedDevices[a];
        assert a in flags && flags[a] == d.isConnected;
        if d.IsConnected() {
          PickSnoc(connectedDevices, listed, a);
          devices := devices + [d];
          listed := listed + [a];
        }
        remaining := remaining - {a};
      }
      ConnectedKeysSpec(flags);
      assert forall x :: x in listed <==> x in flags && flags[x];
      AscendingUnique(listed, ConnectedKeys(flags));
      assert flags == Flags();
    }

    /** The sweep: erases, in map order, every session reporting
        disconnected, and keeps the rest. */
    method Update()
      requires Valid()
      modifies this`connectedDevices
      ensures Valid()
      ensures forall a :: a in connectedDevices <==> a in old(connectedDevices) && old(connectedDevices)[a].isConnected
      ensures forall a | a in connectedDevices :: connectedDevices[a] == old(connectedDevices)[a]
    {
      var registry := connectedDevices;
      var kept := registry;
      var remaining := kept.Keys;
      while remaining != {}
        invariant remaining <= registry.Keys
        invariant forall a | a in kept :: a in registry && kept[a] == registry[a]
        invariant forall a | a in registry && a in remaining :: a in kept
        invariant forall a | a in registry && a !in remaining :: a in kept <==> registry[a].isConnected
        decreases |remaining|
      {
        var a := LeastKey(remaining);
        if !kept[a].IsConnected() {
          kept := kept - {a};
        }
        remaining := remaining - {a};
      }
      connectedDevices := kept;
    }
  }

  /** Connecting twice: once the first call returns a session, the second
      call returns it too, leaves the registry as the first call left it and
      does not call `Connect` again. After a failed first call the second is
      a new attempt with its own transport answers. */
  method ConnectIsIdempotent(m: BleDeviceManager, address: string,
                             busOk: bool, proxyOk: bool, cache: Properties, connectOk: bool,
                             busOk2: bool, proxyOk2: bool, cache2: Properties, connectOk2: bool)
    returns (first: BleDeviceObject?, second: BleDeviceObject?, ghost afterFirst: map<string, BleDeviceObject>)
    requires m.Valid()
    modifies m
    ensures first != null ==> second == first && m.connectedDevices == old(m.connectedDevices)[address := first]
    ensures first == null ==> afterFirst == old(m.connectedDevices)
    ensures first == null && second != null ==>
              fresh(second) && m.connectedDevices == old(m.connectedDevices)[address := second] &&
              second.busCalls == [ConnectCall]
    ensures first == null && second == null ==> m.connectedDevices == old(m.connectedDevices)
    ensures address in old(m.connectedDevices) ==>
              first == old(m.connectedDevices)[address] && first.busCalls == old(first.busCalls)
    ensures first != null && address !in old(m.connectedDevices) ==> first.busCalls == [ConnectCall]
  {
    first := m.ConnectDevice(address, busOk, proxyOk, cache, connectOk);
    afterFirst := m.connectedDevices;
    second := m.ConnectDevice(address, busOk2, proxyOk2, cache2, connectOk2);
  }

  /** The sweep leaves `GetConnectedDevices`'s answer as it was: a session
      whose flag dropped is already missing from it before the sweep. */
  method SweepKeepsConnectedList(m: BleDeviceManager) returns (before: seq<BleDeviceObject>, after: seq<BleDeviceObject>)
    requires m.Valid()
    modifies m
    ensures before == after
  {
    before := m.GetConnectedDevices();
    ghost var registry := m.connectedDevices;
    ghost var flags := m.Flags();
    assert before == Pick(registry, ConnectedKeys(flags));
    assert forall a | a in registry :: flags[a] == registry[a].isConnected;
    m.Update();
    assert forall a | a in registry :: registry[a].isConnected == flags[a];
    after := m.GetConnectedDevices();
    ghost var registry2 := m.connectedDevices;
    ghost var flags2 := m.Flags();
    assert forall a :: a in registry2 <==> a in registry && flags[a];
    assert forall a | a in registry2 :: registry2[a] == registry[a] && flags2[a] == flags[a];
    SweptListSame(registry, flags, registry2, flags2);
  }

  /** After a disconnect the address reads as not connected, even when a
      stale "connected" refresh then reaches the old session. */
  method DisconnectIsAuthoritative(m: BleDeviceManager, address: string, callOk: bool, stale: Properties)
    requires m.Valid() && address in m.connectedDevices
    modifies m, m.connectedDevices.Values
    ensures !m.IsDeviceConnected(address)
  {
    var d := m.connectedDevices[address];
    m.DisconnectDevice(address, callOk);
    d.OnPropertiesChanged(stale);
  }

  /** A session whose flag drops through a property refresh is left out of
      `GetConnectedDevices` at once, is still found by address until the
      sweep, and is gone after it. */
  method CleanupSweep(m: BleDeviceManager, address: string, dropped: Properties)
    returns (d: BleDeviceObject, listed: seq<BleDeviceObject>, found: BleDeviceObject?)
    requires m.Valid() && address in m.connectedDevices
    requires m.connectedDevices[address].hasProxy
    requires "Connected" in dropped && dropped["Connected"] == VBool(false)
    modifies m, m.connectedDevices.Values
    ensures d !in listed
    ensures found == d
    ensures address !in m.connectedDevices
  {
    d := m.connectedDevices[address];
    d.OnPropertiesChanged(dropped);
    listed := m.GetConnectedDevices();
    found := m.GetDeviceByAddress(address);
    ConnectedKeysSpec(m.Flags());
    PickExcludes(m.connectedDevices, ConnectedKeys(m.Flags()), d);
    m.Update();
  }

  /** A new session's flag comes only from the proxy's cached properties:
      when the cache at connection time does not say `Connected`, the next
      sweep forgets the session that `ConnectDevice` just stored. */
  method ConnectThenUpdate(m: BleDeviceManager, address: string, busOk: bool, proxyOk: bool,
                           cache: Properties, connectOk: bool)
    returns (device: BleDeviceObject?)
    requires m.Valid() && address !in m.connectedDevices
    requires !("Connected" in cache && AsBool(cache["Connected"]))
    modifies m
    ensures device != null ==> !device.isConnected
    ensures address !in m.connectedDevices
  {
    device := m.ConnectDevice(address, busOk, proxyOk, cache, connectOk);
    m.Update();
  }
}
