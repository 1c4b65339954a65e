/** The scan registry (BleDeviceWatcher.cpp): a scanning flag gated on the
    adapter, a list of service-UUID filters, and the table of the latest
    sighting per address, filled from BlueZ's managed-object enumeration. */
module DeviceWatcher {
  import opened Wrappers
  import opened DBus
  import opened KeyOrder
  import opened Uuids
  import opened AdapterCheck

  /** One row of the scan table. */
  datatype ScannedDeviceInfo = ScannedDeviceInfo(address: string, name: string, rssi: int)

  /** What one `Device1` interface of an enumeration reports. */
  datatype Sighting = Sighting(address: string, name: string, rssi: int, uuids: seq<string>)

  /** Reads `Address`, `Name`, `RSSI` and `UUIDs`; a missing property
      leaves the local's initial value ("", "", 0, no UUIDs). */
  function SightingOf(props: Properties): Sighting {
    Sighting(
      if "Address" in props then AsString(props["Address"]) else "",
      if "Name" in props then AsString(props["Name"]) else "",
      if "RSSI" in props then AsInt16(props["RSSI"]) else 0,
      if "UUIDs" in props then AsStrings(props["UUIDs"]) else [])
  }

  function Info(s: Sighting): ScannedDeviceInfo {
    ScannedDeviceInfo(s.address, s.name, s.rssi)
  }

  /** The filter check of `Update`: an empty filter list keeps everything,
      otherwise some filter string must be among the advertised UUIDs. */
  predicate Admits(filters: seq<string>, uuids: seq<string>) {
    |filters| == 0 || exists i | 0 <= i < |filters| :: filters[i] in uuids
  }

  /** `OnDeviceFound`: the entry for the sighting's address becomes its info. */
  function Upsert(t: map<string, ScannedDeviceInfo>, s: Sighting): map<string, ScannedDeviceInfo> {
    t[s.address := Info(s)]
  }

  /** Applies the sightings in order, skipping those the filter rejects. */
  function Ingest(t: map<string, ScannedDeviceInfo>, filters: seq<string>, ss: seq<Sighting>)
    : map<string, ScannedDeviceInfo>
  {
    if |ss| == 0 then t
    else
      var before := Ingest(t, filters, ss[..|ss| - 1]);
      var s := ss[|ss| - 1];
      if Admits(filters, s.uuids) then Upsert(before, s) else before
  }

  /** The sightings of one object's interfaces, in bus order. */
  function InterfaceSightings(ifaces: seq<Interface>): seq<Sighting> {
    if |ifaces| == 0 then []
    else
      var last := ifaces[|ifaces| - 1];
      InterfaceSightings(ifaces[..|ifaces| - 1]) +
      (if last.name == DeviceInterface then [SightingOf(last.properties)] else [])
  }

  /** The sightings of a whole enumeration, in bus order. */
  function EnumerationSightings(objs: seq<ManagedObject>): seq<Sighting> {
    if |objs| == 0 then []
    else EnumerationSightings(objs[..|objs| - 1]) + InterfaceSightings(objs[|objs| - 1].interfaces)
  }

  /** The canonical strings of the filter objects, in list order. */
  function FilterStrings(fs: seq<UuidObject>): (r: seq<string>)
    ensures |r| == |fs|
  {
    seq(|fs|, i requires 0 <= i < |fs| => fs[i].uuidString)
  }

  /** Every row is stored under its own address. */
  predicate AddressKeyed(t: map<string, ScannedDeviceInfo>) {
    forall k | k in t :: t[k].address == k
  }

  lemma IngestSnoc(t: map<string, ScannedDeviceInfo>, filters: seq<string>, ss: seq<Sighting>, s: Sighting)
    ensures Ingest(t, filters, ss + [s]) ==
              if Admits(filters, s.uuids) then Upsert(Ingest(t, filters, ss), s) else Ingest(t, filters, ss)
  {
    assert (ss + [s])[..|ss|] == ss;
  }

  /** Ingesting two batches one after the other is ingesting them joined. */
  lemma {:induction false} IngestAppend(t: map<string, ScannedDeviceInfo>, filters: seq<string>,
                                        a: seq<Sighting>, b: seq<Sighting>)
    ensures Ingest(t, filters, a + b) == Ingest(Ingest(t, filters, a), filters, b)
    decreases |b|
  {
    if |b| == 0 {
      assert a + b == a;
    } else {
      var init := b[..|b| - 1];
      var s := b[|b| - 1];
      assert b == init + [s];
      assert a + b == (a + init) + [s];
      IngestSnoc(t, filters, a + init, s);
      IngestSnoc(Ingest(t, filters, a), filters, init, s);
      IngestAppend(t, filters, a, init);
    }
  }

  /** After ingestion a key is present iff it was before or some admitted
      sighting carried it: entries are never removed. */
  lemma {:induction false} IngestKeys(t: map<string, ScannedDeviceInfo>, filters: seq<string>, ss: seq<Sighting>)
    ensures forall k :: k in Ingest(t, filters, ss) <==>
              k in t || exists i | 0 <= i < |ss| :: ss[i].address == k && Admits(filters, ss[i].uuids)
  {
    if |ss| > 0 {
      var init := ss[..|ss| - 1];
      IngestKeys(t, filters, init);
      forall k ensures k in Ingest(t, filters, ss) <==>
                       k in t || exists i | 0 <= i < |ss| :: ss[i].address == k && Admits(filters, ss[i].uuids)
      {
        if exists i | 0 <= i < |ss| :: ss[i].address == k && Admits(filters, ss[i].uuids) {
          var i :| 0 <= i < |ss| && ss[i].address == k && Admits(filters, ss[i].uuids);
          if i < |init| { assert init[i] == ss[i]; }
        }
        if exists i | 0 <= i < |init| :: init[i].address == k && Admits(filters, init[i].uuids) {
          var i :| 0 <= i < |init| && init[i].address == k && Admits(filters, init[i].uuids);
          assert ss[i] == init[i];
        }
      }
    }
  }

  /** An address no admitted sighting carries keeps its old entry. */
  lemma {:induction false} IngestUntouched(t: map<string, ScannedDeviceInfo>, filters: seq<string>,
                                           ss: seq<Sighting>, k: string)
    requires k in t
    requires forall i | 0 <= i < |ss| :: ss[i].address == k ==> !Admits(filters, ss[i].uuids)
    ensures k in Ingest(t, filters, ss) && Ingest(t, filters, ss)[k] == t[k]
  {
    if |ss| > 0 {
      var init := ss[..|ss| - 1];
      forall i | 0 <= i < |init| ensures init[i].address == k ==> !Admits(filters, init[i].uuids) {
        assert init[i] == ss[i];
      }
      IngestUntouched(t, filters, init, k);
    }
  }

  /** Last write wins: the entry for an address is the last admitted
      sighting of that address. */
  lemma {:induction false} IngestLastWins(t: map<string, ScannedDeviceInfo>, filters: seq<string>,
                                          ss: seq<Sighting>, i: nat)
    requires i < |ss| && Admits(filters, ss[i].uuids)
    requires forall j | i < j < |ss| :: ss[j].address == ss[i].address ==> !Admits(filters, ss[j].uuids)
    ensures ss[i].address in Ingest(t, filters, ss)
    ensures Ingest(t, filters, ss)[ss[i].address] == Info(ss[i])
  {
    if i < |ss| - 1 {
      var init := ss[..|ss| - 1];
      assert init[i] == ss[i];
      forall j | i < j < |init| ensures init[j].address == init[i].address ==> !Admits(filters, init[j].uuids) {
        assert init[j] == ss[j];
      }
      IngestLastWins(t, filters, init, i);
    }
  }

  /** Ingestion keeps every row under its own address. */
  lemma {:induction false} IngestKeepsKeyed(t: map<string, ScannedDeviceInfo>, filters: seq<string>, ss: seq<Sighting>)
    requires AddressKeyed(t)
    ensures AddressKeyed(Ingest(t, filters, ss))
  {
    if |ss| > 0 {
      IngestKeepsKeyed(t, filters, ss[..|ss| - 1]);
    }
  }

  /** The rows of `m` for the keys `ks`, in that order. */
  ghost function Rows(m: map<string, ScannedDeviceInfo>, ks: seq<string>): (r: seq<ScannedDeviceInfo>)
    requires forall i | 0 <= i < |ks| :: ks[i] in m
    ensures |r| == |ks|
  {
    seq(|ks|, i requires 0 <= i < |ks| => m[ks[i]])
  }

  /** What iterating the `std::map` yields: its rows in ascending key order. */
  ghost function TableSnapshot(m: map<string, ScannedDeviceInfo>): seq<ScannedDeviceInfo> {
    AscendingIsSorted(m.Keys);
    Rows(m, Ascending(m.Keys))
  }

  /** The snapshot lists each stored address exactly once, in ascending
      order, with its current row. */
  lemma SnapshotIsTable(m: map<string, ScannedDeviceInfo>)
    requires AddressKeyed(m)
    ensures |TableSnapshot(m)| == |m|
    ensures forall i | 0 <= i < |TableSnapshot(m)| ::
              TableSnapshot(m)[i].address in m && m[TableSnapshot(m)[i].address] == TableSnapshot(m)[i]
    ensures forall k | k in m :: exists i | 0 <= i < |TableSnapshot(m)| :: TableSnapshot(m)[i].address == k
    ensures forall i, j | 0 <= i < j < |TableSnapshot(m)| ::
              Less(TableSnapshot(m)[i].address, TableSnapshot(m)[j].address)
  {
    AscendingIsSorted(m.Keys);
    assert |m.Keys| == |m|;
    var ks := Ascending(m.Keys);
    var t := TableSnapshot(m);
    assert t == Rows(m, ks);
    assert forall i | 0 <= i < |t| :: t[i] == m[ks[i]] && t[i].address == ks[i];
    forall k | k in m ensures exists i | 0 <= i < |t| :: t[i].address == k {
      assert k in ks;
      var i :| 0 <= i < |ks| && ks[i] == k;
      assert t[i].address == k;
    }
  }

  /** The filter example: with filter F, a device advertising {F, G} is
      kept and one advertising only {G} is not; once the filter list is
      cleared, a new sighting of the second device is kept too. */
  lemma FilterScenario(f: string, g: string, a: string, b: string)
    requires f != g && a != b
    ensures var sa := Sighting(a, "", 0, [f, g]);
            var sb := Sighting(b, "", 0, [g]);
            var filtered := Ingest(map[], [f], [sa, sb]);
            filtered.Keys == {a} &&
            Ingest(filtered, [], [sb]).Keys == {a, b}
  {
    var sa := Sighting(a, "", 0, [f, g]);
    var sb := Sighting(b, "", 0, [g]);
    assert [f][0] in sa.uuids;
    assert !Admits([f], sb.uuids);
    IngestSnoc(map[], [f], [], sa);
    IngestSnoc(map[], [f], [sa], sb);
    assert [] + [sa] == [sa] && [sa] + [sb] == [sa, sb];
    var filtered := Ingest(map[], [f], [sa, sb]);
    assert filtered == map[a := Info(sa)];
    IngestSnoc(filtered, [], [], sb);
    assert [] + [sb] == [sb];
  }

  /** A sighting without `Name` or `RSSI` still replaces the row, blanking
      the name and zeroing the signal strength. */
  lemma MissingPropertiesOverwrite(t: map<string, ScannedDeviceInfo>, props: Properties)
    requires "Name" !in props && "RSSI" !in props
    ensures var s := SightingOf(props);
            s.address in Upsert(t, s) &&
            Upsert(t, s)[s.address] == ScannedDeviceInfo(s.address, "", 0)
  {
  }

  class BleDeviceWatcher {
    var scanFilterUuids: seq<UuidObject>
    var scannedDevices: map<string, ScannedDeviceInfo>
    var isScanning: bool

    ghost predicate Valid()
      reads this
    {
      (forall i | 0 <= i < |scanFilterUuids| :: scanFilterUuids[i].Valid()) &&
      AddressKeyed(scannedDevices)
    }

    constructor ()
      ensures Valid()
      ensures scanFilterUuids == [] && scannedDevices == map[] && !isScanning
    {
      scanFilterUuids, scannedDevices, isScanning := [], map[], false;
    }

    /** Appends a UUID to the filter list; a null UUID is ignored. */
    method AddScanFilter(serviceUuid: UuidObject?)
      requires Valid() && (serviceUuid != null ==> serviceUuid.Valid())
      modifies this`scanFilterUuids
      ensures Valid()
      ensures scanFilterUuids == if serviceUuid == null then old(scanFilterUuids)
                                 else old(scanFilterUuids) + [serviceUuid]
    {
      if serviceUuid != null {
        scanFilterUuids := scanFilterUuids + [serviceUuid];
      }
    }

    /** Empties the filter list; the scan table is left alone. */
    method ClearScanFilter()
      requires Valid()
      modifies this`scanFilterUuids
      ensures Valid()
      ensures scanFilterUuids == []
    {
      scanFilterUuids := [];
    }

    /** Starts discovery unless the adapter is unavailable or unpowered;
        an ongoing scan is reported as success without a bus call. */
    method StartScan(adapter: BluetoothAdapterChecker, cache: Properties, callOk: bool) returns (ok: bool)
      modifies this`isScanning, adapter`busCalls
      ensures !adapter.IsPowered(cache) ==>
                !ok && isScanning == old(isScanning) && adapter.busCalls == old(adapter.busCalls)
      ensures adapter.IsPowered(cache) && old(isScanning) ==>
                ok && isScanning && adapter.busCalls == old(adapter.busCalls)
      ensures adapter.IsPowered(cache) && !old(isScanning) ==>
                ok == callOk && isScanning == callOk &&
                adapter.busCalls == old(adapter.busCalls) + [StartDiscoveryCall]
    {
      if !adapter.IsAdapterAvailable() || !adapter.IsPowered(cache) {
        return false;
      }
      if isScanning {
        return true;
      }
      var started := adapter.StartDiscovery(cache, callOk);
      if !started {
        return false;
      }
      isScanning := true;
      ok := true;
    }

    /** Stops discovery; stopping while not scanning succeeds without a
        bus call, and a failed stop leaves the scan running. */
    method StopScan(adapter: BluetoothAdapterChecker, callOk: bool) returns (ok: bool)
      modifies this`isScanning, adapter`busCalls
      ensures !old(isScanning) ==> ok && !isScanning && adapter.busCalls == old(adapter.busCalls)
      ensures old(isScanning) ==>
                ok == (adapter.IsAdapterAvailable() && callOk) && isScanning == !ok &&
                adapter.busCalls == if adapter.IsAdapterAvailable() then old(adapter.busCalls) + [StopDiscoveryCall]
                                    else old(adapter.busCalls)
    {
      if !isScanning {
        return true;
      }
      var stopped := adapter.StopDiscovery(callOk);
      if !stopped {
        return false;
      }
      isScanning := false;
      ok := true;
    }

    /** The upsert of one sighting. */
    method OnDeviceFound(address: string, name: string, rssi: int)
      requires AddressKeyed(scannedDevices)
      modifies this`scannedDevices
      ensures AddressKeyed(scannedDevices)
      ensures scannedDevices == old(scannedDevices)[address := ScannedDeviceInfo(address, name, rssi)]
    {
      scannedDevices := scannedDevices[address := ScannedDeviceInfo(address, name, rssi)];
    }

    /** Whether some filter's canonical string (`GetUuidString`, the
        stored `uuidString`) is among `deviceUuids`. */
    method CheckServiceUuid(deviceUuids: seq<string>) returns (found: bool)
      ensures found <==> exists i | 0 <= i < |scanFilterUuids| :: FilterStrings(scanFilterUuids)[i] in deviceUuids
      ensures Admits(FilterStrings(scanFilterUuids), deviceUuids) <==> |scanFilterUuids| == 0 || found
    {
      ghost var filters := FilterStrings(scanFilterUuids);
      var n := 0;
      while n < |scanFilterUuids|
        invariant 0 <= n <= |scanFilterUuids|
        invariant forall i | 0 <= i < n :: filters[i] !in deviceUuids
      {
        var filterUuidStr := scanFilterUuids[n].uuidString;
        assert filters[n] == filterUuidStr;
        if filterUuidStr in deviceUuids {
          return true;
        }
        n := n + 1;
      }
      found := false;
    }

    /** One poll: while scanning, every `Device1` interface of the
        enumeration the filter admits is upserted, in bus order.
        `enumeration` is None when the bus, the object manager or
        `GetManagedObjects` fails. */
    method Update(enumeration: Option<seq<ManagedObject>>)
      requires Valid()
      modifies this`scannedDevices
      ensures Valid()
      ensures scannedDevices ==
                if isScanning && enumeration.Some? then
                  Ingest(old(scannedDevices), FilterStrings(scanFilterUuids), EnumerationSightings(enumeration.value))
                else old(scannedDevices)
    {
      if !isScanning || enumeration.None? {
        return;
      }
      var objs := enumeration.value;
      ghost var filters := FilterStrings(scanFilterUuids);
      var i := 0;
      while i < |objs|
        invariant 0 <= i <= |objs|
        invariant AddressKeyed(scannedDevices)
        invariant scannedDevices == Ingest(old(scannedDevices), filters, EnumerationSightings(objs[..i]))
      {
        IngestInterfaces(objs[i].interfaces);
        IngestAppend(old(scannedDevices), filters, EnumerationSightings(objs[..i]), InterfaceSightings(objs[i].interfaces));
        assert objs[..i + 1][..i] == objs[..i];
        i := i + 1;
      }
      assert objs[..i] == objs;
    }

    /** The inner loop of `Update` over one object's interfaces: each
        `Device1` interface's properties are read, and the sighting is
        upserted when the filter list is empty or `CheckServiceUuid`
        accepts it. */
    method IngestInterfaces(ifaces: seq<Interface>)
      requires AddressKeyed(scannedDevices)
      modifies this`scannedDevices
      ensures AddressKeyed(scannedDevices)
      ensures scannedDevices == Ingest(old(scannedDevices), FilterStrings(scanFilterUuids), InterfaceSightings(ifaces))
    {
      ghost var filters := FilterStrings(scanFilterUuids);
      var j := 0;
      assert ifaces[..0] == [];
      while j < |ifaces|
        invariant 0 <= j <= |ifaces|
        invariant AddressKeyed(scannedDevices)
        invariant scannedDevices == Ingest(old(scannedDevices), filters, InterfaceSightings(ifaces[..j]))
      {
        assert ifaces[..j + 1][..j] == ifaces[..j];
        assert InterfaceSightings(ifaces[..j + 1]) == InterfaceSightings(ifaces[..j]) +
          (if ifaces[j].name == DeviceInterface then [SightingOf(ifaces[j].properties)] else []);
        if ifaces[j].name == DeviceInterface {
          var s := SightingOf(ifaces[j].properties);
          var keep := true;
          if |scanFilterUuids| != 0 {
            keep := CheckServiceUuid(s.uuids);
          }
          IngestSnoc(old(scannedDevices), filters, InterfaceSightings(ifaces[..j]), s);
          if keep {
            OnDeviceFound(s.address, s.name, s.rssi);
          }
        } else {
          assert InterfaceSightings(ifaces[..j]) + [] == InterfaceSightings(ifaces[..j]);
        }
        j := j + 1;
      }
      assert ifaces[..j] == ifaces;
    }

    /** The scan table's rows in address order. */
    method GetScannedDevices() returns (devices: seq<ScannedDeviceInfo>)
      ensures devices == TableSnapshot(scannedDevices)
    {
      var remaining := scannedDevices.Keys;
      ghost var visited: seq<string> := [];
      devices := [];
      while remaining != {}
        invariant remaining <= scannedDevices.Keys
        invariant forall i | 0 <= i < |visited| :: visited[i] in scannedDevices && visited[i] !in remaining
        invariant forall k | k in scannedDevices :: k in remaining || k in visited
        invariant StrictlyAscending(visited)
        invariant forall i, r | 0 <= i < |visited| && r in remaining :: Less(visited[i], r)
        invariant devices == Rows(scannedDevices, visited)
        decreases |remaining|
      {
        var k := LeastKey(remaining);
        assert Rows(scannedDevices, visited + [k]) == Rows(scannedDevices, visited) + [scannedDevices[k]];
        devices := devices + [scannedDevices[k]];
        visited := visited + [k];
        remaining := remaining - {k};
      }
      AscendingIsSorted(scannedDevices.Keys);
      AscendingUnique(visited, Ascending(scannedDevices.Keys));
    }
  }
}
