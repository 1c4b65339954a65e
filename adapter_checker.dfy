/** The adapter gate (BluetoothAdapterChecker.cpp): whether the plugin holds
    a system-bus connection and a proxy for a BlueZ `Adapter1`, the
    predicates derived from that state, and the discovery calls it guards. */
module AdapterCheck {
  import opened Wrappers
  import opened DBus

  /** The path of the first enumerated object carrying `Adapter1`. */
  function FirstAdapter(objs: seq<ManagedObject>): (r: Option<ObjectPath>)
  {
    if |objs| == 0 then None
    else if HasInterface(objs[0], AdapterInterface) then Some(objs[0].path)
    else FirstAdapter(objs[1..])
  }

  /** `FirstAdapter` finds an adapter exactly when there is one, and what it
      finds is the path of an adapter object with none before it. */
  lemma {:induction false} FirstAdapterIsFirst(objs: seq<ManagedObject>)
    ensures FirstAdapter(objs).None? <==>
              forall i | 0 <= i < |objs| :: !HasInterface(objs[i], AdapterInterface)
    ensures FirstAdapter(objs).Some? ==>
              exists i | 0 <= i < |objs| ::
                objs[i].path == FirstAdapter(objs).value &&
                HasInterface(objs[i], AdapterInterface) &&
                forall k | 0 <= k < i :: !HasInterface(objs[k], AdapterInterface)
  {
    if |objs| > 0 {
      FirstAdapterIsFirst(objs[1..]);
      if !HasInterface(objs[0], AdapterInterface) {
        forall i | 0 <= i < |objs| && i > 0
          ensures HasInterface(objs[i], AdapterInterface) <==> HasInterface(objs[1..][i - 1], AdapterInterface)
        {
          assert objs[i] == objs[1..][i - 1];
        }
        if FirstAdapter(objs).Some? {
          var i :| 0 <= i < |objs[1..]| && objs[1..][i].path == FirstAdapter(objs).value &&
                   HasInterface(objs[1..][i], AdapterInterface) &&
                   forall k | 0 <= k < i :: !HasInterface(objs[1..][k], AdapterInterface);
          assert objs[i + 1] == objs[1..][i];
          forall k | 0 <= k < i + 1 ensures !HasInterface(objs[k], AdapterInterface) {
            if k > 0 { assert objs[k] == objs[1..][k - 1]; }
          }
        }
      } else {
        assert objs[0].path == FirstAdapter(objs).value;
      }
    }
  }

  /** The path text `adapterPath_` holds after a search: empty when none was found. */
  function PathText(p: Option<ObjectPath>): (s: string)
    ensures s == "" <==> p.None?
    ensures p.Some? ==> s == p.value
  {
    match p
    case Some(path) => path
    case None => ""
  }

  /** The search loop as the source writes it: `adapterPath_` is not cleared
      first, the inner loop only overwrites it on a match, and the outer
      loop leaves as soon as it is non-empty. */
  function SearchAsWritten(objs: seq<ManagedObject>, path: string): (r: string)
  {
    if |objs| == 0 then path
    else
      var p := if HasInterface(objs[0], AdapterInterface) then objs[0].path else path;
      if p != "" then p else SearchAsWritten(objs[1..], p)
  }

  /** Starting from an empty `adapterPath_` the loop as written is the
      first-match search. */
  lemma {:induction false} SearchFromEmpty(objs: seq<ManagedObject>)
    ensures SearchAsWritten(objs, "") == PathText(FirstAdapter(objs))
  {
    if |objs| > 0 && !HasInterface(objs[0], AdapterInterface) {
      SearchFromEmpty(objs[1..]);
    }
  }

  /** With a stale path left from an earlier search, the loop as written
      stops after the first object and keeps the stale path although the
      enumeration names another adapter. */
  lemma StalePathSurvives()
    ensures var objs := [ManagedObject("/", []),
                         ManagedObject("/org/bluez/hci1", [Interface(AdapterInterface, map[])])];
            SearchAsWritten(objs, "/org/bluez/hci0") == "/org/bluez/hci0" &&
            FirstAdapter(objs) == Some("/org/bluez/hci1")
  {
    var objs := [ManagedObject("/", []),
                 ManagedObject("/org/bluez/hci1", [Interface(AdapterInterface, map[])])];
    assert !HasInterface(objs[0], AdapterInterface);
    assert objs[1].interfaces[0].name == AdapterInterface;
    assert objs[1..][0] == objs[1];
  }

  class BluetoothAdapterChecker {
    /** `dbusConnection_ != nullptr` */
    var dbusConnection: bool
    /** `adapter_ != nullptr` */
    var adapter: bool
    var adapterPath: string
    var isInitialized: bool
    /** The adapter methods called on the bus, in order. */
    ghost var busCalls: seq<BusCall>

    /** The adapter proxy exists exactly when the checker is initialized,
        and then a connection and a found adapter path exist. */
    ghost predicate Valid()
      reads this
    {
      adapter == isInitialized &&
      (isInitialized ==> dbusConnection && adapterPath != "")
    }

    /** The constructor connects at once (`InitializeDBusConnection`). */
    constructor (busOk: bool, objects: Option<seq<ManagedObject>>, proxyOk: bool)
      ensures Valid()
      ensures busCalls == []
      ensures dbusConnection == busOk
      ensures isInitialized <==> busOk && objects.Some? && FirstAdapter(objects.value).Some? && proxyOk
    {
      dbusConnection, adapter, adapterPath, isInitialized := false, false, "", false;
      busCalls := [];
      new;
      var _ := InitializeDBusConnection(busOk, objects, proxyOk);
    }

    function IsAdapterAvailable(): (r: bool)
      reads this`isInitialized, this`adapter
      ensures r <==> isInitialized && adapter
    {
      isInitialized && adapter
    }

    /** In a valid state availability is the initialized flag alone. */
    lemma AvailableIffInitialized()
      requires Valid()
      ensures IsAdapterAvailable() <==> isInitialized
    {
    }

    /** The cached `Powered` property; false when unavailable or missing. */
    function IsPowered(cache: Properties): (r: bool)
      reads this`isInitialized, this`adapter
      ensures r ==> IsAdapterAvailable()
      ensures r <==> IsAdapterAvailable() && "Powered" in cache && AsBool(cache["Powered"])
    {
      if !IsAdapterAvailable() then false
      else if "Powered" !in cache then false
      else AsBool(cache["Powered"])
    }

    /** The cached `Discovering` property; false when unavailable or missing. */
    function IsDiscovering(cache: Properties): (r: bool)
      reads this`isInitialized, this`adapter
      ensures r ==> IsAdapterAvailable()
      ensures r <==> IsAdapterAvailable() && "Discovering" in cache && AsBool(cache["Discovering"])
    {
      if !IsAdapterAvailable() then false
      else if "Discovering" !in cache then false
      else AsBool(cache["Discovering"])
    }

    /** Connects to the system bus, then looks the adapter up. `busOk` is
        the outcome of `g_bus_get_sync`; the other two are passed on to
        the lookup. */
    method InitializeDBusConnection(busOk: bool, objects: Option<seq<ManagedObject>>, proxyOk: bool)
      returns (ok: bool)
      requires Valid() && !isInitialized
      modifies this`dbusConnection, this`adapter, this`adapterPath, this`isInitialized
      ensures Valid()
      ensures dbusConnection == busOk
      ensures ok <==> busOk && objects.Some? && FirstAdapter(objects.value).Some? && proxyOk
      ensures isInitialized == ok
      ensures busOk && objects.Some? ==> adapterPath == PathText(FirstAdapter(objects.value))
      ensures !busOk || objects.None? ==> adapterPath == old(adapterPath)
    {
      dbusConnection := busOk;
      if !busOk {
        return false;
      }
      ok := GetBlueZAdapter(objects, proxyOk);
      if !ok {
        return;
      }
      isInitialized := true;
    }

    /** Releases the proxy and the connection; the checker is then
        uninitialized. */
    method CleanupDBusConnection()
      modifies this`dbusConnection, this`adapter, this`isInitialized
      ensures Valid()
      ensures !adapter && !dbusConnection && !isInitialized
      ensures !IsAdapterAvailable()
    {
      if adapter {
        adapter := false;
      }
      if dbusConnection {
        dbusConnection := false;
      }
      isInitialized := false;
    }

    /** The first-match adapter search. `objects` is the `GetManagedObjects`
        reply (None when the object-manager proxy or the call fails) and
        `proxyOk` the outcome of creating the adapter proxy. The path is
        cleared before the search (see the as-written loop above). */
    method GetBlueZAdapter(objects: Option<seq<ManagedObject>>, proxyOk: bool) returns (ok: bool)
      requires !isInitialized && !adapter
      modifies this`adapter, this`adapterPath
      ensures objects.None? ==> !ok && adapter == old(adapter) && adapterPath == old(adapterPath)
      ensures objects.Some? ==> adapterPath == PathText(FirstAdapter(objects.value))
      ensures objects.Some? && FirstAdapter(objects.value).None? ==> !ok && adapter == old(adapter)
      ensures objects.Some? && FirstAdapter(objects.value).Some? ==> ok == proxyOk && adapter == proxyOk
    {
      if objects.None? {
        return false;
      }
      var objs := objects.value;
      adapterPath := "";
      var i := 0;
      while i < |objs|
        invariant 0 <= i <= |objs|
        invariant adapterPath == "" && adapter == old(adapter)
        invariant FirstAdapter(objs) == FirstAdapter(objs[i..])
      {
        var ifaces := objs[i].interfaces;
        var j := 0;
        while j < |ifaces|
          invariant 0 <= j <= |ifaces|
          invariant adapterPath == "" && adapter == old(adapter)
          invariant forall k | 0 <= k < j :: ifaces[k].name != AdapterInterface
        {
          if ifaces[j].name == AdapterInterface {
            adapterPath := objs[i].path;
            break;
          }
          j := j + 1;
        }
        if adapterPath != "" {
          assert HasInterface(objs[i], AdapterInterface);
          assert objs[i..][0] == objs[i];
          break;
        }
        assert objs[i..][1..] == objs[i + 1..];
        i := i + 1;
      }
      if adapterPath == "" {
        assert objs[i..] == [];
        return false;
      }
      adapter := proxyOk;
      ok := proxyOk;
    }

    /** Initializes when uninitialized and otherwise does nothing. */
    method RequestAdapterStatus(busOk: bool, objects: Option<seq<ManagedObject>>, proxyOk: bool)
      requires Valid()
      modifies this`dbusConnection, this`adapter, this`adapterPath, this`isInitialized
      ensures Valid()
      ensures old(isInitialized) ==> unchanged(this)
      ensures !old(isInitialized) ==>
                dbusConnection == busOk &&
                (isInitialized <==> busOk && objects.Some? && FirstAdapter(objects.value).Some? && proxyOk)
    {
      if !isInitialized {
        var _ := InitializeDBusConnection(busOk, objects, proxyOk);
      }
    }

    /** Re-initializes when uninitialized; an initialized checker without an
        adapter would re-run only the lookup, but `Valid` rules that state
        out, so otherwise nothing changes. */
    method UpdateAdapterStatus(busOk: bool, objects: Option<seq<ManagedObject>>, proxyOk: bool)
      requires Valid()
      modifies this`dbusConnection, this`adapter, this`adapterPath, this`isInitialized
      ensures Valid()
      ensures old(isInitialized) ==> unchanged(this)
      ensures !old(isInitialized) ==>
                dbusConnection == busOk &&
                (isInitialized <==> busOk && objects.Some? && FirstAdapter(objects.value).Some? && proxyOk)
    {
      if !isInitialized {
        var _ := InitializeDBusConnection(busOk, objects, proxyOk);
      } else if !adapter {
        assert false;
      }
    }

    /** Asks the adapter to start discovering. No bus call unless the
        adapter is available and powered; `callOk` is the call's outcome. */
    method StartDiscovery(cache: Properties, callOk: bool) returns (ok: bool)
      modifies this`busCalls
      ensures ok <==> IsPowered(cache) && callOk
      ensures busCalls == if IsPowered(cache) then old(busCalls) + [StartDiscoveryCall] else old(busCalls)
    {
      if !IsAdapterAvailable() || !IsPowered(cache) {
        return false;
      }
      busCalls := busCalls + [StartDiscoveryCall];
      ok := callOk;
    }

    /** Asks the adapter to stop discovering; only availability is needed. */
    method StopDiscovery(callOk: bool) returns (ok: bool)
      modifies this`busCalls
      ensures ok <==> IsAdapterAvailable() && callOk
      ensures busCalls == if IsAdapterAvailable() then old(busCalls) + [StopDiscoveryCall] else old(busCalls)
    {
      if !IsAdapterAvailable() {
        return false;
      }
      busCalls := busCalls + [StopDiscoveryCall];
      ok := callOk;
    }
  }
}
