/** The shapes of the BlueZ D-Bus data the plugin consumes. Every call to
    the bus is an oracle whose answer the model receives as a parameter:
    a success flag, a managed-object enumeration, or a proxy's cached
    properties. */
module DBus {
  import opened Ints

  /** D-Bus object paths are never empty and start with '/'. */
  type ObjectPath = s: string | |s| > 0 && s[0] == '/' witness "/"

  /** The GVariant values the plugin reads; `VOther` is any other type. */
  datatype Variant =
    | VString(str: string)
    | VInt16(i16: int16)
    | VBool(b: bool)
    | VStringArray(strs: seq<string>)
    | VOther

  /** An `a{sv}` property dictionary. */
  type Properties = map<string, Variant>

  /** One `{interface name -> properties}` entry of a managed object. */
  datatype Interface = Interface(name: string, properties: Properties)

  /** One entry of `GetManagedObjects`, interfaces in bus order. */
  datatype ManagedObject = ManagedObject(path: ObjectPath, interfaces: seq<Interface>)

  const AdapterInterface: string := "org.bluez.Adapter1"
  const DeviceInterface: string := "org.bluez.Device1"
  const GattCharacteristicInterface: string := "org.bluez.GattCharacteristic1"

  /** The bus methods whose issue (or absence) the model records. */
  datatype BusCall = StartDiscoveryCall | StopDiscoveryCall | ConnectCall | DisconnectCall

  /** `g_variant_get_string`; a value of another type reads as "". */
  function AsString(v: Variant): string {
    if v.VString? then v.str else ""
  }

  /** `g_variant_get_int16`, which yields 0 for a value of another type. */
  function AsInt16(v: Variant): int16 {
    if v.VInt16? then v.i16 else 0
  }

  /** `g_variant_get_boolean`, which yields false for a value of another type. */
  function AsBool(v: Variant): bool {
    v.VBool? && v.b
  }

  /** The strings of an `as` value; a value of another type reads as none. */
  function AsStrings(v: Variant): seq<string> {
    if v.VStringArray? then v.strs else []
  }

  predicate HasInterface(o: ManagedObject, name: string) {
    exists j | 0 <= j < |o.interfaces| :: o.interfaces[j].name == name
  }

  /** `path.find(prefix) == 0`: `prefix` starts `path`. */
  predicate StartsWith(path: string, prefix: string) {
    |prefix| <= |path| && path[..|prefix|] == prefix
  }
}
