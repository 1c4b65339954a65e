/** Optional values, standing in for the null pointers and missing
    D-Bus properties of the plugin. */
module Wrappers {

  datatype Option<+T> = None | Some(value: T) {

    /** The value if present, otherwise `default`. */
    function GetOr(default: T): T {
      match this
      case Some(v) => v
      case None => default
    }
  }
}

/** The fixed-width integer types of the C++ interface. */
module Ints {

  type byte = x: int | 0 <= x < 0x100
  type int16 = x: int | -0x8000 <= x < 0x8000
  type uint32 = x: int | 0 <= x < 0x1_0000_0000
  type uint64 = x: int | 0 <= x < 0x1_0000_0000_0000_0000

  /** `x << 8` on a `uint64`: the bits shifted past bit 63 are lost. */
  function ShiftLeft8(x: uint64): (r: uint64)
    ensures x < 0x100_0000_0000_0000 ==> r == x * 0x100
  {
    (x * 0x100) % 0x1_0000_0000_0000_0000
  }
}
