/** UUID interning (UuidManager.cpp): a UUID given as four 32-bit words is
    written in the 8-4-4-4-12 layout of section 3 of RFC 4122 in lower-case
    hex, and that string keys the registry of UUID objects. */
module Uuids {
  import opened Ints
  import opened Hex

  /** The string `UuidObject`'s constructor and `GetOrCreateUuidObject`
      both build: d1, the two halves of d2, the two halves of d3, then d4,
      with no '-' between the low half of d3 and d4. */
  function UuidString(d1: uint32, d2: uint32, d3: uint32, d4: uint32): string {
    Pow16Values();
    Fixed(d1, 8, false) + "-" +
    Fixed(d2 / 0x1_0000, 4, false) + "-" + Fixed(d2 % 0x1_0000, 4, false) + "-" +
    Fixed(d3 / 0x1_0000, 4, false) + "-" + Fixed(d3 % 0x1_0000, 4, false) +
    Fixed(d4, 8, false)
  }

  /** 36 characters: groups of 8, 4, 4, 4 and 12 lower-case hex digits
      with '-' at positions 8, 13, 18 and 23. */
  predicate IsUuidLayout(s: string) {
    |s| == 36 && s[8] == '-' && s[13] == '-' && s[18] == '-' && s[23] == '-' &&
    AllOfCase(s[0..8], false) && AllOfCase(s[9..13], false) && AllOfCase(s[14..18], false) &&
    AllOfCase(s[19..23], false) && AllOfCase(s[24..36], false)
  }

  lemma LayoutGroupsAreHex(s: string)
    requires IsUuidLayout(s)
    ensures AllHex(s[0..8]) && AllHex(s[9..13]) && AllHex(s[14..18])
    ensures AllHex(s[19..23]) && AllHex(s[24..28]) && AllHex(s[28..36])
  {
    assert s[24..28] == s[24..36][0..4] && s[28..36] == s[24..36][4..12];
    forall c: char, upper: bool | IsDigitOfCase(c, upper) ensures IsHexDigit(c) {}
  }

  /** Reads the four words back out of a string in the layout. */
  function UuidWords(s: string): (w: (uint32, uint32, uint32, uint32))
    requires IsUuidLayout(s)
  {
    LayoutGroupsAreHex(s);
    Pow16Values();
    (Value(s[0..8]),
     Value(s[9..13]) * 0x1_0000 + Value(s[14..18]),
     Value(s[19..23]) * 0x1_0000 + Value(s[24..28]),
     Value(s[28..36]))
  }

  /** Where the six groups of the canonical string sit. */
  lemma GroupPositions(g1: string, g2: string, g3: string, g4: string, g5: string, g6: string)
    requires |g1| == 8 && |g2| == 4 && |g3| == 4 && |g4| == 4 && |g5| == 4 && |g6| == 8
    ensures var s := g1 + "-" + g2 + "-" + g3 + "-" + g4 + "-" + g5 + g6;
      |s| == 36 && s[8] == '-' && s[13] == '-' && s[18] == '-' && s[23] == '-' &&
      s[0..8] == g1 && s[9..13] == g2 && s[14..18] == g3 && s[19..23] == g4 &&
      s[24..28] == g5 && s[28..36] == g6 && s[24..36] == g5 + g6
  {
  }

  lemma AllOfCaseConcat(a: string, b: string, upper: bool)
    requires AllOfCase(a, upper) && AllOfCase(b, upper)
    ensures AllOfCase(a + b, upper)
  {
    forall i | 0 <= i < |a + b| ensures IsDigitOfCase((a + b)[i], upper) {
      if i >= |a| { assert (a + b)[i] == b[i - |a|]; }
    }
  }

  /** The canonical string has the RFC 4122 layout, and its last 12 digits
      are the low half of d3 followed by the 8 digits of d4. */
  lemma UuidStringLayout(d1: uint32, d2: uint32, d3: uint32, d4: uint32)
    ensures IsUuidLayout(UuidString(d1, d2, d3, d4))
    ensures Pow16(4) == 0x1_0000 && Pow16(8) == 0x1_0000_0000
    ensures UuidString(d1, d2, d3, d4)[24..28] == Fixed(d3 % 0x1_0000, 4, false)
    ensures UuidString(d1, d2, d3, d4)[28..36] == Fixed(d4, 8, false)
  {
    Pow16Values();
    var g1, g2, g3 := Fixed(d1, 8, false), Fixed(d2 / 0x1_0000, 4, false), Fixed(d2 % 0x1_0000, 4, false);
    var g4, g5, g6 := Fixed(d3 / 0x1_0000, 4, false), Fixed(d3 % 0x1_0000, 4, false), Fixed(d4, 8, false);
    ValueOfFixed(d1, 8, false);
    ValueOfFixed(d2 / 0x1_0000, 4, false);
    ValueOfFixed(d2 % 0x1_0000, 4, false);
    ValueOfFixed(d3 / 0x1_0000, 4, false);
    ValueOfFixed(d3 % 0x1_0000, 4, false);
    ValueOfFixed(d4, 8, false);
    AllOfCaseConcat(g5, g6, false);
    GroupPositions(g1, g2, g3, g4, g5, g6);
    assert UuidString(d1, d2, d3, d4) == g1 + "-" + g2 + "-" + g3 + "-" + g4 + "-" + g5 + g6;
  }

  /** Parsing the canonical string gives back the four words. */
  lemma UuidRoundTrip(d1: uint32, d2: uint32, d3: uint32, d4: uint32)
    ensures IsUuidLayout(UuidString(d1, d2, d3, d4))
    ensures UuidWords(UuidString(d1, d2, d3, d4)) == (d1, d2, d3, d4)
  {
    UuidStringLayout(d1, d2, d3, d4);
    var s := UuidString(d1, d2, d3, d4);
    var g1, g2, g3 := Fixed(d1, 8, false), Fixed(d2 / 0x1_0000, 4, false), Fixed(d2 % 0x1_0000, 4, false);
    var g4, g5, g6 := Fixed(d3 / 0x1_0000, 4, false), Fixed(d3 % 0x1_0000, 4, false), Fixed(d4, 8, false);
    GroupPositions(g1, g2, g3, g4, g5, g6);
    assert s == g1 + "-" + g2 + "-" + g3 + "-" + g4 + "-" + g5 + g6;
    assert Value(s[0..8]) == d1 by { ValueOfFixed(d1, 8, false); }
    assert Value(s[28..36]) == d4 by { ValueOfFixed(d4, 8, false); }
    assert Value(s[9..13]) * 0x1_0000 + Value(s[14..18]) == d2 by {
      ValueOfFixed(d2 / 0x1_0000, 4, false);
      ValueOfFixed(d2 % 0x1_0000, 4, false);
      Halves(d2);
    }
    assert Value(s[19..23]) * 0x1_0000 + Value(s[24..28]) == d3 by {
      ValueOfFixed(d3 / 0x1_0000, 4, false);
      ValueOfFixed(d3 % 0x1_0000, 4, false);
      Halves(d3);
    }
    var w := UuidWords(s);
    assert w.0 == d1 && w.1 == d2 && w.2 == d3 && w.3 == d4;
  }

  lemma Halves(d: uint32)
    ensures (d / 0x1_0000) * 0x1_0000 + d % 0x1_0000 == d
  {
  }

  /** Distinct word tuples never share a canonical string. */
  lemma UuidStringInjective(a1: uint32, a2: uint32, a3: uint32, a4: uint32,
                            b1: uint32, b2: uint32, b3: uint32, b4: uint32)
    requires UuidString(a1, a2, a3, a4) == UuidString(b1, b2, b3, b4)
    ensures a1 == b1 && a2 == b2 && a3 == b3 && a4 == b4
  {
    UuidRoundTrip(a1, a2, a3, a4);
    UuidRoundTrip(b1, b2, b3, b4);
  }

  /** One interned UUID. Its words and string never change after the
      constructor. */
  class UuidObject {
    const data1: uint32
    const data2: uint32
    const data3: uint32
    const data4: uint32
    const uuidString: string

    ghost predicate Valid() {
      uuidString == UuidString(data1, data2, data3, data4)
    }

    constructor (d1: uint32, d2: uint32, d3: uint32, d4: uint32)
      ensures Valid()
      ensures data1 == d1 && data2 == d2 && data3 == d3 && data4 == d4
    {
      data1, data2, data3, data4 := d1, d2, d3, d4;
      uuidString := UuidString(d1, d2, d3, d4);
    }

    /** The stored canonical string, which is in the RFC 4122 layout. */
    function GetUuidString(): (s: string)
      requires Valid()
      ensures s == UuidString(data1, data2, data3, data4)
      ensures IsUuidLayout(s) && UuidWords(s) == (data1, data2, data3, data4)
    {
      UuidRoundTrip(data1, data2, data3, data4);
      uuidString
    }

    /** Writes the four words, in order, to the caller's buffer. */
    method GetUuid128(dest: array<uint32>)
      requires dest.Length >= 4
      modifies dest
      ensures dest[..4] == [data1, data2, data3, data4]
      ensures dest[4..] == old(dest[4..])
    {
      dest[0] := data1;
      dest[1] := data2;
      dest[2] := data3;
      dest[3] := data4;
    }
  }

  /** The registry: canonical string -> the one object for that UUID. */
  class UuidManager {
    var uuidMap: map<string, UuidObject>

    /** Every object is stored under its own canonical string. */
    ghost predicate Valid()
      reads this
    {
      forall k | k in uuidMap :: uuidMap[k].Valid() && uuidMap[k].uuidString == k
    }

    constructor ()
      ensures Valid() && uuidMap == map[]
    {
      uuidMap := map[];
    }

    /** Lookup-or-insert: the existing object when the UUID was seen before
        (the map is then unchanged), otherwise a new object inserted under
        the new key with every existing entry kept. */
    method GetOrCreateUuidObject(d1: uint32, d2: uint32, d3: uint32, d4: uint32) returns (u: UuidObject)
      requires Valid()
      modifies this
      ensures Valid()
      ensures u.Valid() && u.data1 == d1 && u.data2 == d2 && u.data3 == d3 && u.data4 == d4
      ensures UuidString(d1, d2, d3, d4) in uuidMap && uuidMap[UuidString(d1, d2, d3, d4)] == u
      ensures UuidString(d1, d2, d3, d4) in old(uuidMap) ==>
                u == old(uuidMap)[UuidString(d1, d2, d3, d4)] && uuidMap == old(uuidMap)
      ensures UuidString(d1, d2, d3, d4) !in old(uuidMap) ==>
                fresh(u) && uuidMap == old(uuidMap)[UuidString(d1, d2, d3, d4) := u]
    {
      var uuidStr := UuidString(d1, d2, d3, d4);
      if uuidStr in uuidMap {
        u := uuidMap[uuidStr];
        UuidStringInjective(u.data1, u.data2, u.data3, u.data4, d1, d2, d3, d4);
        return;
      }
      u := new UuidObject(d1, d2, d3, d4);
      uuidMap := uuidMap[uuidStr := u];
    }
  }

  /** In a valid registry no object is stored under two keys, so handles
      for different UUIDs are different objects. */
  lemma RegistryIsInjective(m: UuidManager, k1: string, k2: string)
    requires m.Valid() && k1 in m.uuidMap && k2 in m.uuidMap && k1 != k2
    ensures m.uuidMap[k1] != m.uuidMap[k2]
  {
  }

  /** Interning twice with the same words yields the same object, and the
      registry after both calls is the registry after the first. */
  method InterningIsIdentity(m: UuidManager, a1: uint32, a2: uint32, a3: uint32, a4: uint32)
    returns (u: UuidObject, v: UuidObject)
    requires m.Valid()
    modifies m
    ensures m.Valid()
    ensures u == v
    ensures m.uuidMap == if UuidString(a1, a2, a3, a4) in old(m.uuidMap) then old(m.uuidMap)
                         else old(m.uuidMap)[UuidString(a1, a2, a3, a4) := u]
  {
    u := m.GetOrCreateUuidObject(a1, a2, a3, a4);
    v := m.GetOrCreateUuidObject(a1, a2, a3, a4);
  }

  /** Interning different words yields different objects. */
  method InterningSeparates(m: UuidManager, a1: uint32, a2: uint32, a3: uint32, a4: uint32,
                            b1: uint32, b2: uint32, b3: uint32, b4: uint32)
    returns (u: UuidObject, w: UuidObject)
    requires m.Valid()
    modifies m
    ensures m.Valid()
    ensures (a1, a2, a3, a4) != (b1, b2, b3, b4) ==> u != w
  {
    u := m.GetOrCreateUuidObject(a1, a2, a3, a4);
    w := m.GetOrCreateUuidObject(b1, b2, b3, b4);
  }
}
