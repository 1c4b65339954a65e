/** The 48-bit Bluetooth address codec of the host interface
    (UnityInterface.cpp): a `uint64` is written as `XX:XX:XX:XX:XX:XX` with
    `%02X`, most significant octet first, and read back by the loop
    `addr = (addr << 8) | stoul(substr(3i, 2), 16)` for `i = 0..5`. */
module AddressCodec {
  import opened Ints
  import opened Hex

  function Pow256(n: nat): (r: nat)
    ensures r >= 1
  {
    if n == 0 then 1 else 0x100 * Pow256(n - 1)
  }

  lemma Pow256Values()
    ensures Pow256(1) == 0x100 && Pow256(2) == 0x1_0000 && Pow256(3) == 0x100_0000
    ensures Pow256(4) == 0x1_0000_0000 && Pow256(5) == 0x100_0000_0000
    ensures Pow256(6) == 0x1_0000_0000_0000
  {
  }

  /** `(addr >> (40 - 8i)) & 0xFF`, octet `i` counted from the most
      significant of the low 48 bits. */
  function Octet(addr: uint64, i: nat): (o: byte)
    requires i < 6
  {
    (addr / Pow256(5 - i)) % 0x100
  }

  /** The six octets `snprintf` prints. */
  function Octets(addr: uint64): (os: seq<int>)
    ensures |os| == 6
  {
    [Octet(addr, 0), Octet(addr, 1), Octet(addr, 2), Octet(addr, 3), Octet(addr, 4), Octet(addr, 5)]
  }

  /** `snprintf(buf, 18, "%02X:%02X:%02X:%02X:%02X:%02X", ...)`. */
  function EncodeAddress(addr: uint64): (s: string)
    ensures |s| == 17
  {
    Pow16Values();
    Fixed(Octet(addr, 0), 2, true) + ":" + Fixed(Octet(addr, 1), 2, true) + ":" +
    Fixed(Octet(addr, 2), 2, true) + ":" + Fixed(Octet(addr, 3), 2, true) + ":" +
    Fixed(Octet(addr, 4), 2, true) + ":" + Fixed(Octet(addr, 5), 2, true)
  }

  /** `substr(3i, 2)`. */
  function Group(s: string, i: nat): string
    requires 3 * i + 2 <= |s|
  {
    s[3 * i..3 * i + 2]
  }

  /** What the decode loop reads: six two-digit hex groups at offsets
      0, 3, ..., 15 (either case; the characters between are skipped). */
  predicate IsDecodable(s: string) {
    |s| >= 17 && forall i | 0 <= i < 6 :: AllHex(Group(s, i))
  }

  /** The text `EncodeAddress` writes: 17 characters, six upper-case
      two-digit groups, ':' between them. */
  predicate IsAddressLayout(s: string) {
    |s| == 17 && s[2] == ':' && s[5] == ':' && s[8] == ':' && s[11] == ':' && s[14] == ':' &&
    forall i | 0 <= i < 6 :: AllOfCase(Group(s, i), true)
  }

  /** The six group values, most significant first. */
  function GroupValues(s: string): (vs: seq<int>)
    requires IsDecodable(s)
    ensures |vs| == 6
  {
    seq(6, i requires 0 <= i < 6 => Value(Group(s, i)))
  }

  /** A base-256 numeral, most significant digit first. */
  function Num(ds: seq<int>): int {
    if |ds| == 0 then 0 else Num(ds[..|ds| - 1]) * 0x100 + ds[|ds| - 1]
  }

  predicate AreOctets(ds: seq<int>) {
    forall i | 0 <= i < |ds| :: 0 <= ds[i] < 0x100
  }

  /** The address a decodable string denotes. */
  function AddressValue(s: string): int
    requires IsDecodable(s)
  {
    Num(GroupValues(s))
  }

  lemma GroupValuesAreOctets(s: string)
    requires IsDecodable(s)
    ensures AreOctets(GroupValues(s))
  {
    Pow16Values();
    forall i | 0 <= i < 6 ensures 0 <= GroupValues(s)[i] < 0x100 {
      assert |Group(s, i)| == 2;
    }
  }

  lemma {:induction false} NumBound(ds: seq<int>)
    requires AreOctets(ds)
    ensures 0 <= Num(ds) < Pow256(|ds|)
  {
    if |ds| > 0 {
      NumBound(ds[..|ds| - 1]);
    }
  }

  lemma {:induction false} NumAppend(a: seq<int>, b: seq<int>)
    ensures Num(a + b) == Num(a) * Pow256(|b|) + Num(b)
    decreases |b|
  {
    if |b| > 0 {
      var b', last := b[..|b| - 1], b[|b| - 1];
      assert (a + b)[..|a + b| - 1] == a + b';
      assert (a + b)[|a + b| - 1] == last;
      NumAppend(a, b');
      var x, y, p := Num(a), Num(b'), Pow256(|b'|);
      assert Num(a + b) == (x * p + y) * 0x100 + last;
      assert (x * p + y) * 0x100 + last == x * (0x100 * p) + (y * 0x100 + last);
    } else {
      assert a + b == a;
    }
  }

  /** Euclidean division is determined by quotient and remainder. */
  lemma DivModUnique(x: int, d: int, t: int, r: int)
    requires d > 0 && 0 <= r < d && x == d * t + r
    ensures x / d == t && x % d == r
  {
    var q, m := x / d, x % d;
    assert d * (q - t) == r - m;
    MultipleInsideIsZero(d, q - t);
  }

  lemma MultipleInsideIsZero(d: int, k: int)
    requires d > 0 && -d < d * k < d
    ensures k == 0
  {
  }

  lemma DivDiv(a: nat, b: nat, c: nat)
    requires b > 0 && c > 0
    ensures a / (b * c) == a / b / c
  {
    var q, r := a / b, a % b;
    var t, u := q / c, q % c;
    assert a == b * q + r;
    assert q == c * t + u;
    MulRegroup(b, c, t, u);
    MulStep(b, u, c);
    DivModUnique(a, b * c, t, b * u + r);
  }

  lemma MulRegroup(b: int, c: int, t: int, u: int)
    ensures b * (c * t + u) == (b * c) * t + b * u
  {
  }

  /** `u < c` gives `b * u + b <= b * c`, so a remainder below `b` fits. */
  lemma MulStep(b: nat, u: nat, c: nat)
    requires u < c
    ensures b * u + b <= b * c
  {
    var e: nat := c - u - 1;
    assert b * c == b * u + b + b * e;
    assert b * e >= 0;
  }

  lemma ModMulSplit(x: nat, m: nat)
    requires m > 0
    ensures (x / 0x100 % m) * 0x100 + x % 0x100 == x % (m * 0x100)
  {
    var q, r := x / 0x100, x % 0x100;
    var t, u := q / m, q % m;
    assert x == 0x100 * q + r;
    assert q == m * t + u;
    assert x == (m * 0x100) * t + (u * 0x100 + r);
    assert u * 0x100 + r < m * 0x100;
    DivModUnique(x, m * 0x100, t, u * 0x100 + r);
  }

  /** The first `k` octets read as a numeral are the top `8k` bits of the
      low 48. */
  lemma {:induction false} OctetPrefix(addr: uint64, k: nat)
    requires k <= 6
    ensures Num(Octets(addr)[..k]) == (addr / Pow256(6 - k)) % Pow256(k)
  {
    if k > 0 {
      OctetPrefix(addr, k - 1);
      var os := Octets(addr);
      assert os[..k][..k - 1] == os[..k - 1];
      var x := addr / Pow256(6 - k);
      assert Pow256(7 - k) == Pow256(6 - k) * 0x100;
      DivDiv(addr, Pow256(6 - k), 0x100);
      assert Pow256(k) == Pow256(k - 1) * 0x100;
      ModMulSplit(x, Pow256(k - 1));
    }
  }

  /** Splitting a numeral of octets after digit `i`. */
  lemma NumSplit(ds: seq<int>, i: nat)
    requires AreOctets(ds) && i < |ds|
    ensures Num(ds) == Num(ds[..i + 1]) * Pow256(|ds| - 1 - i) + Num(ds[i + 1..])
    ensures 0 <= Num(ds[i + 1..]) < Pow256(|ds| - 1 - i)
    ensures Num(ds[..i + 1]) == Num(ds[..i]) * 0x100 + ds[i]
  {
    var head, tail := ds[..i + 1], ds[i + 1..];
    assert ds == head + tail;
    NumAppend(head, tail);
    assert AreOctets(tail);
    NumBound(tail);
    assert head[..i] == ds[..i];
  }

  /** Digit extraction, on numbers. */
  lemma DigitOf(n: int, k: int, head: int, tail: int, init: int, d: int)
    requires k > 0 && 0 <= tail < k && n == head * k + tail
    requires 0 <= d < 0x100 && head == init * 0x100 + d
    ensures (n / k) % 0x100 == d
  {
    assert n == k * head + tail;
    DivModUnique(n, k, head, tail);
    assert head == 0x100 * init + d;
    DivModUnique(head, 0x100, init, d);
  }

  /** Octet `i` of a numeral of octets is its digit `i`. */
  lemma NumDigit(ds: seq<int>, i: nat)
    requires AreOctets(ds) && i < |ds|
    ensures (Num(ds) / Pow256(|ds| - 1 - i)) % 0x100 == ds[i]
  {
    NumSplit(ds, i);
    DigitOf(Num(ds), Pow256(|ds| - 1 - i), Num(ds[..i + 1]), Num(ds[i + 1..]), Num(ds[..i]), ds[i]);
  }

  /** Where the six groups and five separators of a joined address sit. */
  lemma JoinedGroups(g0: string, g1: string, g2: string, g3: string, g4: string, g5: string)
    requires |g0| == 2 && |g1| == 2 && |g2| == 2 && |g3| == 2 && |g4| == 2 && |g5| == 2
    ensures var s := g0 + ":" + g1 + ":" + g2 + ":" + g3 + ":" + g4 + ":" + g5;
      |s| == 17 && s[2] == ':' && s[5] == ':' && s[8] == ':' && s[11] == ':' && s[14] == ':' &&
      Group(s, 0) == g0 && Group(s, 1) == g1 && Group(s, 2) == g2 &&
      Group(s, 3) == g3 && Group(s, 4) == g4 && Group(s, 5) == g5
  {
  }

  /** The encoded text is the six padded octets joined by ':'. */
  lemma EncodeGroups(addr: uint64)
    ensures var s := EncodeAddress(addr);
      s[2] == ':' && s[5] == ':' && s[8] == ':' && s[11] == ':' && s[14] == ':' &&
      Pow16(2) == 0x100 &&
      Group(s, 0) == Fixed(Octet(addr, 0), 2, true) && Group(s, 1) == Fixed(Octet(addr, 1), 2, true) &&
      Group(s, 2) == Fixed(Octet(addr, 2), 2, true) && Group(s, 3) == Fixed(Octet(addr, 3), 2, true) &&
      Group(s, 4) == Fixed(Octet(addr, 4), 2, true) && Group(s, 5) == Fixed(Octet(addr, 5), 2, true)
  {
    Pow16Values();
    var s := EncodeAddress(addr);
    var g0, g1, g2 := Fixed(Octet(addr, 0), 2, true), Fixed(Octet(addr, 1), 2, true), Fixed(Octet(addr, 2), 2, true);
    var g3, g4, g5 := Fixed(Octet(addr, 3), 2, true), Fixed(Octet(addr, 4), 2, true), Fixed(Octet(addr, 5), 2, true);
    JoinedGroups(g0, g1, g2, g3, g4, g5);
    assert s == g0 + ":" + g1 + ":" + g2 + ":" + g3 + ":" + g4 + ":" + g5;
  }

  /** The encoded text has the address layout, and its groups hold the
      six octets. */
  lemma EncodeLayout(addr: uint64)
    ensures IsAddressLayout(EncodeAddress(addr))
    ensures IsDecodable(EncodeAddress(addr))
    ensures GroupValues(EncodeAddress(addr)) == Octets(addr)
  {
    Pow16Values();
    var s := EncodeAddress(addr);
    EncodeGroups(addr);
    forall i | 0 <= i < 6
      ensures AllOfCase(Group(s, i), true) && AllHex(Group(s, i)) && Value(Group(s, i)) == Octet(addr, i)
    {
      assert Group(s, i) == Fixed(Octet(addr, i), 2, true) by {
        if i == 0 {} else if i == 1 {} else if i == 2 {} else if i == 3 {} else if i == 4 {}
      }
      ValueOfFixed(Octet(addr, i), 2, true);
    }
    assert GroupValues(s) == Octets(addr);
  }

  /** Decoding what was encoded gives the low 48 bits of the address. */
  lemma DecodeEncode(addr: uint64)
    ensures IsDecodable(EncodeAddress(addr))
    ensures AddressValue(EncodeAddress(addr)) == addr % 0x1_0000_0000_0000
  {
    var s := EncodeAddress(addr);
    var os := Octets(addr);
    EncodeLayout(addr);
    assert GroupValues(s) == os;
    assert os[..6] == os;
    assert Num(os) == (addr / Pow256(0)) % Pow256(6) by { OctetPrefix(addr, 6); }
    assert Pow256(0) == 1 && Pow256(6) == 0x1_0000_0000_0000 by { Pow256Values(); }
    assert addr / 1 == addr;
    assert Num(os) == addr % 0x1_0000_0000_0000;
    assert AddressValue(s) == Num(os);
  }

  /** A 17-character text is its six groups joined by its separators. */
  lemma RejoinGroups(s: string)
    requires IsAddressLayout(s)
    ensures s == Group(s, 0) + ":" + Group(s, 1) + ":" + Group(s, 2) + ":" +
                 Group(s, 3) + ":" + Group(s, 4) + ":" + Group(s, 5)
  {
    var t := Group(s, 0) + ":" + Group(s, 1) + ":" + Group(s, 2) + ":" + Group(s, 3) + ":" + Group(s, 4) + ":" + Group(s, 5);
    JoinedGroups(Group(s, 0), Group(s, 1), Group(s, 2), Group(s, 3), Group(s, 4), Group(s, 5));
    forall j | 0 <= j < 17 ensures t[j] == s[j] {
      if j % 3 < 2 {
        assert t[j] == Group(t, j / 3)[j % 3] && s[j] == Group(s, j / 3)[j % 3];
      }
    }
  }

  /** The octets of a decoded address are the group values. */
  lemma OctetsOfValue(s: string)
    requires IsDecodable(s)
    ensures 0 <= AddressValue(s) < 0x1_0000_0000_0000
    ensures Octets(AddressValue(s)) == GroupValues(s)
  {
    Pow256Values();
    var vs := GroupValues(s);
    GroupValuesAreOctets(s);
    NumBound(vs);
    var v: uint64 := Num(vs);
    forall i | 0 <= i < 6 ensures Octet(v, i) == vs[i] {
      NumDigit(vs, i);
    }
  }

  /** Encoding what was decoded gives back every well-formed address text. */
  lemma EncodeDecode(s: string)
    requires IsAddressLayout(s)
    ensures IsDecodable(s)
    ensures 0 <= AddressValue(s) < 0x1_0000_0000_0000
    ensures EncodeAddress(AddressValue(s)) == s
  {
    Pow16Values();
    forall i | 0 <= i < 6 ensures AllHex(Group(s, i)) && Fixed(Value(Group(s, i)), 2, true) == Group(s, i) {
      FixedOfValue(Group(s, i), true);
    }
    OctetsOfValue(s);
    var v: uint64 := AddressValue(s);
    forall i | 0 <= i < 6 ensures Fixed(Octet(v, i), 2, true) == Group(s, i) {
      assert Octet(v, i) == Octets(v)[i] == GroupValues(s)[i];
    }
    RejoinGroups(s);
  }

  /** Addresses that differ in their low 48 bits never share a text, and
      the bits above 48 are not printed. */
  lemma EncodeInjective(a: uint64, b: uint64)
    ensures EncodeAddress(a) == EncodeAddress(b) <==> a % 0x1_0000_0000_0000 == b % 0x1_0000_0000_0000
  {
    DecodeEncode(a);
    DecodeEncode(b);
    var a48: uint64, b48: uint64 := a % 0x1_0000_0000_0000, b % 0x1_0000_0000_0000;
    if a48 == b48 {
      EncodeLayout(a);
      EncodeLayout(b);
      EncodeDecode(EncodeAddress(a));
      EncodeDecode(EncodeAddress(b));
    }
  }

  /** Encoded addresses hold only hex digits and ':'. */
  lemma NoUnderscore(a: uint64)
    ensures '_' !in EncodeAddress(a)
  {
    Pow16Values();
    forall i | 0 <= i < 6 ensures '_' !in Fixed(Octet(a, i), 2, true) {
      ValueOfFixed(Octet(a, i), 2, true);
    }
  }

  /** The low byte of `x << 8` is zero, so or-ing in a value below 0x100
      adds it. */
  lemma ShiftClearsLowByte(x: uint64)
    ensures ShiftLeft8(x) % 0x100 == 0
  {
    var y := x * 0x100;
    var q := y / 0x1_0000_0000_0000_0000;
    assert y % 0x1_0000_0000_0000_0000 == y - 0x1_0000_0000_0000_0000 * q;
    assert y - 0x1_0000_0000_0000_0000 * q == 0x100 * (x - 0x100_0000_0000_0000 * q);
  }

  /** The decode loop. */
  method DecodeAddress(s: string) returns (addr: uint64)
    requires IsDecodable(s)
    ensures addr == AddressValue(s)
  {
    ghost var vs := GroupValues(s);
    GroupValuesAreOctets(s);
    Pow16Values();
    Pow256Values();
    addr := 0;
    var i := 0;
    while i < 6
      invariant 0 <= i <= 6
      invariant addr == Num(vs[..i])
      invariant addr < Pow256(i)
    {
      assert s[i * 3..i * 3 + 2] == Group(s, i) && AllHex(Group(s, i));
      var part := Value(s[i * 3..i * 3 + 2]);
      assert vs[..i + 1][..i] == vs[..i];
      assert Pow256(i) <= 0x100_0000_0000;
      ShiftClearsLowByte(addr);
      addr := ShiftLeft8(addr) + part;
      assert addr < Pow256(i + 1);
      i := i + 1;
    }
    assert vs[..6] == vs;
  }
}
