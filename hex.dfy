/** Fixed-width, zero-padded hexadecimal text, as produced by
    `std::setw(n) << std::setfill('0') << std::hex` (lower case) and by
    `printf("%02X")` (upper case), and read back by `std::stoul(_, 16)`. */
module Hex {

  function Pow16(n: nat): (r: nat)
    ensures r >= 1
  {
    if n == 0 then 1 else 16 * Pow16(n - 1)
  }

  lemma Pow16Values()
    ensures Pow16(2) == 0x100 && Pow16(4) == 0x1_0000 && Pow16(8) == 0x1_0000_0000
  {
  }

  /** A character `std::stoul(_, nullptr, 16)` accepts as a digit. */
  predicate IsHexDigit(c: char) {
    ('0' <= c <= '9') || ('a' <= c <= 'f') || ('A' <= c <= 'F')
  }

  /** A digit as one of the two output cases writes it. */
  predicate IsDigitOfCase(c: char, upper: bool) {
    ('0' <= c <= '9') || (if upper then 'A' <= c <= 'F' else 'a' <= c <= 'f')
  }

  predicate AllOfCase(s: string, upper: bool) {
    forall i | 0 <= i < |s| :: IsDigitOfCase(s[i], upper)
  }

  predicate AllHex(s: string) {
    forall i | 0 <= i < |s| :: IsHexDigit(s[i])
  }

  function DigitValue(c: char): (v: nat)
    requires IsHexDigit(c)
    ensures v < 16
  {
    if '0' <= c <= '9' then c as int - '0' as int
    else if 'a' <= c <= 'f' then c as int - 'a' as int + 10
    else c as int - 'A' as int + 10
  }

  function Digit(d: nat, upper: bool): (c: char)
    requires d < 16
    ensures IsDigitOfCase(c, upper) && IsHexDigit(c) && DigitValue(c) == d
  {
    if d < 10 then ('0' as int + d) as char
    else if upper then ('A' as int + d - 10) as char
    else ('a' as int + d - 10) as char
  }

  lemma DigitOfValue(c: char, upper: bool)
    requires IsDigitOfCase(c, upper)
    ensures IsHexDigit(c) && Digit(DigitValue(c), upper) == c
  {
  }

  /** `v` in exactly `width` digits, most significant first, padded with '0'. */
  function Fixed(v: nat, width: nat, upper: bool): (s: string)
    requires v < Pow16(width)
    ensures |s| == width
    decreases width
  {
    if width == 0 then "" else Fixed(v / 16, width - 1, upper) + [Digit(v % 16, upper)]
  }

  /** The number a string of hex digits denotes. */
  function Value(s: string): (v: nat)
    requires AllHex(s)
    ensures v < Pow16(|s|)
  {
    if s == [] then 0 else Value(s[..|s| - 1]) * 16 + DigitValue(s[|s| - 1])
  }

  /** Reading back what `Fixed` wrote gives the number, and every
      character is a digit of the chosen case. */
  lemma {:induction false} ValueOfFixed(v: nat, width: nat, upper: bool)
    requires v < Pow16(width)
    ensures AllOfCase(Fixed(v, width, upper), upper)
    ensures AllHex(Fixed(v, width, upper))
    ensures Value(Fixed(v, width, upper)) == v
    decreases width
  {
    if width > 0 {
      var s := Fixed(v, width, upper);
      ValueOfFixed(v / 16, width - 1, upper);
      assert s[..width - 1] == Fixed(v / 16, width - 1, upper);
    }
  }

  /** Writing the value of a digit string of one case gives it back. */
  lemma {:induction false} FixedOfValue(s: string, upper: bool)
    requires AllOfCase(s, upper)
    ensures AllHex(s) && Fixed(Value(s), |s|, upper) == s
    decreases |s|
  {
    AllOfCaseIsHex(s, upper);
    if s != [] {
      var init, last := s[..|s| - 1], s[|s| - 1];
      assert AllOfCase(init, upper);
      FixedOfValue(init, upper);
      assert s == init + [last];
      FixedOfValueSnoc(init, last, upper);
    }
  }

  lemma AllOfCaseIsHex(s: string, upper: bool)
    requires AllOfCase(s, upper)
    ensures AllHex(s)
  {
    forall i | 0 <= i < |s| ensures IsHexDigit(s[i]) { DigitOfValue(s[i], upper); }
  }

  /** One more digit of the same case keeps `Fixed` and `Value` inverse. */
  lemma FixedOfValueSnoc(init: string, last: char, upper: bool)
    requires AllHex(init) && IsDigitOfCase(last, upper) && Fixed(Value(init), |init|, upper) == init
    ensures AllHex(init + [last]) && Fixed(Value(init + [last]), |init| + 1, upper) == init + [last]
  {
    var s := init + [last];
    DigitOfValue(last, upper);
    assert s[..|s| - 1] == init && s[|s| - 1] == last;
    assert AllHex(s);
    var q, d := Value(init), DigitValue(last);
    FixedStep(Value(s), q, d, |init|, upper);
  }

  /** Appending a digit to a number appends its character to the text. */
  lemma FixedStep(v: nat, q: nat, d: nat, width: nat, upper: bool)
    requires d < 16 && q < Pow16(width) && v == q * 16 + d
    ensures v < Pow16(width + 1)
    ensures Fixed(v, width + 1, upper) == Fixed(q, width, upper) + [Digit(d, upper)]
  {
    assert v / 16 == q && v % 16 == d;
  }

  /** Fixed-width formatting never confuses two numbers. */
  lemma FixedInjective(a: nat, b: nat, width: nat, upper: bool)
    requires a < Pow16(width) && b < Pow16(width)
    requires Fixed(a, width, upper) == Fixed(b, width, upper)
    ensures a == b
  {
    ValueOfFixed(a, width, upper);
    ValueOfFixed(b, width, upper);
  }
}
