/**
 UTF-8 (section 4 of RFC 3629), and what becomes of a Go string that is marshalled to JSON
 and read back: encoding/json replaces every octet that is not part of a well-formed
 character by U+FFFD.
 */
module Utf8 {
  import opened Octets

  predicate IsTail(x: byte) {
    0x80 <= x <= 0xBF
  }

  /** The second octet of a character is a tail, which some first octets restrict further. */
  predicate IsSecond(first: byte, x: byte) {
    && IsTail(x)
    && (first == 0xE0 ==> 0xA0 <= x)
    && (first == 0xED ==> x <= 0x9F)
    && (first == 0xF0 ==> 0x90 <= x)
    && (first == 0xF4 ==> x <= 0x8F)
  }

  /** The length of the well-formed character that b starts with; 0 if there is none. */
  function CharLen(b: bytes): (n: nat)
    ensures n <= |b|
  {
    if b == [] then 0
    else if b[0] < 0x80 then 1
    else if |b| < 2 || !IsSecond(b[0], b[1]) then 0
    else if 0xC2 <= b[0] <= 0xDF then 2
    else if |b| < 3 || !IsTail(b[2]) then 0
    else if 0xE0 <= b[0] <= 0xEF then 3
    else if |b| < 4 || !IsTail(b[3]) then 0
    else if 0xF0 <= b[0] <= 0xF4 then 4
    else 0
  }

  /** utf8.Valid. */
  predicate Valid(b: bytes) {
    b == [] || (CharLen(b) > 0 && Valid(b[CharLen(b)..]))
  }

  const REPLACEMENT: bytes := [0xEF, 0xBF, 0xBD]

  function Repaired(b: bytes): bytes {
    if b == [] then []
    else if CharLen(b) > 0 then b[..CharLen(b)] + Repaired(b[CharLen(b)..])
    else REPLACEMENT + Repaired(b[1..])
  }

  // ---------------------------------------------------------------- section 3 of RFC 3629

  /** A Unicode scalar value: a code point that is not a surrogate. */
  predicate IsScalar(c: nat) {
    c < 0xD800 || 0xE000 <= c < 0x11_0000
  }

  function Encoded(c: nat): bytes
    requires IsScalar(c)
  {
    if c < 0x80 then [c]
    else if c < 0x800 then [0xC0 + c / 0x40, 0x80 + c % 0x40]
    else if c < 0x1_0000 then [0xE0 + c / 0x1000, 0x80 + c / 0x40 % 0x40, 0x80 + c % 0x40]
    else [0xF0 + c / 0x4_0000, 0x80 + c / 0x1000 % 0x40, 0x80 + c / 0x40 % 0x40, 0x80 + c % 0x40]
  }

  /** The bits of an octet beside its marker. */
  function Bits(x: byte, marker: int): int {
    x as int - marker
  }

  /** The scalar value that the first n octets stand for. */
  function Decoded(b: bytes, n: nat): int
    requires 0 < n <= |b| && n <= 4
  {
    if n == 1 then b[0]
    else if n == 2 then Bits(b[0], 0xC0) * 0x40 + Bits(b[1], 0x80)
    else if n == 3 then Bits(b[0], 0xE0) * 0x1000 + Bits(b[1], 0x80) * 0x40 + Bits(b[2], 0x80)
    else Bits(b[0], 0xF0) * 0x4_0000 + Bits(b[1], 0x80) * 0x1000 + Bits(b[2], 0x80) * 0x40 + Bits(b[3], 0x80)
  }

  /** A well-formed character is the encoding of a scalar value ... */
  lemma CharIsEncoded(b: bytes)
    requires CharLen(b) > 0
    ensures CharLen(b) <= 4
    ensures var c := Decoded(b, CharLen(b)); c >= 0 && IsScalar(c) && Encoded(c) == b[..CharLen(b)]
  {
    if CharLen(b) == 3 {
      ThreeOctets(b);
    } else if CharLen(b) == 4 {
      FourOctets(b);
    } else {
      ShortChar(b);
    }
  }

  lemma ShortChar(b: bytes)
    requires CharLen(b) == 1 || CharLen(b) == 2
    ensures var c := Decoded(b, CharLen(b)); c >= 0 && IsScalar(c) && Encoded(c) == b[..CharLen(b)]
  {
    if CharLen(b) == 2 {
      SixBits(b[0] - 0xC0, b[1] - 0x80);
    }
  }

  lemma ThreeOctets(b: bytes)
    requires CharLen(b) == 3
    ensures var c := Decoded(b, 3); c >= 0 && IsScalar(c) && Encoded(c) == b[..3]
  {
    var high: nat := b[0] - 0xE0;
    SixBits(high, b[1] - 0x80);
    SixBits(high * 0x40 + (b[1] - 0x80), b[2] - 0x80);
    DivideTwice(Decoded(b, 3), 0x40);
  }

  lemma FourOctets(b: bytes)
    requires CharLen(b) == 4
    ensures var c := Decoded(b, 4); c >= 0 && IsScalar(c) && Encoded(c) == b[..4]
  {
    var high: nat := b[0] - 0xF0;
    var upper: nat := high * 0x40 + (b[1] - 0x80);
    SixBits(high, b[1] - 0x80);
    SixBits(upper, b[2] - 0x80);
    SixBits(upper * 0x40 + (b[2] - 0x80), b[3] - 0x80);
    DivideTwice(Decoded(b, 4), 0x40);
    DivideTwice(Decoded(b, 4), 0x1000);
  }

  lemma SixBits(x: nat, y: nat)
    requires y < 0x40
    ensures (x * 0x40 + y) / 0x40 == x && (x * 0x40 + y) % 0x40 == y
  {
  }

  lemma DivideTwice(c: nat, m: nat)
    requires m == 0x40 || m == 0x1000
    ensures c / 0x40 / m == c / (0x40 * m)
  {
  }

  /** ... and every encoding of a scalar value is well-formed, whatever follows it. */
  lemma EncodedIsChar(c: nat, rest: bytes)
    requires IsScalar(c)
    ensures CharLen(Encoded(c) + rest) == |Encoded(c)|
  {
  }

  /** U+FFFD. */
  lemma ReplacementIs()
    ensures REPLACEMENT == Encoded(0xFFFD)
  {
  }

  /** A string after json.Marshal and json.Unmarshal. */
  function JsonText(s: string): string {
    TextOf(Repaired(OctetsOf(s)))
  }

  /** The octets survive exactly when they are valid; otherwise they grow. */
  lemma {:induction false} RepairedIffValid(b: bytes)
    ensures |Repaired(b)| >= |b|
    ensures Repaired(b) == b <==> Valid(b)
    ensures !Valid(b) ==> |Repaired(b)| > |b|
  {
    if b != [] {
      var n := CharLen(b);
      if n > 0 {
        RepairedIffValid(b[n..]);
        assert b == b[..n] + b[n..];
      } else {
        RepairedIffValid(b[1..]);
      }
    }
  }

  lemma {:induction false} AsciiIsValid(b: bytes)
    requires forall i :: 0 <= i < |b| ==> b[i] < 0x80
    ensures Valid(b)
  {
    if b != [] {
      AsciiIsValid(b[1..]);
    }
  }
}
