/**
 The JOSE segment codec of base64.go: base64url (section 5 of RFC 4648) without padding,
 in strict canonical form.
 */
module Base64Url {
  import opened Octets
  import opened Outcomes

  // ---------------------------------------------------------------- the alphabet

  predicate IsDigit(c: char) {
    'A' <= c <= 'Z' || 'a' <= c <= 'z' || '0' <= c <= '9' || c == '-' || c == '_'
  }

  type sextet = x: int | 0 <= x < 64

  function Digit(v: sextet): (c: char)
    ensures IsDigit(c) && DigitValue(c) == v
  {
    if v < 26 then ('A' as int + v) as char
    else if v < 52 then ('a' as int + v - 26) as char
    else if v < 62 then ('0' as int + v - 52) as char
    else if v == 62 then '-'
    else '_'
  }

  function DigitValue(c: char): (v: sextet)
    requires IsDigit(c)
  {
    if 'A' <= c <= 'Z' then c as int - 'A' as int
    else if 'a' <= c <= 'z' then c as int - 'a' as int + 26
    else if '0' <= c <= '9' then c as int - '0' as int + 52
    else if c == '-' then 62
    else 63
  }

  lemma DigitOfValue(c: char)
    requires IsDigit(c)
    ensures Digit(DigitValue(c)) == c
  {
  }

  function Run(first: char, n: nat): (s: string)
    requires first as int + n < 128
    ensures |s| == n
  {
    seq(n, i requires 0 <= i < n => (first as int + i) as char)
  }

  /** The alphabet of table 2 in section 5 of RFC 4648: A-Z, a-z, 0-9, '-' and '_'. */
  const ALPHABET := Run('A', 26) + Run('a', 26) + Run('0', 10) + "-_"

  /** Value v is written as entry v of the table, and no other character is a digit. */
  lemma DigitsAreAlphabet(v: sextet, c: char)
    ensures |ALPHABET| == 64 && Digit(v) == ALPHABET[v]
    ensures IsDigit(c) <==> c in ALPHABET
  {
    if IsDigit(c) {
      assert ALPHABET[DigitValue(c)] == c;
    }
  }

  predicate AllDigits(s: string) {
    forall i :: 0 <= i < |s| ==> IsDigit(s[i])
  }

  function Digits(v: seq<sextet>): (s: string)
    ensures |s| == |v| && AllDigits(s)
  {
    seq(|v|, i requires 0 <= i < |v| => Digit(v[i]))
  }

  function DigitValues(s: string): (v: seq<sextet>)
    requires AllDigits(s)
    ensures |v| == |s|
  {
    seq(|s|, i requires 0 <= i < |s| => DigitValue(s[i]))
  }

  lemma DigitsOfValues(s: string)
    requires AllDigits(s)
    ensures Digits(DigitValues(s)) == s
  {
    forall i | 0 <= i < |s|
      ensures Digits(DigitValues(s))[i] == s[i]
    {
      DigitOfValue(s[i]);
    }
  }

  // ---------------------------------------------------------------- regrouping 8 bits as 6

  function Split3(x: byte, y: byte, z: byte): (v: seq<sextet>)
    ensures |v| == 4
  {
    [x / 4, x % 4 * 16 + y / 16, y % 16 * 4 + z / 64, z % 64]
  }

  function Join4(v0: sextet, v1: sextet, v2: sextet, v3: sextet): (b: bytes)
    ensures |b| == 3
  {
    [v0 * 4 + v1 / 16, v1 % 16 * 16 + v2 / 4, v2 % 4 * 64 + v3]
  }

  function ToSextets(b: bytes): (v: seq<sextet>)
    ensures |v| == (4 * |b| + 2) / 3
  {
    if |b| == 0 then []
    else if |b| == 1 then Split3(b[0], 0, 0)[..2]
    else if |b| == 2 then Split3(b[0], b[1], 0)[..3]
    else Split3(b[0], b[1], b[2]) + ToSextets(b[3..])
  }

  /** Go's strict mode: a lone final digit, or a non-zero unused bit at the end, is refused. */
  function FromSextets(v: seq<sextet>): Option<bytes> {
    if |v| == 0 then Some([])
    else if |v| == 1 then None
    else if |v| == 2 then
      if v[1] % 16 == 0 then Some(Join4(v[0], v[1], 0, 0)[..1]) else None
    else if |v| == 3 then
      if v[2] % 4 == 0 then Some(Join4(v[0], v[1], v[2], 0)[..2]) else None
    else
      match FromSextets(v[4..])
      case None => None
      case Some(rest) => Some(Join4(v[0], v[1], v[2], v[3]) + rest)
  }

  lemma JoinSplit(x: byte, y: byte, z: byte)
    ensures var v := Split3(x, y, z); Join4(v[0], v[1], v[2], v[3]) == [x, y, z]
  {
  }

  lemma SplitJoin(v0: sextet, v1: sextet, v2: sextet, v3: sextet)
    ensures var b := Join4(v0, v1, v2, v3); Split3(b[0], b[1], b[2]) == [v0, v1, v2, v3]
  {
    var b := Join4(v0, v1, v2, v3);
    assert b[0] / 4 == v0 && b[0] % 4 == v1 / 16 by { HighLow4(v0, v1 / 16); }
    assert b[1] / 16 == v1 % 16 && b[1] % 16 == v2 / 4 by { HighLow16(v1 % 16, v2 / 4); }
    assert b[2] / 64 == v2 % 4 && b[2] % 64 == v3 by { HighLow64(v2 % 4, v3); }
  }

  lemma HighLow4(q: nat, r: nat)
    requires r < 4
    ensures (q * 4 + r) / 4 == q && (q * 4 + r) % 4 == r
  {
  }

  lemma HighLow16(q: nat, r: nat)
    requires r < 16
    ensures (q * 16 + r) / 16 == q && (q * 16 + r) % 16 == r
  {
  }

  lemma HighLow64(q: nat, r: nat)
    requires r < 64
    ensures (q * 64 + r) / 64 == q && (q * 64 + r) % 64 == r
  {
  }

  /** Four sextets carry the same 24 bits as the three octets they regroup. */
  lemma SplitKeepsBits(x: byte, y: byte, z: byte)
    ensures var v: seq<int> := Split3(x, y, z);
            v[0] * 0x4_0000 + v[1] * 0x1000 + v[2] * 0x40 + v[3] == x as int * 0x1_0000 + y as int * 0x100 + z
  {
  }

  /** Whole groups are regrouped on their own, so the groups stand in order. */
  lemma {:induction false} GroupsInOrder(a: bytes, b: bytes)
    requires |a| % 3 == 0
    ensures ToSextets(a + b) == ToSextets(a) + ToSextets(b)
    decreases |a|
  {
    hide Split3;
    if a == [] {
      assert a + b == b && ToSextets(a) == [];
    } else {
      GroupsInOrder(a[3..], b);
      var head := Split3(a[0], a[1], a[2]);
      assert (a + b)[3..] == a[3..] + b;
      assert ToSextets(a + b) == head + ToSextets(a[3..] + b);
      assert ToSextets(a) == head + ToSextets(a[3..]);
    }
  }

  lemma {:induction false} FromToSextets(b: bytes)
    ensures FromSextets(ToSextets(b)) == Some(b)
  {
    if |b| == 1 {
      JoinSplit(b[0], 0, 0);
      var v := Split3(b[0], 0, 0);
      assert v[1] % 16 == 0 by { HighLow16(b[0] % 4, 0); }
      assert Join4(v[0], v[1], 0, 0)[..1] == b;
    } else if |b| == 2 {
      JoinSplit(b[0], b[1], 0);
      var v := Split3(b[0], b[1], 0);
      assert v[2] % 4 == 0 by { HighLow4(b[1] % 16, 0); }
      assert Join4(v[0], v[1], v[2], 0)[..2] == b;
    } else if |b| >= 3 {
      JoinSplit(b[0], b[1], b[2]);
      assert ToSextets(b)[4..] == ToSextets(b[3..]);
      FromToSextets(b[3..]);
      assert b == [b[0], b[1], b[2]] + b[3..];
    }
  }

  lemma {:induction false} ToFromSextets(v: seq<sextet>)
    requires FromSextets(v).Some?
    ensures ToSextets(FromSextets(v).value) == v
  {
    if |v| == 2 {
      SplitJoin(v[0], v[1], 0, 0);
    } else if |v| == 3 {
      SplitJoin(v[0], v[1], v[2], 0);
    } else if |v| >= 4 {
      var head, rest := Join4(v[0], v[1], v[2], v[3]), FromSextets(v[4..]).value;
      SplitJoin(v[0], v[1], v[2], v[3]);
      assert (head + rest)[3..] == rest;
      ToFromSextets(v[4..]);
      assert v == [v[0], v[1], v[2], v[3]] + v[4..];
    }
  }

  // ---------------------------------------------------------------- the segment codec

  function EncodeSegment(b: bytes): (s: string)
    ensures AllDigits(s)
    ensures |s| == (4 * |b| + 2) / 3
  {
    Digits(ToSextets(b))
  }

  function DecodeSegment(s: string): Result<bytes> {
    if AllDigits(s) then OrElse(FromSextets(DigitValues(s)), Malformed) else Err(Malformed)
  }

  /** DecodeSegment's scan: it stops at the first character outside the alphabet. */
  method DecodeSegmentScan(seg: string) returns (r: Result<bytes>, offset: Option<nat>)
    ensures r == DecodeSegment(seg)
    ensures offset.Some? <==> !AllDigits(seg)
    ensures offset.Some? ==>
              && offset.value < |seg|
              && !IsDigit(seg[offset.value])
              && AllDigits(seg[..offset.value])
  {
    var i := 0;
    while i < |seg|
      invariant 0 <= i <= |seg|
      invariant AllDigits(seg[..i])
    {
      var c := seg[i];
      if !IsDigit(c) {
        return Err(Malformed), Some(i);
      }
      i := i + 1;
    }
    assert seg[..i] == seg;
    return OrElse(FromSextets(DigitValues(seg)), Malformed), None;
  }

  /** A segment decodes to b exactly when it is the encoding of b: one spelling per value. */
  lemma SegmentBijection(s: string, b: bytes)
    ensures DecodeSegment(s) == Ok(b) <==> s == EncodeSegment(b)
  {
    if s == EncodeSegment(b) {
      assert DigitValues(s) == ToSextets(b);
      FromToSextets(b);
    }
    if DecodeSegment(s) == Ok(b) {
      ToFromSextets(DigitValues(s));
      DigitsOfValues(s);
    }
  }

  lemma DecodeEncoded(b: bytes)
    ensures DecodeSegment(EncodeSegment(b)) == Ok(b)
  {
    SegmentBijection(EncodeSegment(b), b);
  }

  /** Only the empty segment decodes to no octets. */
  lemma OnlyEmptyDecodesToNothing(s: string)
    requires DecodeSegment(s) == Ok([])
    ensures s == ""
  {
    SegmentBijection(s, []);
  }

  /** An accepted segment contains no '.', and its characters are octets. */
  lemma AcceptedSegmentShape(s: string)
    requires DecodeSegment(s).Ok?
    ensures AllDigits(s) && '.' !in s && IsOctetText(s)
  {
  }

  /** The encoding of a non-empty octet string never spells those octets themselves. */
  lemma EncodingIsLonger(b: bytes)
    requires b != []
    ensures |EncodeSegment(b)| > |b|
    ensures EncodeSegment(b) != TextOf(b)
  {
  }
}
