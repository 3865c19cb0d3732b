/**
 Octet strings: the bitwise operations, the fixed-width big-endian integers and the
 string conversions that the rest of the model is built on.

 An octet is an integer below 256. A Go string is an octet sequence as well; it is
 modelled as a Dafny string in which every octet is one character.
 */
module Octets {

  type byte = x: int | 0 <= x < 256
  type bytes = seq<byte>

  // ---------------------------------------------------------------- bitwise operations

  function Pow2(k: nat): (r: nat)
    ensures r > 0
  {
    if k == 0 then 1 else 2 * Pow2(k - 1)
  }

  /** Bitwise exclusive or, one bit at a time. */
  function XorBits(a: nat, b: nat): nat
    decreases a + b
  {
    if a == 0 && b == 0 then 0 else (a + b) % 2 + 2 * XorBits(a / 2, b / 2)
  }

  /** Bitwise inclusive or, one bit at a time. */
  function OrBits(a: nat, b: nat): nat
    decreases a + b
  {
    if a == 0 && b == 0 then 0
    else (if a % 2 == 1 || b % 2 == 1 then 1 else 0) + 2 * OrBits(a / 2, b / 2)
  }

  lemma {:induction false} BitsBounded(a: nat, b: nat, k: nat)
    requires a < Pow2(k) && b < Pow2(k)
    ensures XorBits(a, b) < Pow2(k) && OrBits(a, b) < Pow2(k)
    decreases k
  {
    if k != 0 {
      BitsBounded(a / 2, b / 2, k - 1);
    }
  }

  lemma {:induction false} XorBitsStep(a: nat, b: nat)
    ensures XorBits(a, b) % 2 == (a + b) % 2
    ensures XorBits(a, b) / 2 == XorBits(a / 2, b / 2)
  {
    if a != 0 || b != 0 {
      SplitLowBit((a + b) % 2, XorBits(a / 2, b / 2));
    }
  }

  lemma SplitLowBit(bit: nat, rest: nat)
    requires bit < 2
    ensures (bit + 2 * rest) % 2 == bit && (bit + 2 * rest) / 2 == rest
  {
  }

  lemma {:induction false} XorBitsCancels(a: nat, b: nat)
    ensures XorBits(XorBits(a, b), b) == a
    decreases a + b
  {
    if a != 0 || b != 0 {
      var c := XorBits(a, b);
      XorBitsStep(a, b);
      XorBitsStep(c, b);
      XorBitsCancels(a / 2, b / 2);
      ParityCancels(a, b, c);
    }
  }

  lemma ParityCancels(a: nat, b: nat, c: nat)
    requires c % 2 == (a + b) % 2
    ensures (c + b) % 2 == a % 2
  {
  }

  lemma {:induction false} OrBitsZero(a: nat, b: nat)
    ensures OrBits(a, b) == 0 <==> a == 0 && b == 0
    decreases a + b
  {
    if a != 0 || b != 0 {
      OrBitsZero(a / 2, b / 2);
    }
  }

  lemma {:induction false} XorBitsZero(a: nat, b: nat)
    ensures XorBits(a, b) == 0 <==> a == b
    decreases a + b
  {
    if a != 0 || b != 0 {
      XorBitsZero(a / 2, b / 2);
    }
  }

  function Xor(a: byte, b: byte): byte {
    BitsBounded(a, b, 8);
    XorBits(a, b)
  }

  function Or(a: byte, b: byte): byte {
    BitsBounded(a, b, 8);
    OrBits(a, b)
  }

  /** Octet-wise exclusive or of two octet strings of the same length. */
  function XorSeq(a: bytes, b: bytes): (r: bytes)
    requires |a| == |b|
    ensures |r| == |a|
  {
    seq(|a|, i requires 0 <= i < |a| => Xor(a[i], b[i]))
  }

  lemma XorSeqCancels(a: bytes, b: bytes)
    requires |a| == |b|
    ensures XorSeq(XorSeq(a, b), b) == a
  {
    forall i | 0 <= i < |a|
      ensures XorSeq(XorSeq(a, b), b)[i] == a[i]
    {
      XorBitsCancels(a[i], b[i]);
    }
  }

  // ---------------------------------------------------------------- big-endian integers

  function Pow256(k: nat): (r: nat)
    ensures r > 0
  {
    if k == 0 then 1 else 256 * Pow256(k - 1)
  }

  /**
   The low 8k bits of n as k octets, most significant first: Go's PutUint32 and
   PutUint64 (which truncate) and big.Int.FillBytes (whose argument must fit).
   */
  function BigEndian(n: nat, k: nat): (r: bytes)
    ensures |r| == k
  {
    if k == 0 then [] else BigEndian(n / 256, k - 1) + [n % 256]
  }

  /** The integer an octet string denotes, most significant octet first: big.Int.SetBytes. */
  function FromBigEndian(b: bytes): nat {
    if b == [] then 0 else 256 * FromBigEndian(b[..|b| - 1]) + b[|b| - 1]
  }

  /** Writing an integer that fits and reading it back gives the integer. */
  lemma {:induction false} ReadBigEndian(n: nat, k: nat)
    requires n < Pow256(k)
    ensures FromBigEndian(BigEndian(n, k)) == n
  {
    if k != 0 {
      ReadBigEndian(n / 256, k - 1);
      assert BigEndian(n, k)[..k - 1] == BigEndian(n / 256, k - 1);
    }
  }

  /** Reading an octet string and writing it at the same width gives the octet string. */
  lemma {:induction false} WriteBigEndian(b: bytes)
    ensures FromBigEndian(b) < Pow256(|b|)
    ensures BigEndian(FromBigEndian(b), |b|) == b
  {
    if b != [] {
      var front := b[..|b| - 1];
      WriteBigEndian(front);
      assert FromBigEndian(b) / 256 == FromBigEndian(front);
      assert b == front + [b[|b| - 1]];
    }
  }

  /** Octet i of k counts in units of 256^(k-1-i): the most significant octet comes first. */
  lemma {:induction false} NetworkOrder(n: nat, k: nat, i: nat)
    requires i < k
    ensures BigEndian(n, k)[i] == n / Pow256(k - 1 - i) % 256
    decreases k
  {
    if i < k - 1 {
      NetworkOrder(n / 256, k - 1, i);
      DivideTwice(n, Pow256(k - 2 - i));
    }
  }

  lemma DivideTwice(n: nat, m: nat)
    requires m > 0
    ensures n / 256 / m == n / (256 * m)
  {
    var d, r := n / 256 / m, n / 256 % m;
    assert n / 256 == d * m + r;
    assert n == d * m * 256 + (r * 256 + n % 256);
    assert d * m * 256 == d * (256 * m);
    UniqueQuotient(n, d, r * 256 + n % 256, 256 * m);
  }

  lemma UniqueQuotient(x: nat, q: nat, r: nat, n: nat)
    requires r < n && x == q * n + r
    ensures x / n == q
  {
    var d := x / n;
    assert x == d * n + x % n;
    MulMonotone(d, q - 1, n);
    MulMonotone(q, d - 1, n);
  }

  /** The shortest big-endian form: big.Int.Bytes. */
  function MinimalBigEndian(n: nat): (r: bytes)
    ensures r == [] <==> n == 0
  {
    if n == 0 then [] else MinimalBigEndian(n / 256) + [n % 256]
  }

  lemma {:induction false} ReadMinimal(n: nat)
    ensures FromBigEndian(MinimalBigEndian(n)) == n
  {
    if n != 0 {
      ReadMinimal(n / 256);
      var r := MinimalBigEndian(n);
      assert r[..|r| - 1] == MinimalBigEndian(n / 256);
    }
  }

  /** The four-octet and eight-octet encodings are exact below 2^32 and 2^64. */
  lemma BigEndianInjective(m: nat, n: nat, k: nat)
    requires m < Pow256(k) && n < Pow256(k)
    requires BigEndian(m, k) == BigEndian(n, k)
    ensures m == n
  {
    ReadBigEndian(m, k);
    ReadBigEndian(n, k);
  }

  // ---------------------------------------------------------------- strings and octets

  /** Go's []byte(s). */
  function OctetsOf(s: string): (r: bytes)
    ensures |r| == |s|
  {
    seq(|s|, i requires 0 <= i < |s| => s[i] as int % 256)
  }

  /** Go's string(b). */
  function TextOf(b: bytes): (r: string)
    ensures |r| == |b|
  {
    seq(|b|, i requires 0 <= i < |b| => b[i] as char)
  }

  lemma OctetsOfText(b: bytes)
    ensures OctetsOf(TextOf(b)) == b
  {
  }

  /** Each character stands for one octet. */
  predicate IsOctetText(s: string) {
    forall i :: 0 <= i < |s| ==> s[i] as int < 256
  }

  lemma OctetsOfInjective(s: string, t: string)
    requires IsOctetText(s) && IsOctetText(t) && OctetsOf(s) == OctetsOf(t)
    ensures s == t
  {
    forall i | 0 <= i < |s|
      ensures s[i] == t[i]
    {
      assert OctetsOf(s)[i] == OctetsOf(t)[i];
    }
  }

  // ---------------------------------------------------------------- sequences

  function Repeat(x: byte, n: nat): (r: bytes)
    ensures |r| == n
  {
    seq(n, _ => x)
  }

  /** Two concatenations with equal-length heads are equal only part by part. */
  lemma ConcatInjective<T>(a: seq<T>, b: seq<T>, c: seq<T>, d: seq<T>)
    requires |a| == |c|
    requires a + b == c + d
    ensures a == c && b == d
  {
    assert a == (a + b)[..|a|] && c == (c + d)[..|a|];
    assert b == (a + b)[|a|..] && d == (c + d)[|a|..];
  }

  /** A separator that the heads do not contain marks where they end. */
  lemma SeparatorInjective<T>(x: T, a: seq<T>, b: seq<T>, c: seq<T>, d: seq<T>)
    requires x !in a && x !in c
    requires a + [x] + b == c + [x] + d
    ensures a == c && b == d
  {
    var s := a + [x] + b;
    assert forall i :: 0 <= i < |a| ==> s[i] == a[i] != x;
    assert s == c + [x] + d;
    assert forall i :: 0 <= i < |c| ==> s[i] == c[i] != x;
    assert s[|a|] == x && s[|c|] == x;
    ConcatInjective(a + [x], b, c + [x], d);
    ConcatInjective(a, [x], c, [x]);
  }

  // ---------------------------------------------------------------- arrays

  /** Go's copy(dst[at:], src), with room for all of src. */
  method CopyInto(dst: array<byte>, at: nat, src: bytes)
    requires at + |src| <= dst.Length
    modifies dst
    ensures dst[..] == old(dst[..at]) + src + old(dst[at + |src|..])
  {
    forall i | 0 <= i < |src| {
      dst[at + i] := src[i];
    }
  }

  // ---------------------------------------------------------------- counting blocks

  /** The number of blocks of n octets that cover x octets. */
  function BlockCount(x: nat, n: nat): (q: nat)
    requires n > 0
    ensures x <= q * n && (q > 0 ==> (q - 1) * n < x)
  {
    var q := (x + n - 1) / n;
    assert x + n - 1 == q * n + (x + n - 1) % n;
    assert q > 0 ==> (q - 1) * n == q * n - n;
    q
  }

  lemma BlockCountMonotone(x: nat, y: nat, n: nat)
    requires n > 0 && x <= y
    ensures BlockCount(x, n) <= BlockCount(y, n)
  {
    MulMonotone(BlockCount(y, n), BlockCount(x, n) - 1, n);
  }

  lemma MulMonotone(a: int, b: int, n: nat)
    ensures a <= b ==> a * n <= b * n
  {
  }
}
