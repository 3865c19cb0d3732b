/** PBKDF2 (section 5.2 of RFC 8018), as pbkdf2.go computes it with reused buffers. */
module Pbkdf2 {
  import opened Octets
  import opened Outcomes
  import opened Keys
  import opened Primitives

  const DEFAULT_COUNT := 100000
  const MIN_COUNT := 1000
  const MAX_COUNT := 1000000
  const MAX_SALT_INPUT := 1024

  /** The inputs that stay fixed through one derivation. */
  datatype Params = Params(p: Primitives, h: HashAlg, password: bytes, salt: bytes)

  /** U_k of block i: the PRF applied k times, first to salt || INT(i). */
  function U(c: Params, i: nat, k: nat): (u: bytes)
    requires c.p.Sized() && k > 0
    ensures |u| == HashLen(c.h)
  {
    c.p.hmac(c.h, c.password, if k == 1 then c.salt + BigEndian(i, 4) else U(c, i, k - 1))
  }

  /** U_1 xor ... xor U_k of block i. */
  function T(c: Params, i: nat, k: nat): (t: bytes)
    requires c.p.Sized() && k > 0
    ensures |t| == HashLen(c.h)
  {
    if k == 1 then U(c, i, 1) else XorSeq(T(c, i, k - 1), U(c, i, k))
  }

  /** T_1 || ... || T_n. */
  function Blocks(c: Params, iterations: nat, n: nat): (b: bytes)
    requires c.p.Sized() && iterations > 0
    ensures |b| == n * HashLen(c.h)
  {
    if n == 0 then [] else
      assert n * HashLen(c.h) == (n - 1) * HashLen(c.h) + HashLen(c.h);
      Blocks(c, iterations, n - 1) + T(c, n, iterations)
  }

  function Derive(c: Params, iterations: int, keyLen: int): (r: Result<bytes>)
    requires c.p.Sized()
    ensures r.Ok? <==> iterations > 0 && keyLen > 0
    ensures r.Ok? ==> |r.value| == keyLen
  {
    if iterations <= 0 then Err(IterationCount)
    else if keyLen <= 0 then Err(InvalidKey)
    else Ok(Blocks(c, iterations, BlockCount(keyLen, HashLen(c.h)))[..keyLen])
  }

  // ---------------------------------------------------------------- section 5.2 of RFC 8018, in the PRF alone

  /** The PRF applied k times. */
  function Iterated(c: Params, m: bytes, k: nat): bytes
    decreases k
  {
    if k == 0 then m else Iterated(c, c.p.hmac(c.h, c.password, m), k - 1)
  }

  lemma {:induction false} IteratedOnce(c: Params, m: bytes, k: nat)
    ensures Iterated(c, m, k + 1) == c.p.hmac(c.h, c.password, Iterated(c, m, k))
    decreases k
  {
    if k > 0 {
      IteratedOnce(c, c.p.hmac(c.h, c.password, m), k - 1);
    }
  }

  /** U_k is the k-fold PRF of the salt and the index of the block. */
  lemma {:induction false} UIsIterated(c: Params, i: nat, k: nat)
    requires c.p.Sized() && k > 0
    ensures U(c, i, k) == Iterated(c, c.salt + BigEndian(i, 4), k)
  {
    if k > 1 {
      UIsIterated(c, i, k - 1);
      IteratedOnce(c, c.salt + BigEndian(i, 4), k - 1);
    } else {
      assert Iterated(c, c.p.hmac(c.h, c.password, c.salt + BigEndian(i, 4)), 0) == U(c, i, 1);
    }
  }

  /** The exclusive or of octet j of U_1 ... U_k. */
  function XorOfOctet(us: seq<bytes>, j: nat): byte
    requires us != [] && forall i :: 0 <= i < |us| ==> j < |us[i]|
  {
    if |us| == 1 then us[0][j] else Xor(XorOfOctet(us[..|us| - 1], j), us[|us| - 1][j])
  }

  function AllU(c: Params, i: nat, k: nat): (us: seq<bytes>)
    requires c.p.Sized()
    ensures |us| == k && forall x :: 0 <= x < k ==> |us[x]| == HashLen(c.h)
  {
    seq(k, x requires 0 <= x < k => U(c, i, x + 1))
  }

  lemma {:induction false} TIsXor(c: Params, i: nat, k: nat, j: nat)
    requires c.p.Sized() && k > 0 && j < HashLen(c.h)
    ensures T(c, i, k)[j] == XorOfOctet(AllU(c, i, k), j)
  {
    hide Xor, U;
    if k > 1 {
      TIsXor(c, i, k - 1, j);
      assert AllU(c, i, k)[..k - 1] == AllU(c, i, k - 1);
    }
  }

  /** Block i of the derived octets is T_i. */
  lemma {:induction false} BlockAt(c: Params, iterations: nat, n: nat, i: nat)
    requires c.p.Sized() && iterations > 0 && 0 < i <= n
    ensures i * HashLen(c.h) <= n * HashLen(c.h) && (i - 1) * HashLen(c.h) + HashLen(c.h) == i * HashLen(c.h)
    ensures Blocks(c, iterations, n)[(i - 1) * HashLen(c.h)..i * HashLen(c.h)] == T(c, i, iterations)
    decreases n
  {
    hide T;
    var h := HashLen(c.h);
    MulMonotone(i, n, h);
    assert (i - 1) * h + h == i * h;
    if i < n {
      BlockAt(c, iterations, n - 1, i);
      MulMonotone(i, n - 1, h);
      var front := Blocks(c, iterations, n - 1);
      assert Blocks(c, iterations, n)[(i - 1) * h..i * h] == front[(i - 1) * h..i * h];
    }
  }

  /** A key that fits one hash is the front of the exclusive or of the PRF's first iterations. */
  lemma ShortKeyIsXor(c: Params, iterations: nat, keyLen: nat, j: nat)
    requires c.p.Sized() && iterations > 0 && 0 < keyLen <= HashLen(c.h) && j < keyLen
    ensures var us := AllU(c, 1, iterations);
            && (forall k :: 0 <= k < iterations ==> us[k] == Iterated(c, c.salt + [0, 0, 0, 1], k + 1))
            && Derive(c, iterations, keyLen).Ok?
            && Derive(c, iterations, keyLen).value[j] == XorOfOctet(us, j)
  {
    hide T, XorOfOctet;
    assert BigEndian(1, 4) == [0, 0, 0, 1] by {
      assert BigEndian(0, 3) == [0, 0, 0];
    }
    var us := AllU(c, 1, iterations);
    forall k | 0 <= k < |us|
      ensures us[k] == Iterated(c, c.salt + [0, 0, 0, 1], k + 1)
    {
      UIsIterated(c, 1, k + 1);
    }
    assert BlockCount(keyLen, HashLen(c.h)) == 1;
    BlockAt(c, iterations, 1, 1);
    TIsXor(c, 1, iterations, j);
  }

  lemma {:induction false} BlocksPrefix(c: Params, iterations: nat, m: nat, n: nat)
    requires c.p.Sized() && iterations > 0 && m <= n
    ensures Blocks(c, iterations, m) <= Blocks(c, iterations, n)
    decreases n
  {
    if m < n {
      BlocksPrefix(c, iterations, m, n - 1);
    }
  }

  /** A shorter request with the same inputs is a prefix of a longer one. */
  lemma ShorterIsPrefix(c: Params, iterations: int, short: int, long: int)
    requires c.p.Sized() && iterations > 0 && 0 < short <= long
    ensures Derive(c, iterations, short).value == Derive(c, iterations, long).value[..short]
  {
    var hLen := HashLen(c.h);
    BlockCountMonotone(short, long, hLen);
    BlocksPrefix(c, iterations, BlockCount(short, hLen), BlockCount(long, hLen));
  }

  /** Within the bound of the RFC, every block index is encoded exactly. */
  lemma BlockIndexExact(keyLen: nat, hLen: nat, i: nat)
    requires hLen > 0 && keyLen <= 0xFFFF_FFFF * hLen && i <= BlockCount(keyLen, hLen)
    ensures FromBigEndian(BigEndian(i, 4)) == i
  {
    MulMonotone(0xFFFF_FFFF, BlockCount(keyLen, hLen) - 1, hLen);
    assert Pow256(4) == 0x1_0000_0000;
    ReadBigEndian(i, 4);
  }

  /** A keyed HMAC state; `sums` counts the PRF evaluations. */
  class Mac {
    const p: Primitives
    const h: HashAlg
    const key: bytes
    var data: bytes
    ghost var sums: nat

    constructor (p: Primitives, h: HashAlg, key: bytes)
      ensures this.p == p && this.h == h && this.key == key && data == [] && sums == 0
    {
      this.p, this.h, this.key, data, sums := p, h, key, [], 0;
    }

    method Reset()
      modifies this`data
      ensures data == []
    {
      data := [];
    }

    method Write(b: bytes)
      modifies this`data
      ensures data == old(data) + b
    {
      data := data + b;
    }

    method Sum() returns (d: bytes)
      modifies this`sums
      ensures d == p.hmac(h, key, data) && sums == old(sums) + 1
    {
      sums := sums + 1;
      d := p.hmac(h, key, data);
    }
  }

  /** The loop over the iterations of block b, in the buffers u and t. */
  method IterateBlock(prf: Mac, ghost c: Params, u: array<byte>, t: array<byte>, b: nat, iterations: nat)
    requires c.p.Sized() && prf.p == c.p && prf.h == c.h && prf.key == c.password && iterations > 0
    requires u != t && u.Length == t.Length == HashLen(c.h)
    requires u[..] == U(c, b, 1) && t[..] == U(c, b, 1)
    modifies prf, u, t
    ensures t[..] == T(c, b, iterations)
    ensures prf.sums == old(prf.sums) + iterations - 1
  {
    hide XorSeq;
    var i := 1;
    while i < iterations
      invariant 1 <= i <= iterations
      invariant u[..] == U(c, b, i) && t[..] == T(c, b, i)
      invariant prf.sums == old(prf.sums) + i - 1
    {
      prf.Reset();
      prf.Write(u[..]);
      assert prf.data == U(c, b, i);
      var d := prf.Sum();
      CopyInto(u, 0, d);
      assert u[..] == U(c, b, i + 1);
      XorInto(t, u[..]);
      i := i + 1;
    }
  }

  /** The body of the loop over the blocks. */
  method DeriveBlock(prf: Mac, c: Params, u: array<byte>, t: array<byte>, b: nat, iterations: nat)
    requires c.p.Sized() && prf.p == c.p && prf.h == c.h && prf.key == c.password && iterations > 0
    requires u != t && u.Length == t.Length == HashLen(c.h)
    modifies prf, u, t
    ensures t[..] == T(c, b, iterations)
    ensures prf.sums == old(prf.sums) + iterations
  {
    hide T;
    prf.Reset();
    prf.Write(c.salt);
    prf.Write(BigEndian(b, 4));
    assert prf.data == c.salt + BigEndian(b, 4);
    var first := prf.Sum();
    assert first == U(c, b, 1);
    CopyInto(u, 0, first);
    CopyInto(t, 0, u[..]);
    IterateBlock(prf, c, u, t, b, iterations);
  }

  /** t[j] ^= u[j] for every j. */
  method XorInto(t: array<byte>, u: bytes)
    requires t.Length == |u|
    modifies t
    ensures t[..] == XorSeq(old(t[..]), u)
  {
    var j := 0;
    while j < t.Length
      invariant 0 <= j <= t.Length
      invariant forall k :: 0 <= k < j ==> t[k] == Xor(old(t[k]), u[k])
      invariant forall k :: j <= k < t.Length ==> t[k] == old(t[k])
    {
      t[j] := Xor(t[j], u[j]);
      j := j + 1;
    }
  }

  /** Exactly blocks * iterations PRF evaluations are made. */
  method PBKDF2(p: Primitives, password: bytes, salt: bytes, iterations: int, keyLen: int, h: HashAlg)
    returns (r: Result<bytes>, ghost calls: nat)
    requires p.Sized()
    ensures r == Derive(Params(p, h, password, salt), iterations, keyLen)
    ensures r.Ok? ==> calls == BlockCount(keyLen, HashLen(h)) * iterations
  {
    calls := 0;
    if iterations <= 0 {
      return Err(IterationCount), 0;
    }
    if keyLen <= 0 {
      return Err(InvalidKey), 0;
    }
    hide T;
    var c := Params(p, h, password, salt);
    var prf := new Mac(p, h, password);
    var hLen := HashLen(h);
    var blocks := BlockCount(keyLen, hLen);
    var out: bytes := [];
    var u, t := new byte[hLen], new byte[hLen];
    var b := 1;
    while b <= blocks
      invariant 1 <= b <= blocks + 1
      invariant out == Blocks(c, iterations, b - 1)
      invariant prf.sums == (b - 1) * iterations
    {
      DeriveBlock(prf, c, u, t, b, iterations);
      out := out + t[..];
      assert b * iterations == (b - 1) * iterations + iterations;
      b := b + 1;
    }
    return Ok(out[..keyLen]), prf.sums;
  }

  /** pbes2SaltInput (section 4.8.1.1 of RFC 7518): alg || 0x00 || salt. */
  function SaltInput(alg: string, p2s: bytes): bytes {
    OctetsOf(alg) + [0] + p2s
  }

  /** The algorithm name is bound into the salt: different inputs give different salts. */
  lemma SaltInputInjective(alg1: string, p2s1: bytes, alg2: string, p2s2: bytes)
    requires 0 !in OctetsOf(alg1) && 0 !in OctetsOf(alg2)
    requires SaltInput(alg1, p2s1) == SaltInput(alg2, p2s2)
    ensures OctetsOf(alg1) == OctetsOf(alg2) && p2s1 == p2s2
  {
    SeparatorInjective(0, OctetsOf(alg1), p2s1, OctetsOf(alg2), p2s2);
  }
}
