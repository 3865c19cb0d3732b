/** The Concat KDF of ecdh.go (section 4.6.2 of RFC 7518). */
module ConcatKdf {
  import opened Octets
  import opened Outcomes
  import opened Keys
  import opened Primitives

  function LengthPrefixed(b: bytes): bytes {
    BigEndian(|b|, 4) + b
  }

  /** AlgorithmID || PartyUInfo || PartyVInfo || SuppPubInfo. */
  function OtherInfo(algID: string, apu: bytes, apv: bytes, keyLen: nat): bytes {
    LengthPrefixed(OctetsOf(algID)) + LengthPrefixed(apu) + LengthPrefixed(apv) + BigEndian(keyLen * 8, 4)
  }

  /** H(1 || z || other) || ... || H(n || z || other), with SHA-256. */
  function HashBlocks(p: Primitives, z: bytes, other: bytes, n: nat): (b: bytes)
    requires p.Sized()
    ensures |b| == n * 32
  {
    if n == 0 then [] else HashBlocks(p, z, other, n - 1) + p.hash(SHA256, BigEndian(n, 4) + z + other)
  }

  function Derive(p: Primitives, z: bytes, algID: string, apu: bytes, apv: bytes, keyLen: int): (r: Result<bytes>)
    requires p.Sized()
    ensures r.Ok? <==> keyLen > 0
    ensures r.Ok? ==> |r.value| == keyLen
  {
    if keyLen <= 0 then Err(InvalidKey)
    else Ok(HashBlocks(p, z, OtherInfo(algID, apu, apv, keyLen), BlockCount(keyLen, 32))[..keyLen])
  }

  /** The counter is a uint32; BigEndian(i, 4) truncates as its wrap-around does. */
  method ConcatKDF(p: Primitives, z: bytes, algID: string, apu: bytes, apv: bytes, keyLen: int)
    returns (r: Result<bytes>)
    requires p.Sized()
    ensures r == Derive(p, z, algID, apu, apv, keyLen)
  {
    if keyLen <= 0 {
      return Err(InvalidKey);
    }
    var other: bytes := [];
    other := other + LengthPrefixed(OctetsOf(algID));
    other := other + LengthPrefixed(apu);
    other := other + LengthPrefixed(apv);
    other := other + BigEndian(keyLen * 8, 4);
    assert other == OtherInfo(algID, apu, apv, keyLen);

    var out: bytes := [];
    var i := 1;
    while |out| < keyLen
      invariant i >= 1
      invariant out == HashBlocks(p, z, other, i - 1)
      invariant (i - 2) * 32 < keyLen
      decreases keyLen - |out|
    {
      var data := BigEndian(i, 4);
      data := data + z;
      data := data + other;
      out := out + p.hash(SHA256, data);
      i := i + 1;
    }
    assert i - 1 == BlockCount(keyLen, 32);
    return Ok(out[..keyLen]);
  }

  // ---------------------------------------------------------------- section 4.6.2 of RFC 7518, octet by octet

  /** Three fields, each after its length in four octets, and the key length in bits. */
  ghost predicate LaidOut(o: bytes, algID: bytes, apu: bytes, apv: bytes, keyLen: nat) {
    var a, u, v := 4 + |algID|, 4 + |apu|, 4 + |apv|;
    && |o| == a + u + v + 4
    && FromBigEndian(o[..4]) == |algID| && o[4..a] == algID
    && FromBigEndian(o[a..a + 4]) == |apu| && o[a + 4..a + u] == apu
    && FromBigEndian(o[a + u..a + u + 4]) == |apv| && o[a + u + 4..a + u + v] == apv
    && FromBigEndian(o[a + u + v..]) == 8 * keyLen
  }

  lemma FieldLayout(before: bytes, field: bytes, rest: bytes)
    requires |field| < 0x1_0000_0000
    ensures var o, n := before + LengthPrefixed(field) + rest, |before|;
            && FromBigEndian(o[n..n + 4]) == |field| && o[n + 4..n + 4 + |field|] == field
            && o[n + 4 + |field|..] == rest
  {
    var o, n := before + LengthPrefixed(field) + rest, |before|;
    assert Pow256(4) == 0x1_0000_0000;
    assert o[n..n + 4] == BigEndian(|field|, 4);
    ReadBigEndian(|field|, 4);
  }

  /** OtherInfo is laid out as the RFC says, within the widths of its fields. */
  lemma OtherInfoLayout(algID: string, apu: bytes, apv: bytes, keyLen: nat)
    requires |algID| < 0x1_0000_0000 && |apu| < 0x1_0000_0000 && |apv| < 0x1_0000_0000 && keyLen < 0x2000_0000
    ensures LaidOut(OtherInfo(algID, apu, apv, keyLen), OctetsOf(algID), apu, apv, keyLen)
  {
    hide OctetsOf, FromBigEndian;
    var o, alg, last := OtherInfo(algID, apu, apv, keyLen), OctetsOf(algID), BigEndian(keyLen * 8, 4);
    var p1, p2 := LengthPrefixed(alg), LengthPrefixed(alg) + LengthPrefixed(apu);
    assert o == [] + p1 + (LengthPrefixed(apu) + LengthPrefixed(apv) + last);
    FieldLayout([], alg, LengthPrefixed(apu) + LengthPrefixed(apv) + last);
    assert o == p1 + LengthPrefixed(apu) + (LengthPrefixed(apv) + last);
    FieldLayout(p1, apu, LengthPrefixed(apv) + last);
    assert o == p2 + LengthPrefixed(apv) + last;
    FieldLayout(p2, apv, last);
    assert Pow256(4) == 0x1_0000_0000;
    ReadBigEndian(keyLen * 8, 4);
  }

  lemma FieldIsPrefixed(o: bytes, n: nat, field: bytes)
    requires n + 4 + |field| <= |o| && FromBigEndian(o[n..n + 4]) == |field| && o[n + 4..n + 4 + |field|] == field
    ensures o[n..n + 4 + |field|] == LengthPrefixed(field)
  {
    WriteBigEndian(o[n..n + 4]);
    assert o[n..n + 4 + |field|] == o[n..n + 4] + o[n + 4..n + 4 + |field|];
  }

  /** ... and nothing else is laid out so. */
  lemma LayoutIsUnique(o: bytes, algID: string, apu: bytes, apv: bytes, keyLen: nat)
    requires LaidOut(o, OctetsOf(algID), apu, apv, keyLen)
    ensures o == OtherInfo(algID, apu, apv, keyLen)
  {
    hide OctetsOf;
    var alg := OctetsOf(algID);
    var a, u, v := 4 + |alg|, 4 + |apu|, 4 + |apv|;
    hide FromBigEndian, BigEndian, LengthPrefixed;
    assert o[0..4] == o[..4] && o[..a] == o[0..a];
    FieldIsPrefixed(o, 0, alg);
    FieldIsPrefixed(o, a, apu);
    FieldIsPrefixed(o, a + u, apv);
    WriteBigEndian(o[a + u + v..]);
    assert o == o[..a] + o[a..a + u] + o[a + u..a + u + v] + o[a + u + v..];
  }

  /** Block i of the derived octets is H(i || z || other), for every key length. */
  lemma {:induction false} HashBlockAt(p: Primitives, z: bytes, other: bytes, n: nat, i: nat)
    requires p.Sized() && 0 < i <= n
    ensures HashBlocks(p, z, other, n)[32 * (i - 1)..32 * i] == p.hash(SHA256, BigEndian(i, 4) + z + other)
    decreases n
  {
    hide p.Sized;
    var front := HashBlocks(p, z, other, n - 1);
    if i < n {
      HashBlockAt(p, z, other, n - 1, i);
      assert HashBlocks(p, z, other, n)[32 * (i - 1)..32 * i] == front[32 * (i - 1)..32 * i];
    }
  }

  /** A key of up to 64 octets is the front of two hashes over the counter, the secret and what is laid out so. */
  lemma KeyIsHashed(p: Primitives, z: bytes, algID: string, apu: bytes, apv: bytes, keyLen: nat, other: bytes)
    requires p.Sized() && 0 < keyLen <= 64 && LaidOut(other, OctetsOf(algID), apu, apv, keyLen)
    ensures var first := p.hash(SHA256, [0, 0, 0, 1] + z + other);
            var second := p.hash(SHA256, [0, 0, 0, 2] + z + other);
            Derive(p, z, algID, apu, apv, keyLen) == Ok((first + second)[..keyLen])
  {
    LayoutIsUnique(other, algID, apu, apv, keyLen);
    hide OtherInfo, LaidOut, p.Sized;
    CounterOctets();
    HashBlockAt(p, z, other, 1, 1);
    HashBlockAt(p, z, other, 2, 1);
    HashBlockAt(p, z, other, 2, 2);
    var first, second := p.hash(SHA256, [0, 0, 0, 1] + z + other), p.hash(SHA256, [0, 0, 0, 2] + z + other);
    assert HashBlocks(p, z, other, 1) == first;
    var both := HashBlocks(p, z, other, 2);
    assert both == both[..32] + both[32..] == first + second;
    if keyLen <= 32 {
      assert BlockCount(keyLen, 32) == 1;
      assert (first + second)[..keyLen] == first[..keyLen];
    } else {
      assert BlockCount(keyLen, 32) == 2;
    }
  }

  lemma CounterOctets()
    ensures BigEndian(1, 4) == [0, 0, 0, 1] && BigEndian(2, 4) == [0, 0, 0, 2]
  {
    assert BigEndian(1, 1) == [1] && BigEndian(2, 1) == [2];
    assert BigEndian(0, 3) == [0, 0, 0];
  }

  lemma LengthPrefixedInjective(a: bytes, b: bytes, c: bytes, d: bytes)
    requires |a| < 0x1_0000_0000 && |c| < 0x1_0000_0000
    requires LengthPrefixed(a) + b == LengthPrefixed(c) + d
    ensures a == c && b == d
  {
    assert Pow256(4) == 0x1_0000_0000;
    assert LengthPrefixed(a) + b == BigEndian(|a|, 4) + (a + b);
    assert LengthPrefixed(c) + d == BigEndian(|c|, 4) + (c + d);
    ConcatInjective(BigEndian(|a|, 4), a + b, BigEndian(|c|, 4), c + d);
    BigEndianInjective(|a|, |c|, 4);
    ConcatInjective(a, b, c, d);
  }

  /** No two sets of KDF parameters share an OtherInfo, within the widths of its fields. */
  lemma OtherInfoInjective(alg1: string, apu1: bytes, apv1: bytes, len1: nat,
                           alg2: string, apu2: bytes, apv2: bytes, len2: nat)
    requires |alg1| < 0x1_0000_0000 && |apu1| < 0x1_0000_0000 && |apv1| < 0x1_0000_0000
    requires |alg2| < 0x1_0000_0000 && |apu2| < 0x1_0000_0000 && |apv2| < 0x1_0000_0000
    requires len1 < 0x2000_0000 && len2 < 0x2000_0000
    requires OtherInfo(alg1, apu1, apv1, len1) == OtherInfo(alg2, apu2, apv2, len2)
    ensures OctetsOf(alg1) == OctetsOf(alg2) && apu1 == apu2 && apv1 == apv2 && len1 == len2
  {
    hide LengthPrefixed, OctetsOf;
    var a1, a2 := OctetsOf(alg1), OctetsOf(alg2);
    var s1, s2 := BigEndian(len1 * 8, 4), BigEndian(len2 * 8, 4);
    var v1, v2 := LengthPrefixed(apv1) + s1, LengthPrefixed(apv2) + s2;
    var u1, u2 := LengthPrefixed(apu1) + v1, LengthPrefixed(apu2) + v2;
    assert OtherInfo(alg1, apu1, apv1, len1) == LengthPrefixed(a1) + u1;
    assert OtherInfo(alg2, apu2, apv2, len2) == LengthPrefixed(a2) + u2;
    LengthPrefixedInjective(a1, u1, a2, u2);
    LengthPrefixedInjective(apu1, v1, apu2, v2);
    LengthPrefixedInjective(apv1, s1, apv2, s2);
    assert Pow256(4) == 0x1_0000_0000;
    BigEndianInjective(len1 * 8, len2 * 8, 4);
  }
}
