/**
 A small instance of the library routines, over a codec that knows a given list of headers.
 It obeys every law, so the laws are consistent.
 */
module Witness {
  import opened Octets
  import opened Outcomes
  import opened Keys
  import opened Primitives
  import Ecdh

  /** x + d, modulo 256. */
  function Shifted(x: byte, d: int): byte {
    (x as int + d) % 256
  }

  /** The block with d added to its first octet. */
  function Moved(b: bytes, d: int): (r: bytes)
    ensures |r| == |b|
  {
    if b == [] then [] else [Shifted(b[0], d)] + b[1..]
  }

  lemma MovedBack(b: bytes, d: int)
    ensures Moved(Moved(b, d), -d) == b
  {
    if b != [] {
      assert Shifted(Shifted(b[0], d), -d) == b[0];
    }
  }

  /** AES adds the first octet of the key to the first octet of the block; a hash tells lengths apart. */
  const BASE: Primitives := Primitives(
    (k: bytes, b: bytes) => Moved(b, if k == [] then 0 else k[0] as int),
    (k: bytes, b: bytes) => Moved(b, if k == [] then 0 else -(k[0] as int)),
    (h: HashAlg, m: bytes) => Repeat(|m| % 256, HashLen(h)),
    (h: HashAlg, k: bytes, m: bytes) => Repeat(|m| % 256, HashLen(h)),
    (k: bytes, iv: bytes, m: bytes, aad: bytes) => m + Repeat(0, 16),
    (k: bytes, iv: bytes, c: bytes, aad: bytes) =>
      if |c| >= 16 && c[|c| - 16..] == Repeat(0, 16) then Some(c[..|c| - 16]) else None,
    (scheme, n, e, seed, m) => Some(m),
    (scheme, priv, c, fallback) => Some(c),
    priv => true,
    (pss, h, priv, digest, seed) => Some([1]),
    (pss, h, n, e, digest, sig) => true,
    (c, d, digest, seed) => Some((0, 0)),
    (c, x, y, digest, r, s) => true,
    (seed: bytes) => seed + Repeat(0, 32),
    (k, m) => [1],
    (pub, m, sig) => true,
    (c, x, y) => x == 1 && y == 1,
    c => 2,
    (c, s) => true,
    (c, seed) => seed,
    (c: Curve, s: bytes) => if c.X25519? then Repeat(0, 32) else Uncompressed(c, 1, 1),
    (c, s, q) => Some([0]),
    m => m,
    (m: bytes, max: nat) => Some(if |m| <= max then m else m[..max]),
    h => None,
    b => None,
    n => n as real)

  /** Where h first occurs in hs. */
  function IndexOf(hs: seq<Header>, h: Header): (i: nat)
    requires h in hs
    ensures i < |hs| && hs[i] == h
  {
    if hs[0] == h then 0 else 1 + IndexOf(hs[1..], h)
  }

  /** The instance whose codec knows the headers hs: header i is written as i + 1 octets. */
  function Toy(hs: seq<Header>): Primitives {
    BASE.(
      headerToJson := h => if h in hs then Some(Repeat(0, IndexOf(hs, h) + 1)) else None,
      headerFromJson := (b: bytes) => if 0 < |b| <= |hs| then Some(BASE.Received(hs[|b| - 1])) else None)
  }

  lemma CoordinatesFit(c: Curve)
    ensures 1 < Pow256(CoordSize(c))
  {
    assert Pow256(CoordSize(c)) == 256 * Pow256(CoordSize(c) - 1);
  }

  lemma ToyPointsAreValid(p: Primitives, c: Curve, s: bytes)
    requires p.ecdhPublic == BASE.ecdhPublic && p.onCurve == BASE.onCurve && IsEcdh(c)
    ensures p.ValidPoint(c, p.ecdhPublic(c, s))
  {
    CoordinatesFit(c);
    Ecdh.UncompressedParts(c, 1, 1);
  }

  lemma ToyGcm(hs: seq<Header>)
    ensures Toy(hs).GcmLaw()
  {
    var p := Toy(hs);
    forall k: bytes, iv: bytes, m: bytes, aad: bytes | IsAesKey(k) && |iv| == 12
      ensures p.gcmOpen(k, iv, p.gcmSeal(k, iv, m, aad), aad) == Some(m)
    {
      var c := m + Repeat(0, 16);
      assert c[|c| - 16..] == Repeat(0, 16) && c[..|c| - 16] == m;
    }
    forall k: bytes, iv: bytes, c: bytes, aad: bytes | p.gcmOpen(k, iv, c, aad).Some?
      ensures p.gcmSeal(k, iv, p.gcmOpen(k, iv, c, aad).value, aad) == c
    {
      assert c == c[..|c| - 16] + c[|c| - 16..];
    }
  }

  lemma ToyEcdh(hs: seq<Header>)
    ensures Toy(hs).EcdhLaw()
  {
    var p := Toy(hs);
    forall c: Curve, s: bytes | IsEcdh(c)
      ensures p.ValidPoint(c, p.ecdhPublic(c, s))
    {
      ToyPointsAreValid(p, c, s);
    }
    forall c: Curve
      ensures 1 < Pow256(CoordSize(c))
    {
      CoordinatesFit(c);
    }
  }

  /** What JSON does to a value depends on the rounding of integers alone. */
  lemma {:induction false} ReceivedAlike(p: Primitives, q: Primitives, v: Value)
    requires p.nearestFloat == q.nearestFloat
    ensures p.ReceivedValue(v) == q.ReceivedValue(v)
  {
    match v
    case List(vs) =>
      forall i | 0 <= i < |vs|
        ensures p.ReceivedValue(vs[i]) == q.ReceivedValue(vs[i])
      {
        ReceivedAlike(p, q, vs[i]);
      }
    case Object(m) =>
      forall k | k in m
        ensures p.ReceivedValue(m[k]) == q.ReceivedValue(m[k])
      {
        ReceivedAlike(p, q, m[k]);
      }
    case _ =>
  }

  lemma ToyReceived(hs: seq<Header>, h: Header)
    ensures Toy(hs).Received(h) == BASE.Received(h)
  {
    forall k | k in h
      ensures Toy(hs).ReceivedValue(h[k]) == BASE.ReceivedValue(h[k])
    {
      ReceivedAlike(Toy(hs), BASE, h[k]);
    }
  }

  lemma ToyJson(hs: seq<Header>)
    ensures Toy(hs).JsonLaw()
  {
    forall h: Header | h in hs
      ensures Toy(hs).headerFromJson(Repeat(0, IndexOf(hs, h) + 1)) == Some(Toy(hs).Received(h))
    {
      ToyReceived(hs, h);
    }
  }

  lemma ToySymmetric(hs: seq<Header>)
    ensures Toy(hs).Sized() && Toy(hs).AesLaw() && Toy(hs).DeflateLaw()
  {
    var p := Toy(hs);
    forall k: bytes, b: bytes | IsAesKey(k) && |b| == 16
      ensures p.aesDecrypt(k, p.aesEncrypt(k, b)) == b && p.aesEncrypt(k, p.aesDecrypt(k, b)) == b
    {
      MovedBack(b, k[0] as int);
      MovedBack(b, -(k[0] as int));
    }
  }

  lemma ToyPublicKey(hs: seq<Header>)
    ensures Toy(hs).RsaLaw() && Toy(hs).EcdsaLaw() && Toy(hs).EdLaw()
  {
  }

  /** The laws are consistent. */
  lemma LawsHold(hs: seq<Header>)
    ensures Toy(hs).Lawful()
  {
    var p := Toy(hs);
    hide p.Sized, p.AesLaw, p.GcmLaw, p.RsaLaw, p.EcdsaLaw, p.EdLaw, p.EcdhLaw, p.DeflateLaw, p.JsonLaw;
    ToySymmetric(hs);
    ToyGcm(hs);
    ToyPublicKey(hs);
    ToyEcdh(hs);
    ToyJson(hs);
  }
}
