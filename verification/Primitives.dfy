/**
 The routines of Go's standard library that the package calls: ciphers, hashes, public-key
 operations, compression and the JSON codec. They are fields of a record, so that every
 result holds for all of them that obey the laws stated here.
 */
module Primitives {
  import opened Octets
  import opened Outcomes
  import opened Keys

  datatype Primitives = Primitives(
    aesEncrypt: (bytes, bytes) -> bytes,
    aesDecrypt: (bytes, bytes) -> bytes,
    hash: (HashAlg, bytes) -> bytes,
    hmac: (HashAlg, bytes, bytes) -> bytes,
    // AES-GCM: key, nonce, plaintext or sealed text, additional data.
    gcmSeal: (bytes, bytes, bytes, bytes) -> bytes,
    gcmOpen: (bytes, bytes, bytes, bytes) -> Option<bytes>,
    // RSA encryption: the OAEP hash (None is PKCS #1 v1.5), the key, randomness or fallback, text.
    rsaEncrypt: (Option<HashAlg>, nat, nat, bytes, bytes) -> Option<bytes>,
    rsaDecrypt: (Option<HashAlg>, RsaPrivate, bytes, bytes) -> Option<bytes>,
    rsaValid: RsaPrivate -> bool,
    // RSA signatures: PSS or PKCS #1 v1.5, the hash, the key, the digest, randomness or signature.
    rsaSign: (bool, HashAlg, RsaPrivate, bytes, bytes) -> Option<bytes>,
    rsaVerify: (bool, HashAlg, nat, nat, bytes, bytes) -> bool,
    ecdsaSign: (Curve, nat, bytes, bytes) -> Option<(nat, nat)>,
    ecdsaVerify: (Curve, nat, nat, bytes, nat, nat) -> bool,
    edFromSeed: bytes -> bytes,
    edSign: (bytes, bytes) -> bytes,
    edVerify: (bytes, bytes, bytes) -> bool,
    // Diffie-Hellman over a curve: scalars, points and the shared secret.
    onCurve: (Curve, nat, nat) -> bool,
    curveOrder: Curve -> nat,
    validScalar: (Curve, bytes) -> bool,
    ecdhGenerate: (Curve, bytes) -> bytes,
    ecdhPublic: (Curve, bytes) -> bytes,
    ecdh: (Curve, bytes, bytes) -> Option<bytes>,
    // Raw DEFLATE; inflating reads at most the given number of octets.
    deflate: bytes -> bytes,
    inflate: (bytes, nat) -> Option<bytes>,
    // encoding/json on a header, and the float64 nearest to an integer.
    headerToJson: Header -> Option<bytes>,
    headerFromJson: bytes -> Option<Header>,
    nearestFloat: int -> real)
  {
    // -------------------------------------------------------------- laws

    /** The sizes of results, which is all that the operations themselves rely on. */
    ghost predicate Sized() {
      && (forall k: bytes, b: bytes | IsAesKey(k) && |b| == 16 :: |aesEncrypt(k, b)| == 16)
      && (forall k: bytes, b: bytes | IsAesKey(k) && |b| == 16 :: |aesDecrypt(k, b)| == 16)
      && (forall h: HashAlg, m: bytes :: |hash(h, m)| == HashLen(h))
      && (forall h: HashAlg, k: bytes, m: bytes :: |hmac(h, k, m)| == HashLen(h))
      && (forall k: bytes, iv: bytes, m: bytes, aad: bytes | IsAesKey(k) && |iv| == 12 ::
            |gcmSeal(k, iv, m, aad)| == |m| + 16)
    }

    ghost predicate AesLaw() {
      forall k: bytes, b: bytes | IsAesKey(k) && |b| == 16 ::
        && aesDecrypt(k, aesEncrypt(k, b)) == b
        && aesEncrypt(k, aesDecrypt(k, b)) == b
    }

    /** Opening accepts exactly what sealing under the same key, nonce and data produces. */
    ghost predicate GcmLaw() {
      && (forall k: bytes, iv: bytes, m: bytes, aad: bytes | IsAesKey(k) && |iv| == 12 ::
            gcmOpen(k, iv, gcmSeal(k, iv, m, aad), aad) == Some(m))
      && (forall k: bytes, iv: bytes, c: bytes, aad: bytes | IsAesKey(k) && |iv| == 12 ::
            gcmOpen(k, iv, c, aad).Some? ==> gcmSeal(k, iv, gcmOpen(k, iv, c, aad).value, aad) == c)
    }

    ghost predicate RsaLaw() {
      && (forall scheme: Option<HashAlg>, priv: RsaPrivate, seed: bytes, m: bytes, fallback: bytes ::
            rsaValid(priv) && rsaEncrypt(scheme, priv.n, priv.e, seed, m).Some? &&
            (scheme.None? ==> |fallback| == |m|) ==>
            rsaDecrypt(scheme, priv, rsaEncrypt(scheme, priv.n, priv.e, seed, m).value, fallback) == Some(m))
      && (forall pss: bool, h: HashAlg, priv: RsaPrivate, digest: bytes, seed: bytes ::
            rsaValid(priv) && rsaSign(pss, h, priv, digest, seed).Some? ==>
            && rsaSign(pss, h, priv, digest, seed).value != []
            && rsaVerify(pss, h, priv.n, priv.e, digest, rsaSign(pss, h, priv, digest, seed).value))
    }

    ghost predicate EcdsaLaw() {
      forall c: Curve, x: nat, y: nat, d: nat, digest: bytes, seed: bytes ::
        EcPairOk(c, x, y, d) && ecdsaSign(c, d, digest, seed).Some? ==>
        var (r, s) := ecdsaSign(c, d, digest, seed).value;
        r < Pow256(CoordSize(c)) && s < Pow256(CoordSize(c)) && ecdsaVerify(c, x, y, digest, r, s)
    }

    ghost predicate EdLaw() {
      && (forall seed: bytes | |seed| == 32 :: |edFromSeed(seed)| == 64)
      && (forall k: bytes, m: bytes | EdPairOk(k) ::
            edSign(k, m) != [] && edVerify(k[32..], m, edSign(k, m)))
    }

    ghost predicate EcdhLaw() {
      && (forall c: Curve, x: nat, y: nat | onCurve(c, x, y) ::
            x < Pow256(CoordSize(c)) && y < Pow256(CoordSize(c)))
      && (forall c: Curve, seed: bytes | IsEcdh(c) :: validScalar(c, ecdhGenerate(c, seed)))
      && (forall c: Curve, s: bytes | IsEcdh(c) && validScalar(c, s) :: ValidPoint(c, ecdhPublic(c, s)))
      && (forall c: Curve, a: bytes, b: bytes | validScalar(c, a) && validScalar(c, b) ::
            ecdh(c, a, ecdhPublic(c, b)) == ecdh(c, b, ecdhPublic(c, a)))
    }

    ghost predicate DeflateLaw() {
      forall m: bytes, max: nat ::
        inflate(deflate(m), max) == Some(if |m| <= max then m else m[..max])
    }

    ghost predicate JsonLaw() {
      && (forall h: Header :: headerToJson(h).Some? ==>
            headerToJson(h).value != [] && headerFromJson(headerToJson(h).value) == Some(Received(h)))
      && (forall n: int | -0x20_0000_0000_0000 <= n <= 0x20_0000_0000_0000 :: nearestFloat(n) == n as real)
    }

    /** Every law at once. */
    ghost predicate Lawful() {
      && Sized() && AesLaw() && GcmLaw() && RsaLaw() && EcdsaLaw() && EdLaw()
      && EcdhLaw() && DeflateLaw() && JsonLaw()
    }

    // -------------------------------------------------------------- derived notions

    /** The recipient's view of a value after a trip through JSON. */
    function ReceivedValue(v: Value): Value {
      match v
      case Int(n) => Float(nearestFloat(n))
      case Strings(ss) => List(seq(|ss|, i requires 0 <= i < |ss| => Str(ss[i])))
      case List(vs) => List(seq(|vs|, i requires 0 <= i < |vs| => ReceivedValue(vs[i])))
      case Object(m) => Object(map k | k in m :: ReceivedValue(m[k]))
      case _ => v
    }

    function Received(h: Header): (r: Header)
      ensures r.Keys == h.Keys
    {
      map k | k in h :: ReceivedValue(h[k])
    }

    /** crypto/ecdh accepts a NIST point when it is 0x04 || X || Y on the curve. */
    predicate ValidPoint(c: Curve, b: bytes) {
      if IsNist(c) then
        var size := CoordSize(c);
        |b| == 1 + 2 * size && b[0] == 4 &&
        onCurve(c, FromBigEndian(b[1..1 + size]), FromBigEndian(b[1 + size..]))
      else
        c.X25519? && |b| == 32 // any 32 octets are an X25519 point
    }

    /** (x, y) is the public point of the scalar d. */
    predicate EcPairOk(c: Curve, x: nat, y: nat, d: nat) {
      && onCurve(c, x, y)
      && d < Pow256(CoordSize(c))
      && validScalar(c, BigEndian(d, CoordSize(c)))
      && ecdhPublic(c, BigEndian(d, CoordSize(c))) == Uncompressed(c, x, y)
    }

    predicate EdPairOk(k: bytes) {
      |k| == 64 && edFromSeed(k[..32]) == k
    }
  }

  /** aes.NewCipher accepts keys of these sizes only. */
  predicate IsAesKey(k: bytes) {
    |k| == 16 || |k| == 24 || |k| == 32
  }

  function Uncompressed(c: Curve, x: nat, y: nat): bytes {
    [4] + BigEndian(x, CoordSize(c)) + BigEndian(y, CoordSize(c))
  }
}
