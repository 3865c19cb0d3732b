/** The JWS signature algorithms (jwa_sign.go). */
module Signatures {
  import opened Octets
  import opened Outcomes
  import opened Keys
  import opened Primitives

  datatype SigKind = HmacKind | Pkcs1Kind | PssKind | EcdsaKind | EdKind

  /** One "alg"; the curve and coordinate size matter to ECDSA only. */
  datatype SigAlg = SigAlg(name: string, hash: HashAlg, kind: SigKind, curve: Curve, coord: nat) {
    predicate Valid() {
      kind.EcdsaKind? ==> IsNist(curve) && coord == CoordSize(curve)
    }
  }

  function LookupSigAlg(alg: string): (r: Result<SigAlg>)
    ensures r.Ok? ==> r.value.Valid() && r.value.name == alg && alg != "none" && alg != ""
  {
    if alg == "none" then Err(NoneAlgDisallowed)
    else if alg == "HS256" then Ok(SigAlg(alg, SHA256, HmacKind, P256, 0))
    else if alg == "HS384" then Ok(SigAlg(alg, SHA384, HmacKind, P256, 0))
    else if alg == "HS512" then Ok(SigAlg(alg, SHA512, HmacKind, P256, 0))
    else if alg == "RS256" then Ok(SigAlg(alg, SHA256, Pkcs1Kind, P256, 0))
    else if alg == "RS384" then Ok(SigAlg(alg, SHA384, Pkcs1Kind, P256, 0))
    else if alg == "RS512" then Ok(SigAlg(alg, SHA512, Pkcs1Kind, P256, 0))
    else if alg == "PS256" then Ok(SigAlg(alg, SHA256, PssKind, P256, 0))
    else if alg == "PS384" then Ok(SigAlg(alg, SHA384, PssKind, P256, 0))
    else if alg == "PS512" then Ok(SigAlg(alg, SHA512, PssKind, P256, 0))
    else if alg == "ES256" then Ok(SigAlg(alg, SHA256, EcdsaKind, P256, 32))
    else if alg == "ES384" then Ok(SigAlg(alg, SHA384, EcdsaKind, P384, 48))
    else if alg == "ES512" then Ok(SigAlg(alg, SHA512, EcdsaKind, P521, 66))
    else if alg == "EdDSA" then Ok(SigAlg(alg, SHA512, EdKind, P256, 0))
    else Err(UnsupportedAlgorithm)
  }

  /** The thirteen names of RFC 7518 and RFC 8037 (section 3.1 of each) are found; "none" has an error of its own. */
  lemma SigAlgNames(alg: string)
    ensures LookupSigAlg(alg).Ok? <==>
            alg in {"HS256", "HS384", "HS512", "RS256", "RS384", "RS512", "PS256", "PS384", "PS512",
                    "ES256", "ES384", "ES512", "EdDSA"}
    ensures LookupSigAlg(alg).Err? ==>
              LookupSigAlg(alg).error == if alg == "none" then NoneAlgDisallowed else UnsupportedAlgorithm
  {
  }

  /** A name such as "PS384" spells the kind and the hash that it is found with. */
  lemma SigAlgNameSpells(alg: string)
    requires LookupSigAlg(alg).Ok?
    ensures var a := LookupSigAlg(alg).value;
            && (a.kind.EdKind? <==> alg == "EdDSA")
            && |alg| == 5
            && (!a.kind.EdKind? ==> alg[0] == Initial(a.kind) && alg[2] == FirstDigit(a.hash))
  {
  }

  /** Section 3.4 of RFC 7518: the hash of an ECDSA name goes with one curve, whose coordinates have this width. */
  lemma EcdsaCurves(alg: string)
    requires LookupSigAlg(alg).Ok? && LookupSigAlg(alg).value.kind.EcdsaKind?
    ensures var a := LookupSigAlg(alg).value;
            && (a.hash.SHA256? ==> a.curve == P256 && a.coord == 32)
            && (a.hash.SHA384? ==> a.curve == P384 && a.coord == 48)
            && (a.hash.SHA512? ==> a.curve == P521 && a.coord == 66)
            && !a.hash.SHA1?
  {
  }

  function Initial(k: SigKind): char {
    match k
    case HmacKind => 'H'
    case Pkcs1Kind => 'R'
    case PssKind => 'P'
    case EcdsaKind => 'E'
    case EdKind => 'E'
  }

  function FirstDigit(h: HashAlg): char {
    match h
    case SHA1 => '1'
    case SHA256 => '2'
    case SHA384 => '3'
    case SHA512 => '5'
  }

  /** defaultSigAlg. */
  function DefaultSigAlg(key: GoKey): Result<string> {
    match key
    case Secret(_) => Ok("HS256")
    case RsaPrivateKey(_) => Ok("RS256")
    case RsaPublicKey(_, _) => Ok("RS256")
    case EdPrivateKey(_) => Ok("EdDSA")
    case EdPublicKey(_) => Ok("EdDSA")
    case EcdsaPrivateKey(c, _, _, _) => EcdsaAlgFor(c)
    case EcdsaPublicKey(c, _, _) => EcdsaAlgFor(c)
    case _ => Err(InvalidKeyType)
  }

  /** The algorithm that is taken for a key of each type, when none is named. */
  lemma DefaultSigAlgs(key: GoKey)
    ensures DefaultSigAlg(key) == Ok("HS256") <==> key.Secret?
    ensures DefaultSigAlg(key) == Ok("RS256") <==> key.RsaPrivateKey? || key.RsaPublicKey?
    ensures DefaultSigAlg(key) == Ok("EdDSA") <==> key.EdPrivateKey? || key.EdPublicKey?
    ensures key.EcdsaPrivateKey? || key.EcdsaPublicKey? ==>
              && (DefaultSigAlg(key) == Ok("ES256") <==> key.curve == P256)
              && (DefaultSigAlg(key) == Ok("ES384") <==> key.curve == P384)
              && (DefaultSigAlg(key) == Ok("ES512") <==> key.curve == P521)
              && (DefaultSigAlg(key).Err? ==> DefaultSigAlg(key).error == UnsupportedAlgorithm)
    ensures DefaultSigAlg(key) == Err(InvalidKeyType) <==>
            key.Password? || key.EcdhPublicKey? || key.EcdhPrivateKey? || key.OtherKey?
  {
  }

  function EcdsaAlgFor(c: Curve): Result<string> {
    match c
    case P256 => Ok("ES256")
    case P384 => Ok("ES384")
    case P521 => Ok("ES512")
    case _ => Err(UnsupportedAlgorithm)
  }

  function RsaPublic(key: GoKey): Result<(nat, nat)> {
    match key
    case RsaPublicKey(n, e) => Ok((n, e))
    case RsaPrivateKey(r) => Ok((r.n, r.e))
    case _ => Err(InvalidKeyType)
  }

  // ---------------------------------------------------------------- fixed-width r || s

  /** Section 3.4 of RFC 7518: r and s, each at the width of a coordinate. */
  function EncodeRS(r: nat, s: nat, coord: nat): (sig: bytes)
    ensures |sig| == 2 * coord
  {
    BigEndian(r, coord) + BigEndian(s, coord)
  }

  function DecodeRS(sig: bytes, coord: nat): (nat, nat)
    requires |sig| == 2 * coord
  {
    (FromBigEndian(sig[..coord]), FromBigEndian(sig[coord..]))
  }

  /** A signature splits back into the integers it was made from, and only into those. */
  lemma RSRoundTrip(r: nat, s: nat, coord: nat)
    requires r < Pow256(coord) && s < Pow256(coord)
    ensures DecodeRS(EncodeRS(r, s, coord), coord) == (r, s)
  {
    var sig := EncodeRS(r, s, coord);
    assert sig[..coord] == BigEndian(r, coord) && sig[coord..] == BigEndian(s, coord);
    ReadBigEndian(r, coord);
    ReadBigEndian(s, coord);
  }

  lemma SignatureOctetsAreRS(sig: bytes, coord: nat)
    requires |sig| == 2 * coord
    ensures var (r, s) := DecodeRS(sig, coord);
            r < Pow256(coord) && s < Pow256(coord) && EncodeRS(r, s, coord) == sig
  {
    WriteBigEndian(sig[..coord]);
    WriteBigEndian(sig[coord..]);
  }

  // ---------------------------------------------------------------- sign and verify

  /** sigAlg.sign; `seed` is the randomness that RSA and ECDSA draw. */
  function SignOctets(p: Primitives, a: SigAlg, input: bytes, key: GoKey, seed: bytes): Result<bytes> {
    match a.kind
    case HmacKind =>
      if !key.Secret? then Err(InvalidKeyType)
      else if key.octets == [] then Err(InvalidKey)
      else Ok(p.hmac(a.hash, key.octets, input))
    case Pkcs1Kind =>
      if !key.RsaPrivateKey? then Err(InvalidKeyType)
      else OrElse(p.rsaSign(false, a.hash, key.rsa, p.hash(a.hash, input), seed), Library)
    case PssKind =>
      if !key.RsaPrivateKey? then Err(InvalidKeyType)
      else OrElse(p.rsaSign(true, a.hash, key.rsa, p.hash(a.hash, input), seed), Library)
    case EcdsaKind =>
      if !key.EcdsaPrivateKey? || key.curve != a.curve then Err(InvalidKeyType)
      else
        var (r, s) :- OrElse(p.ecdsaSign(key.curve, key.d, p.hash(a.hash, input), seed), Library);
        if r >= Pow256(a.coord) || s >= Pow256(a.coord) then Err(Panic) else Ok(EncodeRS(r, s, a.coord))
    case EdKind =>
      if !key.EdPrivateKey? then Err(InvalidKeyType)
      else if |key.octets| != 64 then Err(InvalidKey)
      else Ok(p.edSign(key.octets, input))
  }

  /** ed25519.PrivateKey.Public: octets 32 .. 64, which panics on fewer than 32 octets. */
  function EdPublicOf(k: bytes): Result<bytes> {
    if |k| < 32 then Err(Panic) else Ok((k[32..] + Repeat(0, 32))[..32])
  }

  function EdVerifyKey(key: GoKey): Result<bytes> {
    match key
    case EdPublicKey(b) => if |b| != 32 then Err(InvalidKey) else Ok(b)
    case EdPrivateKey(b) => EdPublicOf(b)
    case _ => Err(InvalidKeyType)
  }

  function Verdict(ok: bool): Outcome {
    if ok then Pass else Fail(SignatureInvalid)
  }

  function VerifyRsa(p: Primitives, pss: bool, h: HashAlg, input: bytes, sig: bytes, key: GoKey): Outcome {
    match RsaPublic(key)
    case Err(e) => Fail(e)
    case Ok((n, e)) => Verdict(p.rsaVerify(pss, h, n, e, p.hash(h, input), sig))
  }

  /** sigAlg.verify. */
  function VerifyOctets(p: Primitives, a: SigAlg, input: bytes, sig: bytes, key: GoKey): Outcome {
    match a.kind
    case HmacKind =>
      if !key.Secret? then Fail(InvalidKeyType)
      else if key.octets == [] then Fail(InvalidKey)
      else Verdict(sig == p.hmac(a.hash, key.octets, input))
    case Pkcs1Kind => VerifyRsa(p, false, a.hash, input, sig, key)
    case PssKind => VerifyRsa(p, true, a.hash, input, sig, key)
    case EcdsaKind =>
      if !key.EcdsaPublicKey? && !key.EcdsaPrivateKey? then Fail(InvalidKeyType)
      else if key.curve != a.curve then Fail(InvalidKeyType)
      else if |sig| != 2 * a.coord then Fail(SignatureInvalid)
      else
        var (r, s) := DecodeRS(sig, a.coord);
        Verdict(p.ecdsaVerify(key.curve, key.x, key.y, p.hash(a.hash, input), r, s))
    case EdKind =>
      match EdVerifyKey(key)
      case Err(e) => Fail(e)
      case Ok(pub) => Verdict(p.edVerify(pub, input, sig))
  }

  // ---------------------------------------------------------------- in the library's terms

  /** sig is what the library makes of the input with the key, and with this randomness. */
  ghost predicate IsSignature(p: Primitives, a: SigAlg, input: bytes, k: GoKey, seed: bytes, sig: bytes) {
    match a.kind
    case HmacKind => k.Secret? && k.octets != [] && sig == p.hmac(a.hash, k.octets, input)
    case Pkcs1Kind => k.RsaPrivateKey? && p.rsaSign(false, a.hash, k.rsa, p.hash(a.hash, input), seed) == Some(sig)
    case PssKind => k.RsaPrivateKey? && p.rsaSign(true, a.hash, k.rsa, p.hash(a.hash, input), seed) == Some(sig)
    case EcdsaKind =>
      && k.EcdsaPrivateKey? && k.curve == a.curve && |sig| == 2 * a.coord
      && p.ecdsaSign(k.curve, k.d, p.hash(a.hash, input), seed) ==
         Some((FromBigEndian(sig[..a.coord]), FromBigEndian(sig[a.coord..])))
    case EdKind => k.EdPrivateKey? && |k.octets| == 64 && sig == p.edSign(k.octets, input)
  }

  lemma SigningIsExact(p: Primitives, a: SigAlg, input: bytes, k: GoKey, seed: bytes, sig: bytes)
    ensures SignOctets(p, a, input, k, seed) == Ok(sig) <==> IsSignature(p, a, input, k, seed, sig)
  {
    if a.kind.EcdsaKind? && k.EcdsaPrivateKey? {
      hide BigEndian, Pow256;
      var s := p.ecdsaSign(k.curve, k.d, p.hash(a.hash, input), seed);
      if s.Some? && s.value.0 < Pow256(a.coord) && s.value.1 < Pow256(a.coord) {
        RSRoundTrip(s.value.0, s.value.1, a.coord);
      }
      if |sig| == 2 * a.coord {
        SignatureOctetsAreRS(sig, a.coord);
      }
    }
  }

  /** The library confirms sig over the input with the key: a public key, or the public half of a private one. */
  ghost predicate IsConfirmed(p: Primitives, a: SigAlg, input: bytes, sig: bytes, k: GoKey) {
    match a.kind
    case HmacKind => k.Secret? && k.octets != [] && sig == p.hmac(a.hash, k.octets, input)
    case Pkcs1Kind =>
      || (k.RsaPublicKey? && p.rsaVerify(false, a.hash, k.n, k.e, p.hash(a.hash, input), sig))
      || (k.RsaPrivateKey? && p.rsaVerify(false, a.hash, k.rsa.n, k.rsa.e, p.hash(a.hash, input), sig))
    case PssKind =>
      || (k.RsaPublicKey? && p.rsaVerify(true, a.hash, k.n, k.e, p.hash(a.hash, input), sig))
      || (k.RsaPrivateKey? && p.rsaVerify(true, a.hash, k.rsa.n, k.rsa.e, p.hash(a.hash, input), sig))
    case EcdsaKind =>
      && (k.EcdsaPublicKey? || k.EcdsaPrivateKey?) && k.curve == a.curve && |sig| == 2 * a.coord
      && p.ecdsaVerify(k.curve, k.x, k.y, p.hash(a.hash, input),
                       FromBigEndian(sig[..a.coord]), FromBigEndian(sig[a.coord..]))
    case EdKind =>
      || (k.EdPublicKey? && |k.octets| == 32 && p.edVerify(k.octets, input, sig))
      || (k.EdPrivateKey? && |k.octets| >= 32 && p.edVerify((k.octets[32..] + Repeat(0, 32))[..32], input, sig))
  }

  lemma VerifyingIsExact(p: Primitives, a: SigAlg, input: bytes, sig: bytes, k: GoKey)
    ensures VerifyOctets(p, a, input, sig, k).Pass? <==> IsConfirmed(p, a, input, sig, k)
  {
  }

  /** Every other failure than that of the signature itself is a failure of the key. */
  lemma BadSignatureIsInvalid(p: Primitives, a: SigAlg, input: bytes, sig: bytes, k: GoKey, good: bytes)
    requires VerifyOctets(p, a, input, good, k).Pass? && VerifyOctets(p, a, input, sig, k).Fail?
    ensures VerifyOctets(p, a, input, sig, k) == Fail(SignatureInvalid)
  {
  }

  /** `vk` checks what the signing key `k` signs: it is k, or the public half of k. */
  ghost predicate Checks(p: Primitives, kind: SigKind, k: GoKey, vk: GoKey) {
    match kind
    case HmacKind => vk == k
    case Pkcs1Kind => k.RsaPrivateKey? && p.rsaValid(k.rsa) && RsaPublic(vk) == Ok((k.rsa.n, k.rsa.e))
    case PssKind => k.RsaPrivateKey? && p.rsaValid(k.rsa) && RsaPublic(vk) == Ok((k.rsa.n, k.rsa.e))
    case EcdsaKind =>
      && k.EcdsaPrivateKey? && p.EcPairOk(k.curve, k.x, k.y, k.d)
      && (vk.EcdsaPublicKey? || vk.EcdsaPrivateKey?) && vk.curve == k.curve && vk.x == k.x && vk.y == k.y
    case EdKind => k.EdPrivateKey? && p.EdPairOk(k.octets) && (vk == k || vk == EdPublicKey(k.octets[32..]))
  }

  /** For every algorithm: a signature is non-empty, and verifies with the matching key. */
  lemma SignatureRoundTrip(p: Primitives, a: SigAlg, input: bytes, k: GoKey, vk: GoKey, seed: bytes)
    requires p.Sized() && p.RsaLaw() && p.EcdsaLaw() && p.EdLaw() && a.Valid() && Checks(p, a.kind, k, vk)
    requires SignOctets(p, a, input, k, seed).Ok?
    ensures var sig := SignOctets(p, a, input, k, seed).value;
            sig != [] && VerifyOctets(p, a, input, sig, vk) == Pass
  {
    hide EncodeRS, DecodeRS, Pow256, BigEndian;
    match a.kind
    case HmacKind =>
    case Pkcs1Kind =>
    case PssKind =>
    case EcdsaKind =>
      var (r, s) := p.ecdsaSign(k.curve, k.d, p.hash(a.hash, input), seed).value;
      RSRoundTrip(r, s, a.coord);
      assert p.EcPairOk(k.curve, k.x, k.y, k.d);
    case EdKind =>
      assert (k.octets[32..] + Repeat(0, 32))[..32] == k.octets[32..];
  }
}
