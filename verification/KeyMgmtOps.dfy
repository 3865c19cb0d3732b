/** Key management in the form of jwa_keymgmt.go: encryptKey writes into the caller's header map. */
module KeyMgmtOps {
  import opened Octets
  import opened Outcomes
  import opened Keys
  import opened Primitives
  import opened Base64Url
  import opened Headers
  import opened JsonWebKeys
  import opened Ecdh
  import opened ContentEnc
  import opened Signatures
  import opened KeyMgmt
  import ConcatKdf
  import KeyWrap
  import Pbkdf2

  /** A call delivers what the specification says, and leaves the header map as it says. */
  ghost predicate Delivers(spec: Result<Wrapped>, r: Result<(bytes, bytes)>, entries: Header) {
    match spec
    case Ok(w) => r == Ok((w.cek, w.encryptedKey)) && entries == w.header
    case Err(e) => r == Err(e)
  }

  /** Whatever the outcome, parameters other than these are as they were. */
  ghost predicate KeepsOthers(h: Header, h': Header, names: set<string>) {
    forall n :: n !in names ==> (n in h' <==> n in h) && (n in h ==> h'[n] == h[n])
  }

  /** The map that encryptKeyECDH leaves, also when a step after the writing of "epk" fails. */
  function EcdhHeaderLeft(p: Primitives, key: GoKey, h: Header, coins: Coins): Header {
    match AsEcdhPublic(p, key)
    case Err(_) => h
    case Ok(pub) =>
      var eph := p.ecdhGenerate(pub.curve, coins.ephemeral);
      match FromEcdhPublic(Point(pub.curve, p.ecdhPublic(pub.curve, eph)))
      case Err(_) => h
      case Ok(epk) => h["epk" := JwkToValue(epk)]
  }

  /** The map that encryptKeyPBES2 leaves: both parameters are written once all inputs are acceptable. */
  function Pbes2HeaderLeft(key: GoKey, h: Header, coins: Coins): Header {
    var salt := if "p2s" in h then HeaderBytes(h, "p2s") else Ok(coins.salt);
    if PasswordKey(key).Err? || Pbes2Count(h).Err? || salt.Err? || CheckSalt(salt.value).Fail? then h
    else h["p2s" := Str(EncodeSegment(salt.value))]["p2c" := Int(Pbes2Count(h).value)]
  }

  /** The map that encryptKey leaves, whether it succeeds or not. */
  function HeaderLeft(p: Primitives, km: Mgmt, enc: Enc, key: GoKey, h: Header, shared: Option<bytes>, coins: Coins)
    : Header
    requires p.Sized() && enc.Valid() && coins.Fit()
  {
    if shared.Some? && km.DerivesCek() then h
    else if km.kind.EcdhKind? then EcdhHeaderLeft(p, key, h, coins)
    else if km.kind.Pbes2Kind? then Pbes2HeaderLeft(key, h, coins)
    else
      match EncryptKey(p, km, enc, key, h, shared, coins)
      case Ok(w) => w.header
      case Err(_) => h
  }

  /** ecdhDerive, running the Concat KDF. */
  method DeriveAgreed(p: Primitives, priv: Scalar, pub: Point, algID: string, apu: bytes, apv: bytes, keyLen: nat)
    returns (r: Result<bytes>)
    requires p.Sized()
    ensures r == EcdhDerive(p, priv, pub, algID, apu, apv, keyLen)
  {
    if priv.curve != pub.curve {
      return Err(InvalidKey);
    }
    var z := p.ecdh(priv.curve, priv.octets, pub.octets);
    if z.None? {
      return Err(InvalidKey);
    }
    r := ConcatKdf.ConcatKDF(p, z.value, algID, apu, apv, keyLen);
  }

  method EncryptKeyECDH(p: Primitives, km: Mgmt, enc: Enc, key: GoKey, header: HeaderMap, cek: bytes, coins: Coins)
    returns (r: Result<(bytes, bytes)>)
    requires p.Sized()
    modifies header
    ensures Delivers(EncryptKeyEcdh(p, km, enc, key, old(header.entries), cek, coins), r, header.entries)
    ensures header.entries == EcdhHeaderLeft(p, key, old(header.entries), coins)
    ensures KeepsOthers(old(header.entries), header.entries, {"epk"})
  {
    hide AsEcdhPublic, FromEcdhPublic, EcdhDerive, HeaderBytesOptional, KeyWrap.Wrap, JwkToValue, Writes, p.Sized;
    var pub := AsEcdhPublic(p, key);
    if pub.Err? {
      return Err(pub.error);
    }
    var eph := Scalar(pub.value.curve, p.ecdhGenerate(pub.value.curve, coins.ephemeral));
    var epk := FromEcdhPublic(Point(eph.curve, p.ecdhPublic(eph.curve, eph.octets)));
    if epk.Err? {
      return Err(epk.error);
    }
    header.Set("epk", JwkToValue(epk.value));
    var apu := HeaderBytesOptional(header.entries, "apu");
    if apu.Err? {
      return Err(apu.error);
    }
    var apv := HeaderBytesOptional(header.entries, "apv");
    if apv.Err? {
      return Err(apv.error);
    }
    var (algID, keyLen) := EcdhAlgId(km, enc);
    var agreed := DeriveAgreed(p, eph, pub.value, algID, apu.value, apv.value, keyLen);
    if agreed.Err? {
      return Err(agreed.error);
    }
    if km.wrapBits == 0 {
      return Ok((agreed.value, []));
    }
    var ek := KeyWrap.AESKeyWrap(p, agreed.value, cek);
    return if ek.Ok? then Ok((cek, ek.value)) else Err(ek.error);
  }

  method EncryptKeyPBES2(p: Primitives, km: Mgmt, key: GoKey, header: HeaderMap, cek: bytes, coins: Coins)
    returns (r: Result<(bytes, bytes)>)
    requires p.Sized()
    modifies header
    ensures Delivers(EncryptKeyPbes2(p, km, key, old(header.entries), cek, coins), r, header.entries)
    ensures header.entries == Pbes2HeaderLeft(key, old(header.entries), coins)
    ensures KeepsOthers(old(header.entries), header.entries, {"p2s", "p2c"})
  {
    hide PasswordKey, HeaderBytes, Pbkdf2.Derive, KeyWrap.Wrap, Pbkdf2.SaltInput, EncodeSegment, p.Sized, HeaderInt,
         Writes;
    var password := PasswordKey(key);
    if password.Err? {
      return Err(password.error);
    }
    var count: int := Pbkdf2.DEFAULT_COUNT;
    if "p2c" in header.entries {
      var given := HeaderInt(header.entries["p2c"]);
      if given.Err? {
        return Err(given.error);
      }
      count := given.value;
    }
    if count < Pbkdf2.MIN_COUNT || count > Pbkdf2.MAX_COUNT {
      return Err(IterationCount);
    }
    var salt := coins.salt;
    if "p2s" in header.entries {
      var given := HeaderBytes(header.entries, "p2s");
      if given.Err? {
        return Err(given.error);
      }
      salt := given.value;
    }
    if |salt| < 8 || |salt| > Pbkdf2.MAX_SALT_INPUT {
      return Err(InvalidHeader);
    }
    header.Set("p2s", Str(EncodeSegment(salt)));
    header.Set("p2c", Int(count));
    var kek, _ := Pbkdf2.PBKDF2(p, password.value, Pbkdf2.SaltInput(km.name, salt), count, km.WrapKeySize(), km.prf);
    if kek.Err? {
      return Err(kek.error);
    }
    var ek := KeyWrap.AESKeyWrap(p, kek.value, cek);
    return if ek.Ok? then Ok((cek, ek.value)) else Err(ek.error);
  }

  /** keyMgmt.encryptKey. */
  method EncryptKeyInto(p: Primitives, km: Mgmt, enc: Enc, key: GoKey, header: HeaderMap, shared: Option<bytes>,
                        coins: Coins)
    returns (r: Result<(bytes, bytes)>)
    requires p.Sized() && enc.Valid() && coins.Fit()
    modifies header
    ensures Delivers(EncryptKey(p, km, enc, key, old(header.entries), shared, coins), r, header.entries)
    ensures header.entries == HeaderLeft(p, km, enc, key, old(header.entries), shared, coins)
    ensures KeepsOthers(old(header.entries), header.entries, km.Outputs())
  {
    hide EncryptKeyEcdh, EncryptKeyPbes2, EcdhHeaderLeft, Pbes2HeaderLeft, KeyWrap.Wrap, EncryptGcm, RsaPublic,
         EncodeSegment, p.Sized, Writes;
    if shared.Some? && km.DerivesCek() {
      return Err(UnsupportedAlgorithm);
    }
    var cek := if shared.Some? then shared.value else coins.cek[..enc.keySize];
    match km.kind
    case RsaKind =>
      var pub := RsaPublic(key);
      if pub.Err? {
        return Err(pub.error);
      }
      var ek := p.rsaEncrypt(km.oaepHash, pub.value.0, pub.value.1, coins.rsaSeed, cek);
      return if ek.Some? then Ok((cek, ek.value)) else Err(Library);
    case KwKind =>
      var kek := SymmetricKey(key, km.WrapKeySize());
      if kek.Err? {
        return Err(kek.error);
      }
      var ek := KeyWrap.AESKeyWrap(p, kek.value, cek);
      return if ek.Ok? then Ok((cek, ek.value)) else Err(ek.error);
    case DirKind =>
      var derived := SymmetricKey(key, enc.keySize);
      return if derived.Ok? then Ok((derived.value, [])) else Err(derived.error);
    case EcdhKind =>
      r := EncryptKeyECDH(p, km, enc, key, header, cek, coins);
    case GcmKwKind =>
      var kek := SymmetricKey(key, km.WrapKeySize());
      if kek.Err? {
        return Err(kek.error);
      }
      if !IsAesKey(kek.value) {
        return Err(InvalidKey);
      }
      var s := EncryptGcm(p, kek.value, cek, [], coins.gcmIv);
      header.Set("iv", Str(EncodeSegment(s.iv)));
      header.Set("tag", Str(EncodeSegment(s.tag)));
      return Ok((cek, s.ciphertext));
    case Pbes2Kind =>
      r := EncryptKeyPBES2(p, km, key, header, cek, coins);
  }

  /** decryptKeyPBES2: the attacker's count is bounded before any work, so at most a million PRF calls are made. */
  method DecryptKeyPBES2(p: Primitives, km: Mgmt, key: GoKey, header: Header, ek: bytes)
    returns (r: Result<bytes>, ghost calls: nat)
    requires p.Sized() && km.Valid() && km.kind.Pbes2Kind?
    ensures r == DecryptKeyPbes2(p, km, key, header, ek)
    ensures calls <= 1000000
  {
    hide PasswordKey, HeaderBytes, Pbkdf2.Derive, KeyWrap.Unwrap, Pbkdf2.SaltInput, p.Sized, HeaderInt;
    calls := 0;
    var password := PasswordKey(key);
    if password.Err? {
      return Err(password.error), 0;
    }
    if "p2c" !in header {
      return Err(InvalidHeader), 0;
    }
    var count := HeaderInt(header["p2c"]);
    if count.Err? {
      return Err(count.error), 0;
    }
    if count.value < Pbkdf2.MIN_COUNT || count.value > Pbkdf2.MAX_COUNT {
      return Err(IterationCount), 0;
    }
    var salt := HeaderBytes(header, "p2s");
    if salt.Err? {
      return Err(salt.error), 0;
    }
    if |salt.value| < 8 || |salt.value| > Pbkdf2.MAX_SALT_INPUT {
      return Err(InvalidHeader), 0;
    }
    ghost var made;
    var kek;
    var input := Pbkdf2.SaltInput(km.name, salt.value);
    kek, made := Pbkdf2.PBKDF2(p, password.value, input, count.value, km.WrapKeySize(), km.prf);
    if kek.Err? {
      return Err(kek.error), 0;
    }
    assert BlockCount(km.WrapKeySize(), HashLen(km.prf)) == 1;
    r := KeyWrap.AESKeyUnwrap(p, kek.value, ek);
    calls := made;
  }
}
