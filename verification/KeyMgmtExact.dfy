/**
 What encryptKey and decryptKey do, said in terms of the library routines, of RFC 3394 key
 wrapping and of the two KDFs alone: exactly which keys, headers and encrypted keys go together.
 */
module KeyMgmtExact {
  import opened Octets
  import opened Outcomes
  import opened Keys
  import opened Primitives
  import opened Base64Url
  import opened JsonWebKeys
  import opened Ecdh
  import opened ContentEnc
  import opened Signatures
  import opened KeyMgmt
  import ConcatKdf
  import KeyWrap
  import Pbkdf2

  // ---------------------------------------------------------------- header parameters

  /** The parameter is base64url text for these octets. */
  ghost predicate Holds(h: Header, name: string, b: bytes) {
    name in h && h[name] == Str(EncodeSegment(b))
  }

  lemma HeaderBytesIs(h: Header, name: string, b: bytes)
    ensures HeaderBytes(h, name) == Ok(b) <==> Holds(h, name, b)
    ensures HeaderBytesOptional(h, name) == Ok(b) <==> Holds(h, name, b) || (name !in h && b == [])
    ensures HeaderBytes(h, name).Err? ==> HeaderBytes(h, name).error == InvalidHeader
  {
    hide EncodeSegment, DecodeSegment;
    if name in h && h[name].Str? {
      SegmentBijection(h[name].text, b);
    }
  }

  /** A Go int, or a whole float that fits 32 bits. */
  ghost predicate IsInteger(v: Value, n: int) {
    v == Int(n) || (v.Float? && v.float == n as real && -0x8000_0000 <= n <= 0x7FFF_FFFF)
  }

  lemma HeaderIntIs(v: Value, n: int)
    ensures HeaderInt(v) == Ok(n) <==> IsInteger(v, n)
  {
    if v.Float? {
      assert (v.float.Floor as real <= v.float);
    }
  }

  // ---------------------------------------------------------------- the two halves of a key agreement

  /** The public point of a key: an ECDH point as it is, an ECDSA point on its curve in uncompressed form. */
  lemma PublicHalf(p: Primitives, key: GoKey)
    requires p.EcdhLaw()
    ensures key.EcdhPublicKey? ==> AsEcdhPublic(p, key) == Ok(Point(key.curve, key.point))
    ensures key.EcdhPrivateKey? ==> AsEcdhPublic(p, key) == Ok(Point(key.curve, p.ecdhPublic(key.curve, key.scalar)))
    ensures (key.EcdsaPublicKey? || key.EcdsaPrivateKey?) && p.onCurve(key.curve, key.x, key.y) && IsNist(key.curve) ==>
              var size := CoordSize(key.curve);
              AsEcdhPublic(p, key) == Ok(Point(key.curve, [4] + BigEndian(key.x, size) + BigEndian(key.y, size)))
    ensures AsEcdhPublic(p, key) == Err(InvalidKeyType) <==>
            !key.EcdhPublicKey? && !key.EcdhPrivateKey? && !key.EcdsaPublicKey? && !key.EcdsaPrivateKey?
  {
    hide BigEndian, Pow256, FromBigEndian;
    if (key.EcdsaPublicKey? || key.EcdsaPrivateKey?) && p.onCurve(key.curve, key.x, key.y) && IsNist(key.curve) {
      PointRoundTrip(p, key.curve, key.x, key.y);
    }
  }

  lemma PrivateHalf(p: Primitives, key: GoKey, s: Scalar)
    ensures AsEcdhPrivate(p, key) == Ok(s) <==>
            || key == EcdhPrivateKey(s.curve, s.octets)
            || (key.EcdsaPrivateKey? && IsNist(key.curve) && key.d < Pow256(CoordSize(key.curve)) &&
                s.curve == key.curve && s.octets == BigEndian(key.d, CoordSize(key.curve)) &&
                p.validScalar(s.curve, s.octets))
  {
  }

  /** The agreed key: AlgorithmID and size are those of "enc" for direct agreement, else those of "alg". */
  ghost predicate IsAgreed(p: Primitives, km: Mgmt, enc: Enc, priv: Scalar, pub: Point, h: Header, agreed: bytes)
    requires p.Sized()
  {
    && priv.curve == pub.curve
    && exists z, apu, apv ::
         && p.ecdh(priv.curve, priv.octets, pub.octets) == Some(z)
         && (Holds(h, "apu", apu) || ("apu" !in h && apu == []))
         && (Holds(h, "apv", apv) || ("apv" !in h && apv == []))
         && Ok(agreed) == if km.wrapBits == 0 then ConcatKdf.Derive(p, z, enc.name, apu, apv, enc.keySize)
                          else ConcatKdf.Derive(p, z, km.name, apu, apv, km.wrapBits / 8)
  }

  lemma AgreementIsExact(p: Primitives, km: Mgmt, enc: Enc, priv: Scalar, pub: Point, h: Header, agreed: bytes)
    requires p.Sized()
    ensures Agree(p, km, enc, priv, pub, h) == Ok(agreed) <==> IsAgreed(p, km, enc, priv, pub, h, agreed)
  {
    hide Holds, HeaderBytesOptional, ConcatKdf.Derive, p.Sized;
    var u, v := HeaderBytesOptional(h, "apu"), HeaderBytesOptional(h, "apv");
    if Agree(p, km, enc, priv, pub, h) == Ok(agreed) {
      HeaderBytesIs(h, "apu", u.value);
      HeaderBytesIs(h, "apv", v.value);
    }
    if IsAgreed(p, km, enc, priv, pub, h, agreed) {
      var z, apu, apv :|
        && p.ecdh(priv.curve, priv.octets, pub.octets) == Some(z)
        && (Holds(h, "apu", apu) || ("apu" !in h && apu == []))
        && (Holds(h, "apv", apv) || ("apv" !in h && apv == []))
        && Ok(agreed) == if km.wrapBits == 0 then ConcatKdf.Derive(p, z, enc.name, apu, apv, enc.keySize)
                         else ConcatKdf.Derive(p, z, km.name, apu, apv, km.wrapBits / 8);
      HeaderBytesIs(h, "apu", apu);
      HeaderBytesIs(h, "apv", apv);
    }
  }

  // ---------------------------------------------------------------- passwords

  ghost predicate IsPassword(key: GoKey, b: bytes) {
    b != [] && (key == Secret(b) || (key.Password? && OctetsOf(key.password) == b))
  }

  lemma PasswordIs(key: GoKey, b: bytes)
    ensures PasswordKey(key) == Ok(b) <==> IsPassword(key, b)
  {
  }

  /** The key that PBES2 wraps with: the PRF of the name, alg || 0x00 || salt for a salt, bounds on both inputs. */
  ghost predicate IsPbes2Key(p: Primitives, km: Mgmt, key: GoKey, salt: bytes, count: int, kek: bytes)
    requires p.Sized()
  {
    && 8 <= |salt| <= 1024 && 1000 <= count <= 1000000
    && exists password ::
         && IsPassword(key, password)
         && Pbkdf2.Derive(Pbkdf2.Params(p, km.prf, password, OctetsOf(km.name) + [0] + salt), count, km.wrapBits / 8) ==
            Ok(kek)
  }

  // ---------------------------------------------------------------- delivering the CEK

  /** The CEK that is transported: the shared one, or as many fresh octets as enc needs. */
  function TransportedCek(enc: Enc, shared: Option<bytes>, coins: Coins): bytes
    requires enc.Valid() && coins.Fit()
  {
    if shared.Some? then shared.value else coins.cek[..enc.keySize]
  }

  ghost predicate IsAesSecret(key: GoKey, bits: nat) {
    key.Secret? && 8 * |key.octets| == bits
  }

  ghost predicate IsAgreementWrapped(p: Primitives, km: Mgmt, enc: Enc, key: GoKey, h: Header, cek: bytes, coins: Coins,
                                     w: Wrapped)
    requires p.Sized()
  {
    && AsEcdhPublic(p, key).Ok?
    && var pub := AsEcdhPublic(p, key).value;
       var eph := p.ecdhGenerate(pub.curve, coins.ephemeral);
       var epk := FromEcdhPublic(Point(pub.curve, p.ecdhPublic(pub.curve, eph)));
       && epk.Ok? && w.header == h["epk" := JwkToValue(epk.value)]
       && if km.wrapBits == 0 then
            w.encryptedKey == [] && IsAgreed(p, km, enc, Scalar(pub.curve, eph), pub, w.header, w.cek)
          else
            && w.cek == cek
            && exists kek :: IsAgreed(p, km, enc, Scalar(pub.curve, eph), pub, w.header, kek) &&
                             KeyWrap.Wrap(p, kek, cek) == Ok(w.encryptedKey)
  }

  ghost predicate IsPasswordWrapped(p: Primitives, km: Mgmt, key: GoKey, h: Header, cek: bytes, coins: Coins,
                                    w: Wrapped)
    requires p.Sized()
  {
    && w.cek == cek
    && exists salt, count, kek ::
         && AreSettled(h, coins, salt, count) && IsPbes2Key(p, km, key, salt, count, kek)
         && w.header == h["p2s" := Str(EncodeSegment(salt))]["p2c" := Int(count)]
         && KeyWrap.Wrap(p, kek, cek) == Ok(w.encryptedKey)
  }

  ghost predicate IsGcmWrapped(p: Primitives, kek: bytes, h: Header, cek: bytes, coins: Coins, w: Wrapped) {
    && w.cek == cek
    && exists tag: bytes ::
         && |tag| == 16 && w.encryptedKey + tag == p.gcmSeal(kek, coins.gcmIv, cek, [])
         && w.header == h["iv" := Str(EncodeSegment(coins.gcmIv))]["tag" := Str(EncodeSegment(tag))]
  }

  /** Everything that encryptKey may return, kind by kind. */
  ghost predicate IsDelivered(p: Primitives, km: Mgmt, enc: Enc, key: GoKey, h: Header, shared: Option<bytes>,
                              coins: Coins, w: Wrapped)
    requires p.Sized() && enc.Valid() && coins.Fit()
  {
    var cek := TransportedCek(enc, shared, coins);
    match km.kind
    case RsaKind =>
      && w.header == h && w.cek == cek
      && (|| (key.RsaPublicKey? &&
              p.rsaEncrypt(km.oaepHash, key.n, key.e, coins.rsaSeed, cek) == Some(w.encryptedKey))
          || (key.RsaPrivateKey? &&
              p.rsaEncrypt(km.oaepHash, key.rsa.n, key.rsa.e, coins.rsaSeed, cek) == Some(w.encryptedKey)))
    case KwKind =>
      && w.header == h && w.cek == cek && IsAesSecret(key, km.wrapBits)
      && KeyWrap.Wrap(p, key.octets, cek) == Ok(w.encryptedKey)
    case DirKind =>
      shared.None? && w.header == h && key == Secret(w.cek) && |w.cek| == enc.keySize && w.encryptedKey == []
    case EcdhKind =>
      (shared.Some? ==> km.wrapBits != 0) && IsAgreementWrapped(p, km, enc, key, h, cek, coins, w)
    case GcmKwKind => IsAesSecret(key, km.wrapBits) && IsGcmWrapped(p, key.octets, h, cek, coins, w)
    case Pbes2Kind => IsPasswordWrapped(p, km, key, h, cek, coins, w)
  }

  lemma AgreementDelivery(p: Primitives, km: Mgmt, enc: Enc, key: GoKey, h: Header, cek: bytes, coins: Coins,
                          w: Wrapped)
    requires p.Sized()
    ensures EncryptKeyEcdh(p, km, enc, key, h, cek, coins) == Ok(w) <==>
            IsAgreementWrapped(p, km, enc, key, h, cek, coins, w)
  {
    hide AsEcdhPublic, FromEcdhPublic, Agree, IsAgreed, KeyWrap.Wrap, JwkToValue, Writes, p.Sized;
    if AsEcdhPublic(p, key).Ok? {
      var pub := AsEcdhPublic(p, key).value;
      var eph := Scalar(pub.curve, p.ecdhGenerate(pub.curve, coins.ephemeral));
      var epk := FromEcdhPublic(Point(pub.curve, p.ecdhPublic(pub.curve, eph.octets)));
      if epk.Ok? {
        var h' := h["epk" := JwkToValue(epk.value)];
        forall kek
          ensures Agree(p, km, enc, eph, pub, h') == Ok(kek) <==> IsAgreed(p, km, enc, eph, pub, h', kek)
        {
          AgreementIsExact(p, km, enc, eph, pub, h', kek);
        }
      }
    }
  }

  lemma Pbes2KeyIs(p: Primitives, km: Mgmt, key: GoKey, salt: bytes, count: int, kek: bytes)
    requires p.Sized()
    ensures IsPbes2Key(p, km, key, salt, count, kek) <==>
            && CheckSalt(salt).Pass? && 1000 <= count <= 1000000 && PasswordKey(key).Ok?
            && Pbes2Kek(p, km, PasswordKey(key).value, salt, count) == Ok(kek)
  {
    hide Pbkdf2.Derive, PasswordKey, IsPassword, p.Sized;
    if PasswordKey(key).Ok? {
      PasswordIs(key, PasswordKey(key).value);
    }
    if IsPbes2Key(p, km, key, salt, count, kek) {
      var password :| IsPassword(key, password) &&
        Pbkdf2.Derive(Pbkdf2.Params(p, km.prf, password, OctetsOf(km.name) + [0] + salt), count, km.wrapBits / 8) ==
        Ok(kek);
      PasswordIs(key, password);
    }
  }

  /** The salt and the count that the sender settles on, from the header or by default. */
  ghost predicate AreSettled(h: Header, coins: Coins, salt: bytes, count: int) {
    && (if "p2s" in h then Holds(h, "p2s", salt) else salt == coins.salt)
    && (if "p2c" in h then IsInteger(h["p2c"], count) else count == 100000)
  }

  lemma SettledIs(h: Header, coins: Coins, salt: bytes, count: int)
    ensures AreSettled(h, coins, salt, count) && 1000 <= count <= 1000000 <==>
            && Pbes2Count(h) == Ok(count)
            && (if "p2s" in h then HeaderBytes(h, "p2s") else Ok(coins.salt)) == Ok(salt)
  {
    hide HeaderBytes, HeaderInt, Holds, IsInteger;
    HeaderBytesIs(h, "p2s", salt);
    if "p2c" in h {
      HeaderIntIs(h["p2c"], count);
    }
  }

  lemma PasswordDelivery(p: Primitives, km: Mgmt, key: GoKey, h: Header, cek: bytes, coins: Coins, w: Wrapped)
    requires p.Sized()
    ensures EncryptKeyPbes2(p, km, key, h, cek, coins) == Ok(w) <==> IsPasswordWrapped(p, km, key, h, cek, coins, w)
  {
    hide Pbes2Kek, PasswordKey, Pbes2Count, KeyWrap.Wrap, EncodeSegment, HeaderBytes, AreSettled, IsPbes2Key, CheckSalt,
         Writes, p.Sized;
    if EncryptKeyPbes2(p, km, key, h, cek, coins) == Ok(w) {
      var count := Pbes2Count(h).value;
      var salt := if "p2s" in h then HeaderBytes(h, "p2s").value else coins.salt;
      var kek := Pbes2Kek(p, km, PasswordKey(key).value, salt, count).value;
      SettledIs(h, coins, salt, count);
      Pbes2KeyIs(p, km, key, salt, count, kek);
    }
    if IsPasswordWrapped(p, km, key, h, cek, coins, w) {
      var salt, count, kek :|
        && AreSettled(h, coins, salt, count) && IsPbes2Key(p, km, key, salt, count, kek)
        && w.header == h["p2s" := Str(EncodeSegment(salt))]["p2c" := Int(count)]
        && KeyWrap.Wrap(p, kek, cek) == Ok(w.encryptedKey);
      Pbes2KeyIs(p, km, key, salt, count, kek);
      SettledIs(h, coins, salt, count);
    }
  }

  lemma GcmDelivery(p: Primitives, kek: bytes, h: Header, cek: bytes, coins: Coins, w: Wrapped)
    requires p.Sized() && |coins.gcmIv| == 12 && IsAesKey(kek)
    ensures EncryptKeyGcm(p, kek, h, cek, coins) == Ok(w) <==> IsGcmWrapped(p, kek, h, cek, coins, w)
  {
    hide EncodeSegment, Writes;
    var sealed := p.gcmSeal(kek, coins.gcmIv, cek, []);
    var n := |sealed| - 16;
    assert sealed == sealed[..n] + sealed[n..];
    if IsGcmWrapped(p, kek, h, cek, coins, w) {
      var tag: bytes :|
        && |tag| == 16 && w.encryptedKey + tag == p.gcmSeal(kek, coins.gcmIv, cek, [])
        && w.header == h["iv" := Str(EncodeSegment(coins.gcmIv))]["tag" := Str(EncodeSegment(tag))];
      assert sealed[..n] == w.encryptedKey && sealed[n..] == tag;
    }
  }

  /** The kinds that use the key as it is. */
  lemma DirectDelivery(p: Primitives, km: Mgmt, enc: Enc, key: GoKey, h: Header, shared: Option<bytes>, coins: Coins,
                       w: Wrapped)
    requires p.Sized() && km.Valid() && enc.Valid() && coins.Fit()
    requires km.kind.RsaKind? || km.kind.KwKind? || km.kind.DirKind?
    ensures EncryptKey(p, km, enc, key, h, shared, coins) == Ok(w) <==>
            IsDelivered(p, km, enc, key, h, shared, coins, w)
  {
    hide EncryptKeyEcdh, EncryptKeyPbes2, EncryptKeyGcm, KeyWrap.Wrap, Writes, IsAgreementWrapped, IsPasswordWrapped,
         IsGcmWrapped, p.Sized;
  }

  lemma DerivedDelivery(p: Primitives, km: Mgmt, enc: Enc, key: GoKey, h: Header, shared: Option<bytes>, coins: Coins,
                        w: Wrapped)
    requires p.Sized() && km.Valid() && enc.Valid() && coins.Fit() && (km.kind.EcdhKind? || km.kind.Pbes2Kind?)
    ensures EncryptKey(p, km, enc, key, h, shared, coins) == Ok(w) <==>
            IsDelivered(p, km, enc, key, h, shared, coins, w)
  {
    hide EncryptKeyEcdh, EncryptKeyPbes2, EncryptKeyGcm, EncryptKeyRsa, KeyWrap.Wrap, Writes, IsAgreementWrapped,
         IsPasswordWrapped, IsGcmWrapped, p.Sized;
    AgreementDelivery(p, km, enc, key, h, TransportedCek(enc, shared, coins), coins, w);
    PasswordDelivery(p, km, key, h, TransportedCek(enc, shared, coins), coins, w);
  }

  lemma GcmKindDelivery(p: Primitives, km: Mgmt, enc: Enc, key: GoKey, h: Header, shared: Option<bytes>, coins: Coins,
                        w: Wrapped)
    requires p.Sized() && km.Valid() && enc.Valid() && coins.Fit() && km.kind.GcmKwKind?
    ensures EncryptKey(p, km, enc, key, h, shared, coins) == Ok(w) <==>
            IsDelivered(p, km, enc, key, h, shared, coins, w)
  {
    hide EncryptKeyEcdh, EncryptKeyPbes2, EncryptKeyGcm, EncryptKeyRsa, KeyWrap.Wrap, Writes, IsAgreementWrapped,
         IsPasswordWrapped, IsGcmWrapped, p.Sized;
    if IsAesSecret(key, km.wrapBits) {
      GcmDelivery(p, key.octets, h, TransportedCek(enc, shared, coins), coins, w);
    }
  }

  /** encryptKey returns w exactly when w is what its kind of algorithm delivers. */
  lemma DeliveryIsExact(p: Primitives, km: Mgmt, enc: Enc, key: GoKey, h: Header, shared: Option<bytes>, coins: Coins,
                        w: Wrapped)
    requires p.Sized() && km.Valid() && enc.Valid() && coins.Fit()
    ensures EncryptKey(p, km, enc, key, h, shared, coins) == Ok(w) <==>
            IsDelivered(p, km, enc, key, h, shared, coins, w)
  {
    hide EncryptKey, IsDelivered, Writes, p.Sized;
    match km.kind
    case EcdhKind => DerivedDelivery(p, km, enc, key, h, shared, coins, w);
    case Pbes2Kind => DerivedDelivery(p, km, enc, key, h, shared, coins, w);
    case GcmKwKind => GcmKindDelivery(p, km, enc, key, h, shared, coins, w);
    case _ => DirectDelivery(p, km, enc, key, h, shared, coins, w);
  }

  // ---------------------------------------------------------------- recovering the CEK

  ghost predicate IsAgreementRecovered(p: Primitives, km: Mgmt, enc: Enc, key: GoKey, h: Header, ek: bytes, cek: bytes)
    requires p.Sized()
  {
    && AsEcdhPrivate(p, key).Ok? && EpkPoint(p, h).Ok?
    && var priv, pub := AsEcdhPrivate(p, key).value, EpkPoint(p, h).value;
       if km.wrapBits == 0 then ek == [] && IsAgreed(p, km, enc, priv, pub, h, cek)
       else exists kek :: IsAgreed(p, km, enc, priv, pub, h, kek) && KeyWrap.Wrap(p, kek, cek) == Ok(ek)
  }

  /** The ephemeral key of a header: an object that resolves to a public EC or X25519 key. */
  lemma EphemeralIsPublic(p: Primitives, h: Header, q: Point)
    ensures EpkPoint(p, h) == Ok(q) <==>
            && "epk" in h && h["epk"].Object? && MembersToJwk(h["epk"].members).Ok?
            && var j := MembersToJwk(h["epk"].members).value;
               && (j.kty == "EC" || j.kty == "OKP") && j.d == "" && Resolve(p, j).Ok?
               && (Resolve(p, j).value.EcdhPublicKey? || Resolve(p, j).value.EcdsaPublicKey?)
               && AsEcdhPublic(p, Resolve(p, j).value) == Ok(q)
  {
    hide MembersToJwk, B64Int, B64Field, AsEcdhPublic;
  }

  ghost predicate IsPasswordRecovered(p: Primitives, km: Mgmt, key: GoKey, h: Header, ek: bytes, cek: bytes)
    requires p.Sized()
  {
    "p2s" in h && "p2c" in h &&
    exists salt, count, kek ::
      && Holds(h, "p2s", salt) && IsInteger(h["p2c"], count) && IsPbes2Key(p, km, key, salt, count, kek)
      && KeyWrap.Wrap(p, kek, cek) == Ok(ek)
  }

  ghost predicate IsGcmRecovered(p: Primitives, kek: bytes, h: Header, ek: bytes, cek: bytes) {
    exists iv, tag ::
      && Holds(h, "iv", iv) && Holds(h, "tag", tag) && |iv| == 12 && |tag| == 16
      && p.gcmOpen(kek, iv, ek + tag, []) == Some(cek)
  }

  /** Everything that decryptKey may return, kind by kind. */
  ghost predicate IsRecovered(p: Primitives, km: Mgmt, enc: Enc, key: GoKey, h: Header, ek: bytes, cek: bytes)
    requires p.Sized()
  {
    match km.kind
    case RsaKind => key.RsaPrivateKey? && p.rsaDecrypt(km.oaepHash, key.rsa, ek, Repeat(0, enc.keySize)) == Some(cek)
    case KwKind => IsAesSecret(key, km.wrapBits) && KeyWrap.Wrap(p, key.octets, cek) == Ok(ek)
    case DirKind => ek == [] && key == Secret(cek) && |cek| == enc.keySize
    case EcdhKind => IsAgreementRecovered(p, km, enc, key, h, ek, cek)
    case GcmKwKind => IsAesSecret(key, km.wrapBits) && IsGcmRecovered(p, key.octets, h, ek, cek)
    case Pbes2Kind => IsPasswordRecovered(p, km, key, h, ek, cek)
  }

  lemma AgreementRecovery(p: Primitives, km: Mgmt, enc: Enc, key: GoKey, h: Header, ek: bytes, cek: bytes)
    requires p.Sized() && p.AesLaw()
    ensures DecryptKeyEcdh(p, km, enc, key, h, ek) == Ok(cek) <==> IsAgreementRecovered(p, km, enc, key, h, ek, cek)
  {
    hide AsEcdhPrivate, EpkPoint, Agree, IsAgreed, KeyWrap.Wrap, KeyWrap.Unwrap, p.Sized, p.AesLaw;
    if AsEcdhPrivate(p, key).Ok? && EpkPoint(p, h).Ok? {
      var priv, pub := AsEcdhPrivate(p, key).value, EpkPoint(p, h).value;
      forall kek
        ensures Agree(p, km, enc, priv, pub, h) == Ok(kek) <==> IsAgreed(p, km, enc, priv, pub, h, kek)
      {
        AgreementIsExact(p, km, enc, priv, pub, h, kek);
      }
      if Agree(p, km, enc, priv, pub, h).Ok? {
        KeyWrap.UnwrapInvertsWrap(p, Agree(p, km, enc, priv, pub, h).value, cek, ek);
      }
    }
  }

  lemma PasswordRecovery(p: Primitives, km: Mgmt, key: GoKey, h: Header, ek: bytes, cek: bytes)
    requires p.Sized() && p.AesLaw()
    ensures DecryptKeyPbes2(p, km, key, h, ek) == Ok(cek) <==> IsPasswordRecovered(p, km, key, h, ek, cek)
  {
    hide Pbes2Kek, PasswordKey, KeyWrap.Wrap, KeyWrap.Unwrap, HeaderBytes, HeaderInt, Holds, IsInteger, IsPbes2Key,
         CheckSalt, p.Sized, p.AesLaw;
    if DecryptKeyPbes2(p, km, key, h, ek) == Ok(cek) {
      var count, salt := Pbes2Count(h).value, HeaderBytes(h, "p2s").value;
      var kek := Pbes2Kek(p, km, PasswordKey(key).value, salt, count).value;
      HeaderBytesIs(h, "p2s", salt);
      HeaderIntIs(h["p2c"], count);
      Pbes2KeyIs(p, km, key, salt, count, kek);
      KeyWrap.UnwrapInvertsWrap(p, kek, cek, ek);
      HeldIsPresent(h, "p2s", salt);
    }
    if IsPasswordRecovered(p, km, key, h, ek, cek) {
      var salt, count, kek :|
        && Holds(h, "p2s", salt) && IsInteger(h["p2c"], count) && IsPbes2Key(p, km, key, salt, count, kek)
        && KeyWrap.Wrap(p, kek, cek) == Ok(ek);
      HeaderBytesIs(h, "p2s", salt);
      HeaderIntIs(h["p2c"], count);
      Pbes2KeyIs(p, km, key, salt, count, kek);
      KeyWrap.UnwrapInvertsWrap(p, kek, cek, ek);
    }
  }

  lemma HeldIsPresent(h: Header, name: string, b: bytes)
    requires Holds(h, name, b)
    ensures name in h
  {
  }

  lemma GcmRecovery(p: Primitives, kek: bytes, h: Header, ek: bytes, cek: bytes)
    requires IsAesKey(kek)
    ensures DecryptKeyGcm(p, kek, h, ek) == Ok(cek) <==> IsGcmRecovered(p, kek, h, ek, cek)
  {
    hide HeaderBytes, Holds;
    var iv, tag := HeaderBytes(h, "iv"), HeaderBytes(h, "tag");
    if iv.Ok? && tag.Ok? {
      HeaderBytesIs(h, "iv", iv.value);
      HeaderBytesIs(h, "tag", tag.value);
    }
    if IsGcmRecovered(p, kek, h, ek, cek) {
      var v, t :| Holds(h, "iv", v) && Holds(h, "tag", t) && |v| == 12 && |t| == 16 &&
                  p.gcmOpen(kek, v, ek + t, []) == Some(cek);
      HeaderBytesIs(h, "iv", v);
      HeaderBytesIs(h, "tag", t);
    }
  }

  /** decryptKey returns cek exactly when cek is what its kind of algorithm recovers. */
  lemma RecoveryIsExact(p: Primitives, km: Mgmt, enc: Enc, key: GoKey, h: Header, ek: bytes, cek: bytes)
    requires p.Sized() && p.AesLaw() && km.Valid()
    ensures DecryptKey(p, km, enc, key, h, ek) == Ok(cek) <==> IsRecovered(p, km, enc, key, h, ek, cek)
  {
    hide DecryptKeyEcdh, DecryptKeyPbes2, DecryptKeyGcm, KeyWrap.Wrap, KeyWrap.Unwrap, IsAgreementRecovered,
         IsPasswordRecovered, IsGcmRecovered, p.Sized, p.AesLaw;
    match km.kind
    case EcdhKind => AgreementRecovery(p, km, enc, key, h, ek, cek);
    case Pbes2Kind => PasswordRecovery(p, km, key, h, ek, cek);
    case GcmKwKind =>
      if IsAesSecret(key, km.wrapBits) {
        GcmRecovery(p, key.octets, h, ek, cek);
      }
    case KwKind =>
      if IsAesSecret(key, km.wrapBits) {
        KeyWrap.UnwrapInvertsWrap(p, key.octets, cek, ek);
      }
    case _ =>
  }

  // ---------------------------------------------------------------- by name

  /** RSA1_5 encrypts the CEK with PKCS #1 v1.5, RSA-OAEP with SHA-1 and RSA-OAEP-256 with SHA-256; decryption alike. */
  lemma RsaByName(p: Primitives, km: Mgmt, enc: Enc, key: GoKey, n: nat, e: nat, h: Header, shared: Option<bytes>,
                  coins: Coins, w: Wrapped)
    requires p.Sized() && enc.Valid() && coins.Fit() && LookupKeyMgmt(km.name) == Ok(km)
    requires km.name == "RSA1_5" || km.name == "RSA-OAEP" || km.name == "RSA-OAEP-256"
    requires key == RsaPublicKey(n, e) && EncryptKey(p, km, enc, key, h, shared, coins) == Ok(w)
    ensures w.cek == TransportedCek(enc, shared, coins)
    ensures km.name == "RSA1_5" ==> p.rsaEncrypt(None, n, e, coins.rsaSeed, w.cek) == Some(w.encryptedKey)
    ensures km.name == "RSA-OAEP" ==> p.rsaEncrypt(Some(SHA1), n, e, coins.rsaSeed, w.cek) == Some(w.encryptedKey)
    ensures km.name == "RSA-OAEP-256" ==> p.rsaEncrypt(Some(SHA256), n, e, coins.rsaSeed, w.cek) == Some(w.encryptedKey)
  {
    hide LookupKeyMgmt, EncryptKey, TransportedCek, Writes, p.Sized;
    KeyMgmtKinds(km.name);
    KeyMgmtHashes(km.name);
    DeliveryIsExact(p, km, enc, key, h, shared, coins, w);
  }

  /** "ECDH-ES" binds the name and key size of "enc" into the agreed key; the others their own name and 16, 24 or 32. */
  lemma AgreementByName(p: Primitives, km: Mgmt, enc: Enc, priv: Scalar, pub: Point, h: Header, agreed: bytes)
    requires p.Sized() && LookupKeyMgmt(km.name) == Ok(km) && km.kind.EcdhKind?
    requires Agree(p, km, enc, priv, pub, h) == Ok(agreed) && "apu" !in h && "apv" !in h
    ensures var z := p.ecdh(priv.curve, priv.octets, pub.octets);
            && z.Some?
            && (km.name == "ECDH-ES" ==> ConcatKdf.Derive(p, z.value, enc.name, [], [], enc.keySize) == Ok(agreed))
            && (km.name == "ECDH-ES+A128KW" ==>
                  ConcatKdf.Derive(p, z.value, "ECDH-ES+A128KW", [], [], 16) == Ok(agreed))
            && (km.name == "ECDH-ES+A192KW" ==>
                  ConcatKdf.Derive(p, z.value, "ECDH-ES+A192KW", [], [], 24) == Ok(agreed))
            && (km.name == "ECDH-ES+A256KW" ==>
                  ConcatKdf.Derive(p, z.value, "ECDH-ES+A256KW", [], [], 32) == Ok(agreed))
  {
    hide LookupKeyMgmt, ConcatKdf.Derive, p.Sized;
    KeyMgmtSizes(km.name);
  }
}
