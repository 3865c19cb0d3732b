/**
 Exactly which documents are encrypted and decrypted, and from which headers, keys and octets:
 said in terms of the library routines, with the additional data of section 5.1 of RFC 7516
 written out.
 */
module JweExact {
  import opened Octets
  import opened Outcomes
  import opened Keys
  import opened Primitives
  import opened Base64Url
  import opened Headers
  import opened JsonWebKeys
  import opened KeyMgmt
  import opened KeyMgmtExact
  import opened Tokens
  import opened Jwe
  import JweProperties
  import C = ContentEnc

  // ---------------------------------------------------------------- what a header chooses

  /** The parameter is a non-empty string that the caller admits. */
  ghost predicate IsAdmitted(h: Header, name: string, value: string, admitted: seq<string>) {
    name in h && h[name] == Str(value) && value != "" && (admitted == [] || value in admitted)
  }

  ghost predicate IsChosen(p: Primitives, h: Header, key: KeyArg, opts: DecryptOptions, km: Mgmt, enc: C.Enc, k: GoKey)
  {
    && IsAdmitted(h, "alg", km.name, opts.algorithms) && LookupKeyMgmt(km.name) == Ok(km)
    && IsAdmitted(h, "enc", enc.name, opts.encryptions) && C.LookupEnc(enc.name) == Ok(enc)
    && ResolveKey(p, key, KidOf(h)) == Ok(k)
    && UsedAsPermitted(p, key, KidOf(h), k, "enc", [km.name, enc.name], ["decrypt", "unwrapKey", "deriveKey"])
  }

  lemma ChoiceIsExact(p: Primitives, h: Header, key: KeyArg, opts: DecryptOptions, km: Mgmt, enc: C.Enc, k: GoKey)
    ensures Choose(p, h, key, opts) == Ok(Choice(km, enc, k)) <==> IsChosen(p, h, key, opts, km, enc, k)
  {
    hide LookupKeyMgmt, C.LookupEnc, CheckJwkUsage, ResolveKey, UsedAsPermitted;
    var alg, encName := StringParam(h, "alg"), StringParam(h, "enc");
    if ResolveKey(p, key, KidOf(h)).Ok? {
      KeyUsedIsKeyChecked(p, key, KidOf(h), "enc", [alg, encName], ["decrypt", "unwrapKey", "deriveKey"]);
    }
  }

  // ---------------------------------------------------------------- decrypting for one recipient

  /** The body is the plaintext, or inflates to it within the limit; the largest limit reads nothing. */
  ghost predicate IsInflated(p: Primitives, h: Header, body: bytes, opts: DecryptOptions, plaintext: bytes) {
    if "zip" !in h then plaintext == body
    else
      var limit: int := if opts.maxDecompressed <= 0 then 16 * 1024 * 1024 else opts.maxDecompressed;
      && h["zip"] == Str("DEF")
      && if limit == 0x7FFF_FFFF_FFFF_FFFF then plaintext == []
         else p.inflate(body, limit + 1) == Some(plaintext) && |plaintext| <= limit
  }

  lemma InflatingIsExact(p: Primitives, h: Header, body: bytes, opts: DecryptOptions, plaintext: bytes)
    ensures MaybeInflate(p, h, body, opts) == Ok(plaintext) <==> IsInflated(p, h, body, opts, plaintext)
  {
  }

  /** A longer plaintext than the limit has an error of its own. */
  lemma TooLongIsLimited(p: Primitives, h: Header, body: bytes, opts: DecryptOptions, out: bytes)
    requires "zip" in h && h["zip"] == Str("DEF") && 0 < opts.maxDecompressed < 0x7FFF_FFFF_FFFF_FFFF
    requires p.inflate(body, opts.maxDecompressed + 1) == Some(out) && |out| > opts.maxDecompressed
    ensures MaybeInflate(p, h, body, opts) == Err(CompressionLimit)
  {
  }

  /** Everything that has to hold for one recipient to decrypt to this plaintext. */
  ghost predicate IsDecrypted(p: Primitives, h: Header, ek: bytes, s: C.Sealed, aad: bytes, key: KeyArg,
                              opts: DecryptOptions, plaintext: bytes)
    requires p.Sized()
  {
    exists km, enc, k, cek, body ::
      && IsChosen(p, h, key, opts, km, enc, k)
      && IsRecovered(p, km, enc, k, h, ek, cek) && C.IsSealed(p, enc, cek, body, aad, s)
      && IsInflated(p, h, body, opts, plaintext)
  }

  lemma DecryptionIsExact(p: Primitives, h: Header, ek: bytes, s: C.Sealed, aad: bytes, key: KeyArg,
                          opts: DecryptOptions, plaintext: bytes)
    requires p.Sized() && p.AesLaw() && p.GcmLaw()
    ensures DecryptOne(p, h, ek, s, aad, key, opts) == Ok(plaintext) <==>
            IsDecrypted(p, h, ek, s, aad, key, opts, plaintext)
  {
    hide Choose, DecryptKey, C.Decrypt, MaybeInflate, IsChosen, IsRecovered, C.IsSealed, IsInflated, p.Sized, p.AesLaw,
         p.GcmLaw;
    if DecryptOne(p, h, ek, s, aad, key, opts) == Ok(plaintext) {
      var c := Choose(p, h, key, opts).value;
      var cek := DecryptKey(p, c.km, c.enc, c.key, h, ek).value;
      var body := C.Decrypt(p, c.enc, cek, s, aad).value;
      ChoiceIsExact(p, h, key, opts, c.km, c.enc, c.key);
      RecoveryIsExact(p, c.km, c.enc, c.key, h, ek, cek);
      C.SealingIsExact(p, c.enc, cek, body, aad, s);
      InflatingIsExact(p, h, body, opts, plaintext);
    }
    if IsDecrypted(p, h, ek, s, aad, key, opts, plaintext) {
      var km, enc, k, cek, body :|
        && IsChosen(p, h, key, opts, km, enc, k)
        && IsRecovered(p, km, enc, k, h, ek, cek) && C.IsSealed(p, enc, cek, body, aad, s)
        && IsInflated(p, h, body, opts, plaintext);
      ChoiceIsExact(p, h, key, opts, km, enc, k);
      RecoveryIsExact(p, km, enc, k, h, ek, cek);
      C.SealingIsExact(p, enc, cek, body, aad, s);
      C.SealedHasSizes(p, enc, cek, body, aad, s);
      InflatingIsExact(p, h, body, opts, plaintext);
    }
  }

  lemma OptionalIs(s: string, b: bytes)
    ensures DecodeOptional(s) == Ok(b) <==> s == EncodeSegment(b)
  {
    hide EncodeSegment, DecodeSegment;
    SegmentBijection(s, b);
    assert EncodeSegment([]) == "";
    if s == "" && b != [] {
      EncodingIsLonger(b);
    }
  }

  /** Decrypt accepts exactly the tokens of five parts that decrypt under an understood header. */
  lemma TokenDecryptionIsExact(p: Primitives, token: string, key: KeyArg, opts: DecryptOptions, plaintext: bytes,
                               header: Header)
    requires p.Sized() && p.AesLaw() && p.GcmLaw()
    ensures DecryptCompact(p, token, key, opts) == Ok((plaintext, header)) <==>
            exists a, ek, s: C.Sealed ::
              && '.' !in a && token == a + "." + EncodeSegment(ek) + "." + EncodeSegment(s.iv) + "." +
                                       EncodeSegment(s.ciphertext) + "." + EncodeSegment(s.tag)
              && DecodeHeader(p, a) == Ok(header) && IsUnderstood(header, opts.knownCritical)
              && IsDecrypted(p, header, ek, s, OctetsOf(a), key, opts, plaintext)
  {
    hide DecodeHeader, DecryptOne, IsDecrypted, IsUnderstood, CheckCritical, DecodeOptional, EncodeSegment, Split, Join,
         p.Sized, p.AesLaw, p.GcmLaw;
    if DecryptCompact(p, token, key, opts) == Ok((plaintext, header)) {
      var parts := Split(token);
      var seg := DecodeParts(parts).value;
      var s := C.Sealed(seg[1], seg[2], seg[3]);
      PartsOfToken(token);
      OptionalIs(parts[1], seg[0]);
      OptionalIs(parts[2], s.iv);
      OptionalIs(parts[3], s.ciphertext);
      OptionalIs(parts[4], s.tag);
      CriticalIsUnderstood(header, opts.knownCritical);
      DecryptionIsExact(p, header, seg[0], s, OctetsOf(parts[0]), key, opts, plaintext);
      assert parts == [parts[0], parts[1], parts[2], parts[3], parts[4]];
      JoinedParts(parts[0], parts[1], parts[2], parts[3], parts[4]);
    }
    if a, ek, s: C.Sealed :|
         && '.' !in a && token == a + "." + EncodeSegment(ek) + "." + EncodeSegment(s.iv) + "." +
                                  EncodeSegment(s.ciphertext) + "." + EncodeSegment(s.tag)
         && DecodeHeader(p, a) == Ok(header) && IsUnderstood(header, opts.knownCritical)
         && IsDecrypted(p, header, ek, s, OctetsOf(a), key, opts, plaintext) {
      var parts := [a, EncodeSegment(ek), EncodeSegment(s.iv), EncodeSegment(s.ciphertext), EncodeSegment(s.tag)];
      JoinedParts(parts[0], parts[1], parts[2], parts[3], parts[4]);
      SplitJoined(parts);
      OptionalIs(parts[1], ek);
      OptionalIs(parts[2], s.iv);
      OptionalIs(parts[3], s.ciphertext);
      OptionalIs(parts[4], s.tag);
      CriticalIsUnderstood(header, opts.knownCritical);
      DecryptionIsExact(p, header, ek, s, OctetsOf(a), key, opts, plaintext);
    }
  }

  // ---------------------------------------------------------------- encrypting for one recipient

  /** The algorithm: the caller's, else the JWK's own if it is one for keys, else the usual one for the key's type. */
  ghost predicate IsChosenAlg(key: KeyArg, k: GoKey, algorithm: string, alg: string) {
    if algorithm != "" then alg == algorithm
    else if key.JwkArg? && key.jwk.Some? && key.jwk.value.alg != "" && LookupKeyMgmt(key.jwk.value.alg).Ok? then
      alg == key.jwk.value.alg
    else DefaultKeyMgmtAlg(k) == Ok(alg)
  }

  ghost predicate IsEncName(opts: EncryptOptions, name: string) {
    name == if opts.encryption == "" then "A256GCM" else opts.encryption
  }

  /** The caller's parameters, the additional ones first, and those that the options and the JWK give. */
  ghost predicate IsCompactHeader(h: Header, key: KeyArg, opts: EncryptOptions, alg: string, encName: string) {
    var given := opts.header + opts.additional;
    && (forall n :: n !in {"alg", "enc", "kid", "zip"} ==> IsCallers(h, given, n))
    && "alg" in h && h["alg"] == Str(alg) && "enc" in h && h["enc"] == Str(encName)
    && (if opts.compress then "zip" in h && h["zip"] == Str("DEF") else IsCallers(h, given, "zip"))
    && (if opts.keyId != "" then "kid" in h && h["kid"] == Str(opts.keyId)
        else if key.JwkArg? && key.jwk.Some? && key.jwk.value.kid != "" && "kid" !in given then
          "kid" in h && h["kid"] == Str(key.jwk.value.kid)
        else IsCallers(h, given, "kid"))
  }

  lemma CompactHeaderIs(key: KeyArg, opts: EncryptOptions, alg: string, h: Header)
    ensures CompactHeader(key, opts, alg) == h <==> IsCompactHeader(h, key, opts, alg, EncName(opts))
  {
    hide CopyHeader;
    CopyOfTwo(opts.header, opts.additional);
    var built := CompactHeader(key, opts, alg);
    assert IsCompactHeader(built, key, opts, alg, EncName(opts));
    if IsCompactHeader(h, key, opts, alg, EncName(opts)) {
      SameCompactHeader(h, built, key, opts, alg, EncName(opts));
    }
  }

  lemma SameCompactHeader(h: Header, h': Header, key: KeyArg, opts: EncryptOptions, alg: string, encName: string)
    requires IsCompactHeader(h, key, opts, alg, encName) && IsCompactHeader(h', key, opts, alg, encName)
    ensures h == h'
  {
    var given := opts.header + opts.additional;
    forall n
      ensures (n in h <==> n in h') && (n in h ==> h[n] == h'[n])
    {
      if n !in {"alg", "enc", "kid", "zip"} {
        assert IsCallers(h, given, n) && IsCallers(h', given, n);
      }
    }
    assert h.Keys == h'.Keys;
  }

  /** What is decided before any cryptography. */
  ghost predicate IsPlanned(p: Primitives, key: KeyArg, opts: EncryptOptions, k: GoKey, km: Mgmt, enc: C.Enc, h: Header)
  {
    && opts.unprotected == map[] && opts.aad == []
    && ResolveKey(p, key, opts.keyId) == Ok(k)
    && IsChosenAlg(key, k, opts.algorithm, km.name) && LookupKeyMgmt(km.name) == Ok(km)
    && IsEncName(opts, enc.name) && C.LookupEnc(enc.name) == Ok(enc)
    && UsedAsPermitted(p, key, opts.keyId, k, "enc", [km.name, enc.name], ["encrypt", "wrapKey", "deriveKey"])
    && IsCompactHeader(h, key, opts, km.name, enc.name) && IsProducible(h)
  }

  lemma PlanIsExact(p: Primitives, key: KeyArg, opts: EncryptOptions, k: GoKey, km: Mgmt, enc: C.Enc, h: Header)
    ensures PlanEncryption(p, key, opts) == Ok(Plan(k, km, enc, h)) <==> IsPlanned(p, key, opts, k, km, enc, h)
  {
    hide LookupKeyMgmt, C.LookupEnc, CheckJwkUsage, ResolveKey, UsedAsPermitted, CompactHeader, IsCompactHeader,
         CheckCriticalProduced, IsProducible, DefaultKeyMgmtAlg;
    if ResolveKey(p, key, opts.keyId).Ok? {
      var resolved := ResolveKey(p, key, opts.keyId).value;
      var chosen := KeyMgmtAlg(key, resolved, opts.algorithm);
      assert chosen == Ok(km.name) <==> IsChosenAlg(key, resolved, opts.algorithm, km.name);
      if chosen.Ok? {
        KeyUsedIsKeyChecked(p, key, opts.keyId, "enc", [chosen.value, EncName(opts)],
                            ["encrypt", "wrapKey", "deriveKey"]);
        CompactHeaderIs(key, opts, chosen.value, h);
        ProducibleIs(h);
      }
    }
  }

  /** The octets that are sealed: the plaintext, deflated when "zip" is "DEF"; an empty or other value means neither. */
  ghost predicate IsCompressed(p: Primitives, h: Header, plaintext: bytes, body: bytes) {
    if "zip" in h && h["zip"].Str? && h["zip"].text != "" then h["zip"].text == "DEF" && body == p.deflate(plaintext)
    else body == plaintext
  }

  /** Everything that has to hold for this token to be produced. */
  ghost predicate IsToken(p: Primitives, plaintext: bytes, key: KeyArg, opts: EncryptOptions, coins: Coins, iv: bytes,
                          token: string, k: GoKey, km: Mgmt, enc: C.Enc, h: Header, w: Wrapped, body: bytes,
                          s: C.Sealed)
    requires p.Sized() && coins.Fit() && |iv| == 16
  {
    && IsPlanned(p, key, opts, k, km, enc, h)
    && enc.Valid() && IsDelivered(p, km, enc, k, h, None, coins, w)
    && IsCompressed(p, w.header, plaintext, body) && p.headerToJson(w.header).Some?
    && var protectedB64 := EncodeSegment(p.headerToJson(w.header).value);
       && s.iv == (if enc.gcm then iv[..12] else iv) && C.IsSealed(p, enc, w.cek, body, OctetsOf(protectedB64), s)
       && token == protectedB64 + "." + EncodeSegment(w.encryptedKey) + "." + EncodeSegment(s.iv) + "." +
                   EncodeSegment(s.ciphertext) + "." + EncodeSegment(s.tag)
  }

  /** Encrypt returns exactly such tokens. */
  lemma TokenIsExact(p: Primitives, plaintext: bytes, key: KeyArg, opts: EncryptOptions, coins: Coins, iv: bytes,
                     token: string)
    requires p.Sized() && p.AesLaw() && p.GcmLaw() && coins.Fit() && |iv| == 16
    ensures EncryptCompact(p, plaintext, key, opts, coins, iv) == Ok(token) <==>
            exists k, km, enc, h, w, body, s ::
              IsToken(p, plaintext, key, opts, coins, iv, token, k, km, enc, h, w, body, s)
  {
    hide PlanEncryption, EncryptKey, C.Encrypt, IsPlanned, IsDelivered, C.IsSealed, EncodeSegment, Join, Writes,
         p.Sized, p.AesLaw, p.GcmLaw;
    if EncryptCompact(p, plaintext, key, opts, coins, iv) == Ok(token) {
      var plan := PlanEncryption(p, key, opts).value;
      var w := EncryptKey(p, plan.km, plan.enc, plan.key, plan.header, None, coins).value;
      var body := Compressed(p, w.header, plaintext).value;
      var protectedB64 := EncodeHeader(p, w.header).value;
      var nonce := iv[..plan.enc.IvSize()];
      var s := C.Encrypt(p, plan.enc, w.cek, body, OctetsOf(protectedB64), nonce).value;
      PlanIsExact(p, key, opts, plan.key, plan.km, plan.enc, plan.header);
      DeliveryIsExact(p, plan.km, plan.enc, plan.key, plan.header, None, coins, w);
      SealingStep(p, plan.enc, w.cek, body, OctetsOf(protectedB64), iv, s);
      JoinedParts(protectedB64, EncodeSegment(w.encryptedKey), EncodeSegment(s.iv), EncodeSegment(s.ciphertext),
                  EncodeSegment(s.tag));
      assert IsToken(p, plaintext, key, opts, coins, iv, token, plan.key, plan.km, plan.enc, plan.header, w, body, s);
    }
    if k, km, enc, h, w, body, s :| IsToken(p, plaintext, key, opts, coins, iv, token, k, km, enc, h, w, body, s) {
      var protectedB64 := EncodeSegment(p.headerToJson(w.header).value);
      PlanIsExact(p, key, opts, k, km, enc, h);
      DeliveryIsExact(p, km, enc, k, h, None, coins, w);
      SealingStep(p, enc, w.cek, body, OctetsOf(protectedB64), iv, s);
      JoinedParts(protectedB64, EncodeSegment(w.encryptedKey), EncodeSegment(s.iv), EncodeSegment(s.ciphertext),
                  EncodeSegment(s.tag));
    }
  }

  /** Sealing under the front of the drawn octets. */
  lemma SealingStep(p: Primitives, enc: C.Enc, cek: bytes, body: bytes, aad: bytes, iv: bytes, s: C.Sealed)
    requires p.Sized() && p.AesLaw() && p.GcmLaw() && enc.Valid() && |iv| == 16
    ensures C.Encrypt(p, enc, cek, body, aad, iv[..enc.IvSize()]) == Ok(s) <==>
            s.iv == (if enc.gcm then iv[..12] else iv) && C.IsSealed(p, enc, cek, body, aad, s)
  {
    hide C.Encrypt, C.IsSealed, p.Sized, p.AesLaw, p.GcmLaw;
    assert iv[..16] == iv;
    C.SealedHasSizes(p, enc, cek, body, aad, s);
    var nonce := iv[..enc.IvSize()];
    if C.Encrypt(p, enc, cek, body, aad, nonce) == Ok(s) {
      JweProperties.SealedIv(p, enc, cek, body, aad, nonce);
    }
    if s.iv == nonce {
      C.SealingIsExact(p, enc, cek, body, aad, s);
    }
  }

  // ---------------------------------------------------------------- refusals, in the order of the checks

  /** Why a merged header is refused before its key is looked at. */
  lemma RefusalsOfChoice(p: Primitives, h: Header, key: KeyArg, opts: DecryptOptions)
    ensures var r := Choose(p, h, key, opts);
            if "alg" !in h || !h["alg"].Str? || h["alg"].text == "" then r == Err(InvalidHeader)
            else if opts.algorithms != [] && h["alg"].text !in opts.algorithms then r == Err(DecryptFailed)
            else if "enc" !in h || !h["enc"].Str? || h["enc"].text == "" then r == Err(InvalidHeader)
            else if opts.encryptions != [] && h["enc"].text !in opts.encryptions then r == Err(DecryptFailed)
            else if LookupKeyMgmt(h["alg"].text).Err? then r == Err(UnsupportedAlgorithm)
            else C.LookupEnc(h["enc"].text).Err? ==> r == Err(UnsupportedEncryption)
  {
    hide LookupKeyMgmt, C.LookupEnc, CheckJwkUsage, ResolveKey;
    KeyMgmtNames(StringParam(h, "alg"));
    C.EncNames(StringParam(h, "enc"));
  }

  /** Why a plaintext is not returned once the CEK is recovered. */
  lemma RefusalsOfContent(p: Primitives, enc: C.Enc, cek: bytes, s: C.Sealed, aad: bytes)
    requires p.Sized() && enc.Valid() && |cek| == enc.keySize && C.Decrypt(p, enc, cek, s, aad).Err?
    ensures C.Decrypt(p, enc, cek, s, aad) == Err(DecryptFailed)
  {
    hide C.CbcDecrypt, C.CbcTag, C.Unpad, p.Sized;
  }

  /** What the producer refuses before the key: an "unprotected" header or an "aad" that the form cannot carry. */
  lemma RefusalsOfCompact(p: Primitives, key: KeyArg, opts: EncryptOptions)
    ensures opts.unprotected != map[] || opts.aad != [] ==> PlanEncryption(p, key, opts) == Err(InvalidHeader)
  {
  }
}
