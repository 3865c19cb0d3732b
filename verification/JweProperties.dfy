/** What holds of the compact JWE, and of recovering one recipient. */
module JweProperties {
  import opened Octets
  import opened Outcomes
  import opened Keys
  import opened Primitives
  import opened Base64Url
  import opened Headers
  import opened JsonWebKeys
  import opened KeyMgmt
  import opened Tokens
  import opened Jwe
  import C = ContentEnc

  // ---------------------------------------------------------------- compression

  /** The limit lets a compressed plaintext through whole; the largest limit lets nothing through. */
  predicate WithinLimit(plaintext: bytes, opts: DecryptOptions) {
    if Limit(opts) == MAX_INT64 then plaintext == [] else |plaintext| <= Limit(opts)
  }

  /** The "zip" with which a consumer returns the plaintext. */
  ghost predicate ZipAccepted(h: Header, plaintext: bytes, opts: DecryptOptions) {
    "zip" in h ==> h["zip"] == Str("DEF") && WithinLimit(plaintext, opts)
  }

  /** Inflating what was compressed gives the plaintext exactly when "zip" is acceptable. */
  lemma CompressionRoundTrip(p: Primitives, h: Header, plaintext: bytes, opts: DecryptOptions)
    requires p.DeflateLaw() && Compressed(p, h, plaintext).Ok?
    ensures MaybeInflate(p, p.Received(h), Compressed(p, h, plaintext).value, opts) == Ok(plaintext) <==>
            ZipAccepted(h, plaintext, opts)
  {
  }

  // ---------------------------------------------------------------- one recipient

  /** The recipient holds the matching key, and its options admit what the sender chose. */
  ghost predicate Admits(p: Primitives, km: Mgmt, enc: C.Enc, k: GoKey, kid: string, dkey: KeyArg,
                         dopts: DecryptOptions)
  {
    && Allowed(dopts.algorithms, km.name) && Allowed(dopts.encryptions, enc.name)
    && CheckJwkUsage(dkey, kid, "enc", [km.name, enc.name], DECRYPT_OPS).Pass?
    && ResolveKey(p, dkey, kid).Ok?
    && Opens(p, km, k, ResolveKey(p, dkey, kid).value)
  }

  lemma LookedUpNames(km: Mgmt, enc: C.Enc)
    requires LookupKeyMgmt(km.name) == Ok(km) && C.LookupEnc(enc.name) == Ok(enc)
    ensures km.name != "" && enc.name != "" && km.Valid() && enc.Valid()
  {
  }

  /** A header that names the sender's algorithms selects them, and the matching key. */
  lemma ChoiceIsSenders(p: Primitives, got: Header, km: Mgmt, enc: C.Enc, k: GoKey, dkey: KeyArg, dopts: DecryptOptions)
    requires LookupKeyMgmt(km.name) == Ok(km) && C.LookupEnc(enc.name) == Ok(enc)
    requires StringParam(got, "alg") == km.name && StringParam(got, "enc") == enc.name
    requires Admits(p, km, enc, k, StringParam(got, "kid"), dkey, dopts)
    ensures Choose(p, got, dkey, dopts) == Ok(Choice(km, enc, ResolveKey(p, dkey, StringParam(got, "kid")).value))
  {
    hide LookupKeyMgmt, C.LookupEnc, CheckJwkUsage, ResolveKey, Opens;
    LookedUpNames(km, enc);
  }

  /** What a recipient recovers from a header that shows the algorithm's parameters as sent. */
  lemma CekIsRecovered(p: Primitives, got: Header, km: Mgmt, enc: C.Enc, k: GoKey, h: Header, shared: Option<bytes>,
                       coins: Coins, dkey: KeyArg, dopts: DecryptOptions)
    requires p.Lawful() && enc.Valid() && km.Valid() && coins.Fit()
    requires LookupKeyMgmt(km.name) == Ok(km) && C.LookupEnc(enc.name) == Ok(enc)
    requires StringParam(got, "alg") == km.name && StringParam(got, "enc") == enc.name
    requires Admits(p, km, enc, k, StringParam(got, "kid"), dkey, dopts)
    requires shared.Some? ==> |shared.value| == enc.keySize
    requires EncryptKey(p, km, enc, k, h, shared, coins).Ok?
    requires Visible(p, km, EncryptKey(p, km, enc, k, h, shared, coins).value.header, got)
    ensures var w := EncryptKey(p, km, enc, k, h, shared, coins).value;
            && RecoverCek(p, got, w.encryptedKey, dkey, dopts) == Ok(w.cek)
            && |w.cek| == enc.keySize
            && (shared.Some? ==> w.cek == shared.value)
  {
    hide LookupKeyMgmt, C.LookupEnc, CheckJwkUsage, ResolveKey, Opens, EncryptKey, DecryptKey, Visible, Choose;
    hide p.Sized, p.AesLaw, p.GcmLaw, p.RsaLaw, p.EcdsaLaw, p.EdLaw, p.EcdhLaw, p.DeflateLaw, p.JsonLaw;
    var dk := ResolveKey(p, dkey, StringParam(got, "kid")).value;
    ChoiceIsSenders(p, got, km, enc, k, dkey, dopts);
    EncryptedKeyRoundTrip(p, km, enc, k, dk, h, got, shared, coins);
  }

  /** With the CEK recovered, decryptOne returns what inflating the body returns. */
  lemma BodyIsRecovered(p: Primitives, got: Header, ek: bytes, cek: bytes, enc: C.Enc, body: bytes, aad: bytes,
                        iv: bytes, dkey: KeyArg, dopts: DecryptOptions)
    requires p.Lawful() && enc.Valid() && |iv| == enc.IvSize() && |cek| == enc.keySize
    requires RecoverCek(p, got, ek, dkey, dopts) == Ok(cek)
    requires Choose(p, got, dkey, dopts).Ok? && Choose(p, got, dkey, dopts).value.enc == enc
    ensures DecryptOne(p, got, ek, C.Encrypt(p, enc, cek, body, aad, iv).value, aad, dkey, dopts) ==
            MaybeInflate(p, got, body, dopts)
  {
    hide RecoverCek, Choose, C.Encrypt, C.Decrypt, MaybeInflate;
    hide p.Sized, p.AesLaw, p.GcmLaw, p.RsaLaw, p.EcdsaLaw, p.EdLaw, p.EcdhLaw, p.DeflateLaw, p.JsonLaw;
    var s := C.Encrypt(p, enc, cek, body, aad, iv).value;
    SealedIv(p, enc, cek, body, aad, iv);
    C.DecryptInvertsEncrypt(p, enc, cek, s, aad, body);
  }

  lemma SealedIv(p: Primitives, enc: C.Enc, cek: bytes, body: bytes, aad: bytes, iv: bytes)
    requires p.Sized() && enc.Valid() && |iv| == enc.IvSize() && |cek| == enc.keySize
    ensures C.Encrypt(p, enc, cek, body, aad, iv).value.iv == iv
  {
  }

  lemma OptionalRoundTrip(b: bytes)
    ensures DecodeOptional(EncodeSegment(b)) == Ok(b)
  {
    DecodeEncoded(b);
  }

  // ---------------------------------------------------------------- the compact serialization

  lemma CompactHeaderNames(key: KeyArg, opts: EncryptOptions, alg: string)
    ensures var h := CompactHeader(key, opts, alg);
            && "alg" in h && h["alg"] == Str(alg)
            && "enc" in h && h["enc"] == Str(EncName(opts))
  {
    hide CopyHeader;
  }

  lemma PlanIsSound(p: Primitives, key: KeyArg, opts: EncryptOptions)
    requires PlanEncryption(p, key, opts).Ok?
    ensures var plan := PlanEncryption(p, key, opts).value;
            && LookupKeyMgmt(plan.km.name) == Ok(plan.km) && C.LookupEnc(plan.enc.name) == Ok(plan.enc)
            && "alg" in plan.header && plan.header["alg"] == Str(plan.km.name)
            && "enc" in plan.header && plan.header["enc"] == Str(plan.enc.name)
            && CheckCriticalProduced(plan.header).Pass?
  {
    hide LookupKeyMgmt, C.LookupEnc, CheckJwkUsage, ResolveKey, KeyMgmtAlg, CompactHeader, CheckCriticalProduced;
    var resolved := ResolveKey(p, key, opts.keyId).value;
    CompactHeaderNames(key, opts, KeyMgmtAlg(key, resolved, opts.algorithm).value);
  }

  /** Writing the algorithm's parameters leaves the names and "crit" acceptable. */
  lemma WritingKeepsHeader(h: Header, h': Header, km: Mgmt)
    requires Writes(h, h', km.Outputs())
    ensures forall n :: n in {"alg", "enc", "kid", "crit", "zip", "apu", "apv"} ==>
              (n in h' <==> n in h) && (n in h ==> h'[n] == h[n])
    ensures CheckCriticalProduced(h).Pass? ==> CheckCriticalProduced(h').Pass?
    ensures DeclaredCritical(h') == DeclaredCritical(h)
  {
    assert forall n :: n in {"alg", "enc", "kid", "crit", "zip", "apu", "apv"} ==> n !in km.Outputs();
    assert Critical(h') == Critical(h);
    if "crit" in h && Critical(h).Some? {
      CriticalAccepted(h, Critical(h).value);
      CriticalAccepted(h', Critical(h).value);
    }
  }

  lemma AllSent(p: Primitives, km: Mgmt, h: Header)
    ensures Visible(p, km, h, p.Received(h))
  {
    PartyInfoReceived(p, h);
  }

  /** The recipient's view of a sent header selects the sender's algorithms and recovers the CEK. */
  lemma SentHeaderIsRead(p: Primitives, plan: Plan, coins: Coins, dkey: KeyArg, dopts: DecryptOptions)
    requires p.Lawful() && plan.km.Valid() && plan.enc.Valid() && coins.Fit()
    requires LookupKeyMgmt(plan.km.name) == Ok(plan.km) && C.LookupEnc(plan.enc.name) == Ok(plan.enc)
    requires "alg" in plan.header && plan.header["alg"] == Str(plan.km.name)
    requires "enc" in plan.header && plan.header["enc"] == Str(plan.enc.name)
    requires EncryptKey(p, plan.km, plan.enc, plan.key, plan.header, None, coins).Ok?
    requires Admits(p, plan.km, plan.enc, plan.key, StringParam(plan.header, "kid"), dkey, dopts)
    ensures var w := EncryptKey(p, plan.km, plan.enc, plan.key, plan.header, None, coins).value;
            var got := p.Received(w.header);
            && RecoverCek(p, got, w.encryptedKey, dkey, dopts) == Ok(w.cek) && |w.cek| == plan.enc.keySize
            && Choose(p, got, dkey, dopts).Ok? && Choose(p, got, dkey, dopts).value.enc == plan.enc
  {
    hide LookupKeyMgmt, C.LookupEnc, EncryptKey, Visible, Admits, RecoverCek, Choose, CheckCriticalProduced;
    hide p.Sized, p.AesLaw, p.GcmLaw, p.RsaLaw, p.EcdsaLaw, p.EdLaw, p.EcdhLaw, p.DeflateLaw, p.JsonLaw;
    var w := EncryptKey(p, plan.km, plan.enc, plan.key, plan.header, None, coins).value;
    var got := p.Received(w.header);
    WritingKeepsHeader(plan.header, w.header, plan.km);
    StringParamReceived(p, w.header, "alg");
    StringParamReceived(p, w.header, "enc");
    StringParamReceived(p, w.header, "kid");
    assert StringParam(w.header, "kid") == StringParam(plan.header, "kid");
    AllSent(p, plan.km, w.header);
    CekIsRecovered(p, got, plan.km, plan.enc, plan.key, plan.header, None, coins, dkey, dopts);
    ChoiceIsSenders(p, got, plan.km, plan.enc, plan.key, dkey, dopts);
  }

  /** A token joined from encoded segments decrypts as its parts do. */
  lemma JoinedTokenIsRead(p: Primitives, protectedB64: string, protected: Header, ek: bytes, s: C.Sealed,
                          dkey: KeyArg, dopts: DecryptOptions)
    requires p.Sized() && AllDigits(protectedB64) && DecodeHeader(p, protectedB64) == Ok(protected)
    requires CheckCritical(protected, dopts.knownCritical).Pass?
    ensures var token := Join([protectedB64, EncodeSegment(ek), EncodeSegment(s.iv),
                               EncodeSegment(s.ciphertext), EncodeSegment(s.tag)]);
            DecryptCompact(p, token, dkey, dopts) ==
            match DecryptOne(p, protected, ek, s, OctetsOf(protectedB64), dkey, dopts)
            case Ok(body) => Ok((body, protected))
            case Err(e) => Err(e)
  {
    hide DecodeHeader, CheckCritical, DecryptOne, DecodeOptional, Join, Split, EncodeSegment;
    SplitJoined([protectedB64, EncodeSegment(ek), EncodeSegment(s.iv),
                 EncodeSegment(s.ciphertext), EncodeSegment(s.tag)]);
    OptionalRoundTrip(ek);
    OptionalRoundTrip(s.iv);
    OptionalRoundTrip(s.ciphertext);
    OptionalRoundTrip(s.tag);
  }

  /** The recipient holds the matching key, and its options admit what the plan says. */
  ghost predicate AdmitsPlan(p: Primitives, plan: Plan, dkey: KeyArg, dopts: DecryptOptions) {
    && Admits(p, plan.km, plan.enc, plan.key, StringParam(plan.header, "kid"), dkey, dopts)
    && forall n :: n in DeclaredCritical(plan.header) ==> n in dopts.knownCritical
  }

  /** A token that Encrypt made decrypts to what inflating the sender's body gives. */
  lemma TokenDecryptsTo(p: Primitives, plaintext: bytes, key: KeyArg, opts: EncryptOptions, coins: Coins, iv: bytes,
                        dkey: KeyArg, dopts: DecryptOptions)
    requires p.Lawful() && coins.Fit() && |iv| == 16
    requires EncryptCompact(p, plaintext, key, opts, coins, iv).Ok?
    requires AdmitsPlan(p, PlanEncryption(p, key, opts).value, dkey, dopts)
    ensures var plan := PlanEncryption(p, key, opts).value;
            var w := EncryptKey(p, plan.km, plan.enc, plan.key, plan.header, None, coins);
            && w.Ok? && Writes(plan.header, w.value.header, plan.km.Outputs())
            && Compressed(p, w.value.header, plaintext).Ok?
            && DecryptCompact(p, EncryptCompact(p, plaintext, key, opts, coins, iv).value, dkey, dopts) ==
               match MaybeInflate(p, p.Received(w.value.header), Compressed(p, w.value.header, plaintext).value, dopts)
               case Ok(body) => Ok((body, p.Received(w.value.header)))
               case Err(e) => Err(e)
  {
    hide PlanEncryption, EncryptKey, Compressed, EncodeHeader, DecodeHeader, C.Encrypt, DecryptOne, DecryptCompact,
         CheckCritical, CheckCriticalProduced, Admits, Join, LookupKeyMgmt, C.LookupEnc, EncodeSegment, MaybeInflate,
         RecoverCek, Choose, Writes;
    hide p.Sized, p.AesLaw, p.GcmLaw, p.RsaLaw, p.EcdsaLaw, p.EdLaw, p.EcdhLaw, p.DeflateLaw, p.JsonLaw;
    var plan := PlanEncryption(p, key, opts).value;
    PlanIsSound(p, key, opts);
    var w := EncryptKey(p, plan.km, plan.enc, plan.key, plan.header, None, coins).value;
    var body := Compressed(p, w.header, plaintext).value;
    var protectedB64 := EncodeHeader(p, w.header).value;
    var aad := OctetsOf(protectedB64);
    var got := p.Received(w.header);
    SentHeaderIsRead(p, plan, coins, dkey, dopts);
    WritingKeepsHeader(plan.header, w.header, plan.km);
    DecodeEncodedHeader(p, w.header);
    ProducedIsAccepted(p, w.header, dopts.knownCritical);
    var s := C.Encrypt(p, plan.enc, w.cek, body, aad, iv[..plan.enc.IvSize()]).value;
    JoinedTokenIsRead(p, protectedB64, got, w.encryptedKey, s, dkey, dopts);
    BodyIsRecovered(p, got, w.encryptedKey, w.cek, plan.enc, body, aad, iv[..plan.enc.IvSize()], dkey, dopts);
  }

  /**
   Decrypt after Encrypt, in the compact form, for every "alg" and "enc": with the matching
   key the plaintext comes back exactly when the header's "zip" is absent, or is "DEF" with
   a plaintext inside the recipient's limit.
   */
  lemma CompactRoundTrip(p: Primitives, plaintext: bytes, key: KeyArg, opts: EncryptOptions, coins: Coins, iv: bytes,
                         dkey: KeyArg, dopts: DecryptOptions)
    requires p.Lawful() && coins.Fit() && |iv| == 16
    requires EncryptCompact(p, plaintext, key, opts, coins, iv).Ok?
    requires AdmitsPlan(p, PlanEncryption(p, key, opts).value, dkey, dopts)
    ensures var plan := PlanEncryption(p, key, opts).value;
            var w := EncryptKey(p, plan.km, plan.enc, plan.key, plan.header, None, coins);
            && w.Ok?
            && ((DecryptCompact(p, EncryptCompact(p, plaintext, key, opts, coins, iv).value, dkey, dopts) ==
                 Ok((plaintext, p.Received(w.value.header)))) <==>
                ZipAccepted(plan.header, plaintext, dopts))
  {
    hide PlanEncryption, EncryptCompact, EncryptKey, Compressed, DecryptCompact, AdmitsPlan, MaybeInflate, Writes,
         CheckCriticalProduced;
    hide p.Sized, p.AesLaw, p.GcmLaw, p.RsaLaw, p.EcdsaLaw, p.EdLaw, p.EcdhLaw, p.DeflateLaw, p.JsonLaw;
    TokenDecryptsTo(p, plaintext, key, opts, coins, iv, dkey, dopts);
    var plan := PlanEncryption(p, key, opts).value;
    var w := EncryptKey(p, plan.km, plan.enc, plan.key, plan.header, None, coins).value;
    WritingKeepsHeader(plan.header, w.header, plan.km);
    CompressionRoundTrip(p, w.header, plaintext, dopts);
  }

  // ---------------------------------------------------------------- the key used is the key checked

  /** The compact producer uses a key only as its JWK permits. */
  lemma EncryptionKeyIsPermitted(p: Primitives, key: KeyArg, opts: EncryptOptions)
    requires PlanEncryption(p, key, opts).Ok?
    ensures var plan := PlanEncryption(p, key, opts).value;
            UsedAsPermitted(p, key, opts.keyId, plan.key, "enc", [plan.km.name, plan.enc.name], ENCRYPT_OPS)
  {
    hide LookupKeyMgmt, C.LookupEnc, CheckJwkUsage, ResolveKey, KeyMgmtAlg, CompactHeader, CheckCriticalProduced,
         UsedAsPermitted;
    var plan := PlanEncryption(p, key, opts).value;
    KeyUsedIsKeyChecked(p, key, opts.keyId, "enc", [plan.km.name, plan.enc.name], ENCRYPT_OPS);
  }

  /** A key is chosen for decryption only as its JWK permits. */
  lemma ChosenKeyIsPermitted(p: Primitives, h: Header, key: KeyArg, opts: DecryptOptions)
    requires Choose(p, h, key, opts).Ok?
    ensures var c := Choose(p, h, key, opts).value;
            UsedAsPermitted(p, key, StringParam(h, "kid"), c.key, "enc", [c.km.name, c.enc.name], DECRYPT_OPS)
  {
    hide LookupKeyMgmt, C.LookupEnc, CheckJwkUsage, ResolveKey, UsedAsPermitted, StringParam;
    var c := Choose(p, h, key, opts).value;
    KeyUsedIsKeyChecked(p, key, StringParam(h, "kid"), "enc", [c.km.name, c.enc.name], DECRYPT_OPS);
  }

  /** Whatever was decrypted, compact or JSON, was decrypted with a key whose JWK permits it. */
  lemma DecryptionKeyIsPermitted(p: Primitives, h: Header, ek: bytes, s: C.Sealed, aad: bytes, key: KeyArg,
                                 opts: DecryptOptions)
    requires p.Sized() && DecryptOne(p, h, ek, s, aad, key, opts).Ok?
    ensures var c := Choose(p, h, key, opts);
            && c.Ok?
            && UsedAsPermitted(p, key, StringParam(h, "kid"), c.value.key, "enc", [c.value.km.name, c.value.enc.name],
                               DECRYPT_OPS)
  {
    hide Choose, DecryptKey, C.Decrypt, MaybeInflate, UsedAsPermitted, StringParam, p.Sized;
    ChosenKeyIsPermitted(p, h, key, opts);
  }

  // ---------------------------------------------------------------- where producer and consumer part

  /**
   When the library finds bad PKCS #1 padding and leaves the key it was handed, that key is all
   zero octets: content sealed under zero octets then decrypts.
   */
  lemma BadPaddingIsZeroKey(p: Primitives, h: Header, ek: bytes, body: bytes, aad: bytes, iv: bytes, key: KeyArg,
                            opts: DecryptOptions)
    requires p.Lawful() && Choose(p, h, key, opts).Ok? && |iv| == Choose(p, h, key, opts).value.enc.IvSize()
    requires var c := Choose(p, h, key, opts).value;
             var zeros := Repeat(0, c.enc.keySize);
             && c.km.kind.RsaKind? && c.km.oaepHash.None? && c.key.RsaPrivateKey?
             && p.rsaDecrypt(None, c.key.rsa, ek, zeros) == Some(zeros)
    ensures var enc := Choose(p, h, key, opts).value.enc;
            var s := C.Encrypt(p, enc, Repeat(0, enc.keySize), body, aad, iv);
            s.Ok? && DecryptOne(p, h, ek, s.value, aad, key, opts) == MaybeInflate(p, h, body, opts)
  {
    hide Choose, C.Encrypt, C.Decrypt, MaybeInflate, DecryptOne;
    hide p.Sized, p.AesLaw, p.GcmLaw, p.RsaLaw, p.EcdsaLaw, p.EdLaw, p.EcdhLaw, p.DeflateLaw, p.JsonLaw;
    var enc := Choose(p, h, key, opts).value.enc;
    BodyIsRecovered(p, h, ek, Repeat(0, enc.keySize), enc, body, aad, iv, key, opts);
  }

  /**
   With the largest limit an int can hold, the limit wraps around: a compressed token decrypts,
   without an error, to no octets at all.
   */
  lemma LargestLimitLosesPlaintext(p: Primitives, plaintext: bytes, key: KeyArg, opts: EncryptOptions, coins: Coins,
                                   iv: bytes, dkey: KeyArg, dopts: DecryptOptions)
    requires p.Lawful() && coins.Fit() && |iv| == 16
    requires EncryptCompact(p, plaintext, key, opts, coins, iv).Ok?
    requires var plan := PlanEncryption(p, key, opts).value;
             AdmitsPlan(p, plan, dkey, dopts) && "zip" in plan.header && plan.header["zip"] == Str("DEF")
    requires dopts.maxDecompressed == MAX_INT64
    ensures var plan := PlanEncryption(p, key, opts).value;
            var w := EncryptKey(p, plan.km, plan.enc, plan.key, plan.header, None, coins);
            && w.Ok?
            && DecryptCompact(p, EncryptCompact(p, plaintext, key, opts, coins, iv).value, dkey, dopts) ==
               Ok(([], p.Received(w.value.header)))
  {
    hide PlanEncryption, EncryptCompact, EncryptKey, Compressed, DecryptCompact, AdmitsPlan, Writes,
         CheckCriticalProduced;
    hide p.Sized, p.AesLaw, p.GcmLaw, p.RsaLaw, p.EcdsaLaw, p.EdLaw, p.EcdhLaw, p.DeflateLaw, p.JsonLaw;
    TokenDecryptsTo(p, plaintext, key, opts, coins, iv, dkey, dopts);
    var plan := PlanEncryption(p, key, opts).value;
    var w := EncryptKey(p, plan.km, plan.enc, plan.key, plan.header, None, coins).value;
    WritingKeepsHeader(plan.header, w.header, plan.km);
  }

  /** A token with any other "zip" than "DEF" is refused by the very recipient it is for. */
  lemma OtherZipIsRefused(p: Primitives, plaintext: bytes, key: KeyArg, opts: EncryptOptions, coins: Coins, iv: bytes,
                          dkey: KeyArg, dopts: DecryptOptions)
    requires p.Lawful() && coins.Fit() && |iv| == 16
    requires EncryptCompact(p, plaintext, key, opts, coins, iv).Ok?
    requires var plan := PlanEncryption(p, key, opts).value;
             AdmitsPlan(p, plan, dkey, dopts) && "zip" in plan.header && plan.header["zip"] != Str("DEF")
    ensures DecryptCompact(p, EncryptCompact(p, plaintext, key, opts, coins, iv).value, dkey, dopts) ==
            Err(InvalidHeader)
  {
    hide PlanEncryption, EncryptCompact, EncryptKey, Compressed, DecryptCompact, AdmitsPlan, Writes,
         CheckCriticalProduced;
    hide p.Sized, p.AesLaw, p.GcmLaw, p.RsaLaw, p.EcdsaLaw, p.EdLaw, p.EcdhLaw, p.DeflateLaw, p.JsonLaw;
    TokenDecryptsTo(p, plaintext, key, opts, coins, iv, dkey, dopts);
    var plan := PlanEncryption(p, key, opts).value;
    var w := EncryptKey(p, plan.km, plan.enc, plan.key, plan.header, None, coins).value;
    WritingKeepsHeader(plan.header, w.header, plan.km);
  }

  /** The failing input: Encrypt takes an empty "zip" for no compression, and no recipient accepts the token. */
  lemma EmptyZipIsRefused(p: Primitives, plaintext: bytes, key: KeyArg, opts: EncryptOptions, coins: Coins, iv: bytes,
                          dkey: KeyArg, dopts: DecryptOptions)
    requires p.Lawful() && coins.Fit() && |iv| == 16
    requires opts.header == map["zip" := Str("")] && opts.additional == map[] && !opts.compress
    requires EncryptCompact(p, plaintext, key, opts, coins, iv).Ok?
    requires AdmitsPlan(p, PlanEncryption(p, key, opts).value, dkey, dopts)
    ensures DecryptCompact(p, EncryptCompact(p, plaintext, key, opts, coins, iv).value, dkey, dopts) ==
            Err(InvalidHeader)
  {
    hide EncryptCompact, DecryptCompact, AdmitsPlan, CopyHeader, CheckCriticalProduced, LookupKeyMgmt, C.LookupEnc,
         CheckJwkUsage, ResolveKey, KeyMgmtAlg;
    hide p.Sized, p.AesLaw, p.GcmLaw, p.RsaLaw, p.EcdsaLaw, p.EdLaw, p.EcdhLaw, p.DeflateLaw, p.JsonLaw;
    CopyOfTwo(opts.header, opts.additional);
    OtherZipIsRefused(p, plaintext, key, opts, coins, iv, dkey, dopts);
  }
}
