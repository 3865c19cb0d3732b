/** Compact tokens that exist in the small instance, so the results about tokens speak of something. */
module WitnessTokens {
  import opened Octets
  import opened Outcomes
  import opened Keys
  import opened Primitives
  import opened Headers
  import opened KeyMgmt
  import opened Jwe
  import opened Witness
  import JweProperties
  import C = ContentEnc

  const KEY := RawKey(Secret(Repeat(7, 16)))

  /** A recipient with the default limit on decompression, or with the largest. */
  function RecipientFor(limit: int64): DecryptOptions {
    DecryptOptions([], [], [], limit)
  }

  /** The caller asks for no compression, for an empty "zip", or for "DEF". */
  datatype Zip = NoZip | EmptyZip | Compress

  function Options(z: Zip): EncryptOptions {
    var header: Header := if z.EmptyZip? then map["zip" := Str("")] else map[];
    EncryptOptions("dir", "A128GCM", "", header, map[], map[], [], z.Compress?)
  }

  function TokenHeader(z: Zip): Header {
    var h: Header := map["alg" := Str("dir"), "enc" := Str("A128GCM")];
    match z
    case NoZip => h
    case EmptyZip => h["zip" := Str("")]
    case Compress => h["zip" := Str("DEF")]
  }

  function Library(z: Zip): Primitives {
    Toy([TokenHeader(z)])
  }

  lemma HeaderIsKept(p: Primitives, z: Zip)
    ensures p.Received(TokenHeader(z)) == TokenHeader(z)
  {
  }

  lemma TokenPlan(z: Zip, limit: int64)
    ensures var plan := PlanEncryption(Library(z), KEY, Options(z));
            && plan.Ok? && plan.value.header == TokenHeader(z) && plan.value.km.kind.DirKind?
            && plan.value.key == KEY.key && plan.value.enc.keySize == 16
            && JweProperties.AdmitsPlan(Library(z), plan.value, KEY, RecipientFor(limit))
  {
    hide CopyHeader, Toy;
    CopyOfTwo(Options(z).header, map[]);
    assert CompactHeader(KEY, Options(z), "dir") == TokenHeader(z);
  }

  lemma TokenExists(z: Zip, plaintext: bytes, coins: Coins, iv: bytes)
    requires coins.Fit() && |iv| == 16 && Library(z).Sized()
    ensures EncryptCompact(Library(z), plaintext, KEY, Options(z), coins, iv).Ok?
    ensures var plan := PlanEncryption(Library(z), KEY, Options(z)).value;
            EncryptKey(Library(z), plan.km, plan.enc, plan.key, plan.header, None, coins) ==
            Ok(Wrapped(Repeat(7, 16), [], TokenHeader(z)))
  {
    var p := Library(z);
    hide PlanEncryption, C.Encrypt, p.Sized, JweProperties.AdmitsPlan;
    TokenPlan(z, 0);
    var plan := PlanEncryption(p, KEY, Options(z)).value;
    assert SymmetricKey(plan.key, plan.enc.keySize) == Ok(Repeat(7, 16));
    assert EncodeHeader(p, TokenHeader(z)).Ok?;
    assert Compressed(p, TokenHeader(z), plaintext).Ok?;
  }

  /** A token can be produced, compressed or not, and the compact round trip applies to it. */
  lemma TokenRoundTrips(z: Zip, plaintext: bytes, coins: Coins, iv: bytes)
    requires coins.Fit() && |iv| == 16 && !z.EmptyZip? && |plaintext| <= MAX_DECOMPRESSED_SIZE
    ensures var p := Library(z);
            && p.Lawful() && EncryptCompact(p, plaintext, KEY, Options(z), coins, iv).Ok?
            && var token := EncryptCompact(p, plaintext, KEY, Options(z), coins, iv).value;
               DecryptCompact(p, token, KEY, RecipientFor(0)) == Ok((plaintext, TokenHeader(z)))
  {
    var p := Library(z);
    hide PlanEncryption, DecryptCompact, EncryptCompact, EncryptKey, JweProperties.AdmitsPlan;
    hide p.Sized, p.AesLaw, p.GcmLaw, p.RsaLaw, p.EcdsaLaw, p.EdLaw, p.EcdhLaw, p.DeflateLaw, p.JsonLaw;
    LawsHold([TokenHeader(z)]);
    TokenExists(z, plaintext, coins, iv);
    TokenPlan(z, 0);
    JweProperties.CompactRoundTrip(p, plaintext, KEY, Options(z), coins, iv, KEY, RecipientFor(0));
    HeaderIsKept(p, z);
  }

  /** A token with an empty "zip" can be produced, and its own recipient refuses it. */
  lemma EmptyZipTokenIsRefused(z: Zip, plaintext: bytes, coins: Coins, iv: bytes)
    requires z.EmptyZip? && coins.Fit() && |iv| == 16
    ensures Library(z).Lawful()
    ensures var p := Library(z);
            var token := EncryptCompact(p, plaintext, KEY, Options(z), coins, iv);
            && token.Ok?
            && DecryptCompact(p, token.value, KEY, RecipientFor(0)) == Err(InvalidHeader)
  {
    var p := Library(z);
    hide PlanEncryption, DecryptCompact, EncryptCompact, EncryptKey, JweProperties.AdmitsPlan, CopyHeader, Toy;
    hide p.Sized, p.AesLaw, p.GcmLaw, p.RsaLaw, p.EcdsaLaw, p.EdLaw, p.EcdhLaw, p.DeflateLaw, p.JsonLaw;
    LawsHold([TokenHeader(z)]);
    TokenExists(z, plaintext, coins, iv);
    TokenPlan(z, 0);
    JweProperties.EmptyZipIsRefused(p, plaintext, KEY, Options(z), coins, iv, KEY, RecipientFor(0));
  }

  /** A compressed token can be produced that its recipient, with the largest limit, decrypts to nothing. */
  lemma CompressedTokenIsLost(z: Zip, plaintext: bytes, coins: Coins, iv: bytes)
    requires z.Compress? && coins.Fit() && |iv| == 16
    ensures Library(z).Lawful()
    ensures var p := Library(z);
            var token := EncryptCompact(p, plaintext, KEY, Options(z), coins, iv);
            && token.Ok?
            && DecryptCompact(p, token.value, KEY, RecipientFor(MAX_INT64)) == Ok(([], TokenHeader(z)))
  {
    var p := Library(z);
    hide PlanEncryption, DecryptCompact, EncryptCompact, EncryptKey, JweProperties.AdmitsPlan, CopyHeader, Toy;
    hide p.Sized, p.AesLaw, p.GcmLaw, p.RsaLaw, p.EcdsaLaw, p.EdLaw, p.EcdhLaw, p.DeflateLaw, p.JsonLaw;
    LawsHold([TokenHeader(z)]);
    TokenExists(z, plaintext, coins, iv);
    TokenPlan(z, MAX_INT64);
    JweProperties.LargestLimitLosesPlaintext(p, plaintext, KEY, Options(z), coins, iv, KEY,
                                             RecipientFor(MAX_INT64));
    HeaderIsKept(p, z);
  }
}
