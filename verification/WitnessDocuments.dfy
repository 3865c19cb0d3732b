/**
 JWE documents for two recipients that exist in the small instance: one that both can read, and
 one that neither can, because "apu" sits where the sender does not look.
 */
module WitnessDocuments {
  import opened Octets
  import opened Outcomes
  import opened Keys
  import opened Primitives
  import opened Base64Url
  import opened Headers
  import opened JsonWebKeys
  import opened Ecdh
  import opened KeyMgmt
  import opened Jwe
  import opened JweProperties
  import opened JweJson
  import opened JweJsonProperties
  import opened Witness
  import C = ContentEnc
  import ConcatKdf
  import KeyWrap

  // ---------------------------------------------------------------- the documents

  /** Both recipients use A128KW; or both use ECDH-ES+A128KW, and the shared header has an "apu". */
  function Alg(ecdh: bool): string {
    if ecdh then "ECDH-ES+A128KW" else "A128KW"
  }

  function Key(ecdh: bool): GoKey {
    if ecdh then EcdhPrivateKey(X25519, [1]) else Secret(Repeat(7, 16))
  }

  function Extra(ecdh: bool): Header {
    if ecdh then map["apu" := Str("QQ")] else map[]
  }

  function Options(ecdh: bool): EncryptOptions {
    EncryptOptions("", "A128GCM", "", Extra(ecdh), map[], map[], [], false)
  }

  function Addressee(ecdh: bool): Recipient {
    Recipient(RawKey(Key(ecdh)), Alg(ecdh), "", map[])
  }

  function SharedFor(ecdh: bool): Header {
    Extra(ecdh)["enc" := Str("A128GCM")]
  }

  const EPK: Jwk := EMPTY_JWK.(kty := "OKP", crv := "X25519", x := EncodeSegment(Repeat(0, 32)))

  /** A recipient's own header, as the key operation leaves it. */
  function OwnHeader(ecdh: bool): Header {
    var h: Header := map["alg" := Str(Alg(ecdh))];
    if ecdh then h["epk" := JwkToValue(EPK)] else h
  }

  function Library(ecdh: bool): Primitives {
    Toy([SharedFor(ecdh), OwnHeader(ecdh)])
  }

  const A128GCM: C.Enc := C.Enc("A128GCM", 16, true, SHA256)
  const RECIPIENT := DecryptOptions([], [], [], 0)

  lemma SharedIsBuilt(ecdh: bool)
    ensures SharedHeader(Options(ecdh), 2) == SharedFor(ecdh) && EncName(Options(ecdh)) == "A128GCM"
    ensures C.LookupEnc("A128GCM") == Ok(A128GCM) && A128GCM.Valid()
    ensures CheckCriticalProduced(SharedFor(ecdh)).Pass? && "zip" !in SharedFor(ecdh)
  {
    CopyOfTwo(Extra(ecdh), map[]);
  }

  function KmFor(ecdh: bool): Mgmt {
    Mgmt(Alg(ecdh), if ecdh then EcdhKind else KwKind, None, 128, SHA256)
  }

  lemma RecipientIsPlanned(ecdh: bool)
    ensures PlanRecipient(Library(ecdh), Addressee(ecdh), "A128GCM", SharedFor(ecdh), 2) ==
            Ok(RecipientPlan(Key(ecdh), KmFor(ecdh), map["alg" := Str(Alg(ecdh))]))
  {
    hide CopyHeader, Toy;
    CopyOfTwo(map[], map[]);
    assert RecipientHeader(Addressee(ecdh), Alg(ecdh), SharedFor(ecdh)) == map["alg" := Str(Alg(ecdh))];
  }

  // ---------------------------------------------------------------- the agreed key

  lemma OneHash(p: Primitives, other: bytes)
    requires p.Sized() && p.hash == BASE.hash
    ensures ConcatKdf.HashBlocks(p, [0], other, 1) == Repeat((5 + |other|) % 256, 32)
  {
    var m := BigEndian(1, 4) + [0] + other;
    assert |m| == 5 + |other|;
    assert ConcatKdf.HashBlocks(p, [0], other, 0) == [];
  }

  /** The octets of the agreed key all tell how long the KDF's input is. */
  lemma AgreedKey(p: Primitives, priv: Scalar, pub: Point, h: Header)
    requires p.Sized() && p.hash == BASE.hash && p.ecdh == BASE.ecdh
    requires Agree(p, KmFor(true), A128GCM, priv, pub, h).Ok?
    ensures KdfInput(KmFor(true), A128GCM, h).Ok?
    ensures Agree(p, KmFor(true), A128GCM, priv, pub, h).value ==
            Repeat((5 + |KdfInput(KmFor(true), A128GCM, h).value|) % 256, 16)
  {
    hide KdfInput, Agree, ConcatKdf.HashBlocks, Alg, p.Sized;
    AgreeUsesKdfInput(p, KmFor(true), A128GCM, priv, pub, h);
    OneHash(p, KdfInput(KmFor(true), A128GCM, h).value);
    assert EcdhAlgId(KmFor(true), A128GCM).1 == 16;
    assert BlockCount(16, 32) == 1;
  }

  /** Without party information the input has 30 octets; with one octet of it, 31. */
  lemma InputLength(h: Header, apu: bytes)
    requires HeaderBytesOptional(h, "apu") == Ok(apu) && "apv" !in h
    ensures KdfInput(KmFor(true), A128GCM, h).Ok?
    ensures |KdfInput(KmFor(true), A128GCM, h).value| == 30 + |apu|
  {
    hide ConcatKdf.OtherInfo;
    OtherInfoLength("ECDH-ES+A128KW", apu, [], 16);
  }

  // ---------------------------------------------------------------- key wrapping in the instance

  lemma ShiftedTwice(x: byte, d: int, e: int)
    ensures Shifted(Shifted(x, d), e) == Shifted(x, d + e)
  {
  }

  lemma SmallCounter(t: nat)
    requires t < 256
    ensures BigEndian(t, 8)[0] == 0
  {
    var b7 := BigEndian(t / 256, 7);
    assert BigEndian(t, 8) == b7 + [t % 256];
    ZeroOctets(7);
  }

  lemma {:induction false} ZeroOctets(k: nat)
    ensures forall i :: 0 <= i < k ==> BigEndian(0, k)[i] == 0
  {
    if k != 0 {
      ZeroOctets(k - 1);
    }
  }

  lemma XorZero(x: byte)
    ensures Xor(x, 0) == x
  {
    XorIdentity(x);
  }

  lemma {:induction false} XorIdentity(x: nat)
    ensures XorBits(x, 0) == x
  {
    if x != 0 {
      XorIdentity(x / 2);
    }
  }

  /** One step back takes the first octet of the key from the first octet of A. */
  lemma StepBack(p: Primitives, kek: bytes, s: KeyWrap.Registers, t: nat, i: nat)
    requires p.Sized() && p.aesDecrypt == BASE.aesDecrypt && IsAesKey(kek) && s.Shape(2) && i < 2 && t < 256
    ensures KeyWrap.UnwrapStep(p, kek, 2, s, t, i).a[0] == Shifted(s.a[0], -(kek[0] as int))
  {
    hide BigEndian, Xor, Shifted;
    SmallCounter(t);
    XorZero(s.a[0]);
    var x := XorSeq(s.a, BigEndian(t, 8));
    assert x[0] == s.a[0];
    var b := x + KeyWrap.Block(s.r, i);
    assert p.aesDecrypt(kek, b) == Moved(b, -(kek[0] as int));
  }

  lemma PassBack(p: Primitives, kek: bytes, s: KeyWrap.Registers, t0: nat)
    requires p.Sized() && p.aesDecrypt == BASE.aesDecrypt && IsAesKey(kek) && s.Shape(2) && t0 < 250
    ensures KeyWrap.UnwrapPass(p, kek, 2, s, t0, 2).a[0] == Shifted(s.a[0], -2 * (kek[0] as int))
  {
    hide KeyWrap.UnwrapStep, Shifted;
    var s1 := KeyWrap.UnwrapStep(p, kek, 2, s, t0 + 2, 1);
    StepBack(p, kek, s, t0 + 2, 1);
    StepBack(p, kek, s1, t0 + 1, 0);
    ShiftedTwice(s.a[0], -(kek[0] as int), -(kek[0] as int));
    assert KeyWrap.UnwrapPass(p, kek, 2, s, t0, 2) == KeyWrap.UnwrapPass(p, kek, 2, s1, t0, 1);
  }

  lemma {:induction false} PassesBack(p: Primitives, kek: bytes, j: nat, s: KeyWrap.Registers)
    requires p.Sized() && p.aesDecrypt == BASE.aesDecrypt && IsAesKey(kek) && s.Shape(2) && j <= 6
    ensures KeyWrap.UnwrapPasses(p, kek, 2, j, s).a[0] == Shifted(s.a[0], -2 * j * (kek[0] as int))
  {
    hide KeyWrap.UnwrapPass, Shifted;
    var k := kek[0] as int;
    if j == 0 {
      assert Shifted(s.a[0], 0) == s.a[0] by {
        Unshifted(s.a[0]);
      }
    } else {
      var s1 := KeyWrap.UnwrapPass(p, kek, 2, s, 2 * (j - 1), 2);
      PassBack(p, kek, s, 2 * (j - 1));
      PassesBack(p, kek, j - 1, s1);
      ShiftedTwice(s.a[0], -2 * k, -2 * (j - 1) * k);
      assert -2 * k + -2 * (j - 1) * k == -2 * j * k;
    }
  }

  lemma Unshifted(x: byte)
    ensures Shifted(x, 0) == x
  {
  }

  /** A key wrapped under octets x does not unwrap under octets x + 1. */
  lemma NextKeyFails(p: Primitives, x: byte, cek: bytes)
    requires p.Sized() && p.AesLaw() && p.aesDecrypt == BASE.aesDecrypt && x < 255 && |cek| == 16
    requires KeyWrap.Wrap(p, Repeat(x, 16), cek).Ok?
    ensures KeyWrap.Unwrap(p, Repeat(x + 1, 16), KeyWrap.Wrap(p, Repeat(x, 16), cek).value) == Err(DecryptFailed)
  {
    hide KeyWrap.UnwrapPasses, Shifted, p.Sized, p.AesLaw;
    var c := KeyWrap.Wrap(p, Repeat(x, 16), cek).value;
    KeyWrap.WrapSucceeds(p, Repeat(x, 16), cek);
    KeyWrap.UnwrapInvertsWrap(p, Repeat(x, 16), cek, c);
    var s := KeyWrap.Registers(c[..8], c[8..]);
    PassesBack(p, Repeat(x, 16), 6, s);
    PassesBack(p, Repeat(x + 1, 16), 6, s);
    ShiftedApart(s.a[0], x as int);
  }

  lemma ShiftedApart(a: byte, x: int)
    ensures Shifted(a, -12 * x) != Shifted(a, -12 * (x + 1))
  {
  }

  // ---------------------------------------------------------------- the documents exist

  function CekFor(given: Option<bytes>, coins: Coins): bytes
    requires coins.Fit()
  {
    if given.Some? then given.value else coins.cek[..16]
  }

  /** Every key pair of the instance has the same public point, which is written as EPK. */
  lemma PublicPoint(p: Primitives, coins: Coins)
    requires p.ecdhPublic == BASE.ecdhPublic && p.ecdhGenerate == BASE.ecdhGenerate
    ensures var pub := Point(X25519, Repeat(0, 32));
            && AsEcdhPublic(p, Key(true)) == Ok(pub) && FromEcdhPublic(pub) == Ok(EPK)
            && p.ecdhPublic(X25519, p.ecdhGenerate(X25519, coins.ephemeral)) == pub.octets
  {
    hide EncodeSegment;
  }

  lemma AgreementSucceeds(p: Primitives, priv: bytes, pub: bytes)
    requires p.Sized() && p.ecdh == BASE.ecdh
    ensures Agree(p, KmFor(true), A128GCM, Scalar(X25519, priv), Point(X25519, pub), OwnHeader(true)).Ok?
    ensures HeaderBytesOptional(OwnHeader(true), "apu") == Ok([]) && "apv" !in OwnHeader(true)
  {
    hide ConcatKdf.Derive, JwkToValue, p.Sized;
  }

  lemma WrapsSixteen(p: Primitives, x: byte, cek: bytes)
    requires p.Sized() && |cek| == 16
    ensures KeyWrap.Wrap(p, Repeat(x, 16), cek).Ok?
  {
    KeyWrap.WrapSucceeds(p, Repeat(x, 16), cek);
  }

  /** The sender's agreed key: its input has 30 octets. */
  lemma SenderAgrees(p: Primitives, priv: bytes, pub: bytes)
    requires p.Sized() && p.hash == BASE.hash && p.ecdh == BASE.ecdh
    ensures Agree(p, KmFor(true), A128GCM, Scalar(X25519, priv), Point(X25519, pub), OwnHeader(true)) ==
            Ok(Repeat(35, 16))
  {
    hide Agree, KdfInput, HeaderBytesOptional, OwnHeader, KmFor, p.Sized;
    AgreementSucceeds(p, priv, pub);
    InputLength(OwnHeader(true), []);
    AgreedKey(p, Scalar(X25519, priv), Point(X25519, pub), OwnHeader(true));
  }

  /** The steps of the sender's key agreement, put together. */
  lemma AgreementSteps(p: Primitives, km: Mgmt, key: GoKey, h: Header, cek: bytes, coins: Coins,
                       pub: Point, epk: Jwk, agreed: bytes, ek: bytes)
    requires p.Sized() && km.wrapBits != 0 && AsEcdhPublic(p, key) == Ok(pub)
    requires var eph := p.ecdhGenerate(pub.curve, coins.ephemeral);
             && FromEcdhPublic(Point(pub.curve, p.ecdhPublic(pub.curve, eph))) == Ok(epk) && epk.keyOps == []
             && Agree(p, km, A128GCM, Scalar(pub.curve, eph), pub, h["epk" := JwkToValue(epk)]) == Ok(agreed)
    requires KeyWrap.Wrap(p, agreed, cek) == Ok(ek)
    ensures EncryptKeyEcdh(p, km, A128GCM, key, h, cek, coins) == Ok(Wrapped(cek, ek, h["epk" := JwkToValue(epk)]))
  {
    hide KeyWrap.Wrap, JwkToValue, Agree, AsEcdhPublic, FromEcdhPublic, Writes, p.Sized;
  }

  /** The sender agrees on a key without party information, and wraps the CEK under it. */
  lemma KeyIsAgreed(p: Primitives, h: Header, cek: bytes, coins: Coins)
    requires p.Sized() && coins.Fit() && |cek| == 16 && h == map["alg" := Str(Alg(true))]
    requires p.hash == BASE.hash && p.ecdh == BASE.ecdh
    requires p.ecdhPublic == BASE.ecdhPublic && p.ecdhGenerate == BASE.ecdhGenerate
    ensures KeyWrap.Wrap(p, Repeat(35, 16), cek).Ok?
    ensures EncryptKeyEcdh(p, KmFor(true), A128GCM, Key(true), h, cek, coins) ==
            Ok(Wrapped(cek, KeyWrap.Wrap(p, Repeat(35, 16), cek).value, OwnHeader(true)))
  {
    hide KeyWrap.Wrap, JwkToValue, Agree, AsEcdhPublic, FromEcdhPublic, EncryptKeyEcdh, Alg, p.Sized;
    var pub := Point(X25519, Repeat(0, 32));
    PublicPoint(p, coins);
    SenderAgrees(p, p.ecdhGenerate(X25519, coins.ephemeral), pub.octets);
    WrapsSixteen(p, 35, cek);
    AgreementSteps(p, KmFor(true), Key(true), h, cek, coins, pub, EPK, Repeat(35, 16),
                   KeyWrap.Wrap(p, Repeat(35, 16), cek).value);
  }

  lemma KeyIsWrapped(ecdh: bool, given: Option<bytes>, coins: Coins)
    requires Library(ecdh).Sized() && coins.Fit() && (given.Some? ==> |given.value| == 16) && A128GCM.Valid()
    ensures var h: Header := map["alg" := Str(Alg(ecdh))];
            var w := EncryptKey(Library(ecdh), KmFor(ecdh), A128GCM, Key(ecdh), h, given, coins);
            && w.Ok? && w.value.header == OwnHeader(ecdh) && w.value.cek == CekFor(given, coins)
            && (ecdh ==> KeyWrap.Wrap(Library(ecdh), Repeat(35, 16), w.value.cek) == Ok(w.value.encryptedKey))
  {
    var p := Library(ecdh);
    hide KeyWrap.Wrap, EncryptKeyEcdh, JwkToValue, p.Sized;
    if ecdh {
      KeyIsAgreed(p, map["alg" := Str(Alg(ecdh))], CekFor(given, coins), coins);
    } else {
      KeyWrap.WrapSucceeds(p, Repeat(7, 16), CekFor(given, coins));
    }
  }

  function Both(ecdh: bool): seq<Recipient> {
    [Addressee(ecdh), Addressee(ecdh)]
  }

  ghost predicate TwoCoins(coins: seq<Coins>) {
    |coins| == 2 && forall i :: 0 <= i < |coins| ==> coins[i].Fit()
  }

  /** The loop over the two recipients. */
  lemma LoopSucceeds(ecdh: bool, coins: seq<Coins>)
    requires Library(ecdh).Sized() && A128GCM.Valid() && TwoCoins(coins)
    ensures var g := WrapSteps(Library(ecdh), Both(ecdh), A128GCM, SharedFor(ecdh), coins, 2);
            && g.Ok? && |g.value.cek.value| == 16
            && forall i :: 0 <= i < 2 ==>
                 && g.value.wrapped[i].header == OwnHeader(ecdh)
                 && (ecdh ==> KeyWrap.Wrap(Library(ecdh), Repeat(35, 16), g.value.cek.value) ==
                              Ok(g.value.wrapped[i].encryptedKey))
  {
    var p := Library(ecdh);
    hide PlanRecipient, EncryptKey, KeyWrap.Wrap, OwnHeader, Toy, p.Sized;
    RecipientIsPlanned(ecdh);
    KeyIsWrapped(ecdh, None, coins[0]);
    var cek := coins[0].cek[..16];
    KeyIsWrapped(ecdh, Some(cek), coins[1]);
    assert WrapSteps(p, Both(ecdh), A128GCM, SharedFor(ecdh), coins, 0) == Ok(Progress(None, []));
    assert WrapSteps(p, Both(ecdh), A128GCM, SharedFor(ecdh), coins, 1).Ok?;
  }

  lemma HeadersAreDisjoint(ecdh: bool)
    ensures MergeHeaders([SharedFor(ecdh), map[], OwnHeader(ecdh)]) == Ok(SharedFor(ecdh) + OwnHeader(ecdh))
  {
    hide MergeHeaders, JwkToValue;
    MergeThree(SharedFor(ecdh), map[], OwnHeader(ecdh));
    assert SharedFor(ecdh) + map[] == SharedFor(ecdh);
  }

  lemma CodecKnowsHeaders(ecdh: bool)
    ensures EncodeHeader(Library(ecdh), SharedFor(ecdh)).Ok? && Library(ecdh).headerToJson(OwnHeader(ecdh)).Some?
  {
    hide JwkToValue, EncodeSegment;
    var hs := [SharedFor(ecdh), OwnHeader(ecdh)];
    assert hs[0] in hs && hs[1] in hs;
  }

  lemma SealSucceeds(ecdh: bool, plaintext: bytes, g: Progress, iv: bytes)
    requires Library(ecdh).Sized() && A128GCM.Valid() && |iv| == 16
    requires g.cek.Some? && |g.cek.value| == 16 && |g.wrapped| == 2
    requires g.wrapped[0].header == OwnHeader(ecdh) && g.wrapped[1].header == OwnHeader(ecdh)
    ensures Seal(Library(ecdh), plaintext, Options(ecdh), A128GCM, SharedFor(ecdh), g, iv).Ok?
  {
    var p := Library(ecdh);
    hide MergeHeaders, CheckCriticalProduced, C.Encrypt, C.LookupEnc, EncodeSegment, EncodeHeader, JweAad, Library,
         OwnHeader, p.Sized;
    SharedIsBuilt(ecdh);
    HeadersAreDisjoint(ecdh);
    CodecKnowsHeaders(ecdh);
    assert AllMerge(SharedFor(ecdh), map[], EntriesFor(g.wrapped));
    assert Compressed(p, SharedFor(ecdh), plaintext) == Ok(plaintext);
  }

  lemma DocumentExists(ecdh: bool, plaintext: bytes, coins: seq<Coins>, iv: bytes)
    requires Library(ecdh).Sized() && TwoCoins(coins) && |iv| == 16
    ensures EncryptJsonMulti(Library(ecdh), plaintext, Options(ecdh), Both(ecdh), coins, iv).Ok?
  {
    var p := Library(ecdh);
    hide WrapSteps, Seal, SharedHeader, SharedFor, CheckCriticalProduced, C.LookupEnc, Library, KeyWrap.Wrap, OwnHeader,
         p.Sized;
    SharedIsBuilt(ecdh);
    LoopSucceeds(ecdh, coins);
    SealSucceeds(ecdh, plaintext, WrapSteps(p, Both(ecdh), A128GCM, SharedFor(ecdh), coins, 2).value, iv);
  }

  // ---------------------------------------------------------------- one that both can read

  /** The holder of the key satisfies everything that a round trip asks, except perhaps for the party information. */
  lemma HolderIsAdmitted(ecdh: bool)
    ensures Admits(Library(ecdh), KmFor(ecdh), A128GCM, Key(ecdh), "", RawKey(Key(ecdh)), RECIPIENT)
  {
    hide JwkToValue, SharedFor, OwnHeader, Uncompressed;
  }

  lemma PartyInfoIsUnseen(ecdh: bool)
    ensures PartyInfoIsSeen(KmFor(ecdh), SharedFor(ecdh), map[], 2) <==> !ecdh
  {
    if ecdh {
      assert Unseen(SharedFor(ecdh), map[], 2)["apu"] == Str("QQ");
    }
  }

  lemma HolderIsRecipient(i: nat)
    requires i < 2
    ensures IsRecipient(Library(false), Options(false), Both(false), i, RawKey(Key(false)), RECIPIENT)
  {
    hide PlanRecipient, SharedHeader, Admits, PartyInfoIsSeen, Toy;
    SharedIsBuilt(false);
    RecipientIsPlanned(false);
    HolderIsAdmitted(false);
    PartyInfoIsUnseen(false);
  }

  /** Each entry yields the CEK, each trial the plaintext, and so does DecryptJSON. */
  lemma TwoRecipientsRoundTrip(plaintext: bytes, coins: seq<Coins>, iv: bytes, i: nat)
    requires TwoCoins(coins) && |iv| == 16 && i < 2
    ensures var p, key := Library(false), RawKey(Key(false));
            && p.Lawful() && EncryptJsonMulti(p, plaintext, Options(false), Both(false), coins, iv).Ok?
            && var sent := EncryptJsonMulti(p, plaintext, Options(false), Both(false), coins, iv).value;
               var doc := ReceivedDocument(p, sent);
               && Open(p, doc).Ok? && |Open(p, doc).value.entries| == 2
               && var d := Open(p, doc).value;
                  && LoopResult(p, Options(false), Both(false), coins).Ok?
                  && EntryCek(p, d, i, key, RECIPIENT) ==
                     Ok(LoopResult(p, Options(false), Both(false), coins).value.cek.value)
                  && TryRecipient(p, d, d.entries[i], key, RECIPIENT).Ok?
                  && TryRecipient(p, d, d.entries[i], key, RECIPIENT).value.0 == plaintext
                  && DecryptJson(p, doc, key, RECIPIENT).Ok?
                  && DecryptJson(p, doc, key, RECIPIENT).value.0 == plaintext
  {
    var p := Library(false);
    hide EncryptJsonMulti, Open, ReceivedDocument, LoopResult, EntryCek, TryRecipient, DecryptJson, IsRecipient,
         SharedHeader, SharedFor, OwnHeader, Toy, C.LookupEnc, CheckCriticalProduced, SentKid;
    hide p.Sized, p.AesLaw, p.GcmLaw, p.RsaLaw, p.EcdsaLaw, p.EdLaw, p.EcdhLaw, p.DeflateLaw, p.JsonLaw;
    LawsHold([SharedFor(false), OwnHeader(false)]);
    DocumentExists(false, plaintext, coins, iv);
    SharedIsBuilt(false);
    HolderIsRecipient(i);
    HolderIsRecipient(0);
    EveryKeyUnwraps(p, plaintext, Options(false), Both(false), coins, iv, i, RawKey(Key(false)), RECIPIENT);
    EveryRecipientRecovers(p, plaintext, Options(false), Both(false), coins, iv, i, RawKey(Key(false)), RECIPIENT);
    AddressedRecipientRoundTrip(p, plaintext, Options(false), Both(false), coins, iv, 0, RawKey(Key(false)), RECIPIENT);
  }

  // ---------------------------------------------------------------- one that neither can read

  /** The view that a recipient merges has the sender's "apu". */
  lemma ViewHasApu(p: Primitives)
    requires p == Library(true)
    ensures var got := p.Received(SharedFor(true) + OwnHeader(true));
            && HeaderBytesOptional(got, "apu") == Ok([65]) && "apv" !in got
            && StringParam(got, "alg") == Alg(true) && StringParam(got, "enc") == "A128GCM"
  {
    hide JwkToValue, Toy, DecodeSegment;
    OneOctetSegment();
  }

  lemma OneOctetSegment()
    ensures DecodeSegment("QQ") == Ok([65])
  {
    assert EncodeSegment([65]) == "QQ";
    DecodeEncoded([65]);
  }

  /** From such a view the recipient agrees on another key than the sender, and unwrapping fails. */
  lemma AgreementFails(p: Primitives, got: Header, cek: bytes, dk: GoKey)
    requires p == Library(true) && p.Lawful() && |cek| == 16 && KeyWrap.Wrap(p, Repeat(35, 16), cek).Ok?
    requires HeaderBytesOptional(got, "apu") == Ok([65]) && "apv" !in got
    ensures DecryptKeyEcdh(p, KmFor(true), A128GCM, dk, got, KeyWrap.Wrap(p, Repeat(35, 16), cek).value).Err?
  {
    hide KeyWrap.Wrap, KeyWrap.Unwrap, AsEcdhPrivate, EpkPoint, Agree, KdfInput, HeaderBytesOptional, SharedFor,
         OwnHeader;
    hide p.Sized, p.AesLaw, p.GcmLaw, p.RsaLaw, p.EcdsaLaw, p.EdLaw, p.EcdhLaw, p.DeflateLaw, p.JsonLaw;
    InputLength(got, [65]);
    NextKeyFails(p, 35, cek);
    if AsEcdhPrivate(p, dk).Ok? && EpkPoint(p, got).Ok? {
      var priv, pub := AsEcdhPrivate(p, dk).value, EpkPoint(p, got).value;
      if Agree(p, KmFor(true), A128GCM, priv, pub, got).Ok? {
        AgreedKey(p, priv, pub, got);
      }
    }
  }

  /** The view merged from an entry of the document fails for every key. */
  lemma ViewIsLocked(p: Primitives, cek: bytes, ek: bytes, dkey: KeyArg, dopts: DecryptOptions)
    requires p == Library(true) && p.Lawful() && |cek| == 16 && KeyWrap.Wrap(p, Repeat(35, 16), cek) == Ok(ek)
    ensures RecoverCek(p, p.Received(SharedFor(true) + OwnHeader(true)), ek, dkey, dopts).Err?
  {
    hide KeyWrap.Wrap, DecryptKeyEcdh, HeaderBytesOptional, SharedFor, OwnHeader, Toy, CheckJwkUsage, ResolveKey,
         StringParam, p.Received;
    hide p.Sized, p.AesLaw, p.GcmLaw, p.RsaLaw, p.EcdsaLaw, p.EdLaw, p.EcdhLaw, p.DeflateLaw, p.JsonLaw;
    ViewHasApu(p);
    var got := p.Received(SharedFor(true) + OwnHeader(true));
    if Choose(p, got, dkey, dopts).Ok? {
      AgreementFails(p, got, cek, Choose(p, got, dkey, dopts).value.key);
    }
  }

  lemma EntryIsLocked(plaintext: bytes, coins: seq<Coins>, iv: bytes, i: nat, dkey: KeyArg, dopts: DecryptOptions)
    requires TwoCoins(coins) && |iv| == 16 && i < 2 && Library(true).Lawful()
    requires EncryptJsonMulti(Library(true), plaintext, Options(true), Both(true), coins, iv).Ok?
    ensures var p := Library(true);
            var doc := ReceivedDocument(p, EncryptJsonMulti(p, plaintext, Options(true), Both(true), coins, iv).value);
            && Open(p, doc).Ok? && |Open(p, doc).value.entries| == 2
            && EntryCek(p, Open(p, doc).value, i, dkey, dopts).Err?
  {
    var p := Library(true);
    hide EncryptJsonMulti, Open, ReceivedDocument, WrapSteps, RecoverCek, MergeHeaders, Delivered, DecodeOptional,
         EncodeSegment, MergedView, SharedHeader, SharedFor, OwnHeader, Toy, C.LookupEnc, CheckCriticalProduced,
         KeyWrap.Wrap, p.Received;
    hide p.Sized, p.AesLaw, p.GcmLaw, p.RsaLaw, p.EcdsaLaw, p.EdLaw, p.EcdhLaw, p.DeflateLaw, p.JsonLaw;
    SharedIsBuilt(true);
    DocumentCarriesEntry(p, plaintext, Options(true), Both(true), coins, iv, i);
    LoopSucceeds(true, coins);
    var g := WrapSteps(p, Both(true), A128GCM, SharedFor(true), coins, 2).value;
    assert LoopResult(p, Options(true), Both(true), coins) == Ok(g);
    var w := g.wrapped[i];
    assert SharedFor(true) + map[] == SharedFor(true);
    assert ViewOf(w.header, SharedFor(true), map[], 2) == SharedFor(true) + OwnHeader(true);
    OptionalRoundTrip(w.encryptedKey);
    ViewIsLocked(p, g.cek.value, w.encryptedKey, dkey, dopts);
  }

  /**
   EncryptJSONMulti produces a document with "apu" in the shared header and two key agreement
   recipients; no key whatsoever decrypts it, although each holder has the matching key.
   */
  lemma SharedApuLocksOut(plaintext: bytes, coins: seq<Coins>, iv: bytes, dkey: KeyArg, dopts: DecryptOptions)
    requires TwoCoins(coins) && |iv| == 16
    ensures var p := Library(true);
            && p.Lawful() && EncryptJsonMulti(p, plaintext, Options(true), Both(true), coins, iv).Ok?
            && Admits(p, KmFor(true), A128GCM, Key(true), "", RawKey(Key(true)), RECIPIENT)
            && !PartyInfoIsSeen(KmFor(true), SharedHeader(Options(true), 2), map[], 2)
            && var sent := EncryptJsonMulti(p, plaintext, Options(true), Both(true), coins, iv).value;
               var doc := ReceivedDocument(p, sent);
               DecryptJson(p, doc, dkey, dopts).Err?
  {
    var p := Library(true);
    hide EncryptJsonMulti, Open, ReceivedDocument, EntryCek, TryRecipient, DecryptJson, SharedHeader, SharedFor,
         OwnHeader, Toy, C.LookupEnc, CheckCriticalProduced, Admits, PartyInfoIsSeen;
    hide p.Sized, p.AesLaw, p.GcmLaw, p.RsaLaw, p.EcdsaLaw, p.EdLaw, p.EcdhLaw, p.DeflateLaw, p.JsonLaw;
    LawsHold([SharedFor(true), OwnHeader(true)]);
    DocumentExists(true, plaintext, coins, iv);
    SharedIsBuilt(true);
    HolderIsAdmitted(true);
    PartyInfoIsUnseen(true);
    var doc := ReceivedDocument(p, EncryptJsonMulti(p, plaintext, Options(true), Both(true), coins, iv).value);
    EntryIsLocked(plaintext, coins, iv, 0, dkey, dopts);
    DecryptIsComplete(p, doc, dkey, dopts);
    var d := Open(p, doc).value;
    forall i | 0 <= i < |d.entries|
      ensures TryRecipient(p, d, d.entries[i], dkey, dopts).Err?
    {
      EntryIsLocked(plaintext, coins, iv, i, dkey, dopts);
      if TryRecipient(p, d, d.entries[i], dkey, dopts).Ok? {
        TrialNeedsCek(p, d, i, dkey, dopts);
      }
    }
  }
}
