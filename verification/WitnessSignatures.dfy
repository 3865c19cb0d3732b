/** Signed documents that exist in the small instance. */
module WitnessSignatures {
  import opened Octets
  import opened Outcomes
  import opened Keys
  import opened Primitives
  import opened Base64Url
  import opened Headers
  import opened Jws
  import opened JwsProperties
  import opened Witness
  import Utf8

  const KEY := RawKey(Secret([7]))

  /** HS256, with the payload encoded or, as RFC 7797 allows, not. */
  function Options(b64: bool, detach: bool): SignOptions {
    var header: Header := if b64 then map[] else map["b64" := Bool(false)];
    SignOptions("HS256", "", header, map[], if b64 then [] else ["b64"], detach)
  }

  function Protected(b64: bool): Header {
    if b64 then map["alg" := Str("HS256")]
    else map["b64" := Bool(false), "alg" := Str("HS256"), "crit" := Strings(["b64"])]
  }

  function Library(b64: bool): Primitives {
    Toy([Protected(b64)])
  }

  lemma HeaderIsBuilt(b64: bool, detach: bool)
    ensures ProtectedHeader(KEY, Options(b64, detach), "HS256") == Protected(b64)
    ensures MergeHeaders([Protected(b64), map[]]).Ok?
    ensures CheckCriticalProduced(Protected(b64)).Pass?
    ensures B64Setting(Protected(b64), Options(b64, detach).critical) == Ok(b64)
  {
    CopyOfTwo(Options(b64, detach).header, map[]);
    MergeTwo(Protected(b64), map[]);
    if !b64 {
      CriticalAccepted(Protected(b64), ["b64"]);
    }
  }

  lemma SignaturePlan(b64: bool, detach: bool)
    ensures var plan := PlanSignature(Library(b64), KEY, Options(b64, detach));
            plan.Ok? && plan.value.protected == Protected(b64) && plan.value.b64 == b64 &&
            plan.value.key == KEY.key && plan.value.alg.kind.HmacKind? && plan.value.alg.name == "HS256"
  {
    hide ProtectedHeader, MergeHeaders, CheckCriticalProduced, B64Setting, Protected;
    HeaderIsBuilt(b64, detach);
  }

  lemma SignerIsAdmitted(b64: bool, detach: bool, vopts: VerifyOptions)
    requires vopts.algorithms == []
    ensures AdmitsSigner(Library(b64), Signer(KEY, Options(b64, detach)), KEY, vopts)
  {
    hide PlanSignature;
    SignaturePlan(b64, detach);
  }

  lemma SignatureExists(b64: bool, detach: bool, payload: bytes, seed: bytes)
    requires EncodePayload(payload, b64).Ok?
    ensures var one := SignOne(Library(b64), payload, KEY, Options(b64, detach), seed);
            one.Ok? && EncodePayload(payload, b64) == Ok(one.value.encodedPayload)
  {
    hide PlanSignature, EncodePayload, SigningInput, EncodeSegment;
    SignaturePlan(b64, detach);
    assert EncodeHeader(Library(b64), Protected(b64)).Ok?;
  }

  /** Two signers, of whom one detaches the payload: the payload comes back. */
  lemma TwoSignaturesRoundTrip(payload: bytes, seeds: seq<bytes>)
    requires payload != [] && |seeds| == 2
    ensures var p := Library(true);
            var signers := [Signer(KEY, Options(true, false)), Signer(KEY, Options(true, true))];
            var doc := SignJsonMulti(p, payload, signers, seeds);
            && p.Lawful() && doc.Ok?
            && var r := VerifyJson(p, ReceivedDocument(p, doc.value), KEY, VerifyOptions([], [], []));
               r.Ok? && r.value.0 == payload
  {
    var p := Library(true);
    var signers := [Signer(KEY, Options(true, false)), Signer(KEY, Options(true, true))];
    hide PlanSignature, SignOne, AdmitsSigner, VerifyJson, Protected, Toy, EncodeSegment;
    hide p.Sized, p.AesLaw, p.GcmLaw, p.RsaLaw, p.EcdsaLaw, p.EdLaw, p.EcdhLaw, p.DeflateLaw, p.JsonLaw;
    LawsHold([Protected(true)]);
    SignatureExists(true, false, payload, seeds[0]);
    SignatureExists(true, true, payload, seeds[1]);
    SignerIsAdmitted(true, false, VerifyOptions([], [], []));
    SignaturePlan(true, false);
    assert SignSteps(p, payload, signers, seeds, 1).Ok?;
    assert !signers[0].options.detach;
    MultiSignatureRoundTrip(p, payload, signers, seeds, 0, KEY, VerifyOptions([], [], []));
  }

  lemma InvalidText()
    ensures EncodePayload([0xFF], false).Ok? && !Utf8.Valid([0xFF])
  {
    assert Utf8.CharLen([0xFF]) == 0;
  }

  /** An unencoded payload that is not UTF-8, such as one octet 0xFF, can be signed, and does not come back. */
  lemma InvalidTextIsLost(payload: bytes, seed: bytes)
    requires EncodePayload(payload, false).Ok? && !Utf8.Valid(payload)
    ensures var p := Library(false);
            var doc := SignJsonMulti(p, payload, [Signer(KEY, Options(false, false))], [seed]);
            && p.Lawful() && doc.Ok?
            && var r := VerifyJson(p, ReceivedDocument(p, doc.value), KEY, VerifyOptions([], [], []));
               !(r.Ok? && r.value.0 == payload)
  {
    var p := Library(false);
    var signers := [Signer(KEY, Options(false, false))];
    hide PlanSignature, SignOne, AdmitsSigner, VerifyJson, Protected, Toy, EncodePayload, Utf8.Valid;
    hide p.Sized, p.AesLaw, p.GcmLaw, p.RsaLaw, p.EcdsaLaw, p.EdLaw, p.EcdhLaw, p.DeflateLaw, p.JsonLaw;
    LawsHold([Protected(false)]);
    SignatureExists(false, false, payload, seed);
    SignerIsAdmitted(false, false, VerifyOptions([], [], []));
    SignaturePlan(false, false);
    assert !signers[0].options.detach;
    assert SignSteps(p, payload, signers, [seed], 1).Ok?;
    MultiSignatureRoundTrip(p, payload, signers, [seed], 0, KEY, VerifyOptions([], [], []));
  }
}
