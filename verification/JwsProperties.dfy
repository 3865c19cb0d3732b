/** What holds of signing and verifying, over every input and every list of signers. */
module JwsProperties {
  import opened Octets
  import opened Outcomes
  import opened Keys
  import opened Primitives
  import opened Base64Url
  import opened Headers
  import opened JsonWebKeys
  import opened Signatures
  import opened Tokens
  import opened Jws
  import Utf8

  // ---------------------------------------------------------------- headers in transit

  /** What a finished plan guarantees about the header that is going to be sent. */
  lemma PlanIsSound(p: Primitives, key: KeyArg, opts: SignOptions)
    requires PlanSignature(p, key, opts).Ok?
    ensures var plan := PlanSignature(p, key, opts).value;
            && plan.alg.Valid() && LookupSigAlg(plan.alg.name) == Ok(plan.alg)
            && "alg" in plan.protected && plan.protected["alg"] == Str(plan.alg.name)
            && plan.protected.Keys !! opts.unprotected.Keys
            && "b64" !in opts.unprotected
            && CheckCriticalProduced(plan.protected).Pass?
            && B64Setting(plan.protected, DeclaredCritical(plan.protected)) == Ok(plan.b64)
  {
    hide MergeHeaders, CheckCriticalProduced, CopyHeader, SigningAlg, CheckJwkUsage, ResolveKey, LookupSigAlg;
    MergeTwo(PlanSignature(p, key, opts).value.protected, opts.unprotected);
  }

  /** The recipient reads the same "b64" setting from the header it receives. */
  lemma SettingReceived(p: Primitives, h: Header)
    requires CheckCriticalProduced(h).Pass?
    ensures B64Setting(p.Received(h), DeclaredCritical(p.Received(h))) == B64Setting(h, DeclaredCritical(h))
  {
    CriticalReceived(p, h);
  }

  // ---------------------------------------------------------------- payloads in transit

  lemma PayloadRoundTrip(payload: bytes, b64: bool)
    requires EncodePayload(payload, b64).Ok?
    ensures var segment := EncodePayload(payload, b64).value;
            && DecodePayload(segment, b64) == Ok(payload)
            && '.' !in segment
            && (segment == "" <==> payload == [])
            && (payload != [] ==> EffectiveSegment("", b64, payload) == Ok(segment))
  {
    DecodeEncoded(payload);
    OctetsOfText(payload);
  }

  // ---------------------------------------------------------------- one signature

  /** The verifier holds the matching key, and its options admit what the signer chose. */
  ghost predicate Admits(p: Primitives, plan: Plan, unprotected: Header, vkey: KeyArg, vopts: VerifyOptions) {
    var kid := StringParam(plan.protected + unprotected, "kid");
    && (vopts.algorithms == [] || plan.alg.name in vopts.algorithms)
    && (forall n :: n in DeclaredCritical(plan.protected) ==> n in ["b64"] + vopts.knownCritical)
    && CheckJwkUsage(vkey, kid, "sig", [plan.alg.name], ["verify"]).Pass?
    && ResolveKey(p, vkey, kid).Ok?
    && Checks(p, plan.alg.kind, plan.key, ResolveKey(p, vkey, kid).value)
  }

  ghost predicate AdmitsSigner(p: Primitives, s: Signer, vkey: KeyArg, vopts: VerifyOptions) {
    var plan := PlanSignature(p, s.key, s.options);
    plan.Ok? && Admits(p, plan.value, s.options.unprotected, vkey, vopts)
  }

  /** The serialized payload is the encoded one, or is absent and supplied out of band. */
  ghost predicate Carries(segment: string, encoded: string, payload: bytes, vopts: VerifyOptions) {
    (segment != "" && segment == encoded) || (segment == "" && vopts.detachedPayload == payload)
  }

  lemma SignatureChecks(p: Primitives, plan: Plan, input: bytes, seed: bytes, kid: string, vkey: KeyArg)
    requires p.Lawful() && plan.alg.Valid() && LookupSigAlg(plan.alg.name) == Ok(plan.alg)
    requires CheckJwkUsage(vkey, kid, "sig", [plan.alg.name], ["verify"]).Pass?
    requires ResolveKey(p, vkey, kid).Ok? && Checks(p, plan.alg.kind, plan.key, ResolveKey(p, vkey, kid).value)
    requires SignOctets(p, plan.alg, input, plan.key, seed).Ok?
    ensures CheckSignature(p, plan.alg.name, kid, input,
                           EncodeSegment(SignOctets(p, plan.alg, input, plan.key, seed).value), vkey).Ok?
  {
    hide LookupSigAlg, CheckJwkUsage, ResolveKey, SignOctets, VerifyOctets, Checks;
    hide p.Sized, p.AesLaw, p.GcmLaw, p.RsaLaw, p.EcdsaLaw, p.EdLaw, p.EcdhLaw, p.DeflateLaw, p.JsonLaw;
    var sig := SignOctets(p, plan.alg, input, plan.key, seed).value;
    SignatureRoundTrip(p, plan.alg, input, plan.key, ResolveKey(p, vkey, kid).value, seed);
    DecodeEncoded(sig);
  }

  /** The checks before the signature leave exactly the segment that was signed. */
  lemma SignedSegmentIsVerified(p: Primitives, plan: Plan, unprotected: Header, payload: bytes,
                                segment: string, vopts: VerifyOptions)
    requires CheckCriticalProduced(plan.protected).Pass? && "b64" !in unprotected && payload != []
    requires B64Setting(plan.protected, DeclaredCritical(plan.protected)) == Ok(plan.b64)
    requires EncodePayload(payload, plan.b64).Ok?
    requires Carries(segment, EncodePayload(payload, plan.b64).value, payload, vopts)
    requires forall n :: n in DeclaredCritical(plan.protected) ==> n in ["b64"] + vopts.knownCritical
    ensures VerifiableSegment(p.Received(plan.protected), p.Received(unprotected), segment, vopts) ==
            Ok((plan.b64, EncodePayload(payload, plan.b64).value))
  {
    ProducedIsAccepted(p, plan.protected, ["b64"] + vopts.knownCritical);
    SettingReceived(p, plan.protected);
    PayloadRoundTrip(payload, plan.b64);
    hide CheckCritical, B64Setting, EncodePayload;
  }

  /** One signature, checked with the matching key, returns the payload that was signed. */
  lemma SignedVerifies(p: Primitives, payload: bytes, key: KeyArg, opts: SignOptions, seed: bytes,
                       segment: string, vkey: KeyArg, vopts: VerifyOptions)
    requires p.Lawful() && payload != [] && SignOne(p, payload, key, opts, seed).Ok?
    requires Admits(p, PlanSignature(p, key, opts).value, opts.unprotected, vkey, vopts)
    requires Carries(segment, SignOne(p, payload, key, opts, seed).value.encodedPayload, payload, vopts)
    ensures var s := SignOne(p, payload, key, opts, seed).value;
            var plan := PlanSignature(p, key, opts).value;
            && DecodeHeader(p, s.protectedB64) == Ok(p.Received(plan.protected))
            && VerifySignature(p, s.protectedB64, p.Received(plan.protected), p.Received(opts.unprotected),
                               segment, s.sigB64, vkey, vopts) == Ok(payload)
  {
    hide PlanSignature, MergeHeaders, VerifiableSegment, CheckSignature, EncodePayload, DecodePayload, EncodeHeader,
         DecodeHeader, SignOctets, SigningInput, CheckJwkUsage, ResolveKey, Checks, LookupSigAlg, CheckCriticalProduced,
         B64Setting;
    hide p.Sized, p.AesLaw, p.GcmLaw, p.RsaLaw, p.EcdsaLaw, p.EdLaw, p.EcdhLaw, p.DeflateLaw, p.JsonLaw;
    var s := SignOne(p, payload, key, opts, seed).value;
    var plan := PlanSignature(p, key, opts).value;
    var merged := plan.protected + opts.unprotected;
    PlanIsSound(p, key, opts);
    DecodeEncodedHeader(p, plan.protected);
    MergeTwo(p.Received(plan.protected), p.Received(opts.unprotected));
    ReceivedSum(p, plan.protected, opts.unprotected);
    StringParamReceived(p, merged, "alg");
    StringParamReceived(p, merged, "kid");
    assert StringParam(merged, "alg") == plan.alg.name;
    LookedUpName(plan.alg);
    SignedSegmentIsVerified(p, plan, opts.unprotected, payload, segment, vopts);
    SignatureChecks(p, plan, SigningInput(s.protectedB64, s.encodedPayload), seed, StringParam(merged, "kid"), vkey);
    PayloadRoundTrip(payload, plan.b64);
  }

  lemma LookedUpName(a: SigAlg)
    requires LookupSigAlg(a.name) == Ok(a)
    ensures a.name != "" && a.name != "none"
  {
  }

  /** Whatever the key and options, a check that succeeds returns what the segment decodes to. */
  lemma SuccessDecodesSegment(p: Primitives, payload: bytes, key: KeyArg, opts: SignOptions, seed: bytes,
                              unprotected: Header, segment: string, vkey: KeyArg, vopts: VerifyOptions)
    requires SignOne(p, payload, key, opts, seed).Ok? && segment != ""
    ensures var s := SignOne(p, payload, key, opts, seed).value;
            var plan := PlanSignature(p, key, opts).value;
            var r := VerifySignature(p, s.protectedB64, p.Received(plan.protected), unprotected,
                                     segment, s.sigB64, vkey, vopts);
            r.Ok? ==> r == DecodePayload(segment, plan.b64)
  {
    hide PlanSignature, MergeHeaders, CheckSignature, EncodePayload, DecodePayload, EncodeHeader,
         SignOctets, SigningInput, CheckCritical, CheckCriticalProduced, B64Setting;
    PlanIsSound(p, key, opts);
    SettingReceived(p, PlanSignature(p, key, opts).value.protected);
  }

  /** Whatever the key and options, a check of this signature that succeeds returns that payload. */
  lemma AnySuccessReturnsPayload(p: Primitives, payload: bytes, key: KeyArg, opts: SignOptions, seed: bytes,
                                 unprotected: Header, segment: string, vkey: KeyArg, vopts: VerifyOptions)
    requires p.Lawful() && payload != [] && SignOne(p, payload, key, opts, seed).Ok?
    requires Carries(segment, SignOne(p, payload, key, opts, seed).value.encodedPayload, payload, vopts)
    ensures var s := SignOne(p, payload, key, opts, seed).value;
            var plan := PlanSignature(p, key, opts).value;
            var r := VerifySignature(p, s.protectedB64, p.Received(plan.protected), unprotected,
                                     segment, s.sigB64, vkey, vopts);
            r.Ok? ==> r.value == payload
  {
    hide PlanSignature, MergeHeaders, CheckSignature, EncodePayload, DecodePayload, EncodeHeader,
         SignOctets, SigningInput, CheckCritical, CheckCriticalProduced, B64Setting, EffectiveSegment;
    hide p.Sized, p.AesLaw, p.GcmLaw, p.RsaLaw, p.EcdsaLaw, p.EdLaw, p.EcdhLaw, p.DeflateLaw, p.JsonLaw;
    var plan := PlanSignature(p, key, opts).value;
    PlanIsSound(p, key, opts);
    SettingReceived(p, plan.protected);
    PayloadRoundTrip(payload, plan.b64);
    assert segment != "" ==> EffectiveSegment(segment, plan.b64, vopts.detachedPayload) == Ok(segment) by {
      EffectiveWhenPresent(segment, plan.b64, vopts.detachedPayload);
    }
  }

  lemma EffectiveWhenPresent(segment: string, b64: bool, detached: bytes)
    ensures segment != "" ==> EffectiveSegment(segment, b64, detached) == Ok(segment)
  {
  }

  // ---------------------------------------------------------------- the compact serialization

  /** No verified payload is empty: an empty segment always stands for a detached payload. */
  lemma VerifiedPayloadIsNonEmpty(p: Primitives, protectedSeg: string, protected: Header, unprotected: Header,
                                  payloadSeg: string, sigSeg: string, key: KeyArg, opts: VerifyOptions)
    ensures var r := VerifySignature(p, protectedSeg, protected, unprotected, payloadSeg, sigSeg, key, opts);
            r.Ok? ==> r.value != []
  {
    hide MergeHeaders, CheckSignature, CheckCritical, B64Setting, SigningInput;
    var r := VerifySignature(p, protectedSeg, protected, unprotected, payloadSeg, sigSeg, key, opts);
    if r.Ok? {
      var (b64, segment) := VerifiableSegment(protected, unprotected, payloadSeg, opts).value;
      assert segment != "";
      if b64 && r.value == [] {
        OnlyEmptyDecodesToNothing(segment);
      }
    }
  }

  /**
   Nothing is signed that cannot be verified: some options make the holder of the signing key
   itself accept the signature, with the payload at hand or attached.
   */
  lemma SignedIsVerifiable(p: Primitives, payload: bytes, key: KeyArg, opts: SignOptions, seed: bytes)
    requires p.Lawful() && payload != [] && SignOne(p, payload, key, opts, seed).Ok?
    requires var plan := PlanSignature(p, key, opts).value; Checks(p, plan.alg.kind, plan.key, plan.key)
    ensures var s := SignOne(p, payload, key, opts, seed).value;
            var plan := PlanSignature(p, key, opts).value;
            var vopts := VerifyOptions([plan.alg.name], DeclaredCritical(plan.protected), payload);
            forall segment :: segment == "" || segment == s.encodedPayload ==>
              VerifySignature(p, s.protectedB64, p.Received(plan.protected), p.Received(opts.unprotected),
                              segment, s.sigB64, RawKey(plan.key), vopts) == Ok(payload)
  {
    hide SignOne, PlanSignature, VerifySignature, Checks;
    hide p.Sized, p.AesLaw, p.GcmLaw, p.RsaLaw, p.EcdsaLaw, p.EdLaw, p.EcdhLaw, p.DeflateLaw, p.JsonLaw;
    var s := SignOne(p, payload, key, opts, seed).value;
    var plan := PlanSignature(p, key, opts).value;
    var vopts := VerifyOptions([plan.alg.name], DeclaredCritical(plan.protected), payload);
    SignedPayloadIsPresent(p, payload, key, opts, seed);
    forall segment | segment == "" || segment == s.encodedPayload
      ensures VerifySignature(p, s.protectedB64, p.Received(plan.protected), p.Received(opts.unprotected),
                              segment, s.sigB64, RawKey(plan.key), vopts) == Ok(payload)
    {
      SignedVerifies(p, payload, key, opts, seed, segment, RawKey(plan.key), vopts);
    }
  }

  /** The signer's token splits back into its three segments. */
  lemma SignedTokenSplits(p: Primitives, payload: bytes, key: KeyArg, opts: SignOptions, seed: bytes)
    requires SignCompact(p, payload, key, opts, seed).Ok?
    ensures var s := SignOne(p, payload, key, opts, seed).value;
            Split(SignCompact(p, payload, key, opts, seed).value) ==
            [s.protectedB64, if opts.detach then "" else s.encodedPayload, s.sigB64]
  {
    hide PlanSignature, SignOctets, EncodeSegment, SigningInput;
    var s := SignOne(p, payload, key, opts, seed).value;
    PayloadRoundTrip(payload, PlanSignature(p, key, opts).value.b64);
    SplitJoined([s.protectedB64, if opts.detach then "" else s.encodedPayload, s.sigB64]);
  }

  /**
   Verify after Sign, in the compact form: with the matching key the payload comes back
   exactly when it is not empty.
   */
  lemma CompactRoundTrip(p: Primitives, payload: bytes, key: KeyArg, opts: SignOptions, seed: bytes,
                         vkey: KeyArg, vopts: VerifyOptions)
    requires p.Lawful() && SignCompact(p, payload, key, opts, seed).Ok?
    requires Admits(p, PlanSignature(p, key, opts).value, map[], vkey, vopts)
    requires opts.detach ==> vopts.detachedPayload == payload
    ensures (VerifyCompact(p, SignCompact(p, payload, key, opts, seed).value, vkey, vopts) ==
             Ok((payload, p.Received(PlanSignature(p, key, opts).value.protected)))) <==> payload != []
  {
    hide SignOne, PlanSignature, VerifySignature, DecodeHeader, Admits;
    hide p.Sized, p.AesLaw, p.GcmLaw, p.RsaLaw, p.EcdsaLaw, p.EdLaw, p.EcdhLaw, p.DeflateLaw, p.JsonLaw;
    var s := SignOne(p, payload, key, opts, seed).value;
    var protected := p.Received(PlanSignature(p, key, opts).value.protected);
    var segment := if opts.detach then "" else s.encodedPayload;
    SignedTokenSplits(p, payload, key, opts, seed);
    if payload != [] {
      SignedPayloadIsPresent(p, payload, key, opts, seed);
      assert p.Received(map[]) == map[];
      SignedVerifies(p, payload, key, opts, seed, segment, vkey, vopts);
    } else if DecodeHeader(p, s.protectedB64) == Ok(protected) {
      VerifiedPayloadIsNonEmpty(p, s.protectedB64, protected, map[], segment, s.sigB64, vkey, vopts);
    }
  }

  /** The parts of a signature: the encoded header and the encoded payload of its plan. */
  lemma SignedParts(p: Primitives, payload: bytes, key: KeyArg, opts: SignOptions, seed: bytes)
    requires SignOne(p, payload, key, opts, seed).Ok?
    ensures var s := SignOne(p, payload, key, opts, seed).value;
            var plan := PlanSignature(p, key, opts).value;
            && EncodeHeader(p, plan.protected) == Ok(s.protectedB64)
            && EncodePayload(payload, plan.b64) == Ok(s.encodedPayload)
  {
    hide PlanSignature, EncodeHeader, EncodePayload, SignOctets, SigningInput;
  }

  lemma SignedPayloadIsPresent(p: Primitives, payload: bytes, key: KeyArg, opts: SignOptions, seed: bytes)
    requires SignOne(p, payload, key, opts, seed).Ok? && payload != []
    ensures SignOne(p, payload, key, opts, seed).value.encodedPayload != ""
  {
    hide SignOne, PlanSignature;
    SignedParts(p, payload, key, opts, seed);
    PayloadRoundTrip(payload, PlanSignature(p, key, opts).value.b64);
  }

  // ---------------------------------------------------------------- many signatures

  /**
   The document after a trip through JSON. The encoded headers and signatures are ASCII; the
   payload is whatever text the signers left.
   */
  function ReceivedDocument(p: Primitives, doc: Document): Document {
    doc.(payload := Utf8.JsonText(doc.payload),
         signatures := seq(|doc.signatures|, i requires 0 <= i < |doc.signatures| =>
           doc.signatures[i].(header := ReceivedHeader(p, doc.signatures[i].header))),
         header := ReceivedHeader(p, doc.header))
  }

  /** Entry i of the document is signer i's signature over the shared encoded payload. */
  ghost predicate EntryMatches(p: Primitives, payload: bytes, s: Signer, seed: bytes, entry: Signature, encoded: string)
  {
    var one := SignOne(p, payload, s.key, s.options, seed);
    && one.Ok? && one.value.encodedPayload == encoded
    && entry == Signature(one.value.protectedB64, OrNil(s.options.unprotected), one.value.sigB64)
  }

  predicate AllDetach(signers: seq<Signer>) {
    forall i :: 0 <= i < |signers| ==> signers[i].options.detach
  }

  lemma OneMoreDetaches(signers: seq<Signer>, n: nat)
    requires 0 < n <= |signers|
    ensures AllDetach(signers[..n]) <==> AllDetach(signers[..n - 1]) && signers[n - 1].options.detach
    ensures n == 1 ==> AllDetach(signers[..n - 1])
  {
    assert signers[..n] == signers[..n - 1] + [signers[n - 1]];
    if AllDetach(signers[..n]) {
      assert forall i :: 0 <= i < n - 1 ==> signers[..n - 1][i] == signers[..n][i];
    }
  }

  /** The loop invariant; the payload is carried exactly when some signer does not detach it. */
  lemma {:induction false} SignStepsInvariant(p: Primitives, payload: bytes, signers: seq<Signer>, seeds: seq<bytes>,
                                              n: nat)
    requires n <= |signers| == |seeds| && SignSteps(p, payload, signers, seeds, n).Ok?
    ensures var (encoded, doc) := SignSteps(p, payload, signers, seeds, n).value;
            && |doc.signatures| == n && !IsFlattened(doc)
            && (forall i :: 0 <= i < n ==> EntryMatches(p, payload, signers[i], seeds[i], doc.signatures[i], encoded))
            && doc.payload == if AllDetach(signers[..n]) then "" else encoded
  {
    hide SignOne, PlanSignature, AllDetach;
    if n != 0 {
      SignStepsInvariant(p, payload, signers, seeds, n - 1);
      var (encoded, doc) := SignSteps(p, payload, signers, seeds, n).value;
      var (before, prev) := SignSteps(p, payload, signers, seeds, n - 1).value;
      assert n > 1 ==> before == encoded;
      OneMoreDetaches(signers, n);
      forall i | 0 <= i < n
        ensures EntryMatches(p, payload, signers[i], seeds[i], doc.signatures[i], encoded)
      {
        if i < n - 1 {
          assert EntryMatches(p, payload, signers[i], seeds[i], prev.signatures[i], encoded);
          assert doc.signatures[i] == prev.signatures[i];
        }
      }
    }
  }

  lemma EncodingTellsB64(payload: bytes, b1: bool, b2: bool)
    requires payload != [] && EncodePayload(payload, b1).Ok? && EncodePayload(payload, b1) == EncodePayload(payload, b2)
    ensures b1 == b2
  {
    EncodingIsLonger(payload);
  }

  /** Every signer of one document uses the same "b64" setting. */
  lemma SignersShareB64(p: Primitives, payload: bytes, signers: seq<Signer>, seeds: seq<bytes>, i: nat, j: nat)
    requires payload != [] && |signers| == |seeds| && i < |signers| && j < |signers|
    requires SignJsonMulti(p, payload, signers, seeds).Ok?
    ensures SignOne(p, payload, signers[i].key, signers[i].options, seeds[i]).Ok?
    ensures SignOne(p, payload, signers[j].key, signers[j].options, seeds[j]).Ok?
    ensures PlanSignature(p, signers[i].key, signers[i].options).value.b64 ==
            PlanSignature(p, signers[j].key, signers[j].options).value.b64
  {
    hide SignSteps, SignOne, PlanSignature, EncodePayload;
    SignStepsInvariant(p, payload, signers, seeds, |signers|);
    var (encoded, doc) := SignSteps(p, payload, signers, seeds, |signers|).value;
    assert EntryMatches(p, payload, signers[i], seeds[i], doc.signatures[i], encoded);
    assert EntryMatches(p, payload, signers[j], seeds[j], doc.signatures[j], encoded);
    SignedParts(p, payload, signers[i].key, signers[i].options, seeds[i]);
    SignedParts(p, payload, signers[j].key, signers[j].options, seeds[j]);
    EncodingTellsB64(payload, PlanSignature(p, signers[i].key, signers[i].options).value.b64,
                     PlanSignature(p, signers[j].key, signers[j].options).value.b64);
  }

  /** Trying signatures in turn finds the first that verifies, or reports the last error. */
  lemma {:induction false} TrySignaturesIsFirst(p: Primitives, sigs: seq<Signature>, payload: string, key: KeyArg,
                                                opts: VerifyOptions, lastErr: Error)
    ensures var r := TrySignatures(p, sigs, payload, key, opts, lastErr);
            && (r.Ok? ==> exists i :: 0 <= i < |sigs| && TrySignature(p, sigs[i], payload, key, opts) == r &&
                                      forall j :: 0 <= j < i ==> TrySignature(p, sigs[j], payload, key, opts).Err?)
            && (r.Err? ==> forall j :: 0 <= j < |sigs| ==> TrySignature(p, sigs[j], payload, key, opts).Err?)
            && (r.Err? ==> r.error == if sigs == [] then lastErr
                                      else TrySignature(p, sigs[|sigs| - 1], payload, key, opts).error)
  {
    hide TrySignature;
    if sigs != [] {
      var one := TrySignature(p, sigs[0], payload, key, opts);
      if one.Err? {
        TrySignaturesIsFirst(p, sigs[1..], payload, key, opts, one.error);
        var r := TrySignatures(p, sigs[1..], payload, key, opts, one.error);
        if r.Ok? {
          var i :| 0 <= i < |sigs[1..]| && TrySignature(p, sigs[1..][i], payload, key, opts) == r &&
                   forall j :: 0 <= j < i ==> TrySignature(p, sigs[1..][j], payload, key, opts).Err?;
          assert TrySignature(p, sigs[i + 1], payload, key, opts) == r;
          assert forall j :: 0 < j < i + 1 ==> sigs[j] == sigs[1..][j - 1];
        } else {
          assert forall j :: 0 < j < |sigs| ==> sigs[j] == sigs[1..][j - 1];
        }
      }
    }
  }

  /** A trial on entry i returns the payload if it succeeds, and succeeds with the matching key. */
  lemma TrialOfEntry(p: Primitives, payload: bytes, s: Signer, seed: bytes, entry: Signature, encoded: string,
                     segment: string, vkey: KeyArg, vopts: VerifyOptions)
    requires p.Lawful() && payload != [] && EntryMatches(p, payload, s, seed, entry, encoded)
    requires Carries(segment, encoded, payload, vopts)
    ensures var got := entry.(header := ReceivedHeader(p, entry.header));
            var r := TrySignature(p, got, segment, vkey, vopts);
            && (r.Ok? ==> r.value.0 == payload)
            && (AdmitsSigner(p, s, vkey, vopts) ==> r.Ok?)
  {
    hide SignOne, PlanSignature, VerifySignature, Admits, Carries, DecodeHeader;
    hide p.Sized, p.AesLaw, p.GcmLaw, p.RsaLaw, p.EcdsaLaw, p.EdLaw, p.EcdhLaw, p.DeflateLaw, p.JsonLaw;
    var plan := PlanSignature(p, s.key, s.options).value;
    var got := OrEmpty(ReceivedHeader(p, entry.header));
    assert got == p.Received(s.options.unprotected);
    SignedHeaderDecodes(p, payload, s.key, s.options, seed);
    AnySuccessReturnsPayload(p, payload, s.key, s.options, seed, got, segment, vkey, vopts);
    if Admits(p, plan, s.options.unprotected, vkey, vopts) {
      SignedVerifies(p, payload, s.key, s.options, seed, segment, vkey, vopts);
      PlanIsSound(p, s.key, s.options);
      MergeTwo(p.Received(plan.protected), got);
    }
  }

  lemma SignedHeaderDecodes(p: Primitives, payload: bytes, key: KeyArg, opts: SignOptions, seed: bytes)
    requires p.JsonLaw() && SignOne(p, payload, key, opts, seed).Ok?
    ensures var s := SignOne(p, payload, key, opts, seed).value;
            && s.protectedB64 != ""
            && DecodeHeader(p, s.protectedB64) == Ok(p.Received(PlanSignature(p, key, opts).value.protected))
  {
    hide SignOne, PlanSignature;
    SignedParts(p, payload, key, opts, seed);
    DecodeEncodedHeader(p, PlanSignature(p, key, opts).value.protected);
  }

  /** No document verifies to an empty payload. */
  lemma VerifiedDocumentIsNonEmpty(p: Primitives, doc: Document, key: KeyArg, opts: VerifyOptions)
    ensures var r := VerifyJson(p, doc, key, opts); r.Ok? ==> r.value.0 != []
  {
    hide VerifySignature, DecodeHeader, MergeHeaders, OrEmpty;
    var r := VerifyJson(p, doc, key, opts);
    if r.Ok? {
      var sigs := SignaturesOf(doc).value;
      TrySignaturesIsFirst(p, sigs, doc.payload, key, opts, SignatureInvalid);
      var i :| 0 <= i < |sigs| && TrySignature(p, sigs[i], doc.payload, key, opts) == r;
      var s := sigs[i];
      var protected := if s.protected != "" then DecodeHeader(p, s.protected).value else map[];
      VerifiedPayloadIsNonEmpty(p, s.protected, protected, OrEmpty(s.header), doc.payload, s.signature, key, opts);
    }
  }

  /** The payload of a document is left out exactly when every signer detaches it. */
  lemma PayloadIsCarried(p: Primitives, payload: bytes, signers: seq<Signer>, seeds: seq<bytes>)
    requires payload != [] && |signers| == |seeds| && SignJsonMulti(p, payload, signers, seeds).Ok?
    ensures SignJsonMulti(p, payload, signers, seeds).value.payload == "" <==> AllDetach(signers)
  {
    hide SignSteps, EntryMatches;
    SignStepsInvariant(p, payload, signers, seeds, |signers|);
    var (encoded, doc) := SignSteps(p, payload, signers, seeds, |signers|).value;
    assert signers[..|signers|] == signers;
    assert EntryMatches(p, payload, signers[0], seeds[0], doc.signatures[0], encoded);
    EntryPayloadIsPresent(p, payload, signers[0], seeds[0], doc.signatures[0], encoded);
  }

  /** JSON keeps an encoded payload exactly when it is base64url text or valid UTF-8. */
  lemma PayloadThroughJson(payload: bytes, b64: bool)
    requires EncodePayload(payload, b64).Ok?
    ensures var encoded := EncodePayload(payload, b64).value;
            && (Utf8.JsonText(encoded) == encoded <==> b64 || Utf8.Valid(payload))
            && (encoded != "" ==> Utf8.JsonText(encoded) != "")
            && (!b64 ==> DecodePayload(Utf8.JsonText(encoded), b64) == Ok(Utf8.Repaired(payload)))
  {
    hide EncodeSegment, Utf8.Repaired, Utf8.Valid;
    var encoded := EncodePayload(payload, b64).value;
    Utf8.RepairedIffValid(OctetsOf(encoded));
    OctetsOfText(Utf8.Repaired(OctetsOf(encoded)));
    if b64 {
      Utf8.AsciiIsValid(OctetsOf(encoded));
      assert TextOf(OctetsOf(encoded)) == encoded;
    } else {
      OctetsOfText(payload);
    }
  }

  /** The payload is in the document and JSON replaced some of it. */
  ghost predicate PayloadIsLost(payload: bytes, signers: seq<Signer>, b64: bool) {
    !AllDetach(signers) && !b64 && !Utf8.Valid(payload)
  }

  /** What a trial of any entry returns, once the payload went through JSON. */
  lemma TrialOfReceived(p: Primitives, payload: bytes, signers: seq<Signer>, seeds: seq<bytes>, k: nat, b64: bool,
                        vkey: KeyArg, vopts: VerifyOptions)
    requires p.Lawful() && payload != [] && |signers| == |seeds| && k < |signers|
    requires SignJsonMulti(p, payload, signers, seeds).Ok?
    requires PlanSignature(p, signers[k].key, signers[k].options).Ok?
    requires PlanSignature(p, signers[k].key, signers[k].options).value.b64 == b64
    requires AllDetach(signers) ==> vopts.detachedPayload == payload
    ensures var doc := ReceivedDocument(p, SignJsonMulti(p, payload, signers, seeds).value);
            |doc.signatures| == |signers| &&
            var r := TrySignature(p, doc.signatures[k], doc.payload, vkey, vopts);
            && (PayloadIsLost(payload, signers, b64) && r.Ok? ==> r.value.0 != payload)
            && (!PayloadIsLost(payload, signers, b64) ==>
                  (r.Ok? ==> r.value.0 == payload) && (AdmitsSigner(p, signers[k], vkey, vopts) ==> r.Ok?))
  {
    hide AdmitsSigner, TrySignature, SignSteps, TrySignatures, ReceivedDocument, SignOne, PlanSignature, EncodePayload,
         DecodePayload, Utf8.JsonText, Utf8.Valid, Utf8.Repaired;
    hide p.Lawful;
    var (encoded, sent) := SignSteps(p, payload, signers, seeds, |signers|).value;
    SignStepsInvariant(p, payload, signers, seeds, |signers|);
    assert signers[..|signers|] == signers;
    var s := signers[k];
    assert EntryMatches(p, payload, s, seeds[k], sent.signatures[k], encoded);
    EntryPayloadIsPresent(p, payload, s, seeds[k], sent.signatures[k], encoded);
    SignedParts(p, payload, s.key, s.options, seeds[k]);
    ReceivedShape(p, sent);
    PayloadThroughJson(payload, b64);
    EmptyText();
    var doc := ReceivedDocument(p, sent);
    if PayloadIsLost(payload, signers, b64) {
      Utf8.RepairedIffValid(payload);
      LostTrial(p, payload, s, seeds[k], sent.signatures[k], encoded, doc.payload, vkey, vopts);
    } else {
      TrialOfEntry(p, payload, s, seeds[k], sent.signatures[k], encoded, doc.payload, vkey, vopts);
    }
  }

  lemma EmptyText()
    ensures Utf8.JsonText("") == ""
  {
  }

  /** A trial of an entry whose unencoded payload was changed does not return the payload. */
  lemma LostTrial(p: Primitives, payload: bytes, s: Signer, seed: bytes, entry: Signature, encoded: string,
                  segment: string, vkey: KeyArg, vopts: VerifyOptions)
    requires p.Lawful() && EntryMatches(p, payload, s, seed, entry, encoded) && segment != ""
    requires var b64 := PlanSignature(p, s.key, s.options).value.b64;
             DecodePayload(segment, b64).Ok? && DecodePayload(segment, b64).value != payload
    ensures var r := TrySignature(p, entry.(header := ReceivedHeader(p, entry.header)), segment, vkey, vopts);
            r.Ok? ==> r.value.0 != payload
  {
    hide SignOne, PlanSignature, VerifySignature, DecodeHeader, DecodePayload;
    hide p.Sized, p.AesLaw, p.GcmLaw, p.RsaLaw, p.EcdsaLaw, p.EdLaw, p.EcdhLaw, p.DeflateLaw, p.JsonLaw;
    SignedHeaderDecodes(p, payload, s.key, s.options, seed);
    SuccessDecodesSegment(p, payload, s.key, s.options, seed, OrEmpty(ReceivedHeader(p, entry.header)), segment,
                          vkey, vopts);
  }

  /**
   For any list of signers: the document that SignJSONMulti produces verifies with the
   matching key of any one signer, and returns the payload whichever signature matches first,
   exactly when the payload is not empty and it is detached, base64url encoded or valid UTF-8.
   */
  lemma MultiSignatureRoundTrip(p: Primitives, payload: bytes, signers: seq<Signer>, seeds: seq<bytes>, i: nat,
                                vkey: KeyArg, vopts: VerifyOptions)
    requires p.Lawful() && |signers| == |seeds| && i < |signers|
    requires SignJsonMulti(p, payload, signers, seeds).Ok?
    requires AdmitsSigner(p, signers[i], vkey, vopts)
    requires AllDetach(signers) ==> vopts.detachedPayload == payload
    ensures var r := VerifyJson(p, ReceivedDocument(p, SignJsonMulti(p, payload, signers, seeds).value), vkey, vopts);
            var b64 := PlanSignature(p, signers[i].key, signers[i].options).value.b64;
            (r.Ok? && r.value.0 == payload) <==>
            payload != [] && (AllDetach(signers) || b64 || Utf8.Valid(payload))
  {
    hide AdmitsSigner, TrySignature, SignSteps, TrySignatures, ReceivedDocument, SignOne, PlanSignature, Utf8.Valid;
    hide p.Lawful;
    SignerIsPlanned(p, signers[i], vkey, vopts);
    var b64 := PlanSignature(p, signers[i].key, signers[i].options).value.b64;
    var doc := ReceivedDocument(p, SignJsonMulti(p, payload, signers, seeds).value);
    VerifiedDocumentIsNonEmpty(p, doc, vkey, vopts);
    if payload != [] {
      forall k | 0 <= k < |signers|
        ensures |doc.signatures| == |signers| &&
                var r := TrySignature(p, doc.signatures[k], doc.payload, vkey, vopts);
                && (PayloadIsLost(payload, signers, b64) && r.Ok? ==> r.value.0 != payload)
                && (!PayloadIsLost(payload, signers, b64) ==> (r.Ok? ==> r.value.0 == payload) && (k == i ==> r.Ok?))
      {
        SignersShareB64(p, payload, signers, seeds, i, k);
        TrialOfReceived(p, payload, signers, seeds, k, b64, vkey, vopts);
      }
      DocumentShape(p, payload, signers, seeds);
      TrySignaturesIsFirst(p, doc.signatures, doc.payload, vkey, vopts, SignatureInvalid);
      var r := VerifyJson(p, doc, vkey, vopts);
      assert r == TrySignatures(p, doc.signatures, doc.payload, vkey, vopts, SignatureInvalid);
      if r.Ok? {
        var k :| 0 <= k < |doc.signatures| && TrySignature(p, doc.signatures[k], doc.payload, vkey, vopts) == r;
      } else {
        assert TrySignature(p, doc.signatures[i], doc.payload, vkey, vopts).Err?;
      }
    }
  }

  lemma SignerIsPlanned(p: Primitives, s: Signer, vkey: KeyArg, vopts: VerifyOptions)
    requires AdmitsSigner(p, s, vkey, vopts)
    ensures PlanSignature(p, s.key, s.options).Ok?
  {
    hide PlanSignature;
  }

  lemma DocumentShape(p: Primitives, payload: bytes, signers: seq<Signer>, seeds: seq<bytes>)
    requires |signers| == |seeds| && SignJsonMulti(p, payload, signers, seeds).Ok?
    ensures var doc := ReceivedDocument(p, SignJsonMulti(p, payload, signers, seeds).value);
            SignaturesOf(doc) == Ok(doc.signatures) && |doc.signatures| == |signers|
  {
    hide SignSteps, EntryMatches, ReceivedDocument;
    SignStepsInvariant(p, payload, signers, seeds, |signers|);
    ReceivedShape(p, SignJsonMulti(p, payload, signers, seeds).value);
  }

  lemma ReceivedShape(p: Primitives, doc: Document)
    requires !IsFlattened(doc) && doc.signatures != []
    ensures var got := ReceivedDocument(p, doc);
            && got.payload == Utf8.JsonText(doc.payload) && |got.signatures| == |doc.signatures|
            && SignaturesOf(got) == Ok(got.signatures)
            && forall i :: 0 <= i < |doc.signatures| ==>
                 got.signatures[i] == doc.signatures[i].(header := ReceivedHeader(p, doc.signatures[i].header))
  {
  }

  lemma EntryPayloadIsPresent(p: Primitives, payload: bytes, s: Signer, seed: bytes, entry: Signature, encoded: string)
    requires payload != [] && EntryMatches(p, payload, s, seed, entry, encoded)
    ensures encoded != ""
  {
    SignedPayloadIsPresent(p, payload, s.key, s.options, seed);
  }

  // ---------------------------------------------------------------- the payload is what was signed

  /** The decoded protected header that goes with a segment as received. */
  ghost predicate DecodedFrom(p: Primitives, seg: string, protected: Header) {
    if seg == "" then protected == map[] else DecodeHeader(p, seg) == Ok(protected)
  }

  /** The octets whose signature was checked. */
  function CheckedInput(protectedSeg: string, protected: Header, unprotected: Header, payloadSeg: string,
                        opts: VerifyOptions): Result<bytes>
  {
    var (_, segment) :- VerifiableSegment(protected, unprotected, payloadSeg, opts);
    Ok(SigningInput(protectedSeg, segment))
  }

  lemma SegmentOctets(p: Primitives, seg: string, protected: Header)
    requires DecodedFrom(p, seg, protected)
    ensures IsOctetText(seg) && 46 !in OctetsOf(seg)
  {
    if seg != "" {
      AcceptedSegmentShape(seg);
    }
  }

  /**
   The verified payload is a function of the signing input alone: whatever the unprotected
   headers, keys, options, and attached or detached form, two successful checks of the same
   signing input return the same payload.
   */
  lemma PayloadDependsOnSigningInput(
      p: Primitives,
      seg1: string, prot1: Header, unp1: Header, payload1: string, sig1: string, key1: KeyArg, opts1: VerifyOptions,
      seg2: string, prot2: Header, unp2: Header, payload2: string, sig2: string, key2: KeyArg, opts2: VerifyOptions)
    requires DecodedFrom(p, seg1, prot1) && DecodedFrom(p, seg2, prot2)
    requires VerifySignature(p, seg1, prot1, unp1, payload1, sig1, key1, opts1).Ok?
    requires VerifySignature(p, seg2, prot2, unp2, payload2, sig2, key2, opts2).Ok?
    requires CheckedInput(seg1, prot1, unp1, payload1, opts1) == CheckedInput(seg2, prot2, unp2, payload2, opts2)
    ensures VerifySignature(p, seg1, prot1, unp1, payload1, sig1, key1, opts1) ==
            VerifySignature(p, seg2, prot2, unp2, payload2, sig2, key2, opts2)
  {
    hide MergeHeaders, CheckSignature, CheckCritical, B64Setting, EffectiveSegment, DecodeHeader, DecodeSegment,
         OctetsOf, IsOctetText;
    var (b1, s1) := VerifiableSegment(prot1, unp1, payload1, opts1).value;
    var (b2, s2) := VerifiableSegment(prot2, unp2, payload2, opts2).value;
    SegmentOctets(p, seg1, prot1);
    SegmentOctets(p, seg2, prot2);
    SeparatorInjective(46, OctetsOf(seg1), OctetsOf(s1), OctetsOf(seg2), OctetsOf(s2));
    OctetsOfInjective(seg1, seg2);
    assert b1 == b2;
    if b1 {
      AcceptedSegmentShape(s1);
      AcceptedSegmentShape(s2);
      OctetsOfInjective(s1, s2);
    }
  }

  // ---------------------------------------------------------------- the key used is the key checked

  /** A signature is made only with a key whose JWK, if it came from one, permits signing with the algorithm. */
  lemma SigningKeyIsPermitted(p: Primitives, payload: bytes, key: KeyArg, opts: SignOptions, seed: bytes)
    requires SignOne(p, payload, key, opts, seed).Ok?
    ensures var plan := PlanSignature(p, key, opts).value;
            UsedAsPermitted(p, key, opts.keyId, plan.key, "sig", [plan.alg.name], ["sign"])
  {
    hide MergeHeaders, CheckCriticalProduced, ProtectedHeader, B64Setting, SigningAlg, LookupSigAlg, CheckJwkUsage,
         ResolveKey, SignOne, UsedAsPermitted;
    KeyUsedIsKeyChecked(p, key, opts.keyId, "sig", [PlanSignature(p, key, opts).value.alg.name], ["sign"]);
  }

  /** ... and is accepted only with a key whose JWK permits verifying with the algorithm. */
  lemma VerifyingKeyIsPermitted(p: Primitives, protectedSeg: string, protected: Header, unprotected: Header,
                                payloadSeg: string, sigSeg: string, key: KeyArg, opts: VerifyOptions)
    requires VerifySignature(p, protectedSeg, protected, unprotected, payloadSeg, sigSeg, key, opts).Ok?
    ensures var merged := protected + unprotected;
            var kid := StringParam(merged, "kid");
            && ResolveKey(p, key, kid).Ok?
            && UsedAsPermitted(p, key, kid, ResolveKey(p, key, kid).value, "sig", [StringParam(merged, "alg")],
                               ["verify"])
            && StringParam(merged, "alg") != "none"
  {
    hide MergeHeaders, VerifiableSegment, LookupSigAlg, CheckJwkUsage, ResolveKey, UsedAsPermitted, VerifyOctets,
         DecodeSegment, DecodePayload, SigningInput;
    MergeTwo(protected, unprotected);
    var merged := protected + unprotected;
    KeyUsedIsKeyChecked(p, key, StringParam(merged, "kid"), "sig", [StringParam(merged, "alg")], ["verify"]);
  }
}
