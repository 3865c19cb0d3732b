/**
 Exactly which signatures are made and accepted, and from which headers, keys and octets: said
 in terms of the library routines, with the signing input of section 5.1 of RFC 7515 written out.
 */
module JwsExact {
  import opened Octets
  import opened Outcomes
  import opened Keys
  import opened Primitives
  import opened Base64Url
  import opened Headers
  import opened JsonWebKeys
  import opened Signatures
  import opened Tokens
  import opened Jws
  import JwsProperties

  // ---------------------------------------------------------------- accepting one signature

  /** The payload is base64url encoded unless the header says "b64": false (section 3 of RFC 7797). */
  predicate IsEncoded(protected: Header) {
    "b64" in protected ==> protected["b64"] == Bool(true)
  }

  /** "b64" is a boolean, and is declared critical when false. */
  ghost predicate IsB64Sound(protected: Header) {
    "b64" in protected ==>
      && protected["b64"].Bool?
      && (!protected["b64"].flag ==> "crit" in protected && Lists(protected["crit"], "b64"))
  }

  /** The payload segment that the signature covers: the one in the document, or else the detached payload's. */
  function CoveredSegment(protected: Header, payloadSeg: string, detached: bytes): string {
    if payloadSeg != "" then payloadSeg
    else if IsEncoded(protected) then EncodeSegment(detached)
    else TextOf(detached)
  }

  /** The header names an algorithm that the package has and the caller admits; "none" is not one. */
  ghost predicate IsAdmittedAlg(merged: Header, algorithms: seq<string>) {
    && "alg" in merged && merged["alg"].Str?
    && merged["alg"].text != "" && merged["alg"].text != "none"
    && (algorithms == [] || merged["alg"].text in algorithms)
    && LookupSigAlg(merged["alg"].text).Ok?
  }

  /** The signature that the segment encodes is confirmed, by a key whose JWK, if any, permits verifying. */
  ghost predicate IsSignedBy(p: Primitives, alg: string, kid: string, input: bytes, sigSeg: string, key: KeyArg)
    requires LookupSigAlg(alg).Ok?
  {
    && sigSeg != "" && DecodeSegment(sigSeg).Ok? && ResolveKey(p, key, kid).Ok?
    && UsedAsPermitted(p, key, kid, ResolveKey(p, key, kid).value, "sig", [alg], ["verify"])
    && IsConfirmed(p, LookupSigAlg(alg).value, input, DecodeSegment(sigSeg).value, ResolveKey(p, key, kid).value)
  }

  /** Everything that has to hold for a signature to be accepted with this payload. */
  ghost predicate IsVerified(p: Primitives, protectedSeg: string, protected: Header, unprotected: Header,
                             payloadSeg: string, sigSeg: string, key: KeyArg, opts: VerifyOptions, payload: bytes) {
    var merged := protected + unprotected;
    var segment := CoveredSegment(protected, payloadSeg, opts.detachedPayload);
    && protected.Keys !! unprotected.Keys
    && IsAdmittedAlg(merged, opts.algorithms)
    && IsUnderstood(protected, ["b64"] + opts.knownCritical)
    && "b64" !in unprotected && IsB64Sound(protected)
    && (payloadSeg == "" ==> opts.detachedPayload != [])
    && IsSignedBy(p, merged["alg"].text, KidOf(merged), OctetsOf(protectedSeg) + [46] + OctetsOf(segment), sigSeg, key)
    && if IsEncoded(protected) then DecodeSegment(segment) == Ok(payload) else payload == OctetsOf(segment)
  }

  /** Once "crit" is understood, the setting that is read is the one that the header declares soundly. */
  lemma SettingIs(protected: Header, known: seq<string>, b64: bool)
    requires IsUnderstood(protected, known)
    ensures B64Setting(protected, DeclaredCritical(protected)) == Ok(b64) <==>
            IsB64Sound(protected) && b64 == IsEncoded(protected)
  {
    hide IsNameList, Lists;
    if "crit" in protected {
      ListedNames(protected);
    }
  }

  /** The checks before the signature, and the segment that they leave. */
  lemma VerifiableIs(protected: Header, unprotected: Header, payloadSeg: string, opts: VerifyOptions, b64: bool,
                     segment: string)
    ensures VerifiableSegment(protected, unprotected, payloadSeg, opts) == Ok((b64, segment)) <==>
            && IsUnderstood(protected, ["b64"] + opts.knownCritical)
            && "b64" !in unprotected && IsB64Sound(protected) && b64 == IsEncoded(protected)
            && (payloadSeg == "" ==> opts.detachedPayload != [])
            && segment == CoveredSegment(protected, payloadSeg, opts.detachedPayload)
  {
    hide CheckCritical, IsUnderstood, IsB64Sound, IsEncoded, B64Setting, DeclaredCritical, EncodeSegment;
    var known := ["b64"] + opts.knownCritical;
    CriticalIsUnderstood(protected, known);
    if IsUnderstood(protected, known) {
      SettingIs(protected, known, true);
      SettingIs(protected, known, false);
    }
  }

  lemma SignedByIs(p: Primitives, alg: string, kid: string, input: bytes, sigSeg: string, key: KeyArg)
    ensures CheckSignature(p, alg, kid, input, sigSeg, key).Ok? <==>
            LookupSigAlg(alg).Ok? && IsSignedBy(p, alg, kid, input, sigSeg, key)
  {
    hide LookupSigAlg, CheckJwkUsage, ResolveKey, UsedAsPermitted, VerifyOctets, IsConfirmed, DecodeSegment;
    if LookupSigAlg(alg).Ok? && ResolveKey(p, key, kid).Ok? {
      KeyUsedIsKeyChecked(p, key, kid, "sig", [alg], ["verify"]);
      if DecodeSegment(sigSeg).Ok? {
        VerifyingIsExact(p, LookupSigAlg(alg).value, input, DecodeSegment(sigSeg).value, ResolveKey(p, key, kid).value);
      }
    }
  }

  /** A signature is accepted, with a payload, exactly when it is verified with that payload. */
  lemma AcceptanceIsExact(p: Primitives, protectedSeg: string, protected: Header, unprotected: Header,
                          payloadSeg: string, sigSeg: string, key: KeyArg, opts: VerifyOptions, payload: bytes)
    ensures VerifySignature(p, protectedSeg, protected, unprotected, payloadSeg, sigSeg, key, opts) == Ok(payload) <==>
            IsVerified(p, protectedSeg, protected, unprotected, payloadSeg, sigSeg, key, opts, payload)
  {
    hide MergeHeaders, VerifiableSegment, CheckSignature, IsSignedBy, IsUnderstood, IsB64Sound, IsEncoded,
         CoveredSegment, LookupSigAlg, DecodeSegment;
    MergeTwo(protected, unprotected);
    var merged := protected + unprotected;
    var segment := CoveredSegment(protected, payloadSeg, opts.detachedPayload);
    VerifiableIs(protected, unprotected, payloadSeg, opts, IsEncoded(protected), segment);
    if VerifiableSegment(protected, unprotected, payloadSeg, opts).Ok? {
      var (b, s) := VerifiableSegment(protected, unprotected, payloadSeg, opts).value;
      VerifiableIs(protected, unprotected, payloadSeg, opts, b, s);
    }
    SignedByIs(p, StringParam(merged, "alg"), StringParam(merged, "kid"),
               OctetsOf(protectedSeg) + [46] + OctetsOf(segment), sigSeg, key);
  }

  // ---------------------------------------------------------------- accepting a token or a document

  /** Verify accepts exactly the tokens of three parts whose signature is verified. */
  lemma TokenAcceptanceIsExact(p: Primitives, token: string, key: KeyArg, opts: VerifyOptions, payload: bytes,
                               header: Header)
    ensures VerifyCompact(p, token, key, opts) == Ok((payload, header)) <==>
            exists a, b, c :: token == a + "." + b + "." + c && '.' !in a && '.' !in b && '.' !in c
                              && DecodeHeader(p, a) == Ok(header)
                              && IsVerified(p, a, header, map[], b, c, key, opts, payload)
  {
    hide DecodeHeader, VerifySignature, IsVerified, Split, Join;
    var parts := Split(token);
    PartsOfToken(token);
    if VerifyCompact(p, token, key, opts) == Ok((payload, header)) {
      AcceptanceIsExact(p, parts[0], header, map[], parts[1], parts[2], key, opts, payload);
      assert parts == [parts[0], parts[1], parts[2]];
      JoinedParts(parts[0], parts[1], parts[2], "", "");
    }
    if a, b, c :| token == a + "." + b + "." + c && '.' !in a && '.' !in b && '.' !in c
                  && DecodeHeader(p, a) == Ok(header) && IsVerified(p, a, header, map[], b, c, key, opts, payload) {
      JoinedParts(a, b, c, "", "");
      SplitJoined([a, b, c]);
      AcceptanceIsExact(p, a, header, map[], b, c, key, opts, payload);
    }
  }

  /** The signatures of a document: those of the general form, or the one of the flattened form, never both. */
  ghost predicate IsSignatureOf(doc: Document, s: Signature) {
    || (s in doc.signatures && doc.protected == "" && doc.header == None && doc.signature == "")
    || (doc.signatures == [] && doc.signature != "" && s == Signature(doc.protected, doc.header, doc.signature))
  }

  lemma SignaturesAre(doc: Document)
    ensures SignaturesOf(doc).Ok? <==> exists s :: IsSignatureOf(doc, s)
    ensures SignaturesOf(doc).Ok? ==> forall s :: s in SignaturesOf(doc).value <==> IsSignatureOf(doc, s)
    ensures SignaturesOf(doc).Err? ==> SignaturesOf(doc).error == Malformed
  {
    if SignaturesOf(doc).Ok? {
      assert IsSignatureOf(doc, SignaturesOf(doc).value[0]);
    }
  }

  /** The protected header of an entry, absent in an entry without one. */
  ghost predicate IsProtectedOf(p: Primitives, s: Signature, protected: Header) {
    if s.protected == "" then protected == map[] else DecodeHeader(p, s.protected) == Ok(protected)
  }

  /** An entry whose signature is verified, with what VerifyJSON returns for it. */
  ghost predicate IsAccepted(p: Primitives, s: Signature, payloadSeg: string, key: KeyArg, opts: VerifyOptions,
                             payload: bytes, header: Header) {
    exists protected :: IsProtectedOf(p, s, protected) && header == protected + OrEmpty(s.header) &&
                        IsVerified(p, s.protected, protected, OrEmpty(s.header), payloadSeg, s.signature, key, opts,
                                   payload)
  }

  lemma TrialIsExact(p: Primitives, s: Signature, payloadSeg: string, key: KeyArg, opts: VerifyOptions, payload: bytes,
                     header: Header)
    ensures TrySignature(p, s, payloadSeg, key, opts) == Ok((payload, header)) <==>
            IsAccepted(p, s, payloadSeg, key, opts, payload, header)
  {
    hide DecodeHeader, VerifySignature, IsVerified, MergeHeaders;
    if (if s.protected != "" then DecodeHeader(p, s.protected) else Ok(map[])).Ok? {
      var protected := if s.protected != "" then DecodeHeader(p, s.protected).value else map[];
      AcceptanceIsExact(p, s.protected, protected, OrEmpty(s.header), payloadSeg, s.signature, key, opts, payload);
      MergeTwo(protected, OrEmpty(s.header));
      VerifiedIsDisjoint(p, s.protected, protected, OrEmpty(s.header), payloadSeg, s.signature, key, opts, payload);
    }
  }

  lemma VerifiedIsDisjoint(p: Primitives, protectedSeg: string, protected: Header, unprotected: Header,
                           payloadSeg: string, sigSeg: string, key: KeyArg, opts: VerifyOptions, payload: bytes)
    ensures IsVerified(p, protectedSeg, protected, unprotected, payloadSeg, sigSeg, key, opts, payload) ==>
            protected.Keys !! unprotected.Keys
  {
  }

  /** VerifyJSON succeeds exactly when some signature of the document is verified, and returns for one that is. */
  lemma DocumentAcceptanceIsExact(p: Primitives, doc: Document, key: KeyArg, opts: VerifyOptions)
    ensures VerifyJson(p, doc, key, opts).Ok? <==>
            exists s, payload, header ::
              IsSignatureOf(doc, s) && IsAccepted(p, s, doc.payload, key, opts, payload, header)
    ensures VerifyJson(p, doc, key, opts).Ok? ==>
              var (payload, header) := VerifyJson(p, doc, key, opts).value;
              exists s :: IsSignatureOf(doc, s) && IsAccepted(p, s, doc.payload, key, opts, payload, header)
  {
    hide SignaturesOf, IsSignatureOf, TrySignature, IsAccepted, TrySignatures;
    SignaturesAre(doc);
    if SignaturesOf(doc).Ok? {
      var sigs := SignaturesOf(doc).value;
      var r := TrySignatures(p, sigs, doc.payload, key, opts, SignatureInvalid);
      JwsProperties.TrySignaturesIsFirst(p, sigs, doc.payload, key, opts, SignatureInvalid);
      if r.Ok? {
        var i :| 0 <= i < |sigs| && TrySignature(p, sigs[i], doc.payload, key, opts) == r;
        TrialIsExact(p, sigs[i], doc.payload, key, opts, r.value.0, r.value.1);
      }
      if s, payload, header :| IsSignatureOf(doc, s) && IsAccepted(p, s, doc.payload, key, opts, payload, header) {
        TrialIsExact(p, s, doc.payload, key, opts, payload, header);
        var i :| 0 <= i < |sigs| && sigs[i] == s;
        assert TrySignature(p, sigs[i], doc.payload, key, opts).Ok?;
      }
    }
  }

  /** Where one signature is accepted, a different one that decodes, or none at all, is invalid. */
  lemma ForgeryIsInvalid(p: Primitives, protectedSeg: string, protected: Header, unprotected: Header,
                         payloadSeg: string, sigSeg: string, forged: string, key: KeyArg, opts: VerifyOptions)
    requires VerifySignature(p, protectedSeg, protected, unprotected, payloadSeg, sigSeg, key, opts).Ok?
    requires forged == "" || DecodeSegment(forged).Ok?
    ensures var r := VerifySignature(p, protectedSeg, protected, unprotected, payloadSeg, forged, key, opts);
            r.Err? ==> r.error == SignatureInvalid
  {
    hide MergeHeaders, VerifiableSegment, LookupSigAlg, CheckJwkUsage, ResolveKey, DecodeSegment, VerifyOctets,
         SigningInput, DecodePayload;
    var merged := MergeHeaders([protected, unprotected]).value;
    var alg, kid := StringParam(merged, "alg"), StringParam(merged, "kid");
    var segment := VerifiableSegment(protected, unprotected, payloadSeg, opts).value.1;
    var input := SigningInput(protectedSeg, segment);
    if DecodeSegment(forged).Ok? && VerifyOctets(p, LookupSigAlg(alg).value, input, DecodeSegment(forged).value,
                                                 ResolveKey(p, key, kid).value).Fail? {
      BadSignatureIsInvalid(p, LookupSigAlg(alg).value, input, DecodeSegment(forged).value,
                            ResolveKey(p, key, kid).value, DecodeSegment(sigSeg).value);
    }
  }

  /** An unsecured token is refused by name, whatever the options and the key. */
  lemma NoneIsDisallowed(p: Primitives, protectedSeg: string, protected: Header, unprotected: Header,
                         payloadSeg: string, sigSeg: string, key: KeyArg, opts: VerifyOptions)
    requires protected.Keys !! unprotected.Keys && "alg" in protected && protected["alg"] == Str("none")
    ensures VerifySignature(p, protectedSeg, protected, unprotected, payloadSeg, sigSeg, key, opts) ==
            Err(NoneAlgDisallowed)
  {
    hide MergeHeaders;
    MergeTwo(protected, unprotected);
    assert (protected + unprotected)["alg"] == Str("none");
  }

  // ---------------------------------------------------------------- making one signature

  /** The caller's parameters, with "alg", and with "kid" and "crit" where the options or the JWK give them. */
  ghost predicate IsProtectedHeader(h: Header, key: KeyArg, opts: SignOptions, alg: string) {
    && (forall n :: n !in {"alg", "kid", "crit"} ==> IsCallers(h, opts.header, n))
    && "alg" in h && h["alg"] == Str(alg)
    && (if opts.critical != [] then "crit" in h && h["crit"] == Strings(opts.critical)
        else IsCallers(h, opts.header, "crit"))
    && (if opts.keyId != "" then "kid" in h && h["kid"] == Str(opts.keyId)
        else if key.JwkArg? && key.jwk.Some? && key.jwk.value.kid != "" &&
                "kid" !in opts.header && "kid" !in opts.unprotected then
          "kid" in h && h["kid"] == Str(key.jwk.value.kid)
        else IsCallers(h, opts.header, "kid"))
  }

  lemma ProtectedHeaderIs(key: KeyArg, opts: SignOptions, alg: string, h: Header)
    ensures ProtectedHeader(key, opts, alg) == h <==> IsProtectedHeader(h, key, opts, alg)
  {
    hide CopyHeader;
    CopyOfTwo(opts.header, map[]);
    var built := ProtectedHeader(key, opts, alg);
    assert IsProtectedHeader(built, key, opts, alg);
    if IsProtectedHeader(h, key, opts, alg) {
      forall n
        ensures (n in h <==> n in built) && (n in h ==> h[n] == built[n])
      {
        if n !in {"alg", "kid", "crit"} {
          assert IsCallers(h, opts.header, n) && IsCallers(built, opts.header, n);
        }
      }
      assert h.Keys == built.Keys;
    }
  }

  /** The algorithm: the caller's, else the JWK's own, else the usual one for the type of the key. */
  ghost predicate IsChosenAlg(key: KeyArg, k: GoKey, algorithm: string, alg: string) {
    if algorithm != "" then alg == algorithm
    else if key.JwkArg? && key.jwk.Some? && key.jwk.value.alg != "" then alg == key.jwk.value.alg
    else DefaultSigAlg(k) == Ok(alg)
  }

  /** What is decided before anything is signed: the key, the algorithm and the protected header. */
  ghost predicate IsPlanned(p: Primitives, key: KeyArg, opts: SignOptions, k: GoKey, alg: string, h: Header) {
    && ResolveKey(p, key, opts.keyId) == Ok(k) && IsChosenAlg(key, k, opts.algorithm, alg) && LookupSigAlg(alg).Ok?
    && UsedAsPermitted(p, key, opts.keyId, k, "sig", [alg], ["sign"])
    && IsProtectedHeader(h, key, opts, alg) && IsSoundHeader(opts, h)
  }

  lemma ChosenAlgIs(key: KeyArg, k: GoKey, algorithm: string, alg: string)
    ensures SigningAlg(key, k, algorithm) == Ok(alg) <==> IsChosenAlg(key, k, algorithm, alg)
  {
    hide DefaultSigAlg;
  }

  /** The header's own conditions, whatever the key. */
  ghost predicate IsSoundHeader(opts: SignOptions, h: Header) {
    && "b64" !in opts.unprotected && h.Keys !! opts.unprotected.Keys && IsProducible(h)
    && ("b64" in h ==> h["b64"].Bool? && (!h["b64"].flag ==> "b64" in opts.critical))
  }

  lemma SoundHeaderIs(opts: SignOptions, h: Header)
    ensures IsSoundHeader(opts, h) <==>
            && "b64" !in opts.unprotected && B64Setting(h, opts.critical).Ok?
            && MergeHeaders([h, opts.unprotected]).Ok? && CheckCriticalProduced(h).Pass?
    ensures B64Setting(h, opts.critical).Ok? ==> B64Setting(h, opts.critical).value == IsEncoded(h)
  {
    hide MergeHeaders, CheckCriticalProduced, IsProducible;
    MergeTwo(h, opts.unprotected);
    ProducibleIs(h);
  }

  lemma PlanIs(p: Primitives, key: KeyArg, opts: SignOptions, k: GoKey, alg: string, h: Header)
    requires LookupSigAlg(alg).Ok?
    ensures PlanSignature(p, key, opts) == Ok(Plan(k, LookupSigAlg(alg).value, h, IsEncoded(h))) <==>
            IsPlanned(p, key, opts, k, alg, h)
  {
    hide MergeHeaders, CheckCriticalProduced, ProtectedHeader, LookupSigAlg, CheckJwkUsage, ResolveKey, UsedAsPermitted,
         IsProtectedHeader, IsProducible, SigningAlg, IsChosenAlg, IsEncoded, B64Setting, IsSoundHeader;
    if ResolveKey(p, key, opts.keyId) == Ok(k) {
      ChosenAlgIs(key, k, opts.algorithm, alg);
      KeyUsedIsKeyChecked(p, key, opts.keyId, "sig", [alg], ["sign"]);
      ProtectedHeaderIs(key, opts, alg, h);
      SoundHeaderIs(opts, h);
      if SigningAlg(key, k, opts.algorithm).Ok? {
        ChosenAlgIs(key, k, opts.algorithm, SigningAlg(key, k, opts.algorithm).value);
      }
    }
  }

  lemma PlansAreEncodedSoundly(p: Primitives, key: KeyArg, opts: SignOptions)
    requires PlanSignature(p, key, opts).Ok?
    ensures var plan := PlanSignature(p, key, opts).value; plan.b64 == IsEncoded(plan.protected)
  {
    hide MergeHeaders, CheckCriticalProduced, ProtectedHeader, LookupSigAlg, CheckJwkUsage, ResolveKey, SigningAlg;
  }

  /** A signature as signOne makes it, over protected || '.' || payload. */
  ghost predicate IsSigned(p: Primitives, payload: bytes, key: KeyArg, opts: SignOptions, seed: bytes, s: Signed,
                           k: GoKey, alg: string, h: Header) {
    && IsPlanned(p, key, opts, k, alg, h)
    && p.headerToJson(h).Some? && s.protectedB64 == EncodeSegment(p.headerToJson(h).value)
    && s.encodedPayload == (if IsEncoded(h) then EncodeSegment(payload) else TextOf(payload))
    && (!IsEncoded(h) ==> '.' !in TextOf(payload))
    && DecodeSegment(s.sigB64).Ok?
    && IsSignature(p, LookupSigAlg(alg).value, OctetsOf(s.protectedB64) + [46] + OctetsOf(s.encodedPayload), k, seed,
                   DecodeSegment(s.sigB64).value)
  }

  lemma SignOctetsIs(p: Primitives, a: SigAlg, input: bytes, k: GoKey, seed: bytes, sigB64: string)
    ensures SignOctets(p, a, input, k, seed).Ok? && EncodeSegment(SignOctets(p, a, input, k, seed).value) == sigB64 <==>
            DecodeSegment(sigB64).Ok? && IsSignature(p, a, input, k, seed, DecodeSegment(sigB64).value)
  {
    hide SignOctets, IsSignature, EncodeSegment, DecodeSegment;
    if SignOctets(p, a, input, k, seed).Ok? {
      var sig := SignOctets(p, a, input, k, seed).value;
      SegmentBijection(sigB64, sig);
      SigningIsExact(p, a, input, k, seed, sig);
    }
    if DecodeSegment(sigB64).Ok? {
      SegmentBijection(sigB64, DecodeSegment(sigB64).value);
      SigningIsExact(p, a, input, k, seed, DecodeSegment(sigB64).value);
    }
  }

  /** signOne returns exactly what is signed. */
  lemma SignatureIsExact(p: Primitives, payload: bytes, key: KeyArg, opts: SignOptions, seed: bytes, s: Signed)
    ensures SignOne(p, payload, key, opts, seed) == Ok(s) <==>
            exists k, alg, h :: IsSigned(p, payload, key, opts, seed, s, k, alg, h)
  {
    hide PlanSignature, SignOctets, IsSignature, EncodeSegment, DecodeSegment, IsPlanned, IsEncoded, LookupSigAlg;
    if PlanSignature(p, key, opts).Ok? {
      var plan := PlanSignature(p, key, opts).value;
      JwsProperties.PlanIsSound(p, key, opts);
      PlansAreEncodedSoundly(p, key, opts);
      PlanIs(p, key, opts, plan.key, plan.alg.name, plan.protected);
      SignOctetsIs(p, plan.alg, OctetsOf(s.protectedB64) + [46] + OctetsOf(s.encodedPayload), plan.key, seed, s.sigB64);
      if SignOne(p, payload, key, opts, seed) == Ok(s) {
        assert IsSigned(p, payload, key, opts, seed, s, plan.key, plan.alg.name, plan.protected);
      }
    }
    if k, alg, h :| IsSigned(p, payload, key, opts, seed, s, k, alg, h) {
      PlannedIsFound(p, key, opts, k, alg, h);
      PlanIs(p, key, opts, k, alg, h);
      SignOctetsIs(p, LookupSigAlg(alg).value, OctetsOf(s.protectedB64) + [46] + OctetsOf(s.encodedPayload), k, seed,
                   s.sigB64);
    }
  }

  lemma PlannedIsFound(p: Primitives, key: KeyArg, opts: SignOptions, k: GoKey, alg: string, h: Header)
    ensures IsPlanned(p, key, opts, k, alg, h) ==> LookupSigAlg(alg).Ok?
  {
  }

  /** Sign returns the three segments joined with '.', the payload left out when it is detached. */
  lemma TokenIsExact(p: Primitives, payload: bytes, key: KeyArg, opts: SignOptions, seed: bytes, token: string)
    ensures SignCompact(p, payload, key, opts, seed) == Ok(token) <==>
            && opts.unprotected == map[]
            && exists s ::
                 && SignOne(p, payload, key, opts, seed) == Ok(s)
                 && token == s.protectedB64 + "." + (if opts.detach then "" else s.encodedPayload) + "." + s.sigB64
  {
    hide SignOne, Join;
    if SignOne(p, payload, key, opts, seed).Ok? {
      var s := SignOne(p, payload, key, opts, seed).value;
      JoinedParts(s.protectedB64, if opts.detach then "" else s.encodedPayload, s.sigB64, "", "");
    }
  }

  // ---------------------------------------------------------------- making a document

  /** One entry for each signer, over one encoded payload that is carried unless all detach it. */
  ghost predicate IsSignedDocument(p: Primitives, payload: bytes, signers: seq<Signer>, seeds: seq<bytes>,
                                   doc: Document, encoded: string)
    requires |signers| == |seeds|
  {
    && signers != [] && doc == EMPTY_DOCUMENT.(payload := doc.payload, signatures := doc.signatures)
    && |doc.signatures| == |signers|
    && (forall i :: 0 <= i < |signers| ==>
          && JwsProperties.EntryMatches(p, payload, signers[i], seeds[i], doc.signatures[i], encoded)
          && (signers[i].options.unprotected != map[] ==> p.headerToJson(signers[i].options.unprotected).Some?))
    && doc.payload == if JwsProperties.AllDetach(signers) then "" else encoded
  }

  lemma {:induction false} StepsSucceed(p: Primitives, payload: bytes, signers: seq<Signer>, seeds: seq<bytes>,
                                        doc: Document, encoded: string, n: nat)
    requires n <= |signers| == |seeds| && IsSignedDocument(p, payload, signers, seeds, doc, encoded)
    ensures SignSteps(p, payload, signers, seeds, n).Ok?
    ensures n > 0 ==> SignSteps(p, payload, signers, seeds, n).value.0 == encoded
    ensures SignSteps(p, payload, signers, seeds, n).value.1.signatures == doc.signatures[..n]
  {
    hide SignOne, PlanSignature, JwsProperties.AllDetach;
    if n > 0 {
      StepsSucceed(p, payload, signers, seeds, doc, encoded, n - 1);
      assert JwsProperties.EntryMatches(p, payload, signers[n - 1], seeds[n - 1], doc.signatures[n - 1], encoded);
      assert doc.signatures[..n] == doc.signatures[..n - 1] + [doc.signatures[n - 1]];
    }
  }

  lemma {:induction false} StepsAreGeneral(p: Primitives, payload: bytes, signers: seq<Signer>, seeds: seq<bytes>,
                                           n: nat)
    requires n <= |signers| == |seeds| && SignSteps(p, payload, signers, seeds, n).Ok?
    ensures var doc := SignSteps(p, payload, signers, seeds, n).value.1;
            doc == EMPTY_DOCUMENT.(payload := doc.payload, signatures := doc.signatures)
  {
    hide SignOne, PlanSignature;
    if n > 0 {
      StepsAreGeneral(p, payload, signers, seeds, n - 1);
    }
  }

  /** SignJSONMulti returns exactly the documents that are signed. */
  lemma DocumentIsExact(p: Primitives, payload: bytes, signers: seq<Signer>, seeds: seq<bytes>, doc: Document)
    requires |signers| == |seeds|
    ensures SignJsonMulti(p, payload, signers, seeds) == Ok(doc) <==>
            exists encoded :: IsSignedDocument(p, payload, signers, seeds, doc, encoded)
  {
    hide SignOne, SignSteps, JwsProperties.AllDetach;
    var n := |signers|;
    if SignJsonMulti(p, payload, signers, seeds) == Ok(doc) {
      JwsProperties.SignStepsInvariant(p, payload, signers, seeds, n);
      StepsAreGeneral(p, payload, signers, seeds, n);
      var encoded := SignSteps(p, payload, signers, seeds, n).value.0;
      assert signers[..n] == signers;
      forall i | 0 <= i < n
        ensures JwsProperties.EntryMatches(p, payload, signers[i], seeds[i], doc.signatures[i], encoded)
        ensures signers[i].options.unprotected != map[] ==> p.headerToJson(signers[i].options.unprotected).Some?
      {
        assert JwsProperties.EntryMatches(p, payload, signers[i], seeds[i], doc.signatures[i], encoded);
      }
      assert IsSignedDocument(p, payload, signers, seeds, doc, encoded);
    }
    if encoded :| IsSignedDocument(p, payload, signers, seeds, doc, encoded) {
      StepsSucceed(p, payload, signers, seeds, doc, encoded, n);
      JwsProperties.SignStepsInvariant(p, payload, signers, seeds, n);
      StepsAreGeneral(p, payload, signers, seeds, n);
      assert signers[..n] == signers && doc.signatures[..n] == doc.signatures;
      forall i | 0 <= i < n
        ensures doc.signatures[i].header == OrNil(signers[i].options.unprotected)
      {
        assert JwsProperties.EntryMatches(p, payload, signers[i], seeds[i], doc.signatures[i], encoded);
      }
    }
  }

  // ---------------------------------------------------------------- refusals, in the order of the checks

  /** A readable "crit" is refused for a name outside the header, or else for what it lists. */
  lemma CriticalRefusals(protected: Header, known: seq<string>)
    requires !IsUnderstood(protected, known)
    ensures CheckCritical(protected, known).Fail?
    ensures CheckCritical(protected, known).error == InvalidCrit ||
            CheckCritical(protected, known).error == UnprotectedCritical
    ensures !IsNameList(protected["crit"]) ==> CheckCritical(protected, known) == Fail(InvalidCrit)
  {
    hide IsUnderstood, IsNameList, Critical;
    CriticalIsUnderstood(protected, known);
    if "crit" in protected {
      ListedNames(protected);
      if Critical(protected).Some? {
        NameRefusals(protected, known, Critical(protected).value);
      }
    }
    CriticalNeedsList(protected, known);
  }

  lemma CriticalNeedsList(protected: Header, known: seq<string>)
    ensures !IsUnderstood(protected, known) ==> "crit" in protected
  {
  }

  lemma {:induction false} NameRefusals(protected: Header, known: seq<string>, names: seq<string>)
    ensures CheckNames(protected, known, names).Fail? ==>
              CheckNames(protected, known, names).error in {InvalidCrit, UnprotectedCritical}
  {
    if names != [] {
      NameRefusals(protected, known, names[1..]);
    }
  }

  /** The one listed name that is not in the protected header is refused as such. */
  lemma UnprotectedNameIsRefused(protected: Header, known: seq<string>, name: string)
    requires "crit" in protected && protected["crit"] == Strings([name]) && name != "" && name !in protected
    requires !IsRegistered(name)
    ensures CheckCritical(protected, known) == Fail(UnprotectedCritical)
  {
  }

  /** Why a signature is refused before its key is looked at. */
  lemma RefusalsOfHeader(p: Primitives, protectedSeg: string, protected: Header, unprotected: Header,
                         payloadSeg: string, sigSeg: string, key: KeyArg, opts: VerifyOptions)
    ensures var r := VerifySignature(p, protectedSeg, protected, unprotected, payloadSeg, sigSeg, key, opts);
            var merged := protected + unprotected;
            if !(protected.Keys !! unprotected.Keys) then r == Err(InvalidHeader)
            else if "alg" !in merged || !merged["alg"].Str? || merged["alg"].text == "" then r == Err(InvalidHeader)
            else if merged["alg"].text == "none" then r == Err(NoneAlgDisallowed)
            else if opts.algorithms != [] && merged["alg"].text !in opts.algorithms then r == Err(SignatureInvalid)
            else if !IsUnderstood(protected, ["b64"] + opts.knownCritical) then
              r == Err(InvalidCrit) || r == Err(UnprotectedCritical)
            else if "b64" in unprotected then r == Err(UnprotectedB64)
            else if "b64" in protected && !protected["b64"].Bool? then r == Err(InvalidHeader)
            else if !IsB64Sound(protected) then r == Err(InvalidCrit)
            else if payloadSeg == "" && opts.detachedPayload == [] then r == Err(DetachedPayload)
            else LookupSigAlg(merged["alg"].text).Err? ==> r == Err(UnsupportedAlgorithm)
  {
    hide MergeHeaders, CheckCritical, IsUnderstood, LookupSigAlg, B64Setting, Lists;
    MergeTwo(protected, unprotected);
    var known := ["b64"] + opts.knownCritical;
    CriticalIsUnderstood(protected, known);
    if IsUnderstood(protected, known) {
      SettingIs(protected, known, true);
      SettingIs(protected, known, false);
      UnsoundSetting(protected);
    } else {
      CriticalRefusals(protected, known);
    }
    UnknownSigAlg(StringParam(protected + unprotected, "alg"));
  }

  lemma UnsoundSetting(protected: Header)
    ensures "b64" in protected && !protected["b64"].Bool? ==>
              B64Setting(protected, DeclaredCritical(protected)) == Err(InvalidHeader)
    ensures ("b64" in protected ==> protected["b64"].Bool?) ==>
              var setting := B64Setting(protected, DeclaredCritical(protected));
              setting.Err? ==> setting == Err(InvalidCrit)
  {
  }

  lemma UnknownSigAlg(alg: string)
    ensures LookupSigAlg(alg).Err? && alg != "none" ==> LookupSigAlg(alg) == Err(UnsupportedAlgorithm)
  {
    SigAlgNames(alg);
  }
}
