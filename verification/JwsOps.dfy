/** Signing and verifying in the form of jws.go: a header map filled step by step, and trial loops. */
module JwsOps {
  import opened Octets
  import opened Outcomes
  import opened Keys
  import opened Primitives
  import opened Base64Url
  import opened Headers
  import opened JsonWebKeys
  import opened Signatures
  import opened Jws

  /** signOne's header: the caller's map is copied, and only the copy is written to. */
  method BuildProtected(key: KeyArg, opts: SignOptions, alg: string) returns (protected: HeaderMap)
    ensures fresh(protected) && protected.entries == ProtectedHeader(key, opts, alg)
  {
    hide CopyHeader;
    var copied := CopyHeaderLoop([opts.header]);
    protected := new HeaderMap(copied);
    protected.Set("alg", Str(alg));
    if opts.keyId != "" {
      protected.Set("kid", Str(opts.keyId));
    } else if JwkOf(key).kid != "" {
      if "kid" !in protected.entries && "kid" !in opts.unprotected {
        protected.Set("kid", Str(JwkOf(key).kid));
      }
    }
    if |opts.critical| > 0 {
      protected.Set("crit", Strings(opts.critical));
    }
  }

  method SignOneSteps(p: Primitives, payload: bytes, key: KeyArg, opts: SignOptions, seed: bytes)
    returns (r: Result<Signed>)
    ensures r == SignOne(p, payload, key, opts, seed)
  {
    hide ResolveKey, SigningAlg, LookupSigAlg, CheckJwkUsage, ProtectedHeader, MergeHeaders, CheckCriticalProduced,
         EncodeHeader, SignOctets, SigningInput, EncodeSegment;
    var resolved := ResolveKey(p, key, opts.keyId);
    if resolved.Err? {
      return Err(resolved.error);
    }
    var alg := SigningAlg(key, resolved.value, opts.algorithm);
    if alg.Err? {
      return Err(alg.error);
    }
    var a := LookupSigAlg(alg.value);
    if a.Err? {
      return Err(a.error);
    }
    var usage := CheckJwkUsageLoop(key, opts.keyId, "sig", [alg.value], ["sign"]);
    if usage.Fail? {
      return Err(usage.error);
    }
    var protected := BuildProtected(key, opts, alg.value);
    if "b64" in opts.unprotected {
      return Err(UnprotectedB64);
    }
    var b64 := true;
    if "b64" in protected.entries {
      var v := protected.entries["b64"];
      if !v.Bool? {
        return Err(InvalidHeader);
      }
      b64 := v.flag;
      if !b64 && "b64" !in opts.critical {
        return Err(InvalidCrit);
      }
    }
    var merged := MergeHeadersLoop([protected.entries, opts.unprotected]);
    if merged.Err? {
      return Err(merged.error);
    }
    var crit := CheckCriticalProducedSteps(protected.entries);
    if crit.Fail? {
      return Err(crit.error);
    }
    var protectedB64 := EncodeHeader(p, protected.entries);
    if protectedB64.Err? {
      return Err(protectedB64.error);
    }
    var encoded := "";
    if b64 {
      encoded := EncodeSegment(payload);
    } else {
      if '.' in TextOf(payload) {
        return Err(InvalidToken);
      }
      encoded := TextOf(payload);
    }
    var sig := SignOctets(p, a.value, SigningInput(protectedB64.value, encoded), resolved.value, seed);
    if sig.Err? {
      return Err(sig.error);
    }
    return Ok(Signed(protectedB64.value, EncodeSegment(sig.value), encoded));
  }

  method SignJSONMulti(p: Primitives, payload: bytes, signers: seq<Signer>, seeds: seq<bytes>)
    returns (r: Result<Document>)
    requires |signers| == |seeds|
    ensures r == SignJsonMulti(p, payload, signers, seeds)
  {
    hide SignOne, PlanSignature;
    if |signers| == 0 {
      return Err(InvalidKey);
    }
    var out := EMPTY_DOCUMENT;
    var encodedPayload := "";
    var i := 0;
    while i < |signers|
      invariant 0 <= i <= |signers|
      invariant SignSteps(p, payload, signers, seeds, i) == Ok((encodedPayload, out))
    {
      var s := signers[i];
      var one := SignOneSteps(p, payload, s.key, s.options, seeds[i]);
      if one.Err? {
        StepsFail(p, payload, signers, seeds, i + 1);
        return Err(one.error);
      }
      if i == 0 {
        encodedPayload := one.value.encodedPayload;
      } else if one.value.encodedPayload != encodedPayload {
        StepsFail(p, payload, signers, seeds, i + 1);
        return Err(InvalidHeader);
      }
      if !s.options.detach {
        out := out.(payload := encodedPayload);
      }
      var sig := Signature(one.value.protectedB64, OrNil(s.options.unprotected), one.value.sigB64);
      out := out.(signatures := out.signatures + [sig]);
      i := i + 1;
    }
    return if Marshals(p, out) then Ok(out) else Err(Library);
  }

  /** An early error of the loop is the error of the whole. */
  lemma {:induction false} StepsFail(p: Primitives, payload: bytes, signers: seq<Signer>, seeds: seq<bytes>, n: nat)
    requires n <= |signers| == |seeds| && SignSteps(p, payload, signers, seeds, n).Err?
    ensures SignSteps(p, payload, signers, seeds, |signers|) == SignSteps(p, payload, signers, seeds, n)
    decreases |signers| - n
  {
    hide SignOne, PlanSignature;
    if n < |signers| {
      StepsFail(p, payload, signers, seeds, n + 1);
    }
  }

  method VerifyJSON(p: Primitives, doc: Document, key: KeyArg, opts: VerifyOptions) returns (r: Result<(bytes, Header)>)
    ensures r == VerifyJson(p, doc, key, opts)
  {
    hide DecodeHeader, VerifySignature, MergeHeaders, OrEmpty;
    var sigs := doc.signatures;
    var flattened := doc.signature != "" || doc.protected != "" || doc.header.Some?;
    if |sigs| > 0 && flattened {
      return Err(Malformed);
    }
    if flattened {
      if doc.signature == "" {
        return Err(Malformed);
      }
      sigs := sigs + [Signature(doc.protected, doc.header, doc.signature)];
      assert sigs == [Signature(doc.protected, doc.header, doc.signature)];
    }
    if |sigs| == 0 {
      return Err(Malformed);
    }
    assert SignaturesOf(doc) == Ok(sigs);
    var lastErr := SignatureInvalid;
    var i := 0;
    while i < |sigs|
      invariant 0 <= i <= |sigs|
      invariant TrySignatures(p, sigs, doc.payload, key, opts, SignatureInvalid) ==
                TrySignatures(p, sigs[i..], doc.payload, key, opts, lastErr)
    {
      var s := sigs[i];
      assert sigs[i..][1..] == sigs[i + 1..];
      i := i + 1;
      var protected: Header := map[];
      if s.protected != "" {
        var decoded := DecodeHeader(p, s.protected);
        if decoded.Err? {
          lastErr := decoded.error;
          continue;
        }
        protected := decoded.value;
      }
      var pl := VerifySignature(p, s.protected, protected, OrEmpty(s.header), doc.payload, s.signature, key, opts);
      if pl.Err? {
        lastErr := pl.error;
        continue;
      }
      var merged := MergeHeadersLoop([protected, OrEmpty(s.header)]);
      if merged.Err? {
        lastErr := merged.error;
        continue;
      }
      return Ok((pl.value, merged.value));
    }
    return Err(lastErr);
  }
}
