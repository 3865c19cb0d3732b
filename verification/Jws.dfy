/** JSON Web Signatures (jws.go): producing and checking one or many signatures. */
module Jws {
  import opened Octets
  import opened Outcomes
  import opened Keys
  import opened Primitives
  import opened Base64Url
  import opened Headers
  import opened JsonWebKeys
  import opened Signatures
  import opened Tokens

  datatype SignOptions = SignOptions(
    algorithm: string, keyId: string, header: Header, unprotected: Header, critical: seq<string>, detach: bool)

  datatype VerifyOptions = VerifyOptions(algorithms: seq<string>, knownCritical: seq<string>, detachedPayload: bytes)

  datatype Signer = Signer(key: KeyArg, options: SignOptions)

  /** An entry of "signatures"; a nil header is None. */
  datatype Signature = Signature(protected: string, header: Option<Header>, signature: string)

  /** The general serialization, and the members of the flattened one. */
  datatype Document = Document(
    payload: string, signatures: seq<Signature>, protected: string, header: Option<Header>, signature: string)

  const EMPTY_DOCUMENT := Document("", [], "", None, "")

  // ---------------------------------------------------------------- signing

  /** ASCII(protected) || '.' || payload. */
  function SigningInput(protectedB64: string, payloadSeg: string): bytes {
    OctetsOf(protectedB64) + [46] + OctetsOf(payloadSeg)
  }

  function SigningAlg(key: KeyArg, resolved: GoKey, algorithm: string): Result<string> {
    if algorithm != "" then Ok(algorithm)
    else if JwkOf(key).alg != "" then Ok(JwkOf(key).alg)
    else DefaultSigAlg(resolved)
  }

  /** The protected header that signOne builds. */
  function ProtectedHeader(key: KeyArg, opts: SignOptions, alg: string): Header {
    var h := CopyHeader([opts.header])["alg" := Str(alg)];
    var h := if opts.keyId != "" then h["kid" := Str(opts.keyId)]
             else if JwkOf(key).kid != "" && "kid" !in h && "kid" !in opts.unprotected then
               h["kid" := Str(JwkOf(key).kid)]
             else h;
    if opts.critical != [] then h["crit" := Strings(opts.critical)] else h
  }

  /** The "b64" setting of a protected header, given the names declared critical. */
  function B64Setting(protected: Header, critical: seq<string>): Result<bool> {
    if "b64" !in protected then Ok(true)
    else if !protected["b64"].Bool? then Err(InvalidHeader)
    else if !protected["b64"].flag && "b64" !in critical then Err(InvalidCrit)
    else Ok(protected["b64"].flag)
  }

  function EncodePayload(payload: bytes, b64: bool): Result<string> {
    if b64 then Ok(EncodeSegment(payload))
    else if '.' in TextOf(payload) then Err(InvalidToken)
    else Ok(TextOf(payload))
  }

  /** One signature, with the payload as it will be serialized. */
  datatype Signed = Signed(protectedB64: string, sigB64: string, encodedPayload: string)

  /** The key, the algorithm and the protected header that one signature is made with. */
  datatype Plan = Plan(key: GoKey, alg: SigAlg, protected: Header, b64: bool)

  /** signOne up to the point where everything is known to be acceptable to a verifier. */
  function PlanSignature(p: Primitives, key: KeyArg, opts: SignOptions): Result<Plan> {
    var resolved :- ResolveKey(p, key, opts.keyId);
    var alg :- SigningAlg(key, resolved, opts.algorithm);
    var a :- LookupSigAlg(alg);
    :- CheckJwkUsage(key, opts.keyId, "sig", [alg], ["sign"]);
    var protected := ProtectedHeader(key, opts, alg);
    if "b64" in opts.unprotected then Err(UnprotectedB64) else
      var b64 :- B64Setting(protected, opts.critical);
      var _ :- MergeHeaders([protected, opts.unprotected]);
      :- CheckCriticalProduced(protected);
      Ok(Plan(resolved, a, protected, b64))
  }

  function SignOne(p: Primitives, payload: bytes, key: KeyArg, opts: SignOptions, seed: bytes): (r: Result<Signed>)
    ensures r.Ok? ==> PlanSignature(p, key, opts).Ok?
  {
    var plan :- PlanSignature(p, key, opts);
    var protectedB64 :- EncodeHeader(p, plan.protected);
    var encoded :- EncodePayload(payload, plan.b64);
    var sig :- SignOctets(p, plan.alg, SigningInput(protectedB64, encoded), plan.key, seed);
    Ok(Signed(protectedB64, EncodeSegment(sig), encoded))
  }

  // ---------------------------------------------------------------- verifying one signature

  /** The payload segment that is verified: a detached payload stands in for an empty one. */
  function EffectiveSegment(payloadSeg: string, b64: bool, detached: bytes): Result<string> {
    if payloadSeg != "" then Ok(payloadSeg)
    else if detached == [] then Err(DetachedPayload)
    else if b64 then Ok(EncodeSegment(detached))
    else Ok(TextOf(detached))
  }

  function DecodePayload(segment: string, b64: bool): Result<bytes> {
    if b64 then DecodeSegment(segment) else Ok(OctetsOf(segment))
  }

  /** The checks of verifySignature that precede the signature, and the segment they leave. */
  function VerifiableSegment(protected: Header, unprotected: Header, payloadSeg: string, opts: VerifyOptions)
    : Result<(bool, string)>
  {
    var understood := ["b64"] + opts.knownCritical;
    :- CheckCritical(protected, understood);
    if "b64" in unprotected then Err(UnprotectedB64) else
      var b64 :- B64Setting(protected, DeclaredCritical(protected));
      var segment :- EffectiveSegment(payloadSeg, b64, opts.detachedPayload);
      Ok((b64, segment))
  }

  function CheckSignature(p: Primitives, alg: string, kid: string, input: bytes, sigSeg: string, key: KeyArg)
    : Result<()>
  {
    var a :- LookupSigAlg(alg);
    :- CheckJwkUsage(key, kid, "sig", [alg], ["verify"]);
    var resolved :- ResolveKey(p, key, kid);
    if sigSeg == "" then Err(SignatureInvalid) else
      var sig :- DecodeSegment(sigSeg);
      :- VerifyOctets(p, a, input, sig, resolved);
      Ok(())
  }

  function VerifySignature(p: Primitives, protectedSeg: string, protected: Header, unprotected: Header,
                           payloadSeg: string, sigSeg: string, key: KeyArg, opts: VerifyOptions): Result<bytes>
  {
    var merged :- MergeHeaders([protected, unprotected]);
    var alg := StringParam(merged, "alg");
    if alg == "" then Err(InvalidHeader)
    else if alg == "none" then Err(NoneAlgDisallowed)
    else if opts.algorithms != [] && alg !in opts.algorithms then Err(SignatureInvalid)
    else
      var (b64, segment) :- VerifiableSegment(protected, unprotected, payloadSeg, opts);
      var _ :- CheckSignature(p, alg, StringParam(merged, "kid"), SigningInput(protectedSeg, segment), sigSeg, key);
      DecodePayload(segment, b64)
  }

  // ---------------------------------------------------------------- the compact serialization

  function SignCompact(p: Primitives, payload: bytes, key: KeyArg, opts: SignOptions, seed: bytes): Result<string> {
    if opts.unprotected != map[] then Err(InvalidHeader) else
      var s :- SignOne(p, payload, key, opts, seed);
      Ok(Join([s.protectedB64, if opts.detach then "" else s.encodedPayload, s.sigB64]))
  }

  function VerifyCompact(p: Primitives, token: string, key: KeyArg, opts: VerifyOptions): Result<(bytes, Header)> {
    var parts := Split(token);
    if |parts| != 3 then Err(Malformed) else
      var protected :- DecodeHeader(p, parts[0]);
      var payload :- VerifySignature(p, parts[0], protected, map[], parts[1], parts[2], key, opts);
      Ok((payload, protected))
  }

  // ---------------------------------------------------------------- many signatures

  /** The state of SignJSONMulti's loop after the first n signers. */
  function SignSteps(p: Primitives, payload: bytes, signers: seq<Signer>, seeds: seq<bytes>, n: nat)
    : Result<(string, Document)>
    requires n <= |signers| == |seeds|
  {
    if n == 0 then Ok(("", EMPTY_DOCUMENT)) else
      var (encoded, doc) :- SignSteps(p, payload, signers, seeds, n - 1);
      var s := signers[n - 1];
      var one :- SignOne(p, payload, s.key, s.options, seeds[n - 1]);
      if n > 1 && one.encodedPayload != encoded then Err(InvalidHeader) else
        var doc := doc.(signatures := doc.signatures +
                          [Signature(one.protectedB64, OrNil(s.options.unprotected), one.sigB64)]);
        Ok((one.encodedPayload, if s.options.detach then doc else doc.(payload := one.encodedPayload)))
  }

  /** json.Marshal accepts the unprotected headers that the document carries. */
  predicate Marshals(p: Primitives, doc: Document) {
    forall i :: 0 <= i < |doc.signatures| ==>
      doc.signatures[i].header.Some? ==> p.headerToJson(doc.signatures[i].header.value).Some?
  }

  function SignJsonMulti(p: Primitives, payload: bytes, signers: seq<Signer>, seeds: seq<bytes>): Result<Document>
    requires |signers| == |seeds|
  {
    if signers == [] then Err(InvalidKey) else
      var (_, doc) :- SignSteps(p, payload, signers, seeds, |signers|);
      if Marshals(p, doc) then Ok(doc) else Err(Library)
  }

  /** One entry of the trial loop of VerifyJSON. */
  function TrySignature(p: Primitives, s: Signature, payload: string, key: KeyArg, opts: VerifyOptions)
    : Result<(bytes, Header)>
  {
    var protected :- if s.protected != "" then DecodeHeader(p, s.protected) else Ok(map[]);
    var pl :- VerifySignature(p, s.protected, protected, OrEmpty(s.header), payload, s.signature, key, opts);
    var merged :- MergeHeaders([protected, OrEmpty(s.header)]);
    Ok((pl, merged))
  }

  /** The first signature that verifies, or the last error. */
  function TrySignatures(p: Primitives, sigs: seq<Signature>, payload: string, key: KeyArg, opts: VerifyOptions,
                         lastErr: Error): Result<(bytes, Header)>
  {
    if sigs == [] then Err(lastErr) else
      match TrySignature(p, sigs[0], payload, key, opts)
      case Ok(v) => Ok(v)
      case Err(e) => TrySignatures(p, sigs[1..], payload, key, opts, e)
  }

  predicate IsFlattened(doc: Document) {
    doc.signature != "" || doc.protected != "" || doc.header.Some?
  }

  function SignaturesOf(doc: Document): Result<seq<Signature>> {
    if doc.signatures != [] && IsFlattened(doc) then Err(Malformed)
    else if IsFlattened(doc) && doc.signature == "" then Err(Malformed)
    else if IsFlattened(doc) then Ok([Signature(doc.protected, doc.header, doc.signature)])
    else if doc.signatures == [] then Err(Malformed)
    else Ok(doc.signatures)
  }

  function VerifyJson(p: Primitives, doc: Document, key: KeyArg, opts: VerifyOptions): Result<(bytes, Header)> {
    var sigs :- SignaturesOf(doc);
    TrySignatures(p, sigs, doc.payload, key, opts, SignatureInvalid)
  }
}
