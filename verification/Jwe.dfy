/** JSON Web Encryption in the compact serialization (jwe.go), and the recovery of one recipient. */
module Jwe {
  import opened Octets
  import opened Outcomes
  import opened Keys
  import opened Primitives
  import opened Base64Url
  import opened Headers
  import opened JsonWebKeys
  import opened KeyMgmt
  import opened Tokens
  import C = ContentEnc

  /** Go's int on a 64-bit platform. */
  type int64 = x: int | -0x8000_0000_0000_0000 <= x < 0x8000_0000_0000_0000

  const MAX_INT64: int64 := 0x7FFF_FFFF_FFFF_FFFF

  const MAX_DECOMPRESSED_SIZE: int64 := 0x100_0000

  datatype EncryptOptions = EncryptOptions(
    algorithm: string, encryption: string, keyId: string, header: Header, additional: Header,
    unprotected: Header, aad: bytes, compress: bool)

  datatype DecryptOptions = DecryptOptions(
    algorithms: seq<string>, encryptions: seq<string>, knownCritical: seq<string>, maxDecompressed: int64)

  function EncName(opts: EncryptOptions): string {
    if opts.encryption == "" then "A256GCM" else opts.encryption
  }

  /** The "alg" of a recipient: given, stated by the JWK, or inferred from the key. */
  function KeyMgmtAlg(key: KeyArg, resolved: GoKey, algorithm: string): Result<string> {
    if algorithm != "" then Ok(algorithm)
    else if JwkOf(key).alg != "" && LookupKeyMgmt(JwkOf(key).alg).Ok? then Ok(JwkOf(key).alg)
    else DefaultKeyMgmtAlg(resolved)
  }

  const ENCRYPT_OPS := ["encrypt", "wrapKey", "deriveKey"]
  const DECRYPT_OPS := ["decrypt", "unwrapKey", "deriveKey"]

  // ---------------------------------------------------------------- compression

  /** The producers' view of "zip": absent, not a string and empty all mean no compression. */
  function Compressed(p: Primitives, h: Header, plaintext: bytes): Result<bytes> {
    var zip := StringParam(h, "zip");
    if zip == "" then Ok(plaintext)
    else if zip != "DEF" then Err(InvalidHeader)
    else Ok(p.deflate(plaintext))
  }

  /** n + 1, which wraps around at the top. */
  function Next(n: int64): int64 {
    if n == MAX_INT64 then -0x8000_0000_0000_0000 else n + 1
  }

  /** io.ReadAll of an io.LimitReader: a limit that is not positive reads nothing, whatever the data. */
  function ReadLimited(p: Primitives, b: bytes, n: int64): Option<bytes> {
    if n <= 0 then Some([]) else p.inflate(b, n)
  }

  function Inflate(p: Primitives, b: bytes, limit: int64): Result<bytes> {
    match ReadLimited(p, b, Next(limit))
    case None => Err(Malformed)
    case Some(out) => if |out| > limit then Err(CompressionLimit) else Ok(out)
  }

  /** What is passed as the limit is always positive. */
  function Limit(opts: DecryptOptions): (n: int64)
    ensures n > 0
  {
    if opts.maxDecompressed <= 0 then MAX_DECOMPRESSED_SIZE else opts.maxDecompressed
  }

  /** maybeInflate: the consumer accepts no "zip" other than the string "DEF". */
  function MaybeInflate(p: Primitives, h: Header, body: bytes, opts: DecryptOptions): Result<bytes> {
    if "zip" !in h then Ok(body)
    else if h["zip"] != Str("DEF") then Err(InvalidHeader)
    else Inflate(p, body, Limit(opts))
  }

  // ---------------------------------------------------------------- encryption

  /** The key, the algorithms and the header that Encrypt settles on before any cryptography. */
  datatype Plan = Plan(key: GoKey, km: Mgmt, enc: C.Enc, header: Header)

  function CompactHeader(key: KeyArg, opts: EncryptOptions, alg: string): Header {
    var h := CopyHeader([opts.header, opts.additional])["alg" := Str(alg)]["enc" := Str(EncName(opts))];
    var h := if opts.keyId != "" then h["kid" := Str(opts.keyId)]
             else if JwkOf(key).kid != "" && "kid" !in h then h["kid" := Str(JwkOf(key).kid)]
             else h;
    if opts.compress then h["zip" := Str("DEF")] else h
  }

  function PlanEncryption(p: Primitives, key: KeyArg, opts: EncryptOptions): (r: Result<Plan>)
    ensures r.Ok? ==> r.value.km.Valid() && r.value.enc.Valid()
  {
    if opts.unprotected != map[] then Err(InvalidHeader)
    else if opts.aad != [] then Err(InvalidHeader)
    else
      var resolved :- ResolveKey(p, key, opts.keyId);
      var alg :- KeyMgmtAlg(key, resolved, opts.algorithm);
      var km :- LookupKeyMgmt(alg);
      var enc :- C.LookupEnc(EncName(opts));
      :- CheckJwkUsage(key, opts.keyId, "enc", [alg, EncName(opts)], ENCRYPT_OPS);
      var h := CompactHeader(key, opts, alg);
      :- CheckCriticalProduced(h);
      Ok(Plan(resolved, km, enc, h))
  }

  /** The compact token; `iv` is the random source of the content encryption. */
  function EncryptCompact(p: Primitives, plaintext: bytes, key: KeyArg, opts: EncryptOptions, coins: Coins, iv: bytes)
    : (r: Result<string>)
    requires p.Sized() && coins.Fit() && |iv| == 16
    ensures r.Ok? ==> PlanEncryption(p, key, opts).Ok?
  {
    var plan :- PlanEncryption(p, key, opts);
    var w :- EncryptKey(p, plan.km, plan.enc, plan.key, plan.header, None, coins);
    var body :- Compressed(p, w.header, plaintext);
    var protectedB64 :- EncodeHeader(p, w.header);
    var s :- C.Encrypt(p, plan.enc, w.cek, body, OctetsOf(protectedB64), iv[..plan.enc.IvSize()]);
    Ok(Join([protectedB64, EncodeSegment(w.encryptedKey), EncodeSegment(s.iv),
             EncodeSegment(s.ciphertext), EncodeSegment(s.tag)]))
  }

  // ---------------------------------------------------------------- decryption

  predicate Allowed(list: seq<string>, name: string) {
    list == [] || name in list
  }

  /** The algorithms and the key that one merged header selects. */
  datatype Choice = Choice(km: Mgmt, enc: C.Enc, key: GoKey)

  function Choose(p: Primitives, h: Header, key: KeyArg, opts: DecryptOptions): (r: Result<Choice>)
    ensures r.Ok? ==> r.value.km.Valid() && r.value.enc.Valid()
  {
    var alg := StringParam(h, "alg");
    if alg == "" then Err(InvalidHeader)
    else if !Allowed(opts.algorithms, alg) then Err(DecryptFailed)
    else
      var encName := StringParam(h, "enc");
      if encName == "" then Err(InvalidHeader)
      else if !Allowed(opts.encryptions, encName) then Err(DecryptFailed)
      else
        var km :- LookupKeyMgmt(alg);
        var enc :- C.LookupEnc(encName);
        var kid := StringParam(h, "kid");
        :- CheckJwkUsage(key, kid, "enc", [alg, encName], DECRYPT_OPS);
        var resolved :- ResolveKey(p, key, kid);
        Ok(Choice(km, enc, resolved))
  }

  /** The CEK that one recipient's entry yields. */
  function RecoverCek(p: Primitives, h: Header, ek: bytes, key: KeyArg, opts: DecryptOptions): Result<bytes>
    requires p.Sized()
  {
    var c :- Choose(p, h, key, opts);
    DecryptKey(p, c.km, c.enc, c.key, h, ek)
  }

  /** decryptOne. */
  function DecryptOne(p: Primitives, h: Header, ek: bytes, s: C.Sealed, aad: bytes, key: KeyArg, opts: DecryptOptions)
    : Result<bytes>
    requires p.Sized()
  {
    var cek :- RecoverCek(p, h, ek, key, opts);
    var enc := Choose(p, h, key, opts).value.enc;
    if |cek| != enc.keySize then Err(DecryptFailed)
    else
      var body :- C.Decrypt(p, enc, cek, s, aad);
      MaybeInflate(p, h, body, opts)
  }

  /** decodeOptionalSegment. */
  function DecodeOptional(seg: string): Result<bytes> {
    if seg == "" then Ok([]) else DecodeSegment(seg)
  }

  /** The four segments after the header, of which the first that fails is reported. */
  function DecodeParts(parts: seq<string>): (r: Result<seq<bytes>>)
    requires |parts| == 5
    ensures r.Ok? ==> |r.value| == 4
  {
    var ek :- DecodeOptional(parts[1]);
    var iv :- DecodeOptional(parts[2]);
    var ciphertext :- DecodeOptional(parts[3]);
    var tag :- DecodeOptional(parts[4]);
    Ok([ek, iv, ciphertext, tag])
  }

  function DecryptCompact(p: Primitives, token: string, key: KeyArg, opts: DecryptOptions): Result<(bytes, Header)>
    requires p.Sized()
  {
    var parts := Split(token);
    if |parts| != 5 then Err(Malformed) else
      var protected :- DecodeHeader(p, parts[0]);
      :- CheckCritical(protected, opts.knownCritical);
      var seg :- DecodeParts(parts);
      var body :- DecryptOne(p, protected, seg[0], C.Sealed(seg[1], seg[2], seg[3]), OctetsOf(parts[0]), key, opts);
      Ok((body, protected))
  }
}
