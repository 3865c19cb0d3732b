/** JSON Web Encryption in the JSON serializations (jwe_json.go): many recipients, one CEK. */
module JweJson {
  import opened Octets
  import opened Outcomes
  import opened Keys
  import opened Primitives
  import opened Base64Url
  import opened Headers
  import opened JsonWebKeys
  import opened KeyMgmt
  import opened Jwe
  import C = ContentEnc

  datatype Recipient = Recipient(key: KeyArg, algorithm: string, keyId: string, header: Header)

  /** An entry of "recipients"; a nil header is None. */
  datatype Entry = Entry(header: Option<Header>, encryptedKey: string)

  /** The general serialization, and the members of the flattened one. */
  datatype Document = Document(
    protected: string, unprotected: Option<Header>, recipients: seq<Entry>, aad: string, iv: string,
    ciphertext: string, tag: string, header: Option<Header>, encryptedKey: string)

  /** jweAAD: the encoded protected header, and "." with the encoded "aad" when there is one. */
  function JweAad(protectedB64: string, aadB64: string): bytes {
    if aadB64 == "" then OctetsOf(protectedB64) else OctetsOf(protectedB64) + [46] + OctetsOf(aadB64)
  }

  // ---------------------------------------------------------------- encryption

  /** The protected header as every recipient shares it, before any key is wrapped. */
  function SharedHeader(opts: EncryptOptions, count: nat): Header {
    var h := CopyHeader([opts.header, opts.additional])["enc" := Str(EncName(opts))];
    var h := if opts.compress then h["zip" := Str("DEF")] else h;
    if opts.keyId != "" && count == 1 then h["kid" := Str(opts.keyId)] else h
  }

  /** A recipient's own header before its key is wrapped. */
  function RecipientHeader(r: Recipient, alg: string, shared: Header): Header {
    var h := CopyHeader([r.header])["alg" := Str(alg)];
    if r.keyId != "" then h["kid" := Str(r.keyId)]
    else if JwkOf(r.key).kid != "" && "kid" !in h && "kid" !in shared then h["kid" := Str(JwkOf(r.key).kid)]
    else h
  }

  /** With a single recipient, the shared parameters are folded into its header; its "kid" wins. */
  function Fold(h: Header, shared: Header): (r: Result<Header>)
    ensures r.Ok? ==> r.value.Keys == h.Keys + shared.Keys
  {
    if exists k :: k in shared && k in h && k != "kid" then Err(InvalidHeader) else Ok(shared + h)
  }

  datatype RecipientPlan = RecipientPlan(key: GoKey, km: Mgmt, header: Header)

  /** The loop body of EncryptJSONMulti up to the key operation. */
  function PlanRecipient(p: Primitives, r: Recipient, encName: string, shared: Header, count: nat)
    : (res: Result<RecipientPlan>)
    ensures res.Ok? ==> res.value.km.Valid() && (count > 1 ==> !res.value.km.DerivesCek())
  {
    var resolved :- ResolveKey(p, r.key, r.keyId);
    var alg :- KeyMgmtAlg(r.key, resolved, r.algorithm);
    var km :- LookupKeyMgmt(alg);
    :- CheckJwkUsage(r.key, r.keyId, "enc", [alg, encName], ENCRYPT_OPS);
    if km.DerivesCek() && count > 1 then Err(UnsupportedAlgorithm) else
      var own := RecipientHeader(r, alg, shared);
      var h :- if count == 1 then Fold(own, shared) else Ok(own);
      Ok(RecipientPlan(resolved, km, h))
  }

  /** The state of the loop: the CEK once there is one, and each recipient's wrapped key. */
  datatype Progress = Progress(cek: Option<bytes>, wrapped: seq<Wrapped>)

  function WrapSteps(p: Primitives, recipients: seq<Recipient>, enc: C.Enc, shared: Header, coins: seq<Coins>, n: nat)
    : (r: Result<Progress>)
    requires p.Sized() && enc.Valid() && n <= |recipients| == |coins| && forall i :: 0 <= i < |coins| ==> coins[i].Fit()
    ensures r.Ok? ==> |r.value.wrapped| == n && (n > 0 ==> r.value.cek.Some?)
  {
    if n == 0 then Ok(Progress(None, [])) else
      var before :- WrapSteps(p, recipients, enc, shared, coins, n - 1);
      var plan :- PlanRecipient(p, recipients[n - 1], enc.name, shared, |recipients|);
      var w :- EncryptKey(p, plan.km, enc, plan.key, plan.header, before.cek, coins[n - 1]);
      Ok(Progress(Some(w.cek), before.wrapped + [w]))
  }

  /** The protected header of the document: the one recipient's header, or the shared one. */
  function FinalHeader(wrapped: seq<Wrapped>, shared: Header): Header {
    if |wrapped| == 1 then wrapped[0].header else shared
  }

  function EntryFor(w: Wrapped, count: nat): Entry {
    Entry(if count == 1 then None else Some(w.header), EncodeSegment(w.encryptedKey))
  }

  function EntriesFor(wrapped: seq<Wrapped>): (es: seq<Entry>)
    ensures |es| == |wrapped|
  {
    seq(|wrapped|, i requires 0 <= i < |wrapped| => EntryFor(wrapped[i], |wrapped|))
  }

  /** Every merged view that a recipient will see is free of repeated parameters. */
  predicate AllMerge(protected: Header, unprotected: Header, entries: seq<Entry>) {
    forall i :: 0 <= i < |entries| ==> MergeHeaders([protected, unprotected, OrEmpty(entries[i].header)]).Ok?
  }

  predicate MarshalsHeader(p: Primitives, h: Option<Header>) {
    h.Some? ==> p.headerToJson(h.value).Some?
  }

  predicate Marshals(p: Primitives, doc: Document) {
    MarshalsHeader(p, doc.unprotected) &&
    forall i :: 0 <= i < |doc.recipients| ==> MarshalsHeader(p, doc.recipients[i].header)
  }

  /** EncryptJSONMulti after its loop: the checks, the content encryption and the document. */
  function Seal(p: Primitives, plaintext: bytes, opts: EncryptOptions, enc: C.Enc, shared: Header, g: Progress,
                iv: bytes)
    : Result<Document>
    requires p.Sized() && enc.Valid() && g.cek.Some? && |iv| == 16
  {
    var protected := FinalHeader(g.wrapped, shared);
    var entries := EntriesFor(g.wrapped);
    :- CheckCriticalProduced(protected);
    if !AllMerge(protected, opts.unprotected, entries) then Err(InvalidHeader) else
      var body :- Compressed(p, protected, plaintext);
      var protectedB64 :- EncodeHeader(p, protected);
      var aadB64 := if opts.aad == [] then "" else EncodeSegment(opts.aad);
      var s :- C.Encrypt(p, enc, g.cek.value, body, JweAad(protectedB64, aadB64), iv[..enc.IvSize()]);
      var doc := Document(protectedB64, OrNil(opts.unprotected), entries, aadB64, EncodeSegment(s.iv),
                          EncodeSegment(s.ciphertext), EncodeSegment(s.tag), None, "");
      if Marshals(p, doc) then Ok(doc) else Err(Library)
  }

  function EncryptJsonMulti(p: Primitives, plaintext: bytes, opts: EncryptOptions, recipients: seq<Recipient>,
                            coins: seq<Coins>, iv: bytes): Result<Document>
    requires p.Sized() && |recipients| == |coins| && |iv| == 16 && forall i :: 0 <= i < |coins| ==> coins[i].Fit()
  {
    if recipients == [] then Err(InvalidKey)
    else if "zip" in opts.unprotected then Err(InvalidHeader)
    else if exists i :: 0 <= i < |recipients| && "zip" in recipients[i].header then Err(InvalidHeader)
    else
      var enc :- C.LookupEnc(EncName(opts));
      var shared := SharedHeader(opts, |recipients|);
      var g :- WrapSteps(p, recipients, enc, shared, coins, |recipients|);
      Seal(p, plaintext, opts, enc, shared, g, iv)
  }

  // ---------------------------------------------------------------- the order of trials

  /** The kid a recipient's entry shows: the innermost header that names one wins. */
  function EffectiveKid(protected: Header, unprotected: Header, r: Entry): string {
    var own := StringParam(OrEmpty(r.header), "kid");
    if own != "" then own
    else if StringParam(unprotected, "kid") != "" then StringParam(unprotected, "kid")
    else StringParam(protected, "kid")
  }

  /** Which recipients show the wanted kid. */
  function KidMatches(rs: seq<Entry>, protected: Header, unprotected: Header, want: string): (ms: seq<bool>)
    ensures |ms| == |rs|
  {
    seq(|rs|, i requires 0 <= i < |rs| => EffectiveKid(protected, unprotected, rs[i]) == want)
  }

  /** The indices below n that match (or do not), in increasing order. */
  function Indices(ms: seq<bool>, wanted: bool, n: nat): (s: seq<nat>)
    requires n <= |ms|
    ensures forall i :: 0 <= i < |s| ==> s[i] < n
  {
    if n == 0 then [] else
      var front := Indices(ms, wanted, n - 1);
      if ms[n - 1] == wanted then front + [n - 1] else front
  }

  function Range(n: nat): seq<nat> {
    seq(n, i requires 0 <= i < n => i)
  }

  function WantedKid(key: KeyArg): string {
    JwkOf(key).kid
  }

  function RecipientOrder(rs: seq<Entry>, protected: Header, unprotected: Header, key: KeyArg): (s: seq<nat>)
    ensures forall i :: 0 <= i < |s| ==> s[i] < |rs|
  {
    var want := WantedKid(key);
    var ms := KidMatches(rs, protected, unprotected, want);
    if want == "" then Range(|rs|) else Indices(ms, true, |rs|) + Indices(ms, false, |rs|)
  }

  // ---------------------------------------------------------------- decryption

  /** The parts of a document that every recipient shares, decoded. */
  datatype Shared = Shared(protected: Header, unprotected: Header, sealed: C.Sealed, aad: bytes, entries: seq<Entry>)

  function EntriesOf(doc: Document): Result<seq<Entry>> {
    if doc.recipients == [] then Ok([Entry(doc.header, doc.encryptedKey)])
    else if doc.header.Some? || doc.encryptedKey != "" then Err(Malformed)
    else Ok(doc.recipients)
  }

  function Open(p: Primitives, doc: Document): Result<Shared> {
    var entries :- EntriesOf(doc);
    var protected :- if doc.protected != "" then DecodeHeader(p, doc.protected) else Ok(map[]);
    var iv :- DecodeOptional(doc.iv);
    var ciphertext :- DecodeOptional(doc.ciphertext);
    var tag :- DecodeOptional(doc.tag);
    var _ :- DecodeOptional(doc.aad);
    Ok(Shared(protected, OrEmpty(doc.unprotected), C.Sealed(iv, ciphertext, tag), JweAad(doc.protected, doc.aad),
              entries))
  }

  /** The trial of one recipient, in the loop of DecryptJSON. */
  function TryRecipient(p: Primitives, d: Shared, r: Entry, key: KeyArg, opts: DecryptOptions): Result<(bytes, Header)>
    requires p.Sized()
  {
    var own := OrEmpty(r.header);
    if "zip" in d.unprotected then Err(InvalidHeader)
    else if "zip" in own then Err(InvalidHeader)
    else
      var merged :- MergeHeaders([d.protected, d.unprotected, own]);
      :- CheckCritical(d.protected, opts.knownCritical);
      var ek :- DecodeOptional(r.encryptedKey);
      var body :- DecryptOne(p, merged, ek, d.sealed, d.aad, key, opts);
      Ok((body, merged))
  }

  function TryRecipients(p: Primitives, d: Shared, order: seq<nat>, key: KeyArg, opts: DecryptOptions, lastErr: Error)
    : Result<(bytes, Header)>
    requires p.Sized() && forall i :: 0 <= i < |order| ==> order[i] < |d.entries|
  {
    if order == [] then Err(lastErr) else
      match TryRecipient(p, d, d.entries[order[0]], key, opts)
      case Ok(v) => Ok(v)
      case Err(e) => TryRecipients(p, d, order[1..], key, opts, e)
  }

  function DecryptJson(p: Primitives, doc: Document, key: KeyArg, opts: DecryptOptions): Result<(bytes, Header)>
    requires p.Sized()
  {
    var d :- Open(p, doc);
    TryRecipients(p, d, RecipientOrder(d.entries, d.protected, d.unprotected, key), key, opts, DecryptFailed)
  }
}
