/**
 Exactly which JSON documents are encrypted and decrypted: entry by entry and header by header,
 with the additional data of section 5.1 of RFC 7516 written out.
 */
module JweJsonExact {
  import opened Octets
  import opened Outcomes
  import opened Keys
  import opened Primitives
  import opened Base64Url
  import opened Headers
  import opened JsonWebKeys
  import opened KeyMgmt
  import opened KeyMgmtExact
  import opened Jwe
  import opened JweJson
  import opened JweExact
  import JweProperties
  import JweJsonProperties
  import JwsExact
  import C = ContentEnc

  // ---------------------------------------------------------------- decrypting

  /** The entries of a document: those of the general form, or the one of the flattened form, never both. */
  ghost predicate AreEntriesOf(doc: Document, entries: seq<Entry>) {
    if doc.recipients == [] then entries == [Entry(doc.header, doc.encryptedKey)]
    else entries == doc.recipients && doc.header == None && doc.encryptedKey == ""
  }

  /** ASCII(protected), and "." with ASCII(aad) when there is an "aad". */
  function AdditionalData(protectedSeg: string, aadSeg: string): bytes {
    OctetsOf(protectedSeg) + if aadSeg == "" then [] else [46] + OctetsOf(aadSeg)
  }

  /** What the recipients of a document share, member by member. */
  ghost predicate IsOpened(p: Primitives, doc: Document, d: Shared) {
    && AreEntriesOf(doc, d.entries)
    && (if doc.protected == "" then d.protected == map[] else DecodeHeader(p, doc.protected) == Ok(d.protected))
    && d.unprotected == OrEmpty(doc.unprotected)
    && doc.iv == EncodeSegment(d.sealed.iv) && doc.ciphertext == EncodeSegment(d.sealed.ciphertext)
    && doc.tag == EncodeSegment(d.sealed.tag)
    && (exists aad :: doc.aad == EncodeSegment(aad))
    && d.aad == AdditionalData(doc.protected, doc.aad)
  }

  lemma OpeningIsExact(p: Primitives, doc: Document, d: Shared)
    ensures Open(p, doc) == Ok(d) <==> IsOpened(p, doc, d)
  {
    hide DecodeHeader, DecodeOptional, EncodeSegment;
    OptionalIs(doc.iv, d.sealed.iv);
    OptionalIs(doc.ciphertext, d.sealed.ciphertext);
    OptionalIs(doc.tag, d.sealed.tag);
    if DecodeOptional(doc.aad).Ok? {
      OptionalIs(doc.aad, DecodeOptional(doc.aad).value);
    }
    if aad :| doc.aad == EncodeSegment(aad) {
      OptionalIs(doc.aad, aad);
    }
    assert OctetsOf(doc.protected) + [] == OctetsOf(doc.protected);
    assert OctetsOf(doc.protected) + ([46] + OctetsOf(doc.aad)) == OctetsOf(doc.protected) + [46] + OctetsOf(doc.aad);
  }

  /** Everything that has to hold for one entry to be decrypted to this plaintext, with this view. */
  ghost predicate IsOpenedBy(p: Primitives, d: Shared, r: Entry, key: KeyArg, opts: DecryptOptions, plaintext: bytes,
                             view: Header)
    requires p.Sized()
  {
    var own := OrEmpty(r.header);
    && "zip" !in d.unprotected && "zip" !in own
    && d.protected.Keys !! d.unprotected.Keys && (d.protected.Keys + d.unprotected.Keys) !! own.Keys
    && view == d.protected + d.unprotected + own
    && IsUnderstood(d.protected, opts.knownCritical)
    && exists ek :: r.encryptedKey == EncodeSegment(ek) &&
                    IsDecrypted(p, view, ek, d.sealed, d.aad, key, opts, plaintext)
  }

  lemma TrialIsExact(p: Primitives, d: Shared, r: Entry, key: KeyArg, opts: DecryptOptions, plaintext: bytes,
                     view: Header)
    requires p.Sized() && p.AesLaw() && p.GcmLaw()
    ensures TryRecipient(p, d, r, key, opts) == Ok((plaintext, view)) <==>
            IsOpenedBy(p, d, r, key, opts, plaintext, view)
  {
    hide MergeHeaders, CheckCritical, IsUnderstood, DecodeOptional, EncodeSegment, DecryptOne, IsDecrypted, p.Sized,
         p.AesLaw, p.GcmLaw;
    var own := OrEmpty(r.header);
    MergeThree(d.protected, d.unprotected, own);
    assert (d.protected + d.unprotected).Keys == d.protected.Keys + d.unprotected.Keys;
    CriticalIsUnderstood(d.protected, opts.knownCritical);
    var merged := d.protected + d.unprotected + own;
    if DecodeOptional(r.encryptedKey).Ok? {
      var ek := DecodeOptional(r.encryptedKey).value;
      OptionalIs(r.encryptedKey, ek);
      DecryptionIsExact(p, merged, ek, d.sealed, d.aad, key, opts, plaintext);
    }
    if IsOpenedBy(p, d, r, key, opts, plaintext, view) {
      var ek :| r.encryptedKey == EncodeSegment(ek) && IsDecrypted(p, view, ek, d.sealed, d.aad, key, opts, plaintext);
      OptionalIs(r.encryptedKey, ek);
    }
  }

  /** DecryptJSON succeeds exactly when some entry can be opened, and returns for one that can. */
  lemma DocumentDecryptionIsExact(p: Primitives, doc: Document, key: KeyArg, opts: DecryptOptions)
    requires p.Sized() && p.AesLaw() && p.GcmLaw()
    ensures DecryptJson(p, doc, key, opts).Ok? <==>
            exists d, i, plaintext, view :: IsOpened(p, doc, d) && 0 <= i < |d.entries| &&
                                            IsOpenedBy(p, d, d.entries[i], key, opts, plaintext, view)
    ensures DecryptJson(p, doc, key, opts).Ok? ==>
              var (plaintext, view) := DecryptJson(p, doc, key, opts).value;
              exists d, i :: IsOpened(p, doc, d) && 0 <= i < |d.entries| &&
                             IsOpenedBy(p, d, d.entries[i], key, opts, plaintext, view)
  {
    hide Open, IsOpened, IsOpenedBy, TryRecipient, TryRecipients, RecipientOrder, DecryptJson;
    hide p.Sized, p.AesLaw, p.GcmLaw;
    if DecryptJson(p, doc, key, opts).Ok? {
      var i := JweJsonProperties.OpenedEntry(p, doc, key, opts);
      SuccessOpens(p, doc, key, opts);
      var d := Open(p, doc).value;
      var (plaintext, view) := DecryptJson(p, doc, key, opts).value;
      OpeningIsExact(p, doc, d);
      TrialIsExact(p, d, d.entries[i], key, opts, plaintext, view);
    }
    if d, i, plaintext, view :| IsOpened(p, doc, d) && 0 <= i < |d.entries| &&
                                IsOpenedBy(p, d, d.entries[i], key, opts, plaintext, view) {
      OpeningIsExact(p, doc, d);
      TrialIsExact(p, d, d.entries[i], key, opts, plaintext, view);
      JweJsonProperties.DecryptIsComplete(p, doc, key, opts);
    }
  }

  lemma SuccessOpens(p: Primitives, doc: Document, key: KeyArg, opts: DecryptOptions)
    requires p.Sized() && DecryptJson(p, doc, key, opts).Ok?
    ensures Open(p, doc).Ok?
  {
  }

  /** A document that was decrypted has only critical extensions that the caller knows. */
  lemma DecryptedIsUnderstood(p: Primitives, doc: Document, key: KeyArg, opts: DecryptOptions)
    requires p.Sized() && p.AesLaw() && p.GcmLaw() && DecryptJson(p, doc, key, opts).Ok?
    ensures Open(p, doc).Ok? && IsUnderstood(Open(p, doc).value.protected, opts.knownCritical)
  {
    hide Open, IsOpened, DecryptJson, IsUnderstood, IsDecrypted, EncodeSegment;
    hide p.Sized, p.AesLaw, p.GcmLaw;
    DocumentDecryptionIsExact(p, doc, key, opts);
    var (plaintext, view) := DecryptJson(p, doc, key, opts).value;
    var d, i :| IsOpened(p, doc, d) && 0 <= i < |d.entries| &&
                IsOpenedBy(p, d, d.entries[i], key, opts, plaintext, view);
    OpeningIsExact(p, doc, d);
  }

  /** Without a wanted kid the entries are tried as they stand. */
  lemma OrderWithoutKid(rs: seq<Entry>, protected: Header, unprotected: Header, key: KeyArg)
    requires key.JwkArg? && key.jwk.Some? ==> key.jwk.value.kid == ""
    ensures var order := RecipientOrder(rs, protected, unprotected, key);
            |order| == |rs| && forall i :: 0 <= i < |rs| ==> order[i] == i
  {
  }

  // ---------------------------------------------------------------- encrypting: headers

  ghost predicate IsSharedHeader(h: Header, opts: EncryptOptions, count: nat, encName: string) {
    var given := opts.header + opts.additional;
    && (forall n :: n !in {"enc", "zip", "kid"} ==> IsCallers(h, given, n))
    && "enc" in h && h["enc"] == Str(encName)
    && (if opts.compress then "zip" in h && h["zip"] == Str("DEF") else IsCallers(h, given, "zip"))
    && (if opts.keyId != "" && count == 1 then "kid" in h && h["kid"] == Str(opts.keyId)
        else IsCallers(h, given, "kid"))
  }

  lemma SharedHeaderIs(opts: EncryptOptions, count: nat, h: Header)
    ensures SharedHeader(opts, count) == h <==> IsSharedHeader(h, opts, count, EncName(opts))
  {
    hide CopyHeader;
    CopyOfTwo(opts.header, opts.additional);
    var built := SharedHeader(opts, count);
    assert IsSharedHeader(built, opts, count, EncName(opts));
    if IsSharedHeader(h, opts, count, EncName(opts)) {
      var given := opts.header + opts.additional;
      forall n
        ensures (n in h <==> n in built) && (n in h ==> h[n] == built[n])
      {
        if n !in {"enc", "zip", "kid"} {
          assert IsCallers(h, given, n) && IsCallers(built, given, n);
        }
      }
      assert h.Keys == built.Keys;
    }
  }

  /** The recipient's parameters, with "alg", and with "kid" where the options or the JWK give one. */
  ghost predicate IsOwnHeader(h: Header, r: Recipient, alg: string, shared: Header) {
    && (forall n :: n !in {"alg", "kid"} ==> IsCallers(h, r.header, n))
    && "alg" in h && h["alg"] == Str(alg)
    && (if r.keyId != "" then "kid" in h && h["kid"] == Str(r.keyId)
        else if r.key.JwkArg? && r.key.jwk.Some? && r.key.jwk.value.kid != "" &&
                "kid" !in r.header && "kid" !in shared then
          "kid" in h && h["kid"] == Str(r.key.jwk.value.kid)
        else IsCallers(h, r.header, "kid"))
  }

  lemma OwnHeaderIs(r: Recipient, alg: string, shared: Header, h: Header)
    ensures RecipientHeader(r, alg, shared) == h <==> IsOwnHeader(h, r, alg, shared)
  {
    hide CopyHeader;
    CopyOfTwo(r.header, map[]);
    var built := RecipientHeader(r, alg, shared);
    assert IsOwnHeader(built, r, alg, shared);
    if IsOwnHeader(h, r, alg, shared) {
      forall n
        ensures (n in h <==> n in built) && (n in h ==> h[n] == built[n])
      {
        if n !in {"alg", "kid"} {
          assert IsCallers(h, r.header, n) && IsCallers(built, r.header, n);
        }
      }
      assert h.Keys == built.Keys;
    }
  }

  /** h with the shared parameters added; only "kid" may be in both, and then h's own stands. */
  ghost predicate IsFolded(h': Header, h: Header, shared: Header) {
    && (forall n :: n in h && n in shared ==> n == "kid")
    && (forall n :: n in h' <==> n in h || n in shared)
    && (forall n :: n in h ==> h'[n] == h[n])
    && (forall n :: n in shared && n !in h ==> h'[n] == shared[n])
  }

  lemma FoldIs(h: Header, shared: Header, h': Header)
    ensures Fold(h, shared) == Ok(h') <==> IsFolded(h', h, shared)
  {
    if IsFolded(h', h, shared) {
      assert h' == shared + h;
    }
  }

  // ---------------------------------------------------------------- encrypting: recipients

  /** What is decided for one recipient before its key operation; the header is what that operation starts from. */
  ghost predicate IsPlannedFor(p: Primitives, r: Recipient, encName: string, shared: Header, count: nat, k: GoKey,
                               km: Mgmt, h: Header)
  {
    && ResolveKey(p, r.key, r.keyId) == Ok(k)
    && JweExact.IsChosenAlg(r.key, k, r.algorithm, km.name) && LookupKeyMgmt(km.name) == Ok(km)
    && UsedAsPermitted(p, r.key, r.keyId, k, "enc", [km.name, encName], ["encrypt", "wrapKey", "deriveKey"])
    && (count > 1 ==> km.name != "dir" && km.name != "ECDH-ES")
    && exists own :: IsOwnHeader(own, r, km.name, shared) &&
                     if count == 1 then IsFolded(h, own, shared) else h == own
  }

  lemma PlanForIsExact(p: Primitives, r: Recipient, encName: string, shared: Header, count: nat, k: GoKey, km: Mgmt,
                       h: Header)
    ensures PlanRecipient(p, r, encName, shared, count) == Ok(RecipientPlan(k, km, h)) <==>
            IsPlannedFor(p, r, encName, shared, count, k, km, h)
  {
    hide LookupKeyMgmt, CheckJwkUsage, ResolveKey, UsedAsPermitted, RecipientHeader, IsOwnHeader, Fold, IsFolded,
         DefaultKeyMgmtAlg;
    if ResolveKey(p, r.key, r.keyId).Ok? {
      var resolved := ResolveKey(p, r.key, r.keyId).value;
      var chosen := KeyMgmtAlg(r.key, resolved, r.algorithm);
      assert chosen == Ok(km.name) <==> JweExact.IsChosenAlg(r.key, resolved, r.algorithm, km.name);
      if chosen.Ok? && LookupKeyMgmt(chosen.value).Ok? {
        KeyUsedIsKeyChecked(p, r.key, r.keyId, "enc", [chosen.value, encName], ["encrypt", "wrapKey", "deriveKey"]);
        KeyMgmtNames(chosen.value);
        var own := RecipientHeader(r, chosen.value, shared);
        forall o
          ensures own == o <==> IsOwnHeader(o, r, chosen.value, shared)
        {
          OwnHeaderIs(r, chosen.value, shared, o);
        }
        FoldIs(own, shared, h);
      }
    }
  }

  /** The CEK that recipient i is given: none for the first, then that of the recipient before. */
  function GivenCek(wrapped: seq<Wrapped>, i: nat): Option<bytes>
    requires i <= |wrapped|
  {
    if i == 0 then None else Some(wrapped[i - 1].cek)
  }

  /** Recipient i's key was wrapped as planned. */
  ghost predicate IsServed(p: Primitives, recipients: seq<Recipient>, enc: C.Enc, shared: Header, coins: seq<Coins>,
                           wrapped: seq<Wrapped>, i: nat)
    requires p.Sized() && enc.Valid() && |recipients| == |coins| && forall i :: 0 <= i < |coins| ==> coins[i].Fit()
    requires i < |wrapped| <= |recipients|
  {
    exists k, km, h :: IsPlannedFor(p, recipients[i], enc.name, shared, |recipients|, k, km, h) &&
                       IsDelivered(p, km, enc, k, h, GivenCek(wrapped, i), coins[i], wrapped[i])
  }

  lemma ServiceIs(p: Primitives, recipients: seq<Recipient>, enc: C.Enc, shared: Header, coins: seq<Coins>,
                  wrapped: seq<Wrapped>, i: nat)
    requires p.Sized() && enc.Valid() && |recipients| == |coins| && forall i :: 0 <= i < |coins| ==> coins[i].Fit()
    requires i < |wrapped| <= |recipients|
    ensures IsServed(p, recipients, enc, shared, coins, wrapped, i) <==>
            var plan := PlanRecipient(p, recipients[i], enc.name, shared, |recipients|);
            && plan.Ok?
            && EncryptKey(p, plan.value.km, enc, plan.value.key, plan.value.header, GivenCek(wrapped, i), coins[i]) ==
               Ok(wrapped[i])
  {
    hide PlanRecipient, IsPlannedFor, EncryptKey, IsDelivered, Writes, p.Sized;
    var plan := PlanRecipient(p, recipients[i], enc.name, shared, |recipients|);
    if plan.Ok? {
      var RecipientPlan(key, km, h) := plan.value;
      PlanForIsExact(p, recipients[i], enc.name, shared, |recipients|, key, km, h);
      DeliveryIsExact(p, km, enc, key, h, GivenCek(wrapped, i), coins[i], wrapped[i]);
    }
    if k, km, h :| IsPlannedFor(p, recipients[i], enc.name, shared, |recipients|, k, km, h) &&
                   IsDelivered(p, km, enc, k, h, GivenCek(wrapped, i), coins[i], wrapped[i]) {
      PlanForIsExact(p, recipients[i], enc.name, shared, |recipients|, k, km, h);
    }
  }

  /** The loop over the recipients leaves exactly the keys that each was served, and the last CEK. */
  lemma {:induction false} LoopIsExact(p: Primitives, recipients: seq<Recipient>, enc: C.Enc, shared: Header,
                                       coins: seq<Coins>, n: nat, wrapped: seq<Wrapped>)
    requires p.Sized() && enc.Valid() && n <= |recipients| == |coins| && forall i :: 0 <= i < |coins| ==> coins[i].Fit()
    requires |wrapped| == n
    ensures WrapSteps(p, recipients, enc, shared, coins, n) == Ok(Progress(GivenCek(wrapped, n), wrapped)) <==>
            forall i :: 0 <= i < n ==> IsServed(p, recipients, enc, shared, coins, wrapped, i)
    ensures WrapSteps(p, recipients, enc, shared, coins, n).Ok? ==>
              var g := WrapSteps(p, recipients, enc, shared, coins, n).value;
              g.cek == GivenCek(g.wrapped, n)
    decreases n
  {
    hide PlanRecipient, EncryptKey, IsServed, Writes, p.Sized;
    if n > 0 {
      var front := wrapped[..n - 1];
      assert wrapped == front + [wrapped[n - 1]];
      LoopIsExact(p, recipients, enc, shared, coins, n - 1, front);
      ServiceIs(p, recipients, enc, shared, coins, wrapped, n - 1);
      forall i | 0 <= i < n - 1
        ensures IsServed(p, recipients, enc, shared, coins, front, i) <==>
                IsServed(p, recipients, enc, shared, coins, wrapped, i)
      {
        ServiceIs(p, recipients, enc, shared, coins, wrapped, i);
        ServiceIs(p, recipients, enc, shared, coins, front, i);
      }
    }
  }

  // ---------------------------------------------------------------- encrypting: the document

  /** The protected header of a document: the one recipient's, or the shared one. */
  function ProtectedOf(wrapped: seq<Wrapped>, shared: Header): Header {
    if |wrapped| == 1 then wrapped[0].header else shared
  }

  /** Entry i of a document: the encrypted key, with the recipient's header if there are several. */
  ghost predicate IsEntryFor(p: Primitives, e: Entry, wrapped: seq<Wrapped>, i: nat, protected: Header,
                             unprotected: Header)
    requires i < |wrapped|
  {
    && e.encryptedKey == EncodeSegment(wrapped[i].encryptedKey)
    && if |wrapped| == 1 then e.header == None
       else && e.header == Some(wrapped[i].header) && p.headerToJson(wrapped[i].header).Some?
            && (protected.Keys + unprotected.Keys) !! wrapped[i].header.Keys
  }

  /** The sealed content of a document, as its members show it. */
  ghost predicate IsContent(p: Primitives, enc: C.Enc, cek: bytes, protected: Header, plaintext: bytes, iv: bytes,
                            doc: Document)
    requires |iv| == 16
  {
    exists body, s: C.Sealed ::
      && IsCompressed(p, protected, plaintext, body)
      && s.iv == (if enc.gcm then iv[..12] else iv)
      && C.IsSealed(p, enc, cek, body, AdditionalData(doc.protected, doc.aad), s)
      && doc.iv == EncodeSegment(s.iv) && doc.ciphertext == EncodeSegment(s.ciphertext)
      && doc.tag == EncodeSegment(s.tag)
  }

  ghost predicate IsSealedDocument(p: Primitives, plaintext: bytes, opts: EncryptOptions, enc: C.Enc, shared: Header,
                                   wrapped: seq<Wrapped>, iv: bytes, doc: Document)
    requires |iv| == 16 && wrapped != []
  {
    var protected := ProtectedOf(wrapped, shared);
    && IsProducible(protected) && protected.Keys !! opts.unprotected.Keys
    && p.headerToJson(protected).Some? && doc.protected == EncodeSegment(p.headerToJson(protected).value)
    && (if opts.unprotected == map[] then doc.unprotected == None
        else doc.unprotected == Some(opts.unprotected) && p.headerToJson(opts.unprotected).Some?)
    && |doc.recipients| == |wrapped|
    && (forall i :: 0 <= i < |wrapped| ==> IsEntryFor(p, doc.recipients[i], wrapped, i, protected, opts.unprotected))
    && doc.aad == EncodeSegment(opts.aad) && doc.header == None && doc.encryptedKey == ""
    && IsContent(p, enc, wrapped[|wrapped| - 1].cek, protected, plaintext, iv, doc)
  }

  lemma EntriesAre(p: Primitives, wrapped: seq<Wrapped>, protected: Header, unprotected: Header, entries: seq<Entry>)
    requires wrapped != [] && |entries| == |wrapped| && protected.Keys !! unprotected.Keys
    ensures (forall i :: 0 <= i < |wrapped| ==> IsEntryFor(p, entries[i], wrapped, i, protected, unprotected)) <==>
            && entries == EntriesFor(wrapped) && AllMerge(protected, unprotected, entries)
            && forall i :: 0 <= i < |entries| ==> MarshalsHeader(p, entries[i].header)
  {
    hide MergeHeaders, EncodeSegment;
    assert (protected + unprotected).Keys == protected.Keys + unprotected.Keys;
    forall i | 0 <= i < |entries|
      ensures MergeHeaders([protected, unprotected, OrEmpty(entries[i].header)]).Ok? <==>
              (protected.Keys + unprotected.Keys) !! OrEmpty(entries[i].header).Keys
    {
      MergeThree(protected, unprotected, OrEmpty(entries[i].header));
    }
    if forall i :: 0 <= i < |wrapped| ==> IsEntryFor(p, entries[i], wrapped, i, protected, unprotected) {
      forall i | 0 <= i < |entries|
        ensures entries[i] == EntryFor(wrapped[i], |wrapped|)
      {
        assert IsEntryFor(p, entries[i], wrapped, i, protected, unprotected);
      }
    }
  }

  lemma MergingNeedsDisjoint(protected: Header, unprotected: Header, entries: seq<Entry>)
    requires entries != [] && AllMerge(protected, unprotected, entries)
    ensures protected.Keys !! unprotected.Keys
  {
    hide MergeHeaders;
    MergeThree(protected, unprotected, OrEmpty(entries[0].header));
    assert MergeHeaders([protected, unprotected, OrEmpty(entries[0].header)]).Ok?;
  }

  /** The octets of the content, from the checks on the header to the members of the document. */
  lemma ContentIs(p: Primitives, enc: C.Enc, cek: bytes, protected: Header, plaintext: bytes, iv: bytes, aad: bytes,
                  doc: Document)
    requires p.Sized() && p.AesLaw() && p.GcmLaw() && enc.Valid() && |iv| == 16
    requires aad == AdditionalData(doc.protected, doc.aad)
    ensures IsContent(p, enc, cek, protected, plaintext, iv, doc) <==>
            && Compressed(p, protected, plaintext).Ok?
            && var s := C.Encrypt(p, enc, cek, Compressed(p, protected, plaintext).value, aad, iv[..enc.IvSize()]);
               && s.Ok? && doc.iv == EncodeSegment(s.value.iv) && doc.ciphertext == EncodeSegment(s.value.ciphertext)
               && doc.tag == EncodeSegment(s.value.tag)
  {
    hide C.Encrypt, C.IsSealed, EncodeSegment, p.Sized, p.AesLaw, p.GcmLaw;
    if Compressed(p, protected, plaintext).Ok? {
      var body := Compressed(p, protected, plaintext).value;
      var s := C.Encrypt(p, enc, cek, body, aad, iv[..enc.IvSize()]);
      if s.Ok? {
        SealingStep(p, enc, cek, body, aad, iv, s.value);
      }
      if IsContent(p, enc, cek, protected, plaintext, iv, doc) {
        var b, t: C.Sealed :|
          && IsCompressed(p, protected, plaintext, b) && t.iv == (if enc.gcm then iv[..12] else iv)
          && C.IsSealed(p, enc, cek, b, AdditionalData(doc.protected, doc.aad), t)
          && doc.iv == EncodeSegment(t.iv) && doc.ciphertext == EncodeSegment(t.ciphertext)
          && doc.tag == EncodeSegment(t.tag);
        SealingStep(p, enc, cek, b, aad, iv, t);
      }
    }
  }

  lemma AadIs(aad: bytes, protectedB64: string)
    ensures var aadB64 := if aad == [] then "" else EncodeSegment(aad);
            aadB64 == EncodeSegment(aad) && JweAad(protectedB64, aadB64) == AdditionalData(protectedB64, aadB64)
  {
    assert EncodeSegment([]) == "";
    var aadB64 := EncodeSegment(aad);
    assert OctetsOf(protectedB64) + ([46] + OctetsOf(aadB64)) == OctetsOf(protectedB64) + [46] + OctetsOf(aadB64);
  }

  lemma UnprotectedIs(p: Primitives, unprotected: Header, member: Option<Header>)
    ensures (if unprotected == map[] then member == None
             else member == Some(unprotected) && p.headerToJson(unprotected).Some?) <==>
            member == OrNil(unprotected) && MarshalsHeader(p, member)
  {
  }

  /** The checks on the headers, and the entries, of a document. */
  lemma ChecksAre(p: Primitives, wrapped: seq<Wrapped>, protected: Header, unprotected: Header, entries: seq<Entry>)
    requires wrapped != []
    ensures (&& IsProducible(protected) && protected.Keys !! unprotected.Keys && |entries| == |wrapped|
             && forall i :: 0 <= i < |wrapped| ==> IsEntryFor(p, entries[i], wrapped, i, protected, unprotected)) <==>
            && CheckCriticalProduced(protected).Pass? && entries == EntriesFor(wrapped)
            && AllMerge(protected, unprotected, entries)
            && forall i :: 0 <= i < |entries| ==> MarshalsHeader(p, entries[i].header)
  {
    hide CheckCriticalProduced, IsProducible, AllMerge, EntriesFor, IsEntryFor, MarshalsHeader;
    ProducibleIs(protected);
    if entries == EntriesFor(wrapped) && AllMerge(protected, unprotected, entries) {
      MergingNeedsDisjoint(protected, unprotected, entries);
    }
    if protected.Keys !! unprotected.Keys && |entries| == |wrapped| {
      EntriesAre(p, wrapped, protected, unprotected, entries);
    }
  }

  lemma SealingMakes(p: Primitives, plaintext: bytes, opts: EncryptOptions, enc: C.Enc, shared: Header,
                     wrapped: seq<Wrapped>, iv: bytes, doc: Document)
    requires p.Sized() && p.AesLaw() && p.GcmLaw() && enc.Valid() && |iv| == 16 && wrapped != []
    requires Seal(p, plaintext, opts, enc, shared, Progress(GivenCek(wrapped, |wrapped|), wrapped), iv) == Ok(doc)
    ensures IsSealedDocument(p, plaintext, opts, enc, shared, wrapped, iv, doc)
  {
    hide C.Encrypt, CheckCriticalProduced, IsProducible, AllMerge, EntriesFor, IsEntryFor, IsContent, Compressed,
         MarshalsHeader, EncodeSegment, JweAad, AdditionalData, p.Sized, p.AesLaw, p.GcmLaw;
    var protected := ProtectedOf(wrapped, shared);
    ChecksAre(p, wrapped, protected, opts.unprotected, doc.recipients);
    UnprotectedIs(p, opts.unprotected, doc.unprotected);
    var protectedB64 := EncodeSegment(p.headerToJson(protected).value);
    AadIs(opts.aad, protectedB64);
    ContentIs(p, enc, wrapped[|wrapped| - 1].cek, protected, plaintext, iv, JweAad(protectedB64, doc.aad), doc);
  }

  lemma SealingTakes(p: Primitives, plaintext: bytes, opts: EncryptOptions, enc: C.Enc, shared: Header,
                     wrapped: seq<Wrapped>, iv: bytes, doc: Document)
    requires p.Sized() && p.AesLaw() && p.GcmLaw() && enc.Valid() && |iv| == 16 && wrapped != []
    requires IsSealedDocument(p, plaintext, opts, enc, shared, wrapped, iv, doc)
    ensures Seal(p, plaintext, opts, enc, shared, Progress(GivenCek(wrapped, |wrapped|), wrapped), iv) == Ok(doc)
  {
    hide C.Encrypt, CheckCriticalProduced, IsProducible, AllMerge, EntriesFor, IsEntryFor, IsContent, Compressed,
         MarshalsHeader, EncodeSegment, JweAad, AdditionalData, p.Sized, p.AesLaw, p.GcmLaw;
    var protected := ProtectedOf(wrapped, shared);
    ChecksAre(p, wrapped, protected, opts.unprotected, doc.recipients);
    UnprotectedIs(p, opts.unprotected, doc.unprotected);
    var protectedB64 := EncodeSegment(p.headerToJson(protected).value);
    AadIs(opts.aad, protectedB64);
    ContentIs(p, enc, wrapped[|wrapped| - 1].cek, protected, plaintext, iv, JweAad(protectedB64, doc.aad), doc);
  }

  lemma SealIsExact(p: Primitives, plaintext: bytes, opts: EncryptOptions, enc: C.Enc, shared: Header,
                    wrapped: seq<Wrapped>, iv: bytes, doc: Document)
    requires p.Sized() && p.AesLaw() && p.GcmLaw() && enc.Valid() && |iv| == 16 && wrapped != []
    ensures Seal(p, plaintext, opts, enc, shared, Progress(GivenCek(wrapped, |wrapped|), wrapped), iv) == Ok(doc) <==>
            IsSealedDocument(p, plaintext, opts, enc, shared, wrapped, iv, doc)
  {
    hide Seal, IsSealedDocument, p.Sized, p.AesLaw, p.GcmLaw;
    if Seal(p, plaintext, opts, enc, shared, Progress(GivenCek(wrapped, |wrapped|), wrapped), iv) == Ok(doc) {
      SealingMakes(p, plaintext, opts, enc, shared, wrapped, iv, doc);
    }
    if IsSealedDocument(p, plaintext, opts, enc, shared, wrapped, iv, doc) {
      SealingTakes(p, plaintext, opts, enc, shared, wrapped, iv, doc);
    }
  }

  /** EncryptJSONMulti returns exactly the documents that are sealed, for recipients that were all served. */
  lemma EncryptionIsExact(p: Primitives, plaintext: bytes, opts: EncryptOptions, recipients: seq<Recipient>,
                          coins: seq<Coins>, iv: bytes, doc: Document)
    requires p.Sized() && p.AesLaw() && p.GcmLaw()
    requires |recipients| == |coins| && |iv| == 16 && forall i :: 0 <= i < |coins| ==> coins[i].Fit()
    ensures EncryptJsonMulti(p, plaintext, opts, recipients, coins, iv) == Ok(doc) <==>
            && recipients != [] && "zip" !in opts.unprotected
            && (forall i :: 0 <= i < |recipients| ==> "zip" !in recipients[i].header)
            && exists enc: C.Enc, shared, wrapped: seq<Wrapped> ::
                 && IsEncName(opts, enc.name) && C.LookupEnc(enc.name) == Ok(enc)
                 && IsSharedHeader(shared, opts, |recipients|, enc.name) && |wrapped| == |recipients|
                 && (forall i :: 0 <= i < |wrapped| ==> IsServed(p, recipients, enc, shared, coins, wrapped, i))
                 && IsSealedDocument(p, plaintext, opts, enc, shared, wrapped, iv, doc)
  {
    hide C.LookupEnc, WrapSteps, Seal, SharedHeader, IsSharedHeader, IsServed, IsSealedDocument, p.Sized, p.AesLaw,
         p.GcmLaw;
    var n := |recipients|;
    if EncryptJsonMulti(p, plaintext, opts, recipients, coins, iv) == Ok(doc) {
      var enc := C.LookupEnc(EncName(opts)).value;
      var shared := SharedHeader(opts, n);
      var g := WrapSteps(p, recipients, enc, shared, coins, n).value;
      SharedHeaderIs(opts, n, shared);
      LoopIsExact(p, recipients, enc, shared, coins, n, g.wrapped);
      SealIsExact(p, plaintext, opts, enc, shared, g.wrapped, iv, doc);
    }
    if recipients != [] {
      forall enc: C.Enc, shared, wrapped: seq<Wrapped> |
        && IsEncName(opts, enc.name) && C.LookupEnc(enc.name) == Ok(enc)
        && IsSharedHeader(shared, opts, n, enc.name) && |wrapped| == n
        && (forall i :: 0 <= i < |wrapped| ==> IsServed(p, recipients, enc, shared, coins, wrapped, i))
        && IsSealedDocument(p, plaintext, opts, enc, shared, wrapped, iv, doc)
        ensures SharedHeader(opts, n) == shared
        ensures WrapSteps(p, recipients, enc, shared, coins, n) == Ok(Progress(GivenCek(wrapped, n), wrapped))
        ensures Seal(p, plaintext, opts, enc, shared, Progress(GivenCek(wrapped, n), wrapped), iv) == Ok(doc)
      {
        SharedHeaderIs(opts, n, shared);
        LoopIsExact(p, recipients, enc, shared, coins, n, wrapped);
        SealIsExact(p, plaintext, opts, enc, shared, wrapped, iv, doc);
      }
    }
  }

  // ---------------------------------------------------------------- refusals, in the order of the checks

  /** Why an entry is refused before its key is looked at. */
  lemma RefusalsOfEntry(p: Primitives, d: Shared, r: Entry, key: KeyArg, opts: DecryptOptions)
    requires p.Sized()
    ensures var t := TryRecipient(p, d, r, key, opts);
            var own := OrEmpty(r.header);
            if "zip" in d.unprotected || "zip" in own then t == Err(InvalidHeader)
            else if !(d.protected.Keys !! d.unprotected.Keys) then t == Err(InvalidHeader)
            else if !((d.protected.Keys + d.unprotected.Keys) !! own.Keys) then t == Err(InvalidHeader)
            else if !IsUnderstood(d.protected, opts.knownCritical) then
              t == Err(InvalidCrit) || t == Err(UnprotectedCritical)
            else DecodeOptional(r.encryptedKey).Err? ==> t.Err? && t.error == DecodeOptional(r.encryptedKey).error
  {
    hide MergeHeaders, CheckCritical, IsUnderstood, DecodeOptional, DecryptOne, p.Sized;
    MergeThree(d.protected, d.unprotected, OrEmpty(r.header));
    assert (d.protected + d.unprotected).Keys == d.protected.Keys + d.unprotected.Keys;
    CriticalIsUnderstood(d.protected, opts.knownCritical);
    if !IsUnderstood(d.protected, opts.knownCritical) {
      JwsExact.CriticalRefusals(d.protected, opts.knownCritical);
    }
  }

  /** Why EncryptJSONMulti refuses before it looks at any key. */
  lemma RefusalsOfRequest(p: Primitives, plaintext: bytes, opts: EncryptOptions, recipients: seq<Recipient>,
                          coins: seq<Coins>, iv: bytes)
    requires p.Sized() && |recipients| == |coins| && |iv| == 16 && forall i :: 0 <= i < |coins| ==> coins[i].Fit()
    ensures var r := EncryptJsonMulti(p, plaintext, opts, recipients, coins, iv);
            if recipients == [] then r == Err(InvalidKey)
            else if "zip" in opts.unprotected || exists i :: 0 <= i < |recipients| && "zip" in recipients[i].header then
              r == Err(InvalidHeader)
            else C.LookupEnc(if opts.encryption == "" then "A256GCM" else opts.encryption).Err? ==>
              r == Err(UnsupportedEncryption)
  {
    hide WrapSteps, Seal, SharedHeader, C.LookupEnc, p.Sized;
    C.EncNames(EncName(opts));
  }

  /** A deriving algorithm for several recipients, and a repeated parameter for one, have errors of their own. */
  lemma RefusalsOfRecipient(p: Primitives, r: Recipient, encName: string, shared: Header, count: nat, k: GoKey,
                            km: Mgmt)
    requires ResolveKey(p, r.key, r.keyId) == Ok(k) && JweExact.IsChosenAlg(r.key, k, r.algorithm, km.name)
    requires LookupKeyMgmt(km.name) == Ok(km)
    requires UsedAsPermitted(p, r.key, r.keyId, k, "enc", [km.name, encName], ["encrypt", "wrapKey", "deriveKey"])
    ensures count > 1 && (km.name == "dir" || km.name == "ECDH-ES") ==>
              PlanRecipient(p, r, encName, shared, count) == Err(UnsupportedAlgorithm)
    ensures count == 1 && PlanRecipient(p, r, encName, shared, count).Err? ==>
              PlanRecipient(p, r, encName, shared, count) == Err(InvalidHeader)
  {
    hide LookupKeyMgmt, CheckJwkUsage, ResolveKey, UsedAsPermitted, RecipientHeader, DefaultKeyMgmtAlg;
    KeyUsedIsKeyChecked(p, r.key, r.keyId, "enc", [km.name, encName], ["encrypt", "wrapKey", "deriveKey"]);
    KeyMgmtNames(km.name);
  }
}
