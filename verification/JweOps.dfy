/** Encrypting and decrypting in the form of jwe.go and jwe_json.go: header maps and loops. */
module JweOps {
  import opened Octets
  import opened Outcomes
  import opened Keys
  import opened Primitives
  import opened Base64Url
  import opened Headers
  import opened JsonWebKeys
  import opened KeyMgmt
  import opened KeyMgmtOps
  import opened Tokens
  import opened Jwe
  import opened JweJson
  import C = ContentEnc

  // ---------------------------------------------------------------- the compact serialization

  /** The header map of Encrypt, before the key operation writes to it. */
  method BuildHeader(key: KeyArg, opts: EncryptOptions, alg: string) returns (header: HeaderMap)
    ensures fresh(header) && header.entries == CompactHeader(key, opts, alg)
  {
    hide CopyHeader;
    var copied := CopyHeaderLoop([opts.header, opts.additional]);
    header := new HeaderMap(copied);
    header.Set("alg", Str(alg));
    header.Set("enc", Str(EncName(opts)));
    if opts.keyId != "" {
      header.Set("kid", Str(opts.keyId));
    } else if JwkOf(key).kid != "" {
      if "kid" !in header.entries {
        header.Set("kid", Str(JwkOf(key).kid));
      }
    }
    if opts.compress {
      header.Set("zip", Str("DEF"));
    }
  }

  method Encrypt(p: Primitives, plaintext: bytes, key: KeyArg, opts: EncryptOptions, coins: Coins, iv: bytes)
    returns (r: Result<string>)
    requires p.Sized() && coins.Fit() && |iv| == 16
    ensures r == EncryptCompact(p, plaintext, key, opts, coins, iv)
  {
    hide ResolveKey, KeyMgmtAlg, LookupKeyMgmt, C.LookupEnc, CheckJwkUsage, CompactHeader, CheckCriticalProduced,
         EncryptKey, EncodeHeader, C.Encrypt, EncodeSegment, Join, Compressed, p.Sized;
    if opts.unprotected != map[] {
      return Err(InvalidHeader);
    }
    if |opts.aad| > 0 {
      return Err(InvalidHeader);
    }
    var resolved := ResolveKey(p, key, opts.keyId);
    if resolved.Err? {
      return Err(resolved.error);
    }
    var alg := KeyMgmtAlg(key, resolved.value, opts.algorithm);
    if alg.Err? {
      return Err(alg.error);
    }
    var km := LookupKeyMgmt(alg.value);
    if km.Err? {
      return Err(km.error);
    }
    var enc := C.LookupEnc(EncName(opts));
    if enc.Err? {
      return Err(enc.error);
    }
    var usage := CheckJwkUsageLoop(key, opts.keyId, "enc", [alg.value, EncName(opts)], ENCRYPT_OPS);
    if usage.Fail? {
      return Err(usage.error);
    }
    var header := BuildHeader(key, opts, alg.value);
    var crit := CheckCriticalProducedSteps(header.entries);
    if crit.Fail? {
      return Err(crit.error);
    }
    ghost var plan := Plan(resolved.value, km.value, enc.value, header.entries);
    assert PlanEncryption(p, key, opts) == Ok(plan);
    var wrapped := EncryptKeyInto(p, km.value, enc.value, resolved.value, header, None, coins);
    if wrapped.Err? {
      return Err(wrapped.error);
    }
    var (cek, encryptedKey) := wrapped.value;
    var body := Compressed(p, header.entries, plaintext);
    if body.Err? {
      return Err(body.error);
    }
    var protectedB64 := EncodeHeader(p, header.entries);
    if protectedB64.Err? {
      return Err(protectedB64.error);
    }
    var sealed := C.Encrypt(p, enc.value, cek, body.value, OctetsOf(protectedB64.value), iv[..enc.value.IvSize()]);
    var s := sealed.value; // the CEK has the size that enc needs, so sealing succeeds
    return Ok(Join([protectedB64.value, EncodeSegment(encryptedKey), EncodeSegment(s.iv),
                    EncodeSegment(s.ciphertext), EncodeSegment(s.tag)]));
  }

  /** The loop over the segments in DecryptWithOptions. */
  method DecodeSegments(parts: seq<string>) returns (r: Result<seq<bytes>>)
    requires |parts| == 5
    ensures r == DecodeParts(parts)
  {
    hide DecodeOptional;
    var seg: seq<bytes> := [];
    for i := 0 to 4
      invariant |seg| == i
      invariant forall k :: 0 <= k < i ==> DecodeOptional(parts[k + 1]) == Ok(seg[k])
    {
      var b := DecodeOptional(parts[i + 1]);
      if b.Err? {
        assert forall k :: 0 < k <= i ==> DecodeOptional(parts[k]) == Ok(seg[k - 1]);
        return Err(b.error);
      }
      seg := seg + [b.value];
    }
    assert seg == [seg[0], seg[1], seg[2], seg[3]];
    assert DecodeOptional(parts[0 + 1]) == Ok(seg[0]) && DecodeOptional(parts[1 + 1]) == Ok(seg[1]);
    assert DecodeOptional(parts[2 + 1]) == Ok(seg[2]) && DecodeOptional(parts[3 + 1]) == Ok(seg[3]);
    return Ok(seg);
  }

  method Decrypt(p: Primitives, token: string, key: KeyArg, opts: DecryptOptions) returns (r: Result<(bytes, Header)>)
    requires p.Sized()
    ensures r == DecryptCompact(p, token, key, opts)
  {
    hide DecodeOptional, DecodeHeader, CheckCritical, DecryptOne, Split, p.Sized;
    var parts := Split(token);
    if |parts| != 5 {
      return Err(Malformed);
    }
    var protected := DecodeHeader(p, parts[0]);
    if protected.Err? {
      return Err(protected.error);
    }
    var crit := CheckCriticalLoop(protected.value, opts.knownCritical);
    if crit.Fail? {
      return Err(crit.error);
    }
    var seg := DecodeSegments(parts);
    if seg.Err? {
      return Err(seg.error);
    }
    var body := DecryptOne(p, protected.value, seg.value[0], C.Sealed(seg.value[1], seg.value[2], seg.value[3]),
                           OctetsOf(parts[0]), key, opts);
    return if body.Ok? then Ok((body.value, protected.value)) else Err(body.error);
  }

  // ---------------------------------------------------------------- the order of trials

  method RecipientOrderLoop(rs: seq<Entry>, protected: Header, unprotected: Header, key: KeyArg)
    returns (order: seq<nat>)
    ensures order == RecipientOrder(rs, protected, unprotected, key)
  {
    var want := JwkOf(key).kid;
    if want == "" {
      order := [];
      for i := 0 to |rs|
        invariant order == Range(i)
      {
        order := order + [i];
      }
      return;
    }
    ghost var ms := KidMatches(rs, protected, unprotected, want);
    var first: seq<nat>, rest: seq<nat> := [], [];
    for i := 0 to |rs|
      invariant first == Indices(ms, true, i) && rest == Indices(ms, false, i)
    {
      var kid := KidScan(protected, unprotected, rs[i]);
      if kid == want {
        first := first + [i];
      } else {
        rest := rest + [i];
      }
    }
    order := first + rest;
  }

  /** The inner loop: the last header that names a kid wins. */
  method KidScan(protected: Header, unprotected: Header, r: Entry) returns (kid: string)
    ensures kid == EffectiveKid(protected, unprotected, r)
  {
    hide StringParam;
    var hs := [protected, unprotected, OrEmpty(r.header)];
    kid := "";
    var i := 0;
    while i < 3
      invariant 0 <= i <= 3
      invariant i == 0 ==> kid == ""
      invariant i == 1 ==> kid == StringParam(protected, "kid")
      invariant i == 2 ==> kid == if StringParam(unprotected, "kid") != "" then StringParam(unprotected, "kid")
                                  else StringParam(protected, "kid")
      invariant i == 3 ==> kid == EffectiveKid(protected, unprotected, r)
    {
      var s := StringParam(hs[i], "kid");
      if s != "" {
        kid := s;
      }
      i := i + 1;
    }
  }

  // ---------------------------------------------------------------- the JSON serializations

  method DecryptJSON(p: Primitives, doc: Document, key: KeyArg, opts: DecryptOptions)
    returns (r: Result<(bytes, Header)>)
    requires p.Sized()
    ensures r == DecryptJson(p, doc, key, opts)
  {
    hide Open, MergeHeaders, CheckCritical, DecodeOptional, DecryptOne, RecipientOrder, p.Sized;
    var parsed := Open(p, doc);
    if parsed.Err? {
      return Err(parsed.error);
    }
    var d := parsed.value;
    var order := RecipientOrderLoop(d.entries, d.protected, d.unprotected, key);
    var lastErr := DecryptFailed;
    var i := 0;
    while i < |order|
      invariant 0 <= i <= |order|
      invariant TryRecipients(p, d, order, key, opts, DecryptFailed) ==
                TryRecipients(p, d, order[i..], key, opts, lastErr)
    {
      var entry := d.entries[order[i]];
      assert order[i..][1..] == order[i + 1..];
      i := i + 1;
      var own := OrEmpty(entry.header);
      if "zip" in d.unprotected {
        lastErr := InvalidHeader;
        continue;
      }
      if "zip" in own {
        lastErr := InvalidHeader;
        continue;
      }
      var merged := MergeHeadersLoop([d.protected, d.unprotected, own]);
      if merged.Err? {
        lastErr := merged.error;
        continue;
      }
      var crit := CheckCriticalLoop(d.protected, opts.knownCritical);
      if crit.Fail? {
        lastErr := crit.error;
        continue;
      }
      var ek := DecodeOptional(entry.encryptedKey);
      if ek.Err? {
        lastErr := ek.error;
        continue;
      }
      var body := DecryptOne(p, merged.value, ek.value, d.sealed, d.aad, key, opts);
      if body.Err? {
        lastErr := body.error;
        continue;
      }
      return Ok((body.value, merged.value));
    }
    return Err(lastErr);
  }

  /** The loop that folds the shared parameters into a single recipient's header. */
  method FoldInto(rh: HeaderMap, shared: Header) returns (r: Outcome)
    modifies rh
    ensures match Fold(old(rh.entries), shared)
            case Ok(h) => r == Pass && rh.entries == h
            case Err(e) => r == Fail(e)
  {
    ghost var own := rh.entries;
    var keys := shared.Keys;
    while keys != {}
      invariant keys <= shared.Keys
      invariant rh.entries.Keys == own.Keys + (shared.Keys - keys)
      invariant forall k :: k in own ==> rh.entries[k] == own[k]
      invariant forall k :: k in shared.Keys - keys && k !in own ==> rh.entries[k] == shared[k]
      invariant forall k :: k in shared.Keys - keys && k in own ==> k == "kid"
      decreases keys
    {
      var k :| k in keys;
      keys := keys - {k};
      if k in rh.entries {
        if k != "kid" {
          return Fail(InvalidHeader);
        }
        continue;
      }
      rh.Set(k, shared[k]);
    }
    assert rh.entries == shared + own;
    return Pass;
  }

  /** The shared header map; the caller's maps are only copied from. */
  method BuildShared(opts: EncryptOptions, count: nat) returns (protected: HeaderMap)
    ensures fresh(protected) && protected.entries == SharedHeader(opts, count)
  {
    hide CopyHeader;
    var copied := CopyHeaderLoop([opts.header, opts.additional]);
    protected := new HeaderMap(copied);
    protected.Set("enc", Str(EncName(opts)));
    if opts.compress {
      protected.Set("zip", Str("DEF"));
    }
    if opts.keyId != "" && count == 1 {
      protected.Set("kid", Str(opts.keyId));
    }
  }

  /** A recipient's own header map, written to by the key operation later. */
  method BuildRecipientHeader(r: Recipient, alg: string, shared: Header) returns (rh: HeaderMap)
    ensures fresh(rh) && rh.entries == RecipientHeader(r, alg, shared)
  {
    hide CopyHeader;
    var copied := CopyHeaderLoop([r.header]);
    rh := new HeaderMap(copied);
    rh.Set("alg", Str(alg));
    if r.keyId != "" {
      rh.Set("kid", Str(r.keyId));
    } else if JwkOf(r.key).kid != "" {
      if "kid" !in rh.entries {
        if "kid" !in shared {
          rh.Set("kid", Str(JwkOf(r.key).kid));
        }
      }
    }
  }

  /** The loop body up to the key operation. */
  method PrepareRecipient(p: Primitives, r: Recipient, encName: string, shared: Header, count: nat)
    returns (key: GoKey, km: Result<Mgmt>, rh: HeaderMap)
    ensures fresh(rh)
    ensures match PlanRecipient(p, r, encName, shared, count)
            case Ok(plan) => key == plan.key && km == Ok(plan.km) && rh.entries == plan.header
            case Err(e) => km == Err(e)
  {
    hide ResolveKey, KeyMgmtAlg, LookupKeyMgmt, CheckJwkUsage, RecipientHeader;
    key := OtherKey;
    rh := new HeaderMap(map[]);
    var resolved := ResolveKey(p, r.key, r.keyId);
    if resolved.Err? {
      km := Err(resolved.error);
      return;
    }
    key := resolved.value;
    var alg := KeyMgmtAlg(r.key, key, r.algorithm);
    if alg.Err? {
      km := Err(alg.error);
      return;
    }
    km := LookupKeyMgmt(alg.value);
    if km.Err? {
      return;
    }
    var usage := CheckJwkUsageLoop(r.key, r.keyId, "enc", [alg.value, encName], ENCRYPT_OPS);
    if usage.Fail? {
      km := Err(usage.error);
      return;
    }
    if km.value.DerivesCek() && count > 1 {
      km := Err(UnsupportedAlgorithm);
      return;
    }
    rh := BuildRecipientHeader(r, alg.value, shared);
    if count == 1 {
      var folded := FoldInto(rh, shared);
      if folded.Fail? {
        km := Err(folded.error);
      }
    }
  }

  /** An early error of the loop is the error of the whole. */
  lemma {:induction false} WrapStepsFail(p: Primitives, recipients: seq<Recipient>, enc: C.Enc, shared: Header,
                                         coins: seq<Coins>, n: nat)
    requires p.Sized() && enc.Valid() && n <= |recipients| == |coins| && forall i :: 0 <= i < |coins| ==> coins[i].Fit()
    requires WrapSteps(p, recipients, enc, shared, coins, n).Err?
    ensures WrapSteps(p, recipients, enc, shared, coins, |recipients|) ==
            WrapSteps(p, recipients, enc, shared, coins, n)
    decreases |recipients| - n
  {
    hide PlanRecipient, EncryptKey, p.Sized;
    if n < |recipients| {
      WrapStepsFail(p, recipients, enc, shared, coins, n + 1);
    }
  }

  lemma EmptySteps(p: Primitives, recipients: seq<Recipient>, enc: C.Enc, shared: Header, coins: seq<Coins>)
    requires p.Sized() && enc.Valid() && |recipients| == |coins| && forall i :: 0 <= i < |coins| ==> coins[i].Fit()
    ensures WrapSteps(p, recipients, enc, shared, coins, 0) == Ok(Progress(None, []))
  {
  }

  /** One turn of the loop. */
  lemma WrapStepsNext(p: Primitives, recipients: seq<Recipient>, enc: C.Enc, shared: Header, coins: seq<Coins>, n: nat)
    requires p.Sized() && enc.Valid() && n < |recipients| == |coins| && forall i :: 0 <= i < |coins| ==> coins[i].Fit()
    requires WrapSteps(p, recipients, enc, shared, coins, n).Ok?
    ensures var before := WrapSteps(p, recipients, enc, shared, coins, n).value;
            var after := WrapSteps(p, recipients, enc, shared, coins, n + 1);
            match PlanRecipient(p, recipients[n], enc.name, shared, |recipients|)
            case Err(e) => after == Err(e)
            case Ok(plan) =>
              match EncryptKey(p, plan.km, enc, plan.key, plan.header, before.cek, coins[n])
              case Err(e) => after == Err(e)
              case Ok(w) => after == Ok(Progress(Some(w.cek), before.wrapped + [w]))
  {
    hide PlanRecipient, EncryptKey, p.Sized, Writes;
  }

  /** The loop over the recipients: the CEK, the protected header and the entries it leaves. */
  method WrapForAll(p: Primitives, recipients: seq<Recipient>, enc: C.Enc, shared: HeaderMap, coins: seq<Coins>)
    returns (r: Result<bytes>, protected: HeaderMap, entries: seq<Entry>)
    requires p.Sized() && enc.Valid() && 0 < |recipients| == |coins| && forall i :: 0 <= i < |coins| ==> coins[i].Fit()
    ensures shared.entries == old(shared.entries)
    ensures match WrapSteps(p, recipients, enc, shared.entries, coins, |recipients|)
            case Ok(g) => g.cek.Some? && r == Ok(g.cek.value) && entries == EntriesFor(g.wrapped) &&
                          protected.entries == FinalHeader(g.wrapped, shared.entries)
            case Err(e) => r == Err(e)
  {
    hide WrapSteps, PlanRecipient, EncryptKey, EncodeSegment, p.Sized, Writes;
    EmptySteps(p, recipients, enc, shared.entries, coins);
    var count := |recipients|;
    ghost var h := shared.entries;
    protected := shared;
    entries := [];
    var cek: Option<bytes> := None;
    ghost var g := Progress(None, []);
    var i := 0;
    while i < count
      invariant 0 <= i <= count && shared.entries == h
      invariant WrapSteps(p, recipients, enc, h, coins, i) == Ok(g) && cek == g.cek
      invariant |entries| == i && forall k :: 0 <= k < i ==> entries[k] == EntryFor(g.wrapped[k], count)
      invariant protected.entries == if count == 1 && i == 1 then g.wrapped[0].header else h
    {
      WrapStepsNext(p, recipients, enc, h, coins, i);
      var key, km, rh := PrepareRecipient(p, recipients[i], enc.name, protected.entries, count);
      if km.Err? {
        WrapStepsFail(p, recipients, enc, h, coins, i + 1);
        return Err(km.error), protected, entries;
      }
      var delivered := EncryptKeyInto(p, km.value, enc, key, rh, cek, coins[i]);
      if delivered.Err? {
        WrapStepsFail(p, recipients, enc, h, coins, i + 1);
        return Err(delivered.error), protected, entries;
      }
      var (newCek, encryptedKey) := delivered.value;
      cek := Some(newCek);
      g := Progress(cek, g.wrapped + [Wrapped(newCek, encryptedKey, rh.entries)]);
      if count == 1 {
        protected := rh;
        entries := entries + [Entry(None, EncodeSegment(encryptedKey))];
      } else {
        entries := entries + [Entry(Some(rh.entries), EncodeSegment(encryptedKey))];
      }
      i := i + 1;
    }
    assert entries == EntriesFor(g.wrapped);
    return Ok(cek.value), protected, entries;
  }

  method CheckMerges(protected: Header, unprotected: Header, entries: seq<Entry>) returns (ok: bool)
    ensures ok == AllMerge(protected, unprotected, entries)
  {
    hide MergeHeaders;
    for i := 0 to |entries|
      invariant forall k :: 0 <= k < i ==> MergeHeaders([protected, unprotected, OrEmpty(entries[k].header)]).Ok?
    {
      var merged := MergeHeadersLoop([protected, unprotected, OrEmpty(entries[i].header)]);
      if merged.Err? {
        return false;
      }
    }
    return true;
  }

  method EncryptJSONMulti(p: Primitives, plaintext: bytes, opts: EncryptOptions, recipients: seq<Recipient>,
                          coins: seq<Coins>, iv: bytes)
    returns (r: Result<Document>)
    requires p.Sized() && |recipients| == |coins| && |iv| == 16 && forall i :: 0 <= i < |coins| ==> coins[i].Fit()
    ensures r == EncryptJsonMulti(p, plaintext, opts, recipients, coins, iv)
  {
    hide C.LookupEnc, WrapSteps, SharedHeader, CheckCriticalProduced, AllMerge, Compressed, EncodeHeader, C.Encrypt,
         EncodeSegment, JweAad, FinalHeader, EntriesFor, Marshals, p.Sized;
    if |recipients| == 0 {
      return Err(InvalidKey);
    }
    if "zip" in opts.unprotected {
      return Err(InvalidHeader);
    }
    for i := 0 to |recipients|
      invariant forall k :: 0 <= k < i ==> "zip" !in recipients[k].header
    {
      if "zip" in recipients[i].header {
        return Err(InvalidHeader);
      }
    }
    var enc := C.LookupEnc(EncName(opts));
    if enc.Err? {
      return Err(enc.error);
    }
    var shared := BuildShared(opts, |recipients|);
    var cek, protected, entries := WrapForAll(p, recipients, enc.value, shared, coins);
    if cek.Err? {
      return Err(cek.error);
    }
    var crit := CheckCriticalProducedSteps(protected.entries);
    if crit.Fail? {
      return Err(crit.error);
    }
    var merges := CheckMerges(protected.entries, opts.unprotected, entries);
    if !merges {
      return Err(InvalidHeader);
    }
    var body := Compressed(p, protected.entries, plaintext);
    if body.Err? {
      return Err(body.error);
    }
    var protectedB64 := EncodeHeader(p, protected.entries);
    if protectedB64.Err? {
      return Err(protectedB64.error);
    }
    var aadB64 := "";
    if |opts.aad| > 0 {
      aadB64 := EncodeSegment(opts.aad);
    }
    var aad := JweAad(protectedB64.value, aadB64);
    var sealed := C.Encrypt(p, enc.value, cek.value, body.value, aad, iv[..enc.value.IvSize()]);
    if sealed.Err? {
      return Err(sealed.error);
    }
    var s := sealed.value;
    var doc := Document(protectedB64.value, OrNil(opts.unprotected), entries, aadB64, EncodeSegment(s.iv),
                        EncodeSegment(s.ciphertext), EncodeSegment(s.tag), None, "");
    return if Marshals(p, doc) then Ok(doc) else Err(Library);
  }
}
