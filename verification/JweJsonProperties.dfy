/** What holds of the JSON serializations of a JWE, for any number and mix of recipients. */
module JweJsonProperties {
  import opened Octets
  import opened Outcomes
  import opened Keys
  import opened Primitives
  import opened Base64Url
  import opened Headers
  import opened JsonWebKeys
  import opened KeyMgmt
  import opened Jwe
  import opened JweProperties
  import opened JweJson
  import C = ContentEnc
  import ConcatKdf

  // ---------------------------------------------------------------- trial decryption is complete

  /** Each element of the whole is in one of the two parts, as often as in the whole. */
  ghost predicate Parts(a: seq<nat>, b: seq<nat>, whole: seq<nat>) {
    multiset(a) + multiset(b) == multiset(whole)
  }

  lemma AddToFirst(a: seq<nat>, b: seq<nat>, whole: seq<nat>, x: nat)
    requires Parts(a, b, whole)
    ensures Parts(a + [x], b, whole + [x])
  {
  }

  lemma AddToSecond(a: seq<nat>, b: seq<nat>, whole: seq<nat>, x: nat)
    requires Parts(a, b, whole)
    ensures Parts(a, b + [x], whole + [x])
  {
  }

  /** One index more goes to the side that it matches. */
  lemma IndicesStep(ms: seq<bool>, n: nat)
    requires 0 < n <= |ms|
    ensures Indices(ms, ms[n - 1], n) == Indices(ms, ms[n - 1], n - 1) + [n - 1]
    ensures Indices(ms, !ms[n - 1], n) == Indices(ms, !ms[n - 1], n - 1)
    ensures Range(n) == Range(n - 1) + [n - 1]
  {
  }

  lemma NoIndices(ms: seq<bool>)
    ensures Parts(Indices(ms, true, 0), Indices(ms, false, 0), Range(0))
  {
  }

  lemma {:induction false} IndicesPartition(ms: seq<bool>, n: nat)
    requires n <= |ms|
    ensures Parts(Indices(ms, true, n), Indices(ms, false, n), Range(n))
  {
    hide Indices, Range, Parts;
    if n == 0 {
      NoIndices(ms);
    } else {
      var yes, no, whole := Indices(ms, true, n - 1), Indices(ms, false, n - 1), Range(n - 1);
      IndicesPartition(ms, n - 1);
      IndicesStep(ms, n);
      if ms[n - 1] {
        AddToFirst(yes, no, whole, n - 1);
        assert Indices(ms, true, n) == yes + [n - 1] && Indices(ms, false, n) == no;
      } else {
        AddToSecond(yes, no, whole, n - 1);
        assert Indices(ms, true, n) == yes && Indices(ms, false, n) == no + [n - 1];
      }
    }
  }

  /** Every recipient is tried exactly once. */
  lemma OrderIsPermutation(rs: seq<Entry>, protected: Header, unprotected: Header, key: KeyArg)
    ensures multiset(RecipientOrder(rs, protected, unprotected, key)) == multiset(Range(|rs|))
  {
    IndicesPartition(KidMatches(rs, protected, unprotected, WantedKid(key)), |rs|);
  }

  predicate Increasing(s: seq<nat>) {
    forall i, j :: 0 <= i < j < |s| ==> s[i] < s[j]
  }

  lemma {:induction false} IndicesIncrease(ms: seq<bool>, wanted: bool, n: nat)
    requires n <= |ms|
    ensures Increasing(Indices(ms, wanted, n))
    ensures forall i :: 0 <= i < |Indices(ms, wanted, n)| ==> ms[Indices(ms, wanted, n)[i]] == wanted
  {
    if n != 0 {
      IndicesIncrease(ms, wanted, n - 1);
    }
  }

  /** s puts the recipients with the wanted kid first, each group in the document's order. */
  ghost predicate StablePartition(s: seq<nat>, rs: seq<Entry>, protected: Header, unprotected: Header, want: string,
                                  k: nat)
  {
    && k <= |s| && Increasing(s[..k]) && Increasing(s[k..])
    && forall i :: 0 <= i < |s| ==> s[i] < |rs| && ((EffectiveKid(protected, unprotected, rs[s[i]]) == want) <==> i < k)
  }

  lemma OrderIsStablePartition(rs: seq<Entry>, protected: Header, unprotected: Header, key: KeyArg)
    requires WantedKid(key) != ""
    ensures var order := RecipientOrder(rs, protected, unprotected, key);
            exists k :: StablePartition(order, rs, protected, unprotected, WantedKid(key), k)
  {
    hide EffectiveKid;
    var ms := KidMatches(rs, protected, unprotected, WantedKid(key));
    var first, rest := Indices(ms, true, |rs|), Indices(ms, false, |rs|);
    IndicesIncrease(ms, true, |rs|);
    IndicesIncrease(ms, false, |rs|);
    assert (first + rest)[..|first|] == first && (first + rest)[|first|..] == rest;
    assert RecipientOrder(rs, protected, unprotected, key) == first + rest;
    assert StablePartition(first + rest, rs, protected, unprotected, WantedKid(key), |first|);
  }

  /** Trying recipients in turn finds the first that opens, or reports the last error. */
  lemma {:induction false} TryRecipientsIsFirst(p: Primitives, d: Shared, order: seq<nat>, key: KeyArg,
                                                opts: DecryptOptions, lastErr: Error)
    requires p.Sized() && forall i :: 0 <= i < |order| ==> order[i] < |d.entries|
    ensures var r := TryRecipients(p, d, order, key, opts, lastErr);
            && (r.Ok? ==>
                  exists i :: 0 <= i < |order| && TryRecipient(p, d, d.entries[order[i]], key, opts) == r &&
                              forall j :: 0 <= j < i ==> TryRecipient(p, d, d.entries[order[j]], key, opts).Err?)
            && (r.Err? ==> forall j :: 0 <= j < |order| ==> TryRecipient(p, d, d.entries[order[j]], key, opts).Err?)
            && (r.Err? ==> r.error == if order == [] then lastErr
                                      else TryRecipient(p, d, d.entries[order[|order| - 1]], key, opts).error)
  {
    hide TryRecipient;
    if order != [] {
      var one := TryRecipient(p, d, d.entries[order[0]], key, opts);
      if one.Err? {
        var tail := order[1..];
        assert forall j :: 0 < j < |order| ==> order[j] == tail[j - 1];
        TryRecipientsIsFirst(p, d, tail, key, opts, one.error);
        var r := TryRecipients(p, d, tail, key, opts, one.error);
        if r.Ok? {
          var i :| 0 <= i < |tail| && TryRecipient(p, d, d.entries[tail[i]], key, opts) == r &&
                   forall j :: 0 <= j < i ==> TryRecipient(p, d, d.entries[tail[j]], key, opts).Err?;
          assert TryRecipient(p, d, d.entries[order[i + 1]], key, opts) == r;
        }
      }
    }
  }

  /** Decryption succeeds exactly when some recipient's own checks pass. */
  lemma DecryptIsComplete(p: Primitives, doc: Document, key: KeyArg, opts: DecryptOptions)
    requires p.Sized() && Open(p, doc).Ok?
    ensures var d := Open(p, doc).value;
            DecryptJson(p, doc, key, opts).Ok? <==>
            exists i :: 0 <= i < |d.entries| && TryRecipient(p, d, d.entries[i], key, opts).Ok?
  {
    hide Open, TryRecipient, RecipientOrder;
    var d := Open(p, doc).value;
    var order := RecipientOrder(d.entries, d.protected, d.unprotected, key);
    OrderIsPermutation(d.entries, d.protected, d.unprotected, key);
    TryRecipientsIsFirst(p, d, order, key, opts, DecryptFailed);
    if i :| 0 <= i < |d.entries| && TryRecipient(p, d, d.entries[i], key, opts).Ok? {
      assert i == Range(|d.entries|)[i];
      assert i in multiset(order);
      var k :| 0 <= k < |order| && order[k] == i;
    }
  }

  // ---------------------------------------------------------------- one CEK for every recipient

  /** Recipient i's plan and wrapped key, as the loop made them with the CEK of the document. */
  ghost predicate Delivered(p: Primitives, r: Recipient, enc: C.Enc, shared: Header, count: nat, coins: Coins,
                            cek: bytes, w: Wrapped)
    requires p.Sized() && enc.Valid() && coins.Fit()
  {
    var plan := PlanRecipient(p, r, enc.name, shared, count);
    && plan.Ok? && w.cek == cek
    && (EncryptKey(p, plan.value.km, enc, plan.value.key, plan.value.header, None, coins) == Ok(w) ||
        EncryptKey(p, plan.value.km, enc, plan.value.key, plan.value.header, Some(cek), coins) == Ok(w))
  }

  /** The loop invariant: one CEK of the right size, delivered to every recipient so far. */
  lemma {:induction false} OneCekForAll(p: Primitives, recipients: seq<Recipient>, enc: C.Enc, shared: Header,
                                        coins: seq<Coins>, n: nat)
    requires p.Sized() && enc.Valid() && n <= |recipients| == |coins| && forall i :: 0 <= i < |coins| ==> coins[i].Fit()
    requires WrapSteps(p, recipients, enc, shared, coins, n).Ok?
    ensures var g := WrapSteps(p, recipients, enc, shared, coins, n).value;
            && (g.cek.Some? ==> |g.cek.value| == enc.keySize)
            && forall i :: 0 <= i < n ==>
                 Delivered(p, recipients[i], enc, shared, |recipients|, coins[i], g.cek.value, g.wrapped[i])
  {
    hide PlanRecipient, EncryptKey;
    if n != 0 {
      OneCekForAll(p, recipients, enc, shared, coins, n - 1);
      var before := WrapSteps(p, recipients, enc, shared, coins, n - 1).value;
      var plan := PlanRecipient(p, recipients[n - 1], enc.name, shared, |recipients|).value;
      var g := WrapSteps(p, recipients, enc, shared, coins, n).value;
      forall i | 0 <= i < n
        ensures Delivered(p, recipients[i], enc, shared, |recipients|, coins[i], g.cek.value, g.wrapped[i])
      {
        if i < n - 1 {
          assert Delivered(p, recipients[i], enc, shared, |recipients|, coins[i], before.cek.value, before.wrapped[i]);
        }
      }
    }
  }

  // ---------------------------------------------------------------- one recipient of many

  /** The headers around recipient i: what is protected, and what it carries itself. */
  function ProtectedFor(w: Header, shared: Header, count: nat): Header {
    if count == 1 then w else shared
  }

  function OwnFor(w: Header, count: nat): Header {
    if count == 1 then map[] else w
  }

  /** The view that recipient i merges, when its own header is h. */
  function ViewOf(h: Header, shared: Header, unprotected: Header, count: nat): Header {
    ProtectedFor(h, shared, count) + unprotected + OwnFor(h, count)
  }

  /** The headers of the document that encryptKey does not see when it serves recipient i. */
  function Unseen(shared: Header, unprotected: Header, count: nat): Header {
    if count == 1 then unprotected else shared + unprotected
  }

  /**
   The sender reads "apu" and "apv" from the recipient's own header alone (with the shared one
   folded in for a single recipient), but the recipient from the view it merges. So key
   agreement needs that no party information sits where the sender does not look.
   */
  predicate PartyInfoIsSeen(km: Mgmt, shared: Header, unprotected: Header, count: nat) {
    km.kind.EcdhKind? ==>
      forall n :: n in {"apu", "apv"} && n in Unseen(shared, unprotected, count) ==>
        Unseen(shared, unprotected, count)[n] == Str("")
  }

  /** Recipient r's holder has the matching key, and its options admit what the sender chose. */
  ghost predicate AdmitsRecipient(p: Primitives, r: Recipient, enc: C.Enc, shared: Header, unprotected: Header,
                                  count: nat, dkey: KeyArg, dopts: DecryptOptions)
  {
    var plan := PlanRecipient(p, r, enc.name, shared, count);
    && plan.Ok?
    && PartyInfoIsSeen(plan.value.km, shared, unprotected, count)
    && Admits(p, plan.value.km, enc, plan.value.key,
              StringParam(ViewOf(plan.value.header, shared, unprotected, count), "kid"), dkey, dopts)
    && forall n :: n in DeclaredCritical(ProtectedFor(plan.value.header, shared, count)) ==> n in dopts.knownCritical
  }

  lemma RecipientHeaderAlg(r: Recipient, alg: string, shared: Header)
    ensures var h := RecipientHeader(r, alg, shared); "alg" in h && h["alg"] == Str(alg)
  {
    hide CopyHeader;
  }

  lemma PlanNames(p: Primitives, r: Recipient, encName: string, shared: Header, count: nat)
    requires PlanRecipient(p, r, encName, shared, count).Ok?
    requires "enc" in shared && shared["enc"] == Str(encName)
    ensures var plan := PlanRecipient(p, r, encName, shared, count).value;
            && LookupKeyMgmt(plan.km.name) == Ok(plan.km)
            && "alg" in plan.header && plan.header["alg"] == Str(plan.km.name)
            && (count == 1 ==> "enc" in plan.header && plan.header["enc"] == Str(encName))
  {
    hide LookupKeyMgmt, CheckJwkUsage, ResolveKey, KeyMgmtAlg, RecipientHeader;
    var resolved := ResolveKey(p, r.key, r.keyId).value;
    var alg := KeyMgmtAlg(r.key, resolved, r.algorithm).value;
    RecipientHeaderAlg(r, alg, shared);
    var own := RecipientHeader(r, alg, shared);
    if count == 1 {
      assert !(exists k :: k in shared && k in own && k != "kid");
      assert "enc" !in own;
    }
  }

  /** The merged view names the sender's algorithms and the kid it chose. */
  lemma ViewNames(plan: RecipientPlan, h': Header, encName: string, shared: Header, unprotected: Header, count: nat)
    requires Writes(plan.header, h', plan.km.Outputs())
    requires "enc" in shared && shared["enc"] == Str(encName)
    requires "alg" in plan.header && plan.header["alg"] == Str(plan.km.name)
    requires count == 1 ==> "enc" in plan.header && plan.header["enc"] == Str(encName)
    requires MergeHeaders([ProtectedFor(h', shared, count), unprotected, OwnFor(h', count)]).Ok?
    ensures var view := ViewOf(h', shared, unprotected, count);
            && MergeHeaders([ProtectedFor(h', shared, count), unprotected, OwnFor(h', count)]) == Ok(view)
            && StringParam(view, "alg") == plan.km.name && StringParam(view, "enc") == encName
            && StringParam(view, "kid") == StringParam(ViewOf(plan.header, shared, unprotected, count), "kid")
            && forall n :: n in h' ==> n in view && view[n] == h'[n]
  {
    hide CheckCriticalProduced, DeclaredCritical, MergeHeaders, Writes;
    MergeThree(ProtectedFor(h', shared, count), unprotected, OwnFor(h', count));
    WritingKeepsHeader(plan.header, h', plan.km);
  }

  /** Empty party information is what an empty string, and nothing else, spells. */
  lemma UnseenBytes(h: Header, n: string)
    ensures HeaderBytesOptional(h, n) == Ok([]) <==> n !in h || h[n] == Str("")
  {
    if n in h && h[n].Str? {
      if h[n].text == "" {
        DecodeEncoded([]);
        assert EncodeSegment([]) == "";
      } else if DecodeSegment(h[n].text) == Ok([]) {
        OnlyEmptyDecodesToNothing(h[n].text);
      }
    }
  }

  /** The recipient reads n from the header the sender read, or from one the sender did not see. */
  lemma ViewBytes(p: Primitives, h': Header, shared: Header, unprotected: Header, count: nat, n: string)
    requires MergeHeaders([ProtectedFor(h', shared, count), unprotected, OwnFor(h', count)]).Ok?
    ensures HeaderBytesOptional(p.Received(ViewOf(h', shared, unprotected, count)), n) ==
            HeaderBytesOptional(if n in h' then h' else Unseen(shared, unprotected, count), n)
  {
    hide MergeHeaders, DecodeSegment;
    MergeThree(ProtectedFor(h', shared, count), unprotected, OwnFor(h', count));
  }

  /** Both sides see the same party information exactly when none of it is unseen. */
  lemma PartyInfoInView(p: Primitives, km: Mgmt, h': Header, shared: Header, unprotected: Header, count: nat)
    requires km.kind.EcdhKind?
    requires MergeHeaders([ProtectedFor(h', shared, count), unprotected, OwnFor(h', count)]).Ok?
    ensures var got := p.Received(ViewOf(h', shared, unprotected, count));
            && (SamePartyInfo(h', got) <==> PartyInfoIsSeen(km, shared, unprotected, count))
            && forall n :: n in {"apu", "apv"} ==>
                 HeaderBytesOptional(h', n) == Ok([]) || HeaderBytesOptional(h', n) == HeaderBytesOptional(got, n)
  {
    hide MergeHeaders, HeaderBytesOptional, ViewOf;
    var got, unseen := p.Received(ViewOf(h', shared, unprotected, count)), Unseen(shared, unprotected, count);
    forall n | n in {"apu", "apv"}
      ensures HeaderBytesOptional(got, n) == HeaderBytesOptional(if n in h' then h' else unseen, n)
      ensures n !in h' ==> HeaderBytesOptional(h', n) == Ok([])
      ensures HeaderBytesOptional(unseen, n) == Ok([]) <==> n !in unseen || unseen[n] == Str("")
      ensures n in h' ==> n !in unseen
    {
      ViewBytes(p, h', shared, unprotected, count, n);
      UnseenBytes(h', n);
      UnseenBytes(unseen, n);
      MergeThree(ProtectedFor(h', shared, count), unprotected, OwnFor(h', count));
    }
    assert "apu" in {"apu", "apv"} && "apv" in {"apu", "apv"};
  }

  /** ... and then, and only then, they feed the KDF the same input. */
  lemma PartyInfoCondition(p: Primitives, km: Mgmt, enc: C.Enc, h': Header, shared: Header, unprotected: Header,
                           count: nat)
    requires km.kind.EcdhKind? && KdfInput(km, enc, h').Ok?
    requires MergeHeaders([ProtectedFor(h', shared, count), unprotected, OwnFor(h', count)]).Ok?
    ensures KdfInput(km, enc, p.Received(ViewOf(h', shared, unprotected, count))) == KdfInput(km, enc, h') <==>
            PartyInfoIsSeen(km, shared, unprotected, count)
  {
    hide MergeHeaders, HeaderBytesOptional, ConcatKdf.OtherInfo, ViewOf, PartyInfoIsSeen;
    PartyInfoInView(p, km, h', shared, unprotected, count);
    var got := p.Received(ViewOf(h', shared, unprotected, count));
    assert "apu" in {"apu", "apv"} && "apv" in {"apu", "apv"};
    if KdfInput(km, enc, got).Ok? {
      var (algID, keyLen) := EcdhAlgId(km, enc);
      MorePartyInfoChangesInput(algID, HeaderBytesOptional(h', "apu").value, HeaderBytesOptional(h', "apv").value,
                                HeaderBytesOptional(got, "apu").value, HeaderBytesOptional(got, "apv").value, keyLen);
    }
  }

  /** The recipient sees every parameter of the algorithm as the sender left it. */
  lemma ViewShowsParams(p: Primitives, plan: RecipientPlan, h': Header, shared: Header, unprotected: Header, count: nat)
    requires Writes(plan.header, h', plan.km.Outputs()) && PartyInfoIsSeen(plan.km, shared, unprotected, count)
    requires MergeHeaders([ProtectedFor(h', shared, count), unprotected, OwnFor(h', count)]).Ok?
    requires var view := ViewOf(h', shared, unprotected, count); forall n :: n in h' ==> n in view && view[n] == h'[n]
    ensures Visible(p, plan.km, h', p.Received(ViewOf(h', shared, unprotected, count)))
  {
    hide p.ReceivedValue, CheckCriticalProduced, DeclaredCritical, HeaderBytesOptional, MergeHeaders, PartyInfoIsSeen,
         SamePartyInfo;
    if plan.km.kind.EcdhKind? {
      PartyInfoInView(p, plan.km, h', shared, unprotected, count);
    }
  }

  function ReceivedEntry(p: Primitives, e: Entry): Entry {
    e.(header := ReceivedHeader(p, e.header))
  }

  /** Only the protected header decides about "zip". */
  lemma ZipIsProtected(p: Primitives, protected: Header, unprotected: Header, own: Header, body: bytes,
                       opts: DecryptOptions)
    requires "zip" !in unprotected && "zip" !in own
    ensures MaybeInflate(p, p.Received(protected + unprotected + own), body, opts) ==
            MaybeInflate(p, p.Received(protected), body, opts)
  {
    var view := protected + unprotected + own;
    assert "zip" in view <==> "zip" in protected;
    assert "zip" in protected ==> view["zip"] == protected["zip"];
  }

  /** Recipient i recovers the document's CEK from the view it merges. */
  lemma RecipientRecoversCek(p: Primitives, r: Recipient, enc: C.Enc, shared: Header, unprotected: Header, count: nat,
                             coins: Coins, cek: bytes, w: Wrapped, dkey: KeyArg, dopts: DecryptOptions)
    requires p.Lawful() && enc.Valid() && coins.Fit() && C.LookupEnc(enc.name) == Ok(enc) && |cek| == enc.keySize
    requires "enc" in shared && shared["enc"] == Str(enc.name)
    requires Delivered(p, r, enc, shared, count, coins, cek, w)
    requires AdmitsRecipient(p, r, enc, shared, unprotected, count, dkey, dopts)
    requires MergeHeaders([ProtectedFor(w.header, shared, count), unprotected, OwnFor(w.header, count)]).Ok?
    ensures var view := ViewOf(w.header, shared, unprotected, count);
            && MergeHeaders([ProtectedFor(w.header, shared, count), unprotected, OwnFor(w.header, count)]) == Ok(view)
            && RecoverCek(p, p.Received(view), w.encryptedKey, dkey, dopts) == Ok(cek)
            && Choose(p, p.Received(view), dkey, dopts).Ok?
            && Choose(p, p.Received(view), dkey, dopts).value.enc == enc
  {
    hide PlanRecipient, EncryptKey, MergeHeaders, ViewOf, Admits, PartyInfoIsSeen, LookupKeyMgmt, C.LookupEnc, Writes,
         Visible, RecoverCek, Choose, DeclaredCritical;
    hide p.Sized, p.AesLaw, p.GcmLaw, p.RsaLaw, p.EcdsaLaw, p.EdLaw, p.EcdhLaw, p.DeflateLaw, p.JsonLaw;
    var plan := PlanRecipient(p, r, enc.name, shared, count).value;
    var view := ViewOf(w.header, shared, unprotected, count);
    PlanNames(p, r, enc.name, shared, count);
    ViewNames(plan, w.header, enc.name, shared, unprotected, count);
    ViewShowsParams(p, plan, w.header, shared, unprotected, count);
    StringParamReceived(p, view, "alg");
    StringParamReceived(p, view, "enc");
    StringParamReceived(p, view, "kid");
    var given := if EncryptKey(p, plan.km, enc, plan.key, plan.header, None, coins) == Ok(w) then None else Some(cek);
    CekIsRecovered(p, p.Received(view), plan.km, enc, plan.key, plan.header, given, coins, dkey, dopts);
    ChoiceIsSenders(p, p.Received(view), plan.km, enc, plan.key, dkey, dopts);
  }

  /** The protected header that a recipient checks is acceptable to it. */
  lemma ProtectedIsAccepted(p: Primitives, plan: RecipientPlan, h': Header, shared: Header, count: nat,
                            known: seq<string>)
    requires Writes(plan.header, h', plan.km.Outputs())
    requires CheckCriticalProduced(ProtectedFor(h', shared, count)).Pass?
    requires forall n :: n in DeclaredCritical(ProtectedFor(plan.header, shared, count)) ==> n in known
    ensures CheckCritical(p.Received(ProtectedFor(h', shared, count)), known).Pass?
  {
    hide CheckCriticalProduced, CheckCritical;
    if count == 1 {
      WritingKeepsHeader(plan.header, h', plan.km);
    }
    ProducedIsAccepted(p, ProtectedFor(h', shared, count), known);
  }

  /** The trial of a received entry is the decryption of the view it merges. */
  lemma TrialOfReceived(p: Primitives, protected: Header, unprotected: Header, own: Header, ek: bytes, d: Shared,
                        entry: Entry, dkey: KeyArg, dopts: DecryptOptions)
    requires p.Sized() && "zip" !in unprotected && "zip" !in own
    requires d.protected == p.Received(protected) && d.unprotected == p.Received(unprotected)
    requires OrEmpty(entry.header) == p.Received(own) && entry.encryptedKey == EncodeSegment(ek)
    requires MergeHeaders([protected, unprotected, own]).Ok?
    requires CheckCritical(d.protected, dopts.knownCritical).Pass?
    ensures var view := p.Received(MergeHeaders([protected, unprotected, own]).value);
            TryRecipient(p, d, entry, dkey, dopts) ==
            match DecryptOne(p, view, ek, d.sealed, d.aad, dkey, dopts)
            case Ok(body) => Ok((body, view))
            case Err(e) => Err(e)
  {
    hide MergeHeaders, CheckCritical, DecryptOne, DecodeOptional, EncodeSegment, p.ReceivedValue, p.Sized;
    MergeReceived(p, [protected, unprotected, own], [p.Received(protected), p.Received(unprotected), p.Received(own)]);
    OptionalRoundTrip(ek);
  }

  /**
   The trial of recipient i, with its matching key: it returns the plaintext exactly when the
   protected "zip" is acceptable.
   */
  lemma RecipientRoundTrip(p: Primitives, r: Recipient, enc: C.Enc, shared: Header, unprotected: Header, count: nat,
                           coins: Coins, cek: bytes, w: Wrapped, plaintext: bytes, iv: bytes, d: Shared,
                           dkey: KeyArg, dopts: DecryptOptions)
    requires p.Lawful() && enc.Valid() && coins.Fit() && C.LookupEnc(enc.name) == Ok(enc) && |cek| == enc.keySize
    requires "enc" in shared && shared["enc"] == Str(enc.name) && |iv| == enc.IvSize()
    requires Delivered(p, r, enc, shared, count, coins, cek, w)
    requires AdmitsRecipient(p, r, enc, shared, unprotected, count, dkey, dopts)
    requires "zip" !in unprotected && "zip" !in OwnFor(w.header, count)
    requires CheckCriticalProduced(ProtectedFor(w.header, shared, count)).Pass?
    requires MergeHeaders([ProtectedFor(w.header, shared, count), unprotected, OwnFor(w.header, count)]).Ok?
    requires Compressed(p, ProtectedFor(w.header, shared, count), plaintext).Ok?
    requires d.protected == p.Received(ProtectedFor(w.header, shared, count))
    requires d.unprotected == p.Received(unprotected)
    requires var body := Compressed(p, ProtectedFor(w.header, shared, count), plaintext).value;
             C.Encrypt(p, enc, cek, body, d.aad, iv) == Ok(d.sealed)
    ensures var entry := ReceivedEntry(p, EntryFor(w, count));
            var view := ViewOf(w.header, shared, unprotected, count);
            var r := TryRecipient(p, d, entry, dkey, dopts);
            && ((r.Ok? && r.value.0 == plaintext) <==>
                ZipAccepted(ProtectedFor(w.header, shared, count), plaintext, dopts))
            && (r.Ok? ==> r.value.1 == p.Received(view))
  {
    hide PlanRecipient, EncryptKey, MergeHeaders, Admits, PartyInfoIsSeen, LookupKeyMgmt, C.LookupEnc, Writes,
         RecoverCek, Choose, DeclaredCritical, DecryptOne, MaybeInflate, CheckCritical, CheckCriticalProduced,
         C.Encrypt, Compressed, TryRecipient, EncodeSegment, ZipAccepted, p.ReceivedValue;
    hide p.Sized, p.AesLaw, p.GcmLaw, p.RsaLaw, p.EcdsaLaw, p.EdLaw, p.EcdhLaw, p.DeflateLaw, p.JsonLaw;
    var protected, own := ProtectedFor(w.header, shared, count), OwnFor(w.header, count);
    var view := ViewOf(w.header, shared, unprotected, count);
    var plan := PlanRecipient(p, r, enc.name, shared, count).value;
    var body := Compressed(p, protected, plaintext).value;
    RecipientRecoversCek(p, r, enc, shared, unprotected, count, coins, cek, w, dkey, dopts);
    ProtectedIsAccepted(p, plan, w.header, shared, count, dopts.knownCritical);
    assert p.Received(map[]) == map[];
    var entry := ReceivedEntry(p, EntryFor(w, count));
    TrialOfReceived(p, protected, unprotected, own, w.encryptedKey, d, entry, dkey, dopts);
    BodyIsRecovered(p, p.Received(view), w.encryptedKey, cek, enc, body, d.aad, iv, dkey, dopts);
    ZipIsProtected(p, protected, unprotected, own, body, dopts);
    CompressionRoundTrip(p, protected, plaintext, dopts);
  }

  // ---------------------------------------------------------------- unprotected data decides nothing

  lemma MergedZip(a: Header, b: Header, c: Header)
    requires MergeHeaders([a, b, c]).Ok? && "zip" !in b && "zip" !in c
    ensures var m := MergeHeaders([a, b, c]).value;
            ("zip" in m <==> "zip" in a) && ("zip" in a ==> m["zip"] == a["zip"])
  {
    hide MergeHeaders;
    MergeThree(a, b, c);
  }

  /**
   Two successful trials with the same protected header, AAD, ciphertext, tag, options, CEK and
   "enc" return the same plaintext, however the shared and per-recipient headers, the encrypted
   keys and the keys differ.
   */
  lemma PlaintextIgnoresUnprotected(p: Primitives, d1: Shared, r1: Entry, key1: KeyArg, d2: Shared, r2: Entry,
                                    key2: KeyArg, opts: DecryptOptions)
    requires p.Sized() && d1.protected == d2.protected && d1.sealed == d2.sealed && d1.aad == d2.aad
    requires TryRecipient(p, d1, r1, key1, opts).Ok? && TryRecipient(p, d2, r2, key2, opts).Ok?
    requires CekOf(p, d1, r1, key1, opts) == CekOf(p, d2, r2, key2, opts)
    ensures TryRecipient(p, d1, r1, key1, opts).value.0 == TryRecipient(p, d2, r2, key2, opts).value.0
  {
    hide MergeHeaders, CheckCritical, DecodeOptional, RecoverCek, Choose, C.Decrypt, Inflate, p.Sized;
    MergedZip(d1.protected, d1.unprotected, OrEmpty(r1.header));
    MergedZip(d2.protected, d2.unprotected, OrEmpty(r2.header));
  }

  /** The CEK that a successful trial recovered, and the "enc" it was used with. */
  ghost function CekOf(p: Primitives, d: Shared, r: Entry, key: KeyArg, opts: DecryptOptions): (bytes, C.Enc)
    requires p.Sized() && TryRecipient(p, d, r, key, opts).Ok?
  {
    var view := TryRecipient(p, d, r, key, opts).value.1;
    (RecoverCek(p, view, DecodeOptional(r.encryptedKey).value, key, opts).value, Choose(p, view, key, opts).value.enc)
  }

  /** The same for whole documents whose protected members agree. */
  lemma DocumentsWithSameProtectedMembers(p: Primitives, doc1: Document, i1: nat, key1: KeyArg,
                                          doc2: Document, i2: nat, key2: KeyArg, opts: DecryptOptions)
    requires p.Sized() && Open(p, doc1).Ok? && Open(p, doc2).Ok?
    requires doc1.protected == doc2.protected && doc1.aad == doc2.aad && doc1.iv == doc2.iv
    requires doc1.ciphertext == doc2.ciphertext && doc1.tag == doc2.tag
    requires i1 < |Open(p, doc1).value.entries| && i2 < |Open(p, doc2).value.entries|
    requires var d1, d2 := Open(p, doc1).value, Open(p, doc2).value;
             && TryRecipient(p, d1, d1.entries[i1], key1, opts).Ok?
             && TryRecipient(p, d2, d2.entries[i2], key2, opts).Ok?
             && CekOf(p, d1, d1.entries[i1], key1, opts) == CekOf(p, d2, d2.entries[i2], key2, opts)
    ensures var d1, d2 := Open(p, doc1).value, Open(p, doc2).value;
            TryRecipient(p, d1, d1.entries[i1], key1, opts).value.0 ==
            TryRecipient(p, d2, d2.entries[i2], key2, opts).value.0
  {
    hide TryRecipient, CekOf, DecodeHeader, DecodeOptional, JweAad, p.Sized;
    var d1, d2 := Open(p, doc1).value, Open(p, doc2).value;
    PlaintextIgnoresUnprotected(p, d1, d1.entries[i1], key1, d2, d2.entries[i2], key2, opts);
  }

  /** The recipient whose trial decides: the first, in this order, that opens. */
  ghost function Winner(p: Primitives, d: Shared, order: seq<nat>, key: KeyArg, opts: DecryptOptions): (r: Option<nat>)
    requires p.Sized() && forall i :: 0 <= i < |order| ==> order[i] < |d.entries|
    ensures r.Some? ==> r.value < |d.entries|
  {
    if order == [] then None
    else if TryRecipient(p, d, d.entries[order[0]], key, opts).Ok? then Some(order[0])
    else Winner(p, d, order[1..], key, opts)
  }

  lemma {:induction false} WinnerDecides(p: Primitives, d: Shared, order: seq<nat>, key: KeyArg, opts: DecryptOptions,
                                         lastErr: Error)
    requires p.Sized() && forall i :: 0 <= i < |order| ==> order[i] < |d.entries|
    ensures var r, w := TryRecipients(p, d, order, key, opts, lastErr), Winner(p, d, order, key, opts);
            (r.Ok? <==> w.Some?) && (w.Some? ==> r == TryRecipient(p, d, d.entries[w.value], key, opts))
  {
    hide TryRecipient;
    if order != [] {
      var one := TryRecipient(p, d, d.entries[order[0]], key, opts);
      if one.Err? {
        WinnerDecides(p, d, order[1..], key, opts, one.error);
      }
    }
  }

  /** The entry of a document that DecryptJSON opens. */
  ghost function OpenedEntry(p: Primitives, doc: Document, key: KeyArg, opts: DecryptOptions): (i: nat)
    requires p.Sized() && DecryptJson(p, doc, key, opts).Ok?
    ensures var d := Open(p, doc).value;
            i < |d.entries| && DecryptJson(p, doc, key, opts) == TryRecipient(p, d, d.entries[i], key, opts)
  {
    var d := Open(p, doc).value;
    var order := RecipientOrder(d.entries, d.protected, d.unprotected, key);
    WinnerDecides(p, d, order, key, opts, DecryptFailed);
    Winner(p, d, order, key, opts).value
  }

  /** The CEK, and the "enc", that a successful DecryptJSON used. */
  ghost function CekUsed(p: Primitives, doc: Document, key: KeyArg, opts: DecryptOptions): (bytes, C.Enc)
    requires p.Sized() && DecryptJson(p, doc, key, opts).Ok?
  {
    var d := Open(p, doc).value;
    CekOf(p, d, d.entries[OpenedEntry(p, doc, key, opts)], key, opts)
  }

  /**
   Two successful runs of DecryptJSON, on documents whose protected members agree and with the
   same options, that used the same CEK and "enc" return the same plaintext.
   */
  lemma DocumentsDecryptAlike(p: Primitives, doc1: Document, key1: KeyArg, doc2: Document, key2: KeyArg,
                              opts: DecryptOptions)
    requires p.Sized() && DecryptJson(p, doc1, key1, opts).Ok? && DecryptJson(p, doc2, key2, opts).Ok?
    requires doc1.protected == doc2.protected && doc1.aad == doc2.aad && doc1.iv == doc2.iv
    requires doc1.ciphertext == doc2.ciphertext && doc1.tag == doc2.tag
    requires CekUsed(p, doc1, key1, opts) == CekUsed(p, doc2, key2, opts)
    ensures DecryptJson(p, doc1, key1, opts).value.0 == DecryptJson(p, doc2, key2, opts).value.0
  {
    hide TryRecipient, TryRecipients, RecipientOrder, CekOf, Open, OpenedEntry, p.Sized;
    DocumentsWithSameProtectedMembers(p, doc1, OpenedEntry(p, doc1, key1, opts), key1,
                                      doc2, OpenedEntry(p, doc2, key2, opts), key2, opts);
  }

  // ---------------------------------------------------------------- the whole document

  function ReceivedDocument(p: Primitives, doc: Document): Document {
    doc.(unprotected := ReceivedHeader(p, doc.unprotected),
         header := ReceivedHeader(p, doc.header),
         recipients := seq(|doc.recipients|, i requires 0 <= i < |doc.recipients| =>
           ReceivedEntry(p, doc.recipients[i])))
  }

  /** What the recipients share, as they decode it from a document that was sealed. */
  ghost predicate Conveys(p: Primitives, opts: EncryptOptions, enc: C.Enc, shared: Header, g: Progress,
                          plaintext: bytes, iv: bytes, d: Shared)
    requires p.Sized() && enc.Valid() && g.cek.Some? && |iv| == 16
  {
    var protected := FinalHeader(g.wrapped, shared);
    && CheckCriticalProduced(protected).Pass?
    && AllMerge(protected, opts.unprotected, EntriesFor(g.wrapped))
    && Compressed(p, protected, plaintext).Ok?
    && d.protected == p.Received(protected) && d.unprotected == p.Received(opts.unprotected)
    && C.Encrypt(p, enc, g.cek.value, Compressed(p, protected, plaintext).value, d.aad, iv[..enc.IvSize()]) ==
       Ok(d.sealed)
    && |d.entries| == |g.wrapped|
    && forall i :: 0 <= i < |g.wrapped| ==> d.entries[i] == ReceivedEntry(p, EntryFor(g.wrapped[i], |g.wrapped|))
  }

  lemma SealedOpens(p: Primitives, plaintext: bytes, opts: EncryptOptions, enc: C.Enc, shared: Header, g: Progress,
                    iv: bytes)
    requires p.Lawful() && enc.Valid() && g.cek.Some? && |iv| == 16 && g.wrapped != []
    requires Seal(p, plaintext, opts, enc, shared, g, iv).Ok?
    ensures var doc := ReceivedDocument(p, Seal(p, plaintext, opts, enc, shared, g, iv).value);
            Open(p, doc).Ok? && Conveys(p, opts, enc, shared, g, plaintext, iv, Open(p, doc).value)
  {
    hide CheckCriticalProduced, AllMerge, Compressed, C.Encrypt, EncodeHeader, DecodeHeader, DecodeOptional,
         EncodeSegment, JweAad, FinalHeader, Marshals;
    hide p.Sized, p.AesLaw, p.GcmLaw, p.RsaLaw, p.EcdsaLaw, p.EdLaw, p.EcdhLaw, p.DeflateLaw, p.JsonLaw,
         p.ReceivedValue;
    var protected := FinalHeader(g.wrapped, shared);
    DecodeEncodedHeader(p, protected);
    var aadB64 := if opts.aad == [] then "" else EncodeSegment(opts.aad);
    var body := Compressed(p, protected, plaintext).value;
    var aad := JweAad(EncodeHeader(p, protected).value, aadB64);
    var s := C.Encrypt(p, enc, g.cek.value, body, aad, iv[..enc.IvSize()]).value;
    OptionalRoundTrip(opts.aad);
    OptionalRoundTrip(s.iv);
    OptionalRoundTrip(s.ciphertext);
    OptionalRoundTrip(s.tag);
    EmptyOptional();
    assert p.Received(map[]) == map[];
  }

  lemma EmptyOptional()
    ensures DecodeOptional("") == Ok([])
  {
  }

  /** Wrapping a key adds no "zip"; a single recipient's header has the shared one. */
  lemma WrappedZip(p: Primitives, r: Recipient, enc: C.Enc, shared: Header, count: nat, coins: Coins, cek: bytes,
                   w: Wrapped)
    requires p.Sized() && enc.Valid() && coins.Fit() && Delivered(p, r, enc, shared, count, coins, cek, w)
    requires "zip" !in r.header
    ensures "zip" !in OwnFor(w.header, count)
    ensures var h := ProtectedFor(w.header, shared, count);
            ("zip" in h <==> "zip" in shared) && ("zip" in shared ==> h["zip"] == shared["zip"])
  {
    hide EncryptKey, LookupKeyMgmt, CheckJwkUsage, ResolveKey, KeyMgmtAlg, CheckCriticalProduced, DeclaredCritical,
         p.Sized, Writes;
    var plan := PlanRecipient(p, r, enc.name, shared, count).value;
    WritingKeepsHeader(plan.header, w.header, plan.km);
    var alg := KeyMgmtAlg(r.key, ResolveKey(p, r.key, r.keyId).value, r.algorithm).value;
    assert CopyHeader([r.header]) == r.header by {
      assert [r.header][..0] == [];
    }
    assert "zip" !in RecipientHeader(r, alg, shared);
  }

  lemma SharedHeaderEnc(opts: EncryptOptions, count: nat)
    ensures var h := SharedHeader(opts, count); "enc" in h && h["enc"] == Str(EncName(opts))
  {
    hide CopyHeader;
  }

  /** The holder of dkey is recipient i of what these options would produce. */
  ghost predicate IsRecipient(p: Primitives, opts: EncryptOptions, recipients: seq<Recipient>, i: nat, dkey: KeyArg,
                              dopts: DecryptOptions)
  {
    var enc, n := C.LookupEnc(EncName(opts)), |recipients|;
    && enc.Ok? && i < n
    && AdmitsRecipient(p, recipients[i], enc.value, SharedHeader(opts, n), opts.unprotected, n, dkey, dopts)
  }

  /** What a successful EncryptJSONMulti passed through: its enc, its loop and its sealing. */
  lemma MultiIsSealed(p: Primitives, plaintext: bytes, opts: EncryptOptions, recipients: seq<Recipient>,
                      coins: seq<Coins>, iv: bytes)
    requires p.Sized() && |recipients| == |coins| && |iv| == 16 && forall i :: 0 <= i < |coins| ==> coins[i].Fit()
    requires EncryptJsonMulti(p, plaintext, opts, recipients, coins, iv).Ok?
    ensures recipients != [] && "zip" !in opts.unprotected && C.LookupEnc(EncName(opts)).Ok?
    ensures forall i :: 0 <= i < |recipients| ==> "zip" !in recipients[i].header
    ensures var enc := C.LookupEnc(EncName(opts)).value;
            var shared := SharedHeader(opts, |recipients|);
            var g := WrapSteps(p, recipients, enc, shared, coins, |recipients|);
            && g.Ok?
            && Seal(p, plaintext, opts, enc, shared, g.value, iv) ==
               EncryptJsonMulti(p, plaintext, opts, recipients, coins, iv)
  {
    hide C.LookupEnc, WrapSteps, Seal, SharedHeader;
  }

  /** A CEK-deriving algorithm never addresses more than one recipient. */
  lemma DerivedCekIsAlone(p: Primitives, plaintext: bytes, opts: EncryptOptions, recipients: seq<Recipient>,
                          coins: seq<Coins>, iv: bytes, i: nat)
    requires p.Sized() && |recipients| == |coins| && |iv| == 16 && forall i :: 0 <= i < |coins| ==> coins[i].Fit()
    requires EncryptJsonMulti(p, plaintext, opts, recipients, coins, iv).Ok? && i < |recipients|
    ensures var plan := PlanRecipient(p, recipients[i], EncName(opts), SharedHeader(opts, |recipients|), |recipients|);
            plan.Ok? && (plan.value.km.DerivesCek() ==> |recipients| == 1)
  {
    hide EncryptJsonMulti, C.LookupEnc, WrapSteps, Seal, SharedHeader, PlanRecipient, EncryptKey;
    MultiIsSealed(p, plaintext, opts, recipients, coins, iv);
    var enc := C.LookupEnc(EncName(opts)).value;
    var n, shared := |recipients|, SharedHeader(opts, |recipients|);
    OneCekForAll(p, recipients, enc, shared, coins, n);
    var g := WrapSteps(p, recipients, enc, shared, coins, n).value;
    assert Delivered(p, recipients[i], enc, shared, n, coins[i], g.cek.value, g.wrapped[i]);
  }

  /**
   For any number and mix of recipients: the document that EncryptJSONMulti produces opens, and
   recipient i's own trial with its matching key returns the plaintext exactly when the shared
   "zip" is acceptable to it.
   */
  lemma EveryRecipientRecovers(p: Primitives, plaintext: bytes, opts: EncryptOptions, recipients: seq<Recipient>,
                               coins: seq<Coins>, iv: bytes, i: nat, dkey: KeyArg, dopts: DecryptOptions)
    requires p.Lawful() && |recipients| == |coins| && |iv| == 16 && forall i :: 0 <= i < |coins| ==> coins[i].Fit()
    requires EncryptJsonMulti(p, plaintext, opts, recipients, coins, iv).Ok?
    requires IsRecipient(p, opts, recipients, i, dkey, dopts)
    ensures var doc := ReceivedDocument(p, EncryptJsonMulti(p, plaintext, opts, recipients, coins, iv).value);
            && Open(p, doc).Ok? && |Open(p, doc).value.entries| == |recipients|
            && var d := Open(p, doc).value;
               var r := TryRecipient(p, d, d.entries[i], dkey, dopts);
               (r.Ok? && r.value.0 == plaintext) <==> ZipAccepted(SharedHeader(opts, |recipients|), plaintext, dopts)
  {
    hide EncryptJsonMulti, C.LookupEnc, WrapSteps, Seal, SharedHeader, PlanRecipient, EncryptKey, AdmitsRecipient,
         TryRecipient, Open, ReceivedDocument, MergeHeaders, CheckCriticalProduced, Compressed, C.Encrypt, Delivered;
    hide p.Sized, p.AesLaw, p.GcmLaw, p.RsaLaw, p.EcdsaLaw, p.EdLaw, p.EcdhLaw, p.DeflateLaw, p.JsonLaw,
         p.ReceivedValue;
    var n, shared := |recipients|, SharedHeader(opts, |recipients|);
    MultiIsSealed(p, plaintext, opts, recipients, coins, iv);
    var enc := C.LookupEnc(EncName(opts)).value;
    var g := WrapSteps(p, recipients, enc, shared, coins, n).value;
    OneCekForAll(p, recipients, enc, shared, coins, n);
    SealedOpens(p, plaintext, opts, enc, shared, g, iv);
    SharedHeaderEnc(opts, n);
    var d := Open(p, ReceivedDocument(p, Seal(p, plaintext, opts, enc, shared, g, iv).value)).value;
    var w := g.wrapped[i];
    assert Delivered(p, recipients[i], enc, shared, n, coins[i], g.cek.value, w);
    WrappedZip(p, recipients[i], enc, shared, n, coins[i], g.cek.value, w);
    assert FinalHeader(g.wrapped, shared) == ProtectedFor(w.header, shared, n);
    assert OrEmpty(EntriesFor(g.wrapped)[i].header) == OwnFor(w.header, n);
    RecipientRoundTrip(p, recipients[i], enc, shared, opts.unprotected, n, coins[i], g.cek.value, w, plaintext,
                       iv[..enc.IvSize()], d, dkey, dopts);
  }

  /** The state that EncryptJSONMulti's loop over the recipients leaves. */
  ghost function LoopResult(p: Primitives, opts: EncryptOptions, recipients: seq<Recipient>, coins: seq<Coins>)
    : (r: Result<Progress>)
    requires p.Sized() && |recipients| == |coins| && forall i :: 0 <= i < |coins| ==> coins[i].Fit()
    ensures r.Ok? ==> |r.value.wrapped| == |recipients| && (recipients != [] ==> r.value.cek.Some?)
  {
    var enc :- C.LookupEnc(EncName(opts));
    WrapSteps(p, recipients, enc, SharedHeader(opts, |recipients|), coins, |recipients|)
  }

  /** The view that recipient i of a received document merges. */
  function MergedView(d: Shared, i: nat): Result<Header>
    requires i < |d.entries|
  {
    MergeHeaders([d.protected, d.unprotected, OrEmpty(d.entries[i].header)])
  }

  /** The view that recipient i merges is the one the sender checked, after JSON. */
  lemma EntryView(p: Primitives, wrapped: seq<Wrapped>, shared: Header, unprotected: Header, d: Shared, i: nat)
    requires i < |wrapped| == |d.entries|
    requires AllMerge(FinalHeader(wrapped, shared), unprotected, EntriesFor(wrapped))
    requires d.protected == p.Received(FinalHeader(wrapped, shared)) && d.unprotected == p.Received(unprotected)
    requires d.entries[i] == ReceivedEntry(p, EntryFor(wrapped[i], |wrapped|))
    ensures var h, n := wrapped[i].header, |wrapped|;
            && MergeHeaders([ProtectedFor(h, shared, n), unprotected, OwnFor(h, n)]) ==
               Ok(ViewOf(h, shared, unprotected, n))
            && MergedView(d, i) == Ok(p.Received(ViewOf(h, shared, unprotected, n)))
  {
    hide MergeHeaders, EncodeSegment, p.ReceivedValue;
    var h, n := wrapped[i].header, |wrapped|;
    var protected, own := ProtectedFor(h, shared, n), OwnFor(h, n);
    assert FinalHeader(wrapped, shared) == protected;
    assert OrEmpty(EntriesFor(wrapped)[i].header) == own;
    MergeThree(protected, unprotected, own);
    assert p.Received(map[]) == map[];
    MergeReceived(p, [protected, unprotected, own],
                  [p.Received(protected), p.Received(unprotected), p.Received(own)]);
  }

  /** Entry i of a received document is what the loop made for recipient i with the CEK of the document. */
  ghost predicate CarriesEntry(p: Primitives, opts: EncryptOptions, recipients: seq<Recipient>, coins: seq<Coins>,
                               d: Shared, i: nat)
    requires p.Sized() && i < |recipients| == |coins| && forall i :: 0 <= i < |coins| ==> coins[i].Fit()
  {
    var n, shared := |recipients|, SharedHeader(opts, |recipients|);
    var enc, g := C.LookupEnc(EncName(opts)), LoopResult(p, opts, recipients, coins);
    && enc.Ok? && g.Ok? && |d.entries| == n
    && |g.value.cek.value| == enc.value.keySize
    && var w := g.value.wrapped[i];
       && Delivered(p, recipients[i], enc.value, shared, n, coins[i], g.value.cek.value, w)
       && MergeHeaders([ProtectedFor(w.header, shared, n), opts.unprotected, OwnFor(w.header, n)]) ==
          Ok(ViewOf(w.header, shared, opts.unprotected, n))
       && MergedView(d, i) == Ok(p.Received(ViewOf(w.header, shared, opts.unprotected, n)))
       && d.entries[i].encryptedKey == EncodeSegment(w.encryptedKey)
  }

  lemma DocumentCarriesEntry(p: Primitives, plaintext: bytes, opts: EncryptOptions, recipients: seq<Recipient>,
                             coins: seq<Coins>, iv: bytes, i: nat)
    requires p.Lawful() && |recipients| == |coins| && |iv| == 16 && forall i :: 0 <= i < |coins| ==> coins[i].Fit()
    requires EncryptJsonMulti(p, plaintext, opts, recipients, coins, iv).Ok? && i < |recipients|
    ensures var doc := ReceivedDocument(p, EncryptJsonMulti(p, plaintext, opts, recipients, coins, iv).value);
            Open(p, doc).Ok? && CarriesEntry(p, opts, recipients, coins, Open(p, doc).value, i)
  {
    hide EncryptJsonMulti, C.LookupEnc, WrapSteps, Seal, SharedHeader, Open, ReceivedDocument, MergeHeaders,
         CheckCriticalProduced, Compressed, C.Encrypt, Delivered, EncodeSegment, ViewOf, MergedView;
    hide p.Sized, p.AesLaw, p.GcmLaw, p.RsaLaw, p.EcdsaLaw, p.EdLaw, p.EcdhLaw, p.DeflateLaw, p.JsonLaw,
         p.ReceivedValue;
    var n, shared := |recipients|, SharedHeader(opts, |recipients|);
    MultiIsSealed(p, plaintext, opts, recipients, coins, iv);
    var enc := C.LookupEnc(EncName(opts)).value;
    var g := WrapSteps(p, recipients, enc, shared, coins, n).value;
    OneCekForAll(p, recipients, enc, shared, coins, n);
    SealedOpens(p, plaintext, opts, enc, shared, g, iv);
    var d := Open(p, ReceivedDocument(p, Seal(p, plaintext, opts, enc, shared, g, iv).value)).value;
    EntryView(p, g.wrapped, shared, opts.unprotected, d, i);
    assert Delivered(p, recipients[i], enc, shared, n, coins[i], g.cek.value, g.wrapped[i]);
  }

  /** What recipient i recovers from its entry and the headers of a document it received. */
  ghost function EntryCek(p: Primitives, d: Shared, i: nat, dkey: KeyArg, dopts: DecryptOptions): Result<bytes>
    requires p.Sized() && i < |d.entries|
  {
    var merged :- MergedView(d, i);
    var ek :- DecodeOptional(d.entries[i].encryptedKey);
    RecoverCek(p, merged, ek, dkey, dopts)
  }

  /** A trial succeeds only with a CEK that the entry yields. */
  lemma TrialNeedsCek(p: Primitives, d: Shared, i: nat, key: KeyArg, opts: DecryptOptions)
    requires p.Sized() && i < |d.entries| && TryRecipient(p, d, d.entries[i], key, opts).Ok?
    ensures EntryCek(p, d, i, key, opts).Ok?
  {
    hide MergeHeaders, CheckCritical, DecodeOptional, RecoverCek, Choose, C.Decrypt, MaybeInflate, p.Sized;
  }

  /**
   The encrypted key of every recipient, as the received document carries it, unwraps under that
   recipient's key and merged header to the one CEK of the document, of exactly the size of "enc".
   */
  lemma EveryKeyUnwraps(p: Primitives, plaintext: bytes, opts: EncryptOptions, recipients: seq<Recipient>,
                        coins: seq<Coins>, iv: bytes, i: nat, dkey: KeyArg, dopts: DecryptOptions)
    requires p.Lawful() && |recipients| == |coins| && |iv| == 16 && forall i :: 0 <= i < |coins| ==> coins[i].Fit()
    requires EncryptJsonMulti(p, plaintext, opts, recipients, coins, iv).Ok?
    requires IsRecipient(p, opts, recipients, i, dkey, dopts)
    ensures var doc := ReceivedDocument(p, EncryptJsonMulti(p, plaintext, opts, recipients, coins, iv).value);
            var g := LoopResult(p, opts, recipients, coins);
            && g.Ok? && |g.value.cek.value| == C.LookupEnc(EncName(opts)).value.keySize
            && Open(p, doc).Ok? && |Open(p, doc).value.entries| == |recipients|
            && EntryCek(p, Open(p, doc).value, i, dkey, dopts) == Ok(g.value.cek.value)
  {
    hide EncryptJsonMulti, C.LookupEnc, LoopResult, SharedHeader, AdmitsRecipient, Open, RecoverCek, ReceivedDocument,
         MergeHeaders, Delivered, DecodeOptional, EncodeSegment, ViewOf, MergedView;
    hide p.Sized, p.AesLaw, p.GcmLaw, p.RsaLaw, p.EcdsaLaw, p.EdLaw, p.EcdhLaw, p.DeflateLaw, p.JsonLaw, p.Received;
    var n, shared := |recipients|, SharedHeader(opts, |recipients|);
    DocumentCarriesEntry(p, plaintext, opts, recipients, coins, iv, i);
    SharedHeaderEnc(opts, n);
    var enc, g := C.LookupEnc(EncName(opts)).value, LoopResult(p, opts, recipients, coins).value;
    var w := g.wrapped[i];
    RecipientRecoversCek(p, recipients[i], enc, shared, opts.unprotected, n, coins[i], g.cek.value, w, dkey, dopts);
    OptionalRoundTrip(w.encryptedKey);
  }

  /** Every two entries of the document that open with this key yield the same CEK. */
  ghost predicate TrialsAgree(p: Primitives, d: Shared, key: KeyArg, opts: DecryptOptions)
    requires p.Sized()
  {
    forall i, j :: 0 <= i < |d.entries| && 0 <= j < |d.entries| &&
                   TryRecipient(p, d, d.entries[i], key, opts).Ok? &&
                   TryRecipient(p, d, d.entries[j], key, opts).Ok? ==>
                     CekOf(p, d, d.entries[i], key, opts).0 == CekOf(p, d, d.entries[j], key, opts).0
  }

  /** A trial takes "enc" from the protected header when it is there. */
  lemma TrialUsesProtectedEnc(p: Primitives, d: Shared, r: Entry, key: KeyArg, opts: DecryptOptions, encName: string)
    requires p.Sized() && TryRecipient(p, d, r, key, opts).Ok?
    requires "enc" in d.protected && d.protected["enc"] == Str(encName)
    ensures C.LookupEnc(encName) == Ok(CekOf(p, d, r, key, opts).1)
  {
    hide MergeHeaders, CheckCritical, DecodeOptional, DecryptKey, C.Decrypt, MaybeInflate, p.Sized, C.LookupEnc,
         LookupKeyMgmt, CheckJwkUsage, ResolveKey;
    MergeThree(d.protected, d.unprotected, OrEmpty(r.header));
  }

  lemma FinalHeaderEnc(p: Primitives, r: Recipient, enc: C.Enc, shared: Header, count: nat, coins: Coins, cek: bytes,
                       w: Wrapped)
    requires p.Sized() && enc.Valid() && coins.Fit() && Delivered(p, r, enc, shared, count, coins, cek, w)
    requires "enc" in shared && shared["enc"] == Str(enc.name)
    ensures var h := ProtectedFor(w.header, shared, count); "enc" in h && h["enc"] == Str(enc.name)
  {
    hide EncryptKey, PlanRecipient, CheckCriticalProduced, DeclaredCritical, p.Sized, Writes, LookupKeyMgmt;
    var plan := PlanRecipient(p, r, enc.name, shared, count).value;
    PlanNames(p, r, enc.name, shared, count);
    WritingKeepsHeader(plan.header, w.header, plan.km);
  }

  /** The document shows every recipient the sender's "enc", under protection. */
  lemma SentEncIsProtected(p: Primitives, plaintext: bytes, opts: EncryptOptions, recipients: seq<Recipient>,
                           coins: seq<Coins>, iv: bytes)
    requires p.Lawful() && |recipients| == |coins| && |iv| == 16 && forall i :: 0 <= i < |coins| ==> coins[i].Fit()
    requires EncryptJsonMulti(p, plaintext, opts, recipients, coins, iv).Ok?
    ensures var doc := ReceivedDocument(p, EncryptJsonMulti(p, plaintext, opts, recipients, coins, iv).value);
            && Open(p, doc).Ok?
            && "enc" in Open(p, doc).value.protected && Open(p, doc).value.protected["enc"] == Str(EncName(opts))
  {
    hide EncryptJsonMulti, C.LookupEnc, WrapSteps, Seal, SharedHeader, PlanRecipient, EncryptKey, Open,
         ReceivedDocument, MergeHeaders, CheckCriticalProduced, Compressed, C.Encrypt, Delivered;
    hide p.Sized, p.AesLaw, p.GcmLaw, p.RsaLaw, p.EcdsaLaw, p.EdLaw, p.EcdhLaw, p.DeflateLaw, p.JsonLaw;
    var n, shared := |recipients|, SharedHeader(opts, |recipients|);
    MultiIsSealed(p, plaintext, opts, recipients, coins, iv);
    var enc := C.LookupEnc(EncName(opts)).value;
    var g := WrapSteps(p, recipients, enc, shared, coins, n).value;
    OneCekForAll(p, recipients, enc, shared, coins, n);
    SealedOpens(p, plaintext, opts, enc, shared, g, iv);
    SharedHeaderEnc(opts, n);
    assert Delivered(p, recipients[0], enc, shared, n, coins[0], g.cek.value, g.wrapped[0]);
    FinalHeaderEnc(p, recipients[0], enc, shared, n, coins[0], g.cek.value, g.wrapped[0]);
    assert FinalHeader(g.wrapped, shared) == ProtectedFor(g.wrapped[0].header, shared, n);
  }

  /**
   DecryptJSON with the key of any recipient succeeds. It returns the plaintext if that
   recipient is the first one tried, and whichever recipient is tried first if the entries that
   this key opens, should there be several, yield the same CEK.
   */
  lemma MultiRecipientRoundTrip(p: Primitives, plaintext: bytes, opts: EncryptOptions, recipients: seq<Recipient>,
                                coins: seq<Coins>, iv: bytes, i: nat, dkey: KeyArg, dopts: DecryptOptions)
    requires p.Lawful() && |recipients| == |coins| && |iv| == 16 && forall i :: 0 <= i < |coins| ==> coins[i].Fit()
    requires EncryptJsonMulti(p, plaintext, opts, recipients, coins, iv).Ok?
    requires IsRecipient(p, opts, recipients, i, dkey, dopts)
    requires ZipAccepted(SharedHeader(opts, |recipients|), plaintext, dopts)
    ensures var doc := ReceivedDocument(p, EncryptJsonMulti(p, plaintext, opts, recipients, coins, iv).value);
            var r := DecryptJson(p, doc, dkey, dopts);
            && r.Ok? && Open(p, doc).Ok?
            && var d := Open(p, doc).value;
               var order := RecipientOrder(d.entries, d.protected, d.unprotected, dkey);
               && order != []
               && (order[0] == i || TrialsAgree(p, d, dkey, dopts) ==> r.value.0 == plaintext)
  {
    hide EncryptJsonMulti, C.LookupEnc, SharedHeader, AdmitsRecipient, TryRecipient, Open, ReceivedDocument, C.Decrypt,
         CekOf, RecipientOrder, TryRecipients, ZipAccepted;
    hide p.Sized, p.AesLaw, p.GcmLaw, p.RsaLaw, p.EcdsaLaw, p.EdLaw, p.EcdhLaw, p.DeflateLaw, p.JsonLaw;
    EveryRecipientRecovers(p, plaintext, opts, recipients, coins, iv, i, dkey, dopts);
    SentEncIsProtected(p, plaintext, opts, recipients, coins, iv);
    var doc := ReceivedDocument(p, EncryptJsonMulti(p, plaintext, opts, recipients, coins, iv).value);
    var d := Open(p, doc).value;
    var order := RecipientOrder(d.entries, d.protected, d.unprotected, dkey);
    DecryptIsComplete(p, doc, dkey, dopts);
    TryRecipientsIsFirst(p, d, order, dkey, dopts, DecryptFailed);
    var r := DecryptJson(p, doc, dkey, dopts);
    var k :| 0 <= k < |order| && TryRecipient(p, d, d.entries[order[k]], dkey, dopts) == r &&
             forall j :: 0 <= j < k ==> TryRecipient(p, d, d.entries[order[j]], dkey, dopts).Err?;
    if TrialsAgree(p, d, dkey, dopts) {
      SameTrialResult(p, d, d.entries[order[k]], d.entries[i], dkey, dopts, EncName(opts));
    }
  }

  /** Two trials of one document that recover the same CEK return the same plaintext. */
  lemma SameTrialResult(p: Primitives, d: Shared, r1: Entry, r2: Entry, key: KeyArg, opts: DecryptOptions,
                        encName: string)
    requires p.Sized() && TryRecipient(p, d, r1, key, opts).Ok? && TryRecipient(p, d, r2, key, opts).Ok?
    requires "enc" in d.protected && d.protected["enc"] == Str(encName)
    requires CekOf(p, d, r1, key, opts).0 == CekOf(p, d, r2, key, opts).0
    ensures TryRecipient(p, d, r1, key, opts).value.0 == TryRecipient(p, d, r2, key, opts).value.0
  {
    hide TryRecipient, CekOf, C.LookupEnc, p.Sized;
    TrialUsesProtectedEnc(p, d, r1, key, opts, encName);
    TrialUsesProtectedEnc(p, d, r2, key, opts, encName);
    PlaintextIgnoresUnprotected(p, d, r1, key, d, r2, key, opts);
  }

  // ---------------------------------------------------------------- the recipient that is asked for

  /** The kid under which the sender addresses recipient j. */
  ghost function SentKid(p: Primitives, opts: EncryptOptions, recipients: seq<Recipient>, j: nat): string
    requires j < |recipients|
  {
    var n, shared := |recipients|, SharedHeader(opts, |recipients|);
    match PlanRecipient(p, recipients[j], EncName(opts), shared, n)
    case Ok(plan) => StringParam(ViewOf(plan.header, shared, opts.unprotected, n), "kid")
    case Err(_) => ""
  }

  /** Recipient i is the first that goes by the kid of this JWK; without a kid, the first of all. */
  ghost predicate IsAddressed(p: Primitives, opts: EncryptOptions, recipients: seq<Recipient>, i: nat, dkey: KeyArg) {
    i < |recipients| &&
    if WantedKid(dkey) == "" then i == 0
    else SentKid(p, opts, recipients, i) == WantedKid(dkey) &&
         forall j :: 0 <= j < i ==> SentKid(p, opts, recipients, j) != WantedKid(dkey)
  }

  lemma {:induction false} FirstIndex(ms: seq<bool>, i: nat, n: nat)
    requires i < n <= |ms| && ms[i] && forall j :: 0 <= j < i ==> !ms[j]
    ensures Indices(ms, true, n) != [] && Indices(ms, true, n)[0] == i
    ensures Indices(ms, true, i) == []
    decreases n
  {
    if i < n - 1 {
      FirstIndex(ms, i, n - 1);
    } else {
      NoIndex(ms, i);
    }
  }

  lemma {:induction false} NoIndex(ms: seq<bool>, n: nat)
    requires n <= |ms| && forall j :: 0 <= j < n ==> !ms[j]
    ensures Indices(ms, true, n) == []
  {
    if n != 0 {
      NoIndex(ms, n - 1);
    }
  }

  /** The kid that an entry shows is the one of its merged view. */
  lemma EntryKid(p: Primitives, d: Shared, i: nat)
    requires i < |d.entries| && MergedView(d, i).Ok?
    ensures EffectiveKid(d.protected, d.unprotected, d.entries[i]) == StringParam(MergedView(d, i).value, "kid")
  {
    hide MergeHeaders;
    MergeThree(d.protected, d.unprotected, OrEmpty(d.entries[i].header));
  }

  /** Every entry of the received document shows the kid under which it was addressed. */
  lemma SentKidIsShown(p: Primitives, plaintext: bytes, opts: EncryptOptions, recipients: seq<Recipient>,
                       coins: seq<Coins>, iv: bytes, j: nat)
    requires p.Lawful() && |recipients| == |coins| && |iv| == 16 && forall i :: 0 <= i < |coins| ==> coins[i].Fit()
    requires EncryptJsonMulti(p, plaintext, opts, recipients, coins, iv).Ok? && j < |recipients|
    ensures var doc := ReceivedDocument(p, EncryptJsonMulti(p, plaintext, opts, recipients, coins, iv).value);
            && Open(p, doc).Ok? && |Open(p, doc).value.entries| == |recipients|
            && var d := Open(p, doc).value;
               EffectiveKid(d.protected, d.unprotected, d.entries[j]) == SentKid(p, opts, recipients, j)
  {
    hide EncryptJsonMulti, C.LookupEnc, LoopResult, SharedHeader, PlanRecipient, EncryptKey, Open, EffectiveKid,
         ReceivedDocument, MergeHeaders, CheckCriticalProduced, EncodeSegment, DeclaredCritical, MergedView, Writes,
         p.ReceivedValue;
    hide p.Sized, p.AesLaw, p.GcmLaw, p.RsaLaw, p.EcdsaLaw, p.EdLaw, p.EcdhLaw, p.DeflateLaw, p.JsonLaw, p.Received;
    var n, shared := |recipients|, SharedHeader(opts, |recipients|);
    DocumentCarriesEntry(p, plaintext, opts, recipients, coins, iv, j);
    var d := Open(p, ReceivedDocument(p, EncryptJsonMulti(p, plaintext, opts, recipients, coins, iv).value)).value;
    EntryKid(p, d, j);
    var enc, w := C.LookupEnc(EncName(opts)).value, LoopResult(p, opts, recipients, coins).value.wrapped[j];
    var plan := PlanRecipient(p, recipients[j], enc.name, shared, n).value;
    WritingKeepsHeader(plan.header, w.header, plan.km);
    StringParamReceived(p, ViewOf(w.header, shared, opts.unprotected, n), "kid");
  }

  /**
   DecryptJSON returns the plaintext to the recipient whose kid its JWK names (the first that
   goes by it), without any supposition about the other recipients.
   */
  lemma AddressedRecipientRoundTrip(p: Primitives, plaintext: bytes, opts: EncryptOptions, recipients: seq<Recipient>,
                                    coins: seq<Coins>, iv: bytes, i: nat, dkey: KeyArg, dopts: DecryptOptions)
    requires p.Lawful() && |recipients| == |coins| && |iv| == 16 && forall i :: 0 <= i < |coins| ==> coins[i].Fit()
    requires EncryptJsonMulti(p, plaintext, opts, recipients, coins, iv).Ok?
    requires IsRecipient(p, opts, recipients, i, dkey, dopts) && IsAddressed(p, opts, recipients, i, dkey)
    requires ZipAccepted(SharedHeader(opts, |recipients|), plaintext, dopts)
    ensures var doc := ReceivedDocument(p, EncryptJsonMulti(p, plaintext, opts, recipients, coins, iv).value);
            var r := DecryptJson(p, doc, dkey, dopts);
            r.Ok? && r.value.0 == plaintext
  {
    hide EncryptJsonMulti, SharedHeader, IsRecipient, Open, ReceivedDocument, DecryptJson, ZipAccepted, TrialsAgree,
         SentKid, EffectiveKid;
    hide p.Sized, p.AesLaw, p.GcmLaw, p.RsaLaw, p.EcdsaLaw, p.EdLaw, p.EcdhLaw, p.DeflateLaw, p.JsonLaw;
    MultiRecipientRoundTrip(p, plaintext, opts, recipients, coins, iv, i, dkey, dopts);
    var d := Open(p, ReceivedDocument(p, EncryptJsonMulti(p, plaintext, opts, recipients, coins, iv).value)).value;
    forall j | 0 <= j < |recipients|
      ensures |d.entries| == |recipients|
      ensures EffectiveKid(d.protected, d.unprotected, d.entries[j]) == SentKid(p, opts, recipients, j)
    {
      SentKidIsShown(p, plaintext, opts, recipients, coins, iv, j);
    }
    if WantedKid(dkey) != "" {
      FirstIndex(KidMatches(d.entries, d.protected, d.unprotected, WantedKid(dkey)), i, |d.entries|);
    }
  }

  // ---------------------------------------------------------------- a key for some of the recipients

  /**
   This key cannot open entry j: the recipient's options do not admit the algorithm, the key is
   not found under the kid, is not permitted to decrypt, or does not fit the algorithm.
   */
  ghost predicate IsExcluded(p: Primitives, opts: EncryptOptions, recipients: seq<Recipient>, j: nat, dkey: KeyArg,
                             dopts: DecryptOptions)
    requires j < |recipients|
  {
    var n, enc := |recipients|, C.LookupEnc(EncName(opts));
    var plan := PlanRecipient(p, recipients[j], EncName(opts), SharedHeader(opts, n), n);
    var kid := SentKid(p, opts, recipients, j);
    && enc.Ok? && plan.Ok?
    && (|| !Allowed(dopts.algorithms, plan.value.km.name)
        || CheckJwkUsage(dkey, kid, "enc", [plan.value.km.name, enc.value.name], DECRYPT_OPS).Fail?
        || ResolveKey(p, dkey, kid).Err?
        || !KeyFits(p, plan.value.km, enc.value, ResolveKey(p, dkey, kid).value))
  }

  /** What a merged view chooses, by the names that it shows. */
  lemma ViewChooses(p: Primitives, view: Header, km: Mgmt, enc: C.Enc, kid: string, ek: bytes, dkey: KeyArg,
                    dopts: DecryptOptions)
    requires p.Sized() && LookupKeyMgmt(km.name) == Ok(km) && C.LookupEnc(enc.name) == Ok(enc)
    requires StringParam(view, "alg") == km.name && StringParam(view, "enc") == enc.name
    requires StringParam(view, "kid") == kid && RecoverCek(p, view, ek, dkey, dopts).Ok?
    ensures Allowed(dopts.algorithms, km.name)
    ensures CheckJwkUsage(dkey, kid, "enc", [km.name, enc.name], DECRYPT_OPS).Pass?
    ensures ResolveKey(p, dkey, kid).Ok? && KeyFits(p, km, enc, ResolveKey(p, dkey, kid).value)
  {
    hide LookupKeyMgmt, C.LookupEnc, CheckJwkUsage, ResolveKey, KeyFits, DecryptKey, StringParam, p.Sized;
    var dk := ResolveKey(p, dkey, kid).value;
    if !KeyFits(p, km, enc, dk) {
      UnfitKeyFails(p, km, enc, dk, view, ek);
    }
  }

  lemma ExcludedTrialFails(p: Primitives, plaintext: bytes, opts: EncryptOptions, recipients: seq<Recipient>,
                           coins: seq<Coins>, iv: bytes, j: nat, dkey: KeyArg, dopts: DecryptOptions)
    requires p.Lawful() && |recipients| == |coins| && |iv| == 16 && forall i :: 0 <= i < |coins| ==> coins[i].Fit()
    requires EncryptJsonMulti(p, plaintext, opts, recipients, coins, iv).Ok? && j < |recipients|
    requires IsExcluded(p, opts, recipients, j, dkey, dopts)
    ensures var doc := ReceivedDocument(p, EncryptJsonMulti(p, plaintext, opts, recipients, coins, iv).value);
            && Open(p, doc).Ok? && |Open(p, doc).value.entries| == |recipients|
            && TryRecipient(p, Open(p, doc).value, Open(p, doc).value.entries[j], dkey, dopts).Err?
  {
    hide EncryptJsonMulti, C.LookupEnc, LoopResult, SharedHeader, PlanRecipient, EncryptKey, Open, ReceivedDocument,
         MergeHeaders, EncodeSegment, MergedView, Writes, TryRecipient, LookupKeyMgmt, CheckJwkUsage, ResolveKey,
         KeyFits, RecoverCek, DecodeOptional, p.ReceivedValue, p.Received, ViewOf;
    hide p.Sized, p.AesLaw, p.GcmLaw, p.RsaLaw, p.EcdsaLaw, p.EdLaw, p.EcdhLaw, p.DeflateLaw, p.JsonLaw;
    var n, shared := |recipients|, SharedHeader(opts, |recipients|);
    DocumentCarriesEntry(p, plaintext, opts, recipients, coins, iv, j);
    SharedHeaderEnc(opts, n);
    var d := Open(p, ReceivedDocument(p, EncryptJsonMulti(p, plaintext, opts, recipients, coins, iv).value)).value;
    var enc, w := C.LookupEnc(EncName(opts)).value, LoopResult(p, opts, recipients, coins).value.wrapped[j];
    var plan := PlanRecipient(p, recipients[j], enc.name, shared, n).value;
    PlanNames(p, recipients[j], enc.name, shared, n);
    ViewNames(plan, w.header, enc.name, shared, opts.unprotected, n);
    var view := ViewOf(w.header, shared, opts.unprotected, n);
    StringParamReceived(p, view, "alg");
    StringParamReceived(p, view, "enc");
    StringParamReceived(p, view, "kid");
    if TryRecipient(p, d, d.entries[j], dkey, dopts).Ok? {
      TrialNeedsCek(p, d, j, dkey, dopts);
      ViewChooses(p, p.Received(view), plan.km, enc, SentKid(p, opts, recipients, j),
                  DecodeOptional(d.entries[j].encryptedKey).value, dkey, dopts);
    }
  }

  /**
   DecryptJSON returns the plaintext to a key that is the matching one for some recipients, and
   cannot open the entries of the others, in whatever order they are tried.
   */
  lemma MixedRecipientsRoundTrip(p: Primitives, plaintext: bytes, opts: EncryptOptions, recipients: seq<Recipient>,
                                 coins: seq<Coins>, iv: bytes, i: nat, dkey: KeyArg, dopts: DecryptOptions)
    requires p.Lawful() && |recipients| == |coins| && |iv| == 16 && forall i :: 0 <= i < |coins| ==> coins[i].Fit()
    requires EncryptJsonMulti(p, plaintext, opts, recipients, coins, iv).Ok?
    requires IsRecipient(p, opts, recipients, i, dkey, dopts)
    requires forall j :: 0 <= j < |recipients| ==>
               IsRecipient(p, opts, recipients, j, dkey, dopts) || IsExcluded(p, opts, recipients, j, dkey, dopts)
    requires ZipAccepted(SharedHeader(opts, |recipients|), plaintext, dopts)
    ensures var doc := ReceivedDocument(p, EncryptJsonMulti(p, plaintext, opts, recipients, coins, iv).value);
            var r := DecryptJson(p, doc, dkey, dopts);
            r.Ok? && r.value.0 == plaintext
  {
    hide EncryptJsonMulti, SharedHeader, IsRecipient, IsExcluded, Open, ReceivedDocument, DecryptJson, ZipAccepted,
         TrialsAgree, RecipientOrder, TryRecipient, OpenedEntry;
    hide p.Sized, p.AesLaw, p.GcmLaw, p.RsaLaw, p.EcdsaLaw, p.EdLaw, p.EcdhLaw, p.DeflateLaw, p.JsonLaw;
    MultiRecipientRoundTrip(p, plaintext, opts, recipients, coins, iv, i, dkey, dopts);
    EveryRecipientRecovers(p, plaintext, opts, recipients, coins, iv, i, dkey, dopts);
    var doc := ReceivedDocument(p, EncryptJsonMulti(p, plaintext, opts, recipients, coins, iv).value);
    var k := OpenedEntry(p, doc, dkey, dopts);
    if IsRecipient(p, opts, recipients, k, dkey, dopts) {
      EveryRecipientRecovers(p, plaintext, opts, recipients, coins, iv, k, dkey, dopts);
    } else {
      ExcludedTrialFails(p, plaintext, opts, recipients, coins, iv, k, dkey, dopts);
    }
  }

  // ---------------------------------------------------------------- party information

  /**
   The exact condition, on the sender's options alone, under which sender and recipient of a
   key agreement feed the KDF the same input.
   */
  lemma PartyInfoDecidesKdf(p: Primitives, plaintext: bytes, opts: EncryptOptions, recipients: seq<Recipient>,
                            coins: seq<Coins>, iv: bytes, i: nat)
    requires p.Lawful() && |recipients| == |coins| && |iv| == 16 && forall i :: 0 <= i < |coins| ==> coins[i].Fit()
    requires EncryptJsonMulti(p, plaintext, opts, recipients, coins, iv).Ok? && i < |recipients|
    ensures var n, shared := |recipients|, SharedHeader(opts, |recipients|);
            var doc := ReceivedDocument(p, EncryptJsonMulti(p, plaintext, opts, recipients, coins, iv).value);
            var plan := PlanRecipient(p, recipients[i], EncName(opts), shared, n);
            && plan.Ok? && Open(p, doc).Ok? && CarriesEntry(p, opts, recipients, coins, Open(p, doc).value, i)
            && var enc := C.LookupEnc(EncName(opts)).value;
               var sent := LoopResult(p, opts, recipients, coins).value.wrapped[i].header;
               var got := MergedView(Open(p, doc).value, i).value;
               plan.value.km.kind.EcdhKind? ==>
                 && KdfInput(plan.value.km, enc, sent).Ok?
                 && (KdfInput(plan.value.km, enc, got) == KdfInput(plan.value.km, enc, sent) <==>
                     PartyInfoIsSeen(plan.value.km, shared, opts.unprotected, n))
  {
    hide EncryptJsonMulti, C.LookupEnc, LoopResult, SharedHeader, PlanRecipient, EncryptKey, Open, ReceivedDocument,
         MergeHeaders, EncodeSegment, MergedView, KdfInput, PartyInfoIsSeen, ViewOf, Writes;
    hide p.Sized, p.AesLaw, p.GcmLaw, p.RsaLaw, p.EcdsaLaw, p.EdLaw, p.EcdhLaw, p.DeflateLaw, p.JsonLaw, p.Received;
    var n, shared := |recipients|, SharedHeader(opts, |recipients|);
    DocumentCarriesEntry(p, plaintext, opts, recipients, coins, iv, i);
    var enc, g := C.LookupEnc(EncName(opts)).value, LoopResult(p, opts, recipients, coins).value;
    var plan := PlanRecipient(p, recipients[i], enc.name, shared, n).value;
    if plan.km.kind.EcdhKind? {
      var w := g.wrapped[i];
      var given := if EncryptKey(p, plan.km, enc, plan.key, plan.header, None, coins[i]) == Ok(w) then None else g.cek;
      SenderHasKdfInput(p, plan.km, enc, plan.key, plan.header, given, coins[i]);
      PartyInfoCondition(p, plan.km, enc, w.header, shared, opts.unprotected, n);
    }
  }

  // ---------------------------------------------------------------- the rest of the protocol

  /** The JSON producer uses a recipient's key only as its JWK permits. */
  lemma RecipientKeyIsPermitted(p: Primitives, r: Recipient, encName: string, shared: Header, count: nat)
    requires PlanRecipient(p, r, encName, shared, count).Ok?
    ensures var plan := PlanRecipient(p, r, encName, shared, count).value;
            UsedAsPermitted(p, r.key, r.keyId, plan.key, "enc", [plan.km.name, encName], ENCRYPT_OPS)
  {
    hide LookupKeyMgmt, CheckJwkUsage, ResolveKey, KeyMgmtAlg, RecipientHeader, UsedAsPermitted, Fold;
    var plan := PlanRecipient(p, r, encName, shared, count).value;
    KeyUsedIsKeyChecked(p, r.key, r.keyId, "enc", [plan.km.name, encName], ENCRYPT_OPS);
  }

  lemma JweAadInjective(prot1: string, aad1: string, prot2: string, aad2: string)
    requires AllDigits(prot1) && AllDigits(aad1) && AllDigits(prot2) && AllDigits(aad2)
    requires JweAad(prot1, aad1) == JweAad(prot2, aad2)
    ensures prot1 == prot2 && aad1 == aad2
  {
    AadMarker(prot1, aad1);
    AadMarker(prot2, aad2);
    if aad1 != "" {
      SeparatorInjective(46, OctetsOf(prot1), OctetsOf(aad1), OctetsOf(prot2), OctetsOf(aad2));
      OctetsOfInjective(aad1, aad2);
    }
    OctetsOfInjective(prot1, prot2);
  }

  lemma AadMarker(prot: string, aad: string)
    requires AllDigits(prot)
    ensures 46 !in OctetsOf(prot)
    ensures 46 in JweAad(prot, aad) <==> aad != ""
  {
    if aad != "" {
      assert JweAad(prot, aad)[|prot|] == 46;
    }
  }

  /** What the tag of an AES-CBC-HMAC document covers determines all of it. */
  lemma AuthenticatedInputIsUnambiguous(prot1: string, aad1: string, iv1: bytes, c1: bytes,
                                        prot2: string, aad2: string, iv2: bytes, c2: bytes)
    requires AllDigits(prot1) && AllDigits(aad1) && AllDigits(prot2) && AllDigits(aad2)
    requires |iv1| == 16 && |iv2| == 16
    requires |JweAad(prot1, aad1)| * 8 < 0x1_0000_0000_0000_0000 && |JweAad(prot2, aad2)| * 8 < 0x1_0000_0000_0000_0000
    requires C.MacInput(iv1, c1, JweAad(prot1, aad1)) == C.MacInput(iv2, c2, JweAad(prot2, aad2))
    ensures prot1 == prot2 && aad1 == aad2 && iv1 == iv2 && c1 == c2
  {
    hide JweAad;
    C.MacInputInjective(iv1, c1, JweAad(prot1, aad1), iv2, c2, JweAad(prot2, aad2));
    JweAadInjective(prot1, aad1, prot2, aad2);
  }
}
