/**
 What a JWK stands for and which JWK a key argument selects, said in terms of its members, of
 big-endian octets and of the library's own checks.
 */
module JwkExact {
  import opened Octets
  import opened Outcomes
  import opened Keys
  import opened Primitives
  import opened Base64Url
  import opened Ecdh
  import opened JsonWebKeys
  import KeyMgmt

  // ---------------------------------------------------------------- members

  /** The member is the base64url text of these octets, of which there is at least one. */
  ghost predicate IsField(s: string, b: bytes) {
    b != [] && s == EncodeSegment(b)
  }

  ghost predicate IsNumber(s: string, n: nat) {
    exists b: bytes :: IsField(s, b) && FromBigEndian(b) == n
  }

  lemma FieldIs(s: string, b: bytes)
    ensures B64Field(s) == Ok(b) <==> IsField(s, b)
  {
    hide EncodeSegment, DecodeSegment;
    SegmentBijection(s, b);
    SegmentBijection(s, []);
    assert EncodeSegment([]) == "";
    if s != "" && DecodeSegment(s) == Ok([]) {
      OnlyEmptyDecodesToNothing(s);
    }
    if b != [] {
      EncodingIsLonger(b);
    }
  }

  lemma NumberIs(s: string, n: nat)
    ensures B64Int(s) == Ok(n) <==> IsNumber(s, n)
  {
    hide B64Field, IsField;
    if B64Int(s) == Ok(n) {
      FieldIs(s, B64Field(s).value);
    }
    if IsNumber(s, n) {
      var b: bytes :| IsField(s, b) && FromBigEndian(b) == n;
      FieldIs(s, b);
    }
  }

  // ---------------------------------------------------------------- JWK.Key

  ghost predicate IsCurve(name: string, c: Curve) {
    (name == "P-256" && c == P256) || (name == "P-384" && c == P384) || (name == "P-521" && c == P521)
  }

  ghost predicate IsRsaKey(p: Primitives, j: Jwk, k: GoKey) {
    if j.d == "" then
      k.RsaPublicKey? && IsNumber(j.n, k.n) && IsNumber(j.e, k.e) && 3 <= k.e < 0x8000_0000
    else
      && k.RsaPrivateKey? && IsNumber(j.n, k.rsa.n) && IsNumber(j.e, k.rsa.e) && 3 <= k.rsa.e < 0x8000_0000
      && IsNumber(j.d, k.rsa.d) && p.rsaValid(k.rsa)
      && if j.p != "" && j.q != "" then
           |k.rsa.primes| == 2 && IsNumber(j.p, k.rsa.primes[0]) && IsNumber(j.q, k.rsa.primes[1])
         else
           k.rsa.primes == []
  }

  ghost predicate IsEcKey(p: Primitives, j: Jwk, k: GoKey) {
    && (if j.d == "" then k.EcdsaPublicKey? else k.EcdsaPrivateKey?)
    && IsCurve(j.crv, k.curve) && IsNumber(j.x, k.x) && IsNumber(j.y, k.y) && p.onCurve(k.curve, k.x, k.y)
    && (k.EcdsaPrivateKey? ==> IsNumber(j.d, k.d) && 0 < k.d < p.curveOrder(k.curve))
  }

  ghost predicate IsOkpKey(p: Primitives, j: Jwk, k: GoKey) {
    || (j.crv == "Ed25519" &&
        exists x :: IsField(j.x, x) && |x| == 32 &&
                    if j.d == "" then k == EdPublicKey(x)
                    else exists d :: IsField(j.d, d) && |d| == 32 && k == EdPrivateKey(p.edFromSeed(d)))
    || (j.crv == "X25519" &&
        exists x :: IsField(j.x, x) &&
                    if j.d == "" then p.ValidPoint(X25519, x) && k == EcdhPublicKey(X25519, x)
                    else exists d :: IsField(j.d, d) && p.validScalar(X25519, d) && k == EcdhPrivateKey(X25519, d))
  }

  /** k is the key that the JWK stands for. */
  ghost predicate IsKeyOf(p: Primitives, j: Jwk, k: GoKey) {
    || (j.kty == "RSA" && IsRsaKey(p, j, k))
    || (j.kty == "EC" && IsEcKey(p, j, k))
    || (j.kty == "OKP" && IsOkpKey(p, j, k))
    || (j.kty == "oct" && k.Secret? && IsField(j.k, k.octets))
  }

  lemma RsaKeyIs(p: Primitives, j: Jwk, k: GoKey)
    ensures RsaKey(p, j) == Ok(k) <==> IsRsaKey(p, j, k)
  {
    hide B64Int, IsNumber;
    forall s, n: nat
      ensures B64Int(s) == Ok(n) <==> IsNumber(s, n)
    {
      NumberIs(s, n);
    }
    if k.RsaPrivateKey? && |k.rsa.primes| == 2 {
      assert k.rsa.primes == [k.rsa.primes[0], k.rsa.primes[1]];
    }
  }

  lemma EcKeyIs(p: Primitives, j: Jwk, k: GoKey)
    ensures EcKey(p, j) == Ok(k) <==> IsEcKey(p, j, k)
  {
    hide B64Int, IsNumber;
    forall s, n: nat
      ensures B64Int(s) == Ok(n) <==> IsNumber(s, n)
    {
      NumberIs(s, n);
    }
  }

  lemma OkpKeyIs(p: Primitives, j: Jwk, k: GoKey)
    ensures OkpKey(p, j) == Ok(k) <==> IsOkpKey(p, j, k)
  {
    hide B64Field, IsField, p.ValidPoint;
    forall s, b: bytes
      ensures B64Field(s) == Ok(b) <==> IsField(s, b)
    {
      FieldIs(s, b);
    }
  }

  /** A JWK resolves to exactly the key that it stands for. */
  lemma ResolvingIsExact(p: Primitives, j: Jwk, k: GoKey)
    ensures Resolve(p, j) == Ok(k) <==> IsKeyOf(p, j, k)
  {
    hide RsaKey, EcKey, OkpKey, B64Field, IsRsaKey, IsEcKey, IsOkpKey, IsField;
    RsaKeyIs(p, j, k);
    EcKeyIs(p, j, k);
    OkpKeyIs(p, j, k);
    if k.Secret? {
      FieldIs(j.k, k.octets);
    }
  }

  /** A JWK is private exactly when the key it stands for is. */
  lemma PrivateIsExact(p: Primitives, j: Jwk, k: GoKey)
    requires Resolve(p, j) == Ok(k)
    ensures IsPrivate(j) <==>
            k.RsaPrivateKey? || k.EcdsaPrivateKey? || k.EdPrivateKey? || k.EcdhPrivateKey? || k.Secret?
  {
    hide B64Int, DecodeSegment, p.ValidPoint;
  }

  // ---------------------------------------------------------------- FromKey

  /** The members of an EC key: fixed-width coordinates under the curve's name (section 6.2 of RFC 7518). */
  lemma EcMembers(c: Curve, x: nat, y: nat)
    requires IsNist(c) && x < Pow256(CoordSize(c)) && y < Pow256(CoordSize(c))
    ensures var j := FromEcPublic(c, x, y);
            && j.Ok? && j.value.kty == "EC" && IsCurve(j.value.crv, c)
            && var size := if c == P256 then 32 else if c == P384 then 48 else 66;
               && IsField(j.value.x, BigEndian(x, size)) && IsField(j.value.y, BigEndian(y, size))
               && j.value == EMPTY_JWK.(kty := "EC", crv := j.value.crv, x := j.value.x, y := j.value.y)
  {
    hide EncodeSegment, BigEndian, Pow256;
  }

  /** The header value of an ephemeral EC key has these four members and no other. */
  lemma EpkMembers(c: Curve, x: nat, y: nat)
    requires IsNist(c) && x < Pow256(CoordSize(c)) && y < Pow256(CoordSize(c))
    ensures var j := FromEcPublic(c, x, y).value;
            KeyMgmt.JwkToValue(j) ==
            Object(map["kty" := Str("EC"), "crv" := Str(j.crv), "x" := Str(j.x), "y" := Str(j.y)])
  {
    hide EncodeSegment, BigEndian, Pow256, IsField, FromEcPublic;
    EcMembers(c, x, y);
    var j := FromEcPublic(c, x, y).value;
    FieldIsText(j.x, BigEndian(x, CoordSize(c)));
    FieldIsText(j.y, BigEndian(y, CoordSize(c)));
    OnlyTheseMembers(j);
  }

  lemma FieldIsText(s: string, b: bytes)
    requires IsField(s, b)
    ensures s != ""
  {
    hide EncodeSegment;
    EncodingIsLonger(b);
  }

  lemma OnlyTheseMembers(j: Jwk)
    requires j == EMPTY_JWK.(kty := "EC", crv := j.crv, x := j.x, y := j.y) && j.crv != "" && j.x != "" && j.y != ""
    ensures KeyMgmt.JwkToValue(j) ==
            Object(map["kty" := Str("EC"), "crv" := Str(j.crv), "x" := Str(j.x), "y" := Str(j.y)])
  {
    hide KeyMgmt.TextMember;
    KeyMgmt.TextMembers(j);
    var expected: map<string, Value> := map["kty" := Str("EC"), "crv" := Str(j.crv), "x" := Str(j.x), "y" := Str(j.y)];
    forall n | n in KeyMgmt.TEXT_MEMBERS
      ensures (n == "kty" || KeyMgmt.TextMember(j, n) != "") <==> n in expected
      ensures n in expected ==> expected[n] == Str(KeyMgmt.TextMember(j, n))
    {
    }
  }

  // ---------------------------------------------------------------- selection

  /** The JWK that a key argument selects under a kid. */
  ghost predicate IsSelected(key: KeyArg, kid: string, j: Jwk) {
    || key == JwkArg(Some(j))
    || (key.JwkSetArg? && key.keys.Some? &&
        var keys := key.keys.value;
        if kid == "" && |keys| == 1 then keys[0] == Some(j)
        else j.kid == kid &&
             exists i :: 0 <= i < |keys| && keys[i] == Some(j) &&
                         forall e :: 0 <= e < i ==> keys[e] == None || keys[e].value.kid != kid)
  }

  lemma SelectionIsExact(key: KeyArg, kid: string, j: Jwk)
    ensures SelectJwk(key, kid) == Some(j) <==> IsSelected(key, kid, j)
  {
    hide LookupKeyId;
    if key.JwkSetArg? && key.keys.Some? {
      var keys := key.keys.value;
      LookupIsFirst(keys, kid);
      if i :| 0 <= i < |keys| && keys[i] == Some(j) && j.kid == kid &&
              forall e :: 0 <= e < i ==> keys[e] == None || keys[e].value.kid != kid {
        assert LookupKeyId(keys, kid).Some?;
        var f :| 0 <= f < |keys| && keys[f] == LookupKeyId(keys, kid) && keys[f].value.kid == kid &&
                 forall e :: 0 <= e < f ==> keys[e].None? || keys[e].value.kid != kid;
        assert f == i;
      }
    }
  }

  /** resolveKey yields a raw key, or the key that the selected JWK stands for. */
  lemma ResolveKeyIsExact(p: Primitives, key: KeyArg, kid: string, k: GoKey)
    ensures ResolveKey(p, key, kid) == Ok(k) <==>
            key == RawKey(k) || exists j :: IsSelected(key, kid, j) && Resolve(p, j) == Ok(k)
  {
    hide Resolve, LookupKeyId, IsSelected;
    if SelectJwk(key, kid).Some? {
      SelectionIsExact(key, kid, SelectJwk(key, kid).value);
    }
    if j :| IsSelected(key, kid, j) && Resolve(p, j) == Ok(k) {
      SelectionIsExact(key, kid, j);
    }
  }

  /** A set without the wanted key has an error of its own. */
  lemma MissingKeyIsNotFound(p: Primitives, keys: seq<Option<Jwk>>, kid: string)
    requires !(kid == "" && |keys| == 1) && forall i :: 0 <= i < |keys| ==> keys[i].None? || keys[i].value.kid != kid
    ensures ResolveKey(p, JwkSetArg(Some(keys)), kid) == Err(KeyNotFound)
  {
    hide LookupKeyId, Resolve;
    LookupIsFirst(keys, kid);
  }

  /** Which restriction refuses the operation, in the order use, alg, key_ops. */
  lemma RefusedUsage(key: KeyArg, kid: string, j: Jwk, use: string, algs: seq<string>, ops: seq<string>)
    requires IsSelected(key, kid, j)
    ensures var r := CheckJwkUsage(key, kid, use, algs, ops);
            && (r == Fail(KeyUseMismatch) <==> j.use != "" && j.use != use)
            && (r == Fail(KeyAlgMismatch) <==> (j.use == "" || j.use == use) && j.alg != "" && j.alg !in algs)
            && (r == Fail(KeyOpsMismatch) <==>
                  && (j.use == "" || j.use == use) && (j.alg == "" || j.alg in algs)
                  && j.keyOps != [] && forall i :: 0 <= i < |ops| ==> ops[i] !in j.keyOps)
  {
    hide IsSelected;
    SelectionIsExact(key, kid, j);
  }
}
