/** JWE key management (jwa_keymgmt.go): delivering a content encryption key to a recipient. */
module KeyMgmt {
  import opened Octets
  import opened Outcomes
  import opened Keys
  import opened Primitives
  import opened Base64Url
  import opened JsonWebKeys
  import opened Ecdh
  import opened ContentEnc
  import opened Signatures
  import ConcatKdf
  import KeyWrap
  import Pbkdf2

  // ---------------------------------------------------------------- the algorithms

  datatype Kind = RsaKind | KwKind | DirKind | EcdhKind | GcmKwKind | Pbes2Kind

  datatype Mgmt = Mgmt(name: string, kind: Kind, oaepHash: Option<HashAlg>, wrapBits: nat, prf: HashAlg) {
    /** The shape of every table entry. */
    predicate Valid() {
      && (kind.KwKind? || kind.GcmKwKind? || kind.Pbes2Kind? ==> wrapBits in {128, 192, 256})
      && (kind.EcdhKind? ==> wrapBits in {0, 128, 192, 256})
      && (kind.Pbes2Kind? ==> HashLen(prf) * 4 == wrapBits)
    }

    function WrapKeySize(): nat {
      wrapBits / 8
    }

    /** The algorithms that produce the CEK instead of transporting one. */
    predicate DerivesCek() {
      kind.DirKind? || (kind.EcdhKind? && wrapBits == 0)
    }

    /** The header parameters that the algorithm writes when encrypting. */
    function Outputs(): set<string> {
      match kind
      case EcdhKind => {"epk"}
      case GcmKwKind => {"iv", "tag"}
      case Pbes2Kind => {"p2s", "p2c"}
      case _ => {}
    }
  }

  /** The header gains or changes these parameters, and no other. */
  ghost predicate Writes(h: Header, h': Header, names: set<string>) {
    && h'.Keys == h.Keys + names
    && forall n :: n in h && n !in names ==> h'[n] == h[n]
  }

  function LookupKeyMgmt(alg: string): (r: Result<Mgmt>)
    ensures r.Ok? ==> r.value.Valid() && r.value.name == alg
  {
    if alg == "RSA1_5" then Ok(Mgmt(alg, RsaKind, None, 0, SHA256))
    else if alg == "RSA-OAEP" then Ok(Mgmt(alg, RsaKind, Some(SHA1), 0, SHA256))
    else if alg == "RSA-OAEP-256" then Ok(Mgmt(alg, RsaKind, Some(SHA256), 0, SHA256))
    else if alg == "A128KW" then Ok(Mgmt(alg, KwKind, None, 128, SHA256))
    else if alg == "A192KW" then Ok(Mgmt(alg, KwKind, None, 192, SHA256))
    else if alg == "A256KW" then Ok(Mgmt(alg, KwKind, None, 256, SHA256))
    else if alg == "dir" then Ok(Mgmt(alg, DirKind, None, 0, SHA256))
    else if alg == "ECDH-ES" then Ok(Mgmt(alg, EcdhKind, None, 0, SHA256))
    else if alg == "ECDH-ES+A128KW" then Ok(Mgmt(alg, EcdhKind, None, 128, SHA256))
    else if alg == "ECDH-ES+A192KW" then Ok(Mgmt(alg, EcdhKind, None, 192, SHA256))
    else if alg == "ECDH-ES+A256KW" then Ok(Mgmt(alg, EcdhKind, None, 256, SHA256))
    else if alg == "A128GCMKW" then Ok(Mgmt(alg, GcmKwKind, None, 128, SHA256))
    else if alg == "A192GCMKW" then Ok(Mgmt(alg, GcmKwKind, None, 192, SHA256))
    else if alg == "A256GCMKW" then Ok(Mgmt(alg, GcmKwKind, None, 256, SHA256))
    else if alg == "PBES2-HS256+A128KW" then Ok(Mgmt(alg, Pbes2Kind, None, 128, SHA256))
    else if alg == "PBES2-HS384+A192KW" then Ok(Mgmt(alg, Pbes2Kind, None, 192, SHA384))
    else if alg == "PBES2-HS512+A256KW" then Ok(Mgmt(alg, Pbes2Kind, None, 256, SHA512))
    else Err(UnsupportedAlgorithm)
  }

  /** The seventeen names of section 4.1 of RFC 7518 are found, and no other; two of them derive the CEK. */
  lemma KeyMgmtNames(alg: string)
    ensures LookupKeyMgmt(alg).Ok? <==>
            alg in {"RSA1_5", "RSA-OAEP", "RSA-OAEP-256", "A128KW", "A192KW", "A256KW", "dir", "ECDH-ES",
                    "ECDH-ES+A128KW", "ECDH-ES+A192KW", "ECDH-ES+A256KW", "A128GCMKW", "A192GCMKW", "A256GCMKW",
                    "PBES2-HS256+A128KW", "PBES2-HS384+A192KW", "PBES2-HS512+A256KW"}
    ensures LookupKeyMgmt(alg).Ok? ==> (LookupKeyMgmt(alg).value.DerivesCek() <==> alg == "dir" || alg == "ECDH-ES")
    ensures LookupKeyMgmt(alg).Err? ==> LookupKeyMgmt(alg).error == UnsupportedAlgorithm
  {
  }

  /** What each name stands for: the kind of the algorithm ... */
  lemma KeyMgmtKinds(alg: string)
    requires LookupKeyMgmt(alg).Ok?
    ensures var kind := LookupKeyMgmt(alg).value.kind;
            && (kind.RsaKind? <==> alg in {"RSA1_5", "RSA-OAEP", "RSA-OAEP-256"})
            && (kind.KwKind? <==> alg in {"A128KW", "A192KW", "A256KW"})
            && (kind.DirKind? <==> alg == "dir")
            && (kind.EcdhKind? <==> alg in {"ECDH-ES", "ECDH-ES+A128KW", "ECDH-ES+A192KW", "ECDH-ES+A256KW"})
            && (kind.GcmKwKind? <==> alg in {"A128GCMKW", "A192GCMKW", "A256GCMKW"})
            && (kind.Pbes2Kind? <==> alg in {"PBES2-HS256+A128KW", "PBES2-HS384+A192KW", "PBES2-HS512+A256KW"})
  {
  }

  /** ... the OAEP hash, of which RSA1_5 has none, and the PRF of PBES2 ... */
  lemma KeyMgmtHashes(alg: string)
    requires LookupKeyMgmt(alg).Ok?
    ensures var km := LookupKeyMgmt(alg).value;
            && (km.oaepHash == Some(SHA1) <==> alg == "RSA-OAEP")
            && (km.oaepHash == Some(SHA256) <==> alg == "RSA-OAEP-256")
            && (km.oaepHash == None <==> alg != "RSA-OAEP" && alg != "RSA-OAEP-256")
            && (alg == "PBES2-HS256+A128KW" ==> km.prf == SHA256)
            && (alg == "PBES2-HS384+A192KW" ==> km.prf == SHA384)
            && (alg == "PBES2-HS512+A256KW" ==> km.prf == SHA512)
  {
  }

  /** ... and the size of the key that wraps the CEK, if one does. */
  lemma KeyMgmtSizes(alg: string)
    requires LookupKeyMgmt(alg).Ok?
    ensures var bits := LookupKeyMgmt(alg).value.wrapBits;
            && (bits == 128 <==> alg in {"A128KW", "A128GCMKW", "ECDH-ES+A128KW", "PBES2-HS256+A128KW"})
            && (bits == 192 <==> alg in {"A192KW", "A192GCMKW", "ECDH-ES+A192KW", "PBES2-HS384+A192KW"})
            && (bits == 256 <==> alg in {"A256KW", "A256GCMKW", "ECDH-ES+A256KW", "PBES2-HS512+A256KW"})
            && (bits == 0 <==> alg in {"RSA1_5", "RSA-OAEP", "RSA-OAEP-256", "dir", "ECDH-ES"})
  {
  }

  /** The algorithm that is taken for a key of each type, when none is named. */
  lemma DefaultKeyMgmtAlgs(key: GoKey)
    ensures DefaultKeyMgmtAlg(key) == Ok("RSA-OAEP-256") <==> key.RsaPublicKey? || key.RsaPrivateKey?
    ensures DefaultKeyMgmtAlg(key) == Ok("ECDH-ES") <==>
            key.EcdsaPublicKey? || key.EcdsaPrivateKey? || key.EcdhPublicKey? || key.EcdhPrivateKey?
    ensures DefaultKeyMgmtAlg(key) == Ok("A128KW") <==> key.Secret? && |key.octets| == 16
    ensures DefaultKeyMgmtAlg(key) == Ok("A192KW") <==> key.Secret? && |key.octets| == 24
    ensures DefaultKeyMgmtAlg(key) == Ok("A256KW") <==> key.Secret? && |key.octets| == 32
    ensures DefaultKeyMgmtAlg(key) == Err(InvalidKey) <==>
            key.Secret? && |key.octets| != 16 && |key.octets| != 24 && |key.octets| != 32
    ensures DefaultKeyMgmtAlg(key) == Err(InvalidKeyType) <==>
            key.Password? || key.EdPublicKey? || key.EdPrivateKey? || key.OtherKey?
  {
  }

  /** defaultKeyMgmtAlg. */
  function DefaultKeyMgmtAlg(key: GoKey): Result<string> {
    match key
    case RsaPublicKey(_, _) => Ok("RSA-OAEP-256")
    case RsaPrivateKey(_) => Ok("RSA-OAEP-256")
    case EcdsaPublicKey(_, _, _) => Ok("ECDH-ES")
    case EcdsaPrivateKey(_, _, _, _) => Ok("ECDH-ES")
    case EcdhPublicKey(_, _) => Ok("ECDH-ES")
    case EcdhPrivateKey(_, _) => Ok("ECDH-ES")
    case Secret(b) =>
      if |b| == 16 then Ok("A128KW")
      else if |b| == 24 then Ok("A192KW")
      else if |b| == 32 then Ok("A256KW")
      else Err(InvalidKey)
    case _ => Err(InvalidKeyType)
  }

  // ---------------------------------------------------------------- randomness

  /** What the random source yields during one encryptKey; a CEK takes as many octets as it needs. */
  datatype Coins = Coins(cek: bytes, rsaSeed: bytes, gcmIv: bytes, salt: bytes, ephemeral: bytes) {
    predicate Fit() {
      |cek| == 64 && |gcmIv| == 12 && |salt| == 16
    }
  }

  // ---------------------------------------------------------------- key and header coercions

  function SymmetricKey(key: GoKey, size: nat): (r: Result<bytes>)
    ensures r.Ok? ==> |r.value| == size && key == Secret(r.value)
  {
    if !key.Secret? then Err(InvalidKeyType)
    else if |key.octets| != size then Err(InvalidKey)
    else Ok(key.octets)
  }

  function PasswordKey(key: GoKey): Result<bytes> {
    match key
    case Secret(b) => if b == [] then Err(InvalidKey) else Ok(b)
    case Password(s) => if s == "" then Err(InvalidKey) else Ok(OctetsOf(s))
    case _ => Err(InvalidKeyType)
  }

  function HeaderBytes(h: Header, name: string): Result<bytes> {
    if name !in h then Err(InvalidHeader)
    else if !h[name].Str? then Err(InvalidHeader)
    else
      match DecodeSegment(h[name].text)
      case Ok(b) => Ok(b)
      case Err(_) => Err(InvalidHeader)
  }

  function HeaderBytesOptional(h: Header, name: string): Result<bytes> {
    if name !in h then Ok([]) else HeaderBytes(h, name)
  }

  /** headerInt: an int set in Go, or a whole float64 in the 32-bit range from JSON. */
  function HeaderInt(v: Value): Result<int> {
    match v
    case Float(r) =>
      if r < -2147483648.0 || r > 2147483647.0 || r != r.Floor as real then Err(InvalidHeader) else Ok(r.Floor)
    case Int(n) => Ok(n)
    case _ => Err(InvalidHeader)
  }

  // ---------------------------------------------------------------- "epk" as a header value

  const TEXT_MEMBERS: set<string> :=
    {"kty", "use", "alg", "kid", "crv", "n", "e", "d", "p", "q", "x", "y", "k"}

  function TextMember(j: Jwk, name: string): string
    requires name in TEXT_MEMBERS
  {
    if name == "kty" then j.kty
    else if name == "use" then j.use
    else if name == "alg" then j.alg
    else if name == "kid" then j.kid
    else if name == "crv" then j.crv
    else if name == "n" then j.n
    else if name == "e" then j.e
    else if name == "d" then j.d
    else if name == "p" then j.p
    else if name == "q" then j.q
    else if name == "x" then j.x
    else if name == "y" then j.y
    else j.k
  }

  /** jwkToMap for a key without "key_ops": empty members are omitted, except "kty". */
  function JwkToValue(j: Jwk): Value
    requires j.keyOps == []
  {
    Object(map n | n in TEXT_MEMBERS && (n == "kty" || TextMember(j, n) != "") :: Str(TextMember(j, n)))
  }

  /** How encoding/json fills a string field: absent and null leave it empty. */
  function MemberText(m: map<string, Value>, name: string): Result<string> {
    if name !in m || m[name].Null? then Ok("")
    else if m[name].Str? then Ok(m[name].text)
    else Err(InvalidKey)
  }

  /** How encoding/json fills a list of strings: a null item is empty. */
  function TextsOrNulls(vs: seq<Value>): Result<seq<string>> {
    if forall i :: 0 <= i < |vs| ==> vs[i].Str? || vs[i].Null?
    then Ok(seq(|vs|, i requires 0 <= i < |vs| => if vs[i].Str? then vs[i].text else ""))
    else Err(InvalidKey)
  }

  function KeyOpsOf(m: map<string, Value>): Result<seq<string>> {
    if "key_ops" !in m || m["key_ops"].Null? then Ok([])
    else if m["key_ops"].List? then TextsOrNulls(m["key_ops"].items)
    else if m["key_ops"].Strings? then Ok(m["key_ops"].strings)
    else Err(InvalidKey)
  }

  function MembersToJwk(m: map<string, Value>): Result<Jwk> {
    var kty :- MemberText(m, "kty");
    var use :- MemberText(m, "use");
    var alg :- MemberText(m, "alg");
    var kid :- MemberText(m, "kid");
    var crv :- MemberText(m, "crv");
    var ops :- KeyOpsOf(m);
    var n :- MemberText(m, "n");
    var e :- MemberText(m, "e");
    var d :- MemberText(m, "d");
    var p :- MemberText(m, "p");
    var q :- MemberText(m, "q");
    var x :- MemberText(m, "x");
    var y :- MemberText(m, "y");
    var k :- MemberText(m, "k");
    Ok(Jwk(kty, use, alg, kid, crv, ops, n, e, d, p, q, x, y, k))
  }

  /** ParseJWK of a header value: an object that resolves to a key. */
  function ParseJwk(p: Primitives, v: Value): Result<Jwk> {
    match v
    case Object(m) =>
      var j :- MembersToJwk(m);
      var _ :- Resolve(p, j);
      Ok(j)
    case _ => Err(InvalidKey)
  }

  lemma MemberRoundTrip(p: Primitives, j: Jwk, name: string)
    requires j.keyOps == [] && name in TEXT_MEMBERS
    ensures MemberText(p.ReceivedValue(JwkToValue(j)).members, name) == Ok(TextMember(j, name))
  {
  }

  lemma JwkValueRoundTrip(p: Primitives, j: Jwk)
    requires j.keyOps == [] && Resolve(p, j).Ok?
    ensures ParseJwk(p, p.ReceivedValue(JwkToValue(j))) == Ok(j)
  {
    hide MemberText, TextMember;
    var m := p.ReceivedValue(JwkToValue(j)).members;
    assert MembersToJwk(m) == Ok(j) by {
      hide Resolve;
      forall n | n in TEXT_MEMBERS
        ensures MemberText(m, n) == Ok(TextMember(j, n))
      {
        MemberRoundTrip(p, j, n);
      }
      TextMembers(j);
      assert "key_ops" !in TEXT_MEMBERS;
    }
  }

  lemma TextMembers(j: Jwk)
    ensures TextMember(j, "kty") == j.kty && TextMember(j, "use") == j.use && TextMember(j, "alg") == j.alg
    ensures TextMember(j, "kid") == j.kid && TextMember(j, "crv") == j.crv && TextMember(j, "n") == j.n
    ensures TextMember(j, "e") == j.e && TextMember(j, "d") == j.d && TextMember(j, "p") == j.p
    ensures TextMember(j, "q") == j.q && TextMember(j, "x") == j.x && TextMember(j, "y") == j.y
    ensures TextMember(j, "k") == j.k
  {
  }

  // ---------------------------------------------------------------- wrapping the key

  /** The outcome of encryptKey: the CEK, the encrypted key, and the header as it leaves it. */
  datatype Wrapped = Wrapped(cek: bytes, encryptedKey: bytes, header: Header)

  function EcdhAlgId(km: Mgmt, enc: Enc): (string, nat) {
    if km.wrapBits == 0 then (enc.name, enc.keySize) else (km.name, km.WrapKeySize())
  }

  /** The agreed key, from either side, with the party information of the header. */
  function Agree(p: Primitives, km: Mgmt, enc: Enc, priv: Scalar, pub: Point, h: Header): (r: Result<bytes>)
    requires p.Sized()
    ensures r.Ok? ==> |r.value| == EcdhAlgId(km, enc).1
  {
    var apu :- HeaderBytesOptional(h, "apu");
    var apv :- HeaderBytesOptional(h, "apv");
    var (algID, keyLen) := EcdhAlgId(km, enc);
    EcdhDerive(p, priv, pub, algID, apu, apv, keyLen)
  }

  function EncryptKeyEcdh(p: Primitives, km: Mgmt, enc: Enc, key: GoKey, h: Header, cek: bytes, coins: Coins)
    : (r: Result<Wrapped>)
    requires p.Sized()
    ensures r.Ok? ==> Writes(h, r.value.header, {"epk"})
    ensures r.Ok? ==> if km.wrapBits == 0 then |r.value.cek| == enc.keySize else r.value.cek == cek
  {
    var pub :- AsEcdhPublic(p, key);
    var eph := Scalar(pub.curve, p.ecdhGenerate(pub.curve, coins.ephemeral));
    var epk :- FromEcdhPublic(Point(pub.curve, p.ecdhPublic(pub.curve, eph.octets)));
    var h' := h["epk" := JwkToValue(epk)];
    var agreed :- Agree(p, km, enc, eph, pub, h');
    if km.wrapBits == 0 then Ok(Wrapped(agreed, [], h'))
    else
      var ek :- KeyWrap.Wrap(p, agreed, cek);
      Ok(Wrapped(cek, ek, h'))
  }

  function Pbes2Count(h: Header): Result<int> {
    var count :- if "p2c" in h then HeaderInt(h["p2c"]) else Ok(Pbkdf2.DEFAULT_COUNT);
    if count < Pbkdf2.MIN_COUNT || count > Pbkdf2.MAX_COUNT then Err(IterationCount) else Ok(count)
  }

  function Pbes2Kek(p: Primitives, km: Mgmt, password: bytes, salt: bytes, count: int): Result<bytes>
    requires p.Sized()
  {
    Pbkdf2.Derive(Pbkdf2.Params(p, km.prf, password, Pbkdf2.SaltInput(km.name, salt)), count, km.WrapKeySize())
  }

  function CheckSalt(salt: bytes): Outcome {
    if |salt| < 8 || |salt| > Pbkdf2.MAX_SALT_INPUT then Fail(InvalidHeader) else Pass
  }

  function EncryptKeyPbes2(p: Primitives, km: Mgmt, key: GoKey, h: Header, cek: bytes, coins: Coins)
    : (r: Result<Wrapped>)
    requires p.Sized()
    ensures r.Ok? ==> Writes(h, r.value.header, {"p2s", "p2c"}) && r.value.cek == cek
  {
    var password :- PasswordKey(key);
    var count :- Pbes2Count(h);
    var salt :- if "p2s" in h then HeaderBytes(h, "p2s") else Ok(coins.salt);
    :- CheckSalt(salt);
    var h' := h["p2s" := Str(EncodeSegment(salt))]["p2c" := Int(count)];
    var kek :- Pbes2Kek(p, km, password, salt, count);
    var ek :- KeyWrap.Wrap(p, kek, cek);
    Ok(Wrapped(cek, ek, h'))
  }

  function EncryptKeyGcm(p: Primitives, kek: bytes, h: Header, cek: bytes, coins: Coins): (r: Result<Wrapped>)
    requires p.Sized() && |coins.gcmIv| == 12
    ensures r.Ok? ==> Writes(h, r.value.header, {"iv", "tag"}) && r.value.cek == cek
  {
    if !IsAesKey(kek) then Err(InvalidKey) else
      var s := EncryptGcm(p, kek, cek, [], coins.gcmIv);
      Ok(Wrapped(cek, s.ciphertext, h["iv" := Str(EncodeSegment(s.iv))]["tag" := Str(EncodeSegment(s.tag))]))
  }

  function EncryptKeyRsa(p: Primitives, km: Mgmt, key: GoKey, h: Header, cek: bytes, coins: Coins): (r: Result<Wrapped>)
    ensures r.Ok? ==> r.value.header == h && r.value.cek == cek
  {
    var (n, e) :- RsaPublic(key);
    var ek :- OrElse(p.rsaEncrypt(km.oaepHash, n, e, coins.rsaSeed, cek), Library);
    Ok(Wrapped(cek, ek, h))
  }

  /** keyMgmt.encryptKey; `shared` is the CEK of the earlier recipients, if there are any. */
  function EncryptKey(p: Primitives, km: Mgmt, enc: Enc, key: GoKey, h: Header, shared: Option<bytes>, coins: Coins)
    : (r: Result<Wrapped>)
    requires p.Sized() && enc.Valid() && coins.Fit()
    ensures r.Ok? ==> Writes(h, r.value.header, km.Outputs())
    ensures r.Ok? && shared.Some? ==> r.value.cek == shared.value && !km.DerivesCek()
    ensures r.Ok? && shared.None? ==> |r.value.cek| == enc.keySize
  {
    if shared.Some? && km.DerivesCek() then Err(UnsupportedAlgorithm) else
      var cek := if shared.Some? then shared.value else coins.cek[..enc.keySize];
      match km.kind
      case RsaKind => EncryptKeyRsa(p, km, key, h, cek, coins)
      case KwKind =>
        var kek :- SymmetricKey(key, km.WrapKeySize());
        var ek :- KeyWrap.Wrap(p, kek, cek);
        Ok(Wrapped(cek, ek, h))
      case DirKind =>
        var derived :- SymmetricKey(key, enc.keySize);
        Ok(Wrapped(derived, [], h))
      case EcdhKind => EncryptKeyEcdh(p, km, enc, key, h, cek, coins)
      case GcmKwKind =>
        var kek :- SymmetricKey(key, km.WrapKeySize());
        EncryptKeyGcm(p, kek, h, cek, coins)
      case Pbes2Kind => EncryptKeyPbes2(p, km, key, h, cek, coins)
  }

  // ---------------------------------------------------------------- recovering the key

  function EpkPoint(p: Primitives, h: Header): Result<Point> {
    if "epk" !in h then Err(InvalidHeader) else
      var epk :- ParseJwk(p, h["epk"]);
      if IsPrivate(epk) then Err(InvalidHeader) else
        var k :- Resolve(p, epk);
        if k.EcdhPublicKey? || k.EcdsaPublicKey? then AsEcdhPublic(p, k) else Err(InvalidHeader)
  }

  function DecryptKeyEcdh(p: Primitives, km: Mgmt, enc: Enc, key: GoKey, h: Header, ek: bytes): Result<bytes>
    requires p.Sized()
  {
    var priv :- AsEcdhPrivate(p, key);
    var pub :- EpkPoint(p, h);
    var agreed :- Agree(p, km, enc, priv, pub, h);
    if km.wrapBits != 0 then KeyWrap.Unwrap(p, agreed, ek)
    else if ek != [] then Err(Malformed)
    else Ok(agreed)
  }

  function DecryptKeyPbes2(p: Primitives, km: Mgmt, key: GoKey, h: Header, ek: bytes): Result<bytes>
    requires p.Sized()
  {
    var password :- PasswordKey(key);
    if "p2c" !in h then Err(InvalidHeader) else
      var count :- Pbes2Count(h);
      var salt :- HeaderBytes(h, "p2s");
      :- CheckSalt(salt);
      var kek :- Pbes2Kek(p, km, password, salt, count);
      KeyWrap.Unwrap(p, kek, ek)
  }

  function DecryptKeyGcm(p: Primitives, kek: bytes, h: Header, ek: bytes): Result<bytes> {
    var iv :- HeaderBytes(h, "iv");
    var tag :- HeaderBytes(h, "tag");
    if !IsAesKey(kek) then Err(InvalidKey) else DecryptGcm(p, kek, Sealed(iv, ek, tag), [])
  }

  function DecryptKeyRsa(p: Primitives, km: Mgmt, enc: Enc, key: GoKey, ek: bytes): Result<bytes> {
    if !key.RsaPrivateKey? then Err(InvalidKeyType)
    else OrElse(p.rsaDecrypt(km.oaepHash, key.rsa, ek, Repeat(0, enc.keySize)), DecryptFailed)
  }

  /** keyMgmt.decryptKey. */
  function DecryptKey(p: Primitives, km: Mgmt, enc: Enc, key: GoKey, h: Header, ek: bytes): Result<bytes>
    requires p.Sized()
  {
    match km.kind
    case RsaKind => DecryptKeyRsa(p, km, enc, key, ek)
    case KwKind =>
      var kek :- SymmetricKey(key, km.WrapKeySize());
      KeyWrap.Unwrap(p, kek, ek)
    case DirKind => if ek != [] then Err(Malformed) else SymmetricKey(key, enc.keySize)
    case EcdhKind => DecryptKeyEcdh(p, km, enc, key, h, ek)
    case GcmKwKind =>
      var kek :- SymmetricKey(key, km.WrapKeySize());
      DecryptKeyGcm(p, kek, h, ek)
    case Pbes2Kind => DecryptKeyPbes2(p, km, key, h, ek)
  }

  /** The key is of a type and size that decryptKey can work with at all. */
  predicate KeyFits(p: Primitives, km: Mgmt, enc: Enc, key: GoKey) {
    match km.kind
    case RsaKind => key.RsaPrivateKey?
    case DirKind => SymmetricKey(key, enc.keySize).Ok?
    case EcdhKind => AsEcdhPrivate(p, key).Ok?
    case Pbes2Kind => PasswordKey(key).Ok?
    case _ => SymmetricKey(key, km.WrapKeySize()).Ok?
  }

  lemma UnfitKeyFails(p: Primitives, km: Mgmt, enc: Enc, key: GoKey, h: Header, ek: bytes)
    requires p.Sized() && !KeyFits(p, km, enc, key)
    ensures DecryptKey(p, km, enc, key, h, ek).Err?
  {
  }

  // ---------------------------------------------------------------- what was wrapped is recovered

  /** `dk` is the recipient's own half of the key that `k` was given to the sender as. */
  ghost predicate Opens(p: Primitives, km: Mgmt, k: GoKey, dk: GoKey) {
    match km.kind
    case RsaKind => dk.RsaPrivateKey? && p.rsaValid(dk.rsa) && RsaPublic(k) == Ok((dk.rsa.n, dk.rsa.e))
    case EcdhKind =>
      && AsEcdhPrivate(p, dk).Ok?
      && var s := AsEcdhPrivate(p, dk).value;
         IsEcdh(s.curve) && p.validScalar(s.curve, s.octets) &&
         AsEcdhPublic(p, k) == Ok(Point(s.curve, p.ecdhPublic(s.curve, s.octets)))
    case Pbes2Kind => PasswordKey(dk) == PasswordKey(k)
    case _ => dk == k
  }

  /** The recipient sees the named parameters exactly as the sender left them. */
  ghost predicate ParamsAgree(p: Primitives, names: set<string>, sent: Header, got: Header) {
    forall n :: n in names ==> (n in got <==> n in sent) && (n in sent ==> got[n] == p.ReceivedValue(sent[n]))
  }

  /** Both headers give the key agreement the same "apu" and "apv" octets. */
  ghost predicate SamePartyInfo(sent: Header, got: Header) {
    && HeaderBytesOptional(got, "apu") == HeaderBytesOptional(sent, "apu")
    && HeaderBytesOptional(got, "apv") == HeaderBytesOptional(sent, "apv")
  }

  /** The recipient's header shows what the algorithm needs, as the sender left it. */
  ghost predicate Visible(p: Primitives, km: Mgmt, sent: Header, got: Header) {
    ParamsAgree(p, km.Outputs(), sent, got) && (km.kind.EcdhKind? ==> SamePartyInfo(sent, got))
  }

  lemma PartyInfoReceived(p: Primitives, h: Header)
    ensures SamePartyInfo(h, p.Received(h))
  {
  }

  /** The OtherInfo that a key agreement over this header feeds the KDF. */
  function KdfInput(km: Mgmt, enc: Enc, h: Header): Result<bytes> {
    var apu :- HeaderBytesOptional(h, "apu");
    var apv :- HeaderBytesOptional(h, "apv");
    var (algID, keyLen) := EcdhAlgId(km, enc);
    Ok(ConcatKdf.OtherInfo(algID, apu, apv, keyLen))
  }

  /** The agreed key is the KDF's output on that input and the shared secret, and on nothing else. */
  lemma AgreeUsesKdfInput(p: Primitives, km: Mgmt, enc: Enc, priv: Scalar, pub: Point, h: Header)
    requires p.Sized() && Agree(p, km, enc, priv, pub, h).Ok?
    ensures var z := p.ecdh(priv.curve, priv.octets, pub.octets);
            var keyLen := EcdhAlgId(km, enc).1;
            && KdfInput(km, enc, h).Ok? && z.Some?
            && Agree(p, km, enc, priv, pub, h).value ==
               ConcatKdf.HashBlocks(p, z.value, KdfInput(km, enc, h).value, BlockCount(keyLen, 32))[..keyLen]
  {
    hide HeaderBytesOptional, ConcatKdf.OtherInfo, ConcatKdf.HashBlocks, p.Sized;
  }

  lemma WrappedHasKdfInput(p: Primitives, km: Mgmt, enc: Enc, k: GoKey, h: Header, cek: bytes, coins: Coins)
    requires p.Sized() && EncryptKeyEcdh(p, km, enc, k, h, cek, coins).Ok?
    ensures KdfInput(km, enc, EncryptKeyEcdh(p, km, enc, k, h, cek, coins).value.header).Ok?
  {
    hide HeaderBytesOptional, ConcatKdf.OtherInfo, EcdhDerive, AsEcdhPublic, FromEcdhPublic, KeyWrap.Wrap, Writes,
         JwkToValue, p.Sized;
  }

  /** What was wrapped by key agreement had readable party information. */
  lemma SenderHasKdfInput(p: Primitives, km: Mgmt, enc: Enc, k: GoKey, h: Header, shared: Option<bytes>, coins: Coins)
    requires p.Sized() && enc.Valid() && coins.Fit() && km.kind.EcdhKind?
    requires EncryptKey(p, km, enc, k, h, shared, coins).Ok?
    ensures KdfInput(km, enc, EncryptKey(p, km, enc, k, h, shared, coins).value.header).Ok?
  {
    hide KdfInput, EncryptKeyEcdh, EncryptKeyPbes2, EncryptKeyGcm, EncryptKeyRsa, KeyWrap.Wrap, Writes, p.Sized;
    var cek := if shared.Some? then shared.value else coins.cek[..enc.keySize];
    WrappedHasKdfInput(p, km, enc, k, h, cek, coins);
  }

  /** Adding octets to the party information changes the input. */
  lemma MorePartyInfoChangesInput(algID: string, apu: bytes, apv: bytes, apu': bytes, apv': bytes, keyLen: nat)
    requires apu == [] || apu == apu'
    requires apv == [] || apv == apv'
    ensures ConcatKdf.OtherInfo(algID, apu, apv, keyLen) == ConcatKdf.OtherInfo(algID, apu', apv', keyLen) <==>
            apu == apu' && apv == apv'
  {
    OtherInfoLength(algID, apu, apv, keyLen);
    OtherInfoLength(algID, apu', apv', keyLen);
  }

  lemma OtherInfoLength(algID: string, apu: bytes, apv: bytes, keyLen: nat)
    ensures |ConcatKdf.OtherInfo(algID, apu, apv, keyLen)| == 16 + |algID| + |apu| + |apv|
  {
  }

  lemma HeaderBytesReceived(p: Primitives, sent: Header, got: Header, names: set<string>, n: string)
    requires n in names && ParamsAgree(p, names, sent, got)
    ensures HeaderBytes(got, n) == HeaderBytes(sent, n)
    ensures HeaderBytesOptional(got, n) == HeaderBytesOptional(sent, n)
  {
  }

  lemma EncryptedKeyRoundTripRsa(p: Primitives, km: Mgmt, enc: Enc, k: GoKey, dk: GoKey, h: Header, cek: bytes,
                                 coins: Coins)
    requires p.RsaLaw() && km.kind.RsaKind? && Opens(p, km, k, dk) && |cek| == enc.keySize
    requires EncryptKeyRsa(p, km, k, h, cek, coins).Ok?
    ensures var w := EncryptKeyRsa(p, km, k, h, cek, coins).value;
            DecryptKeyRsa(p, km, enc, dk, w.encryptedKey) == Ok(cek) && w.cek == cek && w.header == h
  {
  }

  lemma EncryptedKeyRoundTripGcm(p: Primitives, kek: bytes, h: Header, got: Header, cek: bytes, coins: Coins)
    requires p.Sized() && p.GcmLaw() && |coins.gcmIv| == 12
    requires EncryptKeyGcm(p, kek, h, cek, coins).Ok?
    requires ParamsAgree(p, {"iv", "tag"}, EncryptKeyGcm(p, kek, h, cek, coins).value.header, got)
    ensures var w := EncryptKeyGcm(p, kek, h, cek, coins).value;
            DecryptKeyGcm(p, kek, got, w.encryptedKey) == Ok(cek) && w.cek == cek
  {
    var w := EncryptKeyGcm(p, kek, h, cek, coins).value;
    var s := EncryptGcm(p, kek, cek, [], coins.gcmIv);
    HeaderBytesReceived(p, w.header, got, {"iv", "tag"}, "iv");
    HeaderBytesReceived(p, w.header, got, {"iv", "tag"}, "tag");
    DecodeEncoded(s.iv);
    DecodeEncoded(s.tag);
    GcmInverse(p, kek, s, [], cek);
  }

  lemma CountReceived(p: Primitives, n: int)
    requires p.JsonLaw() && Pbkdf2.MIN_COUNT <= n <= Pbkdf2.MAX_COUNT
    ensures HeaderInt(p.ReceivedValue(Int(n))) == Ok(n)
  {
    assert (n as real).Floor == n;
  }

  lemma EncryptedKeyRoundTripPbes2(p: Primitives, km: Mgmt, k: GoKey, dk: GoKey, h: Header, got: Header, cek: bytes,
                                   coins: Coins)
    requires p.Sized() && p.AesLaw() && p.JsonLaw() && PasswordKey(dk) == PasswordKey(k)
    requires EncryptKeyPbes2(p, km, k, h, cek, coins).Ok?
    requires ParamsAgree(p, {"p2s", "p2c"}, EncryptKeyPbes2(p, km, k, h, cek, coins).value.header, got)
    ensures var w := EncryptKeyPbes2(p, km, k, h, cek, coins).value;
            DecryptKeyPbes2(p, km, dk, got, w.encryptedKey) == Ok(cek) && w.cek == cek
  {
    hide Pbes2Kek, KeyWrap.Wrap, KeyWrap.Unwrap, EncodeSegment, DecodeSegment;
    var w := EncryptKeyPbes2(p, km, k, h, cek, coins).value;
    var count := Pbes2Count(h).value;
    var salt := if "p2s" in h then HeaderBytes(h, "p2s").value else coins.salt;
    HeaderBytesReceived(p, w.header, got, {"p2s", "p2c"}, "p2s");
    DecodeEncoded(salt);
    CountReceived(p, count);
    assert "p2c" in w.header && w.header["p2c"] == Int(count);
    var kek := Pbes2Kek(p, km, PasswordKey(k).value, salt, count).value;
    KeyWrap.UnwrapInvertsWrap(p, kek, cek, w.encryptedKey);
  }

  lemma EpkReceived(p: Primitives, q: Point, h: Header)
    requires p.EcdhLaw() && IsEcdh(q.curve) && p.ValidPoint(q.curve, q.octets)
    requires FromEcdhPublic(q).Ok? && "epk" in h
    requires h["epk"] == p.ReceivedValue(JwkToValue(FromEcdhPublic(q).value))
    ensures EpkPoint(p, h) == Ok(q)
  {
    hide Resolve, AsEcdhPublic, FromEcdhPublic;
    EphemeralRoundTrip(p, q);
    JwkValueRoundTrip(p, FromEcdhPublic(q).value);
  }

  lemma EncryptedKeyRoundTripEcdh(p: Primitives, km: Mgmt, enc: Enc, k: GoKey, dk: GoKey, h: Header, got: Header,
                                  cek: bytes, coins: Coins)
    requires p.Sized() && p.AesLaw() && p.EcdhLaw() && km.kind.EcdhKind? && Opens(p, km, k, dk)
    requires EncryptKeyEcdh(p, km, enc, k, h, cek, coins).Ok?
    requires Visible(p, km, EncryptKeyEcdh(p, km, enc, k, h, cek, coins).value.header, got)
    ensures var w := EncryptKeyEcdh(p, km, enc, k, h, cek, coins).value;
            && DecryptKeyEcdh(p, km, enc, dk, got, w.encryptedKey) == Ok(w.cek)
            && (if km.wrapBits == 0 then |w.cek| == enc.keySize else w.cek == cek)
  {
    hide AsEcdhPrivate, AsEcdhPublic, FromEcdhPublic, EcdhDerive, KeyWrap.Wrap, KeyWrap.Unwrap, EpkPoint, JwkToValue;
    var w := EncryptKeyEcdh(p, km, enc, k, h, cek, coins).value;
    var s := AsEcdhPrivate(p, dk).value;
    var eph := p.ecdhGenerate(s.curve, coins.ephemeral);
    var q := Point(s.curve, p.ecdhPublic(s.curve, eph));
    EpkReceived(p, q, got);
    var pub := Point(s.curve, p.ecdhPublic(s.curve, s.octets));
    assert Agree(p, km, enc, Scalar(s.curve, eph), pub, w.header) == Agree(p, km, enc, s, q, got) by {
      var (algID, keyLen) := EcdhAlgId(km, enc);
      if HeaderBytesOptional(got, "apu").Ok? && HeaderBytesOptional(got, "apv").Ok? {
        SidesAgree(p, s.curve, eph, s.octets, algID,
                   HeaderBytesOptional(got, "apu").value, HeaderBytesOptional(got, "apv").value, keyLen);
      }
    }
    if km.wrapBits != 0 {
      var agreed := Agree(p, km, enc, s, q, got).value;
      KeyWrap.UnwrapInvertsWrap(p, agreed, cek, w.encryptedKey);
    }
  }

  /**
   For every algorithm: what encryptKey delivers, decryptKey recovers with the recipient's
   half of the key, from any header that shows the algorithm's parameters as they were left;
   the CEK has the size that the content encryption needs, and a shared CEK is kept.
   */
  lemma EncryptedKeyRoundTrip(p: Primitives, km: Mgmt, enc: Enc, k: GoKey, dk: GoKey, h: Header, got: Header,
                              shared: Option<bytes>, coins: Coins)
    requires p.Lawful() && km.Valid() && enc.Valid() && coins.Fit() && Opens(p, km, k, dk)
    requires shared.Some? ==> |shared.value| == enc.keySize
    requires EncryptKey(p, km, enc, k, h, shared, coins).Ok?
    requires Visible(p, km, EncryptKey(p, km, enc, k, h, shared, coins).value.header, got)
    ensures var w := EncryptKey(p, km, enc, k, h, shared, coins).value;
            && DecryptKey(p, km, enc, dk, got, w.encryptedKey) == Ok(w.cek)
            && |w.cek| == enc.keySize
            && (shared.Some? ==> w.cek == shared.value)
  {
    hide p.Sized, p.AesLaw, p.GcmLaw, p.RsaLaw, p.EcdsaLaw, p.EdLaw, p.EcdhLaw, p.DeflateLaw, p.JsonLaw;
    hide EncryptKeyRsa, DecryptKeyRsa, EncryptKeyGcm, DecryptKeyGcm, EncryptKeyEcdh, DecryptKeyEcdh,
         EncryptKeyPbes2, DecryptKeyPbes2, KeyWrap.Wrap, KeyWrap.Unwrap, Writes, ParamsAgree, SamePartyInfo;
    var w := EncryptKey(p, km, enc, k, h, shared, coins).value;
    var cek := if shared.Some? then shared.value else coins.cek[..enc.keySize];
    match km.kind
    case RsaKind => EncryptedKeyRoundTripRsa(p, km, enc, k, dk, h, cek, coins);
    case KwKind => KeyWrap.UnwrapInvertsWrap(p, k.octets, cek, w.encryptedKey);
    case DirKind =>
    case EcdhKind => EncryptedKeyRoundTripEcdh(p, km, enc, k, dk, h, got, cek, coins);
    case GcmKwKind => EncryptedKeyRoundTripGcm(p, k.octets, h, got, cek, coins);
    case Pbes2Kind => EncryptedKeyRoundTripPbes2(p, km, k, dk, h, got, cek, coins);
  }

  // ---------------------------------------------------------------- key pairs

  /** A well-formed EC key pair serves both ends of a key agreement. */
  lemma EcPairOpens(p: Primitives, km: Mgmt, c: Curve, x: nat, y: nat, d: nat)
    requires p.EcdhLaw() && km.kind.EcdhKind? && IsNist(c) && p.EcPairOk(c, x, y, d)
    ensures Opens(p, km, EcdsaPublicKey(c, x, y), EcdsaPrivateKey(c, x, y, d))
  {
    PointRoundTrip(p, c, x, y);
  }
}
