/** JSON Web Keys (jwk.go) and the resolution of a key argument (header.go). */
module JsonWebKeys {
  import opened Octets
  import opened Outcomes
  import opened Keys
  import opened Primitives
  import opened Base64Url
  import opened Ecdh

  // ---------------------------------------------------------------- JWK to Go key

  function B64Field(s: string): Result<bytes> {
    if s == "" then Err(InvalidKey) else
      match DecodeSegment(s)
      case Ok(b) => Ok(b)
      case Err(_) => Err(InvalidKey)
  }

  function B64Int(s: string): Result<nat> {
    var b :- B64Field(s);
    Ok(FromBigEndian(b))
  }

  function EcCurve(name: string): Result<Curve> {
    if name == "P-256" then Ok(P256)
    else if name == "P-384" then Ok(P384)
    else if name == "P-521" then Ok(P521)
    else Err(InvalidKey)
  }

  function RsaKey(p: Primitives, j: Jwk): Result<GoKey> {
    var n :- B64Int(j.n);
    var e :- B64Int(j.e);
    if e < 3 || e > 0x7FFF_FFFF then Err(InvalidKey)
    else if j.d == "" then Ok(RsaPublicKey(n, e))
    else
      var d :- B64Int(j.d);
      var primes :- if j.p != "" && j.q != "" then RsaPrimes(j) else Ok([]);
      var priv := RsaPrivate(n, e, d, primes);
      if p.rsaValid(priv) then Ok(RsaPrivateKey(priv)) else Err(InvalidKey)
  }

  function RsaPrimes(j: Jwk): Result<seq<nat>> {
    var p :- B64Int(j.p);
    var q :- B64Int(j.q);
    Ok([p, q])
  }

  function EcKey(p: Primitives, j: Jwk): Result<GoKey> {
    var curve :- EcCurve(j.crv);
    var x :- B64Int(j.x);
    var y :- B64Int(j.y);
    if !p.onCurve(curve, x, y) then Err(InvalidKey)
    else if j.d == "" then Ok(EcdsaPublicKey(curve, x, y))
    else
      var d :- B64Int(j.d);
      if d == 0 || d >= p.curveOrder(curve) then Err(InvalidKey)
      else Ok(EcdsaPrivateKey(curve, x, y, d))
  }

  function OkpKey(p: Primitives, j: Jwk): Result<GoKey> {
    if j.crv == "Ed25519" then
      var x :- B64Field(j.x);
      if |x| != 32 then Err(InvalidKey)
      else if j.d == "" then Ok(EdPublicKey(x))
      else
        var d :- B64Field(j.d);
        if |d| != 32 then Err(InvalidKey) else Ok(EdPrivateKey(p.edFromSeed(d)))
    else if j.crv == "X25519" then
      var x :- B64Field(j.x);
      if j.d == "" then
        if p.ValidPoint(X25519, x) then Ok(EcdhPublicKey(X25519, x)) else Err(InvalidKey)
      else
        var d :- B64Field(j.d);
        if p.validScalar(X25519, d) then Ok(EcdhPrivateKey(X25519, d)) else Err(InvalidKey)
    else Err(InvalidKey)
  }

  function OctKey(j: Jwk): Result<GoKey> {
    var b :- B64Field(j.k);
    Ok(Secret(b))
  }

  /** JWK.Key. */
  function Resolve(p: Primitives, j: Jwk): Result<GoKey> {
    if j.kty == "RSA" then RsaKey(p, j)
    else if j.kty == "EC" then EcKey(p, j)
    else if j.kty == "OKP" then OkpKey(p, j)
    else if j.kty == "oct" then OctKey(j)
    else Err(InvalidKey)
  }

  predicate IsPrivate(j: Jwk) {
    if j.kty == "RSA" || j.kty == "EC" || j.kty == "OKP" then j.d != ""
    else j.kty == "oct" && j.k != ""
  }

  // ---------------------------------------------------------------- Go key to JWK

  /** jwkFromECPublic; a coordinate that does not fit makes FillBytes panic. */
  function FromEcPublic(c: Curve, x: nat, y: nat): (r: Result<Jwk>)
    ensures r.Ok? ==> r.value.keyOps == []
  {
    var size := CoordSize(c);
    if EcCurve(CurveName(c)).Err? then Err(InvalidKey)
    else if x >= Pow256(size) || y >= Pow256(size) then Err(Panic)
    else Ok(EMPTY_JWK.(kty := "EC", crv := CurveName(c),
                       x := EncodeSegment(BigEndian(x, size)), y := EncodeSegment(BigEndian(y, size))))
  }

  function FromEcdhPublic(q: Point): (r: Result<Jwk>)
    ensures r.Ok? ==> r.value.keyOps == []
  {
    if q.curve == X25519 then
      Ok(EMPTY_JWK.(kty := "OKP", crv := "X25519", x := EncodeSegment(q.octets)))
    else
      var ec :- ToEcdsaPublic(q);
      if ec.EcdsaPublicKey? then FromEcPublic(ec.curve, ec.x, ec.y) else Err(InvalidKey)
  }

  function FromRsaPublic(n: nat, e: nat): Jwk {
    EMPTY_JWK.(kty := "RSA", n := EncodeSegment(MinimalBigEndian(n)), e := EncodeSegment(MinimalBigEndian(e)))
  }

  /** FromKey. */
  function FromKey(p: Primitives, key: GoKey): Result<Jwk> {
    match key
    case RsaPublicKey(n, e) => Ok(FromRsaPublic(n, e))
    case RsaPrivateKey(r) =>
      var j := FromRsaPublic(r.n, r.e).(d := EncodeSegment(MinimalBigEndian(r.d)));
      Ok(if |r.primes| < 2 then j
         else j.(p := EncodeSegment(MinimalBigEndian(r.primes[0])), q := EncodeSegment(MinimalBigEndian(r.primes[1]))))
    case EcdsaPublicKey(c, x, y) => FromEcPublic(c, x, y)
    case EcdsaPrivateKey(c, x, y, d) =>
      var j :- FromEcPublic(c, x, y);
      if d >= Pow256(CoordSize(c)) then Err(Panic)
      else Ok(j.(d := EncodeSegment(BigEndian(d, CoordSize(c)))))
    case EdPublicKey(b) =>
      if |b| != 32 then Err(InvalidKey)
      else Ok(EMPTY_JWK.(kty := "OKP", crv := "Ed25519", x := EncodeSegment(b)))
    case EdPrivateKey(b) =>
      if |b| != 64 then Err(InvalidKey)
      else Ok(EMPTY_JWK.(kty := "OKP", crv := "Ed25519", x := EncodeSegment(b[32..]), d := EncodeSegment(b[..32])))
    case EcdhPublicKey(c, b) => FromEcdhPublic(Point(c, b))
    case EcdhPrivateKey(c, s) =>
      var j :- FromEcdhPublic(Point(c, p.ecdhPublic(c, s)));
      Ok(j.(d := EncodeSegment(s)))
    case Secret(b) =>
      if b == [] then Err(InvalidKey) else Ok(EMPTY_JWK.(kty := "oct", k := EncodeSegment(b)))
    case _ => Err(InvalidKey)
  }

  lemma FieldRoundTrip(b: bytes)
    requires b != []
    ensures B64Field(EncodeSegment(b)) == Ok(b)
  {
    DecodeEncoded(b);
  }

  lemma IntRoundTrip(n: nat, size: nat)
    requires size > 0 && n < Pow256(size)
    ensures B64Int(EncodeSegment(BigEndian(n, size))) == Ok(n)
  {
    FieldRoundTrip(BigEndian(n, size));
    ReadBigEndian(n, size);
  }

  lemma MinimalRoundTrip(n: nat)
    requires n > 0
    ensures B64Int(EncodeSegment(MinimalBigEndian(n))) == Ok(n)
  {
    FieldRoundTrip(MinimalBigEndian(n));
    ReadMinimal(n);
  }

  ghost predicate RsaPrivateOk(p: Primitives, r: RsaPrivate) {
    && p.rsaValid(r) && r.n > 0 && 3 <= r.e <= 0x7FFF_FFFF && r.d > 0
    && forall i :: 0 <= i < |r.primes| ==> r.primes[i] > 0
  }

  /**
   Writing an RSA key as a JWK and resolving it returns the key, unless it is a private key
   with one prime, which is then left out, or with more than two, of which two are kept.
   */
  lemma RsaRoundTrip(p: Primitives, key: GoKey)
    requires
      || (key.RsaPublicKey? && key.n > 0 && 3 <= key.e <= 0x7FFF_FFFF)
      || (key.RsaPrivateKey? && RsaPrivateOk(p, key.rsa))
    ensures FromKey(p, key).Ok?
    ensures Resolve(p, FromKey(p, key).value) == Ok(key) <==>
            (key.RsaPrivateKey? ==> |key.rsa.primes| == 0 || |key.rsa.primes| == 2)
  {
    hide B64Int, EncodeSegment;
    var (n, e) := if key.RsaPublicKey? then (key.n, key.e) else (key.rsa.n, key.rsa.e);
    MinimalRoundTrip(n);
    MinimalRoundTrip(e);
    if key.RsaPrivateKey? {
      var primes := key.rsa.primes;
      MinimalRoundTrip(key.rsa.d);
      if |primes| >= 2 {
        MinimalRoundTrip(primes[0]);
        MinimalRoundTrip(primes[1]);
        assert primes[..2] == [primes[0], primes[1]];
        assert |primes| == 2 ==> primes[..2] == primes;
      }
    }
  }

  /** Writing an EC public key as a JWK and resolving it returns the key. */
  lemma EcPublicRoundTrip(p: Primitives, c: Curve, x: nat, y: nat)
    requires p.EcdhLaw() && IsNist(c) && p.onCurve(c, x, y)
    ensures var j := FromEcPublic(c, x, y);
            && j.Ok? && Resolve(p, j.value) == Ok(EcdsaPublicKey(c, x, y))
            && !IsPrivate(j.value) && j.value.kty == "EC" && j.value.d == ""
  {
    hide B64Int, EncodeSegment, BigEndian, Pow256;
    IntRoundTrip(x, CoordSize(c));
    IntRoundTrip(y, CoordSize(c));
  }

  /** ... and so does every EC private key on its curve, whether or not d belongs to the point. */
  lemma EcPrivateRoundTrip(p: Primitives, c: Curve, x: nat, y: nat, d: nat)
    requires p.EcdhLaw() && IsNist(c) && p.onCurve(c, x, y)
    requires 0 < d < p.curveOrder(c) && d < Pow256(CoordSize(c))
    ensures var j := FromKey(p, EcdsaPrivateKey(c, x, y, d));
            j.Ok? && Resolve(p, j.value) == Ok(EcdsaPrivateKey(c, x, y, d))
  {
    hide B64Int, EncodeSegment, BigEndian, Pow256;
    IntRoundTrip(x, CoordSize(c));
    IntRoundTrip(y, CoordSize(c));
    IntRoundTrip(d, CoordSize(c));
  }

  /** Writing a symmetric or Edwards-curve key as a JWK and resolving it returns the key. */
  lemma OctetKeyRoundTrip(p: Primitives, key: GoKey)
    requires
      || (key.Secret? && key.octets != [])
      || (key.EdPublicKey? && |key.octets| == 32)
      || (key.EdPrivateKey? && p.EdPairOk(key.octets))
    ensures FromKey(p, key).Ok? && Resolve(p, FromKey(p, key).value) == Ok(key)
  {
    FieldRoundTrip(key.octets);
    if key.EdPrivateKey? {
      FieldRoundTrip(key.octets[..32]);
      FieldRoundTrip(key.octets[32..]);
    }
  }

  /** The key-agreement form of a resolved ephemeral public key is the point it was made from. */
  lemma EphemeralRoundTrip(p: Primitives, q: Point)
    requires p.EcdhLaw() && IsEcdh(q.curve) && p.ValidPoint(q.curve, q.octets)
    ensures var j := FromEcdhPublic(q);
            && j.Ok? && !IsPrivate(j.value)
            && Resolve(p, j.value).Ok?
            && (Resolve(p, j.value).value.EcdsaPublicKey? || Resolve(p, j.value).value.EcdhPublicKey?)
            && AsEcdhPublic(p, Resolve(p, j.value).value) == Ok(q)
  {
    hide EncodeSegment, BigEndian, Pow256;
    if q.curve == X25519 {
      FieldRoundTrip(q.octets);
    } else {
      EncodedPointRoundTrip(p, q.curve, q.octets);
      var k := ToEcdsaPublic(q).value;
      EcPublicRoundTrip(p, k.curve, k.x, k.y);
    }
  }

  // ---------------------------------------------------------------- selection

  /** The JWK that a key argument is, as opposed to selects; an empty one stands for none. */
  function JwkOf(key: KeyArg): Jwk {
    if key.JwkArg? && key.jwk.Some? then key.jwk.value else EMPTY_JWK
  }

  /** JWKSet.LookupKeyID: the first non-null key with this kid. */
  function LookupKeyId(keys: seq<Option<Jwk>>, kid: string): Option<Jwk> {
    if keys == [] then None
    else if keys[0].Some? && keys[0].value.kid == kid then keys[0]
    else LookupKeyId(keys[1..], kid)
  }

  method LookupKeyIdScan(keys: seq<Option<Jwk>>, kid: string) returns (r: Option<Jwk>)
    ensures r == LookupKeyId(keys, kid)
  {
    var i := 0;
    while i < |keys|
      invariant 0 <= i <= |keys|
      invariant LookupKeyId(keys, kid) == LookupKeyId(keys[i..], kid)
    {
      if keys[i].Some? && keys[i].value.kid == kid {
        return keys[i];
      }
      assert keys[i..][1..] == keys[i + 1..];
      i := i + 1;
    }
    return None;
  }

  /** The key found has the kid, and no earlier key of the set has it. */
  lemma {:induction false} LookupIsFirst(keys: seq<Option<Jwk>>, kid: string)
    ensures match LookupKeyId(keys, kid)
            case Some(j) =>
              (exists i :: 0 <= i < |keys| && keys[i] == Some(j) && j.kid == kid &&
                           forall k :: 0 <= k < i ==> keys[k].None? || keys[k].value.kid != kid)
            case None => forall k :: 0 <= k < |keys| ==> keys[k].None? || keys[k].value.kid != kid
  {
    if keys != [] && !(keys[0].Some? && keys[0].value.kid == kid) {
      LookupIsFirst(keys[1..], kid);
      if j :| LookupKeyId(keys[1..], kid) == Some(j) {
        var i :| 0 <= i < |keys[1..]| && keys[1..][i] == Some(j) &&
                 forall k :: 0 <= k < i ==> keys[1..][k].None? || keys[1..][k].value.kid != kid;
        assert keys[i + 1] == Some(j);
        assert forall k :: 0 < k < i + 1 ==> keys[k] == keys[1..][k - 1];
      } else {
        assert forall k :: 0 < k < |keys| ==> keys[k] == keys[1..][k - 1];
      }
    }
  }

  function SelectJwk(key: KeyArg, kid: string): Option<Jwk> {
    match key
    case JwkArg(j) => j
    case JwkSetArg(Some(keys)) =>
      if kid == "" && |keys| == 1 then keys[0] else LookupKeyId(keys, kid)
    case _ => None
  }

  /** resolveKey; a set holding one null key and no kid stops the program. */
  function ResolveKey(p: Primitives, key: KeyArg, kid: string): Result<GoKey> {
    match key
    case JwkArg(None) => Err(InvalidKey)
    case JwkArg(Some(j)) => Resolve(p, j)
    case JwkSetArg(None) => Err(InvalidKey)
    case JwkSetArg(Some(keys)) =>
      if kid == "" && |keys| == 1 then
        if keys[0].None? then Err(Panic) else Resolve(p, keys[0].value)
      else
        (match LookupKeyId(keys, kid)
         case None => Err(KeyNotFound)
         case Some(j) => Resolve(p, j))
    case NoKey => Err(InvalidKey)
    case RawKey(k) => Ok(k)
  }

  /** The program stops exactly on a set of one null key, when no kid is asked for. */
  lemma NullKeyPanics(p: Primitives, key: KeyArg, kid: string)
    ensures ResolveKey(p, key, kid) == Err(Panic) <==> kid == "" && key == JwkSetArg(Some([None]))
  {
    hide DecodeSegment;
    if key.JwkSetArg? && key.keys.Some? && |key.keys.value| == 1 {
      assert key.keys.value == [key.keys.value[0]];
    }
  }

  // ---------------------------------------------------------------- usage restrictions

  predicate AnyIn(ops: seq<string>, allowed: seq<string>) {
    exists i :: 0 <= i < |ops| && ops[i] in allowed
  }

  function CheckJwkUsage(key: KeyArg, kid: string, use: string, algs: seq<string>, ops: seq<string>): Outcome {
    match SelectJwk(key, kid)
    case None => Pass
    case Some(j) =>
      if j.use != "" && j.use != use then Fail(KeyUseMismatch)
      else if j.alg != "" && j.alg !in algs then Fail(KeyAlgMismatch)
      else if j.keyOps != [] && !AnyIn(ops, j.keyOps) then Fail(KeyOpsMismatch)
      else Pass
  }

  method CheckJwkUsageLoop(key: KeyArg, kid: string, use: string, algs: seq<string>, ops: seq<string>)
    returns (r: Outcome)
    ensures r == CheckJwkUsage(key, kid, use, algs, ops)
  {
    var selected := SelectJwk(key, kid);
    if selected.None? {
      return Pass;
    }
    var j := selected.value;
    if j.use != "" && j.use != use {
      return Fail(KeyUseMismatch);
    }
    if j.alg != "" && j.alg !in algs {
      return Fail(KeyAlgMismatch);
    }
    if |j.keyOps| > 0 {
      var permitted := false;
      var i := 0;
      while i < |ops| && !permitted
        invariant 0 <= i <= |ops|
        invariant permitted <==> exists k :: 0 <= k < i && ops[k] in j.keyOps
      {
        if ops[i] in j.keyOps {
          permitted := true;
        }
        i := i + 1;
      }
      if !permitted {
        return Fail(KeyOpsMismatch);
      }
    }
    return Pass;
  }

  /** The restrictions of sections 4.2 to 4.4 of RFC 7517 allow the operation. */
  ghost predicate Permits(j: Jwk, use: string, algs: seq<string>, ops: seq<string>) {
    && (j.use == "" || j.use == use)
    && (j.alg == "" || j.alg in algs)
    && (j.keyOps == [] || exists op :: op in ops && op in j.keyOps)
  }

  /**
   The key used is the key checked: a key that both checks let through is either not from a
   JWK at all, or resolves from the very JWK whose restrictions permit the operation.
   */
  ghost predicate UsedAsPermitted(p: Primitives, key: KeyArg, kid: string, g: GoKey,
                                  use: string, algs: seq<string>, ops: seq<string>) {
    || key == RawKey(g)
    || (SelectJwk(key, kid).Some? &&
        var j := SelectJwk(key, kid).value; Resolve(p, j) == Ok(g) && Permits(j, use, algs, ops))
  }

  lemma KeyUsedIsKeyChecked(p: Primitives, key: KeyArg, kid: string, use: string, algs: seq<string>, ops: seq<string>)
    requires ResolveKey(p, key, kid).Ok?
    ensures CheckJwkUsage(key, kid, use, algs, ops).Pass? <==>
            UsedAsPermitted(p, key, kid, ResolveKey(p, key, kid).value, use, algs, ops)
  {
    if SelectJwk(key, kid).Some? {
      var j := SelectJwk(key, kid).value;
      assert AnyIn(ops, j.keyOps) <==> exists op :: op in ops && op in j.keyOps by {
        if AnyIn(ops, j.keyOps) {
          var i :| 0 <= i < |ops| && ops[i] in j.keyOps;
          assert ops[i] in ops;
        }
      }
    }
  }
}
