/**
 The data the package works on: JSON values and headers, Go crypto keys, JSON Web Keys,
 and the key argument of the public functions.
 */
module Keys {
  import opened Octets
  import opened Outcomes

  /** A header value: what a Go program may store in a map[string]any, or JSON may decode to. */
  datatype Value =
    | Null
    | Bool(flag: bool)
    | Str(text: string)
    | Int(number: int)
    | Float(float: real)
    | Strings(strings: seq<string>)
    | List(items: seq<Value>)
    | Object(members: map<string, Value>)

  type Header = map<string, Value>

  datatype HashAlg = SHA1 | SHA256 | SHA384 | SHA512

  function HashLen(h: HashAlg): (n: nat)
    ensures n > 0
  {
    match h
    case SHA1 => 20
    case SHA256 => 32
    case SHA384 => 48
    case SHA512 => 64
  }

  datatype Curve = P224 | P256 | P384 | P521 | X25519

  function CurveName(c: Curve): string {
    match c
    case P224 => "P-224"
    case P256 => "P-256"
    case P384 => "P-384"
    case P521 => "P-521"
    case X25519 => "X25519"
  }

  /** coordSize: the octets of one coordinate. */
  function CoordSize(c: Curve): (n: nat)
    ensures n > 0
  {
    match c
    case P224 => 28
    case P256 => 32
    case P384 => 48
    case P521 => 66
    case X25519 => 32
  }

  /** The NIST curves that crypto/ecdh shares with crypto/elliptic. */
  predicate IsNist(c: Curve) {
    c.P256? || c.P384? || c.P521?
  }

  /** The curves of crypto/ecdh. */
  predicate IsEcdh(c: Curve) {
    IsNist(c) || c.X25519?
  }

  datatype RsaPrivate = RsaPrivate(n: nat, e: nat, d: nat, primes: seq<nat>)

  /** The Go values that serve as keys. */
  datatype GoKey =
    | Secret(octets: bytes)
    | Password(password: string)
    | RsaPublicKey(n: nat, e: nat)
    | RsaPrivateKey(rsa: RsaPrivate)
    | EcdsaPublicKey(curve: Curve, x: nat, y: nat)
    | EcdsaPrivateKey(curve: Curve, x: nat, y: nat, d: nat)
    | EdPublicKey(octets: bytes)
    | EdPrivateKey(octets: bytes)
    | EcdhPublicKey(curve: Curve, point: bytes)
    | EcdhPrivateKey(curve: Curve, scalar: bytes)
    | OtherKey

  /** A JSON Web Key, with the members that resolving a key reads; "" is an absent member. */
  datatype Jwk = Jwk(
    kty: string, use: string, alg: string, kid: string, crv: string, keyOps: seq<string>,
    n: string, e: string, d: string, p: string, q: string, x: string, y: string, k: string)

  const EMPTY_JWK := Jwk("", "", "", "", "", [], "", "", "", "", "", "", "", "")

  /** The dynamic type and value of a key argument; a nil pointer is None. */
  datatype KeyArg =
    | NoKey
    | RawKey(key: GoKey)
    | JwkArg(jwk: Option<Jwk>)
    | JwkSetArg(keys: Option<seq<Option<Jwk>>>)
}
