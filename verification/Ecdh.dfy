/** Key agreement (ecdh.go): conversions between the two EC key forms, and derivation. */
module Ecdh {
  import opened Octets
  import opened Outcomes
  import opened Keys
  import opened Primitives
  import ConcatKdf

  /** A point of crypto/ecdh: a valid encoding on a curve. */
  datatype Point = Point(curve: Curve, octets: bytes)

  /** A private key of crypto/ecdh. */
  datatype Scalar = Scalar(curve: Curve, octets: bytes)

  /** ecdhToECDSAPublic, whose result is the affine point. */
  function ToEcdsaPublic(q: Point): Result<GoKey> {
    var size := CoordSize(q.curve);
    if !IsNist(q.curve) then Err(InvalidKey)
    else if |q.octets| != 1 + 2 * size || q.octets[0] != 4 then Err(InvalidKey)
    else Ok(EcdsaPublicKey(q.curve, FromBigEndian(q.octets[1..1 + size]), FromBigEndian(q.octets[1 + size..])))
  }

  /** ecdsaToECDHPublic; a coordinate that does not fit its field makes FillBytes panic. */
  function ToEcdhPublic(p: Primitives, c: Curve, x: nat, y: nat): Result<Point> {
    var size := CoordSize(c);
    if !IsNist(c) then Err(InvalidKey)
    else if x >= Pow256(size) || y >= Pow256(size) then Err(Panic)
    else if !p.ValidPoint(c, Uncompressed(c, x, y)) then Err(InvalidKey)
    else Ok(Point(c, Uncompressed(c, x, y)))
  }

  function ToEcdhPrivate(p: Primitives, c: Curve, d: nat): Result<Scalar> {
    if !IsNist(c) then Err(InvalidKey)
    else if d >= Pow256(CoordSize(c)) then Err(Panic)
    else if !p.validScalar(c, BigEndian(d, CoordSize(c))) then Err(InvalidKey)
    else Ok(Scalar(c, BigEndian(d, CoordSize(c))))
  }

  function AsEcdhPublic(p: Primitives, key: GoKey): Result<Point> {
    match key
    case EcdhPublicKey(c, point) => Ok(Point(c, point))
    case EcdhPrivateKey(c, scalar) => Ok(Point(c, p.ecdhPublic(c, scalar)))
    case EcdsaPublicKey(c, x, y) => ToEcdhPublic(p, c, x, y)
    case EcdsaPrivateKey(c, x, y, _) => ToEcdhPublic(p, c, x, y)
    case _ => Err(InvalidKeyType)
  }

  function AsEcdhPrivate(p: Primitives, key: GoKey): Result<Scalar> {
    match key
    case EcdhPrivateKey(c, scalar) => Ok(Scalar(c, scalar))
    case EcdsaPrivateKey(c, _, _, d) => ToEcdhPrivate(p, c, d)
    case _ => Err(InvalidKeyType)
  }

  function EcdhDerive(p: Primitives, priv: Scalar, pub: Point, algID: string, apu: bytes, apv: bytes, keyLen: nat)
    : (r: Result<bytes>)
    requires p.Sized()
    ensures r.Ok? ==> |r.value| == keyLen
  {
    if priv.curve != pub.curve then Err(InvalidKey) else
      match p.ecdh(priv.curve, priv.octets, pub.octets)
      case None => Err(InvalidKey)
      case Some(z) => ConcatKdf.Derive(p, z, algID, apu, apv, keyLen)
  }

  /** Sender and recipient derive the same key, from whichever side each holds. */
  lemma SidesAgree(p: Primitives, c: Curve, mine: bytes, yours: bytes,
                   algID: string, apu: bytes, apv: bytes, keyLen: nat)
    requires p.Sized() && p.EcdhLaw() && IsEcdh(c) && p.validScalar(c, mine) && p.validScalar(c, yours)
    ensures EcdhDerive(p, Scalar(c, mine), Point(c, p.ecdhPublic(c, yours)), algID, apu, apv, keyLen) ==
            EcdhDerive(p, Scalar(c, yours), Point(c, p.ecdhPublic(c, mine)), algID, apu, apv, keyLen)
  {
    assert p.ecdh(c, mine, p.ecdhPublic(c, yours)) == p.ecdh(c, yours, p.ecdhPublic(c, mine));
  }

  lemma UncompressedParts(c: Curve, x: nat, y: nat)
    requires x < Pow256(CoordSize(c)) && y < Pow256(CoordSize(c))
    ensures var b := Uncompressed(c, x, y);
            var size := CoordSize(c);
            && |b| == 1 + 2 * size && b[0] == 4
            && FromBigEndian(b[1..1 + size]) == x && FromBigEndian(b[1 + size..]) == y
  {
    var b, size := Uncompressed(c, x, y), CoordSize(c);
    assert b[1..1 + size] == BigEndian(x, size) && b[1 + size..] == BigEndian(y, size);
    ReadBigEndian(x, size);
    ReadBigEndian(y, size);
  }

  /** The conversions undo each other: a point on the curve survives ecdsa -> ecdh -> ecdsa. */
  lemma PointRoundTrip(p: Primitives, c: Curve, x: nat, y: nat)
    requires p.EcdhLaw() && IsNist(c) && p.onCurve(c, x, y)
    ensures ToEcdhPublic(p, c, x, y) == Ok(Point(c, Uncompressed(c, x, y)))
    ensures ToEcdsaPublic(Point(c, Uncompressed(c, x, y))) == Ok(EcdsaPublicKey(c, x, y))
  {
    UncompressedParts(c, x, y);
  }

  /** ... and an encoded point survives ecdh -> ecdsa -> ecdh. */
  lemma EncodedPointRoundTrip(p: Primitives, c: Curve, b: bytes)
    requires p.EcdhLaw() && IsNist(c) && p.ValidPoint(c, b)
    ensures var k := ToEcdsaPublic(Point(c, b));
            && k.Ok? && k.value.EcdsaPublicKey? && k.value.curve == c && p.onCurve(c, k.value.x, k.value.y)
            && ToEcdhPublic(p, c, k.value.x, k.value.y) == Ok(Point(c, b))
  {
    var size := CoordSize(c);
    var x, y := FromBigEndian(b[1..1 + size]), FromBigEndian(b[1 + size..]);
    WriteBigEndian(b[1..1 + size]);
    WriteBigEndian(b[1 + size..]);
    assert b == Uncompressed(c, x, y);
    PointRoundTrip(p, c, x, y);
  }
}
