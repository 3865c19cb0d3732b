/** Content encryption (section 5 of RFC 7518): AES-CBC-HMAC and AES-GCM, as in contentenc.go. */
module ContentEnc {
  import opened Octets
  import opened Outcomes
  import opened Keys
  import opened Primitives

  /** One "enc" algorithm; GCM algorithms use no hash. */
  datatype Enc = Enc(name: string, keySize: nat, gcm: bool, hash: HashAlg) {
    /** The shape of every table entry. */
    predicate Valid() {
      if gcm then keySize == 16 || keySize == 24 || keySize == 32
      else (keySize == 32 || keySize == 48 || keySize == 64) && HashLen(hash) == keySize
    }

    function IvSize(): nat {
      if gcm then 12 else 16
    }
  }

  function LookupEnc(enc: string): (r: Result<Enc>)
    ensures r.Ok? ==> r.value.Valid() && r.value.name == enc
  {
    if enc == "A128CBC-HS256" then Ok(Enc(enc, 32, false, SHA256))
    else if enc == "A192CBC-HS384" then Ok(Enc(enc, 48, false, SHA384))
    else if enc == "A256CBC-HS512" then Ok(Enc(enc, 64, false, SHA512))
    else if enc == "A128GCM" then Ok(Enc(enc, 16, true, SHA256))
    else if enc == "A192GCM" then Ok(Enc(enc, 24, true, SHA256))
    else if enc == "A256GCM" then Ok(Enc(enc, 32, true, SHA256))
    else Err(UnsupportedEncryption)
  }

  /** The six names of section 5.1 of RFC 7518, and no other, are found; CBC needs twice the AES key, for its MAC. */
  lemma EncNames(name: string)
    ensures LookupEnc(name).Ok? <==>
            name in {"A128CBC-HS256", "A192CBC-HS384", "A256CBC-HS512", "A128GCM", "A192GCM", "A256GCM"}
    ensures LookupEnc(name).Ok? ==>
              var e := LookupEnc(name).value;
              && (e.gcm <==> name in {"A128GCM", "A192GCM", "A256GCM"})
              && |name| >= 4 && e.keySize * 8 == AesBits(name[3]) * if e.gcm then 1 else 2
    ensures LookupEnc(name).Err? ==> LookupEnc(name).error == UnsupportedEncryption
  {
  }

  /** The AES key size that a name announces, by the last digit of "A128", "A192" and "A256". */
  function AesBits(digit: char): nat {
    if digit == '8' then 128 else if digit == '2' then 192 else 256
  }

  // ---------------------------------------------------------------- PKCS #7 padding

  function Pad(b: bytes, blockSize: nat): (r: bytes)
    requires 0 < blockSize < 256
  {
    var n := blockSize - |b| % blockSize;
    b + Repeat(n, n)
  }

  /** The octets whose count the last octet names, provided that many octets all name it. */
  predicate IsPadded(b: bytes, blockSize: nat) {
    && |b| > 0 && blockSize > 0 && |b| % blockSize == 0
    && 0 < b[|b| - 1] <= blockSize && b[|b| - 1] <= |b|
    && forall i :: |b| - b[|b| - 1] <= i < |b| ==> b[i] == b[|b| - 1]
  }

  function Unpad(b: bytes, blockSize: nat): Option<bytes> {
    if IsPadded(b, blockSize) then Some(b[..|b| - b[|b| - 1]]) else None
  }

  method Pkcs7Pad(b: bytes, blockSize: nat) returns (r: bytes)
    requires 0 < blockSize < 256
    ensures r == Pad(b, blockSize)
  {
    var n := blockSize - |b| % blockSize;
    var out := new byte[|b| + n];
    CopyInto(out, 0, b);
    var i := |b|;
    while i < out.Length
      invariant |b| <= i <= out.Length
      invariant out[..|b|] == b
      invariant forall k :: |b| <= k < i ==> out[k] == n
    {
      out[i] := n;
      i := i + 1;
    }
    r := out[..];
  }

  /** The check runs over the whole padding, gathering every difference into one octet. */
  method Pkcs7Unpad(b: bytes, blockSize: nat) returns (r: Option<bytes>)
    requires 0 < blockSize < 256
    ensures r == Unpad(b, blockSize)
  {
    if |b| == 0 || |b| % blockSize != 0 {
      return None;
    }
    var n := b[|b| - 1];
    if n == 0 || n > blockSize || n > |b| {
      return None;
    }
    var bad: byte := 0;
    var i := |b| - n;
    while i < |b|
      invariant |b| - n <= i <= |b|
      invariant bad == 0 <==> forall k :: |b| - n <= k < i ==> b[k] == n
    {
      OrBitsZero(bad, Xor(b[i], n));
      XorBitsZero(b[i], n);
      bad := Or(bad, Xor(b[i], n));
      i := i + 1;
    }
    if bad != 0 {
      return None;
    }
    return Some(b[..|b| - n]);
  }

  lemma PaddedLength(x: nat, blockSize: nat)
    requires blockSize > 0
    ensures (x + (blockSize - x % blockSize)) % blockSize == 0
  {
    var q := x / blockSize;
    assert x == q * blockSize + x % blockSize;
    assert x + (blockSize - x % blockSize) == (q + 1) * blockSize;
    UniqueRemainder((q + 1) * blockSize, q + 1, 0, blockSize);
  }

  lemma UniqueRemainder(x: nat, q: nat, r: nat, n: nat)
    requires r < n && x == q * n + r
    ensures x % n == r
  {
    var d := x / n;
    assert x == d * n + x % n;
    MulMonotone(d, q - 1, n);
    MulMonotone(q, d - 1, n);
  }

  /** Unpadding accepts exactly the padded strings and returns the one string so padded. */
  lemma UnpadInvertsPad(b: bytes, padded: bytes, blockSize: nat)
    requires 0 < blockSize < 256
    ensures Unpad(padded, blockSize) == Some(b) <==> padded == Pad(b, blockSize)
  {
    PaddedLength(|b|, blockSize);
    if Unpad(padded, blockSize) == Some(b) {
      var n := padded[|padded| - 1];
      PaddingIsForced(|b|, n, blockSize);
      assert padded == b + Repeat(n, n);
    }
  }

  lemma PaddingIsForced(x: nat, n: nat, blockSize: nat)
    requires 0 < n <= blockSize && (x + n) % blockSize == 0
    ensures n == blockSize - x % blockSize
  {
    var q := (x + n) / blockSize;
    assert x + n == q * blockSize;
    assert q > 0;
    assert x == (q - 1) * blockSize + (blockSize - n);
    UniqueRemainder(x, q - 1, blockSize - n, blockSize);
  }

  // ---------------------------------------------------------------- CBC mode

  function CbcEncrypt(p: Primitives, k: bytes, iv: bytes, m: bytes): (c: bytes)
    requires p.Sized() && IsAesKey(k) && |iv| == 16 && |m| % 16 == 0
    ensures |c| == |m|
    decreases |m|
  {
    if m == [] then [] else
      var c := p.aesEncrypt(k, XorSeq(m[..16], iv));
      c + CbcEncrypt(p, k, c, m[16..])
  }

  function CbcDecrypt(p: Primitives, k: bytes, iv: bytes, c: bytes): (m: bytes)
    requires p.Sized() && IsAesKey(k) && |iv| == 16 && |c| % 16 == 0
    ensures |m| == |c|
    decreases |c|
  {
    if c == [] then [] else
      XorSeq(p.aesDecrypt(k, c[..16]), iv) + CbcDecrypt(p, k, c[..16], c[16..])
  }

  lemma {:induction false} CbcDecryptUndoes(p: Primitives, k: bytes, iv: bytes, m: bytes)
    requires p.Sized() && p.AesLaw() && IsAesKey(k) && |iv| == 16 && |m| % 16 == 0
    ensures CbcDecrypt(p, k, iv, CbcEncrypt(p, k, iv, m)) == m
    decreases |m|
  {
    hide XorSeq;
    if m != [] {
      var c := p.aesEncrypt(k, XorSeq(m[..16], iv));
      var rest := CbcEncrypt(p, k, c, m[16..]);
      assert (c + rest)[..16] == c && (c + rest)[16..] == rest;
      XorSeqCancels(m[..16], iv);
      CbcDecryptUndoes(p, k, c, m[16..]);
      assert m == m[..16] + m[16..];
    }
  }

  lemma {:induction false} CbcEncryptUndoes(p: Primitives, k: bytes, iv: bytes, c: bytes)
    requires p.Sized() && p.AesLaw() && IsAesKey(k) && |iv| == 16 && |c| % 16 == 0
    ensures CbcEncrypt(p, k, iv, CbcDecrypt(p, k, iv, c)) == c
    decreases |c|
  {
    hide XorSeq;
    if c != [] {
      var d := p.aesDecrypt(k, c[..16]);
      var m := XorSeq(d, iv);
      var rest := CbcDecrypt(p, k, c[..16], c[16..]);
      assert (m + rest)[..16] == m && (m + rest)[16..] == rest;
      XorSeqCancels(d, iv);
      CbcEncryptUndoes(p, k, c[..16], c[16..]);
      assert c == c[..16] + c[16..];
    }
  }

  // ---------------------------------------------------------------- authenticated encryption

  /** What content encryption produces: the IV, the ciphertext and the tag. */
  datatype Sealed = Sealed(iv: bytes, ciphertext: bytes, tag: bytes)

  /** The octets under the tag: AAD || IV || E || AL, with AL the bit length of the AAD. */
  function MacInput(iv: bytes, ciphertext: bytes, aad: bytes): bytes {
    aad + iv + ciphertext + BigEndian(|aad| * 8, 8)
  }

  function CbcTag(p: Primitives, h: HashAlg, macKey: bytes, iv: bytes, ciphertext: bytes, aad: bytes): bytes
    requires p.Sized() && |macKey| <= HashLen(h)
  {
    p.hmac(h, macKey, MacInput(iv, ciphertext, aad))[..|macKey|]
  }

  function EncryptCbcHmac(p: Primitives, ce: Enc, cek: bytes, plaintext: bytes, aad: bytes, iv: bytes): Sealed
    requires p.Sized() && ce.Valid() && !ce.gcm && |cek| == ce.keySize && |iv| == 16
  {
    var h := |cek| / 2;
    var padded := Pad(plaintext, 16);
    PaddedLength(|plaintext|, 16);
    var ciphertext := CbcEncrypt(p, cek[h..], iv, padded);
    Sealed(iv, ciphertext, CbcTag(p, ce.hash, cek[..h], iv, ciphertext, aad))
  }

  function DecryptCbcHmac(p: Primitives, ce: Enc, cek: bytes, s: Sealed, aad: bytes): Result<bytes>
    requires p.Sized() && ce.Valid() && !ce.gcm && |cek| == ce.keySize
  {
    var h := |cek| / 2;
    if |s.iv| != 16 || |s.ciphertext| == 0 || |s.ciphertext| % 16 != 0 then Err(DecryptFailed)
    else if s.tag != CbcTag(p, ce.hash, cek[..h], s.iv, s.ciphertext, aad) then Err(DecryptFailed)
    else OrElse(Unpad(CbcDecrypt(p, cek[h..], s.iv, s.ciphertext), 16), DecryptFailed)
  }

  function EncryptGcm(p: Primitives, cek: bytes, plaintext: bytes, aad: bytes, iv: bytes): Sealed
    requires p.Sized() && IsAesKey(cek) && |iv| == 12
  {
    var sealed := p.gcmSeal(cek, iv, plaintext, aad);
    var n := |sealed| - 16;
    Sealed(iv, sealed[..n], sealed[n..])
  }

  function DecryptGcm(p: Primitives, cek: bytes, s: Sealed, aad: bytes): Result<bytes> {
    if |s.iv| != 12 || |s.tag| != 16 then Err(DecryptFailed)
    else OrElse(p.gcmOpen(cek, s.iv, s.ciphertext + s.tag, aad), DecryptFailed)
  }

  /** contentEnc.encrypt, with the freshly drawn IV as an argument. */
  function Encrypt(p: Primitives, ce: Enc, cek: bytes, plaintext: bytes, aad: bytes, iv: bytes): (r: Result<Sealed>)
    requires p.Sized() && ce.Valid() && |iv| == ce.IvSize()
    ensures r.Ok? <==> |cek| == ce.keySize
  {
    if |cek| != ce.keySize then Err(InvalidKey)
    else if ce.gcm then Ok(EncryptGcm(p, cek, plaintext, aad, iv))
    else Ok(EncryptCbcHmac(p, ce, cek, plaintext, aad, iv))
  }

  function Decrypt(p: Primitives, ce: Enc, cek: bytes, s: Sealed, aad: bytes): Result<bytes>
    requires p.Sized() && ce.Valid()
  {
    if |cek| != ce.keySize then Err(InvalidKey)
    else if ce.gcm then DecryptGcm(p, cek, s, aad)
    else DecryptCbcHmac(p, ce, cek, s, aad)
  }

  /** encryptCBCHMAC, padding in a buffer. */
  method EncryptCBCHMAC(p: Primitives, ce: Enc, cek: bytes, plaintext: bytes, aad: bytes, iv: bytes) returns (s: Sealed)
    requires p.Sized() && ce.Valid() && !ce.gcm && |cek| == ce.keySize && |iv| == 16
    ensures s == EncryptCbcHmac(p, ce, cek, plaintext, aad, iv)
  {
    hide Pad, CbcEncrypt, CbcTag;
    PaddedShape(plaintext, 16);
    var h := |cek| / 2;
    var padded := Pkcs7Pad(plaintext, 16);
    var ciphertext := CbcEncrypt(p, cek[h..], iv, padded);
    s := Sealed(iv, ciphertext, CbcTag(p, ce.hash, cek[..h], iv, ciphertext, aad));
  }

  /** decryptCBCHMAC: the tag is checked before the ciphertext is touched. */
  method DecryptCBCHMAC(p: Primitives, ce: Enc, cek: bytes, s: Sealed, aad: bytes) returns (r: Result<bytes>)
    requires p.Sized() && ce.Valid() && !ce.gcm && |cek| == ce.keySize
    ensures r == DecryptCbcHmac(p, ce, cek, s, aad)
  {
    hide Unpad, CbcDecrypt, CbcTag;
    var h := |cek| / 2;
    if |s.iv| != 16 || |s.ciphertext| == 0 || |s.ciphertext| % 16 != 0 {
      return Err(DecryptFailed);
    }
    if s.tag != CbcTag(p, ce.hash, cek[..h], s.iv, s.ciphertext, aad) {
      return Err(DecryptFailed);
    }
    var out := Pkcs7Unpad(CbcDecrypt(p, cek[h..], s.iv, s.ciphertext), 16);
    return OrElse(out, DecryptFailed);
  }

  lemma CbcHmacInverse(p: Primitives, ce: Enc, cek: bytes, s: Sealed, aad: bytes, plaintext: bytes)
    requires p.Sized() && p.AesLaw() && ce.Valid() && !ce.gcm && |cek| == ce.keySize && |s.iv| == 16
    ensures DecryptCbcHmac(p, ce, cek, s, aad) == Ok(plaintext) <==>
            s == EncryptCbcHmac(p, ce, cek, plaintext, aad, s.iv)
  {
    hide CbcTag, Pad, Unpad;
    var k := cek[|cek| / 2..];
    var padded := Pad(plaintext, 16);
    PaddedShape(plaintext, 16);
    UnpadInvertsPad(plaintext, padded, 16);
    CbcDecryptUndoes(p, k, s.iv, padded);
    if |s.ciphertext| % 16 == 0 {
      UnpadInvertsPad(plaintext, CbcDecrypt(p, k, s.iv, s.ciphertext), 16);
      CbcEncryptUndoes(p, k, s.iv, s.ciphertext);
    }
  }

  /**
   Section 5.2.2.1 of RFC 7518: the first half of the CEK keys the MAC over AAD || IV || E || AL,
   truncated to its own length; the second half decrypts E to the padded plaintext.
   */
  lemma CbcHmacMeetsRfc(p: Primitives, ce: Enc, cek: bytes, plaintext: bytes, aad: bytes, iv: bytes)
    requires p.Sized() && p.AesLaw() && ce.Valid() && !ce.gcm && |cek| == ce.keySize && |iv| == 16
    ensures var s := EncryptCbcHmac(p, ce, cek, plaintext, aad, iv);
            var half := ce.keySize / 2;
            && s.iv == iv && |s.tag| == half
            && s.tag <= p.hmac(ce.hash, cek[..half], aad + iv + s.ciphertext + BigEndian(8 * |aad|, 8))
            && |s.ciphertext| == 16 * (|plaintext| / 16 + 1)
            && Unpad(CbcDecrypt(p, cek[half..], iv, s.ciphertext), 16) == Some(plaintext)
  {
    hide CbcEncrypt, CbcDecrypt, Unpad, Pad, BigEndian, p.AesLaw;
    var s := EncryptCbcHmac(p, ce, cek, plaintext, aad, iv);
    var padded := Pad(plaintext, 16);
    PaddedShape(plaintext, 16);
    CbcDecryptUndoes(p, cek[ce.keySize / 2..], iv, padded);
    UnpadInvertsPad(plaintext, padded, 16);
    PaddedSize(plaintext);
  }

  lemma PaddedSize(b: bytes)
    ensures |Pad(b, 16)| == 16 * (|b| / 16 + 1)
  {
  }

  lemma PaddedShape(b: bytes, blockSize: nat)
    requires 0 < blockSize < 256
    ensures |Pad(b, blockSize)| > 0 && |Pad(b, blockSize)| % blockSize == 0
  {
    PaddedLength(|b|, blockSize);
  }

  lemma GcmInverse(p: Primitives, cek: bytes, s: Sealed, aad: bytes, plaintext: bytes)
    requires p.Sized() && p.GcmLaw() && IsAesKey(cek) && |s.iv| == 12
    ensures DecryptGcm(p, cek, s, aad) == Ok(plaintext) <==> s == EncryptGcm(p, cek, plaintext, aad, s.iv)
  {
    var sealed := p.gcmSeal(cek, s.iv, plaintext, aad);
    var n := |sealed| - 16;
    assert sealed[..n] + sealed[n..] == sealed;
    if DecryptGcm(p, cek, s, aad) == Ok(plaintext) {
      assert s.ciphertext + s.tag == sealed;
      assert sealed[..n] == s.ciphertext && sealed[n..] == s.tag;
    }
  }

  /**
   For every algorithm, key, IV, AAD and plaintext: decryption returns a plaintext exactly
   when the sealed triple is the encryption of that plaintext.
   */
  lemma DecryptInvertsEncrypt(p: Primitives, ce: Enc, cek: bytes, s: Sealed, aad: bytes, plaintext: bytes)
    requires p.Sized() && p.AesLaw() && p.GcmLaw() && ce.Valid() && |s.iv| == ce.IvSize()
    ensures Decrypt(p, ce, cek, s, aad) == Ok(plaintext) <==>
            Encrypt(p, ce, cek, plaintext, aad, s.iv) == Ok(s)
  {
    hide DecryptCbcHmac, EncryptCbcHmac, DecryptGcm, EncryptGcm;
    if |cek| == ce.keySize {
      if ce.gcm {
        GcmInverse(p, cek, s, aad, plaintext);
      } else {
        CbcHmacInverse(p, ce, cek, s, aad, plaintext);
      }
    }
  }

  // ---------------------------------------------------------------- what is sealed, in the library's terms

  /** n octets of value n up to the next whole block of 16 (section 6.3 of RFC 5652). */
  ghost predicate EndsInPadding(b: bytes, padded: bytes) {
    && |b| < |padded| <= |b| + 16 && |padded| % 16 == 0
    && padded[..|b|] == b
    && forall i :: |b| <= i < |padded| ==> padded[i] == |padded| - |b|
  }

  lemma PaddedIffPad(b: bytes, padded: bytes)
    ensures EndsInPadding(b, padded) <==> padded == Pad(b, 16)
  {
    PaddedLength(|b|, 16);
    if EndsInPadding(b, padded) {
      PaddingIsForced(|b|, |padded| - |b|, 16);
      assert padded == b + Repeat(|padded| - |b|, |padded| - |b|);
    }
  }

  function BlockOf(b: bytes, i: nat): (r: bytes)
    requires 16 * i + 16 <= |b|
    ensures |r| == 16
  {
    b[16 * i..16 * i + 16]
  }

  /** Block i is the cipher of plaintext block i xor the ciphertext block before it, or the IV. */
  ghost predicate IsLinked(p: Primitives, k: bytes, iv: bytes, m: bytes, c: bytes, i: nat)
    requires |iv| == 16 && |c| == |m| && 16 * i + 16 <= |m|
  {
    BlockOf(c, i) == p.aesEncrypt(k, XorSeq(BlockOf(m, i), if i == 0 then iv else BlockOf(c, i - 1)))
  }

  ghost predicate IsChained(p: Primitives, k: bytes, iv: bytes, m: bytes, c: bytes)
    requires |iv| == 16
  {
    |c| == |m| && |m| % 16 == 0 && forall i :: 0 <= i < |m| / 16 ==> IsLinked(p, k, iv, m, c, i)
  }

  lemma TailBlock(b: bytes, i: nat)
    requires 16 * i + 32 <= |b|
    ensures BlockOf(b[16..], i) == BlockOf(b, i + 1)
  {
  }

  lemma LinkAhead(p: Primitives, k: bytes, iv: bytes, m: bytes, c: bytes, i: nat)
    requires |iv| == 16 && |c| == |m| && 16 * i + 32 <= |m|
    ensures IsLinked(p, k, c[..16], m[16..], c[16..], i) <==> IsLinked(p, k, iv, m, c, i + 1)
  {
    hide BlockOf, XorSeq;
    TailBlock(c, i);
    TailBlock(m, i);
    if i == 0 {
      FirstBlock(c);
    } else {
      TailBlock(c, i - 1);
    }
  }

  /** A chain is its first block and the chain of the rest. */
  lemma ChainStep(p: Primitives, k: bytes, iv: bytes, m: bytes, c: bytes)
    requires |iv| == 16 && |c| == |m| > 0 && |m| % 16 == 0
    ensures IsChained(p, k, iv, m, c) <==>
            c[..16] == p.aesEncrypt(k, XorSeq(m[..16], iv)) && IsChained(p, k, c[..16], m[16..], c[16..])
  {
    var n := |m| / 16;
    assert n >= 1 && |m[16..]| / 16 == n - 1;
    FirstBlock(c);
    FirstBlock(m);
    assert IsLinked(p, k, iv, m, c, 0) <==> c[..16] == p.aesEncrypt(k, XorSeq(m[..16], iv));
    hide IsLinked, BlockOf, XorSeq;
    forall i | 0 <= i < n - 1
      ensures IsLinked(p, k, c[..16], m[16..], c[16..], i) <==> IsLinked(p, k, iv, m, c, i + 1)
    {
      LinkAhead(p, k, iv, m, c, i);
    }
    if c[..16] == p.aesEncrypt(k, XorSeq(m[..16], iv)) && IsChained(p, k, c[..16], m[16..], c[16..]) {
      forall i | 0 <= i < n
        ensures IsLinked(p, k, iv, m, c, i)
      {
        assert i > 0 ==> IsLinked(p, k, c[..16], m[16..], c[16..], i - 1);
      }
    }
  }

  lemma FirstBlock(b: bytes)
    requires |b| >= 16
    ensures BlockOf(b, 0) == b[..16]
  {
  }

  /** CBC encryption is the one chain over the plaintext. */
  lemma {:induction false} CbcIffChained(p: Primitives, k: bytes, iv: bytes, m: bytes, c: bytes)
    requires p.Sized() && IsAesKey(k) && |iv| == 16 && |m| % 16 == 0
    ensures c == CbcEncrypt(p, k, iv, m) <==> IsChained(p, k, iv, m, c)
    decreases |m|
  {
    if m != [] {
      var first := p.aesEncrypt(k, XorSeq(m[..16], iv));
      var rest := CbcEncrypt(p, k, first, m[16..]);
      hide IsChained, XorSeq;
      if |c| == |m| {
        ChainStep(p, k, iv, m, c);
        CbcIffChained(p, k, first, m[16..], c[16..]);
        assert c == c[..16] + c[16..];
        assert (first + rest)[..16] == first && (first + rest)[16..] == rest;
      } else {
        ChainedSize(p, k, iv, m, c);
      }
    }
  }

  lemma ChainedSize(p: Primitives, k: bytes, iv: bytes, m: bytes, c: bytes)
    requires |iv| == 16
    ensures IsChained(p, k, iv, m, c) ==> |c| == |m|
  {
  }

  /**
   s is plaintext under cek with this aad, in terms of AES-GCM, or of AES and HMAC: section 5.3,
   and section 5.2.2.1, of RFC 7518.
   */
  ghost predicate IsSealed(p: Primitives, ce: Enc, cek: bytes, plaintext: bytes, aad: bytes, s: Sealed) {
    && |cek| == ce.keySize
    && if ce.gcm then
         |s.iv| == 12 && |s.tag| == 16 && s.ciphertext + s.tag == p.gcmSeal(cek, s.iv, plaintext, aad)
       else
         var half := |cek| / 2;
         && |s.iv| == 16 && |s.tag| == half
         && s.tag <= p.hmac(ce.hash, cek[..half], aad + s.iv + s.ciphertext + BigEndian(8 * |aad|, 8))
         && exists padded :: EndsInPadding(plaintext, padded) && IsChained(p, cek[half..], s.iv, padded, s.ciphertext)
  }

  lemma CbcIsSealed(p: Primitives, ce: Enc, cek: bytes, plaintext: bytes, aad: bytes, s: Sealed)
    requires p.Sized() && ce.Valid() && !ce.gcm && |cek| == ce.keySize && |s.iv| == 16
    ensures EncryptCbcHmac(p, ce, cek, plaintext, aad, s.iv) == s <==> IsSealed(p, ce, cek, plaintext, aad, s)
  {
    hide Pad, CbcEncrypt, EndsInPadding, IsChained, BigEndian;
    var half := |cek| / 2;
    var padded := Pad(plaintext, 16);
    PaddedShape(plaintext, 16);
    PaddedIffPad(plaintext, padded);
    CbcIffChained(p, cek[half..], s.iv, padded, s.ciphertext);
    var tag := p.hmac(ce.hash, cek[..half], aad + s.iv + s.ciphertext + BigEndian(8 * |aad|, 8));
    if IsSealed(p, ce, cek, plaintext, aad, s) {
      var other :| EndsInPadding(plaintext, other) && IsChained(p, cek[half..], s.iv, other, s.ciphertext);
      PaddedIffPad(plaintext, other);
      assert s.tag == tag[..half];
    }
  }

  lemma GcmIsSealed(p: Primitives, ce: Enc, cek: bytes, plaintext: bytes, aad: bytes, s: Sealed)
    requires p.Sized() && ce.Valid() && ce.gcm && |cek| == ce.keySize && |s.iv| == 12
    ensures EncryptGcm(p, cek, plaintext, aad, s.iv) == s <==> IsSealed(p, ce, cek, plaintext, aad, s)
  {
    var sealed := p.gcmSeal(cek, s.iv, plaintext, aad);
    var n := |sealed| - 16;
    assert sealed == sealed[..n] + sealed[n..];
    if IsSealed(p, ce, cek, plaintext, aad, s) {
      assert sealed[..n] == s.ciphertext && sealed[n..] == s.tag;
    }
  }

  /** Encryption produces, and decryption accepts, exactly what is sealed so; with no other IV than the drawn one. */
  lemma SealingIsExact(p: Primitives, ce: Enc, cek: bytes, plaintext: bytes, aad: bytes, s: Sealed)
    requires p.Sized() && p.AesLaw() && p.GcmLaw() && ce.Valid()
    ensures Decrypt(p, ce, cek, s, aad) == Ok(plaintext) <==> IsSealed(p, ce, cek, plaintext, aad, s)
    ensures |s.iv| == ce.IvSize() ==>
              (Encrypt(p, ce, cek, plaintext, aad, s.iv) == Ok(s) <==> IsSealed(p, ce, cek, plaintext, aad, s))
  {
    hide IsSealed, EncryptCbcHmac, EncryptGcm, p.Sized, p.AesLaw, p.GcmLaw;
    if |s.iv| == ce.IvSize() {
      hide DecryptCbcHmac, DecryptGcm, Decrypt;
      DecryptInvertsEncrypt(p, ce, cek, s, aad, plaintext);
      SealedHasSizes(p, ce, cek, plaintext, aad, s);
      if |cek| == ce.keySize {
        if ce.gcm {
          GcmIsSealed(p, ce, cek, plaintext, aad, s);
        } else {
          CbcIsSealed(p, ce, cek, plaintext, aad, s);
        }
      }
    } else {
      SealedHasSizes(p, ce, cek, plaintext, aad, s);
      OpenedHasIv(p, ce, cek, s, aad);
    }
  }

  lemma SealedHasSizes(p: Primitives, ce: Enc, cek: bytes, plaintext: bytes, aad: bytes, s: Sealed)
    ensures IsSealed(p, ce, cek, plaintext, aad, s) ==> |cek| == ce.keySize && |s.iv| == ce.IvSize()
  {
  }

  lemma OpenedHasIv(p: Primitives, ce: Enc, cek: bytes, s: Sealed, aad: bytes)
    requires p.Sized() && ce.Valid()
    ensures Decrypt(p, ce, cek, s, aad).Ok? ==> |s.iv| == ce.IvSize()
  {
    hide CbcDecrypt, CbcTag, Unpad, p.Sized;
  }

  /** The input of the tag determines its parts, while the AAD's bit length fits 64 bits. */
  lemma MacInputInjective(iv1: bytes, c1: bytes, aad1: bytes, iv2: bytes, c2: bytes, aad2: bytes)
    requires |iv1| == |iv2| == 16
    requires |aad1| * 8 < 0x1_0000_0000_0000_0000 && |aad2| * 8 < 0x1_0000_0000_0000_0000
    requires MacInput(iv1, c1, aad1) == MacInput(iv2, c2, aad2)
    ensures iv1 == iv2 && c1 == c2 && aad1 == aad2
  {
    var h1, h2 := aad1 + iv1 + c1, aad2 + iv2 + c2;
    var l1, l2 := BigEndian(|aad1| * 8, 8), BigEndian(|aad2| * 8, 8);
    assert |h1| == |h2|;
    ConcatInjective(h1, l1, h2, l2);
    assert Pow256(8) == 0x1_0000_0000_0000_0000;
    BigEndianInjective(|aad1| * 8, |aad2| * 8, 8);
    ConcatInjective(aad1 + iv1, c1, aad2 + iv2, c2);
    ConcatInjective(aad1, iv1, aad2, iv2);
  }
}
