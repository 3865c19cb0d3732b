# A verified model of the jose package

`jose` produces and reads JWS (RFC 7515), JWE (RFC 7516) and JWK (RFC 7517) objects. Its
promise is that it never emits a document that it would itself refuse to read, and that the
original octets always come back. This project models the code that carries that promise and
proves it, in three layers that build on each other.

1. **Primitives written by hand**: AES Key Wrap, PBKDF2, the Concat KDF, AES-CBC-HMAC with
   PKCS #7, and the strict base64url segment codec. Each array loop is a method proved against
   a mathematical function, and the function is proved against the RFC's own description or
   against its inverse.
2. **Headers and keys**: disjoint merging, `crit`, JWK selection, restrictions and conversion.
3. **Producers and consumers**: signing and verifying, encrypting and decrypting, for lists of
   signers and recipients of any length.

`dafny verify dfyconfig.toml` checks everything.

## How it is laid out

| files | content |
|---|---|
| `Octets`, `Utf8`, `Outcomes`, `Keys`, `Primitives`, `Tokens` | octet strings, text through JSON, results and error tags, the data, the library routines and their laws, joining and splitting tokens |
| `Base64Url`, `KeyWrap`, `Pbkdf2`, `ConcatKdf`, `ContentEnc` | the hand-written primitives |
| `Headers`, `Ecdh`, `JsonWebKeys`, `Signatures`, `KeyMgmt` | headers, key forms, signature and key management algorithms |
| `Jws`, `Jwe`, `JweJson` | producers and consumers as functions |
| `KeyMgmtOps`, `JwsOps`, `JweOps` | the same operations in the source's imperative form (loops, and header maps that are written in place), proved equal to the functions |
| `JwsProperties`, `JweProperties`, `JweJsonProperties` | the main theorems |
| `KeyMgmtExact`, `JwkExact`, `JwsExact`, `JweExact`, `JweJsonExact` | for every operation, exactly which inputs and outputs go together: each function proved equivalent to a declarative predicate over the library routines, with the octets written out |
| `Witness` | an instance of the library routines, so the laws are consistent |
| `WitnessTokens`, `WitnessSignatures`, `WitnessDocuments` | tokens and documents that exist in it: instances of the main theorems, and the inputs on which the code breaks its promise |

## The main results

- `KeyWrap.WrapMeetsRfc`, `KeyWrap.UnwrapInvertsWrap`: the in-place loops compute the shift
  register of RFC 3394, and unwrapping accepts exactly the wrappings.
- `ContentEnc.DecryptInvertsEncrypt`: for every `enc`, decryption returns a plaintext exactly
  when the sealed triple is the encryption of that plaintext.
- `KeyMgmt.EncryptedKeyRoundTrip`: for every key management `alg`, the recipient recovers the
  CEK that was delivered.
- `JweProperties.CompactRoundTrip`, `JwsProperties.CompactRoundTrip`: Decrypt after Encrypt and
  Verify after Sign, with the exact condition under which the octets come back.
- `JweJsonProperties.EveryKeyUnwraps`, `JweJsonProperties.EveryRecipientRecovers`,
  `JweJsonProperties.MultiRecipientRoundTrip`, `JweJsonProperties.MixedRecipientsRoundTrip`: any
  number and mix of recipients share one CEK, and each gets the plaintext.
- `JwsProperties.MultiSignatureRoundTrip`: any signer's key verifies the document, and the
  payload comes back whichever signature matches first, with the exact condition on the payload.
- `JwsProperties.PayloadDependsOnSigningInput`, `JweJsonProperties.PlaintextIgnoresUnprotected`:
  data outside the integrity protection decides nothing about what is returned.
- `JweJsonProperties.DecryptIsComplete`: trial decryption misses nobody.
- `JwsExact.SignatureIsExact`, `JwsExact.DocumentAcceptanceIsExact`, `JweJsonExact.EncryptionIsExact`,
  `JweJsonExact.DocumentDecryptionIsExact` and their parts: what is signed, accepted, encrypted and
  decrypted, as equivalences. No forged signature, unknown critical extension or unauthenticated
  content is accepted, and nothing that should be is refused.

## What is assumed

The routines of Go's standard library are fields of one record, `Primitives.Primitives`, and the
theorems hold for every record that obeys the laws stated there: AES is a pair of inverse
permutations, hashes and MACs have a fixed length, GCM opens exactly what it sealed, RSA decrypts
what it encrypted and verifies what it signed, Diffie-Hellman commutes, inflating undoes
deflating, and a header survives JSON up to the change of Go types (`[]string` becomes a list, an
integer becomes a float64). `Witness.LawsHold` shows the laws consistent, and
`WitnessTokens.TokenRoundTrips`, `WitnessSignatures.TwoSignaturesRoundTrip` and
`WitnessDocuments.TwoRecipientsRoundTrip` that there are tokens and documents under them which
meet everything the main theorems ask. Randomness is an argument. A Go string is an octet
sequence, written as a Dafny string with one character per octet.

## Where the code and its promises part

- An empty or non-string `zip` is taken for "no compression" by the producers and refused by the
  consumer (`JweProperties.OtherZipIsRefused`; `WitnessTokens.EmptyZipTokenIsRefused` is an
  input).
- `MaxDecompressed` is an int, and the code adds one to it: at the largest int64 the sum wraps
  around, the limited reader reads nothing, and a compressed token decrypts to no octets without
  an error (`JweProperties.LargestLimitLosesPlaintext`; `WitnessTokens.CompressedTokenIsLost` is
  an input). The JWE round trips hold if and only if `zip` is absent, or is "DEF" with a plaintext
  inside the recipient's limit, where the largest int64 admits only the empty plaintext.
- An empty JWS payload cannot be verified, because an empty segment means "detached". An
  unencoded payload that is not UTF-8 does not survive json.Marshal. The JWS compact round trip
  holds if and only if the payload is not empty, and the JSON one if and only if it is also
  detached, base64url encoded or valid UTF-8 (`WitnessSignatures.InvalidTextIsLost` is an input).
- With several recipients the sender reads `apu` and `apv` from the recipient's own header only,
  while the recipient reads them from the merged view. Both sides feed the KDF the same input if
  and only if every `apu` or `apv` in the headers that the sender does not look at is the empty
  string (`JweJsonProperties.PartyInfoDecidesKdf`). `WitnessDocuments.SharedApuLocksOut` is a
  document that EncryptJSONMulti produces and no key decrypts.
- The comment on SignJSONMulti says that every signer must agree on whether the payload is
  detached; the code does not check this. The payload is left out if and only if all signers
  detach it (`JwsProperties.PayloadIsCarried`), and the round trip holds either way.
- A JWK set that holds a single null key, and no other argument, stops `resolveKey` with a nil
  dereference when no kid is given; the model reports it as `Panic` (`JsonWebKeys.NullKeyPanics`).
- An RSA private key with one prime, or with more than two, does not survive FromKey and Key
  (`JsonWebKeys.RsaRoundTrip`).
- The comment on RSA1_5 speaks of random octets when the padding is bad; the code hands the
  library a key of zero octets, so that content sealed under zero octets decrypts
  (`JweProperties.BadPaddingIsZeroKey`).

## Model

| member | source | states |
|---|---|---|
| Base64Url.DigitsAreAlphabet | base64.go:17 | digit v is entry v of the RFC 4648 url-safe alphabet, and nothing else is a digit |
| Base64Url.SplitKeepsBits | base64.go:21-23 | the four sextets of a group carry the 24 bits of its three octets, in order |
| Base64Url.GroupsInOrder | base64.go:21-23 | encoding whole groups and then a rest is the concatenation of their encodings |
| Base64Url.EncodeSegment | base64.go:21-23 | an encoding uses only the alphabet, without padding, and has length (4n+2)/3 |
| Base64Url.DecodeSegmentScan | base64.go:33-50 | the scan stops at the first character outside the alphabet, and otherwise decodes strictly |
| Base64Url.SegmentBijection | base64.go:17-50 | a segment decodes to b if and only if it is the encoding of b, so each value has one spelling |
| Base64Url.OnlyEmptyDecodesToNothing | base64.go:33-50 | a non-empty segment never decodes to no octets |
| Base64Url.AcceptedSegmentShape | base64.go:38-48 | an accepted segment contains no '.' |
| Base64Url.EncodingIsLonger | base64.go:21-23 | the encoding of non-empty octets is strictly longer than they are, so it never spells them |
| Octets.NetworkOrder | ecdh.go:164-169 | octet i of a k-octet integer counts in units of 256^(k-1-i): most significant first |
| KeyWrap.XorUint64 | keywrap.go:93-100 | the last eight octets of the slice are XORed with the big-endian counter, the others are kept |
| KeyWrap.WrapBody | keywrap.go:41-48 | one pass of the inner loop is one key-wrap step on block i |
| KeyWrap.UnwrapBody | keywrap.go:78-84 | one pass of the inner loop undoes one step on block i |
| KeyWrap.AESKeyWrap | keywrap.go:23-55 | the in-place loops compute the wrapping, and refuse a bad key or length |
| KeyWrap.AESKeyUnwrap | keywrap.go:60-91 | the in-place loops compute the unwrapping with its integrity check and errors |
| KeyWrap.RotationStep | keywrap.go:40-49 | a step on block i of the array is a step of the shift register rotated by i blocks |
| KeyWrap.ShiftStepIs | keywrap.go:41-48 | octet by octet, a step enciphers A with the first block, XORs the counter into A and moves the other half to the end |
| KeyWrap.PassesAreShifts | keywrap.go:39-50 | after j whole passes the array is the RFC's register after n*j steps |
| KeyWrap.WrapMeetsRfc | keywrap.go:31-54 | for every n >= 2 the result is the 6n-step shift-register output of section 2.2.1 of RFC 3394 |
| KeyWrap.UnwrapPassesUndo | keywrap.go:76-86 | undoing j passes after j passes restores the registers |
| KeyWrap.WrapPassesUndo | keywrap.go:39-50 | repeating j passes after undoing them restores the registers |
| KeyWrap.UnwrapInvertsWrap | keywrap.go:23-91 | unwrapping c gives k if and only if wrapping k gives c: the accepted set is the image of wrapping |
| KeyWrap.WrapSucceeds | keywrap.go:23-55 | a key of two or more whole blocks is always wrapped, eight octets longer |
| Pbkdf2.XorInto | pbkdf2.go:63-65 | every octet of t is XORed with the octet of u, in place |
| Pbkdf2.DeriveBlock | pbkdf2.go:52-68 | the reused buffers hold T_i, the XOR of the iterated PRF values, after `iterations` PRF calls |
| Pbkdf2.PBKDF2 | pbkdf2.go:37-70 | the result is the first keyLen octets of T_1, T_2, ..., with exactly blocks * iterations PRF calls |
| Pbkdf2.Derive | pbkdf2.go:37-44 | a key of exactly keyLen octets is derived if and only if the count and the length are positive |
| Pbkdf2.UIsIterated | pbkdf2.go:52-62 | U_k of block i is the k-fold PRF of the salt and the index |
| Pbkdf2.TIsXor | pbkdf2.go:58-66 | every octet of T_i is the XOR of that octet of U_1 to U_c |
| Pbkdf2.BlockAt | pbkdf2.go:51-69 | block i of the derived octets is T_i |
| Pbkdf2.ShortKeyIsXor | pbkdf2.go:46-69 | a key within one hash is, octet by octet, the XOR of the k-fold PRFs of salt and 00 00 00 01 |
| Pbkdf2.ShorterIsPrefix | pbkdf2.go:46-69 | a shorter request is a prefix of a longer one |
| Pbkdf2.BlockIndexExact | pbkdf2.go:53 | within the RFC's bound on keyLen every block index is encoded exactly in its four octets |
| Pbkdf2.SaltInputInjective | pbkdf2.go:78-84 | the salt determines the algorithm name and the salt input |
| ConcatKdf.ConcatKDF | ecdh.go:137-160 | the loop terminates with the first keyLen octets of H(1,z,other), H(2,z,other), ... |
| ConcatKdf.OtherInfoLayout | ecdh.go:141-147 | OtherInfo is three fields after their lengths in four octets, and the key length in bits |
| ConcatKdf.LayoutIsUnique | ecdh.go:141-147 | nothing else is laid out so |
| ConcatKdf.HashBlockAt | ecdh.go:148-158 | block i of the derived octets is the hash of the counter i, the secret and OtherInfo |
| ConcatKdf.KeyIsHashed | ecdh.go:137-160 | for what is laid out so, a key of up to 64 octets is the front of H(00 00 00 01, z, other) and H(00 00 00 02, z, other) |
| ConcatKdf.LengthPrefixedInjective | ecdh.go:164-169 | a length-prefixed field is uniquely decodable in front of anything |
| ConcatKdf.OtherInfoInjective | ecdh.go:141-147 | OtherInfo determines the algorithm, apu, apv and the key length within the field widths |
| Ecdh.SidesAgree | ecdh.go:175-184 | sender and recipient derive the same key from their own halves |
| Ecdh.PointRoundTrip | ecdh.go:44-77 | a point on the curve survives ecdsa to ecdh to ecdsa |
| Ecdh.EncodedPointRoundTrip | ecdh.go:44-77 | an encoded point survives ecdh to ecdsa to ecdh |
| ContentEnc.EncNames | contentenc.go:43-80 | exactly the six RFC names are found, each with the CEK size it announces, doubled for CBC |
| ContentEnc.Pkcs7Pad | contentenc.go:218-226 | the buffer is the input followed by n octets of value n, up to a whole block |
| ContentEnc.Pkcs7Unpad | contentenc.go:231-247 | the or-accumulator is zero exactly when all the padding octets are right |
| ContentEnc.UnpadInvertsPad | contentenc.go:218-247 | unpadding accepts exactly the padded strings, and returns the one string so padded |
| ContentEnc.PaddedIffPad | contentenc.go:218-226 | the padded string is the one that ends in n octets of value n at a multiple of 16 |
| ContentEnc.CbcIffChained | contentenc.go:187-191 | each ciphertext block is the cipher of the plaintext block XOR the block before it, first the IV; only CBC does that |
| ContentEnc.CbcDecryptUndoes | contentenc.go:187-208 | CBC decryption undoes CBC encryption over any number of blocks |
| ContentEnc.EncryptCBCHMAC | contentenc.go:176-191 | pad, encrypt, then tag the ciphertext, as specified |
| ContentEnc.DecryptCBCHMAC | contentenc.go:193-214 | shape, tag, decryption and padding are checked in that order, with one error |
| ContentEnc.CbcHmacMeetsRfc | contentenc.go:152-191 | the halves of the CEK play the roles of section 5.2.2.1 of RFC 7518, and the tag covers AAD, IV, E, AL |
| ContentEnc.GcmInverse | contentenc.go:116-146 | splitting off the tag and joining it again loses nothing: open accepts exactly what was sealed |
| ContentEnc.Encrypt | contentenc.go:84-92 | encryption succeeds if and only if the CEK has the algorithm's size |
| ContentEnc.DecryptInvertsEncrypt | contentenc.go:84-104 | for all six algorithms, decryption yields p if and only if the triple is the encryption of p |
| ContentEnc.SealingIsExact | contentenc.go:84-214 | encryption produces, and decryption accepts, exactly the triples that are AES-GCM, or padded CBC under the second half and a truncated MAC under the first |
| ContentEnc.MacInputInjective | contentenc.go:160-174 | AAD, IV, E, AL is unambiguous while the AAD's bit length fits 64 bits |
| Headers.CriticalScan | header.go:37-59 | the list of names, from a Go list or a JSON one, or nothing if an item is not a string |
| Headers.CopyHeaderLoop | header.go:87-95 | the copy has every parameter, and a later header wins, in any order of iteration |
| Headers.CopyOfTwo | header.go:87-95 | in a copy of two headers the second wins |
| Headers.MergeHeadersLoop | header.go:101-112 | the result, or the refusal, is the same in any order of iteration |
| Headers.MergeIffDisjoint | header.go:101-112 | merging succeeds if and only if no two headers share a name |
| Headers.MergeIsUnion | header.go:101-112 | the merged header holds every parameter of every header, and no other |
| Headers.DecodeEncodedHeader | header.go:62-84 | decoding an encoded header gives the header as JSON shows it |
| Headers.CheckCriticalLoop | header.go:124-150 | the verdict is the first complaint about the listed names, in order |
| Headers.CheckCriticalProducedSteps | header.go:162-171 | the producer checks its list with the list itself as the known names |
| Headers.CriticalAccepted | header.go:124-150 | accepted if and only if `crit` is absent, or lists at least one name, each an unregistered, present and known extension |
| Headers.CriticalIsUnderstood | header.go:124-184 | accepted if and only if `crit` is a non-empty list of names that are not empty, none of the twenty registered ones, present and known |
| Headers.ProducibleIs | header.go:162-171 | the producer accepts exactly the headers that some verifier could understand |
| Headers.ProducedIsExact | header.go:162-171 | the producer accepts a header if and only if some set of known names makes a consumer accept it |
| Headers.CriticalMonotone | header.go:124-150 | knowing more names never turns acceptance into refusal |
| Headers.CriticalReceived | header.go:37-59 | a readable `crit` means the same after JSON |
| Headers.ProducedIsAccepted | header.go:124-171 | a recipient that knows the listed names accepts what the producer accepted |
| JsonWebKeys.LookupKeyIdScan | jwk.go:106-116 | the scan returns what the first-match lookup specifies |
| JsonWebKeys.LookupIsFirst | jwk.go:106-116 | the key found has the kid and no earlier non-null key has it; none is found only if none has it |
| JsonWebKeys.NullKeyPanics | header.go:199-223 | the only key argument that panics is a set of one null key, and only without a kid |
| JsonWebKeys.CheckJwkUsageLoop | jwk.go:309-333 | use, then alg, then key_ops are checked, with their own errors |
| JsonWebKeys.KeyUsedIsKeyChecked | jwk.go:280-333 | once a key resolves, the check passes if and only if it is a raw key or comes from the selected JWK whose restrictions permit the operation |
| JsonWebKeys.IntRoundTrip | jwk.go:351-420 | a fixed-width integer is read back as itself |
| JsonWebKeys.RsaRoundTrip | jwk.go:205-222 | Key(FromKey(k)) is k for an RSA key if and only if it is public, or has no primes or exactly two |
| JsonWebKeys.EcPublicRoundTrip | jwk.go:422-530 | Key(FromKey(k)) is k for an on-curve EC public key |
| JsonWebKeys.EcPrivateRoundTrip | jwk.go:225-230 | Key(FromKey(k)) is k for every EC private key on its curve with a scalar in range |
| JsonWebKeys.OctetKeyRoundTrip | jwk.go:231-261 | Key(FromKey(k)) is k for symmetric and Ed25519 keys |
| JsonWebKeys.EphemeralRoundTrip | jwk.go:532-542 | an ECDH public key written as a JWK resolves to the same point |
| JwkExact.ResolvingIsExact | jwk.go:121-136 | a JWK resolves to k if and only if its members are the base64url text of k, and the library finds k valid |
| JwkExact.PrivateIsExact | jwk.go:153-165 | a JWK is private if and only if the key it stands for is |
| JwkExact.EcMembers | jwk.go:515-530 | an EC key has kty, its curve, and coordinates of 32, 48 or 66 octets, and no other member |
| JwkExact.EpkMembers | jwa_keymgmt.go:597-607 | the header value of an EC key has exactly kty, crv, x and y |
| JwkExact.SelectionIsExact | jwk.go:280-302 | the JWK itself, the only key of a set without a kid, or the first of a set with the kid |
| JwkExact.ResolveKeyIsExact | header.go:199-223 | a raw key as it is, or what the selected JWK stands for, and nothing else |
| JwkExact.MissingKeyIsNotFound | header.go:199-223 | a set without the wanted kid is refused as such |
| JwkExact.RefusedUsage | jwk.go:309-333 | which of use, alg and key_ops refuses the operation |
| Signatures.SigAlgNames | jwa_sign.go:59-99 | exactly the thirteen names are found; "none" has its own error |
| Signatures.SigAlgNameSpells | jwa_sign.go:59-99 | every name but "EdDSA" spells the kind and the hash it is found with |
| Signatures.EcdsaCurves | jwa_sign.go:69-71 | ES256 is P-256 with 32 octets, ES384 is P-384 with 48, ES512 is P-521 with 66 |
| Signatures.DefaultSigAlgs | jwa_sign.go:278-307 | which algorithm is taken for a key of each type |
| Signatures.SigningIsExact | jwa_sign.go:109-168 | a signature is made if and only if it is what the HMAC, RSA, ECDSA or Ed25519 routine makes of the input, ECDSA as r and s of fixed width |
| Signatures.VerifyingIsExact | jwa_sign.go:172-262 | a signature is accepted if and only if that routine confirms it over the input with the key |
| Signatures.BadSignatureIsInvalid | jwa_sign.go:172-262 | with a key that accepts one signature, another that is refused is SignatureInvalid |
| Signatures.RSRoundTrip | jwa_sign.go:152-154 | r and s are read back from the fixed-width signature |
| Signatures.SignatureOctetsAreRS | jwa_sign.go:229-233 | every signature of that length is the encoding of the r and s it is split into |
| Signatures.SignatureRoundTrip | jwa_sign.go:109-262 | for every algorithm a signature is non-empty and verifies with the same key or its public half |
| KeyMgmt.KeyMgmtNames | jwa_keymgmt.go:78-116 | exactly the seventeen names are found; of them "dir" and "ECDH-ES" derive the CEK |
| KeyMgmt.KeyMgmtKinds | jwa_keymgmt.go:78-96 | which kind of algorithm each name stands for |
| KeyMgmt.KeyMgmtHashes | jwa_keymgmt.go:78-96 | RSA-OAEP has SHA-1, RSA-OAEP-256 has SHA-256, RSA1_5 none; and the PRF of each PBES2 name |
| KeyMgmt.KeyMgmtSizes | jwa_keymgmt.go:78-96 | which names wrap the CEK with 128, 192 and 256 bits |
| KeyMgmt.DefaultKeyMgmtAlgs | jwe.go:254-274 | which algorithm is taken for a key of each type and size |
| KeyMgmtExact.HeaderBytesIs | jwa_keymgmt.go:543-568 | a header parameter yields b if and only if it is the base64url text of b |
| KeyMgmtExact.HeaderIntIs | jwa_keymgmt.go:570-593 | a header parameter yields n if and only if it is the int n, or the float n within 32 bits |
| KeyMgmtExact.PublicHalf | ecdh.go:93-105 | the point of a key: as it is, or 04, x, y for an ECDSA key on its curve |
| KeyMgmtExact.PrivateHalf | ecdh.go:109-120 | the scalar of a key: as it is, or d at the width of the curve |
| KeyMgmtExact.AgreementIsExact | jwa_keymgmt.go:304-317 | the agreed key is the KDF of the shared secret, the name and size of enc or of alg, and the octets of apu and apv |
| KeyMgmtExact.AgreementByName | jwa_keymgmt.go:278-283 | ECDH-ES binds enc and its key size; ECDH-ES+A128KW, +A192KW and +A256KW bind their own names and 16, 24, 32 |
| KeyMgmtExact.DeliveryIsExact | jwa_keymgmt.go:145-208 | encryptKey returns w if and only if w is what the kind of algorithm delivers: CEK, encrypted key and header, in the library routines |
| KeyMgmtExact.RsaByName | jwa_keymgmt.go:158-172 | the encrypted key of RSA1_5, RSA-OAEP and RSA-OAEP-256 is RSA with no hash, SHA-1 and SHA-256 over the CEK |
| KeyMgmtExact.EphemeralIsPublic | jwa_keymgmt.go:332-362 | the ephemeral key is an object that resolves to a public EC or OKP key without "d" |
| KeyMgmtExact.RecoveryIsExact | jwa_keymgmt.go:211-271 | decryptKey returns cek if and only if the kind of algorithm recovers it: wrapping it again gives the encrypted key, and so on |
| KeyMgmt.JwkValueRoundTrip | jwa_keymgmt.go:332-343 | the `epk` header value parses back to the JWK it was made from |
| KeyMgmt.EncryptKeyEcdh | jwa_keymgmt.go:285-325 | only `epk` is written; the CEK is the agreed key of the right size, or the one given |
| KeyMgmt.EncryptKeyPbes2 | jwa_keymgmt.go:387-432 | only `p2s` and `p2c` are written, and the given CEK is kept |
| KeyMgmt.EncryptKey | jwa_keymgmt.go:145-208 | only the algorithm's own parameters are written; a shared CEK is kept and is refused by an algorithm that derives one; a fresh CEK has the size of enc |
| KeyMgmt.EncryptedKeyRoundTripGcm | jwa_keymgmt.go:191-266 | AES-GCM key wrapping is undone through the `iv` and `tag` headers |
| KeyMgmt.EncryptedKeyRoundTripPbes2 | jwa_keymgmt.go:387-463 | PBES2 is undone through `p2s` and `p2c` after JSON |
| KeyMgmt.EncryptedKeyRoundTripEcdh | jwa_keymgmt.go:285-383 | both ECDH-ES forms are undone through `epk`, given the same party information |
| KeyMgmt.EncryptedKeyRoundTrip | jwa_keymgmt.go:145-271 | for all 17 algorithms the recipient's half of the key recovers the delivered CEK, of exactly enc's size |
| KeyMgmt.AgreeUsesKdfInput | jwa_keymgmt.go:304-313 | either side's agreed key is the KDF's output on the OtherInfo of its header and the shared secret |
| KeyMgmt.EcPairOpens | jwa_keymgmt.go:285-331 | a well-formed EC key pair serves both ends of a key agreement |
| KeyMgmtOps.EncryptKeyECDH | jwa_keymgmt.go:285-325 | returns as specified, and leaves the caller's header map exactly as specified, also after an error; only `epk` may change |
| KeyMgmtOps.EncryptKeyPBES2 | jwa_keymgmt.go:387-432 | returns as specified, and leaves the caller's header map exactly as specified, also after an error; only `p2s` and `p2c` may change |
| KeyMgmtOps.EncryptKeyInto | jwa_keymgmt.go:145-208 | the same for every kind; only the algorithm's own parameters may change |
| KeyMgmtOps.DecryptKeyPBES2 | jwa_keymgmt.go:434-463 | recovers as specified, with at most 1,000,000 PRF calls whatever the header asks for |
| Tokens.SplitJoined | jwe.go:167-189 | splitting a joined token on '.' returns exactly its segments, when none contains '.' |
| Tokens.PartsOfToken | jws.go:155-158 | joining what a token splits into gives the token, and no part contains a '.' |
| JwsProperties.SignedIsVerifiable | jws.go:237-325 | nothing is signed that its own signer could not verify: a verifier with the same key that knows the listed extensions gets the payload |
| JwsOps.BuildProtected | jws.go:258-274 | a fresh header map is filled as specified; the caller's map is only read |
| JwsOps.SignOneSteps | jws.go:237-325 | one signature as specified, with every refusal in the code's order |
| JwsOps.SignJSONMulti | jws.go:118-144 | the loop over the signers builds the document as specified |
| JwsOps.VerifyJSON | jws.go:180-231 | the trial loop over the signatures returns as specified, general or flattened |
| JwsProperties.PlanIsSound | jws.go:258-305 | the header about to be sent names the algorithm, shares no name with the unprotected one, and has an acceptable crit and b64 |
| JwsProperties.SignedVerifies | jws.go:237-417 | a signature checked with the matching key returns the payload, attached or detached |
| JwsProperties.AnySuccessReturnsPayload | jws.go:330-417 | whatever key, options and unprotected header, a check of it that succeeds returns that payload |
| JwsProperties.VerifiedPayloadIsNonEmpty | jws.go:374-416 | no verified payload is empty |
| JwsProperties.SignedTokenSplits | jws.go:93-105 | a compact token splits into exactly the three segments, also with an unencoded payload |
| JwsProperties.CompactRoundTrip | jws.go:93-168 | Verify(Sign(p)) is p if and only if p is not empty |
| JwsProperties.SuccessDecodesSegment | jws.go:347-416 | a check that succeeds returns what the received segment decodes to under the signer's b64 setting |
| JwsProperties.SignStepsInvariant | jws.go:122-142 | every entry is its signer's signature over one shared encoded payload, which is carried unless all signers so far detach it |
| JwsProperties.PayloadIsCarried | jws.go:134-136 | the document leaves the payload out if and only if every signer detaches it |
| Utf8.RepairedIffValid | jws.go:143 | json.Marshal keeps a string if and only if it is valid UTF-8, and lengthens it otherwise |
| Utf8.CharIsEncoded | jws.go:143 | a well-formed character is the encoding of a Unicode scalar value (section 3 of RFC 3629) |
| Utf8.EncodedIsChar | jws.go:143 | the encoding of every scalar value is well-formed |
| JwsProperties.PayloadThroughJson | jws.go:314-319 | a serialized payload survives json.Marshal if and only if it is base64url text or valid UTF-8 |
| JwsProperties.VerifiedDocumentIsNonEmpty | jws.go:180-231 | no document verifies to an empty payload |
| JwsProperties.SignersShareB64 | jws.go:129-133 | comparing encodings forces all signers onto one b64 setting |
| JwsProperties.TrySignaturesIsFirst | jws.go:208-230 | the first signature that verifies is returned, otherwise the last error |
| JwsProperties.MultiSignatureRoundTrip | jws.go:118-231 | for any list of signers, any one's matching key gets the payload if and only if it is not empty and is detached, base64url encoded or valid UTF-8 |
| JwsProperties.PayloadDependsOnSigningInput | jws.go:330-426 | two successful checks of the same signing input return the same payload, whatever else differs |
| JwsProperties.SigningKeyIsPermitted | jws.go:237-257 | signing uses a key only as the JWK it came from permits |
| JwsProperties.VerifyingKeyIsPermitted | jws.go:385-395 | verifying uses a key only as the JWK it came from permits, and never accepts "none" |
| JwsExact.ProtectedHeaderIs | jws.go:258-274 | the protected header has the caller's parameters, alg, and kid and crit by their precedence, and nothing else |
| JwsExact.PlanIs | jws.go:238-305 | what is decided before signing, as an equivalence |
| JwsExact.SignatureIsExact | jws.go:237-325 | signOne returns s if and only if s is the signature by the planned key and algorithm over protected, '.', payload |
| JwsExact.TokenIsExact | jws.go:93-105 | Sign returns exactly the three segments joined, and refuses unprotected headers |
| JwsExact.DocumentIsExact | jws.go:118-144 | SignJSONMulti returns exactly the documents with one entry per signer over one payload |
| JwsExact.AcceptanceIsExact | jws.go:330-417 | a signature is accepted with a payload if and only if the headers are disjoint, alg admitted, crit understood, b64 sound, the key permitted and the signature confirmed over protected, '.', payload |
| JwsExact.TokenAcceptanceIsExact | jws.go:154-168 | Verify accepts exactly such tokens of three parts |
| JwsExact.DocumentAcceptanceIsExact | jws.go:180-231 | VerifyJSON succeeds if and only if some signature of the one form the document has is accepted, and returns for one that is |
| JwsExact.ForgeryIsInvalid | jws.go:397-407 | in place of an accepted signature, any other that fails is SignatureInvalid |
| JwsExact.NoneIsDisallowed | jws.go:335-341 | a token without signature is refused by name |
| JwsExact.UnprotectedNameIsRefused | header.go:142-144 | a critical name outside the protected header has an error of its own |
| JwsExact.RefusalsOfHeader | jws.go:330-388 | the error of each check before the key, in order |
| JweProperties.ChoiceIsSenders | jwe_json.go:340-368 | a received header that names the sender's algorithms selects them, and the matching key |
| JweOps.Encrypt | jwe.go:88-174 | the compact token as specified, with every refusal in the code's order |
| JweOps.Decrypt | jwe.go:188-217 | decrypts as specified, the four segments in a loop |
| JweProperties.CompressionRoundTrip | jwe_json.go:384-398 | what the producer compressed inflates to the plaintext if and only if zip is acceptable and the limit, with its wrap-around, lets the plaintext through |
| JweProperties.LargestLimitLosesPlaintext | jwe.go:239-251 | at the largest limit every compressed token decrypts to no octets, without an error |
| JweProperties.OtherZipIsRefused | jwe.go:148-155 | a token that Encrypt made with any `zip` but "DEF" is refused by the recipient it is for |
| JweProperties.EmptyZipIsRefused | jwe.go:148-155 | in particular with an empty `zip` among the caller's parameters |
| JweProperties.CekIsRecovered | jwe_json.go:339-375 | a header that shows the algorithm's parameters as sent yields the CEK that was delivered |
| JweProperties.CompactRoundTrip | jwe.go:88-217 | for every alg and enc, Decrypt(Encrypt(p)) is p if and only if zip is absent, or "DEF" with a limit that lets p through |
| JweProperties.EncryptionKeyIsPermitted | jwe.go:95-121 | compact encryption uses a key only as the JWK it came from permits |
| JweProperties.DecryptionKeyIsPermitted | jwe_json.go:362-380 | whatever was decrypted was decrypted with a key used as the JWK it came from permits |
| JweProperties.BadPaddingIsZeroKey | jwa_keymgmt.go:220-232 | with bad RSA1_5 padding the CEK is zero octets, and content sealed under them decrypts |
| JweExact.CompactHeaderIs | jwe.go:122-136 | the header has the caller's parameters, alg, enc, zip, and kid by its precedence, and nothing else |
| JweExact.PlanIsExact | jwe.go:88-140 | what is decided before any cryptography, as an equivalence |
| JweExact.TokenIsExact | jwe.go:88-174 | Encrypt returns exactly the five segments of the delivered CEK and of the content sealed under the header's ASCII text |
| JweExact.ChoiceIsExact | jwe_json.go:339-368 | what a merged header chooses, and from which keys, as an equivalence |
| JweExact.InflatingIsExact | jwe_json.go:384-398 | which plaintext a body yields under zip and the limit |
| JweExact.TooLongIsLimited | jwe.go:239-251 | a plaintext over the limit is CompressionLimit |
| JweExact.DecryptionIsExact | jwe_json.go:339-381 | one recipient decrypts to a plaintext if and only if the header chooses, the key recovers a CEK of the right size, and the content is sealed under it |
| JweExact.TokenDecryptionIsExact | jwe.go:188-217 | Decrypt accepts exactly such tokens of five parts whose crit is understood |
| JweExact.RefusalsOfChoice | jwe_json.go:339-361 | the error of each check before the key, in order |
| JweExact.RefusalsOfContent | contentenc.go:130-214 | content that does not open is DecryptFailed, whatever is wrong with it |
| JweOps.RecipientOrderLoop | jwe_json.go:430-460 | the loops build the order as specified |
| JweOps.KidScan | jwe_json.go:447-452 | the innermost header that names a kid wins |
| JweOps.FoldInto | jwe_json.go:164-174 | the loop over the shared parameters folds or refuses the same in any order |
| JweOps.WrapForAll | jwe_json.go:112-194 | the loop leaves the CEK, the protected header and the entries as specified, and the shared map untouched |
| JweOps.EncryptJSONMulti | jwe_json.go:72-239 | the document as specified, with every refusal in the code's order |
| JweOps.DecryptJSON | jwe_json.go:254-336 | the trial loop returns as specified |
| JweJsonProperties.OneCekForAll | jwe_json.go:112-194 | loop invariant: one CEK of exactly enc's size, delivered to every recipient so far |
| JweJsonProperties.DerivedCekIsAlone | jwe_json.go:136-138 | an algorithm that derives the CEK occurs only with one recipient |
| JweJsonProperties.SealedOpens | jwe_json.go:196-293 | the produced document opens, and conveys the header, AAD, ciphertext and entries that were sealed |
| JweJsonProperties.RecipientRecoversCek | jwe_json.go:301-328 | each recipient recovers the document's CEK from the view it merges |
| JweJsonProperties.EveryKeyUnwraps | jwe_json.go:112-328 | in the received document every encrypted key unwraps, under its recipient's key and merged header, to one CEK of exactly enc's size |
| JweJsonProperties.RecipientRoundTrip | jwe_json.go:300-398 | a recipient's trial with its matching key returns the plaintext if and only if the protected zip is acceptable |
| JweJsonProperties.EveryRecipientRecovers | jwe_json.go:72-398 | for any number and mix of recipients, each one's trial returns the plaintext if and only if zip is acceptable |
| JweJsonProperties.MultiRecipientRoundTrip | jwe_json.go:72-336 | DecryptJSON with any recipient's key succeeds; it returns the plaintext if that recipient is tried first, and in any order if the entries that the key opens yield one CEK |
| JweJsonProperties.AddressedRecipientRoundTrip | jwe_json.go:430-460 | the first recipient that goes by the kid of the JWK gets the plaintext, whatever the other entries are |
| JweJsonProperties.ExcludedTrialFails | jwe_json.go:340-375 | an entry whose algorithm is not admitted, or whose kid finds no key that may decrypt and fits, never opens |
| JweJsonProperties.MixedRecipientsRoundTrip | jwe_json.go:72-336 | DecryptJSON returns the plaintext, in any order of trials, to a key that matches some recipients and cannot open the entries of the others |
| JweJsonProperties.SentKidIsShown | jwe_json.go:144-153 | every entry of the received document shows the kid under which the sender addressed it |
| JweJsonProperties.DocumentCarriesEntry | jwe_json.go:112-239 | entry i of the received document is what the loop made for recipient i with the one CEK, and its headers merge to the view the sender checked |
| JweJsonProperties.OrderIsPermutation | jwe_json.go:430-460 | every recipient is tried exactly once |
| JweJsonProperties.OrderIsStablePartition | jwe_json.go:445-459 | recipients with the wanted kid come first, and both groups keep the document's order |
| JweJsonProperties.TryRecipientsIsFirst | jwe_json.go:299-335 | the first recipient that opens is returned, otherwise the error of the last one tried |
| JweJsonProperties.DecryptIsComplete | jwe_json.go:297-336 | DecryptJSON succeeds if and only if some recipient passes its own checks |
| JweJsonProperties.PlaintextIgnoresUnprotected | jwe_json.go:300-398 | two successful trials with the same protected data, options, CEK and enc return the same plaintext |
| JweJsonProperties.DocumentsWithSameProtectedMembers | jwe_json.go:254-336 | the same for trials of entries of two documents that differ only outside the protected members |
| JweJsonProperties.DocumentsDecryptAlike | jwe_json.go:254-336 | two successful runs of DecryptJSON on documents with equal protected members that used the same CEK and enc return the same plaintext |
| JweJsonProperties.RecipientKeyIsPermitted | jwe_json.go:117-135 | JSON encryption uses a recipient's key only as the JWK it came from permits |
| JweJsonExact.SharedHeaderIs | jwe_json.go:101-110 | the shared header, parameter by parameter |
| JweJsonExact.OwnHeaderIs | jwe_json.go:140-152 | a recipient's own header, parameter by parameter |
| JweJsonExact.FoldIs | jwe_json.go:154-175 | folding keeps the recipient's parameters, adds the shared ones, and refuses any repetition but of kid |
| JweJsonExact.PlanForIsExact | jwe_json.go:113-175 | what is decided for one recipient, as an equivalence |
| JweJsonExact.LoopIsExact | jwe_json.go:112-194 | the loop leaves w_1 to w_n if and only if each recipient was served with the CEK of the one before |
| JweJsonExact.SealIsExact | jwe_json.go:196-239 | the document after the loop, member by member, as an equivalence |
| JweJsonExact.EncryptionIsExact | jwe_json.go:72-239 | EncryptJSONMulti returns exactly the sealed documents of recipients that were all served |
| JweJsonExact.OpeningIsExact | jwe_json.go:254-296 | what the recipients share, member by member, with the AAD as ASCII(protected) and '.' ASCII(aad) |
| JweJsonExact.TrialIsExact | jwe_json.go:300-334 | an entry opens if and only if zip is protected, the headers are disjoint, crit is understood and the view decrypts |
| JweJsonExact.DocumentDecryptionIsExact | jwe_json.go:254-336 | DecryptJSON succeeds if and only if some entry opens, and returns for one that does |
| JweJsonExact.DecryptedIsUnderstood | jwe_json.go:318-320 | whatever was decrypted has only critical extensions that the caller knows |
| JweJsonExact.OrderWithoutKid | jwe_json.go:430-444 | without a wanted kid the entries are tried as they stand |
| JweJsonExact.RefusalsOfEntry | jwe_json.go:300-327 | the error of each check on an entry before its key, in order |
| JweJsonExact.RefusalsOfRequest | jwe_json.go:72-99 | the error of each check of EncryptJSONMulti before any key, in order |
| JweJsonExact.RefusalsOfRecipient | jwe_json.go:136-175 | the errors of a deriving algorithm for several recipients and of a repeated parameter for one |
| JweJsonProperties.JweAadInjective | jwe_json.go:403-412 | the AAD determines the protected and the aad segments |
| JweJsonProperties.AuthenticatedInputIsUnambiguous | contentenc.go:160-174 | what the CBC-HMAC tag covers determines the protected and aad segments, the IV and the ciphertext |
| JweJsonProperties.PartyInfoInView | jwe_json.go:142-177 | both sides see the same apu and apv if and only if none sits in a header the sender does not look at |
| JweJsonProperties.PartyInfoDecidesKdf | jwe_json.go:142-328 | for every document, both sides of a key agreement feed the KDF the same input if and only if the caller's options keep apu and apv out of the headers the sender does not look at |
| WitnessTokens.TokenRoundTrips | jwe.go:88-217 | a token exists, compressed or not, and the compact round trip applies to it |
| WitnessTokens.EmptyZipTokenIsRefused | jwe_json.go:384-391 | a token with an empty `zip` exists, and its own recipient refuses it |
| WitnessTokens.CompressedTokenIsLost | jwe.go:239-251 | a compressed token exists that a recipient with the largest limit decrypts to nothing |
| WitnessSignatures.TwoSignaturesRoundTrip | jws.go:118-231 | a document of two signers who disagree on detachment exists, and its payload comes back |
| WitnessSignatures.InvalidTextIsLost | jws.go:118-144 | unencoded octets that are not UTF-8 can be signed, and do not come back |
| WitnessDocuments.TwoRecipientsRoundTrip | jwe_json.go:72-398 | a document for two recipients exists, each entry yields its CEK and each trial its plaintext |
| WitnessDocuments.SharedApuLocksOut | jwe_json.go:142-328 | a document with `apu` in its shared header exists that no key decrypts, although the recipients hold the matching keys |

## Left out

- AES, SHA-2, HMAC, RSA, ECDSA, Ed25519, the curves and DEFLATE themselves: library code, represented by the laws in `Primitives`.
- JSON text, struct tags and case-insensitive member names: documents are modelled decoded.
- Invalid UTF-8 in header names and values, which json.Marshal would alter: the header codec stands for the one on valid text. The JWS payload, where it matters, is modelled with the repair.
- Header values of other Go types than strings, bools, ints, floats, lists and maps (`json.Number`, byte slices, structs), which only a caller can set, and the `dp`, `dq` and `qi` members of a JWK, which resolving a key ignores.
- Failure of the random source, which Go 1.24 no longer reports.
- Randomness quality, constant-time comparison, timing and secrecy: not functional properties.
- Error texts: each error is its sentinel of errors.go; wrapped sentinels are not related to the ones they wrap.
- Thumbprints, the listings of supported algorithms, the remaining Header accessors, ParseJWKSet and JWK.Public: they would only add easy members.
- SignJSON, EncryptJSON and the functions without options: one-line calls of what is modelled.
- JweJsonProperties.MultiRecipientRoundTrip: if an entry meant for somebody else is tried first and happens to open with this key under another CEK, its content is returned; that this does not happen is no functional property. `EveryRecipientRecovers`, `AddressedRecipientRoundTrip` and `MixedRecipientsRoundTrip` suppose nothing of the kind.
- JweJsonProperties.PartyInfoDecidesKdf: the exact condition is on the KDF's input; that different input gives a different key is a property of SHA-256, not of this code.
- Aliasing of the maps a caller passes in: header arguments are values, and the maps written in place are fresh copies, as copyHeader makes them.
