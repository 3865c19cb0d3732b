/** AES Key Wrap (RFC 3394), as keywrap.go implements it in place. */
module KeyWrap {
  import opened Octets
  import opened Outcomes
  import opened Primitives

  /** aesKWIV: the initial value of section 2.2.3.1 of RFC 3394. */
  const IV: bytes := [0xA6, 0xA6, 0xA6, 0xA6, 0xA6, 0xA6, 0xA6, 0xA6]

  /** The integrity register A and the n eight-octet blocks R, end to end. */
  datatype Registers = Registers(a: bytes, r: bytes) {
    predicate Shape(n: nat) {
      |a| == 8 && |r| == 8 * n
    }
  }

  function Block(r: bytes, i: nat): (b: bytes)
    requires 8 * i + 8 <= |r|
    ensures |b| == 8
  {
    r[8 * i..8 * i + 8]
  }

  function SetBlock(r: bytes, i: nat, b: bytes): (r': bytes)
    requires 8 * i + 8 <= |r| && |b| == 8
    ensures |r'| == |r|
  {
    r[..8 * i] + b + r[8 * i + 8..]
  }

  // ---------------------------------------------------------------- the index form

  /** Step t, on block i (counted from zero). */
  function WrapStep(p: Primitives, kek: bytes, n: nat, s: Registers, t: nat, i: nat): (s': Registers)
    requires p.Sized() && IsAesKey(kek) && s.Shape(n) && i < n
    ensures s'.Shape(n)
  {
    var b := p.aesEncrypt(kek, s.a + Block(s.r, i));
    Registers(XorSeq(b[..8], BigEndian(t, 8)), SetBlock(s.r, i, b[8..]))
  }

  function UnwrapStep(p: Primitives, kek: bytes, n: nat, s: Registers, t: nat, i: nat): (s': Registers)
    requires p.Sized() && IsAesKey(kek) && s.Shape(n) && i < n
    ensures s'.Shape(n)
  {
    var b := p.aesDecrypt(kek, XorSeq(s.a, BigEndian(t, 8)) + Block(s.r, i));
    Registers(b[..8], SetBlock(s.r, i, b[8..]))
  }

  /** The first i steps after step t0: the inner loop. */
  function WrapPass(p: Primitives, kek: bytes, n: nat, s: Registers, t0: nat, i: nat): (s': Registers)
    requires p.Sized() && IsAesKey(kek) && s.Shape(n) && i <= n
    ensures s'.Shape(n)
    decreases i
  {
    if i == 0 then s else WrapStep(p, kek, n, WrapPass(p, kek, n, s, t0, i - 1), t0 + i, i - 1)
  }

  /** The first j passes: the outer loop. */
  function WrapPasses(p: Primitives, kek: bytes, n: nat, j: nat, s: Registers): (s': Registers)
    requires p.Sized() && IsAesKey(kek) && s.Shape(n)
    ensures s'.Shape(n)
  {
    if j == 0 then s else WrapPass(p, kek, n, WrapPasses(p, kek, n, j - 1, s), n * (j - 1), n)
  }

  /** Undoing the i steps after step t0, last step first. */
  function UnwrapPass(p: Primitives, kek: bytes, n: nat, s: Registers, t0: nat, i: nat): (s': Registers)
    requires p.Sized() && IsAesKey(kek) && s.Shape(n) && i <= n
    ensures s'.Shape(n)
    decreases i
  {
    if i == 0 then s else UnwrapPass(p, kek, n, UnwrapStep(p, kek, n, s, t0 + i, i - 1), t0, i - 1)
  }

  /** Undoing the first j passes, last pass first. */
  function UnwrapPasses(p: Primitives, kek: bytes, n: nat, j: nat, s: Registers): (s': Registers)
    requires p.Sized() && IsAesKey(kek) && s.Shape(n)
    ensures s'.Shape(n)
  {
    if j == 0 then s else UnwrapPasses(p, kek, n, j - 1, UnwrapPass(p, kek, n, s, n * (j - 1), n))
  }

  function Wrap(p: Primitives, kek: bytes, plaintext: bytes): Result<bytes>
    requires p.Sized()
  {
    if !IsAesKey(kek) || |plaintext| % 8 != 0 || |plaintext| < 16 then Err(InvalidKey)
    else
      var s := WrapPasses(p, kek, |plaintext| / 8, 6, Registers(IV, plaintext));
      Ok(s.a + s.r)
  }

  function Unwrap(p: Primitives, kek: bytes, ciphertext: bytes): Result<bytes>
    requires p.Sized()
  {
    if !IsAesKey(kek) then Err(InvalidKey)
    else if |ciphertext| % 8 != 0 || |ciphertext| < 24 then Err(Malformed)
    else
      var s := UnwrapPasses(p, kek, |ciphertext| / 8 - 1, 6, Registers(ciphertext[..8], ciphertext[8..]));
      if s.a != IV then Err(DecryptFailed) else Ok(s.r)
  }

  // ---------------------------------------------------------------- each undoes the other

  lemma BlockSet(r: bytes, i: nat, b: bytes)
    requires 8 * i + 8 <= |r| && |b| == 8
    ensures Block(SetBlock(r, i, b), i) == b
    ensures SetBlock(SetBlock(r, i, b), i, Block(r, i)) == r
  {
  }

  lemma HalvesJoin(x: bytes, y: bytes, b: bytes)
    requires |x| == 8 && |y| == 8 && |b| == 16
    ensures (x + y)[..8] == x && (x + y)[8..] == y && b[..8] + b[8..] == b
  {
  }

  lemma UnwrapStepUndoes(p: Primitives, kek: bytes, n: nat, s: Registers, t: nat, i: nat)
    requires p.Sized() && p.AesLaw() && IsAesKey(kek) && s.Shape(n) && i < n
    ensures UnwrapStep(p, kek, n, WrapStep(p, kek, n, s, t, i), t, i) == s
  {
    hide Block, SetBlock, XorSeq, BigEndian;
    var b := p.aesEncrypt(kek, s.a + Block(s.r, i));
    HalvesJoin(s.a, Block(s.r, i), b);
    XorSeqCancels(b[..8], BigEndian(t, 8));
    BlockSet(s.r, i, b[8..]);
  }

  lemma WrapStepUndoes(p: Primitives, kek: bytes, n: nat, s: Registers, t: nat, i: nat)
    requires p.Sized() && p.AesLaw() && IsAesKey(kek) && s.Shape(n) && i < n
    ensures WrapStep(p, kek, n, UnwrapStep(p, kek, n, s, t, i), t, i) == s
  {
    hide Block, SetBlock, XorSeq, BigEndian;
    var x := XorSeq(s.a, BigEndian(t, 8));
    var b := p.aesDecrypt(kek, x + Block(s.r, i));
    HalvesJoin(x, Block(s.r, i), b);
    XorSeqCancels(s.a, BigEndian(t, 8));
    BlockSet(s.r, i, b[8..]);
  }

  lemma {:induction false} UnwrapPassUndoes(p: Primitives, kek: bytes, n: nat, s: Registers, t0: nat, i: nat)
    requires p.Sized() && p.AesLaw() && IsAesKey(kek) && s.Shape(n) && i <= n
    ensures UnwrapPass(p, kek, n, WrapPass(p, kek, n, s, t0, i), t0, i) == s
    decreases i
  {
    hide WrapStep, UnwrapStep;
    if i != 0 {
      UnwrapStepUndoes(p, kek, n, WrapPass(p, kek, n, s, t0, i - 1), t0 + i, i - 1);
      UnwrapPassUndoes(p, kek, n, s, t0, i - 1);
    }
  }

  lemma {:induction false} WrapPassUndoes(p: Primitives, kek: bytes, n: nat, s: Registers, t0: nat, i: nat)
    requires p.Sized() && p.AesLaw() && IsAesKey(kek) && s.Shape(n) && i <= n
    ensures WrapPass(p, kek, n, UnwrapPass(p, kek, n, s, t0, i), t0, i) == s
    decreases i
  {
    hide WrapStep, UnwrapStep;
    if i != 0 {
      WrapPassUndoes(p, kek, n, UnwrapStep(p, kek, n, s, t0 + i, i - 1), t0, i - 1);
      WrapStepUndoes(p, kek, n, s, t0 + i, i - 1);
    }
  }

  lemma {:induction false} UnwrapPassesUndo(p: Primitives, kek: bytes, n: nat, j: nat, s: Registers)
    requires p.Sized() && p.AesLaw() && IsAesKey(kek) && s.Shape(n)
    ensures UnwrapPasses(p, kek, n, j, WrapPasses(p, kek, n, j, s)) == s
  {
    hide WrapPass, UnwrapPass;
    if j != 0 {
      UnwrapPassUndoes(p, kek, n, WrapPasses(p, kek, n, j - 1, s), n * (j - 1), n);
      UnwrapPassesUndo(p, kek, n, j - 1, s);
    }
  }

  lemma {:induction false} WrapPassesUndo(p: Primitives, kek: bytes, n: nat, j: nat, s: Registers)
    requires p.Sized() && p.AesLaw() && IsAesKey(kek) && s.Shape(n)
    ensures WrapPasses(p, kek, n, j, UnwrapPasses(p, kek, n, j, s)) == s
  {
    hide WrapPass, UnwrapPass;
    if j != 0 {
      WrapPassesUndo(p, kek, n, j - 1, UnwrapPass(p, kek, n, s, n * (j - 1), n));
      WrapPassUndoes(p, kek, n, s, n * (j - 1), n);
    }
  }

  /** Unwrapping accepts exactly the wrappings, and returns the key that was wrapped. */
  lemma UnwrapInvertsWrap(p: Primitives, kek: bytes, key: bytes, wrapped: bytes)
    requires p.Sized() && p.AesLaw()
    ensures Unwrap(p, kek, wrapped) == Ok(key) <==> Wrap(p, kek, key) == Ok(wrapped)
  {
    if Wrap(p, kek, key) == Ok(wrapped) {
      UnwrapWrapped(p, kek, key);
    } else if Unwrap(p, kek, wrapped) == Ok(key) {
      WrapUnwrapped(p, kek, wrapped);
    }
  }

  lemma UnwrapWrapped(p: Primitives, kek: bytes, key: bytes)
    requires p.Sized() && p.AesLaw() && Wrap(p, kek, key).Ok?
    ensures Unwrap(p, kek, Wrap(p, kek, key).value) == Ok(key)
  {
    hide WrapPasses, UnwrapPasses;
    var n := |key| / 8;
    var s := WrapPasses(p, kek, n, 6, Registers(IV, key));
    var wrapped := s.a + s.r;
    assert wrapped[..8] == s.a && wrapped[8..] == s.r;
    UnwrapPassesUndo(p, kek, n, 6, Registers(IV, key));
  }

  lemma WrapUnwrapped(p: Primitives, kek: bytes, wrapped: bytes)
    requires p.Sized() && p.AesLaw() && Unwrap(p, kek, wrapped).Ok?
    ensures Wrap(p, kek, Unwrap(p, kek, wrapped).value) == Ok(wrapped)
  {
    hide WrapPasses, UnwrapPasses;
    var n := |wrapped| / 8 - 1;
    var s := Registers(wrapped[..8], wrapped[8..]);
    WrapPassesUndo(p, kek, n, 6, s);
    assert wrapped == s.a + s.r;
  }

  /** A key of at least two whole blocks is always wrapped, with eight octets added. */
  lemma WrapSucceeds(p: Primitives, kek: bytes, key: bytes)
    requires p.Sized() && IsAesKey(kek) && |key| % 8 == 0 && |key| >= 16
    ensures Wrap(p, kek, key).Ok? && |Wrap(p, kek, key).value| == |key| + 8
  {
  }

  // ---------------------------------------------------------------- the shift-register form

  /** One step of section 2.2.1 of RFC 3394: always the first block, and the blocks shift. */
  function ShiftStep(p: Primitives, kek: bytes, n: nat, s: Registers, t: nat): (s': Registers)
    requires p.Sized() && IsAesKey(kek) && s.Shape(n) && n > 0
    ensures s'.Shape(n)
  {
    var b := p.aesEncrypt(kek, s.a + s.r[..8]);
    Registers(XorSeq(b[..8], BigEndian(t, 8)), s.r[8..] + b[8..])
  }

  /** In octets: A is the first half of the cipher block, xor the counter in network order; the second half joins R. */
  lemma ShiftStepIs(p: Primitives, kek: bytes, n: nat, s: Registers, t: nat, i: nat)
    requires p.Sized() && IsAesKey(kek) && s.Shape(n) && n > 0 && i < 8
    ensures var b := p.aesEncrypt(kek, s.a + s.r[..8]);
            var s' := ShiftStep(p, kek, n, s, t);
            s'.r == s.r[8..] + b[8..] && s'.a[i] == Xor(b[i], t / Pow256(7 - i) % 256)
  {
    hide Pow256, Xor, BigEndian;
    NetworkOrder(t, 8, i);
  }

  /** Steps 1 .. t, with one counter as in the RFC. */
  function ShiftSteps(p: Primitives, kek: bytes, n: nat, s: Registers, t: nat): (s': Registers)
    requires p.Sized() && IsAesKey(kek) && s.Shape(n) && n > 0
    ensures s'.Shape(n)
    decreases t
  {
    if t == 0 then s else ShiftStep(p, kek, n, ShiftSteps(p, kek, n, s, t - 1), t)
  }

  function Rotate(r: bytes, k: nat): bytes
    requires k <= |r|
  {
    r[k..] + r[..k]
  }

  /** One step keeps the shift register a rotation of the array. */
  lemma RotationStep(p: Primitives, kek: bytes, n: nat, s: Registers, g: Registers, t: nat, i: nat)
    requires p.Sized() && IsAesKey(kek) && s.Shape(n) && i < n
    requires g == Registers(s.a, Rotate(s.r, 8 * i))
    ensures var s' := WrapStep(p, kek, n, s, t, i);
            ShiftStep(p, kek, n, g, t) == Registers(s'.a, Rotate(s'.r, 8 * (i + 1)))
  {
    var b := p.aesEncrypt(kek, s.a + Block(s.r, i));
    assert g.r[..8] == Block(s.r, i);
    assert Rotate(SetBlock(s.r, i, b[8..]), 8 * (i + 1)) == g.r[8..] + b[8..];
  }

  lemma {:induction false} RotationPass(p: Primitives, kek: bytes, n: nat, s0: Registers, s: Registers, t0: nat, i: nat)
    requires p.Sized() && IsAesKey(kek) && s0.Shape(n) && s.Shape(n) && i <= n && n > 0
    requires ShiftSteps(p, kek, n, s0, t0) == s
    ensures var s' := WrapPass(p, kek, n, s, t0, i);
            ShiftSteps(p, kek, n, s0, t0 + i) == Registers(s'.a, Rotate(s'.r, 8 * i))
    decreases i
  {
    hide WrapStep, ShiftStep;
    if i == 0 {
      assert Rotate(s.r, 0) == s.r;
    } else {
      RotationPass(p, kek, n, s0, s, t0, i - 1);
      RotationStep(p, kek, n, WrapPass(p, kek, n, s, t0, i - 1),
                   ShiftSteps(p, kek, n, s0, t0 + i - 1), t0 + i, i - 1);
    }
  }

  /** After whole passes the register is the array itself. */
  lemma {:induction false} PassesAreShifts(p: Primitives, kek: bytes, n: nat, s: Registers, j: nat)
    requires p.Sized() && IsAesKey(kek) && s.Shape(n) && n > 0
    ensures ShiftSteps(p, kek, n, s, n * j) == WrapPasses(p, kek, n, j, s)
    decreases j
  {
    hide WrapPass, ShiftStep;
    if j != 0 {
      PassesAreShifts(p, kek, n, s, j - 1);
      var s1 := WrapPasses(p, kek, n, j - 1, s);
      RotationPass(p, kek, n, s, s1, n * (j - 1), n);
      assert n * j == n * (j - 1) + n;
      var s2 := WrapPass(p, kek, n, s1, n * (j - 1), n);
      assert Rotate(s2.r, 8 * n) == s2.r;
    }
  }

  /** The in-place index form computes section 2.2.1 of RFC 3394, for every number of blocks. */
  lemma WrapMeetsRfc(p: Primitives, kek: bytes, plaintext: bytes)
    requires p.Sized() && IsAesKey(kek) && |plaintext| % 8 == 0 && |plaintext| >= 16
    ensures var n := |plaintext| / 8;
            var g := ShiftSteps(p, kek, n, Registers(Repeat(0xA6, 8), plaintext), 6 * n);
            Wrap(p, kek, plaintext) == Ok(g.a + g.r)
  {
    hide WrapPasses, ShiftSteps;
    assert IV == Repeat(0xA6, 8);
    PassesAreShifts(p, kek, |plaintext| / 8, Registers(IV, plaintext), 6);
  }

  // ---------------------------------------------------------------- the array loops

  /** xorUint64 on the slice b[..end]: t, big-endian, into its last eight octets. */
  method XorUint64(b: array<byte>, end: nat, t: nat)
    requires 8 <= end <= b.Length
    modifies b
    ensures b[..] == old(b[..end - 8]) + XorSeq(old(b[end - 8..end]), BigEndian(t, 8)) + old(b[end..])
  {
    var tb := BigEndian(t, 8);
    var i := 0;
    while i < 8
      invariant 0 <= i <= 8
      invariant forall k :: 0 <= k < b.Length && !(end - 8 <= k < end - 8 + i) ==> b[k] == old(b[k])
      invariant forall k :: 0 <= k < i ==> b[end - 8 + k] == Xor(old(b[end - 8 + k]), tb[k])
    {
      b[end - 8 + i] := Xor(b[end - 8 + i], tb[i]);
      i := i + 1;
    }
  }

  /** block.Encrypt(buf, buf). */
  method EncryptInPlace(p: Primitives, kek: bytes, buf: array<byte>)
    requires p.Sized() && IsAesKey(kek) && buf.Length == 16
    modifies buf
    ensures buf[..] == p.aesEncrypt(kek, old(buf[..]))
  {
    CopyInto(buf, 0, p.aesEncrypt(kek, buf[..]));
  }

  /** block.Decrypt(buf, buf). */
  method DecryptInPlace(p: Primitives, kek: bytes, buf: array<byte>)
    requires p.Sized() && IsAesKey(kek) && buf.Length == 16
    modifies buf
    ensures buf[..] == p.aesDecrypt(kek, old(buf[..]))
  {
    CopyInto(buf, 0, p.aesDecrypt(kek, buf[..]));
  }

  /** copy(buf[8:], r[(i-1)*8:i*8]). */
  method LoadBlock(buf: array<byte>, r: array<byte>, i: nat)
    requires buf.Length == 16 && buf != r && 1 <= i && 8 * i <= r.Length
    modifies buf
    ensures buf[..] == old(buf[..8]) + Block(r[..], i - 1)
  {
    CopyInto(buf, 8, r[(i - 1) * 8..i * 8]);
    assert r[(i - 1) * 8..i * 8] == Block(r[..], i - 1);
  }

  /** copy(r[(i-1)*8:i*8], buf[8:]). */
  method StoreBlock(r: array<byte>, i: nat, buf: array<byte>)
    requires buf.Length == 16 && buf != r && 1 <= i && 8 * i <= r.Length
    modifies r
    ensures r[..] == SetBlock(old(r[..]), i - 1, buf[8..])
  {
    CopyInto(r, (i - 1) * 8, buf[8..]);
  }

  /** copy(buf, a); xorUint64(buf[:8], t). */
  method LoadRegister(buf: array<byte>, a: array<byte>, t: nat)
    requires buf.Length == 16 && a.Length == 8 && buf != a
    modifies buf
    ensures buf[..8] == XorSeq(a[..], BigEndian(t, 8))
  {
    hide XorSeq, BigEndian;
    CopyInto(buf, 0, a[..]);
    assert buf[0..8] == a[..];
    XorUint64(buf, 8, t);
  }

  /** The body of AESKeyWrap's inner loop. */
  method WrapBody(p: Primitives, kek: bytes, n: nat, a: array<byte>, r: array<byte>, buf: array<byte>, t: nat, i: nat)
    requires p.Sized() && IsAesKey(kek) && a.Length == 8 && r.Length == 8 * n && buf.Length == 16 && 1 <= i <= n
    requires a != r && a != buf && r != buf
    modifies a, r, buf
    ensures Registers(a[..], r[..]) == old(WrapStep(p, kek, n, Registers(a[..], r[..]), t, i - 1))
  {
    hide XorSeq, BigEndian;
    ghost var s := Registers(a[..], r[..]);
    CopyInto(buf, 0, a[..]);
    assert buf[..8] == s.a;
    LoadBlock(buf, r, i);
    EncryptInPlace(p, kek, buf);
    ghost var b := p.aesEncrypt(kek, s.a + Block(s.r, i - 1));
    assert buf[..] == b;
    CopyInto(a, 0, buf[..8]);
    XorUint64(a, 8, t);
    assert a[..] == XorSeq(b[..8], BigEndian(t, 8));
    StoreBlock(r, i, buf);
  }

  /** The body of AESKeyUnwrap's inner loop. */
  method UnwrapBody(p: Primitives, kek: bytes, n: nat, a: array<byte>, r: array<byte>, buf: array<byte>, t: nat, i: nat)
    requires p.Sized() && IsAesKey(kek) && a.Length == 8 && r.Length == 8 * n && buf.Length == 16 && 1 <= i <= n
    requires a != r && a != buf && r != buf
    modifies a, r, buf
    ensures Registers(a[..], r[..]) == old(UnwrapStep(p, kek, n, Registers(a[..], r[..]), t, i - 1))
  {
    hide XorSeq, BigEndian, Block, SetBlock;
    ghost var s := Registers(a[..], r[..]);
    ghost var x := XorSeq(s.a, BigEndian(t, 8));
    LoadRegister(buf, a, t);
    LoadBlock(buf, r, i);
    DecryptInPlace(p, kek, buf);
    ghost var b := p.aesDecrypt(kek, x + Block(s.r, i - 1));
    assert buf[..] == b;
    CopyInto(a, 0, buf[..8]);
    assert a[..] == b[..8];
    StoreBlock(r, i, buf);
  }

  /** AESKeyWrap's inner loop: one pass over the blocks. */
  method WrapLoop(p: Primitives, kek: bytes, n: nat, a: array<byte>, r: array<byte>, buf: array<byte>, t0: nat)
    requires p.Sized() && IsAesKey(kek) && a.Length == 8 && r.Length == 8 * n && buf.Length == 16
    requires a != r && a != buf && r != buf
    modifies a, r, buf
    ensures Registers(a[..], r[..]) == old(WrapPass(p, kek, n, Registers(a[..], r[..]), t0, n))
  {
    hide WrapStep;
    ghost var s := Registers(a[..], r[..]);
    var i := 1;
    while i <= n
      invariant 1 <= i <= n + 1
      invariant Registers(a[..], r[..]) == WrapPass(p, kek, n, s, t0, i - 1)
    {
      WrapBody(p, kek, n, a, r, buf, t0 + i, i);
      i := i + 1;
    }
  }

  /** AESKeyUnwrap's inner loop: one pass over the blocks, last block first. */
  method UnwrapLoop(p: Primitives, kek: bytes, n: nat, a: array<byte>, r: array<byte>, buf: array<byte>, t0: nat)
    requires p.Sized() && IsAesKey(kek) && a.Length == 8 && r.Length == 8 * n && buf.Length == 16
    requires a != r && a != buf && r != buf
    modifies a, r, buf
    ensures Registers(a[..], r[..]) == old(UnwrapPass(p, kek, n, Registers(a[..], r[..]), t0, n))
  {
    hide UnwrapStep;
    ghost var s := Registers(a[..], r[..]);
    var i := n;
    while i >= 1
      invariant 0 <= i <= n
      invariant UnwrapPass(p, kek, n, Registers(a[..], r[..]), t0, i) == UnwrapPass(p, kek, n, s, t0, n)
    {
      UnwrapBody(p, kek, n, a, r, buf, t0 + i, i);
      i := i - 1;
    }
  }

  method AESKeyWrap(p: Primitives, kek: bytes, plaintext: bytes) returns (out: Result<bytes>)
    requires p.Sized()
    ensures out == Wrap(p, kek, plaintext)
  {
    hide WrapPass;
    if !IsAesKey(kek) {
      return Err(InvalidKey);
    }
    if |plaintext| % 8 != 0 || |plaintext| < 16 {
      return Err(InvalidKey);
    }
    var n := |plaintext| / 8;
    var a, r, buf := new byte[8], new byte[|plaintext|], new byte[16];
    CopyInto(a, 0, IV);
    CopyInto(r, 0, plaintext);
    ghost var s0 := Registers(IV, plaintext);
    assert Registers(a[..], r[..]) == s0;
    var j := 0;
    while j < 6
      invariant 0 <= j <= 6
      invariant Registers(a[..], r[..]) == WrapPasses(p, kek, n, j, s0)
    {
      WrapLoop(p, kek, n, a, r, buf, n * j);
      j := j + 1;
    }
    return Ok(a[..] + r[..]);
  }

  method AESKeyUnwrap(p: Primitives, kek: bytes, ciphertext: bytes) returns (out: Result<bytes>)
    requires p.Sized()
    ensures out == Unwrap(p, kek, ciphertext)
  {
    hide UnwrapPass;
    if !IsAesKey(kek) {
      return Err(InvalidKey);
    }
    if |ciphertext| % 8 != 0 || |ciphertext| < 24 {
      return Err(Malformed);
    }
    var n := |ciphertext| / 8 - 1;
    var a, r, buf := new byte[8], new byte[|ciphertext| - 8], new byte[16];
    CopyInto(a, 0, ciphertext[..8]);
    CopyInto(r, 0, ciphertext[8..]);
    ghost var s0 := Registers(ciphertext[..8], ciphertext[8..]);
    assert Registers(a[..], r[..]) == s0;
    var j := 5;
    while j >= 0
      invariant -1 <= j <= 5
      invariant UnwrapPasses(p, kek, n, j + 1, Registers(a[..], r[..])) == UnwrapPasses(p, kek, n, 6, s0)
    {
      UnwrapLoop(p, kek, n, a, r, buf, n * j);
      j := j - 1;
    }
    if a[..] != IV {
      return Err(DecryptFailed);
    }
    return Ok(r[..]);
  }
}
