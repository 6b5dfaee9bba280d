/** native/common/ed25519_orlp/src: keypair.c, sign.c and verify.c, and why verify accepts what sign makes. */
module Ed25519 {
  import opened Ints
  import opened Bits
  import opened Bytes
  import opened Edwards
  import opened EdwardsGroup
  import opened Decompression
  import opened Ge
  import opened GeBytes
  import opened DoubleScalarMult
  import opened BaseScalarMult
  import opened Sha512
  import Field
  import Scalar21
  import Scalar

  const L := Scalar21.L

  /** The base point: y = 4/5, and of the two x that go with it the even one */
  const BASE := Point(0x2169_36d3_cd6e_53fe_c0a4_e231_fdd6_dc5c_692c_c760_9525_a7b2_c956_2d60_8f25_d51a,
                      0x6666_6666_6666_6666_6666_6666_6666_6666_6666_6666_6666_6666_6666_6666_6666_6658)

  lemma BasePointOnCurve()
    ensures OnCurve(BASE) && Field.Cong(5 * BASE.y, 4) && BASE.x % 2 == 0
  {
    hide OnCurve, Field.Cong, Field.Prime;
    Field.PrimeNumber(0);
    Equation(BASE);
    BaseQuotients(BASE.x, BASE.y);
  }

  lemma BaseQuotients(x: int, y: int)
    requires x == BASE.x && y == BASE.y
    ensures Field.Cong(Square(y) - Square(x), 1 + D * Square(x * y)) && Field.Cong(5 * y, 4)
  {
    hide Field.Cong, Field.Prime;
    var l, r := Square(y) - Square(x), 1 + D * Square(x * y);
    Field.PrimeNumber((l - r) / Field.DIGITS);
    Field.CongIntro(l, r, (l - r) / Field.DIGITS);
    Field.PrimeNumber((5 * y - 4) / Field.DIGITS);
    Field.CongIntro(5 * y, 4, (5 * y - 4) / Field.DIGITS);
  }

  // The bytes of keys and signatures -------------------------------------------------------------------

  /** The three masks of a clamped key */
  lemma Clamps(x: byte)
    ensures And(x, 248) == x - x % 8
    ensures And(x, 63) == x % 64 && Or(x % 64, 64) == x % 64 + 64
    ensures And(x, 224) == 0 <==> x < 32
  {
    hide And, Or, Pow2;
    Powers();
    AndShifted(x, 31, 3, 8, 248);
    AndMask(5, x / 8);
    AndShifted(x, 7, 5, 32, 224);
    AndMask(3, x / 32);
    AndMask(6, x);
    OrDisjoint(6, x % 64, 1);
  }

  lemma TopByteBounds(s: seq<byte>)
    requires |s| == 32
    ensures Nat(s) <= L ==> s[31] < 32
    ensures s[31] < 32 ==>
      0 <= Nat(s) < 0x2000_0000_0000_0000_0000_0000_0000_0000_0000_0000_0000_0000_0000_0000_0000_0000
    ensures s[31] <= 127 ==>
      0 <= Nat(s) < 0x8000_0000_0000_0000_0000_0000_0000_0000_0000_0000_0000_0000_0000_0000_0000_0000
  {
    Field.PrimeNumber(0);
    TopByte(s, s[31]);
    NatBound(s[..31]);
    var n: nat := 31;
    PowerOfBytes(n);
    hide Pow2, Nat;
  }

  // Key pairs ------------------------------------------------------------------------------------------

  /** The secret scalar: the first half of the private key. */
  function Secret(sk: seq<byte>): int
    requires |sk| == 64
  {
    Nat(sk[..32])
  }

  /** What signing and verifying need of a pair of keys. The second half of sk is free. */
  ghost predicate KeyPair(pk: seq<byte>, sk: seq<byte>, B: Point) {
    |pk| == 32 && |sk| == 64 && sk[31] <= 127 && Nat(pk) == Encoding(Times(Secret(sk), B))
  }

  /** The scalar of a pruned hash: a multiple of the cofactor 8 with bit 254 as its highest bit. */
  predicate Clamped(sk: seq<byte>)
    requires |sk| == 64
  {
    sk[0] % 8 == 0 && 64 <= sk[31] < 128
  }

  /** A hash with the bits of its first half pruned, section 5.1.5 of RFC 8032, step 2 */
  function Pruned(h: seq<byte>): (sk: seq<byte>)
    requires |h| == 64
    ensures |sk| == 64 && Clamped(sk)
  {
    h[0 := h[0] - h[0] % 8][31 := h[31] % 64 + 64]
  }

  method Clamp(privateKey: array<byte>)
    requires privateKey.Length == 64
    modifies privateKey
    ensures privateKey[..] == Pruned(old(privateKey[..]))
  {
    hide And, Or;
    Clamps(privateKey[0]);
    Clamps(privateKey[31]);
    privateKey[0] := And(privateKey[0], 248);
    privateKey[31] := And(privateKey[31], 63);
    privateKey[31] := Or(privateKey[31], 64);
  }

  method CreateKeypair(publicKey: array<byte>, privateKey: array<byte>, seed: seq<byte>, base: seq<seq<Precomp>>,
      ghost B: Point)
    requires publicKey.Length == 32 && privateKey.Length == 64 && |seed| == 32 && publicKey != privateKey
    requires CurveFacts() && OnCurve(B) && BaseTable(base, B)
    modifies publicKey, privateKey
    ensures KeyPair(publicKey[..], privateKey[..], B)
    ensures privateKey[..] == Pruned(Hash(seed))
  {
    hide CurveFacts, OnCurve, BaseTable, Nat, Encoding, Times, Hash, GeP3.Is;
    HashOnce(seed, privateKey);
    Clamp(privateKey);
    ghost var sk := privateKey[..];
    var A := new GeP3();
    GeScalarMultBase(A, privateKey[..32], base, B);
    assert privateKey[..32] == sk[..32];
    GeP3ToBytes(publicKey, A, Times(Secret(sk), B));
    assert publicKey[..32] == publicKey[..];
  }

  // Signing --------------------------------------------------------------------------------------------

  /** The secret nonce, section 5.1.6 of RFC 8032, step 2 */
  function Nonce(sk: seq<byte>, message: seq<byte>): int
    requires |sk| == 64
  {
    Nat(Hash(sk[32..] + message)) % L
  }

  /** The hash of the encoded R, the public key and the message, as a scalar */
  function Challenge(R: seq<byte>, pk: seq<byte>, message: seq<byte>): int {
    Nat(Hash(R + pk + message)) % L
  }

  ghost predicate IsSignature(s: seq<byte>, message: seq<byte>, pk: seq<byte>, sk: seq<byte>, B: Point)
    requires |sk| == 64
  {
    && |s| == 64
    && Nat(s[..32]) == Encoding(Times(Nonce(sk, message), B))
    && Nat(s[32..]) == (Challenge(s[..32], pk, message) * Secret(sk) + Nonce(sk, message)) % L
  }

  /** h = the hash of a and b and c, reduced modulo L */
  method HashScalar(h: array<byte>, a: seq<byte>, b: seq<byte>, c: seq<byte>)
    requires h.Length == 64
    modifies h
    ensures Nat(h[..32]) == Nat(Hash(a + b + c)) % L && h[31] < 32
  {
    hide Sha512Context.Absorbed, Hash, Nat;
    var hash := new Sha512Context();
    hash.Init();
    hash.Update(a, []);
    assert [] + a == a;
    hash.Update(b, a);
    hash.Update(c, a + b);
    hash.Final(h, a + b + c);
    Scalar.ScReduce(h);
    TopByteBounds(h[..32]);
  }

  /** r = the hash of the second half of the private key and the message, reduced modulo L */
  method NonceScalar(r: array<byte>, half: seq<byte>, message: seq<byte>)
    requires r.Length == 64
    modifies r
    ensures Nat(r[..32]) == Nat(Hash(half + message)) % L && r[31] < 32
  {
    hide Sha512Context.Absorbed, Hash, Nat;
    var hash := new Sha512Context();
    hash.Init();
    hash.Update(half, []);
    assert [] + half == half;
    hash.Update(message, half);
    hash.Final(r, half + message);
    Scalar.ScReduce(r);
    TopByteBounds(r[..32]);
  }

  method Sign(signature: array<byte>, message: seq<byte>, publicKey: seq<byte>, privateKey: array<byte>,
      base: seq<seq<Precomp>>, ghost B: Point)
    requires signature.Length == 64 && privateKey.Length == 64 && |publicKey| == 32 && signature != privateKey
    requires CurveFacts() && OnCurve(B) && BaseTable(base, B)
    modifies signature
    ensures IsSignature(signature[..], message, publicKey, privateKey[..], B)
  {
    hide CurveFacts, OnCurve, BaseTable, Nat, Encoding, Times, Hash, GeP3.Is;
    ghost var sk := privateKey[..];
    var r, hram := new byte[64], new byte[64];
    NonceScalar(r, privateKey[32..], message);
    ghost var n := Nat(r[..32]);
    assert privateKey[32..] == sk[32..] && privateKey[..32] == sk[..32];
    var R := new GeP3();
    GeScalarMultBase(R, r[..32], base, B);
    GeP3ToBytes(signature, R, Times(n, B));
    var encoded := signature[..32];
    HashScalar(hram, encoded, publicKey, message);
    Scalar.ScMuladd(signature, 32, hram, privateKey, r);
    assert signature[32..64] == signature[32..];
    assert signature[..32] == encoded;
  }

  // Verifying ------------------------------------------------------------------------------------------

  /** The equation of verify. p is the negative of the point that the public key encodes. */
  ghost predicate Balances(s: seq<byte>, message: seq<byte>, pk: seq<byte>, p: Point, B: Point)
    requires |s| == 64 && |pk| == 32
  {
    && OnCurve(p) && NegationOf(p, pk)
    && Nat(s[..32]) == Encoding(Add(Times(Challenge(s[..32], pk, message), p), Times(Nat(s[32..]), B)))
  }

  /** What verify accepts: the three top bits of S are clear, the public key decodes, and the first half
      of the signature is the encoding of h (-A) + S B. */
  ghost predicate Accepts(s: seq<byte>, message: seq<byte>, pk: seq<byte>, B: Point)
    requires |s| == 64 && |pk| == 32
  {
    s[63] < 32 && exists p :: Balances(s, message, pk, p, B)
  }

  /** consttime_equal on 32 bytes */
  method ConsttimeEqual(x: seq<byte>, y: seq<byte>) returns (equal: bool)
    requires |x| == |y| == 32
    ensures equal <==> x == y
  {
    hide Xor, Or;
    var r := Xor(x[0], y[0]);
    XorZeroOnlyEqual(x[0], y[0]);
    for i := 1 to 32
      invariant r == 0 <==> x[..i] == y[..i]
    {
      XorZeroOnlyEqual(x[i], y[i]);
      OrIsZero(r, Xor(x[i], y[i]));
      r := Or(r, Xor(x[i], y[i]));
      assert x[..i + 1] == x[..i] + [x[i]] && y[..i + 1] == y[..i] + [y[i]];
    }
    assert x[..32] == x && y[..32] == y;
    equal := r == 0;
  }

  /** Only one point is the negation of what a public key encodes. */
  lemma NegationUnique(p: Point, q: Point, pk: seq<byte>)
    requires CurveFacts() && OnCurve(p) && OnCurve(q) && |pk| == 32 && NegationOf(p, pk) && NegationOf(q, pk)
    ensures p == q
  {
    hide CurveFacts, Field.Cong, Field.Residue, PrimeField.IsPrime, DIsNonSquare, Field.Prime;
    CurveNonSquare();
    SameY(p, q);
    assert 0 <= q.x < Field.P;
    if q.x == 0 {
      Field.CongRefl(0);
      Field.ResidueUnique(-q.x, 0);
    } else {
      OppositeParity(q.x);
    }
  }

  lemma Decodable(s: seq<byte>, message: seq<byte>, pk: seq<byte>, p: Point, B: Point)
    requires |s| == 64 && |pk| == 32 && Balances(s, message, pk, p, B)
    ensures OnSomePoint(EncodedY(pk))
  {
    hide OnCurve, Encoding, Challenge, EncodedY;
    assert OnCurve(Point(p.x, Field.Residue(EncodedY(pk))));
  }

  /** A public key that does not decode balances no signature. */
  lemma Undecodable(s: seq<byte>, message: seq<byte>, pk: seq<byte>, B: Point)
    requires |s| == 64 && |pk| == 32 && !OnSomePoint(EncodedY(pk))
    ensures !Accepts(s, message, pk, B)
  {
    hide Balances, OnSomePoint;
    if Accepts(s, message, pk, B) {
      var p :| Balances(s, message, pk, p, B);
      Decodable(s, message, pk, p, B);
    }
  }

  /** Comparing the recomputed encoding with the first half of the signature decides acceptance. */
  lemma CheckerDecides(s: seq<byte>, message: seq<byte>, pk: seq<byte>, p: Point, B: Point, checker: seq<byte>)
    requires CurveFacts() && |s| == 64 && |pk| == 32 && |checker| == 32 && s[63] < 32
    requires OnCurve(p) && NegationOf(p, pk)
    requires Nat(checker) == Encoding(Add(Times(Challenge(s[..32], pk, message), p), Times(Nat(s[32..]), B)))
    ensures checker == s[..32] <==> Accepts(s, message, pk, B)
  {
    hide CurveFacts, OnCurve, NegationOf, Encoding, Challenge, Add, Times, Nat;
    if checker == s[..32] {
      assert Balances(s, message, pk, p, B);
    }
    if Accepts(s, message, pk, B) {
      var q :| Balances(s, message, pk, q, B);
      NegationUnique(p, q, pk);
      NatInjective(checker, s[..32]);
    }
  }

  lemma ExtendedOnCurve(A: GeP3, p: Point)
    requires A.Is(p)
    ensures OnCurve(p)
  {
  }

  lemma SmallScalar(x: int, v: int)
    requires Recoded(x, v) && v < 0x2000_0000_0000_0000_0000_0000_0000_0000_0000_0000_0000_0000_0000_0000_0000_0000
    ensures x == v
  {
    hide Pow2;
    var n: nat := 31;
    PowerOfBytes(n);
    Pow2Add(8 * n, 7);
    Powers();
  }

  /** Accepts exactly the signatures whose first half is the encoding of h (-A) + S B. */
  method Verify(signature: seq<byte>, message: seq<byte>, publicKey: array<byte>, Bi: seq<Precomp>, ghost B: Point)
    returns (ok: bool)
    requires |signature| == 64 && publicKey.Length == 32
    requires CurveFacts() && OnCurve(B) && OddTable(Bi, B)
    ensures ok <==> Accepts(signature, message, publicKey[..], B)
  {
    hide CurveFacts, OnCurve, OddTable, Nat, Encoding, Times, Hash, GeP3.Is, GeP2.Is, And, Add, Balances, NegationOf,
      OnSomePoint, Recoded;
    ghost var pk := publicKey[..];
    Clamps(signature[63]);
    if And(signature[63], 224) != 0 {
      return false;
    }
    var A := new GeP3();
    var error: int;
    ghost var p: Point;
    error, p := GeFromBytesNegateVartime(A, publicKey);
    if error != 0 {
      Undecodable(signature, message, pk, B);
      return false;
    }
    ExtendedOnCurve(A, p);
    var h, checker := new byte[64], new byte[32];
    HashScalar(h, signature[..32], publicKey[..], message);
    TopByteBounds(h[..32]);
    TopByteBounds(signature[32..]);
    var R := new GeP2();
    ghost var x, y := GeDoubleScalarMultVartime(R, h[..32], A, signature[32..], Bi, p, B);
    SmallScalar(x, Nat(h[..32]));
    SmallScalar(y, Nat(signature[32..]));
    GeToBytes(checker, R, Add(Times(x, p), Times(y, B)));
    assert checker[..32] == checker[..];
    CheckerDecides(signature, message, pk, p, B, checker[..]);
    ok := ConsttimeEqual(checker[..], signature[..32]);
  }

  // Signatures verify ------------------------------------------------------------------------------------

  /** L B is the neutral element. */
  ghost predicate OrderDivides(B: Point) {
    Times(L, B) == Zero
  }

  /** Scalars that agree modulo L give the same multiple of B. */
  lemma TimesModulo(n: int, B: Point)
    requires CurveFacts() && OnCurve(B) && OrderDivides(B)
    ensures Times(n % L, B) == Times(n, B)
  {
    hide CurveFacts, OnCurve, Add, Times;
    var q, r := n / L, n % L;
    assert n == q * L + r;
    TimesTimes(q, L, B);
    TimesZero(q);
    TimesAdd(q * L, r, B);
    TimesOnCurve(r, B);
    AddZero(Times(r, B));
  }

  lemma {:induction false} TimesZero(q: int)
    requires CurveFacts()
    ensures Times(q, Zero) == Zero
    decreases if q < 0 then -q else q
  {
    hide CurveFacts, OnCurve, Add;
    ZeroOnCurve();
    NegZero();
    var z := Zero;
    AddZero(z);
    if q > 0 { TimesZero(q - 1); }
    if q < 0 { TimesZero(q + 1); }
  }

  /** h (-aB) + (h a + r) B = r B */
  lemma NonceCancels(h: int, a: int, r: int, B: Point)
    requires CurveFacts() && OnCurve(B)
    ensures Add(Times(h, Neg(Times(a, B))), Times(h * a + r, B)) == Times(r, B)
  {
    hide CurveFacts, OnCurve, Add, Times, Neg;
    TimesNeg(a, B);
    TimesTimes(h, -a, B);
    assert h * -a == -(h * a);
    TimesAdd(-(h * a), h * a + r, B);
  }

  /** Decoding an encoded point gives its negative. */
  lemma DecodesNegated(A: Point, pk: seq<byte>)
    requires CurveFacts() && OnCurve(A) && |pk| == 32 && Nat(pk) == Encoding(A)
    ensures OnCurve(Neg(A)) && NegationOf(Neg(A), pk)
  {
    hide Nat, Field.Cong, Field.Residue;
    NegOnCurve(A);
    assert 0 <= A.x < Field.P && 0 <= A.y < Field.P;
    hide OnCurve, CurveFacts;
    Field.CongRefl(A.y);
    Field.ResidueUnique(A.y, A.y);
    SplitTop(pk, A.y, A.x % 2);
    if A.x == 0 {
      Field.CongRefl(0);
      Field.ResidueUnique(-A.x, 0);
    } else {
      OppositeParity(A.x);
    }
  }

  lemma SplitTop(s: seq<byte>, y: int, b: int)
    requires |s| == 32 && 0 <= y < Field.P && (b == 0 || b == 1)
    requires Nat(s) == y + 0x8000_0000_0000_0000_0000_0000_0000_0000_0000_0000_0000_0000_0000_0000_0000_0000 * b
    ensures EncodedY(s) == y && s[31] / 0x80 == b
  {
    Field.PrimeNumber(0);
    TopByte(s, s[31]);
    NatBound(s[..31]);
    var n: nat := 31;
    PowerOfBytes(n);
    hide Pow2, Nat;
    DivModUnique(Nat(s), 0x8000_0000_0000_0000_0000_0000_0000_0000_0000_0000_0000_0000_0000_0000_0000_0000, b, y);
  }

  /** Verify accepts what sign makes, for every key pair and message, whatever the second half of the
      private key holds. */
  lemma SignaturesVerify(s: seq<byte>, message: seq<byte>, pk: seq<byte>, sk: seq<byte>, B: Point)
    requires CurveFacts() && OnCurve(B) && OrderDivides(B)
    requires KeyPair(pk, sk, B) && IsSignature(s, message, pk, sk, B)
    ensures Accepts(s, message, pk, B)
  {
    hide CurveFacts, OnCurve, OrderDivides, Add, Times, Neg, Nat, Encoding, NegationOf, Hash;
    var a, n, h := Secret(sk), Nonce(sk, message), Challenge(s[..32], pk, message);
    var A := Times(a, B);
    TimesOnCurve(a, B);
    DecodesNegated(A, pk);
    TimesModulo(h * a + n, B);
    NonceCancels(h, a, n, B);
    TopByteBounds(s[32..]);
    assert Balances(s, message, pk, Neg(A), B);
  }
}
