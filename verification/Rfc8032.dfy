/** Keys and signatures as sections 5.1.5 to 5.1.7 of RFC 8032 define them, beside what keypair.c, sign.c and verify.c
    make and accept. */
module Rfc8032 {
  import opened Ints
  import opened Bytes
  import opened Field
  import opened PrimeField
  import Bits
  import opened Edwards
  import opened EdwardsGroup
  import opened Decompression
  import opened GeBytes
  import opened Sha512Standard
  import opened Sha512
  import opened Ed25519

  // The standard ------------------------------------------------------------------------------------------

  /** Decoding, section 5.1.3: y is at least P or there is no x, and the string does not decode; nor does it
      if x is 0 and the sign bit is set. */
  ghost predicate Decodes(s: seq<byte>, p: Point)
    requires |s| == 32
  {
    EncodedY(s) < P && OnCurve(p) && p.y == EncodedY(s) && p.x % 2 == s[31] / 0x80
  }

  /** The digest of a string as a number modulo L */
  function HashModL(x: seq<byte>): int {
    Nat(Digest(x)) % L
  }

  /** The secret scalar, section 5.1.5, steps 1 to 3: the three lowest bits of the first half of the digest are
      cleared, the highest is cleared, and the second highest is set. */
  function StandardScalar(seed: seq<byte>): int {
    0x4000_0000_0000_0000_0000_0000_0000_0000_0000_0000_0000_0000_0000_0000_0000_0000
    + 8 * (Nat(Digest(seed)[..32])
           % 0x4000_0000_0000_0000_0000_0000_0000_0000_0000_0000_0000_0000_0000_0000_0000_0000 / 8)
  }

  /** The public key, step 4 */
  ghost predicate StandardKey(pk: seq<byte>, seed: seq<byte>, B: Point) {
    |pk| == 32 && Decodes(pk, Times(StandardScalar(seed), B))
  }

  /** Signing, section 5.1.6: R = r B and S = r + k s, where r is the hash of the second half of the digest of the
      seed and the message, and k the hash of R, the public key and the message. */
  ghost predicate StandardSigns(s: seq<byte>, message: seq<byte>, pk: seq<byte>, seed: seq<byte>, B: Point)
    requires |s| == 64
  {
    var r, k := HashModL(Digest(seed)[32..] + message), HashModL(s[..32] + pk + message);
    Decodes(s[..32], Times(r, B)) && Nat(s[32..]) == (r + k * StandardScalar(seed)) % L
  }

  /** The points that the public key and the first half of a signature decode to satisfy S B = R + k A. */
  ghost predicate StandardEquation(s: seq<byte>, message: seq<byte>, pk: seq<byte>, R: Point, A: Point, B: Point)
    requires |s| == 64 && |pk| == 32
  {
    && Decodes(s[..32], R) && Decodes(pk, A)
    && Times(Nat(s[32..]), B) == Add(R, Times(HashModL(s[..32] + pk + message), A))
  }

  /** Verification, section 5.1.7, with the equation without the cofactor */
  ghost predicate StandardAccepts(s: seq<byte>, message: seq<byte>, pk: seq<byte>, B: Point)
    requires |s| == 64 && |pk| == 32
  {
    Nat(s[32..]) < L && exists R, A :: StandardEquation(s, message, pk, R, A, B)
  }

  /** The key has y below P, and no sign bit with one of the two y that go with x = 0. */
  predicate CanonicalKey(pk: seq<byte>)
    requires |pk| == 32
  {
    EncodedY(pk) < P && (pk[31] >= 0x80 ==> EncodedY(pk) != 1 && EncodedY(pk) != P - 1)
  }

  // Points ------------------------------------------------------------------------------------------------

  lemma ZeroX(p: Point)
    requires CurveFacts() && OnCurve(p)
    ensures p.x == 0 <==> p.y == 1 || p.y == P - 1
  {
    hide CurveFacts, Cong, Residue, IsPrime, DIsNonSquare, Prime;
    CurveNonSquare();
    CongRefl(0);
    ResidueUnique(-0, 0);
    var q := Point(0, P - 1);
    if p.x == 0 {
      Equation(p);
      SquareRoots(p.y, 1);
      var k := CongElim(p.y, if Cong(p.y, 1) then 1 else -1);
      SmallQuotient(p.y, if Cong(p.y, 1) then 1 else -1, k);
    } else if p.y == 1 {
      ZeroOnCurve();
      SameY(p, Zero);
    } else if p.y == P - 1 {
      MinusOneOnCurve();
      SameY(p, q);
    }
  }

  lemma SmallQuotient(y: int, r: int, k: int)
    requires 0 <= y < P && (r == 1 || r == -1) && y == r + k * P
    ensures y == 1 || y == P - 1
  {
    hide *;
    var p := P;
    if k > 1 {
      Bits.MulNonneg(k - 2, p);
    } else if k < 0 {
      Bits.MulNonneg(-k - 1, p);
    }
  }

  lemma MinusOneOnCurve()
    ensures OnCurve(Point(0, P - 1))
  {
    hide Cong;
    assert Square(P - 1) - Square(0) == 1 + D * Square(0 * (P - 1)) + (P - 2) * P;
    CongIntro(Square(P - 1) - Square(0), 1 + D * Square(0 * (P - 1)), P - 2);
  }

  lemma NegNeg(p: Point)
    requires OnCurve(p)
    ensures Neg(Neg(p)) == p
  {
    hide Cong, Residue;
    if p.x == 0 {
      CongRefl(0);
      ResidueUnique(-0, 0);
    } else {
      OppositeParity(p.x);
      OppositeParity(P - p.x);
    }
  }

  lemma TimesNegated(k: int, p: Point)
    requires CurveFacts() && OnCurve(p)
    ensures Times(k, Neg(p)) == Neg(Times(k, p))
  {
    hide CurveFacts, OnCurve, Times, Neg;
    TimesOne(p);
    TimesTimes(k, -1, p);
    assert k * -1 == -k;
    TimesNeg(k, p);
  }

  /** s = r + t exactly if r = -t + s. */
  lemma MoveOver(s: Point, r: Point, t: Point)
    requires CurveFacts() && OnCurve(s) && OnCurve(r) && OnCurve(t)
    ensures s == Add(r, t) <==> r == Add(Neg(t), s)
  {
    hide CurveFacts, OnCurve, Add, Neg;
    var n := Neg(t);
    NegOnCurve(t);
    AddNeg(t);
    AddZero(r);
    AddZero(s);
    Commutative(r, t);
    Associative(n, t, r);
    Commutative(n, s);
    Associative(s, n, t);
  }

  /** A point decodes from a string exactly if the string is the encoding of the point. */
  lemma DecodesEncoding(s: seq<byte>, p: Point)
    requires |s| == 32 && OnCurve(p)
    ensures Decodes(s, p) <==> Nat(s) == Encoding(p)
  {
    hide Nat, Cong;
    assert 0 <= p.x < P && 0 <= p.y < P;
    hide OnCurve;
    if Nat(s) == Encoding(p) {
      SplitTop(s, p.y, p.x % 2);
    }
    JoinTop(s);
  }

  lemma JoinTop(s: seq<byte>)
    requires |s| == 32
    ensures Nat(s) == EncodedY(s)
      + 0x8000_0000_0000_0000_0000_0000_0000_0000_0000_0000_0000_0000_0000_0000_0000_0000 * (s[31] as int / 0x80)
  {
    Field.PrimeNumber(0);
    TopByte(s, s[31]);
    NatBound(s[..31]);
    var n: nat := 31;
    PowerOfBytes(n);
    hide Pow2, Nat;
  }

  // Where the two agree -------------------------------------------------------------------------------------

  /** The point that a canonical key decodes to is the negative of the one that verify finds. */
  lemma KeyPoints(pk: seq<byte>, p: Point)
    requires CurveFacts() && |pk| == 32 && OnCurve(p)
    ensures Decodes(pk, Neg(p)) <==> NegationOf(p, pk) && CanonicalKey(pk)
  {
    hide Nat, Cong, Residue, EncodedY;
    NegOnCurve(p);
    ZeroX(p);
    assert 0 <= p.x < P && 0 <= p.y < P;
    var y := EncodedY(pk);
    YRange(pk);
    if y < P {
      CongRefl(y);
      ResidueUnique(y, y);
    }
    if p.x == 0 {
      CongRefl(0);
      ResidueUnique(-0, 0);
    } else {
      OppositeParity(p.x);
    }
  }

  lemma YRange(s: seq<byte>)
    requires |s| == 32
    ensures 0 <= EncodedY(s)
  {
  }

  /** The two equations say the same of a point and its negative. */
  lemma SameEquation(s: seq<byte>, message: seq<byte>, pk: seq<byte>, R: Point, p: Point, B: Point)
    requires CurveFacts() && |s| == 64 && |pk| == 32 && OnCurve(R) && OnCurve(p) && OnCurve(B)
    ensures var h, t := Challenge(s[..32], pk, message), Times(Nat(s[32..]), B);
      t == Add(R, Times(h, Neg(p))) <==> R == Add(Times(h, p), t)
  {
    hide CurveFacts, OnCurve, Challenge, Nat, Add, Times, Neg;
    var h, t := Challenge(s[..32], pk, message), Times(Nat(s[32..]), B);
    TimesOnCurve(Nat(s[32..]), B);
    TimesOnCurve(h, p);
    TimesNegated(h, p);
    NegOnCurve(Times(h, p));
    NegNeg(Times(h, p));
    MoveOver(t, R, Neg(Times(h, p)));
  }

  /** The hashes of the source are those of the standard for messages of fewer than 2^64 bits, with what is hashed
      in front of them. */
  predicate Hashable(message: seq<byte>) {
    8 * (64 + |message|) < 0x1_0000_0000_0000_0000
  }

  lemma ChallengeStandard(R: seq<byte>, pk: seq<byte>, message: seq<byte>)
    requires |R| == |pk| == 32 && Hashable(message)
    ensures Challenge(R, pk, message) == HashModL(R + pk + message)
  {
    hide Hash, Digest, Nat;
    HashIsStandard(R + pk + message);
  }

  /** Verify's acceptance is the standard's exactly if S is below L and the key is canonical. */
  lemma AcceptsStandard(s: seq<byte>, message: seq<byte>, pk: seq<byte>, B: Point)
    requires CurveFacts() && OnCurve(B) && |s| == 64 && |pk| == 32 && Hashable(message)
    ensures StandardAccepts(s, message, pk, B) <==>
      Accepts(s, message, pk, B) && Nat(s[32..]) < L && CanonicalKey(pk)
  {
    hide CurveFacts, OnCurve, Challenge, HashModL, Nat, Add, Times, Neg, Encoding, NegationOf, CanonicalKey, Decodes;
    var h, t := Challenge(s[..32], pk, message), Times(Nat(s[32..]), B);
    ChallengeStandard(s[..32], pk, message);
    TimesOnCurve(Nat(s[32..]), B);
    TopByteBounds(s[32..]);
    if StandardAccepts(s, message, pk, B) {
      var R, A :| StandardEquation(s, message, pk, R, A, B);
      var p := Neg(A);
      DecodedOnCurve(s[..32], R);
      DecodedOnCurve(pk, A);
      NegOnCurve(A);
      NegNeg(A);
      KeyPoints(pk, p);
      DecodesEncoding(s[..32], R);
      SameEquation(s, message, pk, R, p, B);
      assert Balances(s, message, pk, p, B);
    }
    if Accepts(s, message, pk, B) && Nat(s[32..]) < L && CanonicalKey(pk) {
      var p :| Balances(s, message, pk, p, B);
      var R := Add(Times(h, p), t);
      TimesOnCurve(h, p);
      Closed(Times(h, p), t);
      KeyPoints(pk, p);
      DecodesEncoding(s[..32], R);
      SameEquation(s, message, pk, R, p, B);
      assert StandardEquation(s, message, pk, R, Neg(p), B);
    }
  }

  lemma DecodedOnCurve(s: seq<byte>, p: Point)
    requires |s| == 32 && Decodes(s, p)
    ensures OnCurve(p)
  {
  }

  // Keys and signatures -------------------------------------------------------------------------------------

  /** The secret scalar that remains of a hash h: bits 3 to 253 of its first half, and bit 254. */
  lemma PrunedScalar(h: seq<byte>)
    requires |h| == 64
    ensures Secret(Pruned(h)) == 0x4000_0000_0000_0000_0000_0000_0000_0000_0000_0000_0000_0000_0000_0000_0000_0000
      + 8 * (Nat(h[..32]) % 0x4000_0000_0000_0000_0000_0000_0000_0000_0000_0000_0000_0000_0000_0000_0000_0000 / 8)
    ensures Pruned(h)[32..] == h[32..]
  {
    var s, t := h[..32], Pruned(h)[..32];
    assert t == s[0 := s[0] - s[0] % 8][31 := s[31] % 64 + 64];
    assert t[1..31] == s[1..31];
    Ends(s, s[1..31]);
    Ends(t, s[1..31]);
    NatBound(s[1..31]);
    ThirtyBytes(30);
    hide Nat, Pow2;
    PrunedNumber(Nat(s), s[0], Nat(s[1..31]), s[31]);
  }

  lemma Ends(s: seq<byte>, m: seq<byte>)
    requires |s| == 32 && m == s[1..31]
    ensures Nat(s) == s[0] as int + 0x100 * Nat(m)
      + 0x100_0000_0000_0000_0000_0000_0000_0000_0000_0000_0000_0000_0000_0000_0000_0000 * s[31] as int
  {
    TopByte(s, s[31]);
    var a := s[..31];
    assert a[0] == s[0] && a[1..] == m && Nat(a) == a[0] + 0x100 * Nat(a[1..]);
    hide Nat;
  }

  /** n is a parameter for the same reason as in PowerOfBytes. */
  lemma ThirtyBytes(n: nat)
    requires n == 30
    ensures Pow2(8 * n) == 0x1_0000_0000_0000_0000_0000_0000_0000_0000_0000_0000_0000_0000_0000_0000_0000
  {
    hide Pow2;
    PowerOfBytes(n + 1);
    Powers();
    Pow2Add(8, 8 * n);
  }

  lemma PrunedNumber(x: int, low: byte, middle: int, high: byte)
    requires 0 <= middle < 0x1_0000_0000_0000_0000_0000_0000_0000_0000_0000_0000_0000_0000_0000_0000_0000
    requires x == low as int + 0x100 * middle
      + 0x100_0000_0000_0000_0000_0000_0000_0000_0000_0000_0000_0000_0000_0000_0000_0000 * high as int
    ensures low as int - low as int % 8 + 0x100 * middle
      + 0x100_0000_0000_0000_0000_0000_0000_0000_0000_0000_0000_0000_0000_0000_0000_0000 * (high as int % 64 + 64)
      == 0x4000_0000_0000_0000_0000_0000_0000_0000_0000_0000_0000_0000_0000_0000_0000_0000
      + 8 * (x % 0x4000_0000_0000_0000_0000_0000_0000_0000_0000_0000_0000_0000_0000_0000_0000_0000 / 8)
  {
    var y := low as int + 0x100 * middle
      + 0x100_0000_0000_0000_0000_0000_0000_0000_0000_0000_0000_0000_0000_0000_0000_0000 * (high as int % 64);
    Bits.DivModUnique(x, 0x4000_0000_0000_0000_0000_0000_0000_0000_0000_0000_0000_0000_0000_0000_0000_0000,
      high as int / 64, y);
  }

  /** Key pairs made from a seed are the standard's. */
  lemma KeysStandard(pk: seq<byte>, sk: seq<byte>, seed: seq<byte>, B: Point)
    requires CurveFacts() && OnCurve(B) && |seed| == 32 && sk == Pruned(Hash(seed))
    ensures KeyPair(pk, sk, B) <==> StandardKey(pk, seed, B)
  {
    hide CurveFacts, OnCurve, Nat, Times, Encoding, Decodes, Hash, Digest;
    HashIsStandard(seed);
    PrunedScalar(Hash(seed));
    TimesOnCurve(Secret(sk), B);
    if |pk| == 32 { DecodesEncoding(pk, Times(Secret(sk), B)); }
  }

  /** Sign makes the signature of section 5.1.6 and no other. */
  lemma SignsStandard(s: seq<byte>, message: seq<byte>, pk: seq<byte>, sk: seq<byte>, seed: seq<byte>, B: Point)
    requires CurveFacts() && OnCurve(B) && |seed| == |pk| == 32 && |s| == 64 && sk == Pruned(Hash(seed))
    requires Hashable(message)
    ensures IsSignature(s, message, pk, sk, B) <==> StandardSigns(s, message, pk, seed, B)
  {
    hide CurveFacts, OnCurve, Nat, Times, Encoding, Decodes, Hash, Digest, Pruned, Secret, HashModL, Challenge;
    HashIsStandard(seed);
    PrunedScalar(Hash(seed));
    NonceStandard(sk, Digest(seed), message);
    ChallengeStandard(s[..32], pk, message);
    var r := Nonce(sk, message);
    TimesOnCurve(r, B);
    DecodesEncoding(s[..32], Times(r, B));
    Swapped(Challenge(s[..32], pk, message), Secret(sk), r);
  }

  lemma NonceStandard(sk: seq<byte>, d: seq<byte>, message: seq<byte>)
    requires |sk| == |d| == 64 && sk[32..] == d[32..] && Hashable(message)
    ensures Nonce(sk, message) == HashModL(d[32..] + message)
  {
    hide Hash, Digest, Nat;
    HashIsStandard(sk[32..] + message);
  }

  lemma Swapped(h: int, a: int, r: int)
    ensures h * a + r == r + h * a
  {
  }

  // Where they differ ---------------------------------------------------------------------------------------

  /** With an accepted signature every other one with the same R, an S that agrees modulo L and clear top bits
      is accepted, S + L for one: a signature can be changed without the key. */
  lemma Malleable(s: seq<byte>, s': seq<byte>, message: seq<byte>, pk: seq<byte>, B: Point)
    requires CurveFacts() && OnCurve(B) && OrderDivides(B) && |s| == |s'| == 64 && |pk| == 32
    requires Accepts(s, message, pk, B) && s'[..32] == s[..32] && s'[63] < 32
    requires Nat(s'[32..]) % L == Nat(s[32..]) % L
    ensures Accepts(s', message, pk, B)
  {
    hide CurveFacts, OnCurve, OrderDivides, Challenge, Nat, Add, Times, Encoding, NegationOf;
    var p :| Balances(s, message, pk, p, B);
    TimesModulo(Nat(s[32..]), B);
    TimesModulo(Nat(s'[32..]), B);
    assert Balances(s', message, pk, p, B);
  }

  lemma KeyDecodes(pk: seq<byte>, A: Point)
    requires CurveFacts() && |pk| == 32 && Decodes(pk, A)
    ensures CanonicalKey(pk)
  {
    hide CurveFacts, OnCurve, EncodedY;
    ZeroX(A);
  }

  /** The bound on S that verify enforces in place of L is 2^253. */
  lemma AcceptedBound(s: seq<byte>, message: seq<byte>, pk: seq<byte>, B: Point)
    requires |s| == 64 && |pk| == 32
    ensures Accepts(s, message, pk, B) <==>
      && Nat(s[32..]) < 0x2000_0000_0000_0000_0000_0000_0000_0000_0000_0000_0000_0000_0000_0000_0000_0000
      && exists p :: Balances(s, message, pk, p, B)
  {
    hide Nat, Balances;
    var t := s[32..];
    assert t[31] == s[63];
    TopByteBounds(t);
    TopByte(t, t[31]);
    NatBound(t[..31]);
  }

  /** R is the encoding of the neutral element. With S = 0 every message is accepted under the key y = P + 1
      and under y = 1 with the sign bit, and with S = L under the canonical key y = 1. The standard accepts
      none of these. */
  lemma AcceptedBeyondStandard(s: seq<byte>, message: seq<byte>, pk: seq<byte>, B: Point)
    requires CurveFacts() && OnCurve(B) && OrderDivides(B) && |s| == 64 && |pk| == 32 && Nat(s[..32]) == 1
    requires
      || (Nat(s[32..]) == 0 && EncodedY(pk) == P + 1)
      || (Nat(s[32..]) == 0 && EncodedY(pk) == 1 && pk[31] >= 0x80)
      || (Nat(s[32..]) == L && EncodedY(pk) == 1)
    ensures Accepts(s, message, pk, B) && !StandardAccepts(s, message, pk, B)
  {
    hide CurveFacts, OnCurve, Challenge, HashModL, Add, Cong, Residue, EncodedY, Nat, Decodes;
    if StandardAccepts(s, message, pk, B) {
      var R, A :| StandardEquation(s, message, pk, R, A, B);
      KeyDecodes(pk, A);
    }
    var h, z := Challenge(s[..32], pk, message), Zero;
    ZeroOnCurve();
    TimesZero(h);
    AddZero(z);
    TopByteBounds(s[32..]);
    CongIntro(P + 1, 1, 1);
    ResidueUnique(P + 1, 1);
    CongRefl(1);
    ResidueUnique(1, 1);
    assert Encoding(z) == 1 && Times(0, B) == z;
    assert NegationOf(z, pk);
    assert Balances(s, message, pk, z, B);
  }
}
