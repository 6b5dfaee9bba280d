/** native/common/ed25519_orlp/src/ge.c: points to and from 32 bytes. */
module GeBytes {
  import opened Ints
  import opened Bits
  import opened Bytes
  import opened Field
  import opened PrimeField
  import opened Edwards
  import opened EdwardsGroup
  import opened Coordinates
  import opened Decompression
  import opened Limbs
  import opened Fe
  import opened FeBytes
  import opened FePow
  import opened FeTests
  import opened FeSteps
  import opened Ge

  /** The end of ge_tobytes and ge_p3_tobytes: y = Y/Z, with the sign of x = X/Z as top bit. */
  method ToBytes(s: array<byte>, X: array<int32>, Y: array<int32>, Z: array<int32>, ghost p: Point)
    requires s.Length >= 32 && CurveFacts()
    requires Element(X, 1) && Element(Y, 1) && Element(Z, 1) && Projective(Val(X), Val(Y), Val(Z), p)
    modifies s
    ensures Nat(s[..32]) == Encoding(p) && s[32..] == old(s[32..])
  {
    var recip, x, y := new int32[10], new int32[10], new int32[10];
    Normalize(recip, x, y, X, Y, Z, p);
    StoreSigned(s, x, y, p);
  }

  method StoreSigned(s: array<byte>, x: array<int32>, y: array<int32>, ghost p: Point)
    requires s.Length >= 32 && x.Length == y.Length == 10
    requires Within(x[..], BYTES_IN_EVEN, BYTES_IN_ODD) && Within(y[..], BYTES_IN_EVEN, BYTES_IN_ODD)
    requires Residue(V(x[..])) == p.x && Residue(V(y[..])) == p.y
    modifies s
    ensures Nat(s[..32]) == Encoding(p) && s[32..] == old(s[32..])
  {
    hide *;
    FeToBytes(s, y);
    var sign := FeIsNegative(x);
    ghost var low := s[..32];
    TopSmall(low);
    SetTopBit(s, sign);
    TopBit(low, s[..32], p, sign);
  }

  method Normalize(recip: array<int32>, x: array<int32>, y: array<int32>, X: array<int32>, Y: array<int32>,
      Z: array<int32>, ghost p: Point)
    requires CurveFacts() && recip.Length == x.Length == y.Length == 10 && recip != x && recip != y && x != y
    requires recip != X && recip != Y && recip != Z && x != X && x != Y && x != Z && y != X && y != Y && y != Z
    requires Element(X, 1) && Element(Y, 1) && Element(Z, 1) && Projective(Val(X), Val(Y), Val(Z), p)
    modifies recip, x, y
    ensures Within(x[..], BYTES_IN_EVEN, BYTES_IN_ODD) && Within(y[..], BYTES_IN_EVEN, BYTES_IN_ODD)
    ensures Residue(V(x[..])) == p.x && Residue(V(y[..])) == p.y
  {
    CurveNonSquare();
    hide CurveFacts, Projective, Element, Stands, Within, V, Cong, Residue, Prod;
    ghost var a, b, c := Val(X), Val(Y), Val(Z);
    StandsForItself(X, 1); StandsForItself(Y, 1); StandsForItself(Z, 1);
    Inverted(recip, Z);
    ghost var i := Pow(c, P - 2);
    Mul(x, X, recip, a, i, 1, 1);
    Mul(y, Y, recip, b, i, 1, 1);
    StandsFor(x, Prod(a, i), 1);
    StandsFor(y, Prod(b, i), 1);
    Serializable(x);
    Serializable(y);
    NormalizedProducts(a, b, c, p, Val(x), Val(y));
  }

  lemma NormalizedProducts(X: int, Y: int, Z: int, p: Point, x: int, y: int)
    requires IsPrime(P) && Projective(X, Y, Z, p)
    requires Cong(x, Prod(X, Pow(Z, P - 2))) && Cong(y, Prod(Y, Pow(Z, P - 2)))
    ensures Residue(x) == p.x && Residue(y) == p.y
  {
    hide IsPrime, Projective, Cong, Residue, Pow;
    CongRefl(Pow(Z, P - 2));
    Normalized(X, Y, Z, p, Pow(Z, P - 2), x, y);
  }

  lemma Serializable(a: array<int32>)
    requires Element(a, 1)
    ensures a.Length == 10 && Within(a[..], BYTES_IN_EVEN, BYTES_IN_ODD)
  {
    hide Within;
    WithinMore(a[..], MUL_OUT_EVEN, MUL_OUT_ODD, BYTES_IN_EVEN, BYTES_IN_ODD);
  }

  /** fe_invert on an element */
  method Inverted(h: array<int32>, f: array<int32>)
    requires h.Length == 10 && Element(f, 1)
    modifies h
    ensures Stands(h, Pow(old(Val(f)), P - 2), 1)
  {
    hide Cong, V, Within, Pow;
    WithinMore(f[..], MUL_OUT_EVEN, MUL_OUT_ODD, MUL_IN_EVEN, MUL_IN_ODD);
    FeInvert(h, f);
  }

  /** Puts the sign into the top bit of the last byte. */
  method SetTopBit(s: array<byte>, sign: int)
    requires s.Length >= 32 && (sign == 0 || sign == 1) && s[31] < 0x80
    modifies s
    ensures s[..32] == old(s[..31]) + [old(s[31]) as int + 0x80 * sign] && s[32..] == old(s[32..])
  {
    Powers();
    XorDisjoint(7, s[31], sign);
    hide Pow2, Xor;
    s[31] := Xor(s[31], 0x80 * sign);
  }

  lemma TopBit(low: seq<byte>, s: seq<int>, p: Point, sign: int)
    requires |low| == 32 && low[31] < 0x80 && Nat(low) == p.y && sign == p.x % 2
    requires s == low[..31] + [low[31] as int + 0x80 * sign]
    ensures Nat(s) == Encoding(p)
  {
    TopByte(low, low[31]);
    TopByte(s, low[31] as int + 0x80 * sign);
    assert s[..31] == low[..31];
  }

  lemma TopSmall(s: seq<byte>)
    requires |s| == 32 && Nat(s) < P
    ensures s[31] < 0x80
  {
    PrimeNumber(0);
    TopByte(s, s[31]);
    NatBound(s[..31]);
  }

  lemma TopByte(s: seq<int>, top: int)
    requires |s| == 32 && s[31] == top
    ensures Nat(s) == Nat(s[..31])
      + 0x100_0000_0000_0000_0000_0000_0000_0000_0000_0000_0000_0000_0000_0000_0000_0000 * top
  {
    assert s == s[..31] + [top];
    NatAppend(s[..31], [top]);
    var n: nat := 31;
    PowerOfBytes(n);
    hide Pow2;
  }

  /** n is a parameter so that the verifier does not count its way down from 248. */
  lemma PowerOfBytes(n: nat)
    requires n == 31
    ensures Pow2(8 * n) == 0x100_0000_0000_0000_0000_0000_0000_0000_0000_0000_0000_0000_0000_0000_0000_0000
  {
    hide Pow2;
    Powers();
    Pow2Add(8, 16);
    Pow2Add(8 * n - 224, 24);
    Pow2Add(24, 24);
    Pow2Add(48, 48);
    Pow2Add(96, 96);
    Pow2Add(192, 8 * n - 192);
    Pow2Add(24, 32);
    Pow2Add(16, 16);
  }

  method GeToBytes(s: array<byte>, h: GeP2, ghost hp: Point)
    requires CurveFacts() && s.Length >= 32 && h.Is(hp)
    modifies s
    ensures Nat(s[..32]) == Encoding(hp) && s[32..] == old(s[32..])
  {
    hide CurveFacts, Projective, Element;
    ToBytes(s, h.X, h.Y, h.Z, hp);
  }

  method GeP3ToBytes(s: array<byte>, h: GeP3, ghost hp: Point)
    requires CurveFacts() && s.Length >= 32 && h.Is(hp)
    modifies s
    ensures Nat(s[..32]) == Encoding(hp) && s[32..] == old(s[32..])
  {
    hide CurveFacts, Projective, Element;
    ToBytes(s, h.X, h.Y, h.Z, hp);
  }

  // Decoding ---------------------------------------------------------------------------------------

  const SQRT_M1_LIMBS: seq<int32> :=
    [-32595792, -7943725, 9377950, 3500415, 12389472, -272473, -25146209, -2005654, 326686, 11406482]

  lemma ConstantSqrtM1()
    ensures Within(SQRT_M1_LIMBS, MUL_OUT_EVEN, MUL_OUT_ODD) && Cong(V(SQRT_M1_LIMBS), SQRT_M1)
  {
    hide V;
    VExplicit(SQRT_M1_LIMBS);
    CongIntro(V(SQRT_M1_LIMBS), SQRT_M1, 0);
  }

  /** The number in the low 255 bits of s: the y coordinate, perhaps not below P. */
  function EncodedY(s: seq<int>): int {
    Nat(s) % 0x8000_0000_0000_0000_0000_0000_0000_0000_0000_0000_0000_0000_0000_0000_0000_0000
  }

  /** y is on the curve for some x. */
  ghost predicate OnSomePoint(y: int) {
    exists x :: OnCurve(Point(x, Residue(y)))
  }

  ghost predicate HasRoot(y: int) {
    exists z :: Root(z, y)
  }

  /** p is, of the two points with the y coordinate in s, the one whose x does not have the parity in the top bit. */
  ghost predicate NegationOf(p: Point, s: seq<byte>)
    requires |s| == 32
  {
    p.y == Residue(EncodedY(s)) && (p.x == 0 || p.x % 2 != s[31] / 0x80)
  }

  /** u = y^2 - 1 and v = d y^2 + 1 */
  method SolveForSquare(u: array<int32>, v: array<int32>, Y: array<int32>, Z: array<int32>, ghost y: int)
    requires u.Length == v.Length == 10 && u != v && u != Y && u != Z && v != Y && v != Z
    requires Stands(Y, y, 1) && Z.Length == 10 && Within(Z[..], 1, 1) && V(Z[..]) == 1
    modifies u, v
    ensures Within(u[..], MUL_OUT_EVEN + 1, MUL_OUT_ODD + 1) && Cong(V(u[..]), y * y - 1)
    ensures Stands(v, y * y * D + 1, 2)
  {
    hide Cong, V, Within;
    Sq(u, Y, y, 1);
    var c := Constant(D_LIMBS);
    ConstantD();
    Mul(v, u, c, y * y, D, 1, 1);
    CongRefl(1);
    CongAdd(V(u[..]), y * y, 1, 1);
    FeSub(u, u, Z, MUL_OUT_EVEN, MUL_OUT_ODD, 1, 1);
    WithinMore(Z[..], 1, 1, MUL_OUT_EVEN, MUL_OUT_ODD);
    Plus(v, v, Z, y * y * D, 1, 1, 1);
  }

  /** h = (u v^3) (u v^7)^((P - 5) / 8), and vxx = v h^2 */
  method CandidateRoot(h: array<int32>, vxx: array<int32>, u: array<int32>, v: array<int32>, ghost uu: int,
      ghost vv: int)
    returns (ghost b: int)
    requires h.Length == vxx.Length == 10 && h != vxx && h != u && h != v && vxx != u && vxx != v
    requires Stands(u, uu, 2) && Stands(v, vv, 2)
    modifies h, vxx
    ensures Stands(h, b, 1) && Stands(vxx, (b * b) * vv, 1)
    ensures (b * b) * vv == uu * Pow(uu * Seventh(vv), 2 * RootExponent() + 1)
  {
    hide Stands, Pow, Prod;
    var v3 := new int32[10];
    ghost var vs := Prod(vv, vv);
    ghost var c := Prod(vs, vv);
    ghost var m := Prod(Prod(c, c), vv);
    ghost var w := Prod(m, uu);
    Sq(v3, v, vv, 2);
    Mul(v3, v3, v, vs, vv, 1, 2);
    Sq(h, v3, c, 1);
    Mul(h, h, v, Prod(c, c), vv, 1, 2);
    Mul(h, h, u, m, uu, 1, 2);
    Raised(h, w);
    ghost var r := Pow(w, RootExponent());
    Mul(h, h, v3, r, c, 1, 1);
    Mul(h, h, u, Prod(r, c), uu, 1, 2);
    b := Prod(Prod(r, c), uu);
    Sq(vxx, h, b, 1);
    Mul(vxx, vxx, v, Prod(b, b), vv, 1, 2);
    CandidateProducts(uu, vv, vs, c, m, w, r, b, RootExponent());
  }

  lemma CandidateProducts(u: int, v: int, vs: int, c: int, m: int, w: int, r: int, b: int, n: nat)
    requires vs == Prod(v, v) && c == Prod(vs, v) && m == Prod(Prod(c, c), v) && w == Prod(m, u)
    requires r == Pow(w, n) && b == Prod(Prod(r, c), u)
    ensures Prod(Prod(b, b), v) == (b * b) * v == u * Pow(u * Seventh(v), 2 * n + 1)
  {
    hide Pow;
    assert m == Seventh(v) && w == u * Seventh(v);
    Candidate(u, v, w, r, b, n);
  }

  /** fe_pow22523 in place */
  method Raised(h: array<int32>, ghost v: int)
    requires Stands(h, v, 1)
    modifies h
    ensures Stands(h, Pow(v, RootExponent()), 1)
  {
    hide Cong, V, Within, Pow;
    WithinMore(h[..], MUL_OUT_EVEN, MUL_OUT_ODD, MUL_IN_EVEN, MUL_IN_ODD);
    ghost var n := RootExponent();
    ghost var a := V(h[..]);
    PowCong(a, v, n);
    FePow22523(h, h);
    CongTrans(V(h[..]), Pow(a, n), Pow(v, n));
  }

  /** fe_isnonzero on the sum or difference of vxx and u */
  method Differ(check: array<int32>, ghost v: int) returns (nonzero: bool)
    requires check.Length == 10 && Within(check[..], 2 * MUL_OUT_EVEN + 1, 2 * MUL_OUT_ODD + 1) && Cong(V(check[..]), v)
    ensures nonzero <==> !Cong(v, 0)
  {
    hide Cong, V, Within, Residue;
    WithinMore(check[..], 2 * MUL_OUT_EVEN + 1, 2 * MUL_OUT_ODD + 1, BYTES_IN_EVEN, BYTES_IN_ODD);
    nonzero := FeIsNonzero(check);
    CongResidue(V(check[..]), v);
    ResidueZero(v);
  }

  lemma ResidueZero(v: int)
    ensures Residue(v) == 0 <==> Cong(v, 0)
  {
    hide Cong, Residue;
    ResidueCong(v);
    if Residue(v) == 0 { CongSym(0, v); }
    if Cong(v, 0) { ResidueUnique(v, 0); }
  }

  lemma CongDifference(a: int, b: int)
    ensures Cong(a - b, 0) <==> Cong(a, b)
    ensures Cong(a + b, 0) <==> Cong(a, -b)
  {
    hide Cong;
    if Cong(a - b, 0) { var k := CongElim(a - b, 0); CongIntro(a, b, k); }
    if Cong(a, b) { var k := CongElim(a, b); CongIntro(a - b, 0, k); }
    if Cong(a + b, 0) { var k := CongElim(a + b, 0); CongIntro(a, -b, k); }
    if Cong(a, -b) { var k := CongElim(a, -b); CongIntro(a + b, 0, k); }
  }

  /** b is the candidate root for y, u = y^2 - 1 and e = (d y^2 + 1) b^2. */
  ghost predicate IsCandidate(y: int, b: int, u: int, e: int) {
    && u == y * y - 1 && e == (b * b) * (y * y * D + 1)
    && e == u * Pow(u * Seventh(y * y * D + 1), 2 * RootExponent() + 1)
  }

  /** Settles which of the two square-root branches applies, if any. */
  method ChooseRoot(X: array<int32>, vxx: array<int32>, u: array<int32>, ghost y: int, ghost b: int, ghost uu: int,
      ghost e: int)
    returns (found: bool, ghost x: int)
    requires X.Length == 10 && X != vxx && X != u && CurveFacts() && IsCandidate(y, b, uu, e)
    requires Stands(X, b, 1) && Stands(vxx, e, 1)
    requires u.Length == 10 && Within(u[..], MUL_OUT_EVEN + 1, MUL_OUT_ODD + 1) && Cong(V(u[..]), uu)
    modifies X
    ensures found <==> HasRoot(y)
    ensures found ==> Stands(X, x, 1) && Root(x, y)
  {
    hide CurveFacts, IsCandidate, Cong, V, Within, Root, HasRoot, Prod;
    CandidateDecides(y, b, uu, e);
    var check := new int32[10];
    CongAdd(V(vxx[..]), e, V(u[..]), uu);
    FeSub(check, vxx, u, MUL_OUT_EVEN, MUL_OUT_ODD, MUL_OUT_EVEN + 1, MUL_OUT_ODD + 1);
    CongDifference(e, uu);
    found, x := true, b;
    var nonzero := Differ(check, e - uu);
    if nonzero {
      FeAdd(check, vxx, u, MUL_OUT_EVEN, MUL_OUT_ODD, MUL_OUT_EVEN + 1, MUL_OUT_ODD + 1);
      nonzero := Differ(check, e + uu);
      if nonzero {
        found := false;
        return;
      }
      var c := Constant(SQRT_M1_LIMBS);
      ConstantSqrtM1();
      assert Stands(c, SQRT_M1, 1);
      Mul(X, X, c, b, SQRT_M1, 1, 1);
      x := Prod(b, SQRT_M1);
    }
  }

  lemma CandidateDecides(y: int, b: int, u: int, e: int)
    requires CurveFacts() && IsCandidate(y, b, u, e)
    ensures HasRoot(y) <==> Cong(e, u) || Cong(e, -u)
    ensures Cong(e, u) ==> Root(b, y)
    ensures Cong(e, -u) ==> Root(Prod(b, SQRT_M1), y)
  {
    CurveNonSquare();
    hide CurveFacts, Cong, IsPrime, DIsNonSquare, Pow, Seventh, RootExponent, Root;
    if HasRoot(y) {
      var z :| Root(z, y);
      RootEquation(z, y);
      DenominatorNotZero(y);
      CandidateWorks(z, u, y * y * D + 1, u * Seventh(y * y * D + 1), RootExponent());
    }
    if Cong(e, u) || Cong(e, -u) {
      CandidateAccepted(y, b);
    }
  }

  /** Negates X when its parity is the one the encoding asks for. */
  method OpposeSign(X: array<int32>, sign: int, ghost y: int, ghost x: int) returns (ghost z: int)
    requires Stands(X, x, 1) && Root(x, y) && (sign == 0 || sign == 1)
    modifies X
    ensures Stands(X, z, 1) && Root(z, y)
    ensures Residue(z) == 0 || Residue(z) % 2 != sign
  {
    hide Cong, V, Within, Root, Residue;
    z := x;
    Serializable(X);
    CongResidue(V(X[..]), x);
    var negative := FeIsNegative(X);
    if negative == sign {
      Opposite(X, X, x, 1);
      z := -x;
      RootNegated(x, y);
      ParityNegated(x);
    }
  }

  lemma RootNegated(x: int, y: int)
    requires Root(x, y)
    ensures Root(-x, y)
  {
    hide Cong, Root;
    RootEquation(x, y);
    RootEquation(-x, y);
    assert -x * -x == x * x;
  }

  lemma ParityNegated(x: int)
    ensures Residue(-x) == 0 || Residue(-x) % 2 != Residue(x) % 2
  {
    hide Cong, Residue;
    ResidueCong(x);
    CongNegate(Residue(x), x);
    CongResidue(-Residue(x), -x);
    if Residue(x) == 0 {
      CongRefl(0);
      ResidueUnique(0, 0);
    } else {
      OppositeParity(Residue(x));
    }
  }

  /** Accepts the bytes of a y coordinate of the curve and of nothing else, and leaves the point with
      the sign opposite to the encoded one in h. */
  method GeFromBytesNegateVartime(h: GeP3, s: array<byte>) returns (r: int, ghost p: Point)
    requires CurveFacts() && h.Valid() && s.Length == 32
    modifies h.X, h.Y, h.Z, h.T
    ensures r == 0 || r == -1
    ensures r == 0 <==> OnSomePoint(EncodedY(s[..]))
    ensures r == 0 ==> h.Is(p) && NegationOf(p, s[..])
  {
    hide CurveFacts, Cong, V, Within, Nat, Root, HasRoot, Pow, Seventh, OnSomePoint, Extended, Residue, Prod, Prime,
      RootExponent, OnCurve;
    ghost var y := EncodedY(s[..]);
    var u, v, vxx := new int32[10], new int32[10], new int32[10];
    FeFromBytes(h.Y, s);
    Fe1(h.Z);
    SolveForSquare(u, v, h.Y, h.Z, y);
    WithinMore(u[..], MUL_OUT_EVEN + 1, MUL_OUT_ODD + 1, 2 * MUL_OUT_EVEN, 2 * MUL_OUT_ODD);
    ghost var b := CandidateRoot(h.X, vxx, u, v, y * y - 1, y * y * D + 1);
    var found;
    ghost var x;
    found, x := ChooseRoot(h.X, vxx, u, y, b, y * y - 1, (b * b) * (y * y * D + 1));
    RootsArePoints(y);
    if !found {
      return -1, Zero;
    }
    x := OpposeSign(h.X, s[31] / 0x80, y, x);
    Mul(h.T, h.X, h.Y, x, y, 1, 1);
    WithinMore(h.Z[..], 1, 1, MUL_OUT_EVEN, MUL_OUT_ODD);
    p := Point(Residue(x), Residue(y));
    RootPoint(x, y, p);
    Decoded(x, y, V(h.X[..]), V(h.Y[..]), V(h.T[..]), p);
    r := 0;
  }

  lemma RootsArePoints(y: int)
    ensures HasRoot(y) <==> OnSomePoint(y)
  {
    hide Cong, Root, Residue, OnCurve;
    var c := Residue(y);
    ResidueCong(y);
    CongSym(c, y);
    if HasRoot(y) {
      var z :| Root(z, y);
      var x := Residue(z);
      ResidueCong(z);
      CongSym(x, z);
      RootCong(z, x, y, c);
      RootOnCurve(x, c);
    }
    if OnSomePoint(y) {
      var x :| OnCurve(Point(x, c));
      assert 0 <= x < P by { CurveRange(x, c); }
      RootOnCurve(x, c);
      CongRefl(x);
      RootCong(x, x, c, y);
    }
  }

  lemma CurveRange(x: int, y: int)
    requires OnCurve(Point(x, y))
    ensures 0 <= x < P && 0 <= y < P
  {
    hide Cong;
  }

  /** The residues of a root and its y are a point. */
  lemma RootPoint(x: int, y: int, p: Point)
    requires Root(x, y) && p.x == Residue(x) && p.y == Residue(y)
    ensures OnCurve(p) && Cong(x, p.x) && Cong(y, p.y)
  {
    hide Cong, Root, Residue, OnCurve;
    ResidueCong(x);
    ResidueCong(y);
    CongSym(p.x, x);
    CongSym(p.y, y);
    RootCong(x, p.x, y, p.y);
    RootOnCurve(p.x, p.y);
  }

  lemma Decoded(x: int, y: int, X: int, Y: int, T: int, p: Point)
    requires OnCurve(p) && Cong(x, p.x) && Cong(y, p.y)
    requires Cong(X, x) && Cong(Y, y) && Cong(T, Prod(x, y))
    ensures Extended(X, Y, 1, T, p)
  {
    hide Cong, OnCurve;
    CongMul(x, p.x, y, p.y);
    CongTrans(X, x, p.x);
    CongTrans(Y, y, p.y);
    CongTrans(T, x * y, p.x * p.y);
    OneNotZero();
    assert p.x * 1 == p.x && p.y * 1 == p.y && (p.x * p.y) * 1 == p.x * p.y;
  }
}
