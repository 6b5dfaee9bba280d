/** The five coordinate systems of native/common/ed25519_orlp/src/ge.h on integers modulo P: what it
    means for coordinates to stand for a point of the curve, and the addition formulas. */
module Coordinates {
  import opened Rings
  import opened Field
  import opened PrimeField
  import opened Edwards
  import opened EdwardsGroup

  /** (X:Y:Z) with x = X/Z, y = Y/Z */
  ghost predicate Projective(X: int, Y: int, Z: int, p: Point) {
    OnCurve(p) && !Cong(Z, 0) && Cong(X, p.x * Z) && Cong(Y, p.y * Z)
  }

  /** (X:Y:Z:T) with x = X/Z, y = Y/Z, xy = T/Z */
  ghost predicate Extended(X: int, Y: int, Z: int, T: int, p: Point) {
    Projective(X, Y, Z, p) && Cong(T, (p.x * p.y) * Z)
  }

  /** ((X:Z), (Y:T)) with x = X/Z, y = Y/T */
  ghost predicate Completed(X: int, Y: int, Z: int, T: int, p: Point) {
    OnCurve(p) && !Cong(Z, 0) && !Cong(T, 0) && Cong(X, p.x * Z) && Cong(Y, p.y * T)
  }

  ghost predicate IsTwist(K: int, Z: int, p: Point, d: int) {
    Cong(K, (2 * d * (p.x * p.y)) * Z)
  }

  /** (y+x, y-x, 1, 2dxy), all times Z; as with OnCurve, for every d that is D */
  ghost predicate Cached(S: int, M: int, Z: int, K: int, p: Point) {
    && OnCurve(p) && !Cong(Z, 0)
    && Cong(S, (p.y + p.x) * Z) && Cong(M, (p.y - p.x) * Z) && forall d :: IsD(d) ==> IsTwist(K, Z, p, d)
  }

  lemma CachedTwist(S: int, M: int, Z: int, K: int, p: Point)
    requires OnCurve(p) && !Cong(Z, 0) && Cong(S, (p.y + p.x) * Z) && Cong(M, (p.y - p.x) * Z)
    ensures Cached(S, M, Z, K, p) <==> Cong(K, (2 * D * (p.x * p.y)) * Z)
  {
    hide Cong, OnCurve;
    assert Cached(S, M, Z, K, p) && IsD(D) ==> IsTwist(K, Z, p, D);
  }

  lemma CachedParts(S: int, M: int, Z: int, K: int, p: Point)
    requires Cached(S, M, Z, K, p)
    ensures OnCurve(p) && !Cong(Z, 0)
    ensures Cong(S, (p.y + p.x) * Z) && Cong(M, (p.y - p.x) * Z) && Cong(K, (2 * D * (p.x * p.y)) * Z)
  {
    hide Cong, OnCurve;
    CachedTwist(S, M, Z, K, p);
  }

  /** An extended point keeps XY = ZT. */
  lemma ExtendedProduct(X: int, Y: int, Z: int, T: int, p: Point)
    requires Extended(X, Y, Z, T, p)
    ensures Cong(X * Y, Z * T)
  {
    hide Cong;
    CongMul(X, p.x * Z, Y, p.y * Z);
    CongScale(T, (p.x * p.y) * Z, Z);
    Swap(p.x, Z, p.y, Z);
    CoordinateProduct(p.x * p.y, Z);
    CongSym(Z * T, Z * ((p.x * p.y) * Z));
    CongTrans(X * Y, (p.x * Z) * (p.y * Z), Z * T);
  }

  lemma CoordinateProduct(m: int, z: int)
    ensures z * (m * z) == m * (z * z)
  {
  }

  // Addition ---------------------------------------------------------------------------------------

  /** The numerators and denominators of the sum of p and q, all times w, complete the sum. */
  lemma CompletedSum(X: int, Y: int, Z: int, T: int, w: int, p: Point, q: Point)
    requires CurveFacts() && OnCurve(p) && OnCurve(q) && !Cong(w, 0)
    requires Cong(X, w * SumX(p, q)) && Cong(Y, w * SumY(p, q))
    requires Cong(Z, w * (1 + Cross(p, q))) && Cong(T, w * (1 - Cross(p, q)))
    ensures Completed(X, Y, Z, T, Add(p, q))
  {
    hide Cong, IsPrime, DIsNonSquare, OnCurve, Add, Cross, SumX, SumY;
    CurveNonSquare();
    hide CurveFacts;
    var s, t := Add(p, q), Cross(p, q);
    AddOnCurve(p, q);
    AddFractions(p, q);
    Complete(p, q);
    CompletedFraction(X, Z, w, s.x, 1 + t, SumX(p, q));
    CompletedFraction(Y, T, w, s.y, 1 - t, SumY(p, q));
  }

  lemma CompletedFraction(X: int, Z: int, w: int, x: int, d: int, n: int)
    requires IsPrime(P) && !Cong(w, 0) && !Cong(d, 0)
    requires Cong(X, w * n) && Cong(Z, w * d) && Cong(x * d, n)
    ensures Cong(X, x * Z) && !Cong(Z, 0)
  {
    hide Cong, IsPrime;
    CongScale(Z, w * d, x);
    CongScale(x * d, n, w);
    assert x * (w * d) == w * (x * d);
    CongTrans(x * Z, w * (x * d), w * n);
    CongSym(x * Z, w * n);
    CongTrans(X, w * n, x * Z);
    ProductNonzero(w, d);
    NonzeroCong(Z, w * d);
  }

  lemma NonzeroCong(a: int, b: int)
    requires Cong(a, b) && !Cong(b, 0)
    ensures !Cong(a, 0)
  {
    hide Cong;
    CongSym(a, b);
    if Cong(a, 0) { CongTrans(b, a, 0); }
  }

  /** The formulas of ge_add: from an extended and a cached point to the completed sum. */
  lemma AddFormulas(X1: int, Y1: int, Z1: int, T1: int, p: Point, S: int, M: int, Z2: int, K: int, q: Point,
                    X: int, Y: int, Z: int, T: int)
    requires CurveFacts() && Extended(X1, Y1, Z1, T1, p) && Cached(S, M, Z2, K, q)
    requires Cong(X, (Y1 + X1) * S - (Y1 - X1) * M) && Cong(Y, (Y1 + X1) * S + (Y1 - X1) * M)
    requires Cong(Z, 2 * (Z1 * Z2) + K * T1) && Cong(T, 2 * (Z1 * Z2) - K * T1)
    ensures Completed(X, Y, Z, T, Add(p, q))
  {
    hide Cong, IsPrime, DIsNonSquare, OnCurve, Add;
    assert IsPrime(P);
    hide CurveFacts;
    var w := Z1 * Z2;
    var a, b, c := AddProducts(X1, Y1, Z1, T1, p, S, M, Z2, K, q, w);
    ProductNonzero(Z1, Z2);
    hide *;
    AddFromProducts((Y1 + X1) * S, a, (Y1 - X1) * M, b, K * T1, c, w, p, q, X, Y, Z, T);
  }

  lemma AddFromProducts(A: int, a: int, B: int, b: int, C: int, c: int, w: int, p: Point, q: Point, X: int, Y: int,
      Z: int, T: int)
    requires CurveFacts() && OnCurve(p) && OnCurve(q) && !Cong(w, 0)
    requires Cong(A, a * w) && Cong(B, b * w) && Cong(C, c * w)
    requires a - b == 2 * SumX(p, q) && a + b == 2 * SumY(p, q) && c == 2 * Cross(p, q)
    requires Cong(X, A - B) && Cong(Y, A + B) && Cong(Z, 2 * w + C) && Cong(T, 2 * w - C)
    ensures Completed(X, Y, Z, T, Add(p, q))
  {
    hide *;
    CommonFactor(a, b, c, w, SumX(p, q), SumY(p, q), Cross(p, q));
    AddTerms(A, a * w, B, b * w, C, c * w, 2 * w, X, Y, Z, T);
    TwoNotZero();
    CurveNonSquare();
    ProductNonzero(2, w);
    CompletedSum(X, Y, Z, T, 2 * w, p, q);
  }

  /** The three products of ge_add over a common factor. */
  lemma AddProducts(X1: int, Y1: int, Z1: int, T1: int, p: Point, S: int, M: int, Z2: int, K: int, q: Point, w: int)
    returns (a: int, b: int, c: int)
    requires Extended(X1, Y1, Z1, T1, p) && Cached(S, M, Z2, K, q) && w == Z1 * Z2
    ensures Cong((Y1 + X1) * S, a * w) && Cong((Y1 - X1) * M, b * w) && Cong(K * T1, c * w)
    ensures a - b == 2 * SumX(p, q) && a + b == 2 * SumY(p, q) && c == 2 * Cross(p, q)
  {
    hide Cong, OnCurve, Cached, SumX, SumY, Cross;
    CachedParts(S, M, Z2, K, q);
    CongAdd(Y1, p.y * Z1, X1, p.x * Z1);
    Factor(p.y, p.x, Z1);
    a := ProductOfMultiples(Y1 + X1, p.y + p.x, Z1, S, q.y + q.x, Z2);
    b := ProductOfMultiples(Y1 - X1, p.y - p.x, Z1, M, q.y - q.x, Z2);
    c := ProductOfMultiples(K, 2 * D * (q.x * q.y), Z2, T1, p.x * p.y, Z1);
    Commute(Z1, Z2);
    SumForms(p, q, a, b, c);
  }

  lemma SumForms(p: Point, q: Point, a: int, b: int, c: int)
    requires a == (p.y + p.x) * (q.y + q.x) && b == (p.y - p.x) * (q.y - q.x)
    requires c == (2 * D * (q.x * q.y)) * (p.x * p.y)
    ensures a - b == 2 * SumX(p, q) && a + b == 2 * SumY(p, q) && c == 2 * Cross(p, q)
  {
    SumTimesSum(p.x, p.y, q.x, q.y);
    CrossForm(D, q.x * q.y, p.x * p.y);
  }

  lemma ProductOfMultiples(A: int, a: int, w: int, B: int, b: int, z: int) returns (ab: int)
    requires Cong(A, a * w) && Cong(B, b * z)
    ensures ab == a * b && Cong(A * B, ab * (w * z))
  {
    hide Cong;
    ab := a * b;
    CongMul(A, a * w, B, b * z);
    Swap(a, w, b, z);
  }

  lemma SumTimesSum(x: int, y: int, x': int, y': int)
    ensures (y + x) * (y' + x') - (y - x) * (y' - x') == 2 * (x * y' + x' * y)
    ensures (y + x) * (y' + x') + (y - x) * (y' - x') == 2 * (y * y' + x * x')
  {
    Distribute(y, x, y', x');
    Distribute(y, -x, y', -x');
  }

  lemma CrossForm(d: int, a: int, b: int)
    ensures (2 * d * a) * b == 2 * (d * (b * a))
  {
  }

  lemma CommonFactor(a: int, b: int, c: int, w: int, x: int, y: int, t: int)
    requires a - b == 2 * x && a + b == 2 * y && c == 2 * t
    ensures a * w - b * w == 2 * w * x && a * w + b * w == 2 * w * y
    ensures 2 * w + c * w == 2 * w * (1 + t) && 2 * w - c * w == 2 * w * (1 - t)
  {
    Factor(a, b, w);
    ScaleTwice(x, w);
    ScaleTwice(y, w);
    ScaleOnes(t, w);
  }

  lemma ScaleTwice(x: int, w: int)
    ensures (2 * x) * w == 2 * w * x
  {
  }

  lemma ScaleOnes(t: int, w: int)
    ensures 2 * w + (2 * t) * w == 2 * w * (1 + t) && 2 * w - (2 * t) * w == 2 * w * (1 - t)
  {
  }

  lemma AddTerms(A: int, a: int, B: int, b: int, C: int, c: int, w: int, X: int, Y: int, Z: int, T: int)
    requires Cong(A, a) && Cong(B, b) && Cong(C, c)
    requires Cong(X, A - B) && Cong(Y, A + B) && Cong(Z, w + C) && Cong(T, w - C)
    ensures Cong(X, a - b) && Cong(Y, a + b) && Cong(Z, w + c) && Cong(T, w - c)
  {
    hide Cong;
    CongAdd(A, a, B, b);
    CongTrans(X, A - B, a - b);
    CongTrans(Y, A + B, a + b);
    CongRefl(w);
    CongAdd(w, w, C, c);
    CongTrans(Z, w + C, w + c);
    CongTrans(T, w - C, w - c);
  }

  /** Exchanging y+x with y-x and negating 2dxy gives the negative point. */
  lemma CachedNeg(S: int, M: int, Z: int, K: int, p: Point)
    requires Cached(S, M, Z, K, p)
    ensures Cached(M, S, Z, -K, Neg(p))
  {
    hide Cong, Residue, OnCurve;
    CachedTwist(S, M, Z, K, p);
    NegOnCurve(p);
    var n := Neg(p);
    ResidueCong(-p.x);
    CongRefl(p.y);
    CongAdd(p.y, p.y, n.x, -p.x);
    CongScale(n.y + n.x, p.y - p.x, Z);
    CongSym((n.y + n.x) * Z, (p.y - p.x) * Z);
    CongTrans(M, (p.y - p.x) * Z, (n.y + n.x) * Z);
    CongScale(n.y - n.x, p.y + p.x, Z);
    CongSym((n.y - n.x) * Z, (p.y + p.x) * Z);
    CongTrans(S, (p.y + p.x) * Z, (n.y - n.x) * Z);
    var k := 2 * D;
    CongScale(n.x, -p.x, p.y);
    CongScale(n.x * n.y, -p.x * p.y, k);
    CongScale(k * (n.x * n.y), k * (-p.x * p.y), Z);
    assert (k * (-p.x * p.y)) * Z == -((k * (p.x * p.y)) * Z) by { NegateProduct(k, p.x, p.y, Z); }
    CongNegate(K, (k * (p.x * p.y)) * Z);
    CongSym((k * (n.x * n.y)) * Z, -((k * (p.x * p.y)) * Z));
    CongTrans(-K, -((k * (p.x * p.y)) * Z), (k * (n.x * n.y)) * Z);
    CachedTwist(M, S, Z, -K, n);
  }

  lemma NegateProduct(k: int, x: int, y: int, z: int)
    ensures (k * (-x * y)) * z == -((k * (x * y)) * z)
  {
    assert -x * y == -(x * y);
    assert k * -(x * y) == -(k * (x * y));
    assert -(k * (x * y)) * z == -((k * (x * y)) * z);
  }

  /** The formulas of ge_sub: from an extended and a cached point to the completed difference. */
  lemma SubFormulas(X1: int, Y1: int, Z1: int, T1: int, p: Point, S: int, M: int, Z2: int, K: int, q: Point,
                    X: int, Y: int, Z: int, T: int)
    requires CurveFacts() && Extended(X1, Y1, Z1, T1, p) && Cached(S, M, Z2, K, q)
    requires Cong(X, (Y1 + X1) * M - (Y1 - X1) * S) && Cong(Y, (Y1 + X1) * M + (Y1 - X1) * S)
    requires Cong(Z, 2 * (Z1 * Z2) - K * T1) && Cong(T, 2 * (Z1 * Z2) + K * T1)
    ensures Completed(X, Y, Z, T, Add(p, Neg(q)))
  {
    hide Cong, CurveFacts, Extended, Cached, Completed, Add, Neg;
    CachedNeg(S, M, Z2, K, q);
    assert -K * T1 == -(K * T1);
    AddFormulas(X1, Y1, Z1, T1, p, M, S, Z2, -K, Neg(q), X, Y, Z, T);
  }

  // Doubling ---------------------------------------------------------------------------------------

  /** The formulas of ge_p2_dbl: the completed sum of a point with itself. */
  lemma DoubleFormulas(X1: int, Y1: int, Z1: int, p: Point, X: int, Y: int, Z: int, T: int)
    requires CurveFacts() && Projective(X1, Y1, Z1, p)
    requires Cong(X, (X1 + Y1) * (X1 + Y1) - (Y1 * Y1 + X1 * X1)) && Cong(Y, Y1 * Y1 + X1 * X1)
    requires Cong(Z, Y1 * Y1 - X1 * X1) && Cong(T, 2 * (Z1 * Z1) - (Y1 * Y1 - X1 * X1))
    ensures Completed(X, Y, Z, T, Add(p, p))
  {
    hide Cong, IsPrime, DIsNonSquare, Add;
    assert IsPrime(P);
    hide CurveFacts;
    var u, a := CurveEquation(p);
    hide OnCurve;
    var w := Z1 * Z1;
    var xx := ProductOfMultiples(X1, p.x, Z1, X1, p.x, Z1);
    var yy := ProductOfMultiples(Y1, p.y, Z1, Y1, p.y, Z1);
    var xy := ProductOfMultiples(X1, p.x, Z1, Y1, p.y, Z1);
    DoubledProduct(X1, Y1);
    assert a == Cross(p, p) && yy + xx == SumY(p, p) && xy + xy == SumX(p, p);
    hide Cross, SumX, SumY;
    DoubleTerms(X1 * X1, xx, Y1 * Y1, yy, X1 * Y1, xy, w, a, X, Y, Z, T);
    ProductNonzero(Z1, Z1);
    CompletedSum(X, Y, Z, T, w, p, p);
  }

  lemma DoubleTerms(A: int, xx: int, B: int, yy: int, C: int, xy: int, w: int, a: int, X: int, Y: int, Z: int, T: int)
    requires Cong(A, xx * w) && Cong(B, yy * w) && Cong(C, xy * w) && Cong(yy - xx, 1 + a)
    requires Cong(X, C + C) && Cong(Y, B + A) && Cong(Z, B - A) && Cong(T, 2 * w - (B - A))
    ensures Cong(X, w * (xy + xy)) && Cong(Y, w * (yy + xx)) && Cong(Z, w * (1 + a)) && Cong(T, w * (1 - a))
  {
    hide Cong;
    Factor(yy, xx, w);
    Factor(xy, xy, w);
    Commute(w, yy + xx);
    Commute(w, xy + xy);
    CongAdd(C, xy * w, C, xy * w);
    CongAdd(B, yy * w, A, xx * w);
    CongTrans(X, C + C, w * (xy + xy));
    CongTrans(Y, B + A, w * (yy + xx));
    CongScale(yy - xx, 1 + a, w);
    CongTrans(B - A, (yy - xx) * w, w * (1 + a)) by { Commute(w, 1 + a); }
    CongTrans(Z, B - A, w * (1 + a));
    CongRefl(2 * w);
    CongAdd(2 * w, 2 * w, B - A, w * (1 + a));
    TwoMinus(w, a);
    CongTrans(T, 2 * w - (B - A), w * (1 - a));
  }

  lemma DoubledProduct(x: int, y: int)
    ensures (x + y) * (x + y) - (y * y + x * x) == x * y + x * y
  {
  }

  lemma TwoMinus(w: int, a: int)
    ensures 2 * w - w * (1 + a) == w * (1 - a)
  {
  }

  // Conversions ------------------------------------------------------------------------------------

  /** ge_p1p1_to_p3, and without T ge_p1p1_to_p2 */
  lemma CompletedToExtended(X1: int, Y1: int, Z1: int, T1: int, p: Point, X: int, Y: int, Z: int)
    requires IsPrime(P) && Completed(X1, Y1, Z1, T1, p)
    requires Cong(X, X1 * T1) && Cong(Y, Y1 * Z1) && Cong(Z, Z1 * T1)
    ensures Projective(X, Y, Z, p)
    ensures forall T :: Cong(T, X1 * Y1) ==> Extended(X, Y, Z, T, p)
  {
    hide Cong, IsPrime, OnCurve;
    ProductNonzero(Z1, T1);
    NonzeroCong(Z, Z1 * T1);
    CongSym(Z, Z1 * T1);
    Convert(X, X1, Z1, p.x, T1, Z);
    assert T1 * Z1 == Z1 * T1;
    Convert(Y, Y1, T1, p.y, Z1, Z);
    CongMul(X1, p.x * Z1, Y1, p.y * T1);
    Swap(p.x, Z1, p.y, T1);
    CongScale(Z1 * T1, Z, p.x * p.y);
    forall T | Cong(T, X1 * Y1) ensures Extended(X, Y, Z, T, p) {
      CongTrans(T, X1 * Y1, (p.x * p.y) * (Z1 * T1));
      CongTrans(T, (p.x * p.y) * (Z1 * T1), (p.x * p.y) * Z);
    }
  }

  lemma Convert(A: int, B: int, z: int, b: int, t: int, Z: int)
    requires Cong(A, B * t) && Cong(B, b * z) && Cong(z * t, Z)
    ensures Cong(A, b * Z)
  {
    hide Cong;
    CongScale(B, b * z, t);
    CongScale(z * t, Z, b);
    assert (b * z) * t == b * (z * t);
    CongTrans(A, B * t, b * (z * t));
    CongTrans(A, b * (z * t), b * Z);
  }

  /** ge_p3_to_cached */
  lemma ExtendedToCached(X: int, Y: int, Z: int, T: int, p: Point, S: int, M: int, K: int)
    requires Extended(X, Y, Z, T, p)
    requires Cong(S, Y + X) && Cong(M, Y - X) && Cong(K, T * (2 * D))
    ensures Cached(S, M, Z, K, p)
  {
    hide Cong, OnCurve;
    CongAdd(Y, p.y * Z, X, p.x * Z);
    Factor(p.y, p.x, Z);
    CongTrans(S, Y + X, (p.y + p.x) * Z);
    CongTrans(M, Y - X, (p.y - p.x) * Z);
    var k, m := 2 * D, p.x * p.y;
    CongScale(T, m * Z, k);
    assert (m * Z) * k == (k * m) * Z;
    CongTrans(K, T * k, (k * m) * Z);
  }

  /** From projective coordinates back to the point. */
  lemma Normalized(X: int, Y: int, Z: int, p: Point, i: int, x: int, y: int)
    requires IsPrime(P) && Projective(X, Y, Z, p) && Cong(i, Pow(Z, P - 2))
    requires Cong(x, X * i) && Cong(y, Y * i)
    ensures Residue(x) == p.x && Residue(y) == p.y
  {
    hide Cong, IsPrime, Residue, Pow;
    assert 0 <= p.x < P && 0 <= p.y < P;
    hide OnCurve;
    Inverse(Z);
    ResidueCong(Pow(Z, P - 2));
    CongSym(Inv(Z), Pow(Z, P - 2));
    CongTrans(i, Pow(Z, P - 2), Inv(Z));
    CongScale(i, Inv(Z), Z);
    CongTrans(Z * i, Z * Inv(Z), 1);
    Convert(x, X, Z, p.x, i, 1);
    Convert(y, Y, Z, p.y, i, 1);
    ResidueUnique(x, p.x);
    ResidueUnique(y, p.y);
  }
}
