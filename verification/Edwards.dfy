/** The twisted Edwards curve -x^2 + y^2 = 1 + d x^2 y^2 of section 5.1 of RFC 8032 over the integers
    modulo P, in affine coordinates. */
module Edwards {
  import opened Bits
  import opened Rings
  import opened Field
  import opened PrimeField

  // -121665 / 121666 modulo P
  const D: int := 0x5203_6cee_2b6f_fe73_8cc7_4079_7779_e898_0070_0a4d_4141_d8ab_75eb_4dca_1359_78a3
  // A square root of -1 modulo P
  const SQRT_M1: int := 0x2b83_2480_4fc1_df0b_2b4d_0099_3dfb_d7a7_2f43_1806_ad2f_e478_c4ee_1b27_4a0e_a0b0

  lemma DQuotient()
    ensures Cong(121666 * D, -121665)
  {
    var k := (121666 * D + 121665) / DIGITS;
    PrimeNumber(k);
    CongIntro(121666 * D, -121665, k);
  }

  lemma SqrtM1()
    ensures Cong(SQRT_M1 * SQRT_M1, -1)
  {
    var k := (SQRT_M1 * SQRT_M1 + 1) / DIGITS;
    PrimeNumber(k);
    CongIntro(SQRT_M1 * SQRT_M1, -1, k);
  }

  function Square(s: int): int {
    s * s
  }

  ghost predicate IsRootOfD(s: int) {
    Cong(Square(s), D)
  }

  /** D is not a square modulo P. */
  ghost predicate DIsNonSquare() {
    forall s :: !IsRootOfD(s)
  }

  datatype Point = Point(x: int, y: int)

  /** The curve equation */
  ghost predicate Satisfies(p: Point, d: int) {
    Cong(Square(p.y) - Square(p.x), 1 + d * Square(p.x * p.y))
  }

  predicate IsD(d: int) {
    d == D
  }

  /** Stated for every d that is D, so that a proof sees the equation only if it asks for it. */
  ghost predicate OnCurve(p: Point) {
    0 <= p.x < P && 0 <= p.y < P && forall d :: IsD(d) ==> Satisfies(p, d)
  }

  lemma Equation(p: Point)
    requires 0 <= p.x < P && 0 <= p.y < P
    ensures OnCurve(p) <==> Cong(Square(p.y) - Square(p.x), 1 + D * Square(p.x * p.y))
  {
    hide Cong, Square;
    assert OnCurve(p) && IsD(D) ==> Satisfies(p, D);
  }

  lemma CongScale(a: int, b: int, c: int)
    requires Cong(a, b)
    ensures Cong(a * c, b * c) && Cong(c * a, c * b)
  {
    hide Cong;
    CongRefl(c);
    CongMul(a, b, c, c);
    CongMul(c, c, a, b);
  }

  lemma CongNegate(a: int, b: int)
    requires Cong(a, b)
    ensures Cong(-a, -b)
  {
    hide Cong;
    var k := CongElim(a, b);
    CongIntro(-a, -b, -k);
  }

  /** If a^2 = e b^2 with b not zero, then e is a square. */
  lemma SquareRatio(a: int, b: int, e: int) returns (s: int)
    requires IsPrime(P) && Cong(a * a, e * (b * b)) && !Cong(b, 0)
    ensures Cong(s * s, e)
  {
    hide Cong, IsPrime, Inv;
    var i := Inv(b);
    s := a * i;
    Inverse(b);
    CongMul(b * i, 1, b * i, 1);
    CongScale(a * a, e * (b * b), i * i);
    CongScale((b * i) * (b * i), 1, e);
    RatioSquares(a, b, e, i);
    CongTrans(s * s, e * ((b * i) * (b * i)), e);
  }

  lemma RatioSquares(a: int, b: int, e: int, i: int)
    ensures (a * i) * (a * i) == (a * a) * (i * i)
    ensures e * ((b * i) * (b * i)) == (e * (b * b)) * (i * i)
  {
    assert (b * i) * (b * i) == (b * b) * (i * i);
    assert e * ((b * b) * (i * i)) == (e * (b * b)) * (i * i);
    assert (a * i) * (a * i) == a * (i * (a * i)) == a * (a * (i * i));
  }

  // Completeness: no denominator of the addition law vanishes on the curve -------------------------

  /** With X = sqrt(-1) * x the curve reads X^2 + y^2 = 1 - D X^2 y^2. */
  lemma Untwist(x: int, y: int, i: int, X: int)
    requires Cong(i * i, -1) && X == i * x
    requires Cong(Square(y) - Square(x), 1 + D * Square(x * y))
    ensures Cong(Square(X) + Square(y), 1 - D * Square(X * y))
  {
    hide Cong;
    var m, n, M, N := Square(x), Square(x * y), Square(X), Square(X * y);
    TwistedSquare(i, x, X);
    TwistedSquare(i, x * y, X * y) by { assert (i * x) * y == i * (x * y); }
    CongScale(i * i, -1, m);
    CongScale(i * i, -1, n);
    hide Square;
    assert Cong(M, -m) && Cong(N, -n);
    CongScale(N, -n, D);
    var y2, dn, dN := Square(y), D * n, D * N;
    assert D * -n == -dn;
    CongRefl(y2);
    CongAdd(M, -m, y2, y2);
    CongTrans(M + y2, y2 - m, 1 + dn);
    CongRefl(1);
    CongAdd(1, 1, dN, -dn);
    CongSym(1 - dN, 1 + dn);
    CongTrans(M + y2, 1 + dn, 1 - dN);
  }

  lemma TwistedSquare(i: int, x: int, X: int)
    requires X == i * x
    ensures Square(X) == (i * i) * Square(x)
  {
    ProductSquared(i, x);
  }

  /** If t = -D X1 X2 y1 y2 is e = 1 or -1, then (X1 + s e y1)^2 = -D (X1 y1 (X2 + s y2))^2. */
  lemma SquareFromUnit(X1: int, y1: int, X2: int, y2: int, t: int, e: int, s: int)
    requires Cong(Square(X1) + Square(y1), 1 - D * Square(X1 * y1))
    requires Cong(Square(X2) + Square(y2), 1 - D * Square(X2 * y2))
    requires t == -D * ((X1 * y1) * (X2 * y2)) && Cong(t, e) && (e == 1 || e == -1) && (s == 1 || s == -1)
    ensures Cong(Square(X1 + s * e * y1), -D * Square((X1 * y1) * (X2 + s * y2)))
  {
    hide Cong, Square;
    var g, h := X1 * y1, X2 * y2;
    var p, q := Square(X1) + Square(y1), Square(X2) + Square(y2);
    assert Square(X1 + s * e * y1) == p + 2 * (s * e) * g by { SumSquared(X1, y1, s * e); }
    assert Square(g * (X2 + s * y2)) == Square(g) * (q + 2 * s * h) by {
      SumSquared(X2, y2, s);
      ProductSquared(g, X2 + s * y2);
    }
    var a := -D * Square(g);
    // -D g^2 (q + 2 s h) = a q + 2 s t g
    assert -D * (Square(g) * (q + 2 * s * h)) == a * q + (2 * s) * (t * g) by { CrossTerm(g, h, t, q, s); }
    // a q = a (1 - D h^2) = a + t^2
    CongScale(q, 1 - D * Square(h), a);
    assert a * (1 - D * Square(h)) == a + t * t by { UnitTerm(g, h, t); }
    CongMul(t, e, t, e);
    CongScale(t, e, g);
    CongScale(t * g, e * g, 2 * s);
    CongRefl(a);
    CongAdd(a, a, t * t, e * e);
    CongTrans(a * q, a + t * t, a + e * e);
    CongAdd(a * q, a + e * e, (2 * s) * (t * g), (2 * s) * (e * g));
    assert e * e == 1;
    assert (2 * s) * (e * g) == 2 * (s * e) * g;
    CongRefl(2 * (s * e) * g);
    CongAdd(p, a + e * e, 2 * (s * e) * g, 2 * (s * e) * g);
    CongSym(a * q + (2 * s) * (t * g), a + e * e + 2 * (s * e) * g);
    CongTrans(p + 2 * (s * e) * g, a + e * e + 2 * (s * e) * g, a * q + (2 * s) * (t * g));
  }

  lemma BinomialSquare(x: int, w: int)
    ensures Square(x + w) == Square(x) + 2 * (x * w) + Square(w)
  {
    assert (x + w) * (x + w) == x * x + 2 * (x * w) + w * w;
  }

  lemma SumSquared(x: int, y: int, s: int)
    requires s == 1 || s == -1
    ensures Square(x + s * y) == Square(x) + Square(y) + 2 * s * (x * y)
  {
    if s == 1 {
      BinomialSquare(x, y);
    } else {
      BinomialSquare(x, -y);
      assert x * -y == -(x * y) && Square(-y) == Square(y);
    }
  }

  lemma ProductSquared(a: int, b: int)
    ensures Square(a * b) == Square(a) * Square(b)
  {
    assert (a * b) * (a * b) == (a * a) * (b * b);
  }

  lemma CrossTerm(g: int, h: int, t: int, q: int, s: int)
    requires t == -D * (g * h)
    ensures -D * (Square(g) * (q + 2 * s * h)) == (-D * Square(g)) * q + (2 * s) * (t * g)
  {
    var d := -D;
    assert d * ((g * g) * (q + 2 * s * h)) == (d * (g * g)) * q + (2 * s) * ((d * (g * h)) * g);
  }

  lemma UnitTerm(g: int, h: int, t: int)
    requires t == -D * (g * h)
    ensures (-D * Square(g)) * (1 - D * Square(h)) == -D * Square(g) + t * t
  {
    var d := -D;
    assert (d * (g * g)) * (1 + d * (h * h)) == d * (g * g) + (d * (g * h)) * (d * (g * h));
  }

  /** x1 x2 y1 y2 D, the term the denominators of the addition law add to and take from 1 */
  function Cross(p: Point, q: Point): int {
    D * ((p.x * p.y) * (q.x * q.y))
  }

  /** Neither 1 + Cross nor 1 - Cross is zero. */
  lemma Complete(p: Point, q: Point)
    requires IsPrime(P) && DIsNonSquare() && OnCurve(p) && OnCurve(q)
    ensures !Cong(1 + Cross(p, q), 0) && !Cong(1 - Cross(p, q), 0)
  {
    hide Cong, IsPrime, DIsNonSquare;
    Equation(p);
    Equation(q);
    hide OnCurve;
    SqrtM1();
    var i := SQRT_M1;
    var X1, X2 := i * p.x, i * q.x;
    Untwist(p.x, p.y, i, X1);
    Untwist(q.x, q.y, i, X2);
    var t := -D * ((X1 * p.y) * (X2 * q.y));
    UntwistCross(p, q, i, X1, X2, t);
    if Cong(1 + Cross(p, q), 0) {
      MoveOver(Cross(p, q), 1);
      CongTrans(t, Cross(p, q), -1);
      NotUnit(X1, p.y, X2, q.y, t, -1);
    }
    if Cong(1 - Cross(p, q), 0) {
      MoveOver(Cross(p, q), -1);
      CongTrans(t, Cross(p, q), 1);
      NotUnit(X1, p.y, X2, q.y, t, 1);
    }
  }

  lemma MoveOver(c: int, e: int)
    requires (e == 1 && Cong(1 + c, 0)) || (e == -1 && Cong(1 - c, 0))
    ensures Cong(c, -e)
  {
    hide Cong;
    if e == 1 {
      var k := CongElim(1 + c, 0);
      CongIntro(c, -1, k);
    } else {
      var k := CongElim(1 - c, 0);
      CongIntro(c, 1, -k);
    }
  }

  lemma UntwistCross(p: Point, q: Point, i: int, X1: int, X2: int, t: int)
    requires Cong(i * i, -1) && X1 == i * p.x && X2 == i * q.x && t == -D * ((X1 * p.y) * (X2 * q.y))
    ensures Cong(t, Cross(p, q))
  {
    hide Cong;
    var m := (p.x * p.y) * (q.x * q.y);
    Untwisted(i, p.x, p.y, q.x, q.y);
    CongScale(i * i, -1, m);
    CongScale((i * i) * m, -m, -D);
    SignsCancel(D, m);
  }

  lemma Untwisted(i: int, x1: int, y1: int, x2: int, y2: int)
    ensures ((i * x1) * y1) * ((i * x2) * y2) == (i * i) * ((x1 * y1) * (x2 * y2))
  {
    var a, b := x1 * y1, x2 * y2;
    assert (i * x1) * y1 == i * a && (i * x2) * y2 == i * b;
    assert (i * a) * (i * b) == (i * i) * (a * b);
  }

  lemma SignsCancel(d: int, m: int)
    ensures -d * -m == d * m
  {
  }

  /** On the untwisted curve the product t cannot be 1 or -1: -D would be a square. */
  lemma NotUnit(X1: int, y1: int, X2: int, y2: int, t: int, e: int)
    requires IsPrime(P) && DIsNonSquare() && (e == 1 || e == -1)
    requires Cong(Square(X1) + Square(y1), 1 - D * Square(X1 * y1))
    requires Cong(Square(X2) + Square(y2), 1 - D * Square(X2 * y2))
    requires t == -D * ((X1 * y1) * (X2 * y2))
    ensures !Cong(t, e)
  {
    hide Cong, IsPrime, DIsNonSquare, Square;
    if Cong(t, e) {
      var g, h := X1 * y1, X2 * y2;
      UnitFactors(g, h, t, e);
      SquareFromUnit(X1, y1, X2, y2, t, e, 1);
      SquareFromUnit(X1, y1, X2, y2, t, e, -1);
      NoRoot(X1 + 1 * e * y1, g, X2 + 1 * y2);
      NoRoot(X1 + -1 * e * y1, g, X2 + -1 * y2);
      BothZero(X2, y2, h);
    }
  }

  /** A unit has no zero factor. */
  lemma UnitFactors(g: int, h: int, t: int, e: int)
    requires t == -D * (g * h) && Cong(t, e) && (e == 1 || e == -1)
    ensures !Cong(g, 0) && !Cong(h, 0)
  {
    hide Cong;
    UnitNotZero(t, e);
    if Cong(g, 0) {
      CongScale(g, 0, h);
      CongScale(g * h, 0, -D);
    }
    if Cong(h, 0) {
      CongScale(h, 0, g);
      CongScale(g * h, 0, -D);
    }
  }

  lemma UnitNotZero(t: int, e: int)
    requires Cong(t, e) && (e == 1 || e == -1)
    ensures !Cong(t, 0)
  {
    hide Cong;
    if Cong(t, 0) {
      var k := CongElim(t, e);
      var l := CongElim(t, 0);
      NoSmallMultiple(l - k);
    }
  }

  lemma NoSmallMultiple(k: int)
    ensures k * P == 0 || k * P >= P || k * P <= -P
  {
    hide Prime, RootExponent;
    var p := P;
    if k > 0 {
      MulNonneg(k - 1, p);
    } else if k < 0 {
      MulNonneg(-k - 1, p);
    }
  }

  /** a^2 = -D (g b)^2 with g not zero forces b to be zero. */
  lemma NoRoot(a: int, g: int, b: int)
    requires IsPrime(P) && DIsNonSquare() && !Cong(g, 0)
    requires Cong(Square(a), -D * Square(g * b))
    ensures Cong(b, 0)
  {
    hide Cong, IsPrime, DIsNonSquare;
    if !Cong(b, 0) {
      ProductNonzero(g, b);
      var s := SquareRatio(a, g * b, -D);
      MinusDNonSquare(s);
    }
  }

  lemma MinusDNonSquare(s: int)
    requires DIsNonSquare()
    ensures !Cong(s * s, -D)
  {
    hide Cong, DIsNonSquare;
    if Cong(s * s, -D) {
      SqrtM1();
      var i := SQRT_M1;
      CongMul(i * i, -1, s * s, -D);
      ProductSquared(i, s);
      NonSquare(i * s);
    }
  }

  lemma NonSquare(s: int)
    requires DIsNonSquare()
    ensures !Cong(Square(s), D)
  {
    hide Cong;
    assert !IsRootOfD(s);
  }

  lemma BothZero(x: int, y: int, h: int)
    requires IsPrime(P) && Cong(x + 1 * y, 0) && Cong(x + -1 * y, 0) && h == x * y
    ensures Cong(h, 0)
  {
    hide Cong, IsPrime;
    CongAdd(x + 1 * y, 0, x + -1 * y, 0);
    assert Cong(2 * y, 0);
    TwoNotZero();
    NoZeroDivisors(2, y);
    CongScale(y, 0, x);
  }

  lemma TwoNotZero()
    ensures !Cong(2, 0)
  {
    hide Cong;
    if Cong(2, 0) {
      var k := CongElim(2, 0);
      NoSmallMultiple(k);
    }
  }

  // The addition law -------------------------------------------------------------------------------

  function SumX(p: Point, q: Point): int {
    p.x * q.y + q.x * p.y
  }

  function SumY(p: Point, q: Point): int {
    p.y * q.y + p.x * q.x
  }

  /** The sum of two points, section 5.1.4 of RFC 8032 in affine form. */
  function Add(p: Point, q: Point): Point {
    Point(Residue(SumX(p, q) * Inv(1 + Cross(p, q))), Residue(SumY(p, q) * Inv(1 - Cross(p, q))))
  }

  lemma Quotient(n: int, d: int)
    requires IsPrime(P) && !Cong(d, 0)
    ensures Cong(Residue(n * Inv(d)) * d, n)
  {
    hide Cong, IsPrime, Inv, Residue;
    var i := Inv(d);
    Inverse(d);
    ResidueCong(n * i);
    CongScale(Residue(n * i), n * i, d);
    CongScale(d * i, 1, n);
    assert (n * i) * d == n * (d * i);
    CongTrans(Residue(n * i) * d, (n * i) * d, n);
  }

  /** What the sum is, free of divisions. */
  lemma AddFractions(p: Point, q: Point)
    requires IsPrime(P) && DIsNonSquare() && OnCurve(p) && OnCurve(q)
    ensures Cong(Add(p, q).x * (1 + Cross(p, q)), SumX(p, q))
    ensures Cong(Add(p, q).y * (1 - Cross(p, q)), SumY(p, q))
  {
    hide Cong, IsPrime, DIsNonSquare, Inv, Residue, OnCurve, Cross, SumX, SumY;
    Complete(p, q);
    Quotient(SumX(p, q), 1 + Cross(p, q));
    Quotient(SumY(p, q), 1 - Cross(p, q));
  }

  /** The fractions pin the sum down. */
  lemma AddUnique(p: Point, q: Point, r: Point)
    requires IsPrime(P) && DIsNonSquare() && OnCurve(p) && OnCurve(q)
    requires 0 <= r.x < P && 0 <= r.y < P
    requires Cong(r.x * (1 + Cross(p, q)), SumX(p, q)) && Cong(r.y * (1 - Cross(p, q)), SumY(p, q))
    ensures r == Add(p, q)
  {
    hide Cong, IsPrime, DIsNonSquare, OnCurve, Cross, SumX, SumY;
    var s := Add(p, q);
    assert 0 <= s.x < P && 0 <= s.y < P;
    Complete(p, q);
    AddFractions(p, q);
    hide Add;
    SameQuotient(r.x, s.x, 1 + Cross(p, q), SumX(p, q));
    SameQuotient(r.y, s.y, 1 - Cross(p, q), SumY(p, q));
  }

  lemma SameQuotient(a: int, b: int, d: int, n: int)
    requires IsPrime(P) && !Cong(d, 0) && 0 <= a < P && 0 <= b < P
    requires Cong(a * d, n) && Cong(b * d, n)
    ensures a == b
  {
    hide Cong, IsPrime, Residue;
    CongSym(b * d, n);
    CongTrans(a * d, n, b * d);
    Cancel(a, b, d);
    ResidueUnique(a, b);
    CongRefl(a);
    ResidueUnique(a, a);
  }

  /** The curve equation in the terms u = y^2 - x^2 and a = D (x y)^2. */
  lemma CurveEquation(p: Point) returns (u: int, a: int)
    requires OnCurve(p)
    ensures u == p.y * p.y - p.x * p.x && a == D * ((p.x * p.y) * (p.x * p.y)) && Cong(u, 1 + a)
  {
    hide Cong;
    Equation(p);
    u := Square(p.y) - Square(p.x);
    a := D * Square(p.x * p.y);
  }

  /** The sum of two points of the curve is on the curve. */
  lemma AddOnCurve(p: Point, q: Point)
    requires IsPrime(P) && DIsNonSquare() && OnCurve(p) && OnCurve(q)
    ensures OnCurve(Add(p, q))
  {
    hide Cong, IsPrime, DIsNonSquare;
    var r := Add(p, q);
    assert 0 <= r.x < P && 0 <= r.y < P;
    var t, A, B := Cross(p, q), SumY(p, q), SumX(p, q);
    Complete(p, q);
    AddFractions(p, q);
    ProductNonzero(1 + t, 1 - t);
    var u1, a := CurveEquation(p);
    var u2, b := CurveEquation(q);
    hide OnCurve, Add;
    var s := (1 + t) * (1 - t);
    assert (A * (1 + t)) * (A * (1 + t)) - (B * (1 - t)) * (B * (1 - t)) - s * s - D * ((A * B) * (A * B))
        == Excess(u1, u2, a, b) by {
      ClosureTerms(p.x, p.y, q.x, q.y, t, A, B, u1, u2, a, b);
    }
    hide Cross, SumX, SumY;
    ExcessVanishes(u1, u2, a, b);
    Clear(r.x, r.y, 1 + t, 1 - t, A, B, Excess(u1, u2, a, b));
    CurveIntro(r);
  }

  lemma CurveIntro(p: Point)
    requires 0 <= p.x < P && 0 <= p.y < P
    requires Cong(p.y * p.y - p.x * p.x, 1 + D * ((p.x * p.y) * (p.x * p.y)))
    ensures OnCurve(p)
  {
    hide Cong;
    assert Square(p.y) - Square(p.x) == p.y * p.y - p.x * p.x;
  }

  /** By how much the curve equation of the sum, cleared of fractions, fails */
  function Excess(u1: int, u2: int, a: int, b: int): int {
    (u1 * u2) * (1 + a * b) - (1 - a * b) * (1 - a * b) - a * (u2 * u2) - b * (u1 * u1)
  }

  lemma ExcessVanishes(u1: int, u2: int, a: int, b: int)
    requires Cong(u1, 1 + a) && Cong(u2, 1 + b)
    ensures Cong(Excess(u1, u2, a, b), 0)
  {
    hide Cong, Excess;
    var c, d := 1 + a, 1 + b;
    CongMul(u1, c, u2, d);
    CongScale(u1 * u2, c * d, 1 + a * b);
    CongMul(u2, d, u2, d);
    CongScale(u2 * u2, d * d, a);
    CongMul(u1, c, u1, c);
    CongScale(u1 * u1, c * c, b);
    ExcessCombine((u1 * u2) * (1 + a * b), (c * d) * (1 + a * b), a * (u2 * u2), a * (d * d), b * (u1 * u1),
        b * (c * c), (1 - a * b) * (1 - a * b));
    ExcessIdentity(a, b);
    ExcessDefinition(u1, u2, a, b);
  }

  lemma ExcessDefinition(u1: int, u2: int, a: int, b: int)
    ensures Excess(u1, u2, a, b) == (u1 * u2) * (1 + a * b) - (1 - a * b) * (1 - a * b) - a * (u2 * u2) - b * (u1 * u1)
  {
  }

  lemma ExcessCombine(e1: int, f1: int, e2: int, f2: int, e3: int, f3: int, g: int)
    requires Cong(e1, f1) && Cong(e2, f2) && Cong(e3, f3)
    ensures Cong(e1 - g - e2 - e3, f1 - g - f2 - f3)
  {
    hide Cong;
    CongRefl(g);
    CongAdd(e1, f1, g, g);
    CongAdd(e1 - g, f1 - g, e2, f2);
    CongAdd(e1 - g - e2, f1 - g - f2, e3, f3);
  }

  lemma ExcessIdentity(a: int, b: int)
    ensures ((1 + a) * (1 + b)) * (1 + a * b) - (1 - a * b) * (1 - a * b) - a * ((1 + b) * (1 + b))
      - b * ((1 + a) * (1 + a)) == 0
  {
  }

  /** The cleared curve equation, left side minus right side, as the excess. */
  lemma ClosureTerms(x1: int, y1: int, x2: int, y2: int, t: int, A: int, B: int, u1: int, u2: int, a: int, b: int)
    requires t == D * ((x1 * y1) * (x2 * y2)) && A == y1 * y2 + x1 * x2 && B == x1 * y2 + x2 * y1
    requires u1 == y1 * y1 - x1 * x1 && u2 == y2 * y2 - x2 * x2
    requires a == D * ((x1 * y1) * (x1 * y1)) && b == D * ((x2 * y2) * (x2 * y2))
    ensures var s := (1 + t) * (1 - t);
      (A * (1 + t)) * (A * (1 + t)) - (B * (1 - t)) * (B * (1 - t)) - s * s - D * ((A * B) * (A * B))
        == Excess(u1, u2, a, b)
  {
    var m1, m2, v1, v2 := x1 * y1, x2 * y2, y1 * y1 + x1 * x1, y2 * y2 + x2 * x2;
    SumTerms(x1, y1, x2, y2, A, B, m1, m2, u1, u2, v1, v2);
    SumOfSquares(x1, y1, m1, u1, v1);
    SumOfSquares(x2, y2, m2, u2, v2);
    LeftSide(A, B, t, u1 * u2, v1 * v2 + 4 * (m1 * m2));
    RightSide(m1, m2, v1, v2, u1, u2, a, b, t, D, A * B);
    CrossSquared(m1, m2, D, t, a, b);
    DifferenceFromOne(t);
    ExcessDefinition(u1, u2, a, b);
    hide *;
    var left := (A * (1 + t)) * (A * (1 + t)) - (B * (1 - t)) * (B * (1 - t));
    ClosureSum(left, D * ((A * B) * (A * B)), u1 * u2, t, t * t, v1 * v2, m1 * m2, a * (u2 * u2), b * (u1 * u1));
  }

  lemma DifferenceFromOne(t: int)
    ensures (1 + t) * (1 - t) == 1 - t * t
  {
  }

  lemma ClosureSum(left: int, right: int, u: int, t: int, q: int, v: int, m: int, e: int, f: int)
    requires left == u * (1 + q) + 2 * t * (v + 4 * m) && right == e + f + 8 * t * m + 2 * t * v
    ensures left - (1 - q) * (1 - q) - right == u * (1 + q) - (1 - q) * (1 - q) - e - f
  {
    assert 2 * t * (v + 4 * m) == 2 * t * v + 8 * t * m;
  }

  lemma CrossSquared(m1: int, m2: int, d: int, t: int, a: int, b: int)
    requires t == d * (m1 * m2) && a == d * (m1 * m1) && b == d * (m2 * m2)
    ensures t * t == a * b
  {
    assert (d * (m1 * m2)) * (d * (m1 * m2)) == (d * (m1 * m1)) * (d * (m2 * m2));
  }

  lemma SumTerms(x1: int, y1: int, x2: int, y2: int, A: int, B: int, m1: int, m2: int, u1: int, u2: int, v1: int,
      v2: int)
    requires A == y1 * y2 + x1 * x2 && B == x1 * y2 + x2 * y1 && m1 == x1 * y1 && m2 == x2 * y2
    requires u1 == y1 * y1 - x1 * x1 && u2 == y2 * y2 - x2 * x2
    requires v1 == y1 * y1 + x1 * x1 && v2 == y2 * y2 + x2 * x2
    ensures A * A - B * B == u1 * u2 && A * A + B * B == v1 * v2 + 4 * (m1 * m2) && A * B == m1 * v2 + m2 * v1
  {
    SumTermsFrom(x1 * x1, y1 * y1, x2 * x2, y2 * y2, y1 * y2, x1 * x2, x1 * y2, x2 * y1, m1, m2) by {
      Pairs(x1, y1, x2, y2);
    }
  }

  /** All the ways to pair up the factors of x1 y1 x2 y2 and of two squares */
  lemma Pairs(x1: int, y1: int, x2: int, y2: int)
    ensures (y1 * y2) * (x1 * x2) == (x1 * y1) * (x2 * y2) && (x1 * y2) * (x2 * y1) == (x1 * y1) * (x2 * y2)
    ensures (y1 * y2) * (x1 * y2) == (x1 * y1) * (y2 * y2) && (x1 * x2) * (x2 * y1) == (x1 * y1) * (x2 * x2)
    ensures (y1 * y2) * (x2 * y1) == (x2 * y2) * (y1 * y1) && (x1 * x2) * (x1 * y2) == (x2 * y2) * (x1 * x1)
    ensures (y1 * y2) * (y1 * y2) == (y1 * y1) * (y2 * y2) && (x1 * x2) * (x1 * x2) == (x1 * x1) * (x2 * x2)
    ensures (x1 * y2) * (x1 * y2) == (x1 * x1) * (y2 * y2) && (x2 * y1) * (x2 * y1) == (y1 * y1) * (x2 * x2)
  {
    Swap(x1, x2, y1, y2);
    Swap(x1, y2, y1, x2);
    Swap(x1, y2, y1, y2);
    Swap(x1, x2, y1, x2);
    Swap(x2, y1, y2, y1);
    Swap(x2, x1, y2, x1);
    Swap(y1, y2, y1, y2);
    Swap(x1, x2, x1, x2);
    Swap(x1, y2, x1, y2);
    Swap(y1, x2, y1, x2);
  }

  lemma SumTermsFrom(X1: int, Y1: int, X2: int, Y2: int, p: int, q: int, r: int, s: int, m1: int, m2: int)
    requires p * q == m1 * m2 && r * s == m1 * m2
    requires p * r == m1 * Y2 && q * s == m1 * X2 && p * s == m2 * Y1 && q * r == m2 * X1
    requires p * p == Y1 * Y2 && q * q == X1 * X2 && r * r == X1 * Y2 && s * s == Y1 * X2
    ensures (p + q) * (p + q) - (r + s) * (r + s) == (Y1 - X1) * (Y2 - X2)
    ensures (p + q) * (p + q) + (r + s) * (r + s) == (Y1 + X1) * (Y2 + X2) + 4 * (m1 * m2)
    ensures (p + q) * (r + s) == m1 * (Y2 + X2) + m2 * (Y1 + X1)
  {
    Distribute(p, q, p, q);
    Distribute(r, s, r, s);
    Distribute(p, q, r, s);
    Distribute(Y1, -X1, Y2, -X2);
    Distribute(Y1, X1, Y2, X2);
  }

  lemma SumOfSquares(x: int, y: int, m: int, u: int, v: int)
    requires m == x * y && u == y * y - x * x && v == y * y + x * x
    ensures v * v == u * u + 4 * (m * m)
  {
    assert (x * y) * (x * y) == (x * x) * (y * y);
  }

  lemma LeftSide(A: int, B: int, t: int, d: int, s: int)
    requires A * A - B * B == d && A * A + B * B == s
    ensures (A * (1 + t)) * (A * (1 + t)) - (B * (1 - t)) * (B * (1 - t)) == d * (1 + t * t) + 2 * t * s
  {
    assert (A * (1 + t)) * (A * (1 + t)) == (A * A) * (1 + t * t) + (A * A) * (2 * t);
    assert (B * (1 - t)) * (B * (1 - t)) == (B * B) * (1 + t * t) - (B * B) * (2 * t);
    assert (A * A) * (1 + t * t) - (B * B) * (1 + t * t) == (A * A - B * B) * (1 + t * t);
    assert (A * A) * (2 * t) + (B * B) * (2 * t) == (A * A + B * B) * (2 * t);
  }

  lemma RightSide(m1: int, m2: int, v1: int, v2: int, u1: int, u2: int, a: int, b: int, t: int, d: int, c: int)
    requires v1 * v1 == u1 * u1 + 4 * (m1 * m1) && v2 * v2 == u2 * u2 + 4 * (m2 * m2)
    requires t == d * (m1 * m2) && a == d * (m1 * m1) && b == d * (m2 * m2) && c == m1 * v2 + m2 * v1
    ensures d * (c * c) == a * (u2 * u2) + b * (u1 * u1) + 8 * t * (m1 * m2) + 2 * t * (v1 * v2)
  {
    Distribute(m1 * v2, m2 * v1, m1 * v2, m2 * v1);
    Swap(m1, v2, m1, v2);
    Swap(m2, v1, m2, v1);
    Swap(m1, v2, m2, v1);
    Swap(m2, v1, m1, v2);
    ScaleSum(d, (m1 * m1) * (v2 * v2), (m1 * m2) * (v1 * v2), (m2 * m2) * (v1 * v1), c * c);
    Associate(d, m1 * m1, v2 * v2);
    Associate(d, m1 * m2, v1 * v2);
    Associate(d, m2 * m2, v1 * v1);
    Associate(d, m1 * m1, m2 * m2);
    Associate(d, m2 * m2, m1 * m1);
    Associate(d, m1 * m2, m1 * m2);
    Swap(m1, m2, m1, m2);
    Spread(a, u2 * u2, m2 * m2, v2 * v2);
    Spread(b, u1 * u1, m1 * m1, v1 * v1);
  }

  lemma ScaleSum(d: int, a: int, b: int, c: int, s: int)
    requires s == a + b + b + c
    ensures d * s == d * a + 2 * (d * b) + d * c
  {
  }

  lemma Spread(a: int, u: int, m: int, v: int)
    requires v == u + 4 * m
    ensures a * v == a * u + 4 * (a * m)
  {
  }

  /** From the cleared equation to the equation. */
  lemma Clear(x: int, y: int, p: int, q: int, A: int, B: int, e: int)
    requires IsPrime(P) && !Cong(p * q, 0) && Cong(x * p, B) && Cong(y * q, A) && Cong(e, 0)
    requires (A * p) * (A * p) - (B * q) * (B * q) - (p * q) * (p * q) - D * ((A * B) * (A * B)) == e
    ensures Cong(y * y - x * x, 1 + D * ((x * y) * (x * y)))
  {
    hide Cong, IsPrime;
    var c := (p * q) * (p * q);
    ProductNonzero(p * q, p * q);
    CongScale(y * q, A, p);
    CongMul((y * q) * p, A * p, (y * q) * p, A * p);
    CongScale(x * p, B, q);
    CongMul((x * p) * q, B * q, (x * p) * q, B * q);
    CongMul(y * q, A, x * p, B);
    CongMul((y * q) * (x * p), A * B, (y * q) * (x * p), A * B);
    CongScale(((y * q) * (x * p)) * ((y * q) * (x * p)), (A * B) * (A * B), D);
    ClearTerms(x, y, p, q, c, D);
    ClearCombine((y * y - x * x) * c, ((y * q) * p) * ((y * q) * p), (A * p) * (A * p), ((x * p) * q) * ((x * p) * q),
        (B * q) * (B * q),
                 D * (((y * q) * (x * p)) * ((y * q) * (x * p))), D * ((A * B) * (A * B)), c, e);
    Cancel(y * y - x * x, 1 + D * ((x * y) * (x * y)), c);
  }

  lemma ClearTerms(x: int, y: int, p: int, q: int, c: int, d: int)
    requires c == (p * q) * (p * q)
    ensures (y * y - x * x) * c == ((y * q) * p) * ((y * q) * p) - ((x * p) * q) * ((x * p) * q)
    ensures (1 + d * ((x * y) * (x * y))) * c == c + d * (((y * q) * (x * p)) * ((y * q) * (x * p)))
  {
    var s := p * q;
    Associate(y, q, p);
    Associate(x, p, q);
    Swap(y, q, x, p);
    Swap(y, s, y, s);
    Swap(x, s, x, s);
    Swap(x * y, s, x * y, s);
    Associate(d, (x * y) * (x * y), c);
    Distribute(y * y, -(x * x), c, 0);
    Distribute(1, d * ((x * y) * (x * y)), c, 0);
  }

  lemma ClearCombine(l: int, f1: int, g1: int, f2: int, g2: int, f3: int, g3: int, c: int, e: int)
    requires l == f1 - f2 && Cong(f1, g1) && Cong(f2, g2) && Cong(f3, g3) && Cong(e, 0)
    requires g1 - g2 - c - g3 == e
    ensures Cong(l, c + f3)
  {
    hide Cong;
    CongAdd(f1, g1, f2, g2);
    CongSym(f3, g3);
    CongAdd(g3, f3, e, 0);
    CongRefl(c);
    CongAdd(c, c, g3 + e, f3);
    CongTrans(l, g1 - g2, c + f3);
  }
}
