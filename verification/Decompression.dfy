/** Points as 32-byte numbers, and the square root by which a point is found again from its y
    coordinate (sections 5.1.2 and 5.1.3 of RFC 8032), over the integers modulo P. */
module Decompression {
  import opened Rings
  import opened Field
  import opened PrimeField
  import opened Edwards
  import opened EdwardsGroup

  /** The number whose 32 little-endian bytes encode p: y, with the parity of x in bit 255. */
  function Encoding(p: Point): int {
    p.y + 0x8000_0000_0000_0000_0000_0000_0000_0000_0000_0000_0000_0000_0000_0000_0000_0000 * (p.x % 2)
  }

  // The curve equation solved for x^2: (d y^2 + 1) x^2 = y^2 - 1 ------------------------------------

  ghost predicate Solves(x: int, y: int, d: int) {
    Cong((y * y * d + 1) * (x * x), y * y - 1)
  }

  /** x is the x coordinate of a point with the given y: as with OnCurve, for every d that is D. */
  ghost predicate Root(x: int, y: int) {
    forall d :: IsD(d) ==> Solves(x, y, d)
  }

  lemma RootEquation(x: int, y: int)
    ensures Root(x, y) <==> Cong((y * y * D + 1) * (x * x), y * y - 1)
  {
    hide Cong;
    assert Root(x, y) && IsD(D) ==> Solves(x, y, D);
  }

  lemma RootOnCurve(x: int, y: int)
    requires 0 <= x < P && 0 <= y < P
    ensures Root(x, y) <==> OnCurve(Point(x, y))
  {
    hide Cong, Root, OnCurve;
    Equation(Point(x, y));
    RootEquation(x, y);
    var l, r, c := y * y - x * x, 1 + D * Square(x * y), (y * y * D + 1) * (x * x);
    RootTerms(x, y, D);
    if Cong(c, y * y - 1) {
      var k := CongElim(c, y * y - 1);
      CongIntro(l, r, -k);
    }
    if Cong(l, r) {
      var k := CongElim(l, r);
      CongIntro(c, y * y - 1, -k);
    }
  }

  lemma RootTerms(x: int, y: int, d: int)
    ensures (y * y * d + 1) * (x * x) - (y * y - 1) == (1 + d * ((x * y) * (x * y))) - (y * y - x * x)
  {
    Swap(x, y, x, y);
    Commute(x * x, y * y);
    Associate(d, y * y, x * x);
    Commute(d, y * y);
    Distribute(y * y * d, 1, x * x, 0);
  }

  /** The factor of x^2 does not vanish. */
  lemma DenominatorNotZero(y: int)
    requires IsPrime(P) && DIsNonSquare()
    ensures !Cong(y * y * D + 1, 0)
  {
    hide Cong, IsPrime, DIsNonSquare;
    if Cong(y * y * D + 1, 0) {
      SqrtM1();
      var b := RootFromZero(y, SQRT_M1, D);
      CongSym(D * (b * b), 1);
      if Cong(b, 0) {
        CongMul(b, 0, b, 0);
        CongScale(b * b, 0, D);
        CongTrans(1, D * (b * b), 0);
        CongRefl(1);
        UnitNotZero(1, 1);
      }
      var s := SquareRatio(1, b, D);
      NonSquare(s);
    }
  }

  /** From a zero of the factor: d times the square of i y would be 1. */
  lemma RootFromZero(y: int, i: int, d: int) returns (b: int)
    requires Cong(y * y * d + 1, 0) && Cong(i * i, -1)
    ensures Cong(d * (b * b), 1)
  {
    hide Cong;
    b := i * y;
    CongScale(i * i, -1, y * y);
    Swap(i, y, i, y);
    CongScale(b * b, -1 * (y * y), d);
    NegatedSquare(y, d);
    var x := y * y * d;
    var k := CongElim(x + 1, 0);
    CongIntro(-x, 1, -k);
    CongTrans(d * (b * b), -x, 1);
  }

  lemma NegatedSquare(y: int, d: int)
    ensures d * (-1 * (y * y)) == -(y * y * d)
  {
    assert -1 * (y * y) == -(y * y);
    Commute(d, y * y);
  }

  lemma RootCong(x: int, x': int, y: int, y': int)
    requires Root(x, y) && Cong(x, x') && Cong(y, y')
    ensures Root(x', y')
  {
    hide Cong, Root;
    RootEquation(x, y);
    RootEquation(x', y');
    CongMul(x, x', x, x');
    CongMul(y, y', y, y');
    CongScale(y * y, y' * y', D);
    CongRefl(1);
    CongAdd(y * y * D, y' * y' * D, 1, 1);
    CongMul(y * y * D + 1, y' * y' * D + 1, x * x, x' * x');
    CongAdd(y * y, y' * y', 1, 1);
    CongSym((y * y * D + 1) * (x * x), (y' * y' * D + 1) * (x' * x'));
    CongTrans((y' * y' * D + 1) * (x' * x'), (y * y * D + 1) * (x * x), y * y - 1);
    CongTrans((y' * y' * D + 1) * (x' * x'), y * y - 1, y' * y' - 1);
  }

  /** Two x coordinates that belong to the same y differ at most in sign. */
  lemma RootsDiffer(x: int, x': int, y: int)
    requires IsPrime(P) && DIsNonSquare() && Root(x, y) && Root(x', y)
    ensures Cong(x, x') || Cong(x, -x')
  {
    hide Cong, IsPrime, DIsNonSquare, Root;
    RootEquation(x, y);
    RootEquation(x', y);
    DenominatorNotZero(y);
    var v, u := y * y * D + 1, y * y - 1;
    CongSym(v * (x' * x'), u);
    CongTrans(v * (x * x), u, v * (x' * x'));
    Commute(v, x * x);
    Commute(v, x' * x');
    Cancel(x * x, x' * x', v);
    SquareRoots(x, x');
  }

  lemma SquareRoots(a: int, b: int)
    requires IsPrime(P) && Cong(a * a, b * b)
    ensures Cong(a, b) || Cong(a, -b)
  {
    hide Cong, IsPrime;
    var k := CongElim(a * a, b * b);
    DifferenceOfSquares(a, b);
    CongIntro((a - b) * (a + b), 0, k);
    NoZeroDivisors(a - b, a + b);
    if Cong(a - b, 0) {
      var l := CongElim(a - b, 0);
      CongIntro(a, b, l);
    } else {
      var l := CongElim(a + b, 0);
      CongIntro(a, -b, l);
    }
  }

  lemma DifferenceOfSquares(a: int, b: int)
    ensures (a - b) * (a + b) == a * a - b * b
  {
  }

  /** The other point with the same y has the other parity, unless x is 0. */
  lemma OppositeParity(x: int)
    requires 0 < x < P
    ensures Residue(-x) == P - x && Residue(-x) % 2 != x % 2
  {
    hide Cong, Residue;
    CongIntro(-x, P - x, -1);
    ResidueUnique(-x, P - x);
  }

  lemma SameY(p: Point, q: Point)
    requires IsPrime(P) && DIsNonSquare() && OnCurve(p) && OnCurve(q) && p.y == q.y
    ensures p == q || p == Neg(q)
  {
    hide Cong, IsPrime, DIsNonSquare, Residue, Root;
    assert 0 <= p.x < P && 0 <= q.x < P && 0 <= p.y < P;
    RootOnCurve(p.x, p.y);
    RootOnCurve(q.x, p.y);
    hide OnCurve;
    RootsDiffer(p.x, q.x, p.y);
    CongRefl(p.x);
    ResidueUnique(p.x, p.x);
    if Cong(p.x, q.x) {
      ResidueUnique(p.x, q.x);
    } else {
      CongResidue(p.x, -q.x);
    }
  }

  lemma SplitEncoding(y: int, b: int, z: int, c: int)
    requires 0 <= y < P && 0 <= z < P && (b == 0 || b == 1) && (c == 0 || c == 1)
    requires y + 0x8000_0000_0000_0000_0000_0000_0000_0000_0000_0000_0000_0000_0000_0000_0000_0000 * b
      == z + 0x8000_0000_0000_0000_0000_0000_0000_0000_0000_0000_0000_0000_0000_0000_0000_0000 * c
    ensures y == z && b == c
  {
    PrimeNumber(0);
  }

  /** The encoding of a point determines the point. */
  lemma EncodingInjective(p: Point, q: Point)
    requires IsPrime(P) && DIsNonSquare() && OnCurve(p) && OnCurve(q) && Encoding(p) == Encoding(q)
    ensures p == q
  {
    hide Cong, IsPrime, DIsNonSquare, Residue;
    assert 0 <= p.y < P && 0 <= q.y < P && 0 <= q.x < P;
    hide OnCurve;
    SplitEncoding(p.y, p.x % 2, q.y, q.x % 2);
    SameY(p, q);
    if p != q {
      if q.x == 0 {
        CongRefl(0);
        ResidueUnique(-q.x, 0);
      } else {
        OppositeParity(q.x);
      }
    }
  }

  // The square root --------------------------------------------------------------------------------

  /** w^((P-1)/4) for w = u v^7, through which the candidate root b = u v^3 w^((P-5)/8) is judged */
  lemma Candidate(u: int, v: int, w: int, r: int, b: int, n: nat)
    requires w == u * Seventh(v) && r == Pow(w, n) && b == (r * ((v * v) * v)) * u
    ensures (b * b) * v == u * Pow(w, 2 * n + 1)
  {
    PowAdd(w, n, n);
    PowStep(w, 2 * n + 1);
    hide Pow;
    var v3 := (v * v) * v;
    var m := v3 * v3 * v;
    assert (b * b) * v == u * ((r * r) * w) by { CandidateTerms(u, v, v3, m, r, b, w); }
  }

  lemma CandidateTerms(u: int, v: int, v3: int, m: int, r: int, b: int, w: int)
    requires m == v3 * v3 * v && w == u * m && b == (r * v3) * u
    ensures (b * b) * v == u * ((r * r) * w)
  {
    Swap(r * v3, u, r * v3, u);
    Swap(r, v3, r, v3);
    // b b v = ((r r) (v3 v3)) (u u) v
    MoveFactor(r * r, v3 * v3, u, v, m);
  }

  lemma MoveFactor(s: int, t: int, u: int, v: int, m: int)
    requires m == t * v
    ensures ((s * t) * (u * u)) * v == u * (s * (u * m))
  {
    assert ((s * t) * (u * u)) * v == s * (u * (u * (t * v))) by {
      Associate(s * t, u * u, v);
      Associate(s, t, (u * u) * v);
      Associate(u * u, v, t);
      Commute(t, (u * u) * v);
      Commute(v, t);
      Associate(u, u, t * v);
    }
    Associate(s, u, u * m);
    Commute(s, u);
    Associate(u, s, u * m);
  }

  /** A candidate whose square, times v, is u is a root; if it is -u, sqrt(-1) times the candidate is. */
  lemma CandidateAccepted(y: int, b: int)
    requires Cong((b * b) * (y * y * D + 1), y * y - 1) || Cong((b * b) * (y * y * D + 1), -(y * y - 1))
    ensures Cong((b * b) * (y * y * D + 1), y * y - 1) ==> Root(b, y)
    ensures Cong((b * b) * (y * y * D + 1), -(y * y - 1)) ==> Root(b * SQRT_M1, y)
  {
    hide Cong, Root;
    RootEquation(b, y);
    RootEquation(b * SQRT_M1, y);
    var v, u := y * y * D + 1, y * y - 1;
    Commute(b * b, v);
    if Cong(v * (b * b), -u) {
      SqrtM1();
      Swap(b, SQRT_M1, b, SQRT_M1);
      CongScale(SQRT_M1 * SQRT_M1, -1, b * b);
      CongScale((b * b) * (SQRT_M1 * SQRT_M1), (b * b) * -1, v);
      NegateFactor(v, b * b);
      CongNegate(v * (b * b), -u);
      CongTrans(v * ((b * SQRT_M1) * (b * SQRT_M1)), -(v * (b * b)), u);
    }
  }

  lemma NegateFactor(v: int, c: int)
    ensures v * (c * -1) == -(v * c)
  {
  }

  /** When the y coordinate belongs to a point, the candidate squared is u or -u. */
  lemma CandidateWorks(x: int, u: int, v: int, w: int, n: nat)
    requires IsPrime(P) && Cong(v * (x * x), u) && !Cong(v, 0) && 8 * n + 4 == P - 1
    requires w == u * Seventh(v)
    ensures Cong(u * Pow(w, 2 * n + 1), u) || Cong(u * Pow(w, 2 * n + 1), -u)
  {
    hide Cong, IsPrime, Pow, Seventh;
    var c := Pow(w, 2 * n + 1);
    if Cong(u, 0) {
      CongScale(u, 0, c);
      CongSym(u, 0);
      CongTrans(u * c, 0, u);
    } else {
      SeventhNotZero(v);
      ProductNonzero(u, Seventh(v));
      var z := SquareForm(x, u, v, w);
      CharacterSquare(w, z, n);
      SquareRoots(c, 1);
      if Cong(c, 1) {
        CongScale(c, 1, u);
      } else {
        CongScale(c, -1, u);
      }
    }
  }

  /** v^7, as ge.c multiplies it up */
  function Seventh(v: int): int {
    ((v * v) * v) * ((v * v) * v) * v
  }

  lemma SeventhNotZero(v: int)
    requires IsPrime(P) && !Cong(v, 0)
    ensures !Cong(Seventh(v), 0)
  {
    hide Cong, IsPrime;
    ProductNonzero(v, v);
    ProductNonzero(v * v, v);
    ProductNonzero((v * v) * v, (v * v) * v);
    ProductNonzero(((v * v) * v) * ((v * v) * v), v);
  }

  /** If u = v x^2 then u v^7 is a square. */
  lemma SquareForm(x: int, u: int, v: int, w: int) returns (z: int)
    requires Cong(v * (x * x), u) && w == u * Seventh(v)
    ensures Cong(z * z, w)
  {
    hide Cong;
    var m := Seventh(v);
    z := ((v * v) * (v * v)) * x;
    EighthPower(v, v * v, m, x, z);
    hide Seventh;
    CongScale(v * (x * x), u, m);
  }

  lemma EighthPower(v: int, s: int, m: int, x: int, z: int)
    requires s == v * v && m == (s * v) * (s * v) * v && z == (s * s) * x
    ensures z * z == (v * (x * x)) * m
  {
    Swap(s * s, x, s * s, x);
    Swap(s, v, s, v);
    // m = (s s) s v and (s s) (s s) = v m
    Associate(s * s, s, v);
    Associate(v, s * s * s, v);
    Commute(v, s * s * s);
    Associate(s * s * s, v, v);
    Associate(s * s, s, s);
    Swap(v, x * x, m, 1);
    assert z * z == ((s * s) * (s * s)) * (x * x);
    assert (s * s) * (s * s) == (s * s * s) * s;
    assert v * m == (s * s * s) * s;
  }

  lemma CharacterSquare(w: int, z: int, n: nat)
    requires IsPrime(P) && Cong(z * z, w) && 8 * n + 4 == P - 1 && !Cong(w, 0)
    ensures Cong(Pow(w, 2 * n + 1) * Pow(w, 2 * n + 1), 1 * 1)
  {
    hide Cong, IsPrime, Pow;
    var k := 2 * n + 1;
    if Cong(z, 0) {
      CongMul(z, 0, z, 0);
      CongSym(z * z, w);
      CongTrans(w, z * z, 0);
    }
    PowCong(z * z, w, k);
    PowProduct(z, z, k);
    PowAdd(z, k, k);
    CongMul(Pow(z, k + k), Pow(w, k), Pow(z, k + k), Pow(w, k));
    PowAdd(z, k + k, k + k);
    Fermat(z);
    CongSym(Pow(z, P - 1), Pow(w, k) * Pow(w, k));
    CongTrans(Pow(w, k) * Pow(w, k), Pow(z, P - 1), 1);
  }
}
