/** native/common/ed25519_orlp/src/ge.c: points as limb arrays, the point formulas and the conversions. */
module Ge {
  import opened Ints
  import opened Field
  import opened Edwards
  import opened EdwardsGroup
  import opened Coordinates
  import opened Limbs
  import opened Fe
  import opened FeSteps

  class GeP2 {
    const X: array<int32>
    const Y: array<int32>
    const Z: array<int32>

    constructor ()
      ensures Valid() && fresh(X) && fresh(Y) && fresh(Z)
    {
      X, Y, Z := new int32[10], new int32[10], new int32[10];
    }

    ghost predicate Valid() {
      X.Length == Y.Length == Z.Length == 10 && X != Y && X != Z && Y != Z
    }

    predicate Apart(a: array<int32>) {
      a != X && a != Y && a != Z
    }

    ghost predicate Is(p: Point)
      reads X, Y, Z
    {
      && Valid() && Element(X, 1) && Element(Y, 1) && Element(Z, 1)
      && Projective(Val(X), Val(Y), Val(Z), p)
    }
  }

  class GeP3 {
    const X: array<int32>
    const Y: array<int32>
    const Z: array<int32>
    const T: array<int32>

    constructor ()
      ensures Valid() && fresh(X) && fresh(Y) && fresh(Z) && fresh(T)
    {
      X, Y, Z, T := new int32[10], new int32[10], new int32[10], new int32[10];
    }

    ghost predicate Valid() {
      && X.Length == Y.Length == Z.Length == T.Length == 10
      && X != Y && X != Z && X != T && Y != Z && Y != T && Z != T
    }

    predicate Apart(a: array<int32>) {
      a != X && a != Y && a != Z && a != T
    }

    ghost predicate Is(p: Point)
      reads X, Y, Z, T
    {
      && Valid() && Element(X, 1) && Element(Y, 1) && Element(Z, 1) && Element(T, 1)
      && Extended(Val(X), Val(Y), Val(Z), Val(T), p)
    }
  }

  class GeP1P1 {
    const X: array<int32>
    const Y: array<int32>
    const Z: array<int32>
    const T: array<int32>

    constructor ()
      ensures Valid() && fresh(X) && fresh(Y) && fresh(Z) && fresh(T)
    {
      X, Y, Z, T := new int32[10], new int32[10], new int32[10], new int32[10];
    }

    ghost predicate Valid() {
      && X.Length == Y.Length == Z.Length == T.Length == 10
      && X != Y && X != Z && X != T && Y != Z && Y != T && Z != T
    }

    predicate Apart(a: array<int32>) {
      a != X && a != Y && a != Z && a != T
    }

    ghost predicate Is(p: Point)
      reads X, Y, Z, T
    {
      && Valid() && Element(X, 3) && Element(Y, 3) && Element(Z, 3) && Element(T, 3)
      && Completed(Val(X), Val(Y), Val(Z), Val(T), p)
    }
  }

  class GeCached {
    const YplusX: array<int32>
    const YminusX: array<int32>
    const Z: array<int32>
    const T2d: array<int32>

    constructor ()
      ensures Valid() && fresh(YplusX) && fresh(YminusX) && fresh(Z) && fresh(T2d)
    {
      YplusX, YminusX, Z, T2d := new int32[10], new int32[10], new int32[10], new int32[10];
    }

    ghost predicate Valid() {
      && YplusX.Length == YminusX.Length == Z.Length == T2d.Length == 10
      && YplusX != YminusX && YplusX != Z && YplusX != T2d && YminusX != Z && YminusX != T2d && Z != T2d
    }

    predicate Apart(a: array<int32>) {
      a != YplusX && a != YminusX && a != Z && a != T2d
    }

    ghost predicate Is(p: Point)
      reads YplusX, YminusX, Z, T2d
    {
      && Valid() && Element(YplusX, 2) && Element(YminusX, 2) && Element(Z, 1) && Element(T2d, 1)
      && Cached(Val(YplusX), Val(YminusX), Val(Z), Val(T2d), p)
    }
  }

  class GePrecomp {
    const yplusx: array<int32>
    const yminusx: array<int32>
    const xy2d: array<int32>

    constructor ()
      ensures Valid() && fresh(yplusx) && fresh(yminusx) && fresh(xy2d)
    {
      yplusx, yminusx, xy2d := new int32[10], new int32[10], new int32[10];
    }

    ghost predicate Valid() {
      yplusx.Length == yminusx.Length == xy2d.Length == 10 && yplusx != yminusx && yplusx != xy2d && yminusx != xy2d
    }

    predicate Apart(a: array<int32>) {
      a != yplusx && a != yminusx && a != xy2d
    }

    ghost predicate Is(p: Point)
      reads yplusx, yminusx, xy2d
    {
      && Valid() && Element(yplusx, 2) && Element(yminusx, 2) && Element(xy2d, 2)
      && Cached(Val(yplusx), Val(yminusx), 1, Val(xy2d), p)
    }
  }

  // The constants of the source --------------------------------------------------------------------

  const D_LIMBS: seq<int32> := [-10913610, 13857413, -15372611, 6949391, 114729, -8787816, -6275908, -3247719,
    -18696448, -12055116]

  const D2_LIMBS: seq<int32> := [-21827239, -5839606, -30745221, 13898782, 229458, 15978800, -12551817, -6495438,
    29715968, 9444199]

  lemma ConstantD()
    ensures Within(D_LIMBS, MUL_OUT_EVEN, MUL_OUT_ODD) && Cong(V(D_LIMBS), D)
  {
    hide V;
    VExplicit(D_LIMBS);
    PrimeNumber(-1);
    CongIntro(V(D_LIMBS), D, -1);
  }

  lemma ConstantD2()
    ensures Within(D2_LIMBS, MUL_OUT_EVEN, MUL_OUT_ODD) && Cong(V(D2_LIMBS), 2 * D)
  {
    hide V;
    VExplicit(D2_LIMBS);
    PrimeNumber(-1);
    CongIntro(V(D2_LIMBS), 2 * D, -1);
  }

  // Addition and subtraction -----------------------------------------------------------------------

  /** The last steps of ge_add and ge_madd, from the three products in r and twice the fourth in t0 */
  method FinishSum(r: GeP1P1, t0: array<int32>, ghost a: int, ghost b: int, ghost w: int, ghost c: int)
    requires r.Valid() && t0 != r.X && t0 != r.Y && t0 != r.Z && t0 != r.T
    requires Stands(r.Z, a, 1) && Stands(r.Y, b, 1) && Stands(r.T, c, 1) && Stands(t0, w + w, 2)
    modifies r.X, r.Y, r.Z, r.T
    ensures Element(r.X, 3) && Element(r.Y, 3) && Element(r.Z, 3) && Element(r.T, 3)
    ensures Cong(Val(r.X), a - b) && Cong(Val(r.Y), a + b) && Cong(Val(r.Z), w + w + c) && Cong(Val(r.T), w + w - c)
  {
    hide Stands, Element, Cong, Val;
    Minus(r.X, r.Z, r.Y, a, b, 1, 1);
    Plus(r.Y, r.Z, r.Y, a, b, 1, 1);
    Plus(r.Z, t0, r.T, w + w, c, 2, 1);
    Minus(r.T, t0, r.T, w + w, c, 2, 1);
    Sums(r, a - b, a + b, w + w + c, w + w - c);
  }

  /** The last steps of ge_sub and ge_msub */
  method FinishDifference(r: GeP1P1, t0: array<int32>, ghost a: int, ghost b: int, ghost w: int, ghost c: int)
    requires r.Valid() && t0 != r.X && t0 != r.Y && t0 != r.Z && t0 != r.T
    requires Stands(r.Z, a, 1) && Stands(r.Y, b, 1) && Stands(r.T, c, 1) && Stands(t0, w + w, 2)
    modifies r.X, r.Y, r.Z, r.T
    ensures Element(r.X, 3) && Element(r.Y, 3) && Element(r.Z, 3) && Element(r.T, 3)
    ensures Cong(Val(r.X), a - b) && Cong(Val(r.Y), a + b) && Cong(Val(r.Z), w + w - c) && Cong(Val(r.T), w + w + c)
  {
    hide Stands, Element, Cong, Val;
    Minus(r.X, r.Z, r.Y, a, b, 1, 1);
    Plus(r.Y, r.Z, r.Y, a, b, 1, 1);
    Minus(r.Z, t0, r.T, w + w, c, 2, 1);
    Plus(r.T, t0, r.T, w + w, c, 2, 1);
    Sums(r, a - b, a + b, w + w - c, w + w + c);
  }

  lemma Sums(r: GeP1P1, x: int, y: int, z: int, t: int)
    requires Stands(r.X, x, 2) && Stands(r.Y, y, 2) && Stands(r.Z, z, 3) && Stands(r.T, t, 3)
    ensures Element(r.X, 3) && Element(r.Y, 3) && Element(r.Z, 3) && Element(r.T, 3)
    ensures Cong(Val(r.X), x) && Cong(Val(r.Y), y) && Cong(Val(r.Z), z) && Cong(Val(r.T), t)
  {
    hide *;
    StandsFor(r.X, x, 2);
    StandsFor(r.Y, y, 2);
    StandsFor(r.Z, z, 3);
    StandsFor(r.T, t, 3);
    ElementMore(r.X);
    ElementMore(r.Y);
  }

  lemma ElementMore(a: array<int32>)
    requires Element(a, 2)
    ensures Element(a, 3)
  {
    hide Within;
    WithinMore(a[..], 2 * MUL_OUT_EVEN, 2 * MUL_OUT_ODD, 3 * MUL_OUT_EVEN, 3 * MUL_OUT_ODD);
  }

  lemma AddProducts(X1: int, Y1: int, Z1: int, T1: int, p: Point, S: int, M: int, Z2: int, K: int, q: Point,
                    X: int, Y: int, Z: int, T: int)
    requires CurveFacts() && Extended(X1, Y1, Z1, T1, p) && Cached(S, M, Z2, K, q)
    requires Cong(X, Prod(Y1 + X1, S) - Prod(Y1 - X1, M)) && Cong(Y, Prod(Y1 + X1, S) + Prod(Y1 - X1, M))
    requires Cong(Z, Prod(Z1, Z2) + Prod(Z1, Z2) + Prod(K, T1)) && Cong(T, Prod(Z1, Z2) + Prod(Z1, Z2) - Prod(K, T1))
    ensures Completed(X, Y, Z, T, Add(p, q))
  {
    hide CurveFacts, Extended, Cached, Completed, Add, Cong;
    AddFormulas(X1, Y1, Z1, T1, p, S, M, Z2, K, q, X, Y, Z, T);
  }

  lemma SubProducts(X1: int, Y1: int, Z1: int, T1: int, p: Point, S: int, M: int, Z2: int, K: int, q: Point,
                    X: int, Y: int, Z: int, T: int)
    requires CurveFacts() && Extended(X1, Y1, Z1, T1, p) && Cached(S, M, Z2, K, q)
    requires Cong(X, Prod(Y1 + X1, M) - Prod(Y1 - X1, S)) && Cong(Y, Prod(Y1 + X1, M) + Prod(Y1 - X1, S))
    requires Cong(Z, Prod(Z1, Z2) + Prod(Z1, Z2) - Prod(K, T1)) && Cong(T, Prod(Z1, Z2) + Prod(Z1, Z2) + Prod(K, T1))
    ensures Completed(X, Y, Z, T, Add(p, Neg(q)))
  {
    hide CurveFacts, Extended, Cached, Completed, Add, Neg, Cong;
    SubFormulas(X1, Y1, Z1, T1, p, S, M, Z2, K, q, X, Y, Z, T);
  }

  lemma ProdOne(z: int)
    ensures Prod(z, 1) == z
  {
  }

  /** Adds a cached point to an extended one. */
  method GeAdd(r: GeP1P1, p: GeP3, q: GeCached, ghost pp: Point, ghost qp: Point)
    requires CurveFacts() && r.Valid() && p.Is(pp) && q.Is(qp)
    requires p.Apart(r.X) && p.Apart(r.Y) && p.Apart(r.Z) && p.Apart(r.T)
    requires q.Apart(r.X) && q.Apart(r.Y) && q.Apart(r.Z) && q.Apart(r.T)
    modifies r.X, r.Y, r.Z, r.T
    ensures r.Is(Add(pp, qp))
  {
    hide CurveFacts, Extended, Cached, Completed, Element, Val, Add, Neg, Stands, Prod, Cong;
    var t0 := new int32[10];
    ghost var X1, Y1, Z1, T1 := Val(p.X), Val(p.Y), Val(p.Z), Val(p.T);
    ghost var S, M, Z2, K := Val(q.YplusX), Val(q.YminusX), Val(q.Z), Val(q.T2d);
    StandsForItself(p.X, 1); StandsForItself(p.Y, 1); StandsForItself(p.Z, 1); StandsForItself(p.T, 1);
    StandsForItself(q.YplusX, 2); StandsForItself(q.YminusX, 2); StandsForItself(q.Z, 1); StandsForItself(q.T2d, 1);
    ghost var a, b, c, w := Prod(Y1 + X1, S), Prod(Y1 - X1, M), Prod(K, T1), Prod(Z1, Z2);
    Plus(r.X, p.Y, p.X, Y1, X1, 1, 1);
    Minus(r.Y, p.Y, p.X, Y1, X1, 1, 1);
    Mul(r.Z, r.X, q.YplusX, Y1 + X1, S, 2, 2);
    Mul(r.Y, r.Y, q.YminusX, Y1 - X1, M, 2, 2);
    Mul(r.T, q.T2d, p.T, K, T1, 1, 1);
    Mul(r.X, p.Z, q.Z, Z1, Z2, 1, 1);
    Plus(t0, r.X, r.X, w, w, 1, 1);
    FinishSum(r, t0, a, b, w, c);
    AddProducts(X1, Y1, Z1, T1, pp, S, M, Z2, K, qp, Val(r.X), Val(r.Y), Val(r.Z), Val(r.T));
  }

  /** Subtracts a cached point from an extended one. */
  method GeSub(r: GeP1P1, p: GeP3, q: GeCached, ghost pp: Point, ghost qp: Point)
    requires CurveFacts() && r.Valid() && p.Is(pp) && q.Is(qp)
    requires p.Apart(r.X) && p.Apart(r.Y) && p.Apart(r.Z) && p.Apart(r.T)
    requires q.Apart(r.X) && q.Apart(r.Y) && q.Apart(r.Z) && q.Apart(r.T)
    modifies r.X, r.Y, r.Z, r.T
    ensures r.Is(Add(pp, Neg(qp)))
  {
    hide CurveFacts, Extended, Cached, Completed, Element, Val, Add, Neg, Stands, Prod, Cong;
    var t0 := new int32[10];
    ghost var X1, Y1, Z1, T1 := Val(p.X), Val(p.Y), Val(p.Z), Val(p.T);
    ghost var S, M, Z2, K := Val(q.YplusX), Val(q.YminusX), Val(q.Z), Val(q.T2d);
    StandsForItself(p.X, 1); StandsForItself(p.Y, 1); StandsForItself(p.Z, 1); StandsForItself(p.T, 1);
    StandsForItself(q.YplusX, 2); StandsForItself(q.YminusX, 2); StandsForItself(q.Z, 1); StandsForItself(q.T2d, 1);
    ghost var a, b, c, w := Prod(Y1 + X1, M), Prod(Y1 - X1, S), Prod(K, T1), Prod(Z1, Z2);
    Plus(r.X, p.Y, p.X, Y1, X1, 1, 1);
    Minus(r.Y, p.Y, p.X, Y1, X1, 1, 1);
    Mul(r.Z, r.X, q.YminusX, Y1 + X1, M, 2, 2);
    Mul(r.Y, r.Y, q.YplusX, Y1 - X1, S, 2, 2);
    Mul(r.T, q.T2d, p.T, K, T1, 1, 1);
    Mul(r.X, p.Z, q.Z, Z1, Z2, 1, 1);
    Plus(t0, r.X, r.X, w, w, 1, 1);
    FinishDifference(r, t0, a, b, w, c);
    SubProducts(X1, Y1, Z1, T1, pp, S, M, Z2, K, qp, Val(r.X), Val(r.Y), Val(r.Z), Val(r.T));
  }

  /** Adds a point of a table to an extended one. */
  method GeMadd(r: GeP1P1, p: GeP3, q: GePrecomp, ghost pp: Point, ghost qp: Point)
    requires CurveFacts() && r.Valid() && p.Is(pp) && q.Is(qp)
    requires p.Apart(r.X) && p.Apart(r.Y) && p.Apart(r.Z) && p.Apart(r.T)
    requires q.Apart(r.X) && q.Apart(r.Y) && q.Apart(r.Z) && q.Apart(r.T)
    modifies r.X, r.Y, r.Z, r.T
    ensures r.Is(Add(pp, qp))
  {
    hide CurveFacts, Extended, Cached, Completed, Element, Val, Add, Neg, Stands, Prod, Cong;
    var t0 := new int32[10];
    ghost var X1, Y1, Z1, T1 := Val(p.X), Val(p.Y), Val(p.Z), Val(p.T);
    ghost var S, M, Z2, K := Val(q.yplusx), Val(q.yminusx), 1, Val(q.xy2d);
    StandsForItself(p.X, 1); StandsForItself(p.Y, 1); StandsForItself(p.Z, 1); StandsForItself(p.T, 1);
    StandsForItself(q.yplusx, 2); StandsForItself(q.yminusx, 2); StandsForItself(q.xy2d, 2);
    ghost var a, b, c, w := Prod(Y1 + X1, S), Prod(Y1 - X1, M), Prod(K, T1), Prod(Z1, Z2);
    Plus(r.X, p.Y, p.X, Y1, X1, 1, 1);
    Minus(r.Y, p.Y, p.X, Y1, X1, 1, 1);
    Mul(r.Z, r.X, q.yplusx, Y1 + X1, S, 2, 2);
    Mul(r.Y, r.Y, q.yminusx, Y1 - X1, M, 2, 2);
    Mul(r.T, q.xy2d, p.T, K, T1, 2, 1);
    ProdOne(Z1);
    Plus(t0, p.Z, p.Z, w, w, 1, 1);
    FinishSum(r, t0, a, b, w, c);
    AddProducts(X1, Y1, Z1, T1, pp, S, M, Z2, K, qp, Val(r.X), Val(r.Y), Val(r.Z), Val(r.T));
  }

  /** Subtracts a point of a table from an extended one. */
  method GeMsub(r: GeP1P1, p: GeP3, q: GePrecomp, ghost pp: Point, ghost qp: Point)
    requires CurveFacts() && r.Valid() && p.Is(pp) && q.Is(qp)
    requires p.Apart(r.X) && p.Apart(r.Y) && p.Apart(r.Z) && p.Apart(r.T)
    requires q.Apart(r.X) && q.Apart(r.Y) && q.Apart(r.Z) && q.Apart(r.T)
    modifies r.X, r.Y, r.Z, r.T
    ensures r.Is(Add(pp, Neg(qp)))
  {
    hide CurveFacts, Extended, Cached, Completed, Element, Val, Add, Neg, Stands, Prod, Cong;
    var t0 := new int32[10];
    ghost var X1, Y1, Z1, T1 := Val(p.X), Val(p.Y), Val(p.Z), Val(p.T);
    ghost var S, M, Z2, K := Val(q.yplusx), Val(q.yminusx), 1, Val(q.xy2d);
    StandsForItself(p.X, 1); StandsForItself(p.Y, 1); StandsForItself(p.Z, 1); StandsForItself(p.T, 1);
    StandsForItself(q.yplusx, 2); StandsForItself(q.yminusx, 2); StandsForItself(q.xy2d, 2);
    ghost var a, b, c, w := Prod(Y1 + X1, M), Prod(Y1 - X1, S), Prod(K, T1), Prod(Z1, Z2);
    Plus(r.X, p.Y, p.X, Y1, X1, 1, 1);
    Minus(r.Y, p.Y, p.X, Y1, X1, 1, 1);
    Mul(r.Z, r.X, q.yminusx, Y1 + X1, M, 2, 2);
    Mul(r.Y, r.Y, q.yplusx, Y1 - X1, S, 2, 2);
    Mul(r.T, q.xy2d, p.T, K, T1, 2, 1);
    ProdOne(Z1);
    Plus(t0, p.Z, p.Z, w, w, 1, 1);
    FinishDifference(r, t0, a, b, w, c);
    SubProducts(X1, Y1, Z1, T1, pp, S, M, Z2, K, qp, Val(r.X), Val(r.Y), Val(r.Z), Val(r.T));
  }

  // Doubling ---------------------------------------------------------------------------------------

  lemma DoubleProducts(X1: int, Y1: int, Z1: int, p: Point, X: int, Y: int, Z: int, T: int)
    requires CurveFacts() && Projective(X1, Y1, Z1, p)
    requires Cong(X, Prod(X1 + Y1, X1 + Y1) - (Prod(Y1, Y1) + Prod(X1, X1))) && Cong(Y, Prod(Y1, Y1) + Prod(X1, X1))
    requires Cong(Z, Prod(Y1, Y1) - Prod(X1, X1)) && Cong(T, 2 * Prod(Z1, Z1) - (Prod(Y1, Y1) - Prod(X1, X1)))
    ensures Completed(X, Y, Z, T, Add(p, p))
  {
    hide CurveFacts, Projective, Completed, Add, Cong;
    DoubleFormulas(X1, Y1, Z1, p, X, Y, Z, T);
  }

  lemma DoubleSums(r: GeP1P1, x: int, y: int, z: int, t: int)
    requires Stands(r.X, x, 3) && Stands(r.Y, y, 2) && Stands(r.Z, z, 2) && Stands(r.T, t, 3)
    ensures Element(r.X, 3) && Element(r.Y, 3) && Element(r.Z, 3) && Element(r.T, 3)
    ensures Cong(Val(r.X), x) && Cong(Val(r.Y), y) && Cong(Val(r.Z), z) && Cong(Val(r.T), t)
  {
    hide *;
    StandsFor(r.X, x, 3);
    StandsFor(r.Y, y, 2);
    StandsFor(r.Z, z, 2);
    StandsFor(r.T, t, 3);
    ElementMore(r.Y);
    ElementMore(r.Z);
  }

  /** Doubles a projective point. */
  method GeP2Dbl(r: GeP1P1, p: GeP2, ghost pp: Point)
    requires CurveFacts() && r.Valid() && p.Is(pp)
    requires p.Apart(r.X) && p.Apart(r.Y) && p.Apart(r.Z) && p.Apart(r.T)
    modifies r.X, r.Y, r.Z, r.T
    ensures r.Is(Add(pp, pp))
  {
    hide CurveFacts, Projective, Completed, Element, Val, Add, Stands, Prod, Cong;
    var t0 := new int32[10];
    ghost var X1, Y1, Z1 := Val(p.X), Val(p.Y), Val(p.Z);
    StandsForItself(p.X, 1); StandsForItself(p.Y, 1); StandsForItself(p.Z, 1);
    ghost var xx, yy, zz, s := Prod(X1, X1), Prod(Y1, Y1), Prod(Z1, Z1), Prod(X1 + Y1, X1 + Y1);
    Sq(r.X, p.X, X1, 1);
    Sq(r.Z, p.Y, Y1, 1);
    Sq2(r.T, p.Z, Z1, 1);
    Plus(r.Y, p.X, p.Y, X1, Y1, 1, 1);
    Sq(t0, r.Y, X1 + Y1, 2);
    Plus(r.Y, r.Z, r.X, yy, xx, 1, 1);
    Minus(r.Z, r.Z, r.X, yy, xx, 1, 1);
    Minus(r.X, t0, r.Y, s, yy + xx, 1, 2);
    Minus(r.T, r.T, r.Z, 2 * zz, yy - xx, 1, 2);
    DoubleSums(r, s - (yy + xx), yy + xx, yy - xx, 2 * zz - (yy - xx));
    DoubleProducts(X1, Y1, Z1, pp, Val(r.X), Val(r.Y), Val(r.Z), Val(r.T));
  }

  /** Doubles an extended point. */
  method GeP3Dbl(r: GeP1P1, p: GeP3, ghost pp: Point)
    requires CurveFacts() && r.Valid() && p.Is(pp)
    requires p.Apart(r.X) && p.Apart(r.Y) && p.Apart(r.Z) && p.Apart(r.T)
    modifies r.X, r.Y, r.Z, r.T
    ensures r.Is(Add(pp, pp))
  {
    hide CurveFacts, Add, Projective, Extended, Completed, Element, Val;
    var q := new GeP2();
    GeP3ToP2(q, p, pp);
    GeP2Dbl(r, q, pp);
  }

  // Conversions ------------------------------------------------------------------------------------

  method GeP1P1ToP2(r: GeP2, p: GeP1P1, ghost pp: Point)
    requires CurveFacts() && r.Valid() && p.Is(pp)
    requires p.Apart(r.X) && p.Apart(r.Y) && p.Apart(r.Z)
    modifies r.X, r.Y, r.Z
    ensures r.Is(pp)
  {
    hide CurveFacts, Projective, Completed, Element, Val, Stands, Prod;
    ghost var X1, Y1, Z1, T1 := Val(p.X), Val(p.Y), Val(p.Z), Val(p.T);
    StandsForItself(p.X, 3); StandsForItself(p.Y, 3); StandsForItself(p.Z, 3); StandsForItself(p.T, 3);
    Mul(r.X, p.X, p.T, X1, T1, 3, 3);
    Mul(r.Y, p.Y, p.Z, Y1, Z1, 3, 3);
    Mul(r.Z, p.Z, p.T, Z1, T1, 3, 3);
    StandsFor(r.X, Prod(X1, T1), 1); StandsFor(r.Y, Prod(Y1, Z1), 1); StandsFor(r.Z, Prod(Z1, T1), 1);
    Converted(X1, Y1, Z1, T1, pp, Val(r.X), Val(r.Y), Val(r.Z));
  }

  method GeP1P1ToP3(r: GeP3, p: GeP1P1, ghost pp: Point)
    requires CurveFacts() && r.Valid() && p.Is(pp)
    requires p.Apart(r.X) && p.Apart(r.Y) && p.Apart(r.Z) && p.Apart(r.T)
    modifies r.X, r.Y, r.Z, r.T
    ensures r.Is(pp)
  {
    hide CurveFacts, Extended, Projective, Completed, Element, Val, Stands, Prod;
    ghost var X1, Y1, Z1, T1 := Val(p.X), Val(p.Y), Val(p.Z), Val(p.T);
    StandsForItself(p.X, 3); StandsForItself(p.Y, 3); StandsForItself(p.Z, 3); StandsForItself(p.T, 3);
    Mul(r.X, p.X, p.T, X1, T1, 3, 3);
    Mul(r.Y, p.Y, p.Z, Y1, Z1, 3, 3);
    Mul(r.Z, p.Z, p.T, Z1, T1, 3, 3);
    Mul(r.T, p.X, p.Y, X1, Y1, 3, 3);
    StandsFor(r.X, Prod(X1, T1), 1); StandsFor(r.Y, Prod(Y1, Z1), 1);
    StandsFor(r.Z, Prod(Z1, T1), 1); StandsFor(r.T, Prod(X1, Y1), 1);
    Converted(X1, Y1, Z1, T1, pp, Val(r.X), Val(r.Y), Val(r.Z));
  }

  lemma Converted(X1: int, Y1: int, Z1: int, T1: int, p: Point, X: int, Y: int, Z: int)
    requires CurveFacts() && Completed(X1, Y1, Z1, T1, p)
    requires Cong(X, Prod(X1, T1)) && Cong(Y, Prod(Y1, Z1)) && Cong(Z, Prod(Z1, T1))
    ensures Projective(X, Y, Z, p)
    ensures forall T :: Cong(T, Prod(X1, Y1)) ==> Extended(X, Y, Z, T, p)
  {
    CurveNonSquare();
    hide CurveFacts, Extended, Projective, Completed, Cong;
    CompletedToExtended(X1, Y1, Z1, T1, p, X, Y, Z);
  }

  method GeP3ToP2(r: GeP2, p: GeP3, ghost pp: Point)
    requires r.Valid() && p.Is(pp)
    requires p.Apart(r.X) && p.Apart(r.Y) && p.Apart(r.Z)
    modifies r.X, r.Y, r.Z
    ensures r.Is(pp)
  {
    hide Within, Cong, V, Projective;
    FeCopy(r.X, p.X);
    FeCopy(r.Y, p.Y);
    FeCopy(r.Z, p.Z);
  }

  method GeP3ToCached(r: GeCached, p: GeP3, ghost pp: Point)
    requires r.Valid() && p.Is(pp)
    requires p.Apart(r.YplusX) && p.Apart(r.YminusX) && p.Apart(r.Z) && p.Apart(r.T2d)
    modifies r.YplusX, r.YminusX, r.Z, r.T2d
    ensures r.Is(pp)
  {
    hide Cong, V, Within, Extended, Cached, Prod;
    var k := Constant(D2_LIMBS);
    ConstantD2();
    assert Stands(k, 2 * D, 1);
    ghost var X1, Y1, Z1, T1 := Val(p.X), Val(p.Y), Val(p.Z), Val(p.T);
    StandsForItself(p.X, 1); StandsForItself(p.Y, 1); StandsForItself(p.T, 1);
    Plus(r.YplusX, p.Y, p.X, Y1, X1, 1, 1);
    Minus(r.YminusX, p.Y, p.X, Y1, X1, 1, 1);
    FeCopy(r.Z, p.Z);
    Mul(r.T2d, p.T, k, T1, 2 * D, 1, 1);
    ProdTwice(T1);
    ExtendedToCached(X1, Y1, Z1, T1, pp, Val(r.YplusX), Val(r.YminusX), Val(r.T2d));
  }

  lemma ProdTwice(t: int)
    ensures Prod(t, 2 * D) == t * (2 * D)
  {
  }

  /** The neutral element */
  method GeP2Zero(h: GeP2)
    requires h.Valid()
    modifies h.X, h.Y, h.Z
    ensures h.Is(Zero)
  {
    hide Cong, V, Within, OnCurve;
    Fe0(h.X);
    Fe1(h.Y);
    Fe1(h.Z);
    WithinMore(h.X[..], 1, 1, MUL_OUT_EVEN, MUL_OUT_ODD);
    WithinMore(h.Y[..], 1, 1, MUL_OUT_EVEN, MUL_OUT_ODD);
    WithinMore(h.Z[..], 1, 1, MUL_OUT_EVEN, MUL_OUT_ODD);
    ZeroProjective();
  }

  method GeP3Zero(h: GeP3)
    requires h.Valid()
    modifies h.X, h.Y, h.Z, h.T
    ensures h.Is(Zero)
  {
    hide Cong, V, Within, OnCurve;
    Fe0(h.X);
    Fe1(h.Y);
    Fe1(h.Z);
    Fe0(h.T);
    WithinMore(h.X[..], 1, 1, MUL_OUT_EVEN, MUL_OUT_ODD);
    WithinMore(h.Y[..], 1, 1, MUL_OUT_EVEN, MUL_OUT_ODD);
    WithinMore(h.Z[..], 1, 1, MUL_OUT_EVEN, MUL_OUT_ODD);
    WithinMore(h.T[..], 1, 1, MUL_OUT_EVEN, MUL_OUT_ODD);
    ZeroProjective();
  }

  lemma ZeroProjective()
    ensures Projective(0, 1, 1, Zero) && Extended(0, 1, 1, 0, Zero) && Cached(1, 1, 1, 0, Zero)
  {
    hide Cong;
    ZeroOnCurve();
    CongRefl(0);
    CongRefl(1);
    OneNotZero();
  }

  lemma OneNotZero()
    ensures !Cong(1, 0)
  {
    CongRefl(1);
    UnitNotZero(1, 1);
  }
}
