/** The points of the curve as a group: neutral element, inverses, and integer multiples of a point. */
module EdwardsGroup {
  import opened Field
  import opened PrimeField
  import opened Edwards
  import CurveConstant

  const Zero := Point(0, 1)

  function Neg(p: Point): Point {
    Point(Residue(-p.x), p.y)
  }

  ghost predicate AssociativeAt(p: Point, q: Point, r: Point) {
    OnCurve(p) && OnCurve(q) && OnCurve(r) ==> Add(Add(p, q), r) == Add(p, Add(q, r))
  }

  /** The facts about P and the curve that are taken from the literature. */
  ghost predicate CurveFacts() {
    && IsPrime(P)
    && forall p, q, r :: AssociativeAt(p, q, r)
  }

  lemma CurveNonSquare()
    requires CurveFacts()
    ensures IsPrime(P) && DIsNonSquare()
  {
    CurveConstant.NonSquareD();
  }

  lemma Associative(p: Point, q: Point, r: Point)
    requires CurveFacts() && OnCurve(p) && OnCurve(q) && OnCurve(r)
    ensures Add(Add(p, q), r) == Add(p, Add(q, r))
  {
    hide OnCurve, Add;
    assert AssociativeAt(p, q, r);
  }

  lemma Closed(p: Point, q: Point)
    requires CurveFacts() && OnCurve(p) && OnCurve(q)
    ensures OnCurve(Add(p, q))
  {
    CurveNonSquare();
    AddOnCurve(p, q);
  }

  lemma Commutative(p: Point, q: Point)
    ensures Add(p, q) == Add(q, p)
  {
    hide Residue, Inv;
    assert Cross(p, q) == Cross(q, p) by { assert (p.x * p.y) * (q.x * q.y) == (q.x * q.y) * (p.x * p.y); }
    assert SumX(p, q) == SumX(q, p);
    assert SumY(p, q) == SumY(q, p);
  }

  lemma ZeroOnCurve()
    ensures OnCurve(Zero)
  {
    hide Cong;
    CongRefl(1);
  }

  lemma AddZero(p: Point)
    requires CurveFacts() && OnCurve(p)
    ensures Add(p, Zero) == p && Add(Zero, p) == p
  {
    hide Cong, IsPrime, DIsNonSquare, Add, Prime, RootExponent;
    CurveNonSquare();
    assert 0 <= p.x < P && 0 <= p.y < P;
    hide CurveFacts, OnCurve;
    ZeroOnCurve();
    assert Cross(p, Zero) == 0 && SumX(p, Zero) == p.x && SumY(p, Zero) == p.y;
    CongRefl(p.x);
    CongRefl(p.y);
    AddUnique(p, Zero, p);
    Commutative(p, Zero);
  }

  lemma NegOnCurve(p: Point)
    requires OnCurve(p)
    ensures OnCurve(Neg(p))
  {
    hide Cong, Residue;
    Equation(p);
    Equation(Neg(p));
    hide OnCurve;
    var n := Residue(-p.x);
    ResidueCong(-p.x);
    CongMul(n, -p.x, n, -p.x);
    assert -p.x * -p.x == p.x * p.x;
    CongScale(n * n, p.x * p.x, p.y * p.y);
    CongScale((n * n) * (p.y * p.y), (p.x * p.x) * (p.y * p.y), D);
    ProductSquared(n, p.y);
    ProductSquared(p.x, p.y);
    NegatedEquation(p.y * p.y, p.x * p.x, n * n, D * ((p.x * p.x) * (p.y * p.y)), D * ((n * n) * (p.y * p.y)));
  }

  lemma NegatedEquation(y: int, x: int, n: int, d: int, e: int)
    requires Cong(y - x, 1 + d) && Cong(n, x) && Cong(e, d)
    ensures Cong(y - n, 1 + e)
  {
    hide Cong;
    CongRefl(y);
    CongAdd(y, y, n, x);
    CongTrans(y - n, y - x, 1 + d);
    CongSym(e, d);
    CongRefl(1);
    CongAdd(1, 1, d, e);
    CongTrans(y - n, 1 + d, 1 + e);
  }

  lemma AddNeg(p: Point)
    requires CurveFacts() && OnCurve(p)
    ensures Add(p, Neg(p)) == Zero && Add(Neg(p), p) == Zero
  {
    hide Cong, IsPrime, DIsNonSquare, Add, Residue, Cross, SumX, SumY;
    CurveNonSquare();
    NegOnCurve(p);
    var n := Neg(p);
    ResidueCong(-p.x);
    NegTerms(p, n);
    hide CurveFacts, OnCurve, Neg;
    assert 0 * (1 + Cross(p, n)) == 0;
    CongSym(SumX(p, n), 0);
    CongSym(SumY(p, n), 1 - Cross(p, n));
    AddUnique(p, n, Zero);
    Commutative(p, n);
  }

  lemma NegTerms(p: Point, n: Point)
    requires OnCurve(p) && Cong(n.x, -p.x) && n.y == p.y
    ensures Cong(SumX(p, n), 0) && Cong(SumY(p, n), 1 - Cross(p, n))
  {
    hide Cong;
    var u, a := CurveEquation(p);
    hide OnCurve;
    var m := p.x * p.y;
    CongScale(n.x, -p.x, p.y);
    assert -p.x * p.y == -m;
    CongRefl(m);
    CongAdd(m, m, n.x * p.y, -m);
    CongScale(n.x * p.y, -m, m);
    CongScale(m * (n.x * p.y), m * -m, D);
    assert m * -m == -(m * m) && D * -(m * m) == -a;
    CongScale(n.x, -p.x, p.x);
    assert p.x * -p.x == -(p.x * p.x);
    CongRefl(p.y * p.y);
    CongAdd(p.y * p.y, p.y * p.y, p.x * n.x, -(p.x * p.x));
    CongTrans(SumY(p, n), u, 1 + a);
    CongRefl(1);
    CongAdd(1, 1, Cross(p, n), -a);
    CongSym(1 - Cross(p, n), 1 + a);
    CongTrans(SumY(p, n), 1 + a, 1 - Cross(p, n));
  }

  lemma NegUnique(p: Point, q: Point)
    requires CurveFacts() && OnCurve(p) && OnCurve(q) && Add(p, q) == Zero
    ensures q == Neg(p)
  {
    hide CurveFacts, OnCurve, Add, Neg;
    NegOnCurve(p);
    AddNeg(p);
    Associative(Neg(p), p, q);
    AddZero(q);
    AddZero(Neg(p));
  }

  // Multiples --------------------------------------------------------------------------------------

  /** n times p, for any integer n. */
  function Times(n: int, p: Point): Point
    decreases if n < 0 then -n else n
  {
    if n == 0 then Zero
    else if n > 0 then Add(Times(n - 1, p), p)
    else Add(Times(n + 1, p), Neg(p))
  }

  lemma {:induction false} TimesOnCurve(n: int, p: Point)
    requires CurveFacts() && OnCurve(p)
    ensures OnCurve(Times(n, p))
    decreases if n < 0 then -n else n
  {
    hide CurveFacts, OnCurve, Add, Neg;
    ZeroOnCurve();
    NegOnCurve(p);
    if n > 0 {
      TimesOnCurve(n - 1, p);
      Closed(Times(n - 1, p), p);
    } else if n < 0 {
      TimesOnCurve(n + 1, p);
      Closed(Times(n + 1, p), Neg(p));
    }
  }

  lemma TimesStep(n: int, p: Point)
    requires CurveFacts() && OnCurve(p)
    ensures Times(n + 1, p) == Add(Times(n, p), p)
    ensures Times(n - 1, p) == Add(Times(n, p), Neg(p))
  {
    hide CurveFacts, OnCurve, Add, Neg;
    NegOnCurve(p);
    AddNeg(p);
    if n < 0 {
      TimesOnCurve(n + 1, p);
      Associative(Times(n + 1, p), Neg(p), p);
      AddZero(Times(n + 1, p));
    }
    if n > 0 {
      TimesOnCurve(n - 1, p);
      Associative(Times(n - 1, p), p, Neg(p));
      AddZero(Times(n - 1, p));
    }
  }

  lemma {:induction false} TimesAdd(m: int, n: int, p: Point)
    requires CurveFacts() && OnCurve(p)
    ensures Times(m + n, p) == Add(Times(m, p), Times(n, p))
    decreases if n < 0 then -n else n
  {
    hide CurveFacts, OnCurve, Add, Neg;
    TimesOnCurve(m, p);
    NegOnCurve(p);
    if n == 0 {
      AddZero(Times(m, p));
    } else if n > 0 {
      TimesAdd(m, n - 1, p);
      TimesStep(m + n - 1, p);
      TimesOnCurve(n - 1, p);
      Associative(Times(m, p), Times(n - 1, p), p);
    } else {
      TimesAdd(m, n + 1, p);
      TimesStep(m + n + 1, p);
      TimesOnCurve(n + 1, p);
      Associative(Times(m, p), Times(n + 1, p), Neg(p));
    }
  }

  lemma TimesNeg(n: int, p: Point)
    requires CurveFacts() && OnCurve(p)
    ensures Times(-n, p) == Neg(Times(n, p))
  {
    hide CurveFacts, OnCurve, Add, Neg;
    TimesAdd(n, -n, p);
    TimesOnCurve(n, p);
    TimesOnCurve(-n, p);
    assert Times(0, p) == Zero;
    NegUnique(Times(n, p), Times(-n, p));
  }

  lemma {:induction false} TimesTimes(m: int, n: int, p: Point)
    requires CurveFacts() && OnCurve(p)
    ensures Times(m, Times(n, p)) == Times(m * n, p)
    decreases if m < 0 then -m else m
  {
    hide CurveFacts, OnCurve, Add, Neg;
    TimesOnCurve(n, p);
    if m > 0 {
      TimesTimes(m - 1, n, p);
      assert m * n == (m - 1) * n + n;
      TimesAdd((m - 1) * n, n, p);
    } else if m < 0 {
      TimesTimes(m + 1, n, p);
      assert m * n == (m + 1) * n + -n;
      TimesAdd((m + 1) * n, -n, p);
      TimesNeg(n, p);
    } else {
      assert m * n == 0;
    }
  }

  lemma TimesOne(p: Point)
    requires CurveFacts() && OnCurve(p)
    ensures Times(1, p) == p && Times(2, p) == Add(p, p) && Times(-1, p) == Neg(p)
  {
    hide CurveFacts, OnCurve, Add, Neg;
    NegOnCurve(p);
    AddZero(p);
    AddZero(Neg(p));
    assert Times(1, p) == Add(Times(0, p), p);
    assert Times(2, p) == Add(Times(1, p), p);
    assert Times(-1, p) == Add(Times(0, p), Neg(p));
  }

  /** (p + q) + (r + s) = (p + r) + (q + s) */
  lemma Interleave(p: Point, q: Point, r: Point, s: Point)
    requires CurveFacts() && OnCurve(p) && OnCurve(q) && OnCurve(r) && OnCurve(s)
    ensures Add(Add(p, q), Add(r, s)) == Add(Add(p, r), Add(q, s))
  {
    hide CurveFacts, OnCurve, Add;
    Closed(p, q);
    Closed(r, s);
    Closed(q, s);
    Associative(p, q, Add(r, s));
    Associative(q, r, s);
    Commutative(q, r);
    Associative(r, q, s);
    Associative(p, r, Add(q, s));
  }
}
