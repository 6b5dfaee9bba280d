/** The curve constant d is not a square modulo P: it is twice a square, and 2 is not one. */
module CurveConstant {
  import opened Field
  import opened PrimeField
  import opened Edwards

  /** 2 ROOT^2 = d */
  const ROOT: int := 0x42a9_8e6d_817a_9cbb_779a_5f9c_e7da_a4a4_1224_e00f_2f1f_5129_51dc_42f2_375e_b395

  lemma TwiceSquare()
    ensures Cong(2 * (ROOT * ROOT), D)
  {
    var k := (2 * (ROOT * ROOT) - D) / DIGITS;
    PrimeNumber(k);
    CongIntro(2 * (ROOT * ROOT), D, k);
  }

  lemma OneNotMinusOne()
    ensures !Cong(1, -1)
  {
    hide Cong;
    if Cong(1, -1) {
      var k := CongElim(1, -1);
      NoSmallMultiple(k);
    }
  }

  lemma PowEight(u: int)
    ensures Pow(u, 8) == Pow(u, 4) * Pow(u, 4) && Pow(u, 4) == (u * u) * (u * u)
  {
    PowAdd(u, 4, 4);
    PowAdd(u, 2, 2);
    PowAdd(u, 1, 1);
    assert Pow(u, 1) == u * Pow(u, 0);
  }

  lemma {:induction false} EighthPowers(u: int, j: nat)
    requires Cong(Pow(u, 4), -1)
    ensures Cong(Pow(u, 8 * j), 1)
  {
    hide Cong, Pow;
    if j == 0 {
      PowZero(u);
      CongRefl(1);
    } else {
      EighthPowers(u, j - 1);
      PowEight(u);
      CongMul(Pow(u, 4), -1, Pow(u, 4), -1);
      PowAdd(u, 8 * (j - 1), 8);
      CongMul(Pow(u, 8 * (j - 1)), 1, Pow(u, 8), 1);
    }
  }

  lemma PowZero(u: int)
    ensures Pow(u, 0) == 1
  {
  }

  /** P - 1 is 4 more than a multiple of 8, so -1 is no fourth power. */
  lemma NoFourthRoot(u: int)
    requires IsPrime(P)
    ensures !Cong((u * u) * (u * u), -1)
  {
    hide Cong, IsPrime, Pow;
    var v, e := (u * u) * (u * u), RootExponent();
    PowEight(u);
    if Cong(v, -1) {
      UnitNotZero(v, -1);
      if Cong(u, 0) {
        CongMul(u, 0, u, 0);
        CongMul(u * u, 0, u * u, 0);
      }
      Fermat(u);
      EighthPowers(u, e);
      PowAdd(u, 8 * e, 4);
      CongMul(Pow(u, 8 * e), 1, Pow(u, 4), -1);
      CongSym(Pow(u, P - 1), 1);
      CongTrans(1, Pow(u, P - 1), -1);
      OneNotMinusOne();
    }
  }

  /** A square root t of 2 would make i = ((1 + i) / t)^2 a fourth root of -1. */
  lemma TwoNonSquare(t: int)
    requires IsPrime(P)
    ensures !Cong(t * t, 2)
  {
    hide Cong, IsPrime;
    if Cong(t * t, 2) {
      var i := SQRT_M1;
      SqrtM1();
      TwoNotZero(t);
      CongScale(t * t, 2, i);
      CongSym(i * (t * t), i * 2);
      CongRefl(1 + 2 * i);
      CongAdd(1 + 2 * i, 1 + 2 * i, i * i, -1);
      var a := 1 + i;
      SquareOfSum(i);
      CongTrans(a * a, i * 2, i * (t * t));
      var u := SquareRatio(a, t, i);
      CongMul(u * u, i, u * u, i);
      CongTrans((u * u) * (u * u), i * i, -1);
      NoFourthRoot(u);
    }
  }

  lemma SquareOfSum(i: int)
    ensures (1 + i) * (1 + i) == (1 + 2 * i) + i * i
  {
  }

  lemma TwoNotZero(t: int)
    requires Cong(t * t, 2)
    ensures !Cong(t, 0)
  {
    hide Cong;
    if Cong(t, 0) {
      CongMul(t, 0, t, 0);
      var k := CongElim(t * t, 2);
      var l := CongElim(t * t, 0);
      NoSmallMultiple(l - k);
    }
  }

  /** d is not a square if P is prime. */
  lemma NonSquareD()
    requires IsPrime(P)
    ensures DIsNonSquare()
  {
    hide Cong, IsPrime;
    forall s ensures !IsRootOfD(s) {
      if Cong(s * s, D) {
        TwiceSquare();
        var r := ROOT;
        CongSym(2 * (r * r), D);
        CongTrans(s * s, D, 2 * (r * r));
        RootNotZero();
        var t := SquareRatio(s, r, 2);
        TwoNonSquare(t);
      }
    }
  }

  lemma RootNotZero()
    ensures !Cong(ROOT, 0)
  {
    hide Cong;
    if Cong(ROOT, 0) {
      var k := CongElim(ROOT, 0);
      NoSmallMultiple(k);
      PrimeNumber(0);
    }
  }
}
