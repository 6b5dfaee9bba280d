/** What being prime means for the integers modulo P: no zero divisors, Fermat's theorem, inverses. */
module PrimeField {
  import opened Field

  predicate IsFactor(k: int, p: int)
    requires k > 0
  {
    p % k == 0
  }

  ghost predicate IsPrime(p: int) {
    p > 1 && forall k :: 1 < k < p ==> !IsFactor(k, p)
  }

  function Pow(z: int, e: nat): int
    decreases e
  {
    if e == 0 then 1 else z * Pow(z, e - 1)
  }

  lemma {:induction false} PowAdd(z: int, d: nat, e: nat)
    ensures Pow(z, d + e) == Pow(z, d) * Pow(z, e)
    decreases d
  {
    if d > 0 {
      PowAdd(z, d - 1, e);
      AssociatePower(z, Pow(z, d - 1), Pow(z, e), Pow(z, d), Pow(z, d - 1 + e));
    }
  }

  lemma AssociatePower(z: int, a: int, b: int, za: int, ab: int)
    requires za == z * a && ab == a * b
    ensures z * ab == za * b
  {
    assert z * (a * b) == (z * a) * b;
  }

  lemma {:induction false} PowCong(a: int, b: int, e: nat)
    requires Cong(a, b)
    ensures Cong(Pow(a, e), Pow(b, e))
  {
    hide Cong;
    if e == 0 {
      CongRefl(1);
    } else {
      PowCong(a, b, e - 1);
      CongMul(a, b, Pow(a, e - 1), Pow(b, e - 1));
    }
  }

  lemma {:induction false} PowProduct(a: int, b: int, e: nat)
    ensures Pow(a * b, e) == Pow(a, e) * Pow(b, e)
  {
    if e > 0 {
      PowProduct(a, b, e - 1);
      Interchange(a, b, Pow(a, e - 1), Pow(b, e - 1), Pow(a * b, e - 1));
    }
  }

  lemma Interchange(a: int, b: int, c: int, d: int, cd: int)
    requires cd == c * d
    ensures (a * b) * cd == (a * c) * (b * d)
  {
    assert (a * b) * (c * d) == (a * c) * (b * d);
  }

  lemma {:induction false} PowPow(z: int, m: nat, n: nat, mn: nat)
    requires mn == m * n
    ensures Pow(Pow(z, m), n) == Pow(z, mn)
    decreases n
  {
    if n == 0 {
      assert mn == 0;
    } else {
      assert mn - m == m * (n - 1) >= 0;
      PowPow(z, m, n - 1, mn - m);
      PowAdd(z, m, mn - m);
    }
  }

  ghost predicate Divides(d: int, n: int) {
    exists k :: n == Scale(d, k)
  }

  function Scale(d: int, k: int): int {
    d * k
  }

  lemma DividesIntro(d: int, n: int, k: int)
    requires n == d * k
    ensures Divides(d, n)
  {
    assert n == Scale(d, k);
  }

  lemma DividesElim(d: int, n: int) returns (k: int)
    requires Divides(d, n)
    ensures n == d * k
  {
    k :| n == Scale(d, k);
  }

  /** Euclid's lemma, by division steps on a. */
  lemma {:induction false} Euclid(p: int, a: int, b: int)
    requires IsPrime(p) && 0 < a < p && Divides(p, a * b)
    ensures Divides(p, b)
    decreases a
  {
    hide Divides;
    if a > 1 {
      var q, r := p / a, p % a;
      assert !IsFactor(a, p);
      assert 0 < r < a && p == a * q + r;
      hide IsPrime;
      var k := DividesElim(p, a * b);
      Remainder(p, a, b, q, r, k);
      DividesIntro(p, r * b, b - q * k);
      Euclid(p, r, b);
    } else {
      assert a * b == b;
    }
  }

  lemma Remainder(p: int, a: int, b: int, q: int, r: int, k: int)
    requires p == a * q + r && a * b == p * k
    ensures r * b == p * (b - q * k)
  {
    assert r * b == p * b - q * (a * b) by { assert (p - a * q) * b == p * b - q * (a * b); }
    assert q * (p * k) == p * (q * k);
    assert p * (b - q * k) == p * b - p * (q * k);
  }

  lemma CongZero(a: int)
    ensures Cong(a, 0) <==> Divides(P, a)
  {
    hide Cong, Divides;
    if Cong(a, 0) {
      var k := CongElim(a, 0);
      DividesIntro(P, a, k);
    }
    if Divides(P, a) {
      var k := DividesElim(P, a);
      CongIntro(a, 0, k);
    }
  }

  lemma NoZeroDivisors(a: int, b: int)
    requires IsPrime(P) && Cong(a * b, 0)
    ensures Cong(a, 0) || Cong(b, 0)
  {
    hide Cong, Divides, Residue, IsPrime;
    var r := Residue(a);
    ResidueCong(a);
    if r == 0 {
      CongSym(0, a);
    } else {
      CongRefl(b);
      CongMul(r, a, b, b);
      CongTrans(r * b, a * b, 0);
      CongZero(r * b);
      Euclid(P, r, b);
      CongZero(b);
    }
  }

  /** A factor that is not zero can be cancelled. */
  lemma Cancel(a: int, b: int, c: int)
    requires IsPrime(P) && Cong(a * c, b * c) && !Cong(c, 0)
    ensures Cong(a, b)
  {
    hide Cong, IsPrime;
    var k := CongElim(a * c, b * c);
    assert (a - b) * c == a * c - b * c;
    CongIntro((a - b) * c, 0, k);
    NoZeroDivisors(a - b, c);
    k := CongElim(a - b, 0);
    CongIntro(a, b, k);
  }

  lemma ProductNonzero(a: int, b: int)
    requires IsPrime(P) && !Cong(a, 0) && !Cong(b, 0)
    ensures !Cong(a * b, 0)
  {
    hide Cong, IsPrime;
    if Cong(a * b, 0) { NoZeroDivisors(a, b); }
  }

  // Fermat's theorem, through the binomial coefficients --------------------------------------------

  function Choose(n: nat, k: nat): nat
    decreases n
  {
    if k == 0 then 1 else if n == 0 then 0 else Choose(n - 1, k - 1) + Choose(n - 1, k)
  }

  lemma {:induction false} Absorb(n: nat, k: nat)
    requires n >= 1 && k >= 1
    ensures k * Choose(n, k) == n * Choose(n - 1, k - 1)
    decreases n
  {
    if n > 1 {
      Absorb(n - 1, k);
      if k > 1 { Absorb(n - 1, k - 1); }
      AbsorbStep(n, k, Choose(n - 1, k - 1), Choose(n - 1, k), Choose(n - 2, k - 1),
          if k > 1 then Choose(n - 2, k - 2) else 0);
    } else {
      assert k > 1 ==> Choose(0, k - 1) == 0;
    }
  }

  lemma AbsorbStep(n: int, k: int, a: int, b: int, c: int, d: int)
    requires k * b == (n - 1) * c && (k - 1) * a == (n - 1) * d && a == d + c
    ensures k * (a + b) == n * a
  {
    assert k * (a + b) == (k - 1) * a + a + k * b;
    assert (n - 1) * d + (n - 1) * c == (n - 1) * (d + c);
  }

  lemma {:induction false} ChooseEnds(n: nat, k: nat)
    ensures k > n ==> Choose(n, k) == 0
    ensures Choose(n, n) == 1
    decreases n
  {
    if n > 0 {
      ChooseEnds(n - 1, n);
      if k > 0 {
        ChooseEnds(n - 1, k - 1);
        ChooseEnds(n - 1, k);
      }
    }
  }

  /** The first m terms of the expansion of (a + 1)^n. */
  function Expansion(n: nat, a: int, m: nat): int
    decreases m
  {
    if m == 0 then 0 else Expansion(n, a, m - 1) + Choose(n, m - 1) * Pow(a, m - 1)
  }

  lemma {:induction false} ExpansionStep(n: nat, a: int, m: nat)
    requires n >= 1
    ensures Expansion(n, a, m + 1) == Expansion(n - 1, a, m + 1) + a * Expansion(n - 1, a, m)
    decreases m
  {
    if m > 0 {
      ExpansionStep(n, a, m - 1);
      var c, c', p := Choose(n - 1, m), Choose(n - 1, m - 1), Pow(a, m - 1);
      PascalTerm(Choose(n, m), c, c', a, p, Pow(a, m), Expansion(n - 1, a, m - 1));
    }
  }

  lemma PascalTerm(d: int, c: int, c': int, a: int, p: int, ap: int, e: int)
    requires d == c' + c && ap == a * p
    ensures d * ap == c * ap + a * (c' * p)
    ensures a * (e + c' * p) == a * e + a * (c' * p)
  {
    assert (c' + c) * ap == c' * ap + c * ap;
    assert c' * (a * p) == a * (c' * p);
  }

  lemma {:induction false} Binomial(n: nat, a: int)
    ensures Pow(a + 1, n) == Expansion(n, a, n + 1)
  {
    if n == 0 {
      assert Expansion(0, a, 1) == Expansion(0, a, 0) + Choose(0, 0) * Pow(a, 0);
    } else {
      Binomial(n - 1, a);
      ExpansionStep(n, a, n);
      ChooseEnds(n - 1, n);
      var e := Expansion(n - 1, a, n);
      assert Expansion(n - 1, a, n + 1) == e + 0 * Pow(a, n);
      assert (a + 1) * e == e + a * e;
    }
  }

  /** All but the ends of the expansion of (a + 1)^P vanish. */
  lemma {:induction false} MiddleVanishes(n: nat, a: int, m: nat)
    requires IsPrime(P) && n == P && 1 <= m <= n
    ensures Cong(Expansion(n, a, m), 1)
    decreases m
  {
    hide Cong, IsPrime, Pow, Choose;
    if m == 1 {
      FirstTerm(n, a);
      CongRefl(1);
    } else {
      var k := m - 1;
      MiddleVanishes(n, a, k);
      MiddleTerm(n, a, k);
      CongAdd(Expansion(n, a, k), 1, Choose(n, k) * Pow(a, k), 0);
    }
  }

  lemma FirstTerm(n: nat, a: int)
    ensures Expansion(n, a, 1) == 1
  {
    assert Expansion(n, a, 1) == Expansion(n, a, 0) + Choose(n, 0) * Pow(a, 0);
  }

  lemma MiddleTerm(n: nat, a: int, k: nat)
    requires IsPrime(P) && n == P && 1 <= k < n
    ensures Cong(Choose(n, k) * Pow(a, k), 0)
  {
    hide Cong, IsPrime, Pow, Choose, Divides;
    Absorb(n, k);
    DividesIntro(P, k * Choose(n, k), Choose(n - 1, k - 1));
    Euclid(P, k, Choose(n, k));
    CongZero(Choose(n, k));
    CongRefl(Pow(a, k));
    CongMul(Choose(n, k), 0, Pow(a, k), Pow(a, k));
  }

  lemma {:induction false} FermatNat(n: nat, a: nat)
    requires IsPrime(P) && n == P
    ensures Cong(Pow(a, n), a)
    decreases a
  {
    hide Cong, IsPrime, Choose, Pow, Expansion;
    if a == 0 {
      PowStep(0, n);
      CongRefl(0);
    } else {
      var b := a - 1;
      FermatNat(n, b);
      Binomial(n, b);
      MiddleVanishes(n, b, n);
      LastTerm(n, b);
      CongAdd(Expansion(n, b, n), 1, Pow(b, n), b);
    }
  }

  lemma LastTerm(n: nat, a: int)
    ensures Expansion(n, a, n + 1) == Expansion(n, a, n) + Pow(a, n)
  {
    ChooseEnds(n, n);
    hide Choose, Pow;
    assert 1 * Pow(a, n) == Pow(a, n);
  }

  lemma PowStep(a: int, n: nat)
    requires n > 0
    ensures Pow(a, n) == Pow(a, n - 1) * a
  {
  }

  /** a^(P-1) = 1 for every a that is not a multiple of P. */
  lemma Fermat(a: int)
    requires IsPrime(P) && !Cong(a, 0)
    ensures Cong(Pow(a, P - 1), 1)
  {
    hide Cong, IsPrime, Pow, Residue;
    var r := Residue(a);
    ResidueCong(a);
    FermatNat(P, r);
    PowCong(r, a, P);
    CongSym(Pow(r, P), Pow(a, P));
    CongTrans(Pow(a, P), Pow(r, P), r);
    CongTrans(Pow(a, P), r, a);
    PowStep(a, P);
    assert a == 1 * a;
    Cancel(Pow(a, P - 1), 1, a);
  }

  function Inv(a: int): int {
    Residue(Pow(a, P - 2))
  }

  lemma Inverse(a: int)
    requires IsPrime(P) && !Cong(a, 0)
    ensures Cong(a * Inv(a), 1)
  {
    hide Cong, IsPrime, Pow, Residue, Field.Prime;
    Fermat(a);
    var q := Pow(a, P - 2);
    ResidueCong(q);
    CongRefl(a);
    CongMul(a, a, Inv(a), q);
    PowStep(a, P - 1);
    CongTrans(a * Inv(a), a * q, 1);
  }
}
