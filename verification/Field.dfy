/** Congruence modulo the field prime of Ed25519. */
module Field {
  import opened Ints
  import Congruence

  /** 2^n for n = |s| */
  function TwoTo(s: seq<int>): (r: int)
    ensures r > 0
  {
    if s == [] then 1 else 2 * TwoTo(s[1..])
  }

  lemma {:induction false} TwoToIsPow2(s: seq<int>)
    ensures TwoTo(s) == Pow2(|s|)
  {
    if s != [] { TwoToIsPow2(s[1..]); }
  }

  function Bits252(): seq<int> {
    seq(252, _ => 0)
  }

  /** 2^255 - 19. The exponent is a length so that a proof sees the digits only if it asks for them: a
      nonlinear argument is better off without. */
  const P := Prime()

  function Prime(): (p: int)
    ensures p > 100
  {
    PrimeDigits();
    8 * TwoTo(Bits252()) - 19
  }

  /** (P - 5) / 8, the exponent of the square root: 2^252 - 3 */
  function RootExponent(): (e: nat)
    ensures 8 * e + 5 == P
  {
    PrimeDigits();
    TwoTo(Bits252()) - 3
  }

  lemma PrimeDigits()
    ensures TwoTo(Bits252()) == 0x1000_0000_0000_0000_0000_0000_0000_0000_0000_0000_0000_0000_0000_0000_0000_0000
  {
    TwoToIsPow2(Bits252());
    hide Pow2, TwoTo;
    Powers();
    Pow2Add(16, 16);
    Pow2Add(32, 32);
    Pow2Add(64, 64);
    Pow2Add(24, 4);
    Pow2Add(32, 28);
    Pow2Add(64, 60);
    Pow2Add(128, 124);
  }

  const DIGITS: int := 0x7fff_ffff_ffff_ffff_ffff_ffff_ffff_ffff_ffff_ffff_ffff_ffff_ffff_ffff_ffff_ffed

  lemma PrimeNumber(q: int)
    ensures P == DIGITS && q * P == q * DIGITS
  {
    PrimeDigits();
  }

  /** The canonical representative of a, in [0, P) */
  function Residue(a: int): (r: int)
    ensures 0 <= r < P
  {
    Congruence.Residue(a, P)
  }

  ghost predicate Cong(a: int, b: int) {
    Congruence.Congruent(a, b, P)
  }

  lemma CongIntro(a: int, b: int, k: int)
    requires a == b + k * P
    ensures Cong(a, b)
  {
    Congruence.Intro(a, b, k, P);
  }

  lemma CongElim(a: int, b: int) returns (k: int)
    requires Cong(a, b)
    ensures a == b + k * P
  {
    k := Congruence.Elim(a, b, P);
  }

  lemma CongRefl(a: int)
    ensures Cong(a, a)
  {
  }

  lemma CongSym(a: int, b: int)
    requires Cong(a, b)
    ensures Cong(b, a)
  {
  }

  lemma CongTrans(a: int, b: int, c: int)
    requires Cong(a, b) && Cong(b, c)
    ensures Cong(a, c)
  {
  }

  lemma CongAdd(a: int, b: int, c: int, d: int)
    requires Cong(a, b) && Cong(c, d)
    ensures Cong(a + c, b + d) && Cong(a - c, b - d)
  {
    Congruence.Sum(a, b, c, d, P);
  }

  lemma CongMul(a: int, b: int, c: int, d: int)
    requires Cong(a, b) && Cong(c, d)
    ensures Cong(a * c, b * d)
  {
    Congruence.Product(a, b, c, d, P);
  }

  lemma CongResidue(a: int, b: int)
    requires Cong(a, b)
    ensures Residue(a) == Residue(b)
  {
    Congruence.SameResidue(a, b, P);
  }

  lemma ResidueCong(a: int)
    ensures Cong(Residue(a), a)
  {
    Congruence.ToResidue(a, P);
  }

  lemma ResidueUnique(a: int, r: int)
    requires Cong(a, r) && 0 <= r < P
    ensures Residue(a) == r
  {
    Congruence.ResidueUnique(a, r, P);
  }
}
