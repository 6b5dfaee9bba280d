/** Congruence modulo any positive number. */
module Congruence {
  import opened Bits

  /** A set that has x exactly if it has x + m, for this x. */
  ghost predicate PeriodAt(s: iset<int>, m: int, x: int) {
    x in s <==> x + m in s
  }

  /** A union of residue classes modulo m */
  ghost predicate Periodic(s: iset<int>, m: int) {
    forall x :: PeriodAt(s, m, x)
  }

  /** No union of residue classes tells a and b apart. */
  ghost predicate Congruent(a: int, b: int, m: int) {
    forall s :: Periodic(s, m) ==> (a in s <==> b in s)
  }

  /** The canonical representative of a: m is added or taken away until a is in [0, m). */
  function Residue(a: int, m: int): (r: int)
    requires m > 0
    ensures 0 <= r < m
    decreases if a < 0 then m - a else a
  {
    if a < 0 then Residue(a + m, m) else if a >= m then Residue(a - m, m) else a
  }

  lemma {:induction false} ResidueQuotient(a: int, m: int) returns (k: int)
    requires m > 0
    ensures a == Residue(a, m) + k * m
    decreases if a < 0 then m - a else a
  {
    if a < 0 {
      k := ResidueQuotient(a + m, m);
      k := k - 1;
    } else if a >= m {
      k := ResidueQuotient(a - m, m);
      k := k + 1;
    } else {
      k := 0;
    }
  }

  lemma Intro(a: int, b: int, k: int, m: int)
    requires a == b + k * m
    ensures Congruent(a, b, m)
  {
    forall s | Periodic(s, m) ensures a in s <==> b in s {
      PeriodicShift(s, b, k, k * m, m);
    }
  }

  lemma {:induction false} PeriodicShift(s: iset<int>, b: int, k: int, c: int, m: int)
    requires Periodic(s, m) && c == k * m
    ensures b + c in s <==> b in s
    decreases if k < 0 then -k else k
  {
    hide Periodic;
    if k > 0 {
      PeriodicShift(s, b, k - 1, c - m, m);
      PeriodicStep(s, b + c - m, m);
    } else if k < 0 {
      PeriodicShift(s, b, k + 1, c + m, m);
      PeriodicStep(s, b + c, m);
    }
  }

  lemma PeriodicStep(s: iset<int>, x: int, m: int)
    requires Periodic(s, m)
    ensures x in s <==> x + m in s
  {
    assert PeriodAt(s, m, x);
  }

  /** The numbers with the residue of b are a union of classes, namely one. */
  lemma SameResidue(a: int, b: int, m: int)
    requires m > 0 && Congruent(a, b, m)
    ensures Residue(a, m) == Residue(b, m)
  {
    var s := iset x | Residue(x, m) == Residue(b, m);
    hide Residue;
    forall x ensures PeriodAt(s, m, x) {
      ResidueStep(x, m);
    }
    assert b in s;
  }

  lemma ResidueStep(a: int, m: int)
    requires m > 0
    ensures Residue(a + m, m) == Residue(a, m)
  {
  }

  lemma Elim(a: int, b: int, m: int) returns (k: int)
    requires m > 0 && Congruent(a, b, m)
    ensures a == b + k * m
  {
    hide Residue, Congruent;
    SameResidue(a, b, m);
    var i := ResidueQuotient(a, m);
    var j := ResidueQuotient(b, m);
    k := i - j;
    assert (i - j) * m == i * m - j * m;
  }

  /** In other words: equal remainders. */
  lemma CongruentRemainders(a: int, b: int, m: int)
    requires m > 0
    ensures Congruent(a, b, m) <==> a % m == b % m
  {
    hide Congruent;
    if Congruent(a, b, m) {
      var k := Elim(a, b, m);
      SameRemainder(a, b, k, m);
    }
    if a % m == b % m {
      QuotientDifference(a, b, m);
      Intro(a, b, a / m - b / m, m);
    }
  }

  lemma SameRemainder(a: int, b: int, k: int, m: int)
    requires m > 0 && a == b + k * m
    ensures a % m == b % m
  {
    var q, r := b / m, b % m;
    assert b == m * q + r;
    assert a == m * (q + k) + r;
    DivModUnique(a, m, q + k, r);
  }

  lemma QuotientDifference(a: int, b: int, m: int)
    requires m > 0 && a % m == b % m
    ensures a == b + (a / m - b / m) * m
  {
    var p, q := a / m, b / m;
    assert a == m * p + a % m && b == m * q + b % m;
    assert (p - q) * m == m * p - m * q;
  }

  lemma Sum(a: int, b: int, c: int, d: int, m: int)
    requires m > 0 && Congruent(a, b, m) && Congruent(c, d, m)
    ensures Congruent(a + c, b + d, m) && Congruent(a - c, b - d, m)
  {
    hide Congruent;
    var k := Elim(a, b, m);
    var l := Elim(c, d, m);
    assert (k + l) * m == k * m + l * m && (k - l) * m == k * m - l * m;
    Intro(a + c, b + d, k + l, m);
    Intro(a - c, b - d, k - l, m);
  }

  lemma Product(a: int, b: int, c: int, d: int, m: int)
    requires m > 0 && Congruent(a, b, m) && Congruent(c, d, m)
    ensures Congruent(a * c, b * d, m)
  {
    hide Congruent;
    var k := Elim(a, b, m);
    var l := Elim(c, d, m);
    ProductOfSums(a, b, k, c, d, l, m);
    Intro(a * c, b * d, b * l + k * d + k * l * m, m);
  }

  lemma ProductOfSums(a: int, b: int, k: int, c: int, d: int, l: int, m: int)
    requires a == b + k * m && c == d + l * m
    ensures a * c == b * d + (b * l + k * d + k * l * m) * m
  {
    assert (b + k * m) * (d + l * m) == b * d + (b * l + k * d + k * l * m) * m;
  }

  lemma ToResidue(a: int, m: int)
    requires m > 0
    ensures Congruent(Residue(a, m), a, m)
  {
    hide Residue, Congruent;
    var k := ResidueQuotient(a, m);
    assert -k * m == -(k * m);
    Intro(Residue(a, m), a, -k, m);
  }

  /** A number in [0, m) is the residue of all that are congruent to it. */
  lemma ResidueUnique(a: int, r: int, m: int)
    requires Congruent(a, r, m) && 0 <= r < m
    ensures Residue(a, m) == r
  {
    hide Congruent;
    SameResidue(a, r, m);
  }
}
