/** native/common/ed25519_orlp/src/sc.c: arithmetic modulo the group order, on 21-bit limbs. */
module Scalar21 {
  import opened Ints
  import opened Bits
  import Congruence

  const L: int := 0x1000_0000_0000_0000_0000_0000_0000_0000_14de_f9de_a2f7_9cd6_5812_631a_5cf5_d3ed

  ghost predicate CongL(a: int, b: int) {
    Congruence.Congruent(a, b, L)
  }

  lemma CongLTrans(a: int, b: int, c: int)
    requires CongL(a, b) && CongL(b, c)
    ensures CongL(a, c)
  {
  }

  lemma CongLIntro(a: int, b: int, k: int)
    requires a == b + k * L
    ensures CongL(a, b)
  {
    Congruence.Intro(a, b, k, L);
  }

  /** A number in [0, L) congruent to b is b mod L. */
  lemma CongLReduced(a: int, b: int)
    requires CongL(a, b) && 0 <= a < L
    ensures a == b % L
  {
    var k := Congruence.Elim(a, b, L);
    DivModUnique(b, L, -k, a);
  }

  /** 2^(21*i) */
  function Radix(i: nat): (r: int)
    ensures r > 0
    decreases i
  {
    if i == 0 then 1 else 0x20_0000 * Radix(i - 1)
  }

  /** The number the first n limbs stand for. */
  function Val(s: seq<int>, n: nat): int
    requires n <= |s|
    decreases n
  {
    if n == 0 then 0 else Val(s, n - 1) + Radix(n - 1) * s[n - 1]
  }

  function Value(s: seq<int>): int {
    Val(s, |s|)
  }

  /** Adding d to limb i adds d * 2^(21*i). */
  lemma {:induction false} AddAt(s: seq<int>, i: nat, d: int, x: int, n: nat)
    requires i < |s| && n <= |s| && x == s[i] + d
    ensures Val(s[i := x], n) == Val(s, n) + if i < n then Radix(i) * d else 0
  {
    hide Radix;
    if n > 0 {
      AddAt(s, i, d, x, n - 1);
      if i == n - 1 {
        Difference(Radix(i), x, s[i], d);
      }
    }
  }

  lemma Difference(w: int, x: int, y: int, d: int)
    requires x == y + d
    ensures w * x == w * y + w * d
  {
  }

  lemma RadixSteps(i: nat)
    ensures Radix(i + 1) == 0x20_0000 * Radix(i)
    ensures Radix(i + 2) == 0x400_0000_0000 * Radix(i)
    ensures Radix(i + 3) == 0x8000_0000_0000_0000 * Radix(i)
    ensures Radix(i + 4) == 0x10_0000_0000_0000_0000_0000 * Radix(i)
    ensures Radix(i + 5) == 0x200_0000_0000_0000_0000_0000_0000 * Radix(i)
    ensures Radix(i + 12) ==
      0x1000_0000_0000_0000_0000_0000_0000_0000_0000_0000_0000_0000_0000_0000_0000_0000 * Radix(i)
  {
    assert Radix(i + 6) == 0x20_0000 * Radix(i + 5) && Radix(i + 8) == 0x400_0000_0000 * Radix(i + 6);
    assert Radix(i + 10) == 0x400_0000_0000 * Radix(i + 8) && Radix(i + 12) == 0x400_0000_0000 * Radix(i + 10);
  }

  // A limb that is folded stays below 2^40, every limb below 2^61.
  const FOLD_LIMIT: int := 0x100_0000_0000
  const LIMB_LIMIT: int := 0x2000_0000_0000_0000

  predicate Near(x: int, y: int, b: int) {
    -b <= x - y <= b
  }

  /** Limbs lo, ..., hi-1 at most b in magnitude. */
  predicate Within(s: seq<int>, lo: nat, hi: nat, b: int) {
    hi <= |s| && forall j :: lo <= j < hi ==> AbsAtMost(s[j], b)
  }

  /** Clears limb i: s[i] * 2^(21*(i-12)) times L is taken out of the number. */
  method Fold(s: seq<int64>, i: nat, ghost b: nat, ghost v: int) returns (t: seq<int64>)
    requires |s| == 24 && 12 <= i < 24 && CongL(Value(s), v)
    requires AbsAtMost(s[i], b) && b <= FOLD_LIMIT && Within(s, 0, 24, LIMB_LIMIT)
    ensures |t| == 24 && t[i] == 0 && CongL(Value(t), v)
    ensures forall j :: 0 <= j < 24 && !(i - 12 <= j <= i - 7) && j != i ==> t[j] == s[j]
    ensures forall j :: i - 12 <= j <= i - 7 ==> Near(t[j], s[j], 0x10_0000 * b)
  {
    hide Value, CongL, Radix;
    FoldValue(s, i);
    CongLIntro(Value(Folded(s, i)), Value(s), -(s[i] * Radix(i - 12)));
    CongLTrans(Value(Folded(s, i)), Value(s), v);
    FoldNear(s, i, b);
    t := Folded(s, i);
    hide Folded;
  }

  function Folded(s: seq<int64>, i: nat): seq<int64>
    requires |s| == 24 && 12 <= i < 24
    requires AbsAtMost(s[i], FOLD_LIMIT) && Within(s, 0, 24, LIMB_LIMIT)
  {
    var x: int, j := s[i], i - 12;
    s[j := s[j] + x * 666643][j + 1 := s[j + 1] + x * 470296][j + 2 := s[j + 2] + x * 654183]
     [j + 3 := s[j + 3] - x * 997805][j + 4 := s[j + 4] + x * 136657][j + 5 := s[j + 5] - x * 683901][i := 0]
  }

  lemma FoldNear(s: seq<int64>, i: nat, b: nat)
    requires |s| == 24 && 12 <= i < 24
    requires AbsAtMost(s[i], b) && b <= FOLD_LIMIT && Within(s, 0, 24, LIMB_LIMIT)
    ensures forall j :: 0 <= j < 24 && !(i - 12 <= j <= i - 7) && j != i ==> Folded(s, i)[j] == s[j]
    ensures forall j :: i - 12 <= j <= i - 7 ==> Near(Folded(s, i)[j], s[j], 0x10_0000 * b)
    ensures Folded(s, i)[i] == 0
  {
  }

  lemma FoldValue(s: seq<int64>, i: nat)
    requires |s| == 24 && 12 <= i < 24
    requires AbsAtMost(s[i], FOLD_LIMIT) && Within(s, 0, 24, LIMB_LIMIT)
    ensures Value(Folded(s, i)) == Value(s) - (s[i] * Radix(i - 12)) * L
  {
    hide Radix, Val, Within;
    var x: int, j := s[i], i - 12;
    var z: seq<int> := s;
    var s0 := z[j := s[j] + x * 666643];
    var s1 := s0[j + 1 := s[j + 1] + x * 470296];
    var s2 := s1[j + 2 := s[j + 2] + x * 654183];
    var s3 := s2[j + 3 := s[j + 3] - x * 997805];
    var s4 := s3[j + 4 := s[j + 4] + x * 136657];
    var s5 := s4[j + 5 := s[j + 5] - x * 683901];
    AddAt(s, j, x * 666643, s[j] + x * 666643, |s|);
    AddAt(s0, j + 1, x * 470296, s[j + 1] + x * 470296, |s|);
    AddAt(s1, j + 2, x * 654183, s[j + 2] + x * 654183, |s|);
    AddAt(s2, j + 3, -(x * 997805), s[j + 3] - x * 997805, |s|);
    AddAt(s3, j + 4, x * 136657, s[j + 4] + x * 136657, |s|);
    AddAt(s4, j + 5, -(x * 683901), s[j + 5] - x * 683901, |s|);
    AddAt(s5, i, -x, 0, |s|);
    RadixSteps(j);
    FoldSum(x, Radix(j), Radix(j + 1), Radix(j + 2), Radix(j + 3), Radix(j + 4), Radix(j + 5), Radix(i));
  }

  lemma FoldSum(x: int, r0: int, r1: int, r2: int, r3: int, r4: int, r5: int, r12: int)
    requires r1 == 0x20_0000 * r0
    requires r2 == 0x400_0000_0000 * r0
    requires r3 == 0x8000_0000_0000_0000 * r0
    requires r4 == 0x10_0000_0000_0000_0000_0000 * r0
    requires r5 == 0x200_0000_0000_0000_0000_0000_0000 * r0
    requires r12 == 0x1000_0000_0000_0000_0000_0000_0000_0000_0000_0000_0000_0000_0000_0000_0000_0000 * r0
    ensures r0 * (x * 666643) + r1 * (x * 470296) + r2 * (x * 654183) + r3 * -(x * 997805) + r4 * (x * 136657)
      + r5 * -(x * 683901) + r12 * -x == -((x * r0) * L)
  {
    var y := x * r0;
    assert r0 * (x * 666643) == 666643 * y;
    assert r1 * (x * 470296) == 0x20_0000 * 470296 * y;
    assert r2 * (x * 654183) == 0x400_0000_0000 * 654183 * y;
    assert r3 * (x * 997805) == 0x8000_0000_0000_0000 * 997805 * y;
    assert r4 * (x * 136657) == 0x10_0000_0000_0000_0000_0000 * 136657 * y;
    assert r5 * (x * 683901) == 0x200_0000_0000_0000_0000_0000_0000 * 683901 * y;
    assert r12 * x == 0x1000_0000_0000_0000_0000_0000_0000_0000_0000_0000_0000_0000_0000_0000_0000_0000 * y;
  }

  /** Carries from limb i to the next, rounding to the nearest: a signed digit stays. */
  method CarrySigned(s: seq<int64>, i: nat, ghost b: nat) returns (t: seq<int64>)
    requires |s| == 24 && i < 23
    requires AbsAtMost(s[i], b * 0x20_0000) && b <= FOLD_LIMIT && Within(s, 0, 24, LIMB_LIMIT)
    ensures |t| == 24 && Value(t) == Value(s)
    ensures forall j :: 0 <= j < 24 && j != i && j != i + 1 ==> t[j] == s[j]
    ensures AbsAtMost(t[i], 0x10_0000) && Near(t[i + 1], s[i + 1], b + 1)
  {
    hide Value;
    var carry: int64 := (s[i] + 0x10_0000) / 0x20_0000;
    t := s[i + 1 := s[i + 1] + carry][i := s[i] - carry * 0x20_0000];
    CarryValue(s, i, carry);
  }

  /** Carries from limb i to the next, rounding down: a digit in [0, 2^21) stays. */
  method CarryFloor(s: seq<int64>, i: nat, ghost b: nat) returns (t: seq<int64>)
    requires |s| == 24 && i < 23
    requires AbsAtMost(s[i], b * 0x20_0000) && b <= 2 * FOLD_LIMIT && Within(s, 0, 24, 2 * LIMB_LIMIT)
    ensures |t| == 24 && Value(t) == Value(s)
    ensures forall j :: 0 <= j < 24 && j != i && j != i + 1 ==> t[j] == s[j]
    ensures 0 <= t[i] < 0x20_0000 && Near(t[i + 1], s[i + 1], b + 1)
  {
    hide Value;
    var carry: int64 := s[i] / 0x20_0000;
    t := s[i + 1 := s[i + 1] + carry][i := s[i] - carry * 0x20_0000];
    CarryValue(s, i, carry);
  }

  lemma CarryValue(s: seq<int>, i: nat, c: int)
    requires i + 1 < |s|
    ensures Value(s[i + 1 := s[i + 1] + c][i := s[i] - c * 0x20_0000]) == Value(s)
  {
    assert Radix(i + 1) == 0x20_0000 * Radix(i);
    hide Radix, Val;
    AddAt(s, i + 1, c, s[i + 1] + c, |s|);
    AddAt(s[i + 1 := s[i + 1] + c], i, -(c * 0x20_0000), s[i] - c * 0x20_0000, |s|);
    CarrySum(Radix(i), Radix(i + 1), c);
  }

  lemma CarrySum(r: int, r': int, c: int)
    requires r' == 0x20_0000 * r
    ensures r' * c + r * -(c * 0x20_0000) == 0
  {
  }

  // The reduction shared by sc_reduce and sc_muladd ------------------------------------------------

  /** What both functions have before the first fold. */
  predicate Raw(s: seq<int>) {
    |s| == 24 && Within(s, 0, 24, 0x4_0000_0000)
  }

  method FoldTop(s: seq<int64>) returns (t: seq<int64>)
    requires Raw(s)
    ensures |t| == 24 && CongL(Value(t), Value(s))
    ensures Within(t, 0, 17, 0x200_0000_0000_0000) && Within(t, 17, 18, 0x4_0000_0000) && Within(t, 18, 24, 0)
  {
    hide Value, CongL;
    ghost var v := Value(s);
    CongLIntro(v, v, 0);
    t := Fold(s, 23, 0x4_0000_0000, v);
    t := Fold(t, 22, 0x4_0000_0000, v);
    t := Fold(t, 21, 0x4_0000_0000, v);
    t := Fold(t, 20, 0x4_0000_0000, v);
    t := Fold(t, 19, 0x4_0000_0000, v);
    t := Fold(t, 18, 0x4_0000_0000, v);
  }

  method CarryMiddle(s: seq<int64>) returns (t: seq<int64>)
    requires |s| == 24
    requires Within(s, 0, 17, 0x200_0000_0000_0000) && Within(s, 17, 18, 0x4_0000_0000) && Within(s, 18, 24, 0)
    ensures |t| == 24 && Value(t) == Value(s)
    ensures Within(t, 0, 18, 0x200_0000_0000_0000) && Within(t, 6, 18, 0x20_0000_0000) && Within(t, 18, 24, 0)
  {
    hide Value;
    ghost var b := 0x10_0000_0000;
    t := CarrySigned(s, 6, b);
    t := CarrySigned(t, 8, b);
    t := CarrySigned(t, 10, b);
    t := CarrySigned(t, 12, b);
    t := CarrySigned(t, 14, b);
    t := CarrySigned(t, 16, b);
    t := CarrySigned(t, 7, b + 0x1_0000);
    t := CarrySigned(t, 9, b + 0x1_0000);
    t := CarrySigned(t, 11, b + 0x1_0000);
    t := CarrySigned(t, 13, b + 0x1_0000);
    t := CarrySigned(t, 15, b + 0x1_0000);
  }

  method FoldMiddle(s: seq<int64>) returns (t: seq<int64>)
    requires |s| == 24
    requires Within(s, 0, 18, 0x200_0000_0000_0000) && Within(s, 6, 18, 0x20_0000_0000) && Within(s, 18, 24, 0)
    ensures |t| == 24 && CongL(Value(t), Value(s))
    ensures Within(t, 0, 12, 0x1000_0000_0000_0000) && Within(t, 12, 24, 0)
  {
    hide Value, CongL;
    ghost var v := Value(s);
    CongLIntro(v, v, 0);
    t := Fold(s, 17, 0x20_0000_0000, v);
    t := Fold(t, 16, 0x20_0000_0000, v);
    t := Fold(t, 15, 0x20_0000_0000, v);
    t := Fold(t, 14, 0x20_0000_0000, v);
    t := Fold(t, 13, 0x20_0000_0000, v);
    t := Fold(t, 12, 0x20_0000_0000, v);
  }

  method CarryLow(s: seq<int64>) returns (t: seq<int64>)
    requires |s| == 24
    requires Within(s, 0, 12, 0x1000_0000_0000_0000) && Within(s, 12, 24, 0)
    ensures |t| == 24 && Value(t) == Value(s)
    ensures Within(t, 0, 13, 0x100_0000_0000) && Within(t, 11, 12, 0x10_0000) && Within(t, 13, 24, 0)
  {
    hide Value;
    ghost var b := 0x80_0000_0000;
    t := CarrySigned(s, 0, b);
    t := CarrySigned(t, 2, b);
    t := CarrySigned(t, 4, b);
    t := CarrySigned(t, 6, b);
    t := CarrySigned(t, 8, b);
    t := CarrySigned(t, 10, b);
    t := CarrySigned(t, 1, b + 0x8_0000);
    t := CarrySigned(t, 3, b + 0x8_0000);
    t := CarrySigned(t, 5, b + 0x8_0000);
    t := CarrySigned(t, 7, b + 0x8_0000);
    t := CarrySigned(t, 9, b + 0x8_0000);
    t := CarrySigned(t, 11, b + 0x8_0000);
  }

  predicate Digits(s: seq<int>, n: nat) {
    n <= |s| && forall j :: 0 <= j < n ==> 0 <= s[j] < 0x20_0000
  }

  /** The unsigned carries 0 to 10. */
  method FloorLow(s: seq<int64>, ghost b: nat) returns (t: seq<int64>)
    requires |s| == 24 && 1 <= b <= 2 * FOLD_LIMIT
    requires Within(s, 0, 12, b * 0x10_0000) && Within(s, 12, 24, 0)
    ensures |t| == 24 && Value(t) == Value(s)
    ensures Digits(t, 11) && AbsAtMost(t[11], b * 0x20_0000) && Within(t, 12, 24, 0)
  {
    hide Value;
    t := CarryFloor(s, 0, b);
    t := CarryFloor(t, 1, b);
    t := CarryFloor(t, 2, b);
    t := CarryFloor(t, 3, b);
    t := CarryFloor(t, 4, b);
    t := CarryFloor(t, 5, b);
    t := CarryFloor(t, 6, b);
    t := CarryFloor(t, 7, b);
    t := CarryFloor(t, 8, b);
    t := CarryFloor(t, 9, b);
    t := CarryFloor(t, 10, b);
  }

  lemma {:induction false} ValTrim(s: seq<int>, m: nat, n: nat)
    requires m <= n <= |s| && forall j :: m <= j < n ==> s[j] == 0
    ensures Val(s, n) == Val(s, m)
  {
    hide Radix;
    if n > m { ValTrim(s, m, n - 1); }
  }

  lemma ValExplicit(s: seq<int>)
    requires |s| >= 12
    ensures Val(s, 12) == s[0]
      + 0x20_0000 * s[1]
      + 0x400_0000_0000 * s[2]
      + 0x8000_0000_0000_0000 * s[3]
      + 0x10_0000_0000_0000_0000_0000 * s[4]
      + 0x200_0000_0000_0000_0000_0000_0000 * s[5]
      + 0x4000_0000_0000_0000_0000_0000_0000_0000 * s[6]
      + 0x8_0000_0000_0000_0000_0000_0000_0000_0000_0000 * s[7]
      + 0x100_0000_0000_0000_0000_0000_0000_0000_0000_0000_0000 * s[8]
      + 0x2000_0000_0000_0000_0000_0000_0000_0000_0000_0000_0000_0000 * s[9]
      + 0x4_0000_0000_0000_0000_0000_0000_0000_0000_0000_0000_0000_0000_0000 * s[10]
      + 0x80_0000_0000_0000_0000_0000_0000_0000_0000_0000_0000_0000_0000_0000_0000 * s[11]
  {
  }

  lemma LowValue(s: seq<int>)
    requires |s| == 24 && Within(s, 12, 24, 0)
    ensures Value(s) == Val(s, 12)
  {
    ValTrim(s, 12, 24);
  }

  lemma FoldedBound(s: seq<int>)
    requires |s| == 24 && Within(s, 0, 6, 0x2000_0000_0000_0000) && Within(s, 6, 12, 0x100_0000_0000)
      && Within(s, 11, 12, 0x10_0000)
    ensures AbsAtMost(Val(s, 12), TOP - 1)
  {
    ValExplicit(s);
    hide Val;
  }

  // 2^252
  const TOP: int := 0x1000_0000_0000_0000_0000_0000_0000_0000_0000_0000_0000_0000_0000_0000_0000_0000

  lemma DigitsBound(s: seq<int>)
    requires |s| == 24 && Digits(s, 12)
    ensures 0 <= Val(s, 12) < TOP
  {
    ValExplicit(s);
    hide Val;
  }

  lemma ThirteenLimbs(s: seq<int>)
    requires |s| == 24 && Within(s, 13, 24, 0)
    ensures Value(s) == Val(s, 12) + Radix(12) * s[12]
  {
    hide Radix;
    ValTrim(s, 13, 24);
  }

  /** The carry out of limb 11 is the sign of the number. */
  lemma TopCarry(s: seq<int>)
    requires |s| == 24 && Digits(s, 12) && Within(s, 13, 24, 0) && AbsAtMost(Value(s), TOP - 1)
    ensures s[12] == if Value(s) < 0 then -1 else 0
  {
    ThirteenLimbs(s);
    DigitsBound(s);
    assert Radix(12) == TOP;
    hide Value, Val, Radix, Digits;
    SignOf(Value(s), Val(s, 12), s[12], Radix(12));
  }

  lemma SignOf(v: int, low: int, c: int, r: int)
    requires r == TOP && v == low + r * c && 0 <= low < TOP && AbsAtMost(v, TOP - 1)
    ensures c == if v < 0 then -1 else 0
  {
    assert r * c == 0x1000_0000_0000_0000_0000_0000_0000_0000_0000_0000_0000_0000_0000_0000_0000_0000 * c;
  }

  lemma FoldTwelve(s: seq<int64>)
    requires |s| == 24 && AbsAtMost(s[12], FOLD_LIMIT) && Within(s, 0, 24, LIMB_LIMIT)
    ensures Value(Folded(s, 12)) == Value(s) - s[12] * L
  {
    FoldValue(s, 12);
    assert Radix(0) == 1;
  }

  predicate Reduced(s: seq<int>) {
    |s| == 24 && Digits(s, 11) && 0 <= s[11] <= 0x20_0000 && Within(s, 12, 24, 0)
  }

  lemma TopDigit(s: seq<int>)
    requires |s| == 24 && Digits(s, 11) && Within(s, 12, 24, 0) && 0 <= Value(s) < L
    ensures 0 <= s[11] <= 0x20_0000
  {
    LowValue(s);
    ValExplicit(s);
    hide Val;
  }

  /** The first of the two folds of limb 12 and the signed digits before it: what is left is the
      number or the number less L, below 2^252 in magnitude. */
  method FoldLast(s: seq<int64>, ghost v: int) returns (t: seq<int64>)
    requires |s| == 24 && CongL(Value(s), v)
    requires Within(s, 0, 13, 0x100_0000_0000) && Within(s, 11, 12, 0x10_0000) && Within(s, 13, 24, 0)
    ensures |t| == 24 && CongL(Value(t), v) && AbsAtMost(Value(t), TOP - 1)
    ensures Digits(t, 12) && Within(t, 13, 24, 0) && t[12] == if Value(t) < 0 then -1 else 0
  {
    hide Value, CongL, Val;
    t := Fold(s, 12, 0x100_0000_0000, v);
    LowValue(t);
    FoldedBound(t);
    t := FloorLow(t, 2 * FOLD_LIMIT);
    t := CarryFloor(t, 11, 2 * FOLD_LIMIT);
    TopCarry(t);
  }

  /** The second fold adds L back when the number was negative. */
  method FoldSign(s: seq<int64>, ghost v: int) returns (t: seq<int64>)
    requires |s| == 24 && CongL(Value(s), v) && AbsAtMost(Value(s), TOP - 1)
    requires Digits(s, 12) && Within(s, 13, 24, 0) && s[12] == if Value(s) < 0 then -1 else 0
    ensures Reduced(t) && Value(t) == v % L && 0 <= Value(t) < L
  {
    hide Value, CongL;
    FoldTwelve(s);
    FoldNear(s, 12, 1);
    t := Folded(s, 12);
    CongLIntro(Value(t), Value(s), -s[12]);
    CongLTrans(Value(t), Value(s), v);
    CongLReduced(Value(t), v);
    hide Folded;
    t := FloorLow(t, 4);
    TopDigit(t);
  }

  /** From the first fold on, sc_reduce and sc_muladd are the same code. */
  method Reduce(s: seq<int64>) returns (t: seq<int64>)
    requires Raw(s)
    ensures Reduced(t) && Value(t) == Value(s) % L && 0 <= Value(t) < L
  {
    hide Value, CongL;
    ghost var v := Value(s);
    t := FoldTop(s);
    t := CarryMiddle(t);
    ghost var w := Value(t);
    t := FoldMiddle(t);
    CongLTrans(Value(t), w, v);
    t := CarryLow(t);
    t := FoldLast(t, v);
    t := FoldSign(t, v);
  }
}
