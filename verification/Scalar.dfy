/** native/common/ed25519_orlp/src/sc.c: sc_reduce and sc_muladd. */
module Scalar {
  import opened Ints
  import opened Bits
  import opened Rings
  import opened Bytes
  import opened Scalar21
  import opened ScalarBytes

  /** Overwrites the 64-byte number s by s mod L, in its first 32 bytes. */
  method ScReduce(s: array<byte>)
    requires s.Length == 64
    modifies s
    ensures Nat(s[..32]) == old(Nat(s[..])) % L && s[32..] == old(s[32..])
  {
    hide Nat, Value, Limbs24, Packed;
    Limbs24Value(s[..]);
    var t := Reduce(Limbs24(s[..]));
    PackedNat(t);
    LowValue(t);
    StoreBytes(s, 0, Packed(t));
    assert s[0..32] == s[..32];
  }

  // Multiplication ---------------------------------------------------------------------------------

  /** The sum of the products a[i] * b[k-i] for i below n. */
  function Column(a: seq<int>, b: seq<int>, k: nat, n: nat): int
    requires n <= |a|
    decreases n
  {
    if n == 0 then 0
    else Column(a, b, k, n - 1) + if n - 1 <= k < |b| + n - 1 then a[n - 1] * b[k - n + 1] else 0
  }

  function Product(a: seq<int>, b: seq<int>, n: nat): (t: seq<int>)
    requires n <= |a|
    ensures |t| == 24
  {
    seq(24, k requires 0 <= k < 24 => Column(a, b, k, n))
  }

  /** b moved up by i limbs */
  function Shifted(b: seq<int>, i: nat): (t: seq<int>)
    ensures |t| == 24
  {
    seq(24, k requires 0 <= k < 24 => if i <= k < |b| + i then b[k - i] else 0)
  }

  lemma {:induction false} ShiftedLow(b: seq<int>, i: nat, n: nat)
    requires n <= i <= 24
    ensures Val(Shifted(b, i), n) == 0
  {
    hide Radix;
    if n > 0 { ShiftedLow(b, i, n - 1); }
  }

  lemma {:induction false} ShiftedVal(b: seq<int>, i: nat, n: nat)
    requires n <= |b| && n + i <= 24
    ensures Val(Shifted(b, i), n + i) == Radix(i) * Val(b, n)
  {
    hide Radix;
    if n == 0 {
      ShiftedLow(b, i, i);
    } else {
      ShiftedVal(b, i, n - 1);
      RadixAdd(n - 1, i);
      Reweigh(Radix(i), Radix(n - 1), Radix(n - 1 + i), Val(b, n - 1), b[n - 1], Val(b, n));
    }
  }

  lemma Reweigh(r: int, q: int, rq: int, v: int, x: int, v': int)
    requires rq == r * q && v' == v + q * x
    ensures r * v' == r * v + rq * x
  {
    assert r * (q * x) == (r * q) * x;
  }

  lemma {:induction false} RadixAdd(m: nat, n: nat)
    ensures Radix(m + n) == Radix(n) * Radix(m)
    decreases m
  {
    if m > 0 { RadixAdd(m - 1, n); }
  }

  lemma ShiftedValue(b: seq<int>, i: nat)
    requires |b| + i <= 24
    ensures Value(Shifted(b, i)) == Radix(i) * Value(b)
  {
    ShiftedVal(b, i, |b|);
    ValTrim(Shifted(b, i), |b| + i, 24);
  }

  lemma {:induction false} AddRow(a: seq<int>, b: seq<int>, i: nat, n: nat)
    requires i < |a| && n <= 24
    ensures Val(Product(a, b, i + 1), n) == Val(Product(a, b, i), n) + a[i] * Val(Shifted(b, i), n)
  {
    hide Radix;
    if n > 0 {
      AddRow(a, b, i, n - 1);
      var p, p', t := Product(a, b, i)[n - 1], Product(a, b, i + 1)[n - 1], Shifted(b, i)[n - 1];
      assert p' == p + a[i] * t;
      hide Product, Shifted, Column;
      Exchange(Radix(n - 1), p, a[i], Val(Shifted(b, i), n - 1), t);
    }
  }

  lemma {:induction false} ProductVal(a: seq<int>, b: seq<int>, n: nat)
    requires n <= |a| <= 12 && |b| <= 12
    ensures Value(Product(a, b, n)) == Val(a, n) * Value(b)
  {
    hide Value, Radix;
    if n == 0 {
      ProductZero(a, b);
    } else {
      var i := n - 1;
      ProductVal(a, b, i);
      AddRowValue(a, b, i);
      ShiftedValue(b, i);
      LastTerm(Val(a, i), Radix(i), a[i], Value(b), Val(a, n), Value(Shifted(b, i)));
    }
  }

  lemma AddRowValue(a: seq<int>, b: seq<int>, i: nat)
    requires i < |a|
    ensures Value(Product(a, b, i + 1)) == Value(Product(a, b, i)) + a[i] * Value(Shifted(b, i))
  {
    AddRow(a, b, i, 24);
  }

  lemma LastTerm(v: int, r: int, x: int, b: int, v': int, s: int)
    requires v' == v + r * x && s == r * b
    ensures v * b + x * s == v' * b
  {
    assert x * (r * b) == (r * x) * b;
  }

  lemma ProductZero(a: seq<int>, b: seq<int>)
    ensures Value(Product(a, b, 0)) == 0
  {
    ValTrim(Product(a, b, 0), 0, 24);
  }

  predicate Operand(a: seq<int>) {
    |a| == 12 && forall i :: 0 <= i < 12 ==> 0 <= a[i] < 0x200_0000
  }

  lemma {:induction false} ColumnBound(a: seq<int>, b: seq<int>, k: nat, n: nat)
    requires Operand(a) && Operand(b) && n <= 12
    ensures 0 <= Column(a, b, k, n) <= n * 0x4_0000_0000_0000
  {
    if n > 0 {
      ColumnBound(a, b, k, n - 1);
      if n - 1 <= k < 12 + n - 1 {
        ProductSmall(a[n - 1], b[k - n + 1]);
      }
    }
  }

  lemma ProductSmall(x: int, y: int)
    requires 0 <= x < 0x200_0000 && 0 <= y < 0x200_0000
    ensures 0 <= x * y <= 0x4_0000_0000_0000
  {
    MulNonneg(x, y);
    MulNonneg(0x200_0000 - x, y);
    assert (0x200_0000 - x) * y == 0x200_0000 * y - x * y;
  }

  /** Column k of the product, with limb k of c added */
  function MulSum(a: seq<int64>, b: seq<int64>, c: seq<int64>, k: nat): (r: int64)
    requires Operand(a) && Operand(b) && Operand(c) && k < 24
    ensures AbsAtMost(r, 0x40_0000_0000_0000)
  {
    ColumnBound(a, b, k, 12);
    (if k < 12 then c[k] else 0) + Column(a, b, k, 12)
  }

  function MulSums(a: seq<int64>, b: seq<int64>, c: seq<int64>): (t: seq<int64>)
    requires Operand(a) && Operand(b) && Operand(c)
    ensures |t| == 24 && Within(t, 0, 24, 0x40_0000_0000_0000)
  {
    seq(24, k requires 0 <= k < 24 => MulSum(a, b, c, k))
  }

  lemma {:induction false} AddVal(p: seq<int>, c: seq<int>, t: seq<int>, n: nat)
    requires n <= |p| == |t| && |c| <= |p|
    requires forall k :: 0 <= k < n ==> t[k] == p[k] + if k < |c| then c[k] else 0
    ensures Val(t, n) == Val(p, n) + Val(c, if n < |c| then n else |c|)
  {
    hide Radix;
    if n > 0 {
      AddVal(p, c, t, n - 1);
      var x := if n - 1 < |c| then c[n - 1] else 0;
      Multiply(Radix(n - 1), p[n - 1], x);
    }
  }

  lemma MulSumsValue(a: seq<int64>, b: seq<int64>, c: seq<int64>)
    requires Operand(a) && Operand(b) && Operand(c)
    ensures Value(MulSums(a, b, c)) == Value(a) * Value(b) + Value(c)
  {
    var n, t := |a|, MulSums(a, b, c);
    ProductVal(a, b, n);
    AddVal(Product(a, b, n), c, t, |t|);
  }

  /** The signed carries of sc_muladd before the first fold: even limbs, then odd limbs. */
  method CarrySums(s: seq<int64>) returns (t: seq<int64>)
    requires |s| == 24 && Within(s, 0, 24, 0x40_0000_0000_0000) && s[23] == 0
    ensures Raw(t) && Value(t) == Value(s)
  {
    t := CarryEven(s);
    t := CarryOdd(t);
  }

  predicate EvensSmall(s: seq<int>) {
    && |s| == 24
    && AbsAtMost(s[0], 0x10_0000) && AbsAtMost(s[2], 0x10_0000) && AbsAtMost(s[4], 0x10_0000)
    && AbsAtMost(s[6], 0x10_0000) && AbsAtMost(s[8], 0x10_0000) && AbsAtMost(s[10], 0x10_0000)
    && AbsAtMost(s[12], 0x10_0000) && AbsAtMost(s[14], 0x10_0000) && AbsAtMost(s[16], 0x10_0000)
    && AbsAtMost(s[18], 0x10_0000) && AbsAtMost(s[20], 0x10_0000) && AbsAtMost(s[22], 0x10_0000)
  }

  method CarryEven(s: seq<int64>) returns (t: seq<int64>)
    requires |s| == 24 && Within(s, 0, 24, 0x40_0000_0000_0000) && s[23] == 0
    ensures |t| == 24 && Value(t) == Value(s) && Within(t, 0, 24, 0x40_0002_0000_0001)
      && AbsAtMost(t[23], 0x3_0000_0000)
    ensures EvensSmall(t)
  {
    hide Value;
    t := CarryEvenLow(s);
    t := CarryEvenHigh(t);
  }

  /** The even limbs of the lower half */
  method CarryEvenLow(s: seq<int64>) returns (t: seq<int64>)
    requires |s| == 24 && Within(s, 0, 24, 0x40_0000_0000_0000)
    ensures |t| == 24 && Value(t) == Value(s) && Within(t, 0, 12, 0x40_0002_0000_0001)
    ensures forall j :: 12 <= j < 24 ==> t[j] == s[j]
    ensures AbsAtMost(t[0], 0x10_0000) && AbsAtMost(t[2], 0x10_0000) && AbsAtMost(t[4], 0x10_0000)
    ensures AbsAtMost(t[6], 0x10_0000) && AbsAtMost(t[8], 0x10_0000) && AbsAtMost(t[10], 0x10_0000)
  {
    hide Value;
    ghost var b := 0x2_0000_0000;
    t := CarrySigned(s, 0, b);
    t := CarrySigned(t, 2, b);
    t := CarrySigned(t, 4, b);
    t := CarrySigned(t, 6, b);
    t := CarrySigned(t, 8, b);
    t := CarrySigned(t, 10, b);
  }

  /** And those of the upper half */
  method CarryEvenHigh(s: seq<int64>) returns (t: seq<int64>)
    requires |s| == 24 && Within(s, 0, 12, 0x40_0002_0000_0001) && Within(s, 12, 24, 0x40_0000_0000_0000) && s[23] == 0
    ensures |t| == 24 && Value(t) == Value(s) && Within(t, 12, 24, 0x40_0002_0000_0001)
    ensures forall j :: 0 <= j < 12 ==> t[j] == s[j]
    ensures AbsAtMost(t[12], 0x10_0000) && AbsAtMost(t[14], 0x10_0000) && AbsAtMost(t[16], 0x10_0000)
    ensures AbsAtMost(t[18], 0x10_0000) && AbsAtMost(t[20], 0x10_0000) && AbsAtMost(t[22], 0x10_0000)
    ensures AbsAtMost(t[23], 0x3_0000_0000)
  {
    hide Value;
    ghost var b := 0x2_0000_0000;
    t := CarrySigned(s, 12, b);
    t := CarrySigned(t, 14, b);
    t := CarrySigned(t, 16, b);
    t := CarrySigned(t, 18, b);
    t := CarrySigned(t, 20, b);
    t := CarrySigned(t, 22, b);
  }

  method CarryOdd(s: seq<int64>) returns (t: seq<int64>)
    requires |s| == 24 && Within(s, 0, 24, 0x40_0002_0000_0001) && AbsAtMost(s[23], 0x3_0000_0000)
    requires EvensSmall(s)
    ensures Raw(t) && Value(t) == Value(s)
  {
    hide Value;
    ghost var b := 0x2_0000_0000;
    t := s;
    t := CarrySigned(t, 1, b + 0x1001);
    t := CarrySigned(t, 3, b + 0x1001);
    t := CarrySigned(t, 5, b + 0x1001);
    t := CarrySigned(t, 7, b + 0x1001);
    t := CarrySigned(t, 9, b + 0x1001);
    t := CarrySigned(t, 11, b + 0x1001);
    t := CarrySigned(t, 13, b + 0x1001);
    t := CarrySigned(t, 15, b + 0x1001);
    t := CarrySigned(t, 17, b + 0x1001);
    t := CarrySigned(t, 19, b + 0x1001);
    t := CarrySigned(t, 21, b + 0x1001);
  }

  /** Writes (a * b + c) mod L at s[o..o + 32]; the operands are the first 32 bytes of their arrays,
      and s may be one of them. */
  method ScMuladd(s: array<byte>, o: nat, a: array<byte>, b: array<byte>, c: array<byte>)
    requires o + 32 <= s.Length && a.Length >= 32 && b.Length >= 32 && c.Length >= 32
    modifies s
    ensures Nat(s[o..o + 32]) == old(Nat(a[..32]) * Nat(b[..32]) + Nat(c[..32])) % L
    ensures s[..o] == old(s[..o]) && s[o + 32..] == old(s[o + 32..])
  {
    hide Nat, Value, Limbs12, Packed, MulSums, Digits;
    var x, y, z := Limbs12(a[..32]), Limbs12(b[..32]), Limbs12(c[..32]);
    OperandOf(a[..32]);
    OperandOf(b[..32]);
    OperandOf(c[..32]);
    MulSumsValue(x, y, z);
    TopSum(x, y, z);
    var t := CarrySums(MulSums(x, y, z));
    t := Reduce(t);
    PackedNat(t);
    LowValue(t);
    StoreBytes(s, o, Packed(t));
  }

  lemma OperandOf(s: seq<byte>)
    requires |s| == 32
    ensures Operand(Limbs12(s)) && Value(Limbs12(s)) == Nat(s)
  {
    hide Nat, Value, Limbs12;
    Limbs12Value(s);
  }

  lemma TopSum(a: seq<int64>, b: seq<int64>, c: seq<int64>)
    requires Operand(a) && Operand(b) && Operand(c)
    ensures MulSums(a, b, c)[23] == 0
  {
    NoTerms(a, b, 12);
  }

  lemma {:induction false} NoTerms(a: seq<int>, b: seq<int>, n: nat)
    requires n <= |a| && |b| == 12 && n <= 12
    ensures Column(a, b, 23, n) == 0
  {
    if n > 0 { NoTerms(a, b, n - 1); }
  }
}
