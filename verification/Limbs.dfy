/** Field elements as ten limbs of weights 2^0, 2^26, 2^51, 2^77, 2^102, 2^128, 2^153, 2^179,
    2^204 and 2^230 (native/common/ed25519_orlp/src/fe.h), and what multiplying two of them means. */
module Limbs {
  import opened Ints
  import opened Field
  import opened Rings

  /** Limb i stands for 2^Exponent(i): the weights are 25.5 bits apart, rounded up. */
  function Exponent(i: nat): nat {
    25 * i + (i + 1) / 2
  }

  function Weight(i: nat): int {
    Pow2(Exponent(i))
  }

  /** The number the first n limbs stand for. */
  function Value(h: seq<int>, n: nat): int
    requires n <= |h|
    decreases n
  {
    if n == 0 then 0 else Value(h, n - 1) + Weight(n - 1) * h[n - 1]
  }

  function V(h: seq<int>): int
    requires |h| == 10
  {
    Value(h, 10)
  }

  /** The weights as numbers. */
  lemma Weights()
    ensures Weight(1) == 0x400_0000
    ensures Weight(2) == 0x8_0000_0000_0000
    ensures Weight(3) == 0x2000_0000_0000_0000_0000
    ensures Weight(4) == 0x40_0000_0000_0000_0000_0000_0000
    ensures Weight(5) == 0x1_0000_0000_0000_0000_0000_0000_0000_0000
    ensures Weight(6) == 0x200_0000_0000_0000_0000_0000_0000_0000_0000_0000
    ensures Weight(7) == 0x8_0000_0000_0000_0000_0000_0000_0000_0000_0000_0000_0000
    ensures Weight(8) == 0x1000_0000_0000_0000_0000_0000_0000_0000_0000_0000_0000_0000_0000
    ensures Weight(9) == 0x40_0000_0000_0000_0000_0000_0000_0000_0000_0000_0000_0000_0000_0000_0000
    ensures Weight(0) == 1 && Weight(10) == P + 19
  {
    hide Pow2;
    PrimeNumber(0);
    Powers();
    Pow2Add(0, 26); Pow2Add(26, 25); Pow2Add(51, 26); Pow2Add(77, 25); Pow2Add(102, 26);
    Pow2Add(128, 25); Pow2Add(153, 26); Pow2Add(179, 25); Pow2Add(204, 26); Pow2Add(230, 25);
  }

  lemma VExplicit(h: seq<int>)
    requires |h| == 10
    ensures V(h) == h[0]
      + 0x400_0000 * h[1]
      + 0x8_0000_0000_0000 * h[2]
      + 0x2000_0000_0000_0000_0000 * h[3]
      + 0x40_0000_0000_0000_0000_0000_0000 * h[4]
      + 0x1_0000_0000_0000_0000_0000_0000_0000_0000 * h[5]
      + 0x200_0000_0000_0000_0000_0000_0000_0000_0000_0000 * h[6]
      + 0x8_0000_0000_0000_0000_0000_0000_0000_0000_0000_0000_0000 * h[7]
      + 0x1000_0000_0000_0000_0000_0000_0000_0000_0000_0000_0000_0000_0000 * h[8]
      + 0x40_0000_0000_0000_0000_0000_0000_0000_0000_0000_0000_0000_0000_0000_0000 * h[9]
  {
    hide Weight;
    Weights();
  }

  /** The product of two weights: odd with odd is twice the weight at the sum of the indices. */
  lemma WeightProduct(i: nat, j: nat)
    ensures Weight(i) * Weight(j) == Twice(i, j) * Weight(i + j)
  {
    hide Pow2;
    Pow2Add(Exponent(i), Exponent(j));
    ExponentSum(i, j);
    hide Exponent;
    if Twice(i, j) == 2 {
      Pow2Add(1, Exponent(i + j));
      Powers();
    }
  }

  lemma ExponentSum(i: nat, j: nat)
    ensures Exponent(i) + Exponent(j) == Exponent(i + j) + Twice(i, j) - 1
  {
    var a, b := i / 2, j / 2;
    assert i == 2 * a || i == 2 * a + 1;
    assert j == 2 * b || j == 2 * b + 1;
  }

  /** Ten indices are a factor 2^255 = P + 19. */
  lemma WeightWrap(i: nat)
    ensures Weight(i + 10) == (P + 19) * Weight(i)
  {
    hide Pow2;
    Weights();
    Pow2Add(Exponent(10), Exponent(i));
    assert Exponent(i + 10) == Exponent(10) + Exponent(i);
  }

  // Schoolbook multiplication ------------------------------------------------------------------

  /** Sum of the products of the first n corresponding elements. */
  function Dot(x: seq<int>, y: seq<int>, n: nat): int
    requires n <= |x| && n <= |y|
    decreases n
  {
    if n == 0 then 0 else Dot(x, y, n - 1) + x[n - 1] * y[n - 1]
  }

  /** The left operand of limb k of a product: odd limbs are doubled when k is even. */
  function Left(f: seq<int>, k: nat): seq<int>
    requires |f| == 10
  {
    if k % 2 == 0 then [f[0], 2 * f[1], f[2], 2 * f[3], f[4], 2 * f[5], f[6], 2 * f[7], f[8], 2 * f[9]] else f
  }

  /** The right operand of limb k: limbs k, k-1, ..., 0 and then, times 19, limbs 9, ..., k+1. */
  function Right(g: seq<int>, k: nat): seq<int>
    requires |g| == 10 && k < 10
  {
    seq(10, i requires 0 <= i < 10 => if i <= k then g[k - i] else 19 * g[10 + k - i])
  }

  /** The product with only the first n limbs of f taken into account. */
  function Partial(f: seq<int>, g: seq<int>, n: nat): (h: seq<int>)
    requires |f| == 10 && |g| == 10 && n <= 10
    ensures |h| == 10
  {
    seq(10, k requires 0 <= k < 10 => Dot(Left(f, k), Right(g, k), n))
  }

  function Product(f: seq<int>, g: seq<int>): (h: seq<int>)
    requires |f| == 10 && |g| == 10
    ensures |h| == 10
  {
    Partial(f, g, 10)
  }

  /** What one unit of limb i of f contributes to each limb of the product. */
  function Row(g: seq<int>, i: nat): (h: seq<int>)
    requires |g| == 10 && i < 10
    ensures |h| == 10
  {
    seq(10, k requires 0 <= k < 10 => (if k % 2 == 0 && i % 2 == 1 then 2 else 1) * Right(g, k)[i])
  }

  lemma PartialStep(f: seq<int>, g: seq<int>, i: nat, k: nat)
    requires |f| == 10 && |g| == 10 && i < 10 && k < 10
    ensures Partial(f, g, i + 1)[k] == Partial(f, g, i)[k] + f[i] * Row(g, i)[k]
  {
    var c, y := if k % 2 == 0 && i % 2 == 1 then 2 else 1, Right(g, k)[i];
    hide Right;
    assert Left(f, k)[i] == c * f[i];
    assert (c * f[i]) * y == f[i] * (c * y);
  }

  lemma {:induction false} AddRow(f: seq<int>, g: seq<int>, i: nat, n: nat)
    requires |f| == 10 && |g| == 10 && i < 10 && n <= 10
    ensures Value(Partial(f, g, i + 1), n) == Value(Partial(f, g, i), n) + f[i] * Value(Row(g, i), n)
  {
    hide Weight, Partial, Row;
    if n > 0 {
      var k := n - 1;
      AddRow(f, g, i, k);
      PartialStep(f, g, i, k);
      Exchange(Weight(k), Partial(f, g, i)[k], f[i], Value(Row(g, i), k), Row(g, i)[k]);
    }
  }

  function Twice(i: nat, j: nat): int {
    if i % 2 == 1 && j % 2 == 1 then 2 else 1
  }

  lemma RowAt(g: seq<int>, i: nat, j: nat)
    requires |g| == 10 && i < 10 && j < 10
    ensures i + j < 10 ==> Row(g, i)[i + j] == Twice(i, j) * g[j]
    ensures i + j >= 10 ==> Row(g, i)[i + j - 10] == Twice(i, j) * (19 * g[j])
  {
    if i + j < 10 {
      assert Right(g, i + j)[i] == g[j];
    } else {
      assert Right(g, i + j - 10)[i] == 19 * g[j];
    }
  }

  /** The limbs of a row that did not wrap are the limbs of g, shifted. */
  lemma {:induction false} RowHigh(g: seq<int>, i: nat, n: nat)
    requires |g| == 10 && i < 10 && i <= n <= 10
    ensures Value(Row(g, i), n) == Value(Row(g, i), i) + Weight(i) * Value(g, n - i)
  {
    hide Weight, Row, Twice;
    if n > i {
      var j := n - 1 - i;
      RowHigh(g, i, n - 1);
      WeightProduct(i, j);
      RowAt(g, i, j);
      Regroup(Weight(i), Weight(j), Weight(n - 1), Twice(i, j), Value(g, j), g[j], Value(g, j + 1), Row(g, i)[n - 1]);
    }
  }

  lemma Regroup(wi: int, wj: int, wk: int, c: int, v: int, x: int, v': int, t: int)
    requires wi * wj == c * wk && v' == v + wj * x && t == c * x
    ensures wi * v' == wi * v + wk * t
  {
    assert wi * v' == wi * v + (wi * wj) * x;
    assert wk * t == (c * wk) * x;
  }

  /** What limbs 10-i, ..., 9-i+n of g stand for. */
  function High(g: seq<int>, i: nat, n: nat): int
    requires |g| == 10 && n <= i <= 10
  {
    Value(g, 10 - i + n) - Value(g, 10 - i)
  }

  /** The limbs of a row that wrapped round are the high limbs of g, shifted, modulo P. */
  lemma {:induction false} RowLow(g: seq<int>, i: nat, n: nat)
    requires |g| == 10 && i < 10 && n <= i
    ensures Cong(Value(Row(g, i), n), Weight(i) * High(g, i, n))
  {
    hide Cong, Weight, Row, Twice;
    if n == 0 {
      CongRefl(0);
    } else {
      var k, j := n - 1, 9 - i + n;
      RowLow(g, i, k);
      RowAt(g, i, j);
      var v, v', r, r' := High(g, i, k), High(g, i, n), Value(Row(g, i), k), Value(Row(g, i), n);
      hide High, Value;
      WrapTerm(i, j, v, v', g[j], r, r', Row(g, i)[k]);
    }
  }

  lemma WrapTerm(i: nat, j: nat, v: int, v': int, x: int, r: int, r': int, t: int)
    requires i + j >= 10 && t == Twice(i, j) * (19 * x)
    requires v' == v + Weight(j) * x && r' == r + Weight(i + j - 10) * t
    requires Cong(r, Weight(i) * v)
    ensures Cong(r', Weight(i) * v')
  {
    hide Cong, Weight, Twice;
    var k := i + j - 10;
    WeightProduct(i, j);
    WeightWrap(k);
    CarryRound(Weight(i), Weight(j), Weight(k), Weight(k + 10), Twice(i, j), x, t);
    CongAdd(r, Weight(i) * v, Weight(k) * t, Weight(i) * (Weight(j) * x));
    Multiply(Weight(i), v, Weight(j) * x);
  }

  lemma CarryRound(wi: int, wj: int, wk: int, wk': int, c: int, x: int, t: int)
    requires wi * wj == c * wk' && wk' == (P + 19) * wk && t == c * (19 * x)
    ensures Cong(wk * t, wi * (wj * x))
  {
    hide Cong;
    var y := c * (wk * x);
    assert wi * (wj * x) == (c * wk') * x == (P + 19) * y;
    assert wk * t == 19 * y;
    CongIntro(wk * t, wi * (wj * x), -y);
  }

  lemma RowIsShift(g: seq<int>, i: nat)
    requires |g| == 10 && i < 10
    ensures Cong(Value(Row(g, i), 10), Weight(i) * V(g))
  {
    hide Cong, Weight, Value;
    RowLow(g, i, i);
    RowHigh(g, i, 10);
    var a := Weight(i) * Value(g, 10 - i);
    CongRefl(a);
    CongAdd(Value(Row(g, i), i), Weight(i) * (Value(g, 10) - Value(g, 10 - i)), a, a);
    assert Weight(i) * (Value(g, 10) - Value(g, 10 - i)) + a == Weight(i) * Value(g, 10);
  }

  lemma {:induction false} PartialIsProduct(f: seq<int>, g: seq<int>, n: nat)
    requires |f| == 10 && |g| == 10 && n <= 10
    ensures Cong(Value(Partial(f, g, n), 10), Value(f, n) * V(g))
  {
    hide Cong, Weight, Partial, Row, V;
    if n == 0 {
      PartialZero(f, g, 10);
      CongRefl(0);
    } else {
      var i := n - 1;
      PartialIsProduct(f, g, i);
      AddRow(f, g, i, 10);
      RowIsShift(g, i);
      ScaleRow(f[i], Value(Row(g, i), 10), Weight(i), V(g), Value(Partial(f, g, i), 10), Value(f, i), Value(f, n));
    }
  }

  lemma ScaleRow(x: int, r: int, w: int, v: int, a: int, b: int, b': int)
    requires Cong(r, w * v) && Cong(a, b * v) && b' == b + w * x
    ensures Cong(a + x * r, b' * v)
  {
    hide Cong;
    CongRefl(x);
    CongMul(x, x, r, w * v);
    CongAdd(a, b * v, x * r, x * (w * v));
    assert b * v + x * (w * v) == b' * v;
  }

  lemma {:induction false} PartialZero(f: seq<int>, g: seq<int>, n: nat)
    requires |f| == 10 && |g| == 10 && n <= 10
    ensures Value(Partial(f, g, 0), n) == 0
  {
    hide Weight;
    if n > 0 { PartialZero(f, g, n - 1); }
  }

  /** Schoolbook multiplication of limbs multiplies the numbers they stand for, modulo P. */
  lemma ProductIsProduct(f: seq<int>, g: seq<int>)
    requires |f| == 10 && |g| == 10
    ensures Cong(V(Product(f, g)), V(f) * V(g))
  {
    PartialIsProduct(f, g, 10);
  }
}
