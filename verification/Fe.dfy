/** native/common/ed25519_orlp/src/fe.c: arithmetic modulo 2^255 - 19. */
module Fe {
  import opened Ints
  import opened Field
  import opened Limbs

  /** Even limbs at most e in magnitude, odd limbs at most o. */
  predicate Within(h: seq<int>, e: int, o: int) {
    && |h| == 10
    && AbsAtMost(h[0], e) && AbsAtMost(h[1], o) && AbsAtMost(h[2], e) && AbsAtMost(h[3], o) && AbsAtMost(h[4], e)
    && AbsAtMost(h[5], o) && AbsAtMost(h[6], e) && AbsAtMost(h[7], o) && AbsAtMost(h[8], e) && AbsAtMost(h[9], o)
  }

  predicate AllAtMost(x: seq<int>, a: int) {
    forall i :: 0 <= i < |x| ==> AbsAtMost(x[i], a)
  }

  lemma {:induction false} DotBound(x: seq<int>, y: seq<int>, n: nat, a: nat, b: nat)
    requires n <= |x| && n <= |y| && AllAtMost(x, a) && AllAtMost(y, b)
    ensures AbsAtMost(Dot(x, y, n), n * a * b)
  {
    if n > 0 {
      DotBound(x, y, n - 1, a, b);
      ProductBound(x[n - 1], y[n - 1], a, b);
      assert (n - 1) * a * b + a * b == n * a * b;
    }
  }

  lemma ProductBound(x: int, y: int, a: nat, b: nat)
    requires AbsAtMost(x, a) && AbsAtMost(y, b)
    ensures AbsAtMost(x * y, a * b)
  {
    assert (a - x) * (b + y) >= 0 && (a + x) * (b - y) >= 0;
    assert (a - x) * (b - y) >= 0 && (a + x) * (b + y) >= 0;
    assert (a - x) * (b + y) == a * b + a * y - x * b - x * y;
    assert (a + x) * (b - y) == a * b - a * y + x * b - x * y;
    assert (a - x) * (b - y) == a * b - a * y - x * b + x * y;
    assert (a + x) * (b + y) == a * b + a * y + x * b + x * y;
  }

  // 1.65 * 2^26, 1.65 * 2^25: what the multiplications accept; 1.01 * 2^25, 1.01 * 2^24: what they give.
  const MUL_IN_EVEN: int := 110729625
  const MUL_IN_ODD: int := 55364812
  const MUL_OUT_EVEN: int := 33889976
  const MUL_OUT_ODD: int := 16944988

  // A sum of at most ten products of pre-multiplied limbs stays below this, doubled or not.
  const SUM_LIMIT: int := 0x5000_0000_0000_0000

  const RIGHT_LIMIT: int := 2103862875
  const CARRY_LIMIT: int := 0x6000_0000_0000_0000

  // Carries --------------------------------------------------------------------------------------

  method Carry26(h: int64) returns (carry: int64, rest: int64)
    requires AbsAtMost(h, CARRY_LIMIT)
    ensures rest == h - carry * 0x4000000
    ensures -0x2000000 <= rest < 0x2000000
  {
    carry := (h + 0x2000000) / 0x4000000;
    rest := h - carry * 0x4000000;
  }

  method Carry25(h: int64) returns (carry: int64, rest: int64)
    requires AbsAtMost(h, CARRY_LIMIT)
    ensures rest == h - carry * 0x2000000
    ensures -0x1000000 <= rest < 0x1000000
  {
    carry := (h + 0x1000000) / 0x2000000;
    rest := h - carry * 0x2000000;
  }

  /** The carries that end fe_mul, fe_sq and fe_sq2, in the order of the source: they take q
      multiples of P out of the number and leave limbs small enough to multiply again. */
  method CarryChain(a0: int64, a1: int64, a2: int64, a3: int64, a4: int64, a5: int64, a6: int64, a7: int64, a8: int64,
      a9: int64)
    returns (h0: int64, h1: int64, h2: int64, h3: int64, h4: int64, h5: int64, h6: int64, h7: int64, h8: int64,
      h9: int64, ghost q: int)
    requires Within([a0, a1, a2, a3, a4, a5, a6, a7, a8, a9], SUM_LIMIT, SUM_LIMIT)
    ensures V([h0, h1, h2, h3, h4, h5, h6, h7, h8, h9]) == V([a0, a1, a2, a3, a4, a5, a6, a7, a8, a9]) - q * P
    ensures Within([h0, h1, h2, h3, h4, h5, h6, h7, h8, h9], MUL_OUT_EVEN, MUL_OUT_ODD)
  {
    hide V;
    h0, h1, h2, h3, h4, h5, h6, h7, h8, h9 := CarryFirst(a0, a1, a2, a3, a4, a5, a6, a7, a8, a9);
    h0, h1, h2, h3, h4, h5, h6, h7, h8, h9, q := CarrySecond(h0, h1, h2, h3, h4, h5, h6, h7, h8, h9);
  }

  predicate Halfway(h: seq<int>) {
    && |h| == 10 && Within(h, CARRY_LIMIT, CARRY_LIMIT)
    && AbsAtMost(h[0], 0x200_0000) && AbsAtMost(h[1], 0x100_0000) && AbsAtMost(h[2], 0x200_0000)
    && AbsAtMost(h[5], 0x100_0000) && AbsAtMost(h[6], 0x200_0000) && AbsAtMost(h[4], 0x200_0000)
    && AbsAtMost(h[8], SUM_LIMIT) && AbsAtMost(h[9], SUM_LIMIT)
  }

  method CarryFirst(a0: int64, a1: int64, a2: int64, a3: int64, a4: int64, a5: int64, a6: int64, a7: int64, a8: int64,
      a9: int64)
    returns (h0: int64, h1: int64, h2: int64, h3: int64, h4: int64, h5: int64, h6: int64, h7: int64, h8: int64,
      h9: int64)
    requires Within([a0, a1, a2, a3, a4, a5, a6, a7, a8, a9], SUM_LIMIT, SUM_LIMIT)
    ensures V([h0, h1, h2, h3, h4, h5, h6, h7, h8, h9]) == V([a0, a1, a2, a3, a4, a5, a6, a7, a8, a9])
    ensures Halfway([h0, h1, h2, h3, h4, h5, h6, h7, h8, h9])
  {
    hide V;
    h0, h1, h2, h3, h4, h5, h6, h7, h8, h9 := a0, a1, a2, a3, a4, a5, a6, a7, a8, a9;
    var carry: int64;
    carry, h0 := Carry26(h0);
    h1 := h1 + carry;
    carry, h4 := Carry26(h4);
    h5 := h5 + carry;
    carry, h1 := Carry25(h1);
    h2 := h2 + carry;
    carry, h5 := Carry25(h5);
    h6 := h6 + carry;
    carry, h2 := Carry26(h2);
    h3 := h3 + carry;
    carry, h6 := Carry26(h6);
    h7 := h7 + carry;
    VExplicit([a0, a1, a2, a3, a4, a5, a6, a7, a8, a9]);
    VExplicit([h0, h1, h2, h3, h4, h5, h6, h7, h8, h9]);
  }

  method CarrySecond(a0: int64, a1: int64, a2: int64, a3: int64, a4: int64, a5: int64, a6: int64, a7: int64, a8: int64,
      a9: int64)
    returns (h0: int64, h1: int64, h2: int64, h3: int64, h4: int64, h5: int64, h6: int64, h7: int64, h8: int64,
      h9: int64, ghost q: int)
    requires Halfway([a0, a1, a2, a3, a4, a5, a6, a7, a8, a9])
    ensures V([h0, h1, h2, h3, h4, h5, h6, h7, h8, h9]) == V([a0, a1, a2, a3, a4, a5, a6, a7, a8, a9]) - q * P
    ensures Within([h0, h1, h2, h3, h4, h5, h6, h7, h8, h9], MUL_OUT_EVEN, MUL_OUT_ODD)
  {
    hide V;
    h0, h1, h2, h3, h4, h5, h6, h7, h8, h9 := a0, a1, a2, a3, a4, a5, a6, a7, a8, a9;
    var carry: int64;
    carry, h3 := Carry25(h3);
    h4 := h4 + carry;
    carry, h7 := Carry25(h7);
    h8 := h8 + carry;
    carry, h4 := Carry26(h4);
    h5 := h5 + carry;
    carry, h8 := Carry26(h8);
    h9 := h9 + carry;
    carry, h9 := Carry25(h9);
    h0 := h0 + carry * 19;
    q := carry;
    carry, h0 := Carry26(h0);
    h1 := h1 + carry;
    PrimeNumber(q);
    VExplicit([a0, a1, a2, a3, a4, a5, a6, a7, a8, a9]);
    VExplicit([h0, h1, h2, h3, h4, h5, h6, h7, h8, h9]);
  }

  /** A sum of at most ten products of 32-bit factors, added up from the left: no product and no partial
      sum leaves int64. */
  method Sum(x: seq<int32>, y: seq<int32>, ghost a: nat) returns (r: int64)
    requires |x| == |y| && AllAtMost(x, a) && AllAtMost(y, RIGHT_LIMIT)
    requires |x| * a * RIGHT_LIMIT <= SUM_LIMIT / 2
    ensures r == Dot(x, y, |x|) && AbsAtMost(r, SUM_LIMIT / 2)
  {
    r := 0;
    for n := 0 to |x|
      invariant r == Dot(x, y, n) && AbsAtMost(r, SUM_LIMIT / 2)
    {
      DotWithin(x, y, n, a);
      var product: int64 := x[n] as int * y[n] as int;
      r := r + product;
    }
  }

  lemma DotWithin(x: seq<int32>, y: seq<int32>, n: nat, a: nat)
    requires n < |x| == |y| && AllAtMost(x, a) && AllAtMost(y, RIGHT_LIMIT)
    requires |x| * a * RIGHT_LIMIT <= SUM_LIMIT / 2
    ensures AbsAtMost(Dot(x, y, n + 1), SUM_LIMIT / 2) && AbsAtMost(x[n] as int * y[n] as int, SUM_LIMIT / 2)
  {
    hide Dot;
    DotBound(x, y, n + 1, a, RIGHT_LIMIT);
    ProductBound(x[n], y[n], a, RIGHT_LIMIT);
    Scaled(n + 1, |x|, a);
    Scaled(1, |x|, a);
  }

  lemma Scaled(m: nat, n: nat, a: nat)
    requires m <= n
    ensures m * a * RIGHT_LIMIT <= n * a * RIGHT_LIMIT
  {
    assert (n - m) * a >= 0;
    assert n * a == m * a + (n - m) * a;
  }

  /** The factors of g in the sum for limb k: g[k], ..., g[0] and, for the limbs that wrap round
      2^255, the pre-multiplied 19 * g[9], ..., 19 * g[k+1]. */
  function Factors(g: seq<int32>, g_19: seq<int32>, k: nat): (y: seq<int32>)
    requires |g| == |g_19| == 10 && k < 10 && forall i :: 1 <= i < 10 ==> g_19[i] as int == 19 * (g[i] as int)
    requires AllAtMost(g, RIGHT_LIMIT) && AllAtMost(g_19, RIGHT_LIMIT)
    ensures y == Right(g, k) && AllAtMost(y, RIGHT_LIMIT)
  {
    seq(10, i requires 0 <= i < 10 => if i <= k then g[k - i] else g_19[10 + k - i])
  }

  /** The ten sums of fe_mul: even sums take the doubled odd limbs of f. */
  method MulSums(f: seq<int32>, g: seq<int32>)
    returns (h0: int64, h1: int64, h2: int64, h3: int64, h4: int64, h5: int64, h6: int64, h7: int64, h8: int64,
      h9: int64)
    requires Within(f, MUL_IN_EVEN, MUL_IN_ODD) && Within(g, MUL_IN_EVEN, MUL_IN_ODD)
    ensures [h0, h1, h2, h3, h4, h5, h6, h7, h8, h9] == Product(f, g)
    ensures Within([h0, h1, h2, h3, h4, h5, h6, h7, h8, h9], SUM_LIMIT, SUM_LIMIT)
  {
    hide Dot, Right;
    assert AllAtMost(f, MUL_IN_EVEN) && AllAtMost(g, MUL_IN_EVEN);
    var f_2: seq<int32> := [f[0], 2 * f[1], f[2], 2 * f[3], f[4], 2 * f[5], f[6], 2 * f[7], f[8], 2 * f[9]];
    var g_19: seq<int32> := [g[0], 19 * g[1], 19 * g[2], 19 * g[3], 19 * g[4], 19 * g[5], 19 * g[6], 19 * g[7],
      19 * g[8], 19 * g[9]];
    h0 := Sum(f_2, Factors(g, g_19, 0), MUL_IN_EVEN);
    h1 := Sum(f, Factors(g, g_19, 1), MUL_IN_EVEN);
    h2 := Sum(f_2, Factors(g, g_19, 2), MUL_IN_EVEN);
    h3 := Sum(f, Factors(g, g_19, 3), MUL_IN_EVEN);
    h4 := Sum(f_2, Factors(g, g_19, 4), MUL_IN_EVEN);
    h5 := Sum(f, Factors(g, g_19, 5), MUL_IN_EVEN);
    h6 := Sum(f_2, Factors(g, g_19, 6), MUL_IN_EVEN);
    h7 := Sum(f, Factors(g, g_19, 7), MUL_IN_EVEN);
    h8 := Sum(f_2, Factors(g, g_19, 8), MUL_IN_EVEN);
    h9 := Sum(f, Factors(g, g_19, 9), MUL_IN_EVEN);
  }

  // Squaring: each pair of equal products is taken once, doubled --------------------------------

  function SquareLeft(f: seq<int>, k: nat): seq<int>
    requires |f| == 10 && k < 10
  {
    match k
    case 0 => [f[0], 2 * f[1], 2 * f[2], 2 * f[3], 2 * f[4], f[5]]
    case 1 => [2 * f[0], f[2], 2 * f[3], f[4], 2 * f[5]]
    case 2 => [2 * f[0], 2 * f[1], 2 * f[3], 2 * f[4], 2 * f[5], f[6]]
    case 3 => [2 * f[0], 2 * f[1], f[4], 2 * f[5], f[6]]
    case 4 => [2 * f[0], 2 * f[1], f[2], 2 * f[5], 2 * f[6], f[7]]
    case 5 => [2 * f[0], 2 * f[1], 2 * f[2], f[6], 2 * f[7]]
    case 6 => [2 * f[0], 2 * f[1], 2 * f[2], 2 * f[3], 2 * f[7], f[8]]
    case 7 => [2 * f[0], 2 * f[1], 2 * f[2], 2 * f[3], f[8]]
    case 8 => [2 * f[0], 2 * f[1], 2 * f[2], 2 * f[3], f[4], f[9]]
    case _ => [2 * f[0], 2 * f[1], 2 * f[2], 2 * f[3], 2 * f[4]]
  }

  function SquareRight(f: seq<int>, k: nat): seq<int>
    requires |f| == 10 && k < 10
  {
    match k
    case 0 => [f[0], 38 * f[9], 19 * f[8], 38 * f[7], 19 * f[6], 38 * f[5]]
    case 1 => [f[1], 38 * f[9], 19 * f[8], 38 * f[7], 19 * f[6]]
    case 2 => [f[2], f[1], 38 * f[9], 19 * f[8], 38 * f[7], 19 * f[6]]
    case 3 => [f[3], f[2], 38 * f[9], 19 * f[8], 38 * f[7]]
    case 4 => [f[4], 2 * f[3], f[2], 38 * f[9], 19 * f[8], 38 * f[7]]
    case 5 => [f[5], f[4], f[3], 38 * f[9], 19 * f[8]]
    case 6 => [f[6], 2 * f[5], f[4], f[3], 38 * f[9], 19 * f[8]]
    case 7 => [f[7], f[6], f[5], f[4], 38 * f[9]]
    case 8 => [f[8], 2 * f[7], f[6], 2 * f[5], f[4], 38 * f[9]]
    case _ => [f[9], f[8], f[7], f[6], f[5]]
  }

  ghost predicate SquareLimb(f: seq<int>, k: nat)
    requires |f| == 10 && k < 10
  {
    && |SquareLeft(f, k)| == |SquareRight(f, k)|
    && Dot(SquareLeft(f, k), SquareRight(f, k), |SquareLeft(f, k)|) == Dot(Left(f, k), Right(f, k), 10)
  }

  lemma Square0(f: seq<int>) requires |f| == 10 ensures SquareLimb(f, 0) { }
  lemma Square1(f: seq<int>) requires |f| == 10 ensures SquareLimb(f, 1) { }
  lemma Square2(f: seq<int>) requires |f| == 10 ensures SquareLimb(f, 2) { }
  lemma Square3(f: seq<int>) requires |f| == 10 ensures SquareLimb(f, 3) { }
  lemma Square4(f: seq<int>) requires |f| == 10 ensures SquareLimb(f, 4) { }
  lemma Square5(f: seq<int>) requires |f| == 10 ensures SquareLimb(f, 5) { }
  lemma Square6(f: seq<int>) requires |f| == 10 ensures SquareLimb(f, 6) { }
  lemma Square7(f: seq<int>) requires |f| == 10 ensures SquareLimb(f, 7) { }
  lemma Square8(f: seq<int>) requires |f| == 10 ensures SquareLimb(f, 8) { }
  lemma Square9(f: seq<int>) requires |f| == 10 ensures SquareLimb(f, 9) { }

  /** The ten sums of fe_sq and fe_sq2. */
  method SqSums(f: seq<int32>)
    returns (h0: int64, h1: int64, h2: int64, h3: int64, h4: int64, h5: int64, h6: int64, h7: int64, h8: int64,
      h9: int64)
    requires Within(f, MUL_IN_EVEN, MUL_IN_ODD)
    ensures [h0, h1, h2, h3, h4, h5, h6, h7, h8, h9] == Product(f, f)
    ensures Within([h0, h1, h2, h3, h4, h5, h6, h7, h8, h9], SUM_LIMIT / 2, SUM_LIMIT / 2)
  {
    hide Dot, Left, Right;
    var f0, f1, f2, f3, f4, f5, f6, f7, f8, f9 := f[0], f[1], f[2], f[3], f[4], f[5], f[6], f[7], f[8], f[9];
    var f0_2: int32 := 2 * f0;
    var f1_2: int32 := 2 * f1;
    var f2_2: int32 := 2 * f2;
    var f3_2: int32 := 2 * f3;
    var f4_2: int32 := 2 * f4;
    var f5_2: int32 := 2 * f5;
    var f6_2: int32 := 2 * f6;
    var f7_2: int32 := 2 * f7;
    var f5_38: int32 := 38 * f5;
    var f6_19: int32 := 19 * f6;
    var f7_38: int32 := 38 * f7;
    var f8_19: int32 := 19 * f8;
    var f9_38: int32 := 38 * f9;
    h0 := Sum([f0, f1_2, f2_2, f3_2, f4_2, f5], [f0, f9_38, f8_19, f7_38, f6_19, f5_38], 2 * MUL_IN_EVEN + 1);
    h1 := Sum([f0_2, f2, f3_2, f4, f5_2], [f1, f9_38, f8_19, f7_38, f6_19], 2 * MUL_IN_EVEN + 1);
    h2 := Sum([f0_2, f1_2, f3_2, f4_2, f5_2, f6], [f2, f1, f9_38, f8_19, f7_38, f6_19], 2 * MUL_IN_EVEN + 1);
    h3 := Sum([f0_2, f1_2, f4, f5_2, f6], [f3, f2, f9_38, f8_19, f7_38], 2 * MUL_IN_EVEN + 1);
    h4 := Sum([f0_2, f1_2, f2, f5_2, f6_2, f7], [f4, f3_2, f2, f9_38, f8_19, f7_38], 2 * MUL_IN_EVEN + 1);
    h5 := Sum([f0_2, f1_2, f2_2, f6, f7_2], [f5, f4, f3, f9_38, f8_19], 2 * MUL_IN_EVEN + 1);
    h6 := Sum([f0_2, f1_2, f2_2, f3_2, f7_2, f8], [f6, f5_2, f4, f3, f9_38, f8_19], 2 * MUL_IN_EVEN + 1);
    h7 := Sum([f0_2, f1_2, f2_2, f3_2, f8], [f7, f6, f5, f4, f9_38], 2 * MUL_IN_EVEN + 1);
    h8 := Sum([f0_2, f1_2, f2_2, f3_2, f4, f9], [f8, f7_2, f6, f5_2, f4, f9_38], 2 * MUL_IN_EVEN + 1);
    h9 := Sum([f0_2, f1_2, f2_2, f3_2, f4_2], [f9, f8, f7, f6, f5], 2 * MUL_IN_EVEN + 1);
    Square0(f);    Square1(f);    Square2(f);    Square3(f);    Square4(f);
    Square5(f);    Square6(f);    Square7(f);    Square8(f);    Square9(f);
  }

  // The operations on limb arrays; the output may be one of the inputs ---------------------------

  method Store(h: array<int32>, x0: int32, x1: int32, x2: int32, x3: int32, x4: int32, x5: int32, x6: int32, x7: int32,
      x8: int32, x9: int32)
    requires h.Length == 10
    modifies h
    ensures h[..] == [x0, x1, x2, x3, x4, x5, x6, x7, x8, x9]
  {
    h[0], h[1], h[2], h[3], h[4], h[5], h[6], h[7], h[8], h[9] := x0, x1, x2, x3, x4, x5, x6, x7, x8, x9;
  }

  method FeMul(h: array<int32>, f: array<int32>, g: array<int32>)
    requires h.Length == f.Length == g.Length == 10
    requires Within(f[..], MUL_IN_EVEN, MUL_IN_ODD) && Within(g[..], MUL_IN_EVEN, MUL_IN_ODD)
    modifies h
    ensures Within(h[..], MUL_OUT_EVEN, MUL_OUT_ODD)
    ensures Cong(V(h[..]), old(V(f[..])) * old(V(g[..])))
  {
    hide Cong, V, Product;
    var h0, h1, h2, h3, h4, h5, h6, h7, h8, h9 := MulSums(f[..], g[..]);
    ghost var q;
    ProductIsProduct(f[..], g[..]);
    ghost var v, w := V(f[..]) * V(g[..]), V(Product(f[..], g[..]));
    h0, h1, h2, h3, h4, h5, h6, h7, h8, h9, q := CarryChain(h0, h1, h2, h3, h4, h5, h6, h7, h8, h9);
    Store(h, h0, h1, h2, h3, h4, h5, h6, h7, h8, h9);
    CongIntro(V(h[..]), w, -q);
    CongTrans(V(h[..]), w, v);
  }

  method FeSq(h: array<int32>, f: array<int32>)
    requires h.Length == f.Length == 10
    requires Within(f[..], MUL_IN_EVEN, MUL_IN_ODD)
    modifies h
    ensures Within(h[..], MUL_OUT_EVEN, MUL_OUT_ODD)
    ensures Cong(V(h[..]), old(V(f[..])) * old(V(f[..])))
  {
    hide Cong, V, Product;
    var h0, h1, h2, h3, h4, h5, h6, h7, h8, h9 := SqSums(f[..]);
    ghost var q;
    ProductIsProduct(f[..], f[..]);
    ghost var v, w := V(f[..]) * V(f[..]), V(Product(f[..], f[..]));
    h0, h1, h2, h3, h4, h5, h6, h7, h8, h9, q := CarryChain(h0, h1, h2, h3, h4, h5, h6, h7, h8, h9);
    Store(h, h0, h1, h2, h3, h4, h5, h6, h7, h8, h9);
    CongIntro(V(h[..]), w, -q);
    CongTrans(V(h[..]), w, v);
  }

  method FeSq2(h: array<int32>, f: array<int32>)
    requires h.Length == f.Length == 10
    requires Within(f[..], MUL_IN_EVEN, MUL_IN_ODD)
    modifies h
    ensures Within(h[..], MUL_OUT_EVEN, MUL_OUT_ODD)
    ensures Cong(V(h[..]), 2 * (old(V(f[..])) * old(V(f[..]))))
  {
    hide Cong, V, Product;
    var h0, h1, h2, h3, h4, h5, h6, h7, h8, h9 := SqSums(f[..]);
    ghost var q;
    ProductIsProduct(f[..], f[..]);
    ghost var v, w := V(f[..]) * V(f[..]), V(Product(f[..], f[..]));
    DoubleValue([h0, h1, h2, h3, h4, h5, h6, h7, h8, h9]);
    h0, h1, h2, h3, h4, h5, h6, h7, h8, h9 := h0 + h0, h1 + h1, h2 + h2, h3 + h3, h4 + h4, h5 + h5, h6 + h6, h7 + h7,
        h8 + h8, h9 + h9;
    CongAdd(w, v, w, v);
    h0, h1, h2, h3, h4, h5, h6, h7, h8, h9, q := CarryChain(h0, h1, h2, h3, h4, h5, h6, h7, h8, h9);
    Store(h, h0, h1, h2, h3, h4, h5, h6, h7, h8, h9);
    CongIntro(V(h[..]), w + w, -q);
    CongTrans(V(h[..]), w + w, v + v);
  }

  lemma DoubleValue(h: seq<int>)
    requires |h| == 10
    ensures V([h[0] + h[0], h[1] + h[1], h[2] + h[2], h[3] + h[3], h[4] + h[4], h[5] + h[5], h[6] + h[6], h[7] + h[7],
      h[8] + h[8], h[9] + h[9]]) == V(h) + V(h)
  {
    hide V;
    VExplicit(h);
    VExplicit([h[0] + h[0], h[1] + h[1], h[2] + h[2], h[3] + h[3], h[4] + h[4], h[5] + h[5], h[6] + h[6], h[7] + h[7],
        h[8] + h[8], h[9] + h[9]]);
  }

  /** h = f + g. The bounds add up: the sums inside ge_add go beyond the bound the source's comment states. */
  method FeAdd(h: array<int32>, f: array<int32>, g: array<int32>, ghost e: nat, ghost o: nat, ghost e': nat,
      ghost o': nat)
    requires h.Length == f.Length == g.Length == 10
    requires Within(f[..], e, o) && Within(g[..], e', o') && e + e' < 0x8000_0000 && o + o' < 0x8000_0000
    modifies h
    ensures Within(h[..], e + e', o + o')
    ensures V(h[..]) == old(V(f[..])) + old(V(g[..]))
  {
    hide V;
    VExplicit(f[..]);
    VExplicit(g[..]);
    Store(h, f[0] + g[0], f[1] + g[1], f[2] + g[2], f[3] + g[3], f[4] + g[4], f[5] + g[5], f[6] + g[6], f[7] + g[7],
        f[8] + g[8], f[9] + g[9]);
    VExplicit(h[..]);
  }

  method FeSub(h: array<int32>, f: array<int32>, g: array<int32>, ghost e: nat, ghost o: nat, ghost e': nat,
      ghost o': nat)
    requires h.Length == f.Length == g.Length == 10
    requires Within(f[..], e, o) && Within(g[..], e', o') && e + e' < 0x8000_0000 && o + o' < 0x8000_0000
    modifies h
    ensures Within(h[..], e + e', o + o')
    ensures V(h[..]) == old(V(f[..])) - old(V(g[..]))
  {
    hide V;
    VExplicit(f[..]);
    VExplicit(g[..]);
    Store(h, f[0] - g[0], f[1] - g[1], f[2] - g[2], f[3] - g[3], f[4] - g[4], f[5] - g[5], f[6] - g[6], f[7] - g[7],
        f[8] - g[8], f[9] - g[9]);
    VExplicit(h[..]);
  }

  method FeNeg(h: array<int32>, f: array<int32>, ghost e: nat, ghost o: nat)
    requires h.Length == f.Length == 10
    requires Within(f[..], e, o) && e < 0x8000_0000 && o < 0x8000_0000
    modifies h
    ensures Within(h[..], e, o)
    ensures V(h[..]) == -old(V(f[..]))
  {
    hide V;
    VExplicit(f[..]);
    Store(h, -f[0], -f[1], -f[2], -f[3], -f[4], -f[5], -f[6], -f[7], -f[8], -f[9]);
    VExplicit(h[..]);
  }

  method FeCopy(h: array<int32>, f: array<int32>)
    requires h.Length == f.Length == 10
    modifies h
    ensures h[..] == old(f[..])
  {
    Store(h, f[0], f[1], f[2], f[3], f[4], f[5], f[6], f[7], f[8], f[9]);
  }

  method Fe0(h: array<int32>)
    requires h.Length == 10
    modifies h
    ensures Within(h[..], 1, 1) && V(h[..]) == 0
  {
    hide V;
    Store(h, 0, 0, 0, 0, 0, 0, 0, 0, 0, 0);
    VExplicit(h[..]);
  }

  method Fe1(h: array<int32>)
    requires h.Length == 10
    modifies h
    ensures Within(h[..], 1, 1) && V(h[..]) == 1
  {
    hide V;
    Store(h, 1, 0, 0, 0, 0, 0, 0, 0, 0, 0);
    VExplicit(h[..]);
  }
}
