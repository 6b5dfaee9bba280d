/** native/common/ed25519_orlp/src/fe.c: the two fixed exponentiations. */
module FePow {
  import opened Ints
  import opened Field
  import opened PrimeField
  import opened Limbs
  import opened Fe

  /** a holds a multiplicable form of z^e. */
  ghost predicate Holds(a: array<int32>, z: int, e: nat)
    reads a
  {
    && a.Length == 10
    && Within(a[..], MUL_IN_EVEN, MUL_IN_ODD)
    && Cong(V(a[..]), Pow(z, e))
  }

  /** fe_mul on two powers */
  method MulPowers(h: array<int32>, f: array<int32>, g: array<int32>, ghost z: int, ghost d: nat, ghost e: nat)
    requires h.Length == 10 && Holds(f, z, d) && Holds(g, z, e)
    modifies h
    ensures Holds(h, z, d + e) && Within(h[..], MUL_OUT_EVEN, MUL_OUT_ODD)
  {
    hide Cong, V, Pow;
    PowAdd(z, d, e);
    CongMul(V(f[..]), Pow(z, d), V(g[..]), Pow(z, e));
    ghost var product := V(f[..]) * V(g[..]);
    FeMul(h, f, g);
    CongTrans(V(h[..]), product, Pow(z, d + e));
  }

  /** fe_sq on a power */
  method SquarePower(h: array<int32>, f: array<int32>, ghost z: int, ghost e: nat)
    requires h.Length == 10 && Holds(f, z, e)
    modifies h
    ensures Holds(h, z, 2 * e) && Within(h[..], MUL_OUT_EVEN, MUL_OUT_ODD)
  {
    hide Cong, V, Pow;
    PowAdd(z, e, e);
    CongMul(V(f[..]), Pow(z, e), V(f[..]), Pow(z, e));
    ghost var product := V(f[..]) * V(f[..]);
    FeSq(h, f);
    CongTrans(V(h[..]), product, Pow(z, 2 * e));
  }

  /** The exponent after n squarings. */
  function Squared(e: nat, n: nat): nat {
    assert e * Pow2(n) >= 0;
    e * Pow2(n)
  }

  /** n squarings, the first from f and the others in place */
  method SquareTimes(h: array<int32>, f: array<int32>, n: nat, ghost z: int, ghost e: nat)
    requires h.Length == 10 && Holds(f, z, e) && n >= 1
    modifies h
    ensures Holds(h, z, Squared(e, n)) && Within(h[..], MUL_OUT_EVEN, MUL_OUT_ODD)
  {
    hide Holds;
    SquarePower(h, f, z, e);
    assert e * Pow2(1) == 2 * e;
    for i := 1 to n
      invariant Holds(h, z, Squared(e, i)) && Within(h[..], MUL_OUT_EVEN, MUL_OUT_ODD)
    {
      SquarePower(h, h, z, Squared(e, i));
      assert e * Pow2(i + 1) == 2 * (e * Pow2(i));
    }
  }

  /** 2^n - 1 */
  function Ones(n: nat): nat {
    Pow2(n) - 1
  }

  lemma OnesJoin(m: nat, n: nat)
    ensures Squared(Ones(m), n) + Ones(n) == Ones(m + n)
  {
    Pow2Add(m, n);
    var a, b := Pow2(m), Pow2(n);
    hide Pow2;
    assert (a - 1) * b == a * b - b;
  }

  /** t1 = z^31 and t0 = z^11, as fe_invert reaches them */
  method InvertStart(t0: array<int32>, t1: array<int32>, t2: array<int32>, z: array<int32>, ghost v: int)
    requires t0.Length == t1.Length == t2.Length == 10 && Holds(z, v, 1)
    requires t0 != t1 && t0 != t2 && t1 != t2 && z != t0 && z != t1 && z != t2
    modifies t0, t1, t2
    ensures Holds(t0, v, 11) && Holds(t1, v, Ones(5))
  {
    hide Holds;
    Powers();
    hide Pow2;
    SquareTimes(t0, z, 1, v, 1);
    SquareTimes(t1, t0, 2, v, 2);
    MulPowers(t1, z, t1, v, 1, 8);
    MulPowers(t0, t0, t1, v, 2, 9);
    SquareTimes(t2, t0, 1, v, 11);
    MulPowers(t1, t1, t2, v, 9, 22);
  }

  /** t1 = z^(2^m - 1) from t1 = z^(2^n - 1), m = 10 n; the source has n = 5 */
  method ChainTenfold(t1: array<int32>, t2: array<int32>, t3: array<int32>, n: nat, ghost m: nat, ghost v: int)
    requires t1.Length == t2.Length == t3.Length == 10 && Holds(t1, v, Ones(n)) && n > 0 && m == 10 * n
    requires t1 != t2 && t1 != t3 && t2 != t3
    modifies t1, t2, t3
    ensures Holds(t1, v, Ones(m))
  {
    hide Holds, Ones, Squared;
    OnesJoin(n, n); OnesJoin(2 * n, 2 * n); OnesJoin(4 * n, 4 * n); OnesJoin(8 * n, 2 * n);
    SquareTimes(t2, t1, n, v, Ones(n));
    MulPowers(t1, t2, t1, v, Squared(Ones(n), n), Ones(n));
    SquareTimes(t2, t1, 2 * n, v, Ones(2 * n));
    MulPowers(t2, t2, t1, v, Squared(Ones(2 * n), 2 * n), Ones(2 * n));
    SquareTimes(t3, t2, 4 * n, v, Ones(4 * n));
    MulPowers(t2, t3, t2, v, Squared(Ones(4 * n), 4 * n), Ones(4 * n));
    SquareTimes(t2, t2, 2 * n, v, Ones(8 * n));
    MulPowers(t1, t2, t1, v, Squared(Ones(8 * n), 2 * n), Ones(2 * n));
  }

  /** t1 = z^(2^m - 1) from t1 = z^(2^n - 1), m = 5 n; the source has n = 50 */
  method ChainFivefold(t1: array<int32>, t2: array<int32>, t3: array<int32>, n: nat, ghost m: nat, ghost v: int)
    requires t1.Length == t2.Length == t3.Length == 10 && Holds(t1, v, Ones(n)) && n > 0 && m == 5 * n
    requires t1 != t2 && t1 != t3 && t2 != t3
    modifies t1, t2, t3
    ensures Holds(t1, v, Ones(m))
  {
    hide Holds, Ones, Squared;
    OnesJoin(n, n); OnesJoin(2 * n, 2 * n); OnesJoin(4 * n, n);
    SquareTimes(t2, t1, n, v, Ones(n));
    MulPowers(t2, t2, t1, v, Squared(Ones(n), n), Ones(n));
    SquareTimes(t3, t2, 2 * n, v, Ones(2 * n));
    MulPowers(t2, t3, t2, v, Squared(Ones(2 * n), 2 * n), Ones(2 * n));
    SquareTimes(t2, t2, n, v, Ones(4 * n));
    MulPowers(t1, t2, t1, v, Squared(Ones(4 * n), n), Ones(n));
  }

  /** out = z^(P - 2) */
  method FeInvert(out: array<int32>, z: array<int32>)
    requires out.Length == z.Length == 10 && Within(z[..], MUL_IN_EVEN, MUL_IN_ODD)
    modifies out
    ensures Within(out[..], MUL_OUT_EVEN, MUL_OUT_ODD)
    ensures Cong(V(out[..]), Pow(old(V(z[..])), P - 2))
  {
    hide Cong, V, Prime, RootExponent;
    var t0, t1, t2, t3 := new int32[10], new int32[10], new int32[10], new int32[10];
    ghost var v := V(z[..]);
    HoldsItself(z);
    hide Holds;
    var n: nat := 5;
    InvertStart(t0, t1, t2, z, v);
    ChainTenfold(t1, t2, t3, n, 10 * n, v);
    ChainFivefold(t1, t2, t3, 10 * n, 50 * n, v);
    InvertExponent(n);
    hide Ones, Squared;
    SquareTimes(t1, t1, n, v, Ones(50 * n));
    MulPowers(out, t1, t0, v, Squared(Ones(50 * n), n), 11);
    HoldsPower(out, v, P - 2);
  }

  lemma HoldsItself(z: array<int32>)
    requires z.Length == 10 && Within(z[..], MUL_IN_EVEN, MUL_IN_ODD)
    ensures Holds(z, V(z[..]), 1)
  {
    hide Cong, V;
    var v := V(z[..]);
    CongRefl(v);
    assert Pow(v, 1) == v * Pow(v, 0);
  }

  lemma HoldsPower(a: array<int32>, v: int, e: nat)
    requires Holds(a, v, e)
    ensures Cong(V(a[..]), Pow(v, e))
  {
  }

  /** The two exponents. n is a parameter so that the verifier does not count its way down from 250. */
  lemma InvertExponent(n: nat)
    requires n == 5
    ensures Squared(Ones(50 * n), n) + 11 == P - 2
    ensures Squared(Ones(50 * n), n - 3) + 1 == RootExponent()
  {
    hide Pow2, TwoTo, Squared;
    OnesJoin(50 * n, n);
    OnesJoin(50 * n, n - 3);
    assert |Bits252()| == 51 * n - 3;
    TwoToIsPow2(Bits252());
    Powers();
    Pow2Add(51 * n - 3, 3);
  }

  /** out = z^((P - 5) / 8); out may be z */
  method FePow22523(out: array<int32>, z: array<int32>)
    requires out.Length == z.Length == 10 && Within(z[..], MUL_IN_EVEN, MUL_IN_ODD)
    modifies out
    ensures Within(out[..], MUL_OUT_EVEN, MUL_OUT_ODD)
    ensures Cong(V(out[..]), Pow(old(V(z[..])), RootExponent()))
  {
    hide Cong, V, Prime, RootExponent;
    var t0, t1, t2 := new int32[10], new int32[10], new int32[10];
    ghost var v := V(z[..]);
    HoldsItself(z);
    hide Holds;
    var n: nat := 5;
    Pow22523Start(t0, t1, z, v);
    ChainTenfold(t0, t1, t2, n, 10 * n, v);
    ChainFivefold(t0, t1, t2, 10 * n, 50 * n, v);
    InvertExponent(n);
    hide Ones, Squared;
    SquareTimes(t0, t0, n - 3, v, Ones(50 * n));
    MulPowers(out, t0, z, v, Squared(Ones(50 * n), n - 3), 1);
    HoldsPower(out, v, RootExponent());
  }

  /** t0 = z^31, as fe_pow22523 reaches it */
  method Pow22523Start(t0: array<int32>, t1: array<int32>, z: array<int32>, ghost v: int)
    requires t0.Length == t1.Length == 10 && Holds(z, v, 1)
    requires t0 != t1 && z != t0 && z != t1
    modifies t0, t1
    ensures Holds(t0, v, Ones(5))
  {
    hide Holds;
    Powers();
    hide Pow2;
    SquareTimes(t0, z, 1, v, 1);
    SquareTimes(t1, t0, 2, v, 2);
    MulPowers(t1, z, t1, v, 1, 8);
    MulPowers(t0, t0, t1, v, 2, 9);
    SquareTimes(t0, t0, 1, v, 11);
    MulPowers(t0, t1, t0, v, 9, 22);
  }
}
