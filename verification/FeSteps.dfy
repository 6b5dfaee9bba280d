/** fe.c as the point formulas use it: how large the limbs of each result are, as a multiple of
    what a multiplication gives, and what number it stands for modulo P. */
module FeSteps {
  import opened Ints
  import opened Field
  import opened Edwards
  import opened Limbs
  import opened Fe

  /** Ten limbs, at most k times as large as those of a product. */
  predicate Element(a: array<int32>, k: nat)
    reads a
  {
    a.Length == 10 && Within(a[..], k * MUL_OUT_EVEN, k * MUL_OUT_ODD)
  }

  /** An element that stands for v modulo P. */
  ghost predicate Stands(a: array<int32>, v: int, k: nat)
    reads a
  {
    Element(a, k) && Cong(V(a[..]), v)
  }

  ghost function Val(a: array<int32>): int
    requires a.Length == 10
    reads a
  {
    V(a[..])
  }

  lemma StandsForItself(a: array<int32>, k: nat)
    requires Element(a, k)
    ensures Stands(a, Val(a), k)
  {
    hide Cong, V;
    CongRefl(V(a[..]));
  }

  lemma StandsFor(a: array<int32>, v: int, k: nat)
    requires Stands(a, v, k)
    ensures Element(a, k) && Cong(Val(a), v)
  {
  }

  /** A product as a term of its own, so that the methods below can treat it as one. */
  function Prod(v: int, w: int): int {
    v * w
  }

  lemma WithinMore(h: seq<int>, e: int, o: int, e': int, o': int)
    requires Within(h, e, o) && e <= e' && o <= o'
    ensures Within(h, e', o')
  {
  }

  method Mul(h: array<int32>, f: array<int32>, g: array<int32>, ghost v: int, ghost w: int, ghost j: nat, ghost k: nat)
    requires h.Length == 10 && Stands(f, v, j) && Stands(g, w, k) && j <= 3 && k <= 3
    modifies h
    ensures Stands(h, Prod(v, w), 1)
  {
    hide Cong, V, Within;
    WithinMore(f[..], j * MUL_OUT_EVEN, j * MUL_OUT_ODD, MUL_IN_EVEN, MUL_IN_ODD);
    WithinMore(g[..], k * MUL_OUT_EVEN, k * MUL_OUT_ODD, MUL_IN_EVEN, MUL_IN_ODD);
    ghost var a, b := V(f[..]), V(g[..]);
    CongMul(a, v, b, w);
    FeMul(h, f, g);
    CongTrans(V(h[..]), a * b, v * w);
  }

  method Sq(h: array<int32>, f: array<int32>, ghost v: int, ghost k: nat)
    requires h.Length == 10 && Stands(f, v, k) && k <= 3
    modifies h
    ensures Stands(h, Prod(v, v), 1)
  {
    hide Cong, V, Within;
    WithinMore(f[..], k * MUL_OUT_EVEN, k * MUL_OUT_ODD, MUL_IN_EVEN, MUL_IN_ODD);
    ghost var a := V(f[..]);
    CongMul(a, v, a, v);
    FeSq(h, f);
    CongTrans(V(h[..]), a * a, v * v);
  }

  method Sq2(h: array<int32>, f: array<int32>, ghost v: int, ghost k: nat)
    requires h.Length == 10 && Stands(f, v, k) && k <= 3
    modifies h
    ensures Stands(h, 2 * Prod(v, v), 1)
  {
    hide Cong, V, Within;
    WithinMore(f[..], k * MUL_OUT_EVEN, k * MUL_OUT_ODD, MUL_IN_EVEN, MUL_IN_ODD);
    ghost var a := V(f[..]);
    CongMul(a, v, a, v);
    CongScale(a * a, v * v, 2);
    FeSq2(h, f);
    CongTrans(V(h[..]), 2 * (a * a), 2 * (v * v));
  }

  method Plus(h: array<int32>, f: array<int32>, g: array<int32>, ghost v: int, ghost w: int, ghost j: nat, ghost k: nat)
    requires h.Length == 10 && Stands(f, v, j) && Stands(g, w, k) && j + k <= 3
    modifies h
    ensures Stands(h, v + w, j + k)
  {
    hide Cong, V, Within;
    CongAdd(V(f[..]), v, V(g[..]), w);
    FeAdd(h, f, g, j * MUL_OUT_EVEN, j * MUL_OUT_ODD, k * MUL_OUT_EVEN, k * MUL_OUT_ODD);
  }

  method Minus(h: array<int32>, f: array<int32>, g: array<int32>, ghost v: int, ghost w: int, ghost j: nat,
      ghost k: nat)
    requires h.Length == 10 && Stands(f, v, j) && Stands(g, w, k) && j + k <= 3
    modifies h
    ensures Stands(h, v - w, j + k)
  {
    hide Cong, V, Within;
    CongAdd(V(f[..]), v, V(g[..]), w);
    FeSub(h, f, g, j * MUL_OUT_EVEN, j * MUL_OUT_ODD, k * MUL_OUT_EVEN, k * MUL_OUT_ODD);
  }

  method Opposite(h: array<int32>, f: array<int32>, ghost v: int, ghost k: nat)
    requires h.Length == 10 && Stands(f, v, k) && k <= 3
    modifies h
    ensures Stands(h, -v, k)
  {
    hide Cong, V, Within;
    CongNegate(V(f[..]), v);
    FeNeg(h, f, k * MUL_OUT_EVEN, k * MUL_OUT_ODD);
  }

  /** A fresh array with the limbs of a constant of the source. */
  method Constant(s: seq<int32>) returns (a: array<int32>)
    requires |s| == 10
    ensures fresh(a) && a.Length == 10 && a[..] == s
  {
    a := new int32[10];
    Store(a, s[0], s[1], s[2], s[3], s[4], s[5], s[6], s[7], s[8], s[9]);
  }
}
