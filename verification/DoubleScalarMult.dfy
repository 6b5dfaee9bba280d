/** native/common/ed25519_orlp/src/ge.c: ge_double_scalarmult_vartime, a * A + b * B from the
    signed sliding windows of a and b and the odd multiples of A and B. */
module DoubleScalarMult {
  import opened Ints
  import opened Edwards
  import opened EdwardsGroup
  import opened Coordinates
  import opened Bytes
  import opened Limbs
  import opened Fe
  import opened FeSteps
  import opened Ge
  import opened SlidingWindow

  // Tables of the source -----------------------------------------------------------------------------

  /** An entry of precomp_data.h */
  datatype Precomp = Precomp(yplusx: seq<int32>, yminusx: seq<int32>, xy2d: seq<int32>)

  // 1.1 * 2^25 and 1.1 * 2^24
  const TABLE_EVEN: int := 36909875
  const TABLE_ODD: int := 18454937

  ghost predicate Entry(e: Precomp, p: Point) {
    && Within(e.yplusx, TABLE_EVEN, TABLE_ODD) && Within(e.yminusx, TABLE_EVEN, TABLE_ODD)
    && Within(e.xy2d, TABLE_EVEN, TABLE_ODD)
    && Cached(V(e.yplusx), V(e.yminusx), 1, V(e.xy2d), p)
  }

  /** Bi[k] is (2k+1) B */
  ghost predicate OddTable(Bi: seq<Precomp>, B: Point) {
    |Bi| == 8 && forall k :: 0 <= k < 8 ==> Entry(Bi[k], Times(2 * k + 1, B))
  }

  method FromTable(e: Precomp, ghost p: Point) returns (t: GePrecomp)
    requires Entry(e, p)
    ensures t.Is(p) && fresh(t.yplusx) && fresh(t.yminusx) && fresh(t.xy2d)
  {
    hide Cached, V, Within;
    t := new GePrecomp();
    LoadConstant(t.yplusx, e.yplusx);
    LoadConstant(t.yminusx, e.yminusx);
    LoadConstant(t.xy2d, e.xy2d);
  }

  method LoadConstant(a: array<int32>, s: seq<int32>)
    requires a.Length == 10 && Within(s, TABLE_EVEN, TABLE_ODD)
    modifies a
    ensures a[..] == s && Element(a, 2)
  {
    Store(a, s[0], s[1], s[2], s[3], s[4], s[5], s[6], s[7], s[8], s[9]);
    hide Within;
    WithinMore(a[..], TABLE_EVEN, TABLE_ODD, 2 * MUL_OUT_EVEN, 2 * MUL_OUT_ODD);
  }

  // The odd multiples of A ---------------------------------------------------------------------------

  /** The next odd multiple: c = p + q */
  method NextMultiple(p: GeP3, q: GeCached, ghost pp: Point, ghost qp: Point) returns (c: GeCached)
    requires CurveFacts() && p.Is(pp) && q.Is(qp)
    ensures c.Is(Add(pp, qp))
    ensures fresh(c.YplusX) && fresh(c.YminusX) && fresh(c.Z) && fresh(c.T2d)
  {
    hide CurveFacts, GeP3.Is, GeCached.Is, GeP1P1.Is, Add;
    var t := new GeP1P1();
    var u := new GeP3();
    c := new GeCached();
    GeAdd(t, p, q, pp, qp);
    GeP1P1ToP3(u, t, Add(pp, qp));
    GeP3ToCached(c, u, Add(pp, qp));
  }

  lemma OddMultipleStep(k: nat, A: Point)
    requires CurveFacts() && OnCurve(A)
    ensures Add(Times(2, A), Times(2 * k + 1, A)) == Times(2 * k + 3, A)
  {
    hide *;
    TimesAdd(2, 2 * k + 1, A);
  }

  method Doubled(p: GeP3, ghost pp: Point) returns (r: GeP3)
    requires CurveFacts() && OnCurve(pp) && p.Is(pp)
    ensures r.Is(Times(2, pp)) && fresh(r.X) && fresh(r.Y) && fresh(r.Z) && fresh(r.T)
  {
    hide CurveFacts, OnCurve, GeP3.Is, GeP1P1.Is, Add, Times;
    TimesOne(pp);
    var t := new GeP1P1();
    r := new GeP3();
    GeP3Dbl(t, p, pp);
    GeP1P1ToP3(r, t, Times(2, pp));
  }

  /** A, 3A, 5A, 7A, 9A, 11A, 13A, 15A */
  method BuildMultiples(A: GeP3, ghost Ap: Point) returns (Ai: seq<GeCached>)
    requires CurveFacts() && OnCurve(Ap) && A.Is(Ap)
    ensures |Ai| == 8 && forall k :: 0 <= k < 8 ==> Ai[k].Is(Times(2 * k + 1, Ap))
    ensures forall k :: 0 <= k < 8 ==> fresh(Ai[k].YplusX) && fresh(Ai[k].YminusX) && fresh(Ai[k].Z) && fresh(Ai[k].T2d)
  {
    hide CurveFacts, OnCurve, GeP3.Is, GeCached.Is, GeP1P1.Is, Add, Times;
    TimesOne(Ap);
    var first := new GeCached();
    GeP3ToCached(first, A, Ap);
    var A2 := Doubled(A, Ap);
    Ai := [first];
    while |Ai| < 8
      invariant 1 <= |Ai| <= 8 && A2.Is(Times(2, Ap))
      invariant forall k :: 0 <= k < |Ai| ==> Ai[k].Is(Times(2 * k + 1, Ap))
      invariant forall k :: 0 <= k < |Ai| ==>
        fresh(Ai[k].YplusX) && fresh(Ai[k].YminusX) && fresh(Ai[k].Z) && fresh(Ai[k].T2d)
      decreases 8 - |Ai|
    {
      var n := |Ai| - 1;
      OddMultipleStep(n, Ap);
      var c := NextMultiple(A2, Ai[n], Times(2, Ap), Times(2 * n + 1, Ap));
      Ai := Ai + [c];
    }
  }

  // One digit of each scalar -------------------------------------------------------------------------

  predicate Digit(x: int) {
    x == 0 || Odd(x)
  }

  /** Adds a cached point to a completed one. */
  method PlusCached(t: GeP1P1, q: GeCached, ghost tp: Point, ghost qp: Point)
    requires CurveFacts() && t.Is(tp) && q.Is(qp)
    requires q.Apart(t.X) && q.Apart(t.Y) && q.Apart(t.Z) && q.Apart(t.T)
    modifies t.X, t.Y, t.Z, t.T
    ensures t.Is(Add(tp, qp))
  {
    hide CurveFacts, GeP3.Is, GeCached.Is, GeP1P1.Is, Add;
    CompletedValid(t, tp);
    var u := new GeP3();
    GeP1P1ToP3(u, t, tp);
    GeAdd(t, u, q, tp, qp);
  }

  /** Subtracts a cached point from a completed one. */
  method MinusCached(t: GeP1P1, q: GeCached, ghost tp: Point, ghost qp: Point)
    requires CurveFacts() && t.Is(tp) && q.Is(qp)
    requires q.Apart(t.X) && q.Apart(t.Y) && q.Apart(t.Z) && q.Apart(t.T)
    modifies t.X, t.Y, t.Z, t.T
    ensures t.Is(Add(tp, Neg(qp)))
  {
    hide CurveFacts, GeP3.Is, GeCached.Is, GeP1P1.Is, Add, Neg;
    CompletedValid(t, tp);
    var u := new GeP3();
    GeP1P1ToP3(u, t, tp);
    GeSub(t, u, q, tp, qp);
  }

  /** The branches on aslide[i]: t = t + x * A */
  method AddMultiple(t: GeP1P1, x: int, Ai: seq<GeCached>, ghost tp: Point, ghost A: Point)
    requires CurveFacts() && OnCurve(A) && t.Is(tp) && Digit(x)
    requires |Ai| == 8 && forall k :: 0 <= k < 8 ==> Ai[k].Is(Times(2 * k + 1, A))
    requires forall k :: 0 <= k < 8 ==> Ai[k].Apart(t.X) && Ai[k].Apart(t.Y) && Ai[k].Apart(t.Z) && Ai[k].Apart(t.T)
    modifies t.X, t.Y, t.Z, t.T
    ensures t.Is(Add(tp, Times(x, A)))
  {
    hide CurveFacts, OnCurve, GeCached.Is, GeP1P1.Is, GeCached.Apart, Add, Times, Neg, Digit;
    DigitCases(x, A);
    CompletedValid(t, tp);
    if x > 0 {
      PlusCached(t, Ai[x / 2], tp, Times(x, A));
    } else if x < 0 {
      MinusCached(t, Ai[-x / 2], tp, Times(-x, A));
    } else {
      AddNothing(tp, A);
    }
  }

  lemma DigitCases(x: int, A: Point)
    requires CurveFacts() && OnCurve(A) && Digit(x)
    ensures x > 0 ==> 2 * (x / 2) + 1 == x && x / 2 < 8
    ensures x < 0 ==> 2 * (-x / 2) + 1 == -x && -x / 2 < 8
    ensures Neg(Times(-x, A)) == Times(x, A)
  {
    TimesNeg(-x, A);
  }

  lemma CompletedValid(t: GeP1P1, tp: Point)
    requires t.Is(tp)
    ensures t.Valid() && OnCurve(tp)
  {
  }

  lemma ProjectiveValid(r: GeP2, rp: Point)
    requires r.Is(rp)
    ensures r.Valid()
  {
  }

  lemma AddNothing(p: Point, A: Point)
    requires CurveFacts() && OnCurve(p)
    ensures Add(p, Times(0, A)) == p
  {
    AddZero(p);
  }

  /** Adds a point of the table to a completed one. */
  method PlusEntry(t: GeP1P1, e: Precomp, ghost tp: Point, ghost ep: Point)
    requires CurveFacts() && t.Is(tp) && Entry(e, ep)
    modifies t.X, t.Y, t.Z, t.T
    ensures t.Is(Add(tp, ep))
  {
    hide CurveFacts, GeP3.Is, GePrecomp.Is, GeP1P1.Is, Add, Entry;
    CompletedValid(t, tp);
    var u := new GeP3();
    GeP1P1ToP3(u, t, tp);
    var q := FromTable(e, ep);
    GeMadd(t, u, q, tp, ep);
  }

  /** Subtracts a point of the table from a completed one. */
  method MinusEntry(t: GeP1P1, e: Precomp, ghost tp: Point, ghost ep: Point)
    requires CurveFacts() && t.Is(tp) && Entry(e, ep)
    modifies t.X, t.Y, t.Z, t.T
    ensures t.Is(Add(tp, Neg(ep)))
  {
    hide CurveFacts, GeP3.Is, GePrecomp.Is, GeP1P1.Is, Add, Neg, Entry;
    CompletedValid(t, tp);
    var u := new GeP3();
    GeP1P1ToP3(u, t, tp);
    var q := FromTable(e, ep);
    GeMsub(t, u, q, tp, ep);
  }

  /** The branches on bslide[i]: t = t + x * B */
  method AddTableMultiple(t: GeP1P1, x: int, Bi: seq<Precomp>, ghost tp: Point, ghost B: Point)
    requires CurveFacts() && OnCurve(B) && t.Is(tp) && Digit(x) && OddTable(Bi, B)
    modifies t.X, t.Y, t.Z, t.T
    ensures t.Is(Add(tp, Times(x, B)))
  {
    hide CurveFacts, OnCurve, GeP1P1.Is, Entry, Add, Times, Neg, Digit;
    DigitCases(x, B);
    CompletedValid(t, tp);
    if x > 0 {
      PlusEntry(t, Bi[x / 2], tp, Times(x, B));
    } else if x < 0 {
      MinusEntry(t, Bi[-x / 2], tp, Times(-x, B));
    } else {
      AddNothing(tp, B);
    }
  }

  /** m A + n B doubled, plus x A, plus y B */
  lemma DoubleAndAdd(m: int, n: int, x: int, y: int, A: Point, B: Point)
    requires CurveFacts() && OnCurve(A) && OnCurve(B)
    ensures var r := Add(Times(m, A), Times(n, B));
      Add(Add(Add(r, r), Times(x, A)), Times(y, B)) == Add(Times(x + 2 * m, A), Times(y + 2 * n, B))
  {
    hide *;
    var a, b := Times(m, A), Times(n, B);
    var aa, bb, xa, yb := Times(m + m, A), Times(n + n, B), Times(x, A), Times(y, B);
    TimesOnCurve(m, A);
    TimesOnCurve(n, B);
    TimesOnCurve(m + m, A);
    TimesOnCurve(n + n, B);
    TimesOnCurve(x, A);
    TimesOnCurve(y, B);
    Interleave(a, b, a, b);
    TimesAdd(m, m, A);
    TimesAdd(n, n, B);
    // ((aa + bb) + xa) + yb = (aa + bb) + (xa + yb) = (aa + xa) + (bb + yb)
    Closed(aa, bb);
    Associative(Add(aa, bb), xa, yb);
    Interleave(aa, bb, xa, yb);
    TimesAdd(m + m, x, A);
    TimesAdd(n + n, y, B);
    assert m + m + x == x + 2 * m && n + n + y == y + 2 * n;
  }

  /** One round of the descending loop */
  method Round(r: GeP2, x: int, y: int, Ai: seq<GeCached>, Bi: seq<Precomp>, ghost m: int, ghost n: int,
      ghost A: Point, ghost B: Point)
    requires CurveFacts() && OnCurve(A) && OnCurve(B) && r.Is(Add(Times(m, A), Times(n, B))) && Digit(x) && Digit(y)
    requires |Ai| == 8 && forall k :: 0 <= k < 8 ==> Ai[k].Is(Times(2 * k + 1, A))
    requires OddTable(Bi, B)
    modifies r.X, r.Y, r.Z
    ensures r.Is(Add(Times(x + 2 * m, A), Times(y + 2 * n, B)))
  {
    hide CurveFacts, OnCurve, GeCached.Is, GeP1P1.Is, GeP2.Is, Add, Times, OddTable, Digit;
    ProjectiveValid(r, Add(Times(m, A), Times(n, B)));
    DoubleAndAdd(m, n, x, y, A, B);
    ghost var rp := Add(Times(m, A), Times(n, B));
    var t := new GeP1P1();
    GeP2Dbl(t, r, rp);
    AddMultiple(t, x, Ai, Add(rp, rp), A);
    AddTableMultiple(t, y, Bi, Add(Add(rp, rp), Times(x, A)), B);
    GeP1P1ToP2(r, t, Add(Add(Add(rp, rp), Times(x, A)), Times(y, B)));
  }

  /** The two descending loops, over the digits of both scalars. */
  method Combine(r: GeP2, aslide: seq<int>, bslide: seq<int>, Ai: seq<GeCached>, Bi: seq<Precomp>, ghost A: Point,
      ghost B: Point)
    requires CurveFacts() && OnCurve(A) && OnCurve(B) && r.Valid() && OddTable(Bi, B)
    requires |aslide| == |bslide| == 256 && forall k :: 0 <= k < 256 ==> Digit(aslide[k]) && Digit(bslide[k])
    requires |Ai| == 8 && forall k :: 0 <= k < 8 ==> Ai[k].Is(Times(2 * k + 1, A))
    requires forall k :: 0 <= k < 8 ==> Ai[k].Apart(r.X) && Ai[k].Apart(r.Y) && Ai[k].Apart(r.Z)
    modifies r.X, r.Y, r.Z
    ensures r.Is(Add(Times(Binary(aslide), A), Times(Binary(bslide), B)))
  {
    hide CurveFacts, OnCurve, GeCached.Is, GeP2.Is, Add, OddTable, Digit, Times, Binary;
    GeP2Zero(r);
    var i := 256;
    BinaryZeros(aslide[i..]);
    BinaryZeros(bslide[i..]);
    while i > 0 && aslide[i - 1] == 0 && bslide[i - 1] == 0
      invariant 0 <= i <= 256 && Binary(aslide[i..]) == 0 && Binary(bslide[i..]) == 0 && r.Is(Zero)
    {
      i := i - 1;
      BinarySplit(aslide, i);
      BinarySplit(bslide, i);
    }
    ZeroStart(Binary(aslide[i..]), Binary(bslide[i..]), A, B, Zero);
    while i > 0
      invariant 0 <= i <= 256
      invariant r.Is(Add(Times(Binary(aslide[i..]), A), Times(Binary(bslide[i..]), B)))
      invariant forall k :: 0 <= k < 8 ==> Ai[k].Is(Times(2 * k + 1, A))
    {
      ghost var m, n := Binary(aslide[i..]), Binary(bslide[i..]);
      i := i - 1;
      BinarySplit(aslide, i);
      BinarySplit(bslide, i);
      Round(r, aslide[i], bslide[i], Ai, Bi, m, n, A, B);
    }
    assert aslide[0..] == aslide && bslide[0..] == bslide;
  }

  lemma ZeroStart(m: int, n: int, A: Point, B: Point, z: Point)
    requires m == n == 0 && z == Zero && CurveFacts()
    ensures Add(Times(m, A), Times(n, B)) == z
  {
    hide CurveFacts, Add, OnCurve;
    ZeroOnCurve();
    AddZero(z);
  }

  lemma SparseDigits(s: seq<int>)
    requires Sparse(s, 256) && |s| == 256
    ensures forall k :: 0 <= k < 256 ==> Digit(s[k])
  {
  }

  /** x is the scalar v if 256 sparse digits can stand for v, and v less 2^256 if not. A scalar of up to 255
      bits has such digits. */
  predicate Recoded(x: int, v: int) {
    x == (if Representable(v, 256) then v else v - Pow2(256)) && (v < Pow2(255) ==> x == v)
  }

  /** r = a A + b B for all scalars that 256 sparse digits can stand for. */
  method GeDoubleScalarMultVartime(r: GeP2, a: seq<byte>, A: GeP3, b: seq<byte>, Bi: seq<Precomp>, ghost Ap: Point,
      ghost B: Point)
    returns (ghost x: int, ghost y: int)
    requires CurveFacts() && OnCurve(Ap) && OnCurve(B) && r.Valid() && A.Is(Ap) && OddTable(Bi, B)
    requires |a| == |b| == 32
    modifies r.X, r.Y, r.Z
    ensures Recoded(x, Nat(a)) && Recoded(y, Nat(b))
    ensures r.Is(Add(Times(x, Ap), Times(y, B)))
  {
    hide CurveFacts, OnCurve, GeCached.Is, GeP2.Is, GeP3.Is, Add, OddTable, Digit, Times, Binary, Sparse, Nat, Pow2,
      Representable;
    var aslide, bslide := new int8[256], new int8[256];
    Slide(aslide, a);
    Slide(bslide, b);
    x, y := Binary(aslide[..]), Binary(bslide[..]);
    SparseDigits(aslide[..]);
    SparseDigits(bslide[..]);
    var Ai := BuildMultiples(A, Ap);
    Combine(r, aslide[..], bslide[..], Ai, Bi, Ap, B);
  }
}
