/** native/common/ed25519_orlp/src/ge.c: ge_scalarmult_base, a * B from signed radix-16 digits and a
    table that is read without branching on the digits. */
module BaseScalarMult {
  import opened Ints
  import opened Bits
  import opened Rings
  import opened Field
  import opened Edwards
  import opened EdwardsGroup
  import opened Coordinates
  import opened Bytes
  import opened Limbs
  import opened Fe
  import opened FeTests
  import opened FeSteps
  import opened Ge
  import opened DoubleScalarMult

  // Branch-free tests --------------------------------------------------------------------------------

  /** 1 for equal, 0 for different bytes: the top bit of (b ^ c) - 1 in 64 bits */
  function Equal(b: byte, c: byte): (r: int)
    ensures r == if b == c then 1 else 0
  {
    XorZeroOnlyEqual(b, c);
    XorByte(b, c);
    (Xor(b, c) - 1) % 0x1_0000_0000_0000_0000 / 0x8000_0000_0000_0000
  }

  lemma {:induction false} XorZeroOnlyEqual(a: nat, b: nat)
    ensures Xor(a, b) == 0 <==> a == b
    decreases a + b
  {
    if a + b > 0 {
      XorZeroOnlyEqual(a / 2, b / 2);
      XorHalves(a, b);
    }
  }

  lemma XorByte(b: byte, c: byte)
    ensures Xor(b, c) < 0x100
  {
    Powers();
    XorBound(b, c, 8);
  }

  /** The top bit of b converted to 64 bits */
  function Negative(b: int8): (r: int)
    ensures r == if b < 0 then 1 else 0
  {
    b % 0x1_0000_0000_0000_0000 / 0x8000_0000_0000_0000
  }

  /** (-negative) & b */
  method Masked(b: int8, negative: int) returns (r: int)
    requires negative == 0 || negative == 1
    ensures r == if negative == 1 then b else 0
  {
    hide And, Pow2;
    WordPower();
    AndMask(32, Word(b));
    AndZero(Word(b));
    r := Signed(And(Word(b), Word(-negative)));
  }

  /** The magnitude of b, by a mask that takes 2 b away where b is negative */
  method Magnitude(b: int8, negative: int) returns (r: byte)
    requires negative == if b < 0 then 1 else 0
    ensures r as int == if b < 0 then -(b as int) else b as int
  {
    var m := Masked(b, negative);
    r := (b as int - 2 * m) % 0x100;
  }

  // Table lookup without branches ----------------------------------------------------------------------

  method CmovPrecomp(t: GePrecomp, u: GePrecomp, b: int, ghost tp: Point, ghost up: Point)
    requires (b == 0 || b == 1) && t.Is(tp) && u.Is(up) && u.Apart(t.yplusx) && u.Apart(t.yminusx) && u.Apart(t.xy2d)
    modifies t.yplusx, t.yminusx, t.xy2d
    ensures t.Is(if b == 1 then up else tp)
  {
    hide Cached, V, Within;
    FeCmov(t.yplusx, u.yplusx, b);
    FeCmov(t.yminusx, u.yminusx, b);
    FeCmov(t.xy2d, u.xy2d, b);
  }

  /** minust */
  method Opposed(t: GePrecomp, ghost tp: Point) returns (m: GePrecomp)
    requires t.Is(tp)
    ensures m.Is(Neg(tp)) && fresh(m.yplusx) && fresh(m.yminusx) && fresh(m.xy2d)
  {
    hide Cached, V, Within, Neg;
    m := new GePrecomp();
    FeCopy(m.yplusx, t.yminusx);
    FeCopy(m.yminusx, t.yplusx);
    FeNeg(m.xy2d, t.xy2d, 2 * MUL_OUT_EVEN, 2 * MUL_OUT_ODD);
    CachedNeg(V(t.yplusx[..]), V(t.yminusx[..]), 1, V(t.xy2d[..]), tp);
  }

  /** The neutral element */
  method PrecompZero(t: GePrecomp)
    requires t.Valid()
    modifies t.yplusx, t.yminusx, t.xy2d
    ensures t.Is(Zero)
  {
    hide Cong, V, Within, Cached;
    Fe1(t.yplusx);
    Fe1(t.yminusx);
    Fe0(t.xy2d);
    WithinMore(t.yplusx[..], 1, 1, 2 * MUL_OUT_EVEN, 2 * MUL_OUT_ODD);
    WithinMore(t.yminusx[..], 1, 1, 2 * MUL_OUT_EVEN, 2 * MUL_OUT_ODD);
    WithinMore(t.xy2d[..], 1, 1, 2 * MUL_OUT_EVEN, 2 * MUL_OUT_ODD);
    ZeroProjective();
  }

  /** q, 2q, ..., 8q */
  ghost predicate Row(row: seq<Precomp>, q: Point) {
    |row| == 8 && forall k :: 0 <= k < 8 ==> Entry(row[k], Times(k + 1, q))
  }

  /** What select gives for a digit: its multiple of q, but the neutral element for one beyond the table. */
  function Selected(b: int, q: Point): Point {
    if -8 <= b <= 8 then Times(b, q) else Zero
  }

  /** What the first k conditional moves have put into t. */
  function Moved(magnitude: int, k: int, q: Point): Point {
    if 1 <= magnitude <= k then Times(magnitude, q) else Zero
  }

  /** The eight conditional moves */
  method MoveEntries(t: GePrecomp, row: seq<Precomp>, magnitude: byte, ghost q: Point)
    requires t.Is(Zero) && Row(row, q)
    modifies t.yplusx, t.yminusx, t.xy2d
    ensures t.Is(Moved(magnitude, 8, q))
  {
    hide GePrecomp.Is, Entry, Times, Equal;
    for k := 0 to 8
      invariant t.Is(Moved(magnitude, k, q))
    {
      var u := FromTable(row[k], Times(k + 1, q));
      CmovPrecomp(t, u, Equal(magnitude, k + 1), Moved(magnitude, k, q), Times(k + 1, q));
    }
  }

  method Select(t: GePrecomp, row: seq<Precomp>, b: int8, ghost q: Point)
    requires CurveFacts() && OnCurve(q) && t.Valid() && Row(row, q)
    modifies t.yplusx, t.yminusx, t.xy2d
    ensures t.Is(Selected(b, q))
  {
    hide CurveFacts, OnCurve, GePrecomp.Is, Row, Times, Neg, Selected, Moved, Negative;
    var negative := Negative(b);
    var magnitude := Magnitude(b, negative);
    SelectedSign(b, q);
    PrecompZero(t);
    MoveEntries(t, row, magnitude, q);
    ghost var p := Moved(magnitude, 8, q);
    var minust := Opposed(t, p);
    CmovPrecomp(t, minust, negative, p, Neg(p));
  }

  lemma SelectedSign(b: int, q: Point)
    requires CurveFacts() && OnCurve(q)
    ensures Selected(b, q) == if b < 0 then Neg(Moved(-b, 8, q)) else Moved(b, 8, q)
  {
    hide CurveFacts, OnCurve, Neg, Add;
    NegZero();
    if -8 <= b <= 8 {
      TimesNeg(-b, q);
    }
  }

  lemma NegZero()
    ensures Neg(Zero) == Zero
  {
    hide Cong, Residue;
    CongRefl(0);
    ResidueUnique(0, 0);
  }

  // Signed radix-16 digits -----------------------------------------------------------------------------

  /** s[0] + 16*s[1] + 256*s[2] + ... for any digits */
  function Hex(s: seq<int>): int {
    if s == [] then 0 else s[0] + 16 * Hex(s[1..])
  }

  lemma {:induction false} HexAppend(s: seq<int>, t: seq<int>)
    ensures Hex(s + t) == Hex(s) + Pow2(4 * |s|) * Hex(t)
  {
    if s == [] {
      assert s + t == t;
    } else {
      HexAppend(s[1..], t);
      assert (s + t)[1..] == s[1..] + t;
      SixteenTimes(|s| - 1);
      ShiftDigits(Pow2(4 * |s|), Pow2(4 * (|s| - 1)), Hex(s[1..]), Hex(t));
    }
  }

  lemma SixteenTimes(n: nat)
    ensures Pow2(4 * (n + 1)) == 16 * Pow2(4 * n)
  {
    Pow2Add(4, 4 * n);
    Powers();
  }

  lemma ShiftDigits(p: int, p': int, a: int, b: int)
    requires p == 16 * p'
    ensures 16 * (a + p' * b) == 16 * a + p * b
  {
  }

  function Nibbles(a: seq<byte>): (s: seq<int>)
    ensures |s| == 2 * |a|
    ensures forall k :: 0 <= k < |a| ==> s[2 * k] == a[k] % 16 && s[2 * k + 1] == a[k] / 16
  {
    if a == [] then [] else [a[0] % 16, a[0] / 16] + Nibbles(a[1..])
  }

  lemma {:induction false} NibblesValue(a: seq<byte>)
    ensures Hex(Nibbles(a)) == Nat(a)
  {
    if a != [] {
      NibblesValue(a[1..]);
      var s := Nibbles(a);
      assert s[1..] == [a[0] / 16] + Nibbles(a[1..]) && s[1..][1..] == Nibbles(a[1..]);
    }
  }

  /** The digits of s with the carry c brought in, each but the last moved into [-8, 8). */
  function Recode(s: seq<int>, c: int): (t: seq<int>)
    ensures |t| == |s|
  {
    if s == [] then []
    else if |s| == 1 then [s[0] + c]
    else [s[0] + c - (s[0] + c + 8) / 16 * 16] + Recode(s[1..], (s[0] + c + 8) / 16)
  }

  lemma {:induction false} RecodeValue(s: seq<int>, c: int)
    requires s != []
    ensures Hex(Recode(s, c)) == Hex(s) + c
  {
    var t := Recode(s, c);
    if |s| > 1 {
      RecodeValue(s[1..], (s[0] + c + 8) / 16);
      assert t[1..] == Recode(s[1..], (s[0] + c + 8) / 16);
    } else {
      assert t[1..] == [] == s[1..];
    }
  }

  lemma {:induction false} RecodeDigits(s: seq<int>, c: int)
    requires s != [] && (c == 0 || c == 1) && forall k :: 0 <= k < |s| ==> 0 <= s[k] < 16
    requires s[|s| - 1] < 8
    ensures forall k :: 0 <= k < |s| ==> -8 <= Recode(s, c)[k] <= 8
  {
    if |s| > 1 {
      RecodeDigits(s[1..], (s[0] + c + 8) / 16);
    }
  }

  /** e = the digits of a; e[0..62] in [-8, 8), e[63] in [0, 8] */
  method SignedDigits(e: array<int8>, a: seq<byte>)
    requires e.Length == 64 && |a| == 32 && a[31] <= 127
    modifies e
    ensures Hex(e[..]) == Nat(a) && forall k :: 0 <= k < 64 ==> -8 <= e[k] <= 8
  {
    hide Nibbles, Recode, Hex, Nat, Low;
    ghost var s := Nibbles(a);
    SplitBytes(e, a);
    NibblesValue(a);
    RecodeValue(s, 0);
    RecodeDigits(s, 0);
    CarryDigits(e);
  }

  /** The low and the high four bits of a byte */
  method Halves(x: byte) returns (low: int8, high: int8)
    ensures low as int == x % 16 && high as int == x / 16
  {
    hide Pow2, Low;
    Powers();
    low := Low(x, 4);
    high := Low(Shr(x, 16), 4);
  }

  method SplitBytes(e: array<int8>, a: seq<byte>)
    requires e.Length == 64 && |a| == 32
    modifies e
    ensures e[..] == Nibbles(a) && forall k :: 0 <= k < 64 ==> 0 <= e[k] < 16
    ensures e[63] == a[31] / 16
  {
    hide Nibbles;
    ghost var s := Nibbles(a);
    for i := 0 to 32
      invariant forall k :: 0 <= k < 2 * i ==> e[k] == s[k] && 0 <= e[k] < 16
    {
      e[2 * i], e[2 * i + 1] := Halves(a[i]);
      assert e[2 * i] == s[2 * i] && e[2 * i + 1] == s[2 * i + 1];
    }
    assert s[2 * 31 + 1] == a[31] / 16;
  }

  method CarryDigits(e: array<int8>)
    requires e.Length == 64 && forall k :: 0 <= k < 64 ==> 0 <= e[k] < 16
    modifies e
    ensures e[..] == Recode(old(e[..]), 0)
  {
    hide Recode;
    ghost var s: seq<int> := e[..];
    ghost var t := Recode(s, 0);
    var carry: int8 := 0;
    for i := 0 to 63
      invariant carry == 0 || carry == 1
      invariant forall k :: 0 <= k < i ==> e[k] == t[k]
      invariant forall k :: i <= k < 64 ==> e[k] == s[k] && 0 <= e[k] < 16
      invariant t[i..] == Recode(s[i..], carry)
    {
      RecodeStep(s, t, i, carry);
      e[i] := e[i] + carry;
      carry := e[i] + 8;
      carry := carry / 16;
      e[i] := e[i] - carry * 16;
    }
    LastDigit(s, t, carry);
    e[63] := e[63] + carry;
  }

  lemma RecodeStep(s: seq<int>, t: seq<int>, i: nat, c: int)
    requires i + 1 < |s| == |t| && t[i..] == Recode(s[i..], c)
    ensures t[i] == s[i] + c - (s[i] + c + 8) / 16 * 16
    ensures t[i + 1..] == Recode(s[i + 1..], (s[i] + c + 8) / 16)
  {
    assert s[i..][1..] == s[i + 1..] && t[i..][1..] == t[i + 1..] && t[i..][0] == t[i];
  }

  lemma LastDigit(s: seq<int>, t: seq<int>, c: int)
    requires |s| == |t| == 64 && t[63..] == Recode(s[63..], c)
    ensures t[63] == s[63] + c
  {
    assert t[63..][0] == t[63];
  }

  // The digits of odd and of even index ------------------------------------------------------------------

  /** The first n digits of index off, off + 2, off + 4, ... with weights 1, 256, 256^2, ... */
  function Alternate(e: seq<int>, off: nat, n: nat): int
    requires off + 2 * n <= |e| + 1
  {
    if n == 0 then 0 else Alternate(e, off, n - 1) + e[off + 2 * (n - 1)] * Pow2(8 * (n - 1))
  }

  lemma {:induction false} HexAlternates(e: seq<int>, n: nat)
    requires 2 * n <= |e|
    ensures Hex(e[..2 * n]) == Alternate(e, 0, n) + 16 * Alternate(e, 1, n)
  {
    if n > 0 {
      HexAlternates(e, n - 1);
      var s, x, y := e[..2 * (n - 1)], e[2 * n - 2], e[2 * n - 1];
      assert e[..2 * n] == s + [x, y];
      HexAppend(s, [x, y]);
      HexPair(x, y);
      PairOfDigits(x, y, Pow2(8 * (n - 1)));
    }
  }

  lemma HexPair(x: int, y: int)
    ensures Hex([x, y]) == x + 16 * y
  {
    var s, t := [x, y], [y];
    assert s[1..] == t && t[1..] == [];
    assert Hex(t) == y + 16 * Hex(t[1..]);
  }

  lemma PairOfDigits(x: int, y: int, p: int)
    ensures p * (x + 16 * y) == x * p + 16 * (y * p)
  {
    Factor(x, 16 * y, p);
    Associate(16, y, p);
    Commute(p, x + 16 * y);
  }

  /** base[i][j] is (j+1) * 256^i * B */
  ghost predicate BaseTable(base: seq<seq<Precomp>>, B: Point) {
    |base| == 32 && forall i :: 0 <= i < 32 ==> Row(base[i], Times(Pow2(8 * i), B))
  }

  /** Adds the multiple that one digit selects from a row of the table. */
  method AddSelected(h: GeP3, row: seq<Precomp>, digit: int8, ghost n: int, ghost p: int, ghost B: Point)
    requires CurveFacts() && OnCurve(B) && h.Is(Times(n, B)) && Row(row, Times(p, B)) && -8 <= digit <= 8
    modifies h.X, h.Y, h.Z, h.T
    ensures h.Is(Times(n + digit * p, B))
  {
    hide CurveFacts, OnCurve, GeP3.Is, GePrecomp.Is, GeP1P1.Is, Row, Times, Add, Selected;
    ExtendedValid(h, Times(n, B));
    AddedMultiple(n, digit, p, B);
    var t := new GePrecomp();
    Select(t, row, digit, Times(p, B));
    var r := new GeP1P1();
    GeMadd(r, h, t, Times(n, B), Selected(digit, Times(p, B)));
    GeP1P1ToP3(h, r, Times(n + digit * p, B));
  }

  lemma ExtendedValid(h: GeP3, p: Point)
    requires h.Is(p)
    ensures h.Valid()
  {
  }

  lemma AddedMultiple(n: int, d: int, p: int, B: Point)
    requires CurveFacts() && OnCurve(B) && -8 <= d <= 8
    ensures OnCurve(Times(p, B)) && Add(Times(n, B), Selected(d, Times(p, B))) == Times(n + d * p, B)
  {
    hide CurveFacts, OnCurve, Times, Add;
    TimesOnCurve(p, B);
    TimesTimes(d, p, B);
    TimesAdd(n, d * p, B);
  }

  /** Doubles a completed point through projective coordinates. */
  method DoubleAgain(r: GeP1P1, ghost n: int, ghost B: Point)
    requires CurveFacts() && OnCurve(B) && r.Is(Times(n, B))
    modifies r.X, r.Y, r.Z, r.T
    ensures r.Is(Times(2 * n, B))
  {
    hide CurveFacts, OnCurve, GeP2.Is, GeP1P1.Is, Times, Add, Element, Within;
    CompletedValid(r, Times(n, B));
    TimesAdd(n, n, B);
    var s := new GeP2();
    GeP1P1ToP2(s, r, Times(n, B));
    GeP2Dbl(r, s, Times(n, B));
  }

  /** The four doublings between the odd and the even digits */
  method TimesSixteen(h: GeP3, ghost n: int, ghost B: Point)
    requires CurveFacts() && OnCurve(B) && h.Is(Times(n, B))
    modifies h.X, h.Y, h.Z, h.T
    ensures h.Is(Times(16 * n, B))
  {
    hide CurveFacts, OnCurve, GeP3.Is, GeP1P1.Is, Times, Add;
    ExtendedValid(h, Times(n, B));
    TimesAdd(n, n, B);
    var r := new GeP1P1();
    GeP3Dbl(r, h, Times(n, B));
    DoubleAgain(r, 2 * n, B);
    DoubleAgain(r, 4 * n, B);
    DoubleAgain(r, 8 * n, B);
    GeP1P1ToP3(h, r, Times(16 * n, B));
  }

  /** The loop over the digits of odd (off = 1) or even (off = 0) index */
  method AddDigits(h: GeP3, e: seq<int8>, off: nat, base: seq<seq<Precomp>>, ghost n: int, ghost B: Point)
    requires CurveFacts() && OnCurve(B) && h.Is(Times(n, B)) && BaseTable(base, B)
    requires |e| == 64 && off <= 1 && forall k :: 0 <= k < 64 ==> -8 <= e[k] <= 8
    modifies h.X, h.Y, h.Z, h.T
    ensures h.Is(Times(n + Alternate(e, off, 32), B))
  {
    hide CurveFacts, OnCurve, GeP3.Is, Row, Times, Pow2, Add;
    for k := 0 to 32
      invariant h.Is(Times(n + Alternate(e, off, k), B))
    {
      AddSelected(h, base[k], e[2 * k + off], n + Alternate(e, off, k), Pow2(8 * k), B);
    }
  }

  /** The multiple of the base point by a scalar of at most 255 bits */
  method GeScalarMultBase(h: GeP3, a: seq<byte>, base: seq<seq<Precomp>>, ghost B: Point)
    requires CurveFacts() && OnCurve(B) && h.Valid() && BaseTable(base, B)
    requires |a| == 32 && a[31] <= 127
    modifies h.X, h.Y, h.Z, h.T
    ensures h.Is(Times(Nat(a), B))
  {
    hide CurveFacts, OnCurve, GeP3.Is, BaseTable, Hex, Nat, Add, Times, Alternate;
    var e := new int8[64];
    SignedDigits(e, a);
    ghost var s: seq<int> := e[..];
    assert s[..2 * 32] == s;
    HexAlternates(s, 32);
    GeP3Zero(h);
    ZeroTimes(B);
    AddDigits(h, e[..], 1, base, 0, B);
    TimesSixteen(h, Alternate(s, 1, 32), B);
    AddDigits(h, e[..], 0, base, 16 * Alternate(s, 1, 32), B);
  }

  lemma ZeroTimes(B: Point)
    ensures Times(0, B) == Zero
  {
  }
}
