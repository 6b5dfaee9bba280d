/** native/common/ed25519_orlp/src/ge.c: slide, the signed sliding-window form of a scalar. */
module SlidingWindow {
  import opened Ints
  import opened Bits
  import opened Rings
  import opened Bytes

  /** s[0] + 2*s[1] + 4*s[2] + ... for any digits */
  function Binary(s: seq<int>): int {
    if s == [] then 0 else s[0] + 2 * Binary(s[1..])
  }

  lemma {:induction false} BinaryAppend(s: seq<int>, t: seq<int>)
    ensures Binary(s + t) == Binary(s) + Pow2(|s|) * Binary(t)
  {
    if s == [] {
      assert s + t == t;
    } else {
      BinaryAppend(s[1..], t);
      assert (s + t)[1..] == s[1..] + t;
      TwiceProductInt(Pow2(|s|), Pow2(|s| - 1), Binary(t));
    }
  }

  lemma {:induction false} BinaryZeros(s: seq<int>)
    requires forall k :: 0 <= k < |s| ==> s[k] == 0
    ensures Binary(s) == 0
  {
    if s != [] { BinaryZeros(s[1..]); }
  }

  predicate IsBits(s: seq<int>) {
    forall k :: 0 <= k < |s| ==> s[k] == 0 || s[k] == 1
  }

  predicate AllOnes(s: seq<int>) {
    forall k :: 0 <= k < |s| ==> s[k] == 1
  }

  lemma {:induction false} BinaryBits(s: seq<int>)
    requires IsBits(s)
    ensures 0 <= Binary(s) < Pow2(|s|)
    ensures AllOnes(s) ==> Binary(s) == Pow2(|s|) - 1
  {
    if s != [] { BinaryBits(s[1..]); }
  }

  // The carry --------------------------------------------------------------------------------------

  /** s with 1 carried into it: the ones it starts with become 0 and the first 0 becomes 1. */
  function AddOne(s: seq<int>): (t: seq<int>)
    ensures |t| == |s|
  {
    if s == [] then [] else if s[0] == 0 then [1] + s[1..] else [0] + AddOne(s[1..])
  }

  /** The carry adds 1, unless there is no 0 for it: then it is lost and only zeros are left. */
  lemma {:induction false} AddOneValue(s: seq<int>)
    requires IsBits(s)
    ensures IsBits(AddOne(s))
    ensures !AllOnes(s) ==> Binary(AddOne(s)) == Binary(s) + 1
    ensures AllOnes(s) ==> Binary(AddOne(s)) == 0 && forall k :: 0 <= k < |s| ==> AddOne(s)[k] == 0
  {
    if s != [] {
      AddOneValue(s[1..]);
      var t := AddOne(s);
      assert t == [t[0]] + t[1..];
      if s[0] == 0 {
        assert t[1..] == s[1..];
      } else {
        assert t[1..] == AddOne(s[1..]);
        assert AllOnes(s) <==> AllOnes(s[1..]) by {
          assert forall k :: 1 <= k < |s| ==> s[k] == s[1..][k - 1];
        }
      }
    }
  }

  /** The carry element by element, n being where it stops. */
  lemma {:induction false} AddOneAt(s: seq<int>, n: nat)
    requires n <= |s| && (n < |s| ==> s[n] == 0) && forall k :: 0 <= k < n ==> s[k] == 1
    ensures forall j :: 0 <= j < |s| ==> AddOne(s)[j] == if j < n then 0 else if j == n then 1 else s[j]
  {
    if n > 0 {
      AddOneAt(s[1..], n - 1);
      assert forall j :: 1 <= j < |s| ==> AddOne(s)[j] == AddOne(s[1..])[j - 1];
    }
  }

  /** Carries 1 into the digits from a position on: it clears digits until it finds a 0 to set. */
  method Carry(r: array<int8>, from: nat)
    requires from <= r.Length && IsBits(r[from..])
    modifies r
    ensures r[..from] == old(r[..from]) && r[from..] == AddOne(old(r[from..]))
  {
    var k := from;
    ghost var was: seq<int> := r[from..];
    while k < r.Length
      invariant from <= k <= r.Length
      invariant forall j :: 0 <= j < from ==> r[j] == old(r[j])
      invariant forall j :: from <= j < k ==> r[j] == 0
      invariant forall j :: 0 <= j < k - from ==> was[j] == 1
      invariant forall j :: k <= j < r.Length ==> r[j] == was[j - from]
    {
      if r[k] == 0 {
        r[k] := 1;
        break;
      }
      assert IsBits(was) && was[k - from] == 1;
      r[k] := 0;
      k := k + 1;
    }
    hide AddOne;
    ghost var now: seq<int> := r[from..];
    forall j | 0 <= j < |was| ensures now[j] == if j < k - from then 0 else if j == k - from then 1 else was[j] {
      assert now[j] == r[from + j];
    }
    CarriedIn(was, now, k - from);
    assert r[..from] == old(r[..from]);
  }

  lemma CarriedIn(s: seq<int>, t: seq<int>, n: nat)
    requires n <= |s| == |t| && (n < |s| ==> s[n] == 0) && forall k :: 0 <= k < n ==> s[k] == 1
    requires forall j :: 0 <= j < |s| ==> t[j] == if j < n then 0 else if j == n then 1 else s[j]
    ensures t == AddOne(s)
  {
    AddOneAt(s, n);
    hide AddOne;
  }

  // One window -------------------------------------------------------------------------------------

  /** Only zeros between the first digit and digit b. */
  predicate Gap(s: seq<int>, b: nat) {
    1 <= b <= |s| && forall k :: 1 <= k < b ==> s[k] == 0
  }

  lemma GapValue(s: seq<int>, b: nat)
    requires Gap(s, b)
    ensures Binary(s) == s[0] + Pow2(b) * Binary(s[b..])
  {
    var z, t := s[1..b], s[b..];
    assert Binary(s) == s[0] + 2 * Binary(z + t) by { assert s[1..] == z + t; }
    BinaryZeros(z);
    hide Binary;
    BinaryAppend(z, t);
    TwiceProductInt(Pow2(b), Pow2(b - 1), Binary(t));
  }

  /** Nothing but zeros after the first digit. */
  predicate Single(s: seq<int>) {
    forall k :: 1 <= k < |s| ==> s[k] == 0
  }

  predicate Odd(w: int) {
    w % 2 == 1 && -15 <= w <= 15
  }

  /** The digits from r[i] on when the b - 1 that follow r[i] have been gathered into it. */
  predicate Gathered(s: seq<int>, b: nat) {
    Gap(s, b) && IsBits(s[1..]) && Odd(s[0]) && (b <= 4 ==> 1 <= s[0] < Pow2(b))
  }

  lemma GapSplit(s: seq<int>, b: nat)
    requires Gap(s, b) && b < |s|
    ensures Binary(s) == s[0] + Pow2(b) * (s[b] + 2 * Binary(s[b + 1..]))
  {
    hide *;
    GapValue(s, b);
    BinarySplit(s, b);
  }

  lemma BinarySplit(s: seq<int>, b: nat)
    requires b < |s|
    ensures Binary(s[b..]) == s[b] + 2 * Binary(s[b + 1..])
  {
    assert s[b..][1..] == s[b + 1..];
  }

  /** Digit b moves into the first digit. */
  function Up(s: seq<int>, b: nat): (t: seq<int>)
    requires 1 <= b < |s|
    ensures |t| == |s|
  {
    s[0 := s[0] + Pow2(b)][b := 0]
  }

  lemma UpGathered(s: seq<int>, b: nat)
    requires Gathered(s, b) && b < |s| && s[b] == 1 && s[0] + Pow2(b) <= 15
    ensures Gathered(Up(s, b), b + 1) && Binary(Up(s, b)) == Binary(s)
  {
    hide Binary;
    var t := Up(s, b);
    GapSplit(s, b);
    GapSplit(t, b);
    assert t[b + 1..] == s[b + 1..];
    Multiply(Pow2(b), 2 * Binary(s[b + 1..]), 1);
    UpShape(s, b);
  }

  lemma UpShape(s: seq<int>, b: nat)
    requires Gathered(s, b) && b < |s| && s[b] == 1 && s[0] + Pow2(b) <= 15
    ensures Gathered(Up(s, b), b + 1)
  {
    var t := Up(s, b);
    assert forall k :: 1 <= k < |s| ==> s[1..][k - 1] == s[k];
    assert Pow2(b) == 2 * Pow2(b - 1);
  }

  /** Digit b is made up for: twice its worth goes from digit b on, its worth is taken from the first digit. */
  function Down(s: seq<int>, b: nat): (t: seq<int>)
    requires 1 <= b < |s|
    ensures |t| == |s|
  {
    [s[0] - Pow2(b)] + s[1..b] + AddOne(s[b..])
  }

  lemma DownGathered(s: seq<int>, b: nat)
    requires Gathered(s, b) && b <= 6 && b < |s| && s[b] == 1 && s[0] + Pow2(b) > 15 && s[0] - Pow2(b) >= -15
    ensures b == 4 && Gathered(Down(s, b), b + 1)
    ensures Binary(Down(s, b)) == Binary(s) - if AllOnes(s[b..]) then Pow2(|s|) else 0
    ensures AllOnes(s[b..]) ==> Single(Down(s, b))
  {
    DownShape(s, b);
    hide *;
    var t := Down(s, b);
    GapValue(s, b);
    GapValue(t, b);
    var x, y := s[b..], t[b..];
    assert |s| == b + |x|;
    BinaryBits(x);
    Pow2Add(b, |x|);
    ShiftedCarry(Pow2(b), Binary(x), Binary(y), Pow2(|x|), Pow2(|s|), AllOnes(x));
  }

  lemma DownShape(s: seq<int>, b: nat)
    requires Gathered(s, b) && b <= 6 && b < |s| && s[b] == 1 && s[0] + Pow2(b) > 15 && s[0] - Pow2(b) >= -15
    ensures b == 4 && Gathered(Down(s, b), b + 1) && Gap(s, b) && Gap(Down(s, b), b)
    ensures IsBits(s[b..]) && Down(s, b)[0] == s[0] - Pow2(b) && Down(s, b)[b..] == AddOne(s[b..])
    ensures AllOnes(s[b..]) ==> Binary(Down(s, b)[b..]) == 0 && Single(Down(s, b))
    ensures !AllOnes(s[b..]) ==> Binary(Down(s, b)[b..]) == Binary(s[b..]) + 1
  {
    hide Binary, AddOne, Pow2;
    Powers();
    assert b == 4;
    var t, x := Down(s, b), s[b..];
    DownHead(s, b);
    Suffix(s, b);
    hide Down;
    AddOneValue(x);
    AddOneHead(x);
    DownDigits(s, t, b);
  }

  lemma Suffix(s: seq<int>, b: nat)
    requires 1 <= b <= |s| && IsBits(s[1..])
    ensures IsBits(s[b..])
  {
    forall k | b <= k < |s| ensures s[k] == 0 || s[k] == 1 {
      assert s[1..][k - 1] == s[k];
    }
  }

  lemma DownHead(s: seq<int>, b: nat)
    requires 1 <= b < |s|
    ensures Down(s, b)[0] == s[0] - Pow2(b) && Down(s, b)[1..b] == s[1..b] && Down(s, b)[b..] == AddOne(s[b..])
  {
  }

  lemma AddOneHead(x: seq<int>)
    requires x != [] && x[0] == 1
    ensures AddOne(x)[0] == 0
  {
  }

  lemma DownDigits(s: seq<int>, t: seq<int>, b: nat)
    requires 1 <= b < |s| == |t| && Gap(s, b) && t[1..b] == s[1..b] && IsBits(t[b..]) && t[b..][0] == 0
    ensures Gap(t, b + 1) && Gap(t, b) && IsBits(t[1..])
    ensures (forall k :: 0 <= k < |t[b..]| ==> t[b..][k] == 0) ==> forall k :: 1 <= k < |t| ==> t[k] == 0
  {
    forall k | 1 <= k < b ensures t[k] == 0 {
      assert t[1..b][k - 1] == s[1..b][k - 1];
    }
    forall k | b <= k < |t| ensures (t[k] == 0 || t[k] == 1) && t[k] == t[b..][k - b] {
    }
  }

  lemma ShiftedCarry(p: int, x: int, y: int, m: int, pm: int, ones: bool)
    requires pm == p * m && if ones then x == m - 1 && y == 0 else y == x + 1
    ensures p * y == p * x + p - if ones then pm else 0
  {
    Multiply(p, x, 1);
    assert ones ==> p * y == 0;
  }

  /** One round of the loop over b, or its break. A carry is lost only from a number that is large. */
  method GatherDigit(r: array<int8>, i: nat, b: nat) returns (go: bool, ghost lost: bool)
    requires r.Length == 256 && i + b < 256 && 1 <= b <= 6 && Gathered(r[i..], b)
    modifies r
    ensures r[..i] == old(r[..i])
    ensures if go then Gathered(r[i..], b + 1) else r[i..] == old(r[i..]) && b >= 5
    ensures Binary(r[i..]) == old(Binary(r[i..])) - if lost then Pow2(256 - i) else 0
    ensures old(r[i + b]) == 0 ==> go && r[i..] == old(r[i..])
    ensures lost ==> go && b == 4 && AllOnes(old(r[i + b..])) && Single(r[i..])
  {
    hide Binary, AddOne, AllOnes, Pow2, Down, Up, Single;
    Powers();
    go, lost := true, false;
    ghost var s: seq<int> := r[i..];
    assert s[1..][b - 1] == r[i + b];
    if r[i + b] != 0 {
      var shifted := r[i + b] as int * Pow2(b);
      if r[i] as int + shifted <= 15 {
        UpGathered(s, b);
        Raise(r, i, b, shifted);
      } else if r[i] as int - shifted >= -15 {
        DownGathered(s, b);
        lost := AllOnes(s[b..]);
        assert s[b..] == r[i + b..];
        Lower(r, i, b, shifted);
        ghost var t: seq<int> := r[i..];
        assert t == Down(s, b);
      } else {
        go := false;
      }
    }
  }

  method Raise(r: array<int8>, i: nat, b: nat, shifted: int)
    requires r.Length == 256 && i + b < 256 && 1 <= b && Odd(r[i]) && Odd(r[i] as int + shifted) && shifted == Pow2(b)
    modifies r
    ensures r[..i] == old(r[..i]) && r[i..] == Up(old(r[i..]), b)
  {
    r[i] := r[i] as int + shifted;
    r[i + b] := 0;
  }

  method Lower(r: array<int8>, i: nat, b: nat, shifted: int)
    requires r.Length == 256 && i + b < 256 && 1 <= b && Odd(r[i]) && Odd(r[i] as int - shifted) && shifted == Pow2(b)
    requires IsBits(r[i + b..])
    modifies r
    ensures r[..i] == old(r[..i]) && r[i..] == Down(old(r[i..]), b)
  {
    hide AddOne, IsBits, Pow2;
    ghost var before: seq<int> := r[..];
    r[i] := r[i] as int - shifted;
    ghost var middle: seq<int> := r[..];
    assert middle == before[i := before[i] - shifted];
    assert r[i + b..] == middle[i + b..] == before[i + b..];
    Carry(r, i + b);
    ghost var after: seq<int> := r[..];
    assert after[..i + b] == r[..i + b] && after[i + b..] == r[i + b..] && middle[..i + b] == after[..i + b];
    LoweredDigits(before, middle, after, i, b);
    assert r[..i] == after[..i] && r[i..] == after[i..];
  }

  lemma LoweredDigits(before: seq<int>, middle: seq<int>, after: seq<int>, i: nat, b: nat)
    requires |before| == |after| && i + b < |before| && 1 <= b && middle == before[i := before[i] - Pow2(b)]
    requires after[..i + b] == middle[..i + b] && after[i + b..] == AddOne(before[i + b..])
    ensures after[..i] == before[..i] && after[i..] == Down(before[i..], b)
  {
    hide AddOne, Pow2;
    var s := before[i..];
    assert s[b..] == before[i + b..];
    forall j | 0 <= j < i + b ensures after[j] == middle[j] {
      assert after[..i + b][j] == after[j] && middle[..i + b][j] == middle[j];
    }
    var t := Down(s, b);
    forall j | 0 <= j < |s| ensures after[i..][j] == t[j] {
      if j >= b {
        assert after[i + j] == after[i + b..][j - b];
      }
    }
  }

  // The whole scalar -------------------------------------------------------------------------------

  /** What the round for r[i] leaves: a number no higher than half the rest, if the digits were a number
      of 255 bits before. */
  lemma GatheredBound(s: seq<int>, u: int, b: nat)
    requires Gathered(s, b) && (b == 5 || b == |s| < 5) && Binary(s) == u && 2 * u <= Pow2(|s|)
    ensures 2 * Binary(s[1..]) <= Pow2(|s| - 1)
  {
    BinarySplit(s, 0);
    assert s[0..] == s;
    if b == |s| {
      BinaryZeros(s[1..]);
    } else {
      BoundByFive(s, u);
    }
  }

  lemma BoundByFive(s: seq<int>, u: int)
    requires Gathered(s, 5) && Binary(s) == u && 2 * u <= Pow2(|s|)
    ensures 2 * Binary(s[1..]) <= Pow2(|s| - 1)
  {
    hide Binary, Pow2;
    GapValue(s, 5);
    BinarySplit(s, 0);
    assert s[0..] == s;
    Powers();
    var c := Binary(s[5..]);
    assert 2 * Binary(s[1..]) == 32 * c;
    if |s| >= 6 {
      Pow2Add(6, |s| - 6);
      Pow2Add(1, |s| - 1);
    } else {
      EmptyTail(s);
    }
  }

  lemma EmptyTail(s: seq<int>)
    requires |s| == 5
    ensures Binary(s[5..]) == 0
  {
  }

  /** A carry is lost only from 256-bit numbers of which the top bits are set. */
  lemma LostOnlyHigh(s: seq<int>)
    requires Gathered(s, 4) && |s| > 4 && AllOnes(s[4..])
    ensures 2 * Binary(s) > Pow2(|s|)
  {
    hide Binary, Pow2;
    GapValue(s, 4);
    BinaryBits(s[4..]);
    Powers();
    Pow2Add(4, |s| - 4);
    Pow2Add(1, |s| - 5);
  }

  /** The loop over b: gathers the digits that follow r[i] into r[i]. */
  method Gather(r: array<int8>, i: nat) returns (ghost lost: bool)
    requires r.Length == 256 && i < 256 && r[i] == 1 && IsBits(r[i..])
    modifies r
    ensures r[..i] == old(r[..i])
    ensures Gathered(r[i..], if i + 5 <= 256 then 5 else 256 - i)
    ensures Binary(r[i..]) == old(Binary(r[i..])) - if lost then Pow2(256 - i) else 0
    ensures lost ==> 2 * old(Binary(r[i..])) > Pow2(256 - i) && Single(r[i..]) && i + 4 < 256
  {
    hide Binary, Pow2, Gathered;
    lost := false;
    ghost var u := Binary(r[i..]);
    GatheredStart(r[i..]);
    var b := 1;
    while b <= 6 && i + b < 256
      invariant 1 <= b <= 7 && i + b <= 256
      invariant r[..i] == old(r[..i]) && Gathered(r[i..], b)
      invariant Binary(r[i..]) == u - if lost then Pow2(256 - i) else 0
      invariant b <= 4 ==> !lost
      invariant lost ==> 2 * u > Pow2(256 - i) && Single(r[i..]) && i + 4 < 256
    {
      ghost var s: seq<int> := r[i..];
      assert r[i + b..] == s[b..] && s[b] == r[i + b];
      var go;
      ghost var gone;
      go, gone := GatherDigit(r, i, b);
      if !go { break; }
      if gone {
        LostOnlyHigh(s);
      }
      lost := lost || gone;
      b := b + 1;
    }
    if b >= 5 { GatheredMore(r[i..], b); }
  }

  lemma GatheredStart(s: seq<int>)
    requires s != [] && s[0] == 1 && IsBits(s)
    ensures Gathered(s, 1)
  {
    Powers();
  }

  lemma GatheredMore(s: seq<int>, b: nat)
    requires Gathered(s, b) && b >= 5
    ensures Gathered(s, 5)
  {
  }

  // The bits of the scalar -------------------------------------------------------------------------

  function BitsOf(x: nat, n: nat): (s: seq<int>)
    ensures |s| == n && IsBits(s)
  {
    if n == 0 then [] else [x % 2] + BitsOf(x / 2, n - 1)
  }

  lemma {:induction false} BitsOfAt(x: nat, n: nat, k: nat)
    requires k < n
    ensures BitsOf(x, n)[k] == x / Pow2(k) % 2
  {
    if k > 0 {
      BitsOfAt(x / 2, n - 1, k - 1);
      BitsOfStep(x, n, k);
    }
  }

  lemma BitsOfStep(x: nat, n: nat, k: nat)
    requires 0 < k < n && BitsOf(x / 2, n - 1)[k - 1] == x / 2 / Pow2(k - 1) % 2
    ensures BitsOf(x, n)[k] == x / Pow2(k) % 2
  {
    var p, q := Pow2(k), Pow2(k - 1);
    assert p == 2 * q && BitsOf(x, n)[k] == BitsOf(x / 2, n - 1)[k - 1];
    hide *;
    HalveThenDivide(x, q);
  }

  lemma {:induction false} BitsOfValue(x: nat, n: nat)
    requires x < Pow2(n)
    ensures Binary(BitsOf(x, n)) == x
  {
    if n > 0 { BitsOfValue(x / 2, n - 1); }
  }

  /** The bits of a sequence of bytes */
  function AllBits(a: seq<byte>): (s: seq<int>)
    ensures |s| == 8 * |a| && IsBits(s)
  {
    if a == [] then [] else BitsOf(a[0], 8) + AllBits(a[1..])
  }

  lemma {:induction false} AllBitsAt(a: seq<byte>, i: nat)
    requires i < 8 * |a|
    ensures AllBits(a)[i] == a[i / 8] / Pow2(i % 8) % 2
  {
    if i < 8 {
      BitsOfAt(a[0], 8, i);
    } else {
      AllBitsAt(a[1..], i - 8);
      var q, m := i / 8, i % 8;
      assert AllBits(a)[i] == AllBits(a[1..])[i - 8];
      hide *;
      assert (i - 8) / 8 == q - 1 && (i - 8) % 8 == m;
    }
  }

  lemma {:induction false} AllBitsValue(a: seq<byte>)
    ensures Binary(AllBits(a)) == Nat(a)
  {
    if a != [] {
      AllBitsValue(a[1..]);
      Powers();
      hide Pow2;
      BinaryAppend(BitsOf(a[0], 8), AllBits(a[1..]));
      BitsOfValue(a[0], 8);
    }
  }

  /** One digit for each bit of the scalar */
  method Spread(r: array<int8>, a: seq<byte>)
    requires r.Length == 256 && |a| == 32
    modifies r
    ensures r[..] == AllBits(a)
  {
    hide AllBits, Pow2;
    for i := 0 to 256
      invariant forall k :: 0 <= k < i ==> r[k] == AllBits(a)[k]
    {
      var x := Shr(a[i / 8], Pow2(i % 8));
      assert And(1, x) == x % 2 by { AndOne(x); }
      AllBitsAt(a, i);
      r[i] := And(1, x);
    }
  }

  lemma AndOne(x: nat)
    ensures And(1, x) == x % 2
  {
    assert And(0, x / 2) == 0;
  }

  // The recoding -----------------------------------------------------------------------------------

  /** Every digit is zero, or odd, at most 15 in magnitude and followed by four zeros. */
  predicate Sparse(s: seq<int>, n: nat) {
    forall k :: 0 <= k < n && k < |s| && s[k] != 0 ==> Odd(s[k]) && forall j :: k < j < k + 5 && j < |s| ==> s[j] == 0
  }

  lemma SparseExtend(s: seq<int>, t: seq<int>, i: nat)
    requires Sparse(s, i) && i < |s| == |t| && s[..i] == t[..i] && s[i] != 0
    requires Gathered(t[i..], if i + 5 <= |t| then 5 else |t| - i)
    ensures Sparse(t, i + 1)
  {
    forall k | 0 <= k < i + 1 && t[k] != 0
      ensures Odd(t[k]) && forall j :: k < j < k + 5 && j < |t| ==> t[j] == 0
    {
      if k < i {
        assert s[k] == s[..i][k] == t[k];
        forall j | k < j < k + 5 && j < |t| ensures t[j] == 0 {
          assert s[j] == 0;
          assert j < i ==> s[j] == s[..i][j] == t[..i][j] == t[j];
        }
      } else {
        assert t[i..][0] == t[k];
        forall j | k < j < k + 5 && j < |t| ensures t[j] == 0 {
          assert t[j] == t[i..][j - i];
        }
      }
    }
  }

  lemma SparseSkip(s: seq<int>, i: nat)
    requires Sparse(s, i) && i < |s| && s[i] == 0
    ensures Sparse(s, i + 1)
  {
  }

  // What 256 such digits can stand for ---------------------------------------------------------------

  /** The odd digit that an odd number has to start with */
  function Nearest(v: int): int {
    if v % 32 < 16 then v % 32 else v % 32 - 32
  }

  /** Some n sparse digits stand for v; see SparseRepresentable and RepresentableSparse. */
  predicate Representable(v: int, n: nat)
    decreases n
  {
    if n == 0 then v == 0
    else if v % 2 == 0 then Representable(v / 2, n - 1)
    else if n >= 5 then Representable((v - Nearest(v)) / 32, n - 5)
    else -15 <= v <= 15
  }

  lemma SparseTail(s: seq<int>, k: nat)
    requires Sparse(s, |s|) && k <= |s|
    ensures Sparse(s[k..], |s| - k)
  {
    var t := s[k..];
    forall i | 0 <= i < |t| && t[i] != 0 ensures Odd(t[i]) && forall j :: i < j < i + 5 && j < |t| ==> t[j] == 0 {
      assert s[k + i] == t[i];
      forall j | i < j < i + 5 && j < |t| ensures t[j] == 0 {
        assert s[k + j] == 0;
      }
    }
  }

  /** The number in terms of its first digit */
  lemma SparseValue(s: seq<int>)
    requires Sparse(s, |s|) && s != []
    ensures s[0] == 0 ==> Binary(s) == 2 * Binary(s[1..])
    ensures s[0] != 0 ==> Odd(s[0])
    ensures s[0] != 0 && |s| >= 5 ==> Binary(s) == s[0] + 32 * Binary(s[5..])
    ensures s[0] != 0 && |s| < 5 ==> Binary(s) == s[0]
  {
    if s[0] != 0 {
      if |s| >= 5 {
        hide Binary, Pow2;
        GapValue(s, 5);
        Powers();
      } else {
        BinaryZeros(s[1..]);
      }
    }
  }

  lemma NearestOf(d: int, t: int)
    requires Odd(d)
    ensures (d + 32 * t) % 2 == 1 && Nearest(d + 32 * t) == d && (d + 32 * t - d) / 32 == t
  {
    hide Pow2;
    var v := d + 32 * t;
    DivModUnique(v, 2, 16 * t + d / 2, 1);
    if d >= 0 { DivModUnique(v, 32, t, d); } else { DivModUnique(v, 32, t - 1, d + 32); }
    DivModUnique(v - d, 32, t, 0);
  }

  lemma {:induction false} SparseRepresentable(s: seq<int>)
    requires Sparse(s, |s|)
    ensures Representable(Binary(s), |s|)
  {
    hide Sparse, Pow2, Nearest;
    if s != [] {
      SparseValue(s);
      SparseTail(s, 1);
      if s[0] == 0 {
        SparseRepresentable(s[1..]);
      } else if |s| >= 5 {
        SparseTail(s, 5);
        SparseRepresentable(s[5..]);
        NearestOf(s[0], Binary(s[5..]));
      }
    }
  }

  lemma {:induction false} RepresentableSparse(v: int, n: nat) returns (s: seq<int>)
    requires Representable(v, n)
    ensures |s| == n && Sparse(s, n) && Binary(s) == v
    decreases n
  {
    hide Sparse, Pow2, Nearest, Odd;
    if n == 0 {
      s := [];
      NoDigits(s);
    } else if v % 2 == 0 {
      var t := RepresentableSparse(v / 2, n - 1);
      s := [0] + t;
      assert s[1..] == t;
      SparseAfterZero(t);
    } else if n >= 5 {
      NearestStep(v);
      var d := Nearest(v);
      var t := RepresentableSparse((v - d) / 32, n - 5);
      hide Binary;
      s := [d, 0, 0, 0, 0] + t;
      assert s[5..] == t && d != 0;
      SparseAfterDigit(d, t);
      SparseValue(s);
    } else {
      s := OneDigit(v, n);
    }
  }

  lemma NoDigits(s: seq<int>)
    requires s == []
    ensures Sparse(s, 0)
  {
  }

  lemma OneDigit(v: int, n: nat) returns (s: seq<int>)
    requires 0 < n < 5 && v % 2 == 1 && -15 <= v <= 15
    ensures |s| == n && Sparse(s, n) && Binary(s) == v
  {
    s := [v] + seq(n - 1, _ => 0);
    BinaryZeros(s[1..]);
  }

  lemma NearestStep(v: int)
    requires v % 2 == 1
    ensures Odd(Nearest(v)) && Nearest(v) != 0 && v == Nearest(v) + 32 * ((v - Nearest(v)) / 32)
  {
    hide Pow2;
    var q, r, d := v / 32, v % 32, Nearest(v);
    DivModUnique(v, 2, 16 * q + r / 2, r % 2);
    DivModUnique(v - d, 32, if r < 16 then q else q + 1, 0);
  }

  lemma SparseAfterZero(t: seq<int>)
    requires Sparse(t, |t|)
    ensures Sparse([0] + t, |t| + 1)
  {
    var s := [0] + t;
    forall k | 0 <= k < |s| && s[k] != 0 ensures Odd(s[k]) && forall j :: k < j < k + 5 && j < |s| ==> s[j] == 0 {
      assert t[k - 1] == s[k];
      forall j | k < j < k + 5 && j < |s| ensures s[j] == 0 {
        assert t[j - 1] == 0;
      }
    }
  }

  lemma SparseAfterDigit(d: int, t: seq<int>)
    requires Sparse(t, |t|) && Odd(d)
    ensures Sparse([d, 0, 0, 0, 0] + t, |t| + 5)
  {
    var s := [d, 0, 0, 0, 0] + t;
    forall k | 0 <= k < |s| && s[k] != 0 ensures Odd(s[k]) && forall j :: k < j < k + 5 && j < |s| ==> s[j] == 0 {
      if k > 0 {
        assert k >= 5 && t[k - 5] == s[k];
        forall j | k < j < k + 5 && j < |s| ensures s[j] == 0 {
          assert t[j - 5] == 0;
        }
      }
    }
  }

  /** The last four digits are 0. */
  predicate TopZero(s: seq<int>) {
    forall k :: 0 <= k < |s| && |s| - 4 <= k ==> s[k] == 0
  }

  /** A lost carry leaves digits that end in zeros, and then no digits stand for the number itself. */
  lemma {:induction false} LostNotRepresentable(s: seq<int>, v: int)
    requires Sparse(s, |s|) && TopZero(s) && Binary(s) == v - Pow2(|s|)
    ensures !Representable(v, |s|)
  {
    hide Pow2, Binary, Sparse, TopZero, Representable, Odd;
    if s == [] {
      NothingLost(s);
    } else {
      SparseValue(s);
      Powers();
      if s[0] == 0 {
        Pow2Add(1, |s| - 1);
        var t := Binary(s[1..]) + Pow2(|s| - 1);
        SparseTail(s, 1);
        TopZeroTail(s, 1);
        LostNotRepresentable(s[1..], t);
        RepresentableTwice(t, |s|);
      } else {
        TopZeroLong(s);
        Pow2Add(5, |s| - 5);
        var t := Binary(s[5..]) + Pow2(|s| - 5);
        SparseTail(s, 5);
        TopZeroTail(s, 5);
        LostNotRepresentable(s[5..], t);
        RepresentableOdd(s[0], t, |s|);
      }
    }
  }

  lemma NothingLost(s: seq<int>)
    requires s == []
    ensures Binary(s) == 0 && Pow2(|s|) == 1 && !Representable(1, |s|)
  {
  }

  lemma RepresentableOdd(d: int, t: int, n: nat)
    requires Odd(d) && n >= 5
    ensures Representable(d + 32 * t, n) == Representable(t, n - 5)
  {
    hide Nearest, Odd;
    NearestOf(d, t);
  }

  lemma TopZeroTail(s: seq<int>, k: nat)
    requires TopZero(s) && k <= |s|
    ensures TopZero(s[k..])
  {
  }

  lemma TopZeroLong(s: seq<int>)
    requires TopZero(s) && s != [] && s[0] != 0
    ensures |s| >= 5
  {
  }

  lemma {:induction false} RepresentableShift(v: int, k: nat, n: nat)
    ensures Representable(v * Pow2(k), n + k) == Representable(v, n)
  {
    if k > 0 {
      hide Pow2, Representable;
      RepresentableShift(v, k - 1, n);
      Powers();
      Pow2Add(1, k - 1);
      var p, q := Pow2(k - 1), Pow2(k);
      TwiceProductInt(q, p, v);
      Commute(v, p);
      Commute(v, q);
      RepresentableTwice(v * p, n + k);
    }
  }

  lemma RepresentableTwice(w: int, n: nat)
    requires n > 0
    ensures Representable(2 * w, n) == Representable(w, n - 1)
  {
    DivModUnique(2 * w, 2, w, 0);
  }

  /** 2^255 keeps its value and 17 * 2^251 does not. */
  lemma TopCarries()
    ensures Representable(Pow2(255), 256) && !Representable(17 * Pow2(251), 256)
  {
    hide Pow2, Representable;
    var n: nat := 251;
    RepresentableShift(1, n + 4, 1);
    RepresentableShift(17, n, 5);
    OneAndSeventeen();
  }

  lemma OneAndSeventeen()
    ensures Representable(1, 1) && !Representable(17, 5)
  {
    assert Nearest(17) == -15 && !Representable(1, 0);
  }

  predicate AllZero(s: seq<int>) {
    forall k :: 0 <= k < |s| ==> s[k] == 0
  }

  /** The value when the digits from i on are replaced and a carry out of them may be lost. */
  lemma Replaced(s: seq<int>, t: seq<int>, i: nat, lost: bool)
    requires i <= |s| == |t| && s[..i] == t[..i]
    requires Binary(t[i..]) == Binary(s[i..]) - if lost then Pow2(|s| - i) else 0
    ensures Binary(t) == Binary(s) - if lost then Pow2(|s|) else 0
  {
    hide Binary, Pow2;
    assert s == s[..i] + s[i..] && t == t[..i] + t[i..];
    BinaryAppend(s[..i], s[i..]);
    BinaryAppend(t[..i], t[i..]);
    Pow2Add(i, |s| - i);
    Multiply(Pow2(i), Binary(s[i..]), Pow2(|s| - i));
  }

  /** What one round of slide does to the digits, where s[i] was not zero. */
  lemma Round(s: seq<int>, t: seq<int>, i: nat, lost: bool)
    requires |s| == |t| == 256 && i < 256 && s[..i] == t[..i] && s[i] != 0 && Sparse(s, i)
    requires Gathered(t[i..], if i + 5 <= 256 then 5 else 256 - i)
    requires Binary(t[i..]) == Binary(s[i..]) - if lost then Pow2(256 - i) else 0
    requires lost ==> 2 * Binary(s[i..]) > Pow2(256 - i) && Single(t[i..]) && i + 4 < 256
    ensures Sparse(t, i + 1) && IsBits(t[i + 1..])
    ensures Binary(t) == Binary(s) - if lost then Pow2(256) else 0
    ensures lost ==> AllZero(t[i + 1..]) && TopZero(t)
    ensures 2 * Binary(s[i..]) <= Pow2(256 - i) ==> !lost && 2 * Binary(t[i + 1..]) <= Pow2(255 - i)
  {
    hide Binary, Pow2;
    Replaced(s, t, i, lost);
    SparseExtend(s, t, i);
    assert t[i..][1..] == t[i + 1..];
    if 2 * Binary(s[i..]) <= Pow2(256 - i) {
      GatheredBound(t[i..], Binary(s[i..]), if i + 5 <= 256 then 5 else 256 - i);
    }
    if lost {
      var rest := t[i + 1..];
      forall k | 0 <= k < |rest| ensures rest[k] == 0 {
        assert t[i..][k + 1] == 0;
      }
      forall k | 252 <= k < 256 ensures t[k] == 0 {
        assert rest[k - i - 1] == 0;
      }
    }
  }

  /** The digits of slide stand for the scalar exactly if any such digits do; a scalar below 2^255 has them.
      Otherwise the carry out of the top is lost. */
  method Slide(r: array<int8>, a: seq<byte>)
    requires r.Length == 256 && |a| == 32
    modifies r
    ensures Sparse(r[..], 256)
    ensures Binary(r[..]) == if Representable(Nat(a), 256) then Nat(a) else Nat(a) - Pow2(256)
    ensures Nat(a) < Pow2(255) ==> Binary(r[..]) == Nat(a)
  {
    hide Binary, Pow2, Nat, AllBits, Gathered, Sparse, Single, AllZero, TopZero, Representable;
    Spread(r, a);
    AllBitsValue(a);
    ghost var v := Nat(a);
    ghost var lost := false;
    SlideStart(r[..], v);
    for i := 0 to 256
      invariant IsBits(r[i..]) && Sparse(r[..], i)
      invariant Binary(r[..]) == v - if lost then Pow2(256) else 0
      invariant lost ==> AllZero(r[i..]) && TopZero(r[..])
      invariant v < Pow2(255) ==> !lost && 2 * Binary(r[i..]) <= Pow2(256 - i)
    {
      ghost var s: seq<int> := r[..];
      assert s[i..] == r[i..];
      if r[i] != 0 {
        ghost var gone := Gather(r, i);
        ghost var t: seq<int> := r[..];
        assert s[..i] == t[..i] && t[i..] == r[i..];
        NotAllZero(s[i..]);
        Round(s, t, i, gone);
        lost := gone;
        assert r[i + 1..] == t[i + 1..];
      } else {
        Skip(s, i);
      }
    }
    ghost var t: seq<int> := r[..];
    if lost {
      LostNotRepresentable(t, v);
    } else {
      SparseRepresentable(t);
    }
  }

  lemma SlideStart(s: seq<int>, v: int)
    requires |s| == 256 && Binary(s) == v
    ensures Sparse(s, 0) && s[0..] == s && (v < Pow2(255) ==> 2 * Binary(s[0..]) <= Pow2(256 - 0))
  {
    hide Binary, Pow2;
    var n: nat := 255;
    Pow2Add(1, n);
    Powers();
    assert s[0..] == s;
  }

  lemma NotAllZero(s: seq<int>)
    requires s != [] && s[0] != 0
    ensures !AllZero(s)
  {
  }

  lemma Skip(s: seq<int>, i: nat)
    requires i < |s| == 256 && IsBits(s[i..]) && Sparse(s, i) && s[i] == 0
    ensures IsBits(s[i + 1..]) && Sparse(s, i + 1)
    ensures AllZero(s[i..]) ==> AllZero(s[i + 1..])
    ensures 2 * Binary(s[i..]) <= Pow2(256 - i) ==> 2 * Binary(s[i + 1..]) <= Pow2(256 - (i + 1))
  {
    SparseSkip(s, i);
    BinarySplit(s, i);
    assert s[i..][1..] == s[i + 1..];
    assert Pow2(256 - i) == 2 * Pow2(256 - (i + 1));
  }
}
