/** native/common/ed25519_orlp/src/sc.c: limbs out of bytes and bytes out of limbs. */
module ScalarBytes {
  import opened Ints
  import opened Bits
  import opened Rings
  import opened Bytes
  import opened Scalar21

  lemma {:induction false} RadixPower(i: nat)
    ensures Radix(i) == Pow2(21 * i)
  {
    if i > 0 {
      RadixPower(i - 1);
      Pow2Add(21, 21 * (i - 1));
      Powers();
    }
  }

  /** Digit i of x in base 2^21. */
  function Digit(x: int, i: nat): int {
    x / Radix(i) % 0x20_0000
  }

  /** x div a div b is x div ab. */
  lemma DivDiv(x: int, a: int, b: int, ab: int)
    requires 0 < a && 0 < b && ab == a * b
    ensures x / ab == x / a / b
  {
    var q, r := x / a, x % a;
    var q', r' := q / b, q % b;
    Regroup(a, b, ab, q', r', q);
    ScaledBelow(a, b, r');
    DivModUnique(x, ab, q', a * r' + r);
  }

  /** The digits of x, the last one unbounded, make up x. */
  lemma {:induction false} DigitsBelow(x: int, t: seq<int>, n: nat)
    requires n <= |t| && forall i :: 0 <= i < n ==> t[i] == Digit(x, i)
    ensures Val(t, n) + Radix(n) * (x / Radix(n)) == x
  {
    if n > 0 {
      var r, r' := Radix(n - 1), Radix(n);
      DigitsBelow(x, t, n - 1);
      hide Radix;
      DivDiv(x, r, 0x20_0000, r');
      var y := x / r;
      Resum(r, r', y / 0x20_0000, y % 0x20_0000, y);
    }
  }

  lemma Resum(r: int, r': int, q: int, d: int, y: int)
    requires r' == 0x20_0000 * r && y == 0x20_0000 * q + d
    ensures r * y == r * d + r' * q
  {
  }
  /** The 21 bits from a bit on of a load of three or four bytes, for m = 2^bits */
  function Masked3(b0: byte, b1: byte, b2: byte, m: nat): (r: int64)
    requires m > 0
    ensures 0 <= r < 0x20_0000
  {
    Powers();
    Low(Shr(Load3(b0, b1, b2), m), 21)
  }

  function Masked4(b0: byte, b1: byte, b2: byte, b3: byte, m: nat): (r: int64)
    requires m > 0
    ensures 0 <= r < 0x20_0000
  {
    Powers();
    Low(Shr(Load4(b0, b1, b2, b3), m), 21)
  }

  function Top4(b0: byte, b1: byte, b2: byte, b3: byte, m: nat): (r: int64)
    requires m > 0
    ensures 0 <= r
  {
    DivBounds(Load4(b0, b1, b2, b3), m);
    Shr(Load4(b0, b1, b2, b3), m)
  }

  lemma DropBytes(s: seq<byte>, o: nat)
    requires o <= |s|
    ensures Nat(s) / Pow2(8 * o) == Nat(s[o..])
  {
    hide Nat, Pow2;
    NatAppend(s[..o], s[o..]);
    assert s[..o] + s[o..] == s;
    NatBound(s[..o]);
    DivModUnique(Nat(s), Pow2(8 * o), Nat(s[o..]), Nat(s[..o]));
  }

  /** Dropping the first 8o + k bits drops 21i bits. */
  lemma DropBits(s: seq<byte>, o: nat, k: nat, i: nat, m: int)
    requires o <= |s| && 21 * i == 8 * o + k && m == Pow2(k)
    ensures Nat(s) / Radix(i) == Nat(s[o..]) / m
  {
    hide Nat;
    DropBytes(s, o);
    Pow2Add(8 * o, k);
    RadixPower(i);
    hide Pow2, Radix;
    DivDiv(Nat(s), Pow2(8 * o), m, Radix(i));
  }

  /** A 21-bit limb read by a load of n bytes at offset o and a shift by k is digit i = (8o+k)/21. */
  lemma LimbDigit(s: seq<byte>, o: nat, n: nat, k: nat, i: nat, m: nat, load: nat)
    requires o + n <= |s| && 21 * i == 8 * o + k && 0 < m == Pow2(k) && k + 21 <= 8 * n
    requires load == Nat(s[o..o + n])
    ensures Low(Shr(load, m), 21) == Digit(Nat(s), i)
  {
    hide Nat, Low;
    DropBits(s, o, k, i, m);
    NatAppend(s[o..o + n], s[o + n..]);
    assert s[o..o + n] + s[o + n..] == s[o..];
    Pow2Add(k, 8 * n - k);
    Pow2Add(21, 8 * n - k - 21);
    Powers();
    hide Pow2, Radix;
    NatNonneg(s[o + n..]);
    ShiftedLoad(load, m, Pow2(8 * n), Pow2(8 * n - k), Pow2(8 * n - k - 21), Nat(s[o + n..]));
  }

  lemma NatNonneg(s: seq<byte>)
    ensures Nat(s) >= 0
  {
    NatBound(s);
  }

  lemma ShiftedLoad(load: nat, m: nat, p: int, q: int, r: int, rest: nat)
    requires m > 0 && p == m * q && q == 0x20_0000 * r
    ensures (load + p * rest) / m % 0x20_0000 == Low(Shr(load, m), 21)
  {
    Powers();
    var a, b, y := load / m, load % m, r * rest;
    assert q * rest == 0x20_0000 * y;
    Regroup(m, q, p, rest, 0, q * rest);
    Multiply(m, a, q * rest);
    hide Low;
    DivModUnique(load + p * rest, m, a + q * rest, b);
    DivModUnique(a + q * rest, 0x20_0000, a / 0x20_0000 + y, a % 0x20_0000);
  }

  lemma Limb3(s: seq<byte>, o: nat, k: nat, i: nat, m: int)
    requires o + 3 <= |s| && 21 * i == 8 * o + k && m == Pow2(k) && k <= 3
    ensures Masked3(s[o], s[o + 1], s[o + 2], m) == Digit(Nat(s), i)
  {
    var t := s[o..o + 3];
    Nat3(t);
    hide Nat, Load3, Low, Pow2;
    LimbDigit(s, o, 3, k, i, m, Load3(s[o], s[o + 1], s[o + 2]));
  }

  lemma Limb4(s: seq<byte>, o: nat, k: nat, i: nat, m: int)
    requires o + 4 <= |s| && 21 * i == 8 * o + k && m == Pow2(k) && k <= 11
    ensures Masked4(s[o], s[o + 1], s[o + 2], s[o + 3], m) == Digit(Nat(s), i)
  {
    var t := s[o..o + 4];
    Nat4(t);
    hide Nat, Load4, Low, Pow2;
    LimbDigit(s, o, 4, k, i, m, Load4(s[o], s[o + 1], s[o + 2], s[o + 3]));
  }

  lemma Nat3(t: seq<int>)
    requires |t| == 3
    ensures Nat(t) == t[0] + 0x100 * t[1] + 0x1_0000 * t[2]
  {
    assert t[0..] == t && Nat(t[3..]) == 0;
    hide Nat;
    NatFrom(t, 0); NatFrom(t, 1); NatFrom(t, 2);
  }

  lemma Nat4(t: seq<int>)
    requires |t| == 4
    ensures Nat(t) == t[0] + 0x100 * t[1] + 0x1_0000 * t[2] + 0x100_0000 * t[3]
  {
    assert t[0..] == t && Nat(t[4..]) == 0;
    hide Nat;
    NatFrom(t, 0); NatFrom(t, 1); NatFrom(t, 2); NatFrom(t, 3);
  }

  /** The top limb takes everything from the last four bytes on. */
  lemma LastLimb(s: seq<byte>, k: nat, i: nat, m: int)
    requires |s| >= 4 && 21 * i == 8 * (|s| - 4) + k && m == Pow2(k)
    ensures Top4(s[|s| - 4], s[|s| - 3], s[|s| - 2], s[|s| - 1], m) == Nat(s) / Radix(i)
  {
    Nat4(s[|s| - 4..]);
    hide Nat, Load4, Pow2;
    DropBits(s, |s| - 4, k, i, m);
  }

  /** Limbs i, i+1, i+2 and limbs i to i+6: the pattern of the source repeats every eight limbs, 21 bytes. */
  function ThreeLimbs(s: seq<byte>, o: nat): (t: seq<int64>)
    requires o + 8 <= |s|
    ensures |t| == 3
  {
    [Masked3(s[o], s[o + 1], s[o + 2], 0x1),
     Masked4(s[o + 2], s[o + 3], s[o + 4], s[o + 5], 0x20),
     Masked3(s[o + 5], s[o + 6], s[o + 7], 0x4)]
  }

  function FourLimbs(s: seq<byte>, o: nat): (t: seq<int64>)
    requires o + 19 <= |s|
    ensures |t| == 4
  {
    [Masked4(s[o + 7], s[o + 8], s[o + 9], s[o + 10], 0x80),
     Masked4(s[o + 10], s[o + 11], s[o + 12], s[o + 13], 0x10),
     Masked3(s[o + 13], s[o + 14], s[o + 15], 0x2),
     Masked4(s[o + 15], s[o + 16], s[o + 17], s[o + 18], 0x40)]
  }

  function SevenLimbs(s: seq<byte>, o: nat): (t: seq<int64>)
    requires o + 19 <= |s|
    ensures |t| == 7
  {
    ThreeLimbs(s, o) + FourLimbs(s, o)
  }

  lemma PowerZero()
    ensures Pow2(0) == 1
  {
  }

  lemma ThreeDigits(s: seq<byte>, o: nat, i: nat)
    requires o + 8 <= |s| && 21 * i == 8 * o
    ensures forall j :: 0 <= j < 3 ==> ThreeLimbs(s, o)[j] == Digit(Nat(s), i + j)
  {
    hide Nat, Masked3, Masked4, Digit, Pow2;
    Powers();
    PowerZero();
    forall j | 0 <= j < 3 ensures ThreeLimbs(s, o)[j] == Digit(Nat(s), i + j) {
      if j == 0 { Limb3(s, o, 0, i + 0, 0x1); }
      else if j == 1 { Limb4(s, o + 2, 5, i + 1, 0x20); }
      else { Limb3(s, o + 5, 2, i + 2, 0x4); }
    }
  }

  lemma FourDigits(s: seq<byte>, o: nat, i: nat)
    requires o + 19 <= |s| && 21 * i == 8 * o
    ensures forall j :: 0 <= j < 4 ==> FourLimbs(s, o)[j] == Digit(Nat(s), i + 3 + j)
  {
    hide Nat, Masked3, Masked4, Digit, Pow2;
    Powers();
    forall j | 0 <= j < 4 ensures FourLimbs(s, o)[j] == Digit(Nat(s), i + 3 + j) {
      if j == 0 { Limb4(s, o + 7, 7, i + 3, 0x80); }
      else if j == 1 { Limb4(s, o + 10, 4, i + 4, 0x10); }
      else if j == 2 { Limb3(s, o + 13, 1, i + 5, 0x2); }
      else { Limb4(s, o + 15, 6, i + 6, 0x40); }
    }
  }

  lemma SevenDigits(s: seq<byte>, o: nat, i: nat)
    requires o + 19 <= |s| && 21 * i == 8 * o
    ensures forall j :: 0 <= j < 7 ==> SevenLimbs(s, o)[j] == Digit(Nat(s), i + j)
  {
    hide Nat, ThreeLimbs, FourLimbs, Digit;
    ThreeDigits(s, o, i);
    FourDigits(s, o, i);
  }

  /** The 24 limbs sc_reduce starts from. */
  function Limbs24(s: seq<byte>): (t: seq<int64>)
    requires |s| == 64
    ensures |t| == 24
  {
    SevenLimbs(s, 0) + [Masked3(s[18], s[19], s[20], 8)]
    + SevenLimbs(s, 21) + [Masked3(s[39], s[40], s[41], 8)]
    + SevenLimbs(s, 42) + [Top4(s[60], s[61], s[62], s[63], 8)]
  }

  /** The 12 limbs of each operand of sc_muladd. */
  function Limbs12(s: seq<byte>): (t: seq<int64>)
    requires |s| == 32
    ensures |t| == 12
  {
    SevenLimbs(s, 0) + [Masked3(s[18], s[19], s[20], 8)]
    + ThreeLimbs(s, 21) + [Top4(s[28], s[29], s[30], s[31], 0x80)]
  }

  lemma Limbs24Value(s: seq<byte>)
    requires |s| == 64
    ensures Value(Limbs24(s)) == Nat(s) && Raw(Limbs24(s))
  {
    Powers();
    hide Nat, Masked3, Load4, SevenLimbs, Digit, Radix, Pow2;
    SevenDigits(s, 0, 0);
    Limb3(s, 18, 3, 7, 8);
    SevenDigits(s, 21, 8);
    Limb3(s, 39, 3, 15, 8);
    SevenDigits(s, 42, 16);
    LastLimb(s, 3, 23, 8);
    DigitsBelow(Nat(s), Limbs24(s), 23);
    DigitsSmall(Nat(s), Limbs24(s), 23);
  }

  lemma Limbs12Value(s: seq<byte>)
    requires |s| == 32
    ensures Value(Limbs12(s)) == Nat(s)
    ensures Digits(Limbs12(s), 11) && 0 <= Limbs12(s)[11] < 0x200_0000
  {
    Powers();
    hide Nat, Masked3, Load4, SevenLimbs, ThreeLimbs, Digit, Radix, Pow2;
    SevenDigits(s, 0, 0);
    Limb3(s, 18, 3, 7, 8);
    ThreeDigits(s, 21, 8);
    LastLimb(s, 7, 11, 0x80);
    DigitsBelow(Nat(s), Limbs12(s), 11);
    DigitsSmall(Nat(s), Limbs12(s), 11);
  }

  lemma DigitsSmall(x: int, t: seq<int>, n: nat)
    requires n <= |t| && forall i :: 0 <= i < n ==> t[i] == Digit(x, i)
    ensures Digits(t, n)
  {
    hide Radix;
  }

  // Bytes out of limbs ---------------------------------------------------------------------------

  /** Byte j of x. */
  function ByteDigit(x: int, j: nat): int {
    x / Pow2(8 * j) % 0x100
  }

  lemma {:induction false} BytesOfNumber(x: nat, b: seq<int>)
    requires x < Pow2(8 * |b|) && forall j :: 0 <= j < |b| ==> b[j] == ByteDigit(x, j)
    ensures Nat(b) == x
  {
    if b != [] {
      var n := |b| - 1;
      BytePower(n);
      forall j | 0 <= j < n ensures b[1..][j] == ByteDigit(x / 0x100, j) {
        BytePower(j);
        DivDiv(x, 0x100, Pow2(8 * j), Pow2(8 * (j + 1)));
        assert b[1..][j] == b[j + 1];
      }
      BytesOfNumber(x / 0x100, b[1..]);
      assert b[0] == x % 0x100;
    }
  }

  /** What limbs i, ..., 11 stand for, in units of limb i. */
  function High(t: seq<int>, i: nat): int
    requires i <= 12 <= |t|
    decreases 12 - i
  {
    if i == 12 then 0 else t[i] + 0x20_0000 * High(t, i + 1)
  }

  predicate Packable(t: seq<int>) {
    |t| >= 12 && Digits(t, 11) && 0 <= t[11] <= 0x20_0000
  }

  lemma {:induction false} Split(t: seq<int>, i: nat)
    requires i <= 12 <= |t|
    ensures Val(t, 12) == Val(t, i) + Radix(i) * High(t, i)
    decreases 12 - i
  {
    if i < 12 {
      Split(t, i + 1);
      Resum(Radix(i), Radix(i + 1), High(t, i + 1), t[i], High(t, i));
    }
  }

  lemma {:induction false} LowBound(t: seq<int>, i: nat)
    requires Packable(t) && i <= 11
    ensures 0 <= Val(t, i) < Radix(i)
  {
    if i > 0 {
      LowBound(t, i - 1);
      ScaledBelow(Radix(i - 1), 0x20_0000, t[i - 1]);
    }
  }

  lemma {:induction false} HighNonneg(t: seq<int>, i: nat)
    requires Packable(t) && i <= 12
    ensures High(t, i) >= 0
    decreases 12 - i
  {
    if i < 12 { HighNonneg(t, i + 1); }
  }

  lemma HighIsQuotient(t: seq<int>, i: nat)
    requires Packable(t) && i <= 11
    ensures Val(t, 12) / Radix(i) == High(t, i)
  {
    Split(t, i);
    LowBound(t, i);
    hide Val, High, Radix;
    DivModUnique(Val(t, 12), Radix(i), High(t, i), Val(t, i));
  }

  /** Byte j starts k bits into limb i. */
  lemma ByteInLimb(t: seq<int>, j: nat, i: nat, k: nat, m: int)
    requires Packable(t) && i <= 11 && 8 * j == 21 * i + k && m == Pow2(k)
    ensures ByteDigit(Val(t, 12), j) == High(t, i) / m % 0x100
  {
    HighIsQuotient(t, i);
    RadixPower(i);
    Pow2Add(21 * i, k);
    hide Val, High, Radix, Pow2;
    DivDiv(Val(t, 12), Radix(i), m, Pow2(8 * j));
  }

  /** A byte of one limb, and a byte that two limbs share, for m = 2^bits */
  function ShiftedOut(x: nat, m: nat): byte
    requires m > 0
  {
    Cut(Shr(x, m))
  }

  function JoinedOut(x: nat, m: nat, y: nat, c: nat): byte
    requires m > 0 && x < 0x20_0000 && m * Pow2(c) == 0x20_0000
  {
    QuotientBelow(x, m, Pow2(c));
    Cut(Join(Shr(x, m), y, c))
  }

  lemma LimbByte(t: seq<int>, j: nat, i: nat, k: nat, m: int)
    requires Packable(t) && i <= 11 && 8 * j == 21 * i + k && m == Pow2(k) && (k <= 13 || i == 11) && k < 21
    ensures ShiftedOut(t[i], m) == ByteDigit(Val(t, 12), j)
  {
    hide ByteDigit, Val, Pow2;
    ByteInLimb(t, j, i, k, m);
    DivBounds(t[i], m);
    if i < 11 {
      Pow2Add(k, 21 - k);
      Pow2Add(8, 13 - k);
      Powers();
      LowByte(t[i], High(t, i + 1), High(t, i), m, Pow2(21 - k), Pow2(13 - k));
    } else {
      assert High(t, 12) == 0;
    }
  }

  lemma LowByte(x: int, y: int, h: int, m: int, p: int, p': int)
    requires m > 0 && m * p == 0x20_0000 && p == 0x100 * p' && h == x + 0x20_0000 * y
    ensures h / m % 0x100 == x / m % 0x100
  {
    ShiftOut(x, m, p, y, h);
    DropHigh(x / m, p, p', y, h / m);
  }

  lemma JoinByte(t: seq<int>, j: nat, i: nat, k: nat, m: int, c: nat)
    requires Packable(t) && i <= 10 && 8 * j == 21 * i + k && m == Pow2(k) && 13 < k < 21 && c == 21 - k
    ensures m * Pow2(c) == 0x20_0000 && JoinedOut(t[i], m, t[i + 1], c) == ByteDigit(Val(t, 12), j)
  {
    hide ByteDigit, Val;
    ByteInLimb(t, j, i, k, m);
    DivBounds(t[i], m);
    Pow2Add(k, c);
    Pow2Add(8, 13);
    Powers();
    hide Pow2, Join;
    QuotientBelow(t[i], m, Pow2(c));
    JoinedByte(t[i], t[i + 1], High(t, i + 2), High(t, i + 1), High(t, i), m, Pow2(c));
  }

  lemma JoinedByte(x: int, u: int, z: int, y: int, h: int, m: int, p: int)
    requires m > 0 && m * p == 0x20_0000 && y == u + 0x20_0000 * z && h == x + 0x20_0000 * y
    ensures h / m % 0x100 == (x / m + p * u) % 0x100
  {
    ShiftOut(x, m, p, y, h);
    var w := p * z;
    assert p * y == p * u + 0x20_0000 * w;
    var low := x / m + p * u;
    DivModUnique(low + 0x20_0000 * w, 0x100, low / 0x100 + 0x2000 * w, low % 0x100);
  }

  lemma QuotientBelow(x: nat, m: int, p: int)
    requires m > 0 && m * p == 0x20_0000 && x < 0x20_0000
    ensures x / m < p
  {
    var q, r := x / m, x % m;
    assert x == m * q + r;
    assert q >= p ==> m * q >= m * p;
  }

  /** (x + 2^21 * y) / m = x / m + p * y, for m * p = 2^21 */
  lemma ShiftOut(x: int, m: int, p: int, y: int, h: int)
    requires m > 0 && m * p == 0x20_0000 && h == x + 0x20_0000 * y
    ensures h / m == x / m + p * y
  {
    var q := x / m;
    Regroup(m, p, 0x20_0000, y, 0, p * y);
    Multiply(m, q, p * y);
    DivModUnique(h, m, q + p * y, x % m);
  }

  lemma DropHigh(x: int, p: int, p': int, y: int, s: int)
    requires p == 0x100 * p' && s == x + p * y
    ensures s % 0x100 == x % 0x100
  {
    assert p * y == 0x100 * (p' * y);
    DivModUnique(s, 0x100, x / 0x100 + p' * y, x % 0x100);
  }

  function TenBytes(t: seq<int>, i: nat): (b: seq<byte>)
    requires Packable(t) && i <= 8
    ensures |b| == 10
  {
    [ShiftedOut(t[i], 0x1), ShiftedOut(t[i], 0x100), JoinedOut(t[i], 0x1_0000, t[i + 1], 5),
     ShiftedOut(t[i + 1], 0x8), ShiftedOut(t[i + 1], 0x800), JoinedOut(t[i + 1], 0x8_0000, t[i + 2], 2),
     ShiftedOut(t[i + 2], 0x40), JoinedOut(t[i + 2], 0x4000, t[i + 3], 7), ShiftedOut(t[i + 3], 0x2),
     ShiftedOut(t[i + 3], 0x200)]
  }

  function ElevenBytes(t: seq<int>, i: nat): (b: seq<byte>)
    requires Packable(t) && i <= 3
    ensures |b| == 11
  {
    [JoinedOut(t[i + 3], 0x2_0000, t[i + 4], 4), ShiftedOut(t[i + 4], 0x10), ShiftedOut(t[i + 4], 0x1000),
     JoinedOut(t[i + 4], 0x10_0000, t[i + 5], 1), ShiftedOut(t[i + 5], 0x80), JoinedOut(t[i + 5], 0x8000, t[i + 6], 6),
     ShiftedOut(t[i + 6], 0x4), ShiftedOut(t[i + 6], 0x400), JoinedOut(t[i + 6], 0x4_0000, t[i + 7], 3),
     ShiftedOut(t[i + 7], 0x20), ShiftedOut(t[i + 7], 0x2000)]
  }

  /** The 32 bytes that sc_reduce and sc_muladd write. */
  function Packed(t: seq<int>): (b: seq<byte>)
    requires Packable(t)
    ensures |b| == 32
  {
    TenBytes(t, 0) + ElevenBytes(t, 0) + TenBytes(t, 8) + [ShiftedOut(t[11], 0x2_0000)]
  }

  lemma MorePowers()
    ensures Pow2(0) == 1 && Pow2(9) == 0x200 && Pow2(10) == 0x400 && Pow2(11) == 0x800 && Pow2(12) == 0x1000
    ensures Pow2(13) == 0x2000 && Pow2(14) == 0x4000 && Pow2(15) == 0x8000 && Pow2(17) == 0x2_0000
    ensures Pow2(18) == 0x4_0000 && Pow2(19) == 0x8_0000 && Pow2(20) == 0x10_0000
  {
    assert Pow2(0) == 1;
    Powers();
    hide Pow2;
    Pow2Add(8, 1); Pow2Add(8, 2); Pow2Add(8, 3); Pow2Add(8, 4); Pow2Add(8, 5); Pow2Add(8, 6);
    Pow2Add(8, 7); Pow2Add(16, 1); Pow2Add(16, 2); Pow2Add(16, 3); Pow2Add(16, 4);
  }

  lemma TenDigits(t: seq<int>, i: nat, j: nat)
    requires Packable(t) && i <= 8 && 8 * j == 21 * i
    ensures forall a :: 0 <= a < 10 ==> TenBytes(t, i)[a] == ByteDigit(Val(t, 12), j + a)
  {
    Powers();
    MorePowers();
    hide Val, ByteDigit, ShiftedOut, JoinedOut, Pow2;
    forall a | 0 <= a < 10 ensures TenBytes(t, i)[a] == ByteDigit(Val(t, 12), j + a) {
      if a == 0 { LimbByte(t, j + 0, i + 0, 0, 0x1); }
      else if a == 1 { LimbByte(t, j + 1, i + 0, 8, 0x100); }
      else if a == 2 { JoinByte(t, j + 2, i + 0, 16, 0x1_0000, 5); }
      else if a == 3 { LimbByte(t, j + 3, i + 1, 3, 0x8); }
      else if a == 4 { LimbByte(t, j + 4, i + 1, 11, 0x800); }
      else if a == 5 { JoinByte(t, j + 5, i + 1, 19, 0x8_0000, 2); }
      else if a == 6 { LimbByte(t, j + 6, i + 2, 6, 0x40); }
      else if a == 7 { JoinByte(t, j + 7, i + 2, 14, 0x4000, 7); }
      else if a == 8 { LimbByte(t, j + 8, i + 3, 1, 0x2); }
      else { LimbByte(t, j + 9, i + 3, 9, 0x200); }
    }
  }

  lemma ElevenDigits(t: seq<int>, i: nat, j: nat)
    requires Packable(t) && i <= 3 && 8 * j == 21 * i
    ensures forall a :: 0 <= a < 11 ==> ElevenBytes(t, i)[a] == ByteDigit(Val(t, 12), j + 10 + a)
  {
    Powers();
    MorePowers();
    hide Val, ByteDigit, ShiftedOut, JoinedOut, Pow2;
    forall a | 0 <= a < 11 ensures ElevenBytes(t, i)[a] == ByteDigit(Val(t, 12), j + 10 + a) {
      if a == 0 { JoinByte(t, j + 10, i + 3, 17, 0x2_0000, 4); }
      else if a == 1 { LimbByte(t, j + 11, i + 4, 4, 0x10); }
      else if a == 2 { LimbByte(t, j + 12, i + 4, 12, 0x1000); }
      else if a == 3 { JoinByte(t, j + 13, i + 4, 20, 0x10_0000, 1); }
      else if a == 4 { LimbByte(t, j + 14, i + 5, 7, 0x80); }
      else if a == 5 { JoinByte(t, j + 15, i + 5, 15, 0x8000, 6); }
      else if a == 6 { LimbByte(t, j + 16, i + 6, 2, 0x4); }
      else if a == 7 { LimbByte(t, j + 17, i + 6, 10, 0x400); }
      else if a == 8 { JoinByte(t, j + 18, i + 6, 18, 0x4_0000, 3); }
      else if a == 9 { LimbByte(t, j + 19, i + 7, 5, 0x20); }
      else { LimbByte(t, j + 20, i + 7, 13, 0x2000); }
    }
  }

  lemma TopOfValue(t: seq<int>)
    requires Packable(t)
    ensures 0 <= Val(t, 12) < 0x20_0001 * Radix(11)
  {
    LowBound(t, 11);
    assert Val(t, 12) == Val(t, 11) + Radix(11) * t[11];
    hide *;
    ScaledBelow(Radix(11), 0x20_0001, t[11]);
  }

  lemma PackedNat(t: seq<int>)
    requires Packable(t)
    ensures Nat(Packed(t)) == Val(t, 12)
  {
    hide Val, Nat, Radix, ByteDigit, TenBytes, ElevenBytes, Pow2, ShiftedOut;
    var b, x := Packed(t), Val(t, 12);
    TopOfValue(t);
    PackedSize(x);
    TenDigits(t, 0, 0);
    ElevenDigits(t, 0, 0);
    TenDigits(t, 8, 21);
    MorePowers();
    LimbByte(t, 31, 11, 17, 0x2_0000);
    BytesOfNumber(x, b);
  }

  lemma PackedSize(x: int)
    requires x < 0x20_0001 * Radix(11)
    ensures x < Pow2(8 * 32)
  {
    RadixPower(11);
    var n := 231;
    Pow2Add(n, 25);
    Powers();
    hide Pow2, Radix;
  }
}
