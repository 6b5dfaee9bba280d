/** native/common/ed25519_orlp/src/fe.c: between field elements and their 32-byte encodings. */
module FeBytes {
  import opened Ints
  import opened Bits
  import opened Bytes
  import opened Field
  import opened Limbs
  import opened Fe

  /** The limbs as loaded, before carrying: together they are the number without its top bit. */
  function Loaded(s: seq<int>): (h: seq<int>)
    requires |s| == 32
  {
    [s[0] + 0x100 * s[1] + 0x1_0000 * s[2] + 0x100_0000 * s[3],
     0x40 * s[4] + 0x4000 * s[5] + 0x40_0000 * s[6],
     0x20 * s[7] + 0x2000 * s[8] + 0x20_0000 * s[9],
     0x8 * s[10] + 0x800 * s[11] + 0x8_0000 * s[12],
     0x4 * s[13] + 0x400 * s[14] + 0x4_0000 * s[15],
     s[16] + 0x100 * s[17] + 0x1_0000 * s[18] + 0x100_0000 * s[19],
     0x80 * s[20] + 0x8000 * s[21] + 0x80_0000 * s[22],
     0x20 * s[23] + 0x2000 * s[24] + 0x20_0000 * s[25],
     0x10 * s[26] + 0x1000 * s[27] + 0x10_0000 * s[28],
     0x4 * s[29] + 0x400 * s[30] + 0x4_0000 * (s[31] % 0x80)]
  }

  lemma LoadedValue(s: seq<byte>)
    requires |s| == 32
    ensures V(Loaded(s)) == Nat(s) % 0x8000_0000_0000_0000_0000_0000_0000_0000_0000_0000_0000_0000_0000_0000_0000_0000
  {
    hide V, Nat;
    LoadedSum(s);
    LoadedBound(s);
    DivModUnique(Nat(s), 0x8000_0000_0000_0000_0000_0000_0000_0000_0000_0000_0000_0000_0000_0000_0000_0000,
        s[31] / 0x80, V(Loaded(s)));
  }

  lemma LoadedSum(s: seq<byte>)
    requires |s| == 32
    ensures Nat(s) ==
      0x8000_0000_0000_0000_0000_0000_0000_0000_0000_0000_0000_0000_0000_0000_0000_0000 * (s[31] / 0x80)
        + V(Loaded(s))
  {
    hide V, Nat;
    VExplicit(Loaded(s));
    Nat32(s);
    assert s[31] == 0x80 * (s[31] / 0x80) + s[31] % 0x80;
  }

  lemma LoadedBound(s: seq<byte>)
    requires |s| == 32
    ensures 0 <= V(Loaded(s)) < 0x8000_0000_0000_0000_0000_0000_0000_0000_0000_0000_0000_0000_0000_0000_0000_0000
  {
    hide V;
    VExplicit(Loaded(s));
  }

  lemma LoadedSmall(s: seq<byte>)
    requires |s| == 32
    ensures Within(Loaded(s), 0x2_0000_0000, 0x2_0000_0000)
  {
  }

  lemma MaskTop(b0: byte, b1: byte, b2: byte)
    ensures Low(Load3(b0, b1, b2), 23) == b0 as int + 0x100 * (b1 as int) + 0x1_0000 * (b2 as int % 0x80)
  {
    Powers();
    hide Low, Load3;
    var x, y: int := Load3(b0, b1, b2), b2;
    DivModUnique(x, 0x80_0000, y / 0x80, b0 as int + 0x100 * (b1 as int) + 0x1_0000 * (y % 0x80));
  }

  method LoadLimbs(s: seq<byte>)
    returns (h0: int64, h1: int64, h2: int64, h3: int64, h4: int64, h5: int64, h6: int64, h7: int64, h8: int64,
      h9: int64)
    requires |s| == 32
    ensures [h0, h1, h2, h3, h4, h5, h6, h7, h8, h9] == Loaded(s)
  {
    hide Low, Load3, Load4;
    MaskTop(s[29], s[30], s[31]);
    h0 := Load4(s[0], s[1], s[2], s[3]);
    h1 := Load3(s[4], s[5], s[6]) * 64;
    h2 := Load3(s[7], s[8], s[9]) * 32;
    h3 := Load3(s[10], s[11], s[12]) * 8;
    h4 := Load3(s[13], s[14], s[15]) * 4;
    h5 := Load4(s[16], s[17], s[18], s[19]);
    h6 := Load3(s[20], s[21], s[22]) * 128;
    h7 := Load3(s[23], s[24], s[25]) * 32;
    h8 := Load3(s[26], s[27], s[28]) * 16;
    h9 := Low(Load3(s[29], s[30], s[31]), 23) * 4;
  }

  method CarryLoaded(a0: int64, a1: int64, a2: int64, a3: int64, a4: int64, a5: int64, a6: int64, a7: int64, a8: int64,
      a9: int64)
    returns (h0: int64, h1: int64, h2: int64, h3: int64, h4: int64, h5: int64, h6: int64, h7: int64, h8: int64,
      h9: int64, ghost q: int)
    requires Within([a0, a1, a2, a3, a4, a5, a6, a7, a8, a9], 0x2_0000_0000, 0x2_0000_0000)
    ensures V([h0, h1, h2, h3, h4, h5, h6, h7, h8, h9]) == V([a0, a1, a2, a3, a4, a5, a6, a7, a8, a9]) - q * P
    ensures Within([h0, h1, h2, h3, h4, h5, h6, h7, h8, h9], MUL_OUT_EVEN, MUL_OUT_ODD)
  {
    hide V;
    h0, h1, h2, h3, h4, h5, h6, h7, h8, h9, q := CarryOdd(a0, a1, a2, a3, a4, a5, a6, a7, a8, a9);
    h0, h1, h2, h3, h4, h5, h6, h7, h8, h9 := CarryEven(h0, h1, h2, h3, h4, h5, h6, h7, h8, h9);
  }

  method CarryOdd(a0: int64, a1: int64, a2: int64, a3: int64, a4: int64, a5: int64, a6: int64, a7: int64, a8: int64,
      a9: int64)
    returns (h0: int64, h1: int64, h2: int64, h3: int64, h4: int64, h5: int64, h6: int64, h7: int64, h8: int64,
      h9: int64, ghost q: int)
    requires Within([a0, a1, a2, a3, a4, a5, a6, a7, a8, a9], 0x2_0000_0000, 0x2_0000_0000)
    ensures V([h0, h1, h2, h3, h4, h5, h6, h7, h8, h9]) == V([a0, a1, a2, a3, a4, a5, a6, a7, a8, a9]) - q * P
    ensures Within([h0, h1, h2, h3, h4, h5, h6, h7, h8, h9], 0x4_0000_0000, 0x100_0000)
  {
    hide V;
    h0, h1, h2, h3, h4, h5, h6, h7, h8, h9 := a0, a1, a2, a3, a4, a5, a6, a7, a8, a9;
    var carry: int64;
    carry, h9 := Carry25(h9);
    h0 := h0 + carry * 19;
    q := carry;
    carry, h1 := Carry25(h1);
    h2 := h2 + carry;
    carry, h3 := Carry25(h3);
    h4 := h4 + carry;
    carry, h5 := Carry25(h5);
    h6 := h6 + carry;
    carry, h7 := Carry25(h7);
    h8 := h8 + carry;
    VExplicit([a0, a1, a2, a3, a4, a5, a6, a7, a8, a9]);
    VExplicit([h0, h1, h2, h3, h4, h5, h6, h7, h8, h9]);
    PrimeNumber(q);
  }

  method CarryEven(a0: int64, a1: int64, a2: int64, a3: int64, a4: int64, a5: int64, a6: int64, a7: int64, a8: int64,
      a9: int64)
    returns (h0: int64, h1: int64, h2: int64, h3: int64, h4: int64, h5: int64, h6: int64, h7: int64, h8: int64,
      h9: int64)
    requires Within([a0, a1, a2, a3, a4, a5, a6, a7, a8, a9], 0x4_0000_0000, 0x100_0000)
    ensures V([h0, h1, h2, h3, h4, h5, h6, h7, h8, h9]) == V([a0, a1, a2, a3, a4, a5, a6, a7, a8, a9])
    ensures Within([h0, h1, h2, h3, h4, h5, h6, h7, h8, h9], MUL_OUT_EVEN, MUL_OUT_ODD)
  {
    hide V;
    h0, h1, h2, h3, h4, h5, h6, h7, h8, h9 := a0, a1, a2, a3, a4, a5, a6, a7, a8, a9;
    var carry: int64;
    carry, h0 := Carry26(h0);
    h1 := h1 + carry;
    carry, h2 := Carry26(h2);
    h3 := h3 + carry;
    carry, h4 := Carry26(h4);
    h5 := h5 + carry;
    carry, h6 := Carry26(h6);
    h7 := h7 + carry;
    carry, h8 := Carry26(h8);
    h9 := h9 + carry;
    VExplicit([a0, a1, a2, a3, a4, a5, a6, a7, a8, a9]);
    VExplicit([h0, h1, h2, h3, h4, h5, h6, h7, h8, h9]);
  }

  /** h = the number in s, its top bit ignored */
  method FeFromBytes(h: array<int32>, s: array<byte>)
    requires h.Length == 10 && s.Length == 32
    modifies h
    ensures Within(h[..], MUL_OUT_EVEN, MUL_OUT_ODD)
    ensures Cong(V(h[..]),
      Nat(s[..]) % 0x8000_0000_0000_0000_0000_0000_0000_0000_0000_0000_0000_0000_0000_0000_0000_0000)
  {
    hide V, Nat, Cong, Loaded;
    var h0, h1, h2, h3, h4, h5, h6, h7, h8, h9 := LoadLimbs(s[..]);
    LoadedValue(s[..]);
    LoadedSmall(s[..]);
    ghost var v := V([h0, h1, h2, h3, h4, h5, h6, h7, h8, h9]);
    ghost var q;
    h0, h1, h2, h3, h4, h5, h6, h7, h8, h9, q := CarryLoaded(h0, h1, h2, h3, h4, h5, h6, h7, h8, h9);
    Store(h, h0, h1, h2, h3, h4, h5, h6, h7, h8, h9);
    CongIntro(V(h[..]), v, -q);
  }

  // 1.1 * 2^26 and 1.1 * 2^25: what fe_tobytes accepts.
  const BYTES_IN_EVEN: int := 73819750
  const BYTES_IN_ODD: int := 36909875

  method Shift26(x: int32) returns (q: int32, r: int)
    ensures x == 0x400_0000 * q + r && 0 <= r < 0x400_0000
    ensures AbsAtMost(q, 0x20)
  {
    q := x / 0x400_0000;
    r := x % 0x400_0000;
  }

  method Shift25(x: int32) returns (q: int32, r: int)
    ensures x == 0x200_0000 * q + r && 0 <= r < 0x200_0000
    ensures AbsAtMost(q, 0x40)
  {
    q := x / 0x200_0000;
    r := x % 0x200_0000;
  }

  predicate LimbDigits(r: seq<int>) {
    && |r| == 10
    && (forall i :: 0 <= i < 10 ==> 0 <= r[i])
    && r[0] < 0x400_0000 && r[1] < 0x200_0000 && r[2] < 0x400_0000 && r[3] < 0x200_0000 && r[4] < 0x400_0000
    && r[5] < 0x200_0000 && r[6] < 0x400_0000 && r[7] < 0x200_0000 && r[8] < 0x400_0000 && r[9] < 0x200_0000
  }

  lemma DigitsBound(r: seq<int>)
    requires LimbDigits(r)
    ensures 0 <= V(r) < 0x8000_0000_0000_0000_0000_0000_0000_0000_0000_0000_0000_0000_0000_0000_0000_0000
  {
    hide V;
    VExplicit(r);
  }

  lemma TopLimb(h: seq<int>)
    requires Within(h, BYTES_IN_EVEN, BYTES_IN_ODD)
    ensures AbsAtMost(V(h) - 0x40_0000_0000_0000_0000_0000_0000_0000_0000_0000_0000_0000_0000_0000_0000 * h[9],
      0x80_0000_0000_0000_0000_0000_0000_0000_0000_0000_0000_0000_0000_0000_0000)
  {
    hide V;
    VExplicit(h);
  }

  lemma ShiftChain(h: seq<int>, r: seq<int>, q0: int, q1: int, q2: int, q3: int, q4: int, q5: int, q6: int, q7: int,
      q8: int, q9: int, q10: int)
    requires |h| == |r| == 10
    requires h[0] + q0 == 0x400_0000 * q1 + r[0]
    requires h[1] + q1 == 0x200_0000 * q2 + r[1]
    requires h[2] + q2 == 0x400_0000 * q3 + r[2]
    requires h[3] + q3 == 0x200_0000 * q4 + r[3]
    requires h[4] + q4 == 0x400_0000 * q5 + r[4]
    requires h[5] + q5 == 0x200_0000 * q6 + r[5]
    requires h[6] + q6 == 0x400_0000 * q7 + r[6]
    requires h[7] + q7 == 0x200_0000 * q8 + r[7]
    requires h[8] + q8 == 0x400_0000 * q9 + r[8]
    requires h[9] + q9 == 0x200_0000 * q10 + r[9]
    ensures V(h) + q0 == 0x8000_0000_0000_0000_0000_0000_0000_0000_0000_0000_0000_0000_0000_0000_0000_0000 * q10 + V(r)
  {
    hide V;
    VExplicit(h);
    VExplicit(r);
  }

  /** The chain of shifts that fe_tobytes starts with finds the exact quotient by P. */
  method Quotient(h: seq<int32>) returns (q: int32)
    requires Within(h, BYTES_IN_EVEN, BYTES_IN_ODD)
    ensures 0 <= V(h) - q * P < P && -2 <= q <= 2
  {
    hide V, Prime, RootExponent;
    var r0: int, r1: int, r2: int, r3: int, r4: int, r5: int, r6: int, r7: int, r8: int, r9: int;
    var q0: int32, r: int := Shift25(19 * h[9] + 0x100_0000);
    var q1: int32, q2: int32, q3: int32, q4: int32, q5: int32, q6: int32, q7: int32, q8: int32, q9: int32, q10: int32;
    q1, r0 := Shift26(h[0] + q0);
    q2, r1 := Shift25(h[1] + q1);
    q3, r2 := Shift26(h[2] + q2);
    q4, r3 := Shift25(h[3] + q3);
    q5, r4 := Shift26(h[4] + q4);
    q6, r5 := Shift25(h[5] + q5);
    q7, r6 := Shift26(h[6] + q6);
    q8, r7 := Shift25(h[7] + q7);
    q9, r8 := Shift26(h[8] + q8);
    q10, r9 := Shift25(h[9] + q9);
    q := q10;
    ShiftChain(h, [r0, r1, r2, r3, r4, r5, r6, r7, r8, r9], q0, q1, q2, q3, q4, q5, q6, q7, q8, q9, q10);
    DigitsBound([r0, r1, r2, r3, r4, r5, r6, r7, r8, r9]);
    TopLimb(h);
    QuotientExact(V(h), h[9], q0, q, V([r0, r1, r2, r3, r4, r5, r6, r7, r8, r9]));
  }

  lemma QuotientExact(v: int, h9: int, q0: int, q: int, rest: int)
    requires v + q0 == 0x8000_0000_0000_0000_0000_0000_0000_0000_0000_0000_0000_0000_0000_0000_0000_0000 * q + rest
      && 0 <= rest < 0x8000_0000_0000_0000_0000_0000_0000_0000_0000_0000_0000_0000_0000_0000_0000_0000
    requires -0x100_0000 <= 19 * h9 - 0x200_0000 * q0 < 0x100_0000
    requires AbsAtMost(v - 0x40_0000_0000_0000_0000_0000_0000_0000_0000_0000_0000_0000_0000_0000_0000 * h9,
      0x80_0000_0000_0000_0000_0000_0000_0000_0000_0000_0000_0000_0000_0000_0000) && AbsAtMost(q0, 100)
    ensures 0 <= v - q * P < P
  {
    PrimeNumber(q);
  }

  /** The shifts that reduce every limb to its digit; the carry out of the last one is q. */
  method FloorDigits(h: seq<int32>, q: int32)
    returns (h0: int, h1: int, h2: int, h3: int, h4: int, h5: int, h6: int, h7: int, h8: int, h9: int)
    requires Within(h, BYTES_IN_EVEN, BYTES_IN_ODD)
    requires 0 <= V(h) - q * P < P && -2 <= q <= 2
    ensures LimbDigits([h0, h1, h2, h3, h4, h5, h6, h7, h8, h9])
      && V([h0, h1, h2, h3, h4, h5, h6, h7, h8, h9]) == V(h) - q * P
  {
    hide V;
    var carry0: int32, carry1: int32, carry2: int32, carry3: int32, carry4: int32, carry5: int32, carry6: int32,
      carry7: int32, carry8: int32, carry9: int32;
    carry0, h0 := Shift26(h[0] + 19 * q);
    carry1, h1 := Shift25(h[1] + carry0);
    carry2, h2 := Shift26(h[2] + carry1);
    carry3, h3 := Shift25(h[3] + carry2);
    carry4, h4 := Shift26(h[4] + carry3);
    carry5, h5 := Shift25(h[5] + carry4);
    carry6, h6 := Shift26(h[6] + carry5);
    carry7, h7 := Shift25(h[7] + carry6);
    carry8, h8 := Shift26(h[8] + carry7);
    carry9, h9 := Shift25(h[9] + carry8);
    ShiftChain(h, [h0, h1, h2, h3, h4, h5, h6, h7, h8, h9], 19 * q, carry0, carry1, carry2, carry3, carry4, carry5,
        carry6, carry7, carry8, carry9);
    DigitsBound([h0, h1, h2, h3, h4, h5, h6, h7, h8, h9]);
    hide Within;
    CarryOut(V(h), q, carry9, V([h0, h1, h2, h3, h4, h5, h6, h7, h8, h9]));
  }

  lemma CarryOut(v: int, q: int, carry: int, rest: int)
    requires 0 <= v - q * P < P
    requires v + 19 * q == 0x8000_0000_0000_0000_0000_0000_0000_0000_0000_0000_0000_0000_0000_0000_0000_0000 * carry
      + rest && 0 <= rest < 0x8000_0000_0000_0000_0000_0000_0000_0000_0000_0000_0000_0000_0000_0000_0000_0000
    ensures rest == v - q * P
  {
    PrimeNumber(q);
  }

  /** Bytes 0 to 15: limbs 0 to 4 are the low 128 bits. */
  function PackedLow(d: seq<int>): (s: seq<byte>)
    requires LimbDigits(d)
    ensures |s| == 16
  {
    Powers();
    [Cut(d[0]), Cut(d[0] / 0x100), Cut(d[0] / 0x1_0000), Cut(Join(d[0] / 0x100_0000, d[1], 2)),
     Cut(d[1] / 0x40), Cut(d[1] / 0x4000), Cut(Join(d[1] / 0x40_0000, d[2], 3)), Cut(d[2] / 0x20),
     Cut(d[2] / 0x2000), Cut(Join(d[2] / 0x20_0000, d[3], 5)), Cut(d[3] / 0x8), Cut(d[3] / 0x800),
     Cut(Join(d[3] / 0x8_0000, d[4], 6)), Cut(d[4] / 0x4), Cut(d[4] / 0x400), Cut(d[4] / 0x4_0000)]
  }

  /** Bytes 16 to 31: limbs 5 to 9. */
  function PackedHigh(d: seq<int>): (s: seq<byte>)
    requires LimbDigits(d)
    ensures |s| == 16
  {
    Powers();
    [Cut(d[5]), Cut(d[5] / 0x100), Cut(d[5] / 0x1_0000), Cut(Join(d[5] / 0x100_0000, d[6], 1)),
     Cut(d[6] / 0x80), Cut(d[6] / 0x8000), Cut(Join(d[6] / 0x80_0000, d[7], 3)), Cut(d[7] / 0x20),
     Cut(d[7] / 0x2000), Cut(Join(d[7] / 0x20_0000, d[8], 4)), Cut(d[8] / 0x10), Cut(d[8] / 0x1000),
     Cut(Join(d[8] / 0x10_0000, d[9], 6)), Cut(d[9] / 0x4), Cut(d[9] / 0x400), Cut(d[9] / 0x4_0000)]
  }

  /** Three bytes take the k bits left over from one limb and all but the rest of the next limb. */
  lemma Chunk3(a: int, h: int, k: nat, m: int, m1: int, m2: int, m3: int)
    requires 0 <= a < m == Pow2(k) && 0 <= h && 0 < m1 && 0 < m2 && 0 < m3
    requires m * m1 == 0x100 && m * m2 == 0x1_0000 && m * m3 == 0x100_0000
    ensures Cut(Join(a, h, k)) + 0x100 * Cut(h / m1) + 0x1_0000 * Cut(h / m2) + 0x100_0000 * (h / m3) == a + m * h
  {
    ShiftedDiv(a, h, m, m1, 0x100);
    ShiftedDiv(a, h, m, m2, 0x1_0000);
    ShiftedDiv(a, h, m, m3, 0x100_0000);
    ThreeBytes(a + m * h);
  }

  lemma ThreeBytes(x: nat)
    ensures Cut(x) + 0x100 * Cut(x / 0x100) + 0x1_0000 * Cut(x / 0x1_0000) + 0x100_0000 * (x / 0x100_0000) == x
  {
    var y := x / 0x100;
    var z := y / 0x100;
    assert x / 0x1_0000 == z && x / 0x100_0000 == z / 0x100;
  }

  lemma PackedLowNat(d: seq<int>)
    requires LimbDigits(d)
    ensures Nat(PackedLow(d)) == d[0] + 0x400_0000 * d[1] + 0x8_0000_0000_0000 * d[2]
      + 0x2000_0000_0000_0000_0000 * d[3] + 0x40_0000_0000_0000_0000_0000_0000 * d[4]
  {
    Powers();
    assert Cut(d[4] / 0x4_0000) == d[4] / 0x4_0000;
    hide Nat, Join, Cut, Pow2;
    Nat16(PackedLow(d));
    ThreeBytes(d[0]);
    Chunk3(d[0] / 0x100_0000, d[1], 2, 4, 0x40, 0x4000, 0x40_0000);
    Chunk3(d[1] / 0x40_0000, d[2], 3, 8, 0x20, 0x2000, 0x20_0000);
    Chunk3(d[2] / 0x20_0000, d[3], 5, 0x20, 8, 0x800, 0x8_0000);
    Chunk3(d[3] / 0x8_0000, d[4], 6, 0x40, 4, 0x400, 0x4_0000);
  }

  lemma PackedHighNat(d: seq<int>)
    requires LimbDigits(d)
    ensures Nat(PackedHigh(d)) == d[5] + 0x200_0000 * d[6] + 0x8_0000_0000_0000 * d[7]
      + 0x1000_0000_0000_0000_0000 * d[8] + 0x40_0000_0000_0000_0000_0000_0000 * d[9]
  {
    Powers();
    assert Cut(d[9] / 0x4_0000) == d[9] / 0x4_0000;
    hide Nat, Join, Cut, Pow2;
    Nat16(PackedHigh(d));
    ThreeBytes(d[5]);
    Chunk3(d[5] / 0x100_0000, d[6], 1, 2, 0x80, 0x8000, 0x80_0000);
    Chunk3(d[6] / 0x80_0000, d[7], 3, 8, 0x20, 0x2000, 0x20_0000);
    Chunk3(d[7] / 0x20_0000, d[8], 4, 0x10, 0x10, 0x1000, 0x10_0000);
    Chunk3(d[8] / 0x10_0000, d[9], 6, 0x40, 4, 0x400, 0x4_0000);
  }

  /** The 32 bytes fe_tobytes writes. */
  function Packed(d: seq<int>): (s: seq<byte>)
    requires LimbDigits(d)
    ensures |s| == 32
  {
    PackedLow(d) + PackedHigh(d)
  }

  lemma PackedNat(d: seq<int>)
    requires LimbDigits(d)
    ensures Nat(Packed(d)) == V(d)
  {
    hide V, Nat, PackedLow, PackedHigh, Pow2;
    PackedLowNat(d);
    PackedHighNat(d);
    NatAppend(PackedLow(d), PackedHigh(d));
    Weights();
    assert Weight(5) == Pow2(8 * 16);
    var high := Nat(PackedHigh(d));
    assert Pow2(8 * 16) * high == 0x1_0000_0000_0000_0000_0000_0000_0000_0000 * high;
    hide Weight;
    VExplicit(d);
    assert Nat(Packed(d)) == Nat(PackedLow(d)) + 0x1_0000_0000_0000_0000_0000_0000_0000_0000 * high;
    assert 0x1_0000_0000_0000_0000_0000_0000_0000_0000 * high == 0x1_0000_0000_0000_0000_0000_0000_0000_0000 * d[5]
      + 0x200_0000_0000_0000_0000_0000_0000_0000_0000_0000 * d[6]
      + 0x8_0000_0000_0000_0000_0000_0000_0000_0000_0000_0000_0000 * d[7]
      + 0x1000_0000_0000_0000_0000_0000_0000_0000_0000_0000_0000_0000_0000 * d[8]
      + 0x40_0000_0000_0000_0000_0000_0000_0000_0000_0000_0000_0000_0000_0000_0000 * d[9];
  }

  /** s[0..32] = the number in [0, P) that h stands for */
  method FeToBytes(s: array<byte>, h: array<int32>)
    requires h.Length == 10 && s.Length >= 32
    requires Within(h[..], BYTES_IN_EVEN, BYTES_IN_ODD)
    modifies s
    ensures Nat(s[..32]) == Residue(V(h[..])) && s[32..] == old(s[32..])
  {
    hide V, Nat, Packed, Cong, Residue;
    var q := Quotient(h[..]);
    var h0, h1, h2, h3, h4, h5, h6, h7, h8, h9 := FloorDigits(h[..], q);
    var d: seq<int> := [h0, h1, h2, h3, h4, h5, h6, h7, h8, h9];
    var b := Packed(d);
    PackedNat(d);
    StoreBytes(s, 0, b);
    CongIntro(V(h[..]), V(d), q);
    ResidueUnique(V(h[..]), V(d));
  }
}
