/** What the functions of FIPS 180-4 come to: the sums and mixes of section 4.1.3 and the padding of
    section 5.1.2, the words of section 5.2.2. */
module Sha512Properties {
  import opened Ints
  import opened Bits
  import opened Words
  import opened Sha512Standard

  // Words --------------------------------------------------------------------------------------------------

  lemma WordBits(x: word, i: nat)
    requires i >= 64
    ensures Bit(x, i) == 0
  {
    WordSize();
    BitZeroAbove(x, 64, i);
  }

  lemma RotatedBit(x: word, n: nat, i: nat)
    requires 0 < n < 64 && i < 64
    ensures Bit(RotateRight(x, n), i) == Bit(x, (i + n) % 64)
  {
    hide Or, Bit, Pow2, ShiftLeft, ShiftRight;
    ShiftedBit(x, n, i);
    RaisedBit(x, 64 - n, i);
    BitOr(ShiftRight(x, n), ShiftLeft(x, 64 - n), i);
    BitSmall(x, (i + n) % 64);
  }

  lemma ShiftedBit(x: word, n: nat, i: nat)
    requires n < 64 && i < 64
    ensures Bit(ShiftRight(x, n), i) == if i + n < 64 then Bit(x, i + n) else 0
  {
    hide Pow2, Bit;
    BitShifted(x, n, i);
    if i + n >= 64 { WordBits(x, i + n); }
  }

  lemma RaisedBit(x: word, m: nat, i: nat)
    requires i < 64
    ensures Bit(ShiftLeft(x, m), i) == if i < m then 0 else Bit(x, i - m)
  {
    hide Pow2, Bit;
    var n: nat := 64;
    WordSize();
    BitRaised(x, m, i);
    BitLow(x * Pow2(m), n, i);
  }

  lemma SumOfThree(x: word, y: word, z: word, i: nat)
    ensures Bit(Xor64(Xor64(x, y), z), i) == (Bit(x, i) + Bit(y, i) + Bit(z, i)) % 2
  {
    hide Xor, Bit;
    BitAdds(x, y, i);
    BitAdds(Xor64(x, y), z, i);
  }

  /** Every bit of the four sums and mixes is a sum modulo 2 of three bits, or of two at the upper end of a shift. */
  lemma SigmaBits(x: word, i: nat)
    requires i < 64
    ensures Bit(SumA(x), i) == (Bit(x, (i + 28) % 64) + Bit(x, (i + 34) % 64) + Bit(x, (i + 39) % 64)) % 2
    ensures Bit(SumE(x), i) == (Bit(x, (i + 14) % 64) + Bit(x, (i + 18) % 64) + Bit(x, (i + 41) % 64)) % 2
    ensures Bit(Mix0(x), i) ==
      (Bit(x, (i + 1) % 64) + Bit(x, (i + 8) % 64) + (if i + 7 < 64 then Bit(x, i + 7) else 0)) % 2
    ensures Bit(Mix1(x), i) ==
      (Bit(x, (i + 19) % 64) + Bit(x, (i + 61) % 64) + (if i + 6 < 64 then Bit(x, i + 6) else 0)) % 2
  {
    hide Bit, Xor64, RotateRight, ShiftRight;
    SumOfThree(RotateRight(x, 28), RotateRight(x, 34), RotateRight(x, 39), i);
    SumOfThree(RotateRight(x, 14), RotateRight(x, 18), RotateRight(x, 41), i);
    SumOfThree(RotateRight(x, 1), RotateRight(x, 8), ShiftRight(x, 7), i);
    SumOfThree(RotateRight(x, 19), RotateRight(x, 61), ShiftRight(x, 6), i);
    RotatedBit(x, 28, i); RotatedBit(x, 34, i); RotatedBit(x, 39, i);
    RotatedBit(x, 14, i); RotatedBit(x, 18, i); RotatedBit(x, 41, i);
    RotatedBit(x, 1, i); RotatedBit(x, 8, i); ShiftedBit(x, 7, i);
    RotatedBit(x, 19, i); RotatedBit(x, 61, i); ShiftedBit(x, 6, i);
  }

  lemma {:induction false} InvertedBit(x: nat, n: nat, i: nat)
    requires x < Pow2(n) && i < n
    ensures Bit(Pow2(n) - 1 - x, i) == 1 - Bit(x, i)
    decreases n
  {
    var p := Pow2(n - 1);
    NotBits(x, Pow2(n) - 1 - x, p);
    if i > 0 { InvertedBit(x / 2, n - 1, i - 1); }
  }

  /** The choice takes its bit from y where x has a one and from z where it has a zero; the majority is the bit
      that at least two of the three have. */
  lemma ChoiceBits(x: word, y: word, z: word, i: nat)
    requires i < 64
    ensures Bit(StandardCh(x, y, z), i) == if Bit(x, i) == 1 then Bit(y, i) else Bit(z, i)
    ensures Bit(StandardMaj(x, y, z), i) == if Bit(x, i) + Bit(y, i) + Bit(z, i) >= 2 then 1 else 0
  {
    hide Bit, And, Xor, Pow2;
    WordSize();
    var n: nat := 64;
    InvertedBit(x, n, i);
    BitSmall(x, i); BitSmall(y, i); BitSmall(z, i);
    BitAnd(x, y, i); BitAnd(x, z, i); BitAnd(y, z, i); BitAnd(Not64(x), z, i);
    BitAdds(And64(x, y), And64(Not64(x), z), i);
    SumOfThree(And64(x, y), And64(x, z), And64(y, z), i);
  }

  // Strings of bits ----------------------------------------------------------------------------------------

  /** Bit j of a string of bytes: each byte starts with its highest bit. */
  function BitAt(b: seq<byte>, j: nat): nat
    requires j < 8 * |b|
  {
    Bit(b[j / 8], 7 - j % 8)
  }

  lemma ByteBit(x: nat, k: nat, i: nat)
    requires i < 8
    ensures Bit(ByteAt(x, k), i) == Bit(x, 8 * k + i)
  {
    hide Pow2, Bit;
    var n: nat := 8;
    Powers();
    BitShifted(x, 8 * k, i);
    BitLow(x / Pow2(8 * k), n, i);
  }

  /** The bits of a big-endian number, the highest first */
  lemma BigEndianBits(x: nat, n: nat, j: nat)
    requires j < 8 * n
    ensures BitAt(BigEndian(x, n), j) == Bit(x, 8 * n - 1 - j)
  {
    hide ByteAt, Bit;
    ByteBit(x, n - 1 - j / 8, 7 - j % 8);
  }

  lemma ByteBits(j: nat)
    requires j < 8
    ensures Bit(0x80, 7 - j) == if j == 0 then 1 else 0
    ensures Bit(0, 7 - j) == 0
  {
    assert Bit(1, 0) == 1;
    hide Bit, Pow2;
    var n: nat := 7;
    Powers();
    BitOfZero(7 - j);
    BitRaised(1, n, 7 - j);
  }

  /** The padded message: the bits of the message, a one, the fewest zeros that leave 128 bits of a whole number of
      blocks of 1024, and in these the length of the message in bits. */
  lemma PaddedBits(m: seq<byte>, j: nat)
    requires j < 8 * |Padded(m)|
    ensures var size, l := 8 * |Padded(m)|, 8 * |m|;
      && size % 1024 == 0 && l + 1 + 128 <= size < l + 1 + 128 + 1024
      && BitAt(Padded(m), j) ==
        (if j < l then BitAt(m, j) else if j == l then 1 else if j < size - 128 then 0 else Bit(l, size - 1 - j))
  {
    hide Bit, BigEndian;
    var p, n, g := Padded(m), |m|, Gap(|m|);
    var b := BigEndian(8 * n, 16);
    assert |p| == n + 1 + g + 16;
    ByteBits(j % 8);
    if j / 8 < n {
      assert p[j / 8] == m[j / 8];
    } else if j / 8 == n {
      assert p[j / 8] == 0x80;
    } else if j / 8 < n + 1 + g {
      assert p[j / 8] == 0;
    } else {
      assert p[j / 8] == b[j / 8 - (n + 1 + g)];
      BigEndianBits(8 * n, 16, j - 8 * (n + 1 + g));
    }
  }

  /** The number that starts with its highest byte */
  function BigNumber(b: seq<byte>): nat {
    if b == [] then 0 else 0x100 * BigNumber(b[..|b| - 1]) + b[|b| - 1]
  }

  lemma {:induction false} BigNumberBits(b: seq<byte>, j: nat)
    requires j < 8 * |b|
    ensures Bit(BigNumber(b), 8 * |b| - 1 - j) == BitAt(b, j)
  {
    hide Bit;
    var n := |b| - 1;
    LowByteBits(BigNumber(b[..n]), b[n], 8 * |b| - 1 - j);
    if j < 8 * n { BigNumberBits(b[..n], j); }
  }

  lemma LowByteBits(h: nat, d: byte, i: nat)
    ensures Bit(0x100 * h + d, i) == if i < 8 then Bit(d, i) else Bit(h, i - 8)
  {
    hide Bit, Pow2;
    var n: nat, x := 8, 0x100 * h + d;
    Powers();
    if i < 8 {
      BitLow(x, n, i);
    } else {
      BitShifted(x, n, i - 8);
    }
  }

  lemma LoadedNumber(b: seq<byte>, i: nat)
    requires 8 * i + 8 <= |b|
    ensures LoadWord(b, i) == BigNumber(b[8 * i..8 * i + 8])
  {
    var s := b[8 * i..8 * i + 8];
    assert BigNumber(s[..0]) == 0;
    LastByte(s, 0); LastByte(s, 1); LastByte(s, 2); LastByte(s, 3);
    LastByte(s, 4); LastByte(s, 5); LastByte(s, 6); LastByte(s, 7);
    assert s[..8] == s;
    hide BigNumber;
  }

  lemma LastByte(s: seq<byte>, k: nat)
    requires k < |s|
    ensures BigNumber(s[..k + 1]) == 0x100 * BigNumber(s[..k]) + s[k]
  {
    assert s[..k + 1][..k] == s[..k];
  }

  /** A word of a block has the bits that stand there, the highest first. */
  lemma LoadedBits(b: seq<byte>, i: nat, j: nat)
    requires 8 * i + 8 <= |b| && j < 64
    ensures Bit(LoadWord(b, i), 63 - j) == BitAt(b, 64 * i + j)
  {
    hide Bit, LoadWord, BigNumber;
    LoadedNumber(b, i);
    BigNumberBits(b[8 * i..8 * i + 8], j);
  }

  /** So have the words that make up the digest. */
  lemma {:induction false} StoredBits(s: seq<word>, k: nat, j: nat)
    requires k < |s| && j < 64
    ensures BitAt(StoreWords(s), 64 * k + j) == Bit(s[k], 63 - j)
  {
    hide Bit, BigEndian;
    var n := |s| - 1;
    if k < n {
      StoredBits(s[..n], k, j);
    } else {
      BigEndianBits(s[n], 8, j);
      assert StoreWords(s)[8 * k + j / 8] == BigEndian(s[n], 8)[j / 8];
    }
  }

  // The recurrences ----------------------------------------------------------------------------------------

  /** The schedule, section 6.4.2, step 1 */
  lemma ScheduleWords(b: seq<byte>, t: nat)
    requires |b| == 128 && t < 80
    ensures var w := Schedule(LoadBlock(b));
      w[t] == if t < 16 then LoadWord(b, t)
        else (Mix1(w[t - 2]) + w[t - 7] + Mix0(w[t - 15]) + w[t - 16]) % 0x1_0000_0000_0000_0000
  {
    hide Schedule, LoadWord, Mix0, Mix1;
    ScheduleGrows(LoadBlock(b), t);
  }

  lemma {:induction false} ScheduleGrows(w: seq<word>, t: nat)
    requires 16 <= |w| <= 80 && t < 80
    ensures Schedule(w)[..|w|] == w
    ensures t >= |w| ==> var r := Schedule(w);
      r[t] == (Mix1(r[t - 2]) + r[t - 7] + Mix0(r[t - 15]) + r[t - 16]) % 0x1_0000_0000_0000_0000
    decreases 80 - |w|
  {
    hide Mix0, Mix1;
    if |w| < 80 {
      var v, n := w + [NextWord(w)], |w|;
      ScheduleGrows(v, t);
      var r := Schedule(w);
      assert r == Schedule(v) && r[..n] == r[..n + 1][..n] == w;
      if t == n {
        assert r[t - 2] == w[t - 2] && r[t - 7] == w[t - 7] && r[t - 15] == w[t - 15] && r[t - 16] == w[t - 16];
        assert r[..n + 1][n] == NextWord(w);
        SumOfFour(Mix1(w[t - 2]), w[t - 7], Mix0(w[t - 15]), w[t - 16]);
      }
    }
  }

  lemma SumOfFour(a: word, b: word, c: word, d: word)
    ensures Plus(Plus(Plus(a, b), c), d) == (a + b + c + d) % 0x1_0000_0000_0000_0000
  {
    hide Plus;
    Added(a, b);
    Added(a + b, c);
    Added(a + b + c, d);
  }

  /** The values that the variable a takes, after d, c and b at the start */
  function ValueA(s: seq<word>, w: seq<word>, i: nat): word
    requires |s| == 8 && |w| <= 80 && i <= |w| + 3
  {
    if i < 3 then s[3 - i] else Rounds(FromState(s), w[..i - 3]).a
  }

  /** The values that the variable e takes, after h, g and f at the start */
  function ValueE(s: seq<word>, w: seq<word>, i: nat): word
    requires |s| == 8 && |w| <= 80 && i <= |w| + 3
  {
    if i < 3 then s[7 - i] else Rounds(FromState(s), w[..i - 3]).e
  }

  /** The other variables hold the last values of these two. */
  lemma {:induction false} LastValues(s: seq<word>, w: seq<word>, t: nat)
    requires |s| == 8 && t <= |w| <= 80
    ensures Rounds(FromState(s), w[..t]) ==
      Variables(ValueA(s, w, t + 3), ValueA(s, w, t + 2), ValueA(s, w, t + 1), ValueA(s, w, t),
                ValueE(s, w, t + 3), ValueE(s, w, t + 2), ValueE(s, w, t + 1), ValueE(s, w, t))
  {
    hide SumA, SumE, StandardCh, StandardMaj, RoundConstant, Plus;
    if t > 0 {
      LastValues(s, w, t - 1);
      assert w[..t][..t - 1] == w[..t - 1];
    }
  }

  /** Section 6.4.2, step 3: what a round makes of the last four values of each */
  lemma RoundValues(s: seq<word>, w: seq<word>, t: nat)
    requires |s| == 8 && t < |w| <= 80
    ensures var t1 := ValueE(s, w, t) + SumE(ValueE(s, w, t + 3))
        + StandardCh(ValueE(s, w, t + 3), ValueE(s, w, t + 2), ValueE(s, w, t + 1)) + RoundConstant(t) + w[t];
      && ValueE(s, w, t + 4) == (ValueA(s, w, t) + t1) % 0x1_0000_0000_0000_0000
      && ValueA(s, w, t + 4) == (t1 + SumA(ValueA(s, w, t + 3))
          + StandardMaj(ValueA(s, w, t + 3), ValueA(s, w, t + 2), ValueA(s, w, t + 1))) % 0x1_0000_0000_0000_0000
  {
    hide SumA, SumE, StandardCh, StandardMaj, RoundConstant, Rounds, Round;
    var v := Rounds(FromState(s), w[..t]);
    LastValues(s, w, t);
    RoundsStep(FromState(s), w, t);
    assert ValueA(s, w, t + 4) == Round(v, RoundConstant(t), w[t]).a;
    assert ValueE(s, w, t + 4) == Round(v, RoundConstant(t), w[t]).e;
    hide ValueA, ValueE;
    RoundSums(v, RoundConstant(t), w[t]);
  }

  lemma RoundSums(v: Variables, k: word, w: word)
    ensures var t1 := v.h + SumE(v.e) + StandardCh(v.e, v.f, v.g) + k + w;
      && Round(v, k, w).e == (v.d + t1) % 0x1_0000_0000_0000_0000
      && Round(v, k, w).a == (t1 + SumA(v.a) + StandardMaj(v.a, v.b, v.c)) % 0x1_0000_0000_0000_0000
  {
    hide SumA, SumE, StandardCh, StandardMaj, Plus;
    SumOfSeven(v.d, v.h, SumE(v.e), StandardCh(v.e, v.f, v.g), k, w, SumA(v.a), StandardMaj(v.a, v.b, v.c));
  }

  lemma SumOfSeven(d: word, h: word, s: word, c: word, k: word, w: word, a: word, m: word)
    ensures var t := Plus(Plus(Plus(Plus(h, s), c), k), w);
      && Plus(d, t) == (d + (h + s + c + k + w)) % 0x1_0000_0000_0000_0000
      && Plus(t, Plus(a, m)) == (h + s + c + k + w + a + m) % 0x1_0000_0000_0000_0000
  {
    hide Plus;
    var t: nat := h + s + c + k + w;
    Added(h, s);
    Added(h + s, c);
    Added(h + s + c, k);
    Added(h + s + c + k, w);
    Added(t, d);
    Commuted(Plus(Plus(Plus(Plus(h, s), c), k), w), d);
    AddedTwo(t, a, m);
  }

  lemma Added(x: nat, y: word)
    ensures 0 <= x % 0x1_0000_0000_0000_0000
    ensures Plus(x % 0x1_0000_0000_0000_0000, y) == (x + y) % 0x1_0000_0000_0000_0000
    ensures x < 0x1_0000_0000_0000_0000 ==> x % 0x1_0000_0000_0000_0000 == x
  {
  }

  lemma AddedTwo(x: nat, y: word, z: word)
    ensures Plus(x % 0x1_0000_0000_0000_0000, Plus(y, z)) == (x + y + z) % 0x1_0000_0000_0000_0000
  {
    Added(x, Plus(y, z));
    Remainders(y + z, x);
  }

  lemma Remainders(x: nat, y: nat)
    ensures (x % 0x1_0000_0000_0000_0000 + y) % 0x1_0000_0000_0000_0000 == (x + y) % 0x1_0000_0000_0000_0000
  {
  }

  lemma Commuted(x: word, y: word)
    ensures Plus(x, y) == Plus(y, x)
  {
  }

  function PickA(v: Variables, k: nat): word {
    if k == 0 then v.a else if k == 1 then v.b else if k == 2 then v.c else v.d
  }

  function PickE(v: Variables, k: nat): word {
    if k == 0 then v.e else if k == 1 then v.f else if k == 2 then v.g else v.h
  }

  lemma PickedValues(s: seq<word>, w: seq<word>, k: nat)
    requires |s| == 8 && |w| <= 80 && k < 4
    ensures PickA(Rounds(FromState(s), w), k) == ValueA(s, w, |w| + 3 - k)
    ensures PickE(Rounds(FromState(s), w), k) == ValueE(s, w, |w| + 3 - k)
  {
    hide Rounds, ValueA, ValueE;
    LastValues(s, w, |w|);
    assert w[..|w|] == w;
  }

  /** Step 4: the last four values of each are added to the hash value. */
  lemma CompressedWords(s: seq<word>, b: seq<byte>, k: nat)
    requires |s| == 8 && |b| == 128 && k < 4
    ensures var w := Schedule(LoadBlock(b));
      && Compress(s, b)[k] == (s[k] + ValueA(s, w, 83 - k)) % 0x1_0000_0000_0000_0000
      && Compress(s, b)[4 + k] == (s[4 + k] + ValueE(s, w, 83 - k)) % 0x1_0000_0000_0000_0000
  {
    hide *;
    var words := Schedule(LoadBlock(b));
    var v := Rounds(FromState(s), words);
    CompressedIs(s, b, v);
    FeedbackWords(s, v, k);
    PickedValues(s, words, k);
    Sum(s[k], PickA(v, k));
    Sum(s[4 + k], PickE(v, k));
  }

  lemma CompressedIs(s: seq<word>, b: seq<byte>, v: Variables)
    requires |s| == 8 && |b| == 128 && v == Rounds(FromState(s), Schedule(LoadBlock(b)))
    ensures Compress(s, b) == Feedback(s, v)
  {
    hide Rounds, FromState, Schedule, LoadBlock, Feedback;
  }

  lemma Sum(x: word, y: word)
    ensures Plus(x, y) == (x + y) % 0x1_0000_0000_0000_0000
  {
  }

  lemma FeedbackWords(s: seq<word>, v: Variables, k: nat)
    requires |s| == 8 && k < 4
    ensures Feedback(s, v)[k] == Plus(s[k], PickA(v, k)) && Feedback(s, v)[4 + k] == Plus(s[4 + k], PickE(v, k))
  {
    hide Plus;
  }

  // The blocks, section 6.4.2 ------------------------------------------------------------------------------

  lemma {:induction false} BlockAt(m: seq<byte>, i: nat)
    requires |m| % 128 == 0 && 128 * i < |m|
    ensures |Blocks(m)| == |m| / 128 && Blocks(m)[i] == m[128 * i..128 * i + 128]
    decreases |m|
  {
    if i > 0 {
      BlockAt(m[128..], i - 1);
      assert m[128..][128 * (i - 1)..128 * i] == m[128 * i..128 * i + 128];
    } else if |m| > 128 {
      BlockAt(m[128..], 0);
    }
  }

  /** The hash value after i blocks of the padded message */
  function HashValue(m: seq<byte>, i: nat): (s: seq<word>)
    requires i <= |Blocks(Padded(m))|
    ensures |s| == 8
  {
    Fold(InitialState(), Blocks(Padded(m))[..i])
  }

  /** It starts from the initial one, each block is compressed into it, and the last one is the digest. */
  lemma HashValues(m: seq<byte>, i: nat)
    requires 128 * i < |Padded(m)|
    ensures |Blocks(Padded(m))| == |Padded(m)| / 128
    ensures HashValue(m, 0) == InitialState()
    ensures HashValue(m, i + 1) == Compress(HashValue(m, i), Padded(m)[128 * i..128 * i + 128])
    ensures Digest(m) == StoreWords(HashValue(m, |Padded(m)| / 128))
  {
    hide Padded, Blocks, Compress, InitialState, StoreWords;
    var p := Padded(m);
    var bs := Blocks(p);
    BlockAt(p, i);
    assert bs[..i + 1][..i] == bs[..i];
    assert bs[..|p| / 128] == bs;
  }
}
