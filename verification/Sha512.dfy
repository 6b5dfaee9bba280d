/** native/common/ed25519_orlp/src/sha512.c: the streaming hash. */
module Sha512 {
  import opened Ints
  import opened Bits
  import opened Bytes
  import opened Words
  import opened Sha512Standard

  // Big-endian words in bytes ------------------------------------------------------------------------

  /** LOAD64H of the eight bytes from 8 * i on */
  method Load64(b: seq<byte>, i: nat) returns (x: word)
    requires 8 * i + 8 <= |b|
    ensures x == LoadWord(b, i)
  {
    hide *;
    BytePowers();
    var y := b[8 * i..8 * i + 8];
    var x16: nat := Join(y[7], y[6], 8);
    var x24: nat := Join(x16, y[5], 16);
    var x32: nat := Join(x24, y[4], 24);
    var x40: nat := Join(x32, y[3], 32);
    var x48: nat := Join(x40, y[2], 40);
    var x56: nat := Join(x48, y[1], 48);
    x := Join(x56, y[0], 56);
    WordParts(b, i, y[0], y[1], y[2], y[3], y[4], y[5], y[6], y[7]);
  }

  lemma WordParts(b: seq<byte>, i: nat, y0: byte, y1: byte, y2: byte, y3: byte, y4: byte, y5: byte, y6: byte, y7: byte)
    requires 8 * i + 8 <= |b| && [y0, y1, y2, y3, y4, y5, y6, y7] == b[8 * i..8 * i + 8]
    ensures LoadWord(b, i) as int == y0 as int * 0x100_0000_0000_0000 + y1 as int * 0x1_0000_0000_0000
      + y2 as int * 0x100_0000_0000
      + y3 as int * 0x1_0000_0000 + y4 as int * 0x100_0000 + y5 as int * 0x1_0000 + y6 as int * 0x100 + y7 as int
  {
    var s := b[8 * i..8 * i + 8];
    assert s[0] == y0 && s[1] == y1 && s[2] == y2 && s[3] == y3 && s[4] == y4 && s[5] == y5 && s[6] == y6 && s[7] == y7;
  }

  lemma BytePowers()
    ensures Pow2(8) == 0x100 && Pow2(16) == 0x1_0000 && Pow2(24) == 0x100_0000 && Pow2(32) == 0x1_0000_0000
    ensures Pow2(40) == 0x100_0000_0000 && Pow2(48) == 0x1_0000_0000_0000 && Pow2(56) == 0x100_0000_0000_0000
  {
    hide Pow2;
    Powers();
    Pow2Add(16, 16);
    Pow2Add(24, 16);
    Pow2Add(24, 24);
    Pow2Add(32, 24);
  }

  /** STORE64H */
  method Store64(x: word) returns (b: seq<byte>)
    ensures b == BigEndian(x, 8)
  {
    hide Pow2, Low;
    BytePowers();
    b := [Low(Shr(x, 0x100_0000_0000_0000), 8), Low(Shr(x, 0x1_0000_0000_0000), 8), Low(Shr(x, 0x100_0000_0000), 8),
      Low(Shr(x, 0x1_0000_0000), 8), Low(Shr(x, 0x100_0000), 8), Low(Shr(x, 0x1_0000), 8), Low(Shr(x, 0x100), 8),
          Low(x, 8)];
    HighBytes(x);
  }

  lemma HighBytes(x: nat)
    ensures ByteAt(x, 7) == x / 0x100_0000_0000_0000 % 0x100 && ByteAt(x, 6) == x / 0x1_0000_0000_0000 % 0x100
    ensures ByteAt(x, 5) == x / 0x100_0000_0000 % 0x100 && ByteAt(x, 4) == x / 0x1_0000_0000 % 0x100
    ensures ByteAt(x, 3) == x / 0x100_0000 % 0x100 && ByteAt(x, 2) == x / 0x1_0000 % 0x100
    ensures ByteAt(x, 1) == x / 0x100 % 0x100 && ByteAt(x, 0) == x % 0x100
  {
    hide Pow2;
    BytePowers();
    assert Pow2(0) == 1 by { Pow2Add(0, 8); }
  }

  // One block ----------------------------------------------------------------------------------------

  lemma RoundStandard(v: Variables, k: word, w: word)
    ensures var t0 := Plus(Plus(Plus(Plus(v.h, SumE(v.e)), Ch(v.e, v.f, v.g)), k), w);
      var t1 := Plus(SumA(v.a), Maj(v.a, v.b, v.c));
      Round(v, k, w) == Variables(Plus(t0, t1), v.a, v.b, v.c, Plus(v.d, t0), v.e, v.f, v.g)
  {
    ChMajStandard(v.e, v.f, v.g);
    ChMajStandard(v.a, v.b, v.c);
  }

  /** The working variables where a round of the source keeps them. */
  function View(S: seq<word>, a: nat, b: nat, c: nat, d: nat, e: nat, f: nat, g: nat, h: nat): Variables
    requires |S| == 8 && a < 8 && b < 8 && c < 8 && d < 8 && e < 8 && f < 8 && g < 8 && h < 8
  {
    Variables(S[a], S[b], S[c], S[d], S[e], S[f], S[g], S[h])
  }

  /** RND: a round that, rather than move every variable, changes two and renames the rest. */
  method Rnd(S: array<word>, a: nat, b: nat, c: nat, d: nat, e: nat, f: nat, g: nat, h: nat, k: word, w: word)
    requires S.Length == 8 && a < 8 && b < 8 && c < 8 && d < 8 && e < 8 && f < 8 && g < 8 && h < 8
    requires d != a && d != b && d != c && d != e && d != f && d != g
    requires h != a && h != b && h != c && h != d && h != e && h != f && h != g
    modifies S
    ensures View(S[..], h, a, b, c, d, e, f, g) == Round(old(View(S[..], a, b, c, d, e, f, g, h)), k, w)
  {
    hide Plus, SumA, SumE, Ch, Maj, Round;
    RoundStandard(View(S[..], a, b, c, d, e, f, g, h), k, w);
    var t0 := Plus(Plus(Plus(Plus(S[h], SumE(S[e])), Ch(S[e], S[f], S[g])), k), w);
    var t1 := Plus(SumA(S[a]), Maj(S[a], S[b], S[c]));
    S[d] := Plus(S[d], t0);
    S[h] := Plus(t0, t1);
  }

  /** Eight rounds, after which the names are back where they were. */
  method EightRounds(S: array<word>, W: seq<word>, i: nat, ghost v: Variables)
    requires S.Length == 8 && |W| == 80 && i + 8 <= 80
    requires FromState(S[..]) == Rounds(v, W[..i])
    modifies S
    ensures FromState(S[..]) == Rounds(v, W[..i + 8])
  {
    hide Round, Rounds, RoundConstant;
    RoundsStep(v, W, i); RoundsStep(v, W, i + 1); RoundsStep(v, W, i + 2); RoundsStep(v, W, i + 3);
    RoundsStep(v, W, i + 4); RoundsStep(v, W, i + 5); RoundsStep(v, W, i + 6); RoundsStep(v, W, i + 7);
    Rnd(S, 0, 1, 2, 3, 4, 5, 6, 7, RoundConstant(i + 0), W[i + 0]);
    Rnd(S, 7, 0, 1, 2, 3, 4, 5, 6, RoundConstant(i + 1), W[i + 1]);
    Rnd(S, 6, 7, 0, 1, 2, 3, 4, 5, RoundConstant(i + 2), W[i + 2]);
    Rnd(S, 5, 6, 7, 0, 1, 2, 3, 4, RoundConstant(i + 3), W[i + 3]);
    Rnd(S, 4, 5, 6, 7, 0, 1, 2, 3, RoundConstant(i + 4), W[i + 4]);
    Rnd(S, 3, 4, 5, 6, 7, 0, 1, 2, RoundConstant(i + 5), W[i + 5]);
    Rnd(S, 2, 3, 4, 5, 6, 7, 0, 1, RoundConstant(i + 6), W[i + 6]);
    Rnd(S, 1, 2, 3, 4, 5, 6, 7, 0, RoundConstant(i + 7), W[i + 7]);
  }

  /** W[0..15] */
  method LoadWords(W: array<word>, block: seq<byte>)
    requires W.Length == 80 && |block| == 128
    modifies W
    ensures W[..16] == LoadBlock(block)
  {
    hide LoadWord;
    for i := 0 to 16
      invariant forall k :: 0 <= k < i ==> W[k] == LoadWord(block, k)
    {
      W[i] := Load64(block, i);
    }
  }

  /** W[0..79] */
  method FillSchedule(block: seq<byte>) returns (W: array<word>)
    requires |block| == 128
    ensures fresh(W) && W.Length == 80 && W[..] == Schedule(LoadBlock(block))
  {
    hide LoadBlock, NextWord, Schedule, Plus, Mix0, Mix1;
    W := new word[80];
    LoadWords(W, block);
    for i := 16 to 80
      invariant Schedule(W[..i]) == Schedule(LoadBlock(block))
    {
      ghost var w := W[..i];
      NextWordIs(w);
      ScheduleStep(w);
      W[i] := Plus(Plus(Plus(Mix1(W[i - 2]), W[i - 7]), Mix0(W[i - 15])), W[i - 16]);
      assert W[..i + 1] == w + [NextWord(w)];
    }
    assert W[..80] == W[..];
    ScheduleDone(W[..]);
  }

  lemma ScheduleStep(w: seq<word>)
    requires 16 <= |w| < 80
    ensures Schedule(w) == Schedule(w + [NextWord(w)])
  {
  }

  lemma NextWordIs(w: seq<word>)
    requires 16 <= |w|
    ensures var i := |w|; NextWord(w) == Plus(Plus(Plus(Mix1(w[i - 2]), w[i - 7]), Mix0(w[i - 15])), w[i - 16])
  {
  }

  lemma ScheduleDone(w: seq<word>)
    requires |w| == 80
    ensures Schedule(w) == w
  {
  }

  /** sha512_compress on a state array */
  method CompressBlock(state: array<word>, block: seq<byte>)
    requires state.Length == 8 && |block| == 128
    modifies state
    ensures state[..] == Compress(old(state[..]), block)
  {
    hide Schedule, LoadBlock, Rounds, Plus;
    var S := new word[8];
    for i := 0 to 8
      invariant state[..] == old(state[..])
      invariant forall k :: 0 <= k < i ==> S[k] == state[k]
    {
      S[i] := state[i];
    }
    assert S[..] == state[..];
    var W := FillSchedule(block);
    ghost var v, w := FromState(state[..]), W[..];
    NoRounds(v, w);
    for j := 0 to 10
      invariant state[..] == old(state[..])
      invariant W[..] == w && FromState(S[..]) == Rounds(v, w[..8 * j])
    {
      EightRounds(S, W[..], 8 * j, v);
    }
    assert FromState(S[..]) == Rounds(v, w) by { assert w[..8 * 10] == w; }
    for i := 0 to 8
      invariant FromState(S[..]) == Rounds(v, w)
      invariant forall k :: 0 <= k < i ==> state[k] == Plus(old(state[k]), S[k])
      invariant forall k :: i <= k < 8 ==> state[k] == old(state[k])
    {
      state[i] := Plus(state[i], S[i]);
    }
  }

  lemma NoRounds(v: Variables, w: seq<word>)
    ensures Rounds(v, w[..0]) == v
  {
  }

  // Streaming ------------------------------------------------------------------------------------------

  /** The padding of the source: the upper half of the length is always zero. */
  function Padded64(m: seq<byte>): (p: seq<byte>)
    ensures |p| % 128 == 0
  {
    m + [0x80] + ZeroBytes(Gap(|m|) + 8) + BigEndian(8 * |m| % 0x1_0000_0000_0000_0000, 8)
  }

  /** What the source computes for a message of any length */
  function Hash(m: seq<byte>): (d: seq<byte>)
    ensures |d| == 64
  {
    StoreWords(Fold(InitialState(), Blocks(Padded64(m))))
  }

  /** For messages of fewer than 2^64 bits that is SHA-512. */
  lemma HashIsStandard(m: seq<byte>)
    requires 8 * |m| < 0x1_0000_0000_0000_0000
    ensures Hash(m) == Digest(m)
  {
    hide Padded, Padded64, Fold, Blocks, StoreWords, InitialState;
    ShortPadding(m);
  }

  lemma ShortPadding(m: seq<byte>)
    requires 8 * |m| < 0x1_0000_0000_0000_0000
    ensures Padded64(m) == Padded(m)
  {
    hide BigEndian, ZeroBytes;
    LengthBytes(8 * |m|);
    JoinZeros(Gap(|m|), 8);
    PaddingAgrees(m, ZeroBytes(Gap(|m|)), ZeroBytes(8), BigEndian(8 * |m|, 8));
  }

  /** Of the messages that the standard is for, those are the only ones with its padding. */
  lemma PaddingIsStandard(m: seq<byte>)
    requires 8 * |m| < 0x1_0000_0000_0000_0000_0000_0000_0000_0000
    ensures Padded64(m) == Padded(m) <==> 8 * |m| < 0x1_0000_0000_0000_0000
  {
    var x := 8 * |m|;
    if x < 0x1_0000_0000_0000_0000 {
      ShortPadding(m);
    } else if Padded64(m) == Padded(m) {
      var n: nat := 16;
      LengthFields(m);
      forall k | 8 <= k < n ensures ByteAt(x, k) == 0 {
        assert BigEndian(x, n)[n - 1 - k] == ByteAt(x, k);
      }
      FourWords(n);
      HighBytesZero(x, n);
      WordSize();
    }
  }

  /** Where the two paddings have their length fields, the short one has zeros first. */
  lemma LengthFields(m: seq<byte>)
    requires Padded64(m) == Padded(m)
    ensures forall k :: 0 <= k < 8 ==> BigEndian(8 * |m|, 16)[k] == 0
  {
    hide BigEndian;
    var x, g, p := 8 * |m|, Gap(|m|), Padded(m);
    var head := m + [0x80];
    forall k | 0 <= k < 8 ensures BigEndian(x, 16)[k] == 0 {
      assert p[|head| + g + k] == BigEndian(x, 16)[k];
      assert Padded64(m)[|head| + g + k] == ZeroBytes(g + 8)[g + k] == 0;
    }
  }

  lemma FourWords(n: nat)
    requires n == 16
    ensures Pow2(8 * n) == 0x1_0000_0000_0000_0000_0000_0000_0000_0000
  {
    hide Pow2;
    WordSize();
    Pow2Add(64, 64);
  }

  lemma {:induction false} HighBytesZero(x: nat, n: nat)
    requires 8 <= n && x < Pow2(8 * n) && forall k :: 8 <= k < n ==> ByteAt(x, k) == 0
    ensures x < Pow2(64)
  {
    if n > 8 {
      var k := n - 1;
      assert ByteAt(x, k) == 0;
      Powers();
      hide Pow2;
      Pow2Add(8 * k, 8);
      TopByteZero(x, Pow2(8 * k));
      HighBytesZero(x, k);
    }
  }

  lemma TopByteZero(x: nat, p: int)
    requires p > 0 && x < p * 0x100 && x / p % 0x100 == 0
    ensures x < p
  {
    var q, r := x / p, x % p;
    assert x == p * q + r;
  }

  lemma PaddingAgrees(m: seq<byte>, y: seq<byte>, z: seq<byte>, b: seq<byte>)
    ensures m + [0x80] + (y + z) + b == m + [0x80] + y + (z + b)
  {
  }

  lemma LengthBytes(x: nat)
    requires x < 0x1_0000_0000_0000_0000
    ensures BigEndian(x, 16) == ZeroBytes(8) + BigEndian(x, 8)
  {
    hide ByteAt;
    forall k | 8 <= k < 16 ensures ByteAt(x, k) == 0 {
      HighByteZero(x, k);
    }
  }

  lemma HighByteZero(x: nat, k: nat)
    requires x < 0x1_0000_0000_0000_0000 && k >= 8
    ensures ByteAt(x, k) == 0
  {
    WordSize();
    hide Pow2;
    Pow2Add(64, 8 * k - 64);
    var p := Pow2(8 * k);
    assert p >= Pow2(64) by { GrowingPower(Pow2(64), Pow2(8 * k - 64), p); }
    DivModUnique(x, p, 0, x);
  }

  lemma GrowingPower(a: int, b: int, p: int)
    requires a > 0 && b > 0 && p == a * b
    ensures p >= a
  {
    MulNonneg(a, b - 1);
    assert a * (b - 1) == a * b - a;
  }

  class Sha512Context {
    var length: word
    const state: array<word>
    var curlen: nat
    const buf: array<byte>

    constructor ()
      ensures Valid() && fresh(state) && fresh(buf)
    {
      state, buf := new word[8], new byte[128];
    }

    predicate Valid() {
      state.Length == 8 && buf.Length == 128
    }

    /** The state after the blocks of m. */
    ghost predicate Compressed(m: seq<byte>)
      reads state
    {
      Valid() && |m| % 128 == 0 && state[..] == Fold(InitialState(), Blocks(m))
    }

    /** The same, and their bits counted. */
    ghost predicate Folded(m: seq<byte>)
      reads this`length, state
    {
      Compressed(m) && length == 8 * |m| % 0x1_0000_0000_0000_0000
    }

    /** p, and what the buffer holds after it */
    ghost function Pending(p: seq<byte>): seq<byte>
      requires Valid() && curlen <= 128
      reads this`curlen, buf
    {
      p + buf[..curlen]
    }

    /** All of m has gone in: its whole blocks into the state, the rest into the buffer. */
    ghost predicate Absorbed(m: seq<byte>)
      reads this, state, buf
    {
      && Valid() && curlen < 128 && curlen <= |m|
      && Folded(m[..|m| - curlen]) && buf[..curlen] == m[|m| - curlen..]
    }

    method Init()
      requires Valid()
      modifies this, state
      ensures Absorbed([])
    {
      hide Fold, Blocks, InitialState;
      curlen := 0;
      length := 0;
      var s := InitialState();
      state[0], state[1], state[2], state[3], state[4], state[5], state[6], state[7] :=
        s[0], s[1], s[2], s[3], s[4], s[5], s[6], s[7];
      assert state[..] == s;
      FoldNothing(s);
    }

    /** sha512_compress */
    method AppendBlock(b: seq<byte>, ghost m: seq<byte>)
      requires Compressed(m) && |b| == 128
      modifies state
      ensures Compressed(m + b)
    {
      hide Compress, Blocks;
      BlocksAppend(m, b);
      FoldLast(Blocks(m), b);
      CompressBlock(state, b);
    }

    /** sha512_compress, and the count of the bits compressed */
    method AbsorbBlock(b: seq<byte>, ghost m: seq<byte>)
      requires Folded(m) && |b| == 128
      modifies this`length, state
      ensures Folded(m + b)
    {
      hide Compressed;
      AppendBlock(b, m);
      length := Plus(length, 128 * 8);
    }

    /** sha512_update: absorbs the input, however the message is cut into inputs. */
    method Update(input: seq<byte>, ghost m: seq<byte>)
      requires Absorbed(m)
      modifies this, state, buf
      ensures Absorbed(m + input)
    {
      hide Folded, Pending;
      var k := 0;
      ghost var p := m[..|m| - curlen];
      Uncut(m, p);
      assert m + input[..0] == m;
      while k < |input|
        invariant k <= |input| && curlen < 128 && Folded(p)
        invariant Pending(p) == m + input[..k]
      {
        if curlen == 0 && |input| - k >= 128 {
          var b := input[k..k + 128];
          NextInput(m, input, k, 128);
          AbsorbBlock(b, p);
          PendingEmpty(p, b);
          p := p + b;
          k := k + 128;
        } else {
          var n := if |input| - k < 128 - curlen then |input| - k else 128 - curlen;
          NextInput(m, input, k, n);
          CopyIn(input[k..k + n], p);
          k := k + n;
          if curlen == 128 {
            AbsorbBlock(buf[..], p);
            PendingFull(p);
            p := p + buf[..];
            curlen := 0;
            PendingEmpty(p, []);
          }
        }
      }
      assert input[..k] == input;
      Recut(m + input, p);
    }

    lemma NextInput(m: seq<byte>, input: seq<byte>, k: nat, n: nat)
      requires k + n <= |input|
      ensures m + input[..k] + input[k..k + n] == m + input[..k + n]
    {
    }

    lemma PendingEmpty(p: seq<byte>, b: seq<byte>)
      requires Valid() && curlen == 0
      ensures Pending(p) == p && Pending(p + b) == p + b
    {
    }

    lemma PendingFull(p: seq<byte>)
      requires Valid() && curlen == 128
      ensures Pending(p) == p + buf[..]
    {
    }

    lemma Uncut(m: seq<byte>, p: seq<byte>)
      requires Valid() && curlen <= 128 && curlen <= |m| && p == m[..|m| - curlen] && buf[..curlen] == m[|m| - curlen..]
      ensures Pending(p) == m
    {
    }

    lemma Recut(m: seq<byte>, p: seq<byte>)
      requires Valid() && curlen < 128 && Folded(p) && Pending(p) == m
      ensures Absorbed(m)
    {
      hide Folded;
      assert m[..|m| - curlen] == p && m[|m| - curlen..] == buf[..curlen];
    }

    /** Appends bytes to the unfinished block. */
    method CopyIn(b: seq<byte>, ghost p: seq<byte>)
      requires Valid() && curlen + |b| <= 128
      modifies this`curlen, buf
      ensures curlen == old(curlen) + |b| && Pending(p) == old(Pending(p)) + b
    {
      for i := 0 to |b|
        invariant curlen == old(curlen)
        invariant buf[..curlen + i] == old(buf[..curlen]) + b[..i]
      {
        buf[i + curlen] := b[i];
      }
      assert b[..|b|] == b;
      curlen := curlen + |b|;
    }

    /** Fills the unfinished block with zeros up to a length. */
    method ZeroFill(n: nat, ghost p: seq<byte>)
      requires Valid() && curlen <= n <= 128
      modifies this`curlen, buf
      ensures curlen == n && Pending(p) == old(Pending(p)) + ZeroBytes(n - old(curlen))
    {
      while curlen < n
        invariant old(curlen) <= curlen <= n
        invariant buf[..curlen] == old(buf[..curlen]) + ZeroBytes(curlen - old(curlen))
      {
        ghost var z := ZeroBytes(curlen - old(curlen));
        buf[curlen] := 0;
        curlen := curlen + 1;
        assert ZeroBytes(curlen - old(curlen)) == z + [0];
      }
    }

    /** If the byte 0x80 ends beyond byte 112, zeros fill the block and another one begins. */
    method EndBlock(ghost p: seq<byte>) returns (ghost q: seq<byte>, ghost z: nat)
      requires Valid() && Compressed(p) && curlen <= 128
      modifies this`curlen, state, buf
      ensures Compressed(q) && curlen <= 112 && Pending(q) == old(Pending(p)) + ZeroBytes(z)
      ensures if old(curlen) > 112 then curlen == 0 && z == 128 - old(curlen) else curlen == old(curlen) && z == 0
    {
      hide Compressed, ZeroBytes, Pending;
      q, z := p, 0;
      JoinZeros(0, 0);
      if curlen > 112 {
        z := 128 - curlen;
        ZeroFill(128, p);
        AppendBlock(buf[..], p);
        PendingFull(p);
        q := p + buf[..];
        curlen := 0;
        PendingEmpty(q, []);
      }
    }

    /** The padding up to the length field */
    method Pad(ghost m: seq<byte>, ghost p: seq<byte>) returns (ghost q: seq<byte>)
      requires Valid() && Compressed(p) && curlen < 128 && Pending(p) == m
      modifies this`curlen, state, buf
      ensures curlen == 120 && Compressed(q) && Pending(q) == m + [0x80] + ZeroBytes(Gap(|m|) + 8)
    {
      hide Compressed, ZeroBytes, Gap, Pending;
      GapOfRest(m, p);
      ghost var k := Gap(|m|) + 8;
      CopyIn([0x80], p);
      ghost var z;
      q, z := EndBlock(p);
      ghost var w := m + [0x80];
      AssociateZeros(w, z, 120 - curlen);
      assert z + (120 - curlen) == k;
      ZeroFill(120, q);
    }

    lemma GapOfRest(m: seq<byte>, p: seq<byte>)
      requires Compressed(p) && curlen < 128 && Pending(p) == m
      ensures Gap(|m|) + 8 == if curlen < 112 then 119 - curlen else 247 - curlen
    {
      GapSize(m, p, curlen);
    }

    /** sha512_final */
    method Final(out: array<byte>, ghost m: seq<byte>)
      requires Absorbed(m) && out.Length == 64 && out != buf
      modifies this, state, buf, out
      ensures out[..] == Hash(m)
    {
      hide Compressed, Hash, ZeroBytes, Gap, Pending;
      ghost var p := m[..|m| - curlen];
      Uncut(m, p);
      BitLength(m, |p|);
      length := Plus(length, curlen * 8);
      p := Pad(m, p);
      Finish(out, m, p);
    }

    /** The length field, the last block and the output */
    method Finish(out: array<byte>, ghost m: seq<byte>, ghost p: seq<byte>)
      requires Valid() && out.Length == 64 && out != buf && curlen == 120
      requires Compressed(p) && Pending(p) == m + [0x80] + ZeroBytes(Gap(|m|) + 8)
      requires length == 8 * |m| % 0x1_0000_0000_0000_0000
      modifies state, buf, out
      ensures out[..] == Hash(m)
    {
      hide Compressed, Hash, BigEndian, ZeroBytes, Gap, Padded64;
      PaddedIs(m, Pending(p));
      var size := Store64(length);
      StoreLength(size, p);
      AppendBlock(buf[..], p);
      Output(out, p + buf[..]);
      HashOfPadded(m, p + buf[..]);
    }

    lemma PaddedIs(m: seq<byte>, w: seq<byte>)
      requires w == m + [0x80] + ZeroBytes(Gap(|m|) + 8)
      ensures Padded64(m) == w + BigEndian(8 * |m| % 0x1_0000_0000_0000_0000, 8)
    {
    }

    lemma BitLength(m: seq<byte>, n: nat)
      requires n <= |m| < n + 128 && length == 8 * n % 0x1_0000_0000_0000_0000
      ensures Plus(length, (|m| - n) * 8) == 8 * |m| % 0x1_0000_0000_0000_0000
    {
    }

    method StoreLength(size: seq<byte>, ghost p: seq<byte>)
      requires Valid() && |size| == 8 && curlen == 120
      modifies buf
      ensures p + buf[..] == old(Pending(p)) + size
    {
      buf[120], buf[121], buf[122], buf[123], buf[124], buf[125], buf[126], buf[127] :=
        size[0], size[1], size[2], size[3], size[4], size[5], size[6], size[7];
      assert buf[..] == buf[..120] + size;
    }

    /** Writes the eight state words, each with its highest byte first. */
    method Output(out: array<byte>, ghost p: seq<byte>)
      requires Compressed(p) && out.Length == 64 && out != buf
      modifies out
      ensures out[..] == StoreWords(Fold(InitialState(), Blocks(p)))
    {
      hide BigEndian, Fold, Blocks;
      ghost var s := state[..];
      for i := 0 to 8
        invariant state[..] == s && out[..8 * i] == StoreWords(s[..i])
      {
        var b := Store64(state[i]);
        ghost var done := out[..8 * i];
        StoreBytes(out, 8 * i, b);
        assert out[..8 * i + 8] == done + b;
        assert s[..i + 1][..i] == s[..i];
      }
      assert s[..8] == s && out[..64] == out[..];
    }
  }

  lemma FoldNothing(s: seq<word>)
    requires |s| == 8
    ensures Fold(s, Blocks([])) == s
  {
  }

  lemma FoldLast(bs: seq<block>, b: block)
    ensures Fold(InitialState(), bs + [b]) == Compress(Fold(InitialState(), bs), b)
  {
    hide Compress;
    assert (bs + [b])[..|bs|] == bs;
  }

  lemma GapSize(m: seq<byte>, p: seq<byte>, c: nat)
    requires |p| % 128 == 0 && |m| == |p| + c && c < 128
    ensures Gap(|m|) + 8 == if c < 112 then 119 - c else 247 - c
  {
  }

  lemma AssociateZeros(w: seq<byte>, y: nat, z: nat)
    ensures w + ZeroBytes(y) + ZeroBytes(z) == w + ZeroBytes(y + z)
  {
    JoinZeros(y, z);
    hide ZeroBytes;
    assert w + ZeroBytes(y) + ZeroBytes(z) == w + (ZeroBytes(y) + ZeroBytes(z));
  }

  lemma JoinZeros(y: nat, z: nat)
    ensures ZeroBytes(y) + ZeroBytes(z) == ZeroBytes(y + z)
    ensures y == 0 ==> ZeroBytes(y) == []
  {
  }

  lemma HashOfPadded(m: seq<byte>, p: seq<byte>)
    requires p == Padded64(m)
    ensures Hash(m) == StoreWords(Fold(InitialState(), Blocks(p)))
  {
  }

  /** sha512: a message hashed in one call */
  method HashOnce(message: seq<byte>, out: array<byte>)
    requires out.Length == 64
    modifies out
    ensures out[..] == Hash(message)
  {
    hide Sha512Context.Absorbed, Hash;
    var context := new Sha512Context();
    context.Init();
    context.Update(message, []);
    assert [] + message == message;
    context.Final(out, message);
  }
}
