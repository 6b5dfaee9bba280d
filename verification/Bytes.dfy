/** Little-endian numbers, and the loads by which fe.c and sc.c take limbs out of bytes. */
module Bytes {
  import opened Ints
  import opened Bits

  /** s[0] + 256*s[1] + 256^2*s[2] + ... */
  function Nat(s: seq<int>): int {
    if s == [] then 0 else s[0] + 0x100 * Nat(s[1..])
  }

  lemma {:induction false} NatAppend(s: seq<int>, t: seq<int>)
    ensures Nat(s + t) == Nat(s) + Pow2(8 * |s|) * Nat(t)
  {
    if s == [] {
      assert s + t == t;
    } else {
      NatAppend(s[1..], t);
      assert (s + t)[1..] == s[1..] + t;
      BytePower(|s| - 1);
      Shift(Pow2(8 * |s|), Pow2(8 * (|s| - 1)), Nat(s[1..]), Nat(t));
    }
  }

  lemma BytePower(n: nat)
    ensures Pow2(8 * (n + 1)) == 0x100 * Pow2(8 * n)
  {
    Pow2Add(8, 8 * n);
    assert Pow2(8) == 0x100;
  }

  lemma Shift(p: int, p': int, a: int, b: int)
    requires p == 0x100 * p'
    ensures 0x100 * (a + p' * b) == 0x100 * a + p * b
  {
  }

  lemma {:induction false} NatBound(s: seq<byte>)
    ensures 0 <= Nat(s) < Pow2(8 * |s|)
  {
    if s != [] {
      NatBound(s[1..]);
      BytePower(|s| - 1);
    }
  }

  /** The bytes of a number are determined by the number. */
  lemma {:induction false} NatInjective(s: seq<byte>, t: seq<byte>)
    requires |s| == |t| && Nat(s) == Nat(t)
    ensures s == t
  {
    if s != [] {
      NatInjective(s[1..], t[1..]);
      assert s == [s[0]] + s[1..] && t == [t[0]] + t[1..];
    }
  }

  /** The low byte of a number */
  function Cut(x: nat): byte {
    x % 0x100
  }

  function Load3(b0: byte, b1: byte, b2: byte): (r: nat)
    ensures r == b0 as int + 0x100 * (b1 as int) + 0x1_0000 * (b2 as int)
  {
    Powers();
    Join(Join(b0, b1, 8), b2, 16)
  }

  function Load4(b0: byte, b1: byte, b2: byte, b3: byte): (r: nat)
    ensures r == b0 as int + 0x100 * (b1 as int) + 0x1_0000 * (b2 as int) + 0x100_0000 * (b3 as int)
  {
    Powers();
    Join(Load3(b0, b1, b2), b3, 24)
  }

  lemma NatFrom(s: seq<int>, i: nat)
    requires i < |s|
    ensures Nat(s[i..]) == s[i] + 0x100 * Nat(s[i + 1..])
  {
    assert s[i..][1..] == s[i + 1..];
  }

  lemma Nat8(s: seq<int>, i: nat)
    requires i + 8 <= |s|
    ensures Nat(s[i..]) == s[i] + 0x100 * s[i + 1] + 0x1_0000 * s[i + 2] + 0x100_0000 * s[i + 3]
      + 0x1_0000_0000 * s[i + 4] + 0x100_0000_0000 * s[i + 5] + 0x1_0000_0000_0000 * s[i + 6]
      + 0x100_0000_0000_0000 * s[i + 7] + 0x1_0000_0000_0000_0000 * Nat(s[i + 8..])
  {
    hide Nat;
    NatFrom(s, i); NatFrom(s, i + 1); NatFrom(s, i + 2); NatFrom(s, i + 3);
    NatFrom(s, i + 4); NatFrom(s, i + 5); NatFrom(s, i + 6); NatFrom(s, i + 7);
  }

  lemma Nat16(s: seq<int>)
    requires |s| == 16
    ensures Nat(s) == s[0]
      + 0x100 * s[1] + 0x1_0000 * s[2] + 0x100_0000 * s[3] + 0x1_0000_0000 * s[4]
      + 0x100_0000_0000 * s[5] + 0x1_0000_0000_0000 * s[6] + 0x100_0000_0000_0000 * s[7]
      + 0x1_0000_0000_0000_0000 * s[8]
      + 0x100_0000_0000_0000_0000 * s[9] + 0x1_0000_0000_0000_0000_0000 * s[10]
      + 0x100_0000_0000_0000_0000_0000 * s[11] + 0x1_0000_0000_0000_0000_0000_0000 * s[12]
      + 0x100_0000_0000_0000_0000_0000_0000 * s[13] + 0x1_0000_0000_0000_0000_0000_0000_0000 * s[14]
      + 0x100_0000_0000_0000_0000_0000_0000_0000 * s[15]
  {
    assert s[0..] == s && s[16..] == [];
    assert Nat([]) == 0;
    hide Nat;
    Nat8(s, 0); Nat8(s, 8);
  }

  /** All 32 terms at once. */
  lemma Nat32(s: seq<int>)
    requires |s| == 32
    ensures Nat(s) == s[0]
      + 0x100 * s[1] + 0x1_0000 * s[2] + 0x100_0000 * s[3] + 0x1_0000_0000 * s[4]
      + 0x100_0000_0000 * s[5] + 0x1_0000_0000_0000 * s[6] + 0x100_0000_0000_0000 * s[7]
      + 0x1_0000_0000_0000_0000 * s[8]
      + 0x100_0000_0000_0000_0000 * s[9] + 0x1_0000_0000_0000_0000_0000 * s[10]
      + 0x100_0000_0000_0000_0000_0000 * s[11] + 0x1_0000_0000_0000_0000_0000_0000 * s[12]
      + 0x100_0000_0000_0000_0000_0000_0000 * s[13] + 0x1_0000_0000_0000_0000_0000_0000_0000 * s[14]
      + 0x100_0000_0000_0000_0000_0000_0000_0000 * s[15] + 0x1_0000_0000_0000_0000_0000_0000_0000_0000 * s[16]
      + 0x100_0000_0000_0000_0000_0000_0000_0000_0000 * s[17]
      + 0x1_0000_0000_0000_0000_0000_0000_0000_0000_0000 * s[18]
      + 0x100_0000_0000_0000_0000_0000_0000_0000_0000_0000 * s[19]
      + 0x1_0000_0000_0000_0000_0000_0000_0000_0000_0000_0000 * s[20]
      + 0x100_0000_0000_0000_0000_0000_0000_0000_0000_0000_0000 * s[21]
      + 0x1_0000_0000_0000_0000_0000_0000_0000_0000_0000_0000_0000 * s[22]
      + 0x100_0000_0000_0000_0000_0000_0000_0000_0000_0000_0000_0000 * s[23]
      + 0x1_0000_0000_0000_0000_0000_0000_0000_0000_0000_0000_0000_0000 * s[24]
      + 0x100_0000_0000_0000_0000_0000_0000_0000_0000_0000_0000_0000_0000 * s[25]
      + 0x1_0000_0000_0000_0000_0000_0000_0000_0000_0000_0000_0000_0000_0000 * s[26]
      + 0x100_0000_0000_0000_0000_0000_0000_0000_0000_0000_0000_0000_0000_0000 * s[27]
      + 0x1_0000_0000_0000_0000_0000_0000_0000_0000_0000_0000_0000_0000_0000_0000 * s[28]
      + 0x100_0000_0000_0000_0000_0000_0000_0000_0000_0000_0000_0000_0000_0000_0000 * s[29]
      + 0x1_0000_0000_0000_0000_0000_0000_0000_0000_0000_0000_0000_0000_0000_0000_0000 * s[30]
      + 0x100_0000_0000_0000_0000_0000_0000_0000_0000_0000_0000_0000_0000_0000_0000_0000 * s[31]
  {
    assert s[0..] == s && s[32..] == [];
    assert Nat([]) == 0;
    hide Nat;
    Nat8(s, 0); Nat8(s, 8); Nat8(s, 16); Nat8(s, 24);
  }

  method StoreBytes(s: array<byte>, o: nat, b: seq<byte>)
    requires o + |b| <= s.Length
    modifies s
    ensures s[o..o + |b|] == b && s[..o] == old(s[..o]) && s[o + |b|..] == old(s[o + |b|..])
  {
    forall i | 0 <= i < |b| { s[o + i] := b[i]; }
  }
}
