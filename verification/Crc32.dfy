/** crc32_update of native/UserAuditSvc/src/zip_writer.cpp: a shift register, from the lowest bit of each byte. */
module Crc32 {
  import opened Ints
  import opened Bits

  type uint32 = x: int | 0 <= x < 0x1_0000_0000

  const POLYNOMIAL: uint32 := 0xEDB88320

  lemma Word32()
    ensures Pow2(32) == 0x1_0000_0000
  {
    hide Pow2;
    Powers();
    Pow2Add(16, 16);
  }

  function Xor32(a: uint32, b: uint32): uint32 {
    Word32();
    XorBound(a, b, 32);
    Xor(a, b)
  }

  /** The shift register after one bit */
  function Shifted(c: uint32): uint32 {
    if c % 2 == 1 then Xor32(c / 2, POLYNOMIAL) else c / 2
  }

  function ShiftedTimes(c: uint32, n: nat): uint32 {
    if n == 0 then c else Shifted(ShiftedTimes(c, n - 1))
  }

  /** The shift register after the bytes of a message */
  function Register(c: uint32, data: seq<byte>): uint32 {
    if data == [] then c
    else
      var n := |data| - 1;
      ShiftedTimes(Xor32(Register(c, data[..n]), data[n]), 8)
  }

  function Complement(c: uint32): uint32 {
    0xffff_ffff - c
  }

  function Crc(crc: uint32, data: seq<byte>): uint32 {
    Complement(Register(Complement(crc), data))
  }

  method Crc32Update(crc: uint32, data: seq<byte>) returns (r: uint32)
    ensures r == Crc(crc, data)
  {
    hide Shifted, Xor32;
    var c := Complement(crc);
    for i := 0 to |data|
      invariant c == Register(Complement(crc), data[..i])
    {
      assert data[..i + 1][..i] == data[..i];
      c := Xor32(c, data[i]);
      ghost var start := c;
      for bit := 0 to 8
        invariant c == ShiftedTimes(start, bit)
      {
        c := ShiftBit(c);
      }
    }
    assert data[..|data|] == data;
    r := Complement(c);
  }

  /** One bit of the register: shifted out, and if it was set the polynomial is added, by a mask. */
  method ShiftBit(crc: uint32) returns (r: uint32)
    ensures r == Shifted(crc)
  {
    hide And, Pow2, Xor;
    Word32();
    AndMask(32, POLYNOMIAL);
    AndZero(POLYNOMIAL);
    XorZero(crc / 2);
    LowBitMask(crc);
    var mask := if And(crc, 1) == 0 then 0 else 0xffff_ffff;
    r := Xor32(crc / 2, And(POLYNOMIAL, mask));
  }

  lemma LowBitMask(c: uint32)
    ensures And(c, 1) == c % 2
  {
    Powers();
    AndMask(1, c);
  }

  /** A checksum can be taken in pieces. */
  lemma {:induction false} RegisterAppend(c: uint32, a: seq<byte>, b: seq<byte>)
    ensures Register(c, a + b) == Register(Register(c, a), b)
    decreases |b|
  {
    if b == [] {
      assert a + b == a;
    } else {
      var n := |b| - 1;
      RegisterAppend(c, a, b[..n]);
      assert (a + b)[..|a| + n] == a + b[..n];
    }
  }

  lemma CrcContinues(crc: uint32, a: seq<byte>, b: seq<byte>)
    ensures Crc(Crc(crc, a), b) == Crc(crc, a + b)
  {
    RegisterAppend(Complement(crc), a, b);
  }
}
