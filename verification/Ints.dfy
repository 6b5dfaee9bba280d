/** The C integer types. A variable of type int32_t or int64_t in a source is a variable of the
    subset type here, so a store that could overflow is a proof obligation. */
module Ints {
  type byte = x: int | 0 <= x < 0x100
  type int8 = x: int | -0x80 <= x < 0x80
  type int32 = x: int | -0x8000_0000 <= x < 0x8000_0000
  type int64 = x: int | -0x8000_0000_0000_0000 <= x < 0x8000_0000_0000_0000

  predicate AbsAtMost(x: int, b: int) {
    -b <= x <= b
  }

  function Pow2(n: nat): (r: int)
    ensures r > 0
    decreases n
  {
    if n == 0 then 1 else 2 * Pow2(n - 1)
  }

  lemma {:induction false} Pow2Add(m: nat, n: nat)
    ensures Pow2(m + n) == Pow2(m) * Pow2(n)
  {
    if m > 0 {
      Pow2Add(m - 1, n);
      DoubledProduct(Pow2(m), Pow2(m - 1), Pow2(n));
    }
  }

  lemma DoubledProduct(p: int, h: int, q: int)
    requires p == 2 * h
    ensures p * q == 2 * (h * q)
  {
  }

  /** The widths that the names of the types promise */
  lemma Widths(b: byte, x: int8, y: int32, z: int64)
    ensures 0 <= b as int < Pow2(8) && -Pow2(7) <= x as int < Pow2(7)
    ensures -Pow2(31) <= y as int < Pow2(31) && -Pow2(63) <= z as int < Pow2(63)
  {
    hide Pow2;
    Powers();
    Pow2Add(7, 24);
    Pow2Add(16, 16);
    Pow2Add(32, 31);
  }

  lemma Powers()
    ensures Pow2(1) == 2 && Pow2(2) == 4 && Pow2(3) == 8 && Pow2(4) == 0x10 && Pow2(5) == 0x20
    ensures Pow2(6) == 0x40 && Pow2(7) == 0x80 && Pow2(8) == 0x100 && Pow2(16) == 0x1_0000
    ensures Pow2(21) == 0x20_0000 && Pow2(23) == 0x80_0000 && Pow2(24) == 0x100_0000
    ensures Pow2(25) == 0x200_0000 && Pow2(26) == 0x400_0000
  {
    assert Pow2(8) == 0x100 && Pow2(7) == 0x80;
    hide Pow2;
    Pow2Add(8, 8);
    Pow2Add(16, 5);
    Pow2Add(16, 7);
    Pow2Add(16, 8);
    Pow2Add(24, 1);
    Pow2Add(24, 2);
  }
}
