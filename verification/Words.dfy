/** 64-bit words: uint64_t and the operators sha512.c uses on it. */
module Words {
  import opened Ints
  import opened Bits

  type word = x: int | 0 <= x < 0x1_0000_0000_0000_0000

  lemma WordSize()
    ensures Pow2(64) == 0x1_0000_0000_0000_0000
  {
    hide Pow2;
    Powers();
    Pow2Add(16, 16);
    Pow2Add(32, 32);
  }

  lemma {:induction false} AndBound(a: nat, b: nat, n: nat)
    requires a < Pow2(n)
    ensures And(a, b) < Pow2(n)
    decreases n
  {
    if n > 0 { AndBound(a / 2, b / 2, n - 1); AndHalves(a, b); }
  }

  lemma {:induction false} OrBound(a: nat, b: nat, n: nat)
    requires a < Pow2(n) && b < Pow2(n)
    ensures Or(a, b) < Pow2(n)
    decreases n
  {
    if n > 0 { OrBound(a / 2, b / 2, n - 1); OrHalves(a, b); }
  }

  predicate LowBit(a: int) {
    a % 2 == 1
  }

  lemma AndHalves(a: nat, b: nat)
    ensures And(a, b) / 2 == And(a / 2, b / 2)
    ensures LowBit(And(a, b)) <==> LowBit(a) && LowBit(b)
  {
    var p := (a % 2) * (b % 2);
    assert p == if a % 2 == 1 && b % 2 == 1 then 1 else 0;
  }

  lemma OrHalves(a: nat, b: nat)
    ensures Or(a, b) / 2 == Or(a / 2, b / 2)
    ensures LowBit(Or(a, b)) <==> LowBit(a) || LowBit(b)
  {
  }

  lemma XorBits(a: nat, b: nat)
    ensures Xor(a, b) / 2 == Xor(a / 2, b / 2)
    ensures LowBit(Xor(a, b)) <==> LowBit(a) != LowBit(b)
  {
    XorHalves(a, b);
    hide Xor;
  }

  lemma NotBits(x: nat, m: nat, p: nat)
    requires 0 <= x < 2 * p && m == 2 * p - 1 - x
    ensures m / 2 == p - 1 - x / 2 && LowBit(m) == !LowBit(x)
    ensures 0 <= x / 2 < p
  {
  }

  function Xor64(x: word, y: word): word {
    WordSize();
    XorBound(x, y, 64);
    Xor(x, y)
  }

  function And64(x: word, y: word): word {
    WordSize();
    AndBound(x, y, 64);
    And(x, y)
  }

  function Or64(x: word, y: word): word {
    WordSize();
    OrBound(x, y, 64);
    Or(x, y)
  }

  function Not64(x: word): word {
    0xffff_ffff_ffff_ffff - x
  }

  function Plus(x: word, y: word): word {
    (x + y) % 0x1_0000_0000_0000_0000
  }

  function ShiftRight(x: word, n: nat): (r: word)
    requires n < 64
  {
    hide Pow2;
    DivBounds(x, Pow2(n));
    x / Pow2(n)
  }

  /** ROR64c */
  function RotateRight(x: word, n: nat): word
    requires 0 < n < 64
  {
    Or64(ShiftRight(x, n), ShiftLeft(x, 64 - n))
  }

  function ShiftLeft(x: word, n: nat): word {
    x * Pow2(n) % 0x1_0000_0000_0000_0000
  }

  // The choice and majority functions, as sha512.c computes them and as FIPS 180-4 (section 4.1.3) states them

  function Ch(x: word, y: word, z: word): word {
    Xor64(z, And64(x, Xor64(y, z)))
  }

  function Maj(x: word, y: word, z: word): word {
    Or64(And64(Or64(x, y), z), And64(x, y))
  }

  function StandardCh(x: word, y: word, z: word): word {
    Xor64(And64(x, y), And64(Not64(x), z))
  }

  function StandardMaj(x: word, y: word, z: word): word {
    Xor64(Xor64(And64(x, y), And64(x, z)), And64(y, z))
  }

  lemma {:induction false} ChBits(x: nat, y: nat, z: nat, n: nat)
    requires x < Pow2(n) && y < Pow2(n) && z < Pow2(n)
    ensures Xor(z, And(x, Xor(y, z))) == Xor(And(x, y), And(Pow2(n) - 1 - x, z))
    decreases n
  {
    if n > 0 {
      hide *;
      PowerHalf(n);
      var p, m: nat := Pow2(n - 1), Pow2(n) - 1 - x;
      NotBits(x, m, p);
      ChBits(x / 2, y / 2, z / 2, n - 1);
      XorBits(y, z);
      AndHalves(x, Xor(y, z));
      XorBits(z, And(x, Xor(y, z)));
      AndHalves(x, y);
      AndHalves(m, z);
      XorBits(And(x, y), And(m, z));
      SameHalves(Xor(z, And(x, Xor(y, z))), Xor(And(x, y), And(m, z)));
    }
  }

  lemma PowerHalf(n: nat)
    requires n > 0
    ensures Pow2(n) == 2 * Pow2(n - 1)
  {
  }

  lemma SameHalves(a: int, b: int)
    requires a / 2 == b / 2 && LowBit(a) == LowBit(b)
    ensures a == b
  {
  }

  lemma {:induction false} MajBits(x: nat, y: nat, z: nat, n: nat)
    requires x < Pow2(n) && y < Pow2(n) && z < Pow2(n)
    ensures Or(And(Or(x, y), z), And(x, y)) == Xor(Xor(And(x, y), And(x, z)), And(y, z))
    decreases n
  {
    if n > 0 {
      hide *;
      PowerHalf(n);
      MajBits(x / 2, y / 2, z / 2, n - 1);
      OrHalves(x, y);
      AndHalves(Or(x, y), z);
      AndHalves(x, y);
      AndHalves(x, z);
      AndHalves(y, z);
      OrHalves(And(Or(x, y), z), And(x, y));
      XorBits(And(x, y), And(x, z));
      XorBits(Xor(And(x, y), And(x, z)), And(y, z));
      SameHalves(Or(And(Or(x, y), z), And(x, y)), Xor(Xor(And(x, y), And(x, z)), And(y, z)));
    }
  }

  /** The shorter forms of the source compute the standard's functions. */
  lemma ChMajStandard(x: word, y: word, z: word)
    ensures Ch(x, y, z) == StandardCh(x, y, z)
    ensures Maj(x, y, z) == StandardMaj(x, y, z)
  {
    WordSize();
    hide And, Xor, Or, Pow2;
    ChBits(x, y, z, 64);
    MajBits(x, y, z, 64);
  }
}
