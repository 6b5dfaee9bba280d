/** What crc32_update of native/UserAuditSvc/src/zip_writer.cpp computes: a remainder of polynomials over the
    field of two elements. Bit k of a number is the coefficient of x^k, so Xor adds polynomials and doubling
    multiplies one by x. */
module CrcPolynomial {
  import opened Ints
  import opened Bits
  import opened Crc32

  /** x^32 + x^26 + x^23 + x^22 + x^16 + x^12 + x^11 + x^10 + x^8 + x^7 + x^5 + x^4 + x^2 + x + 1 */
  const GENERATOR: nat := 0x1_04C1_1DB7

  /** The product of two polynomials */
  function Product(q: nat, g: nat): nat {
    if q == 0 then 0 else Xor(if q % 2 == 1 then g else 0, 2 * Product(q / 2, g))
  }

  /** r has a lower degree than the generator, and a is a multiple of the generator plus r. */
  ghost predicate IsRemainder(a: nat, r: nat) {
    r < 0x1_0000_0000 && exists q: nat :: a == Xor(Product(q, GENERATOR), r)
  }

  // The algebra of Xor -------------------------------------------------------------------------------------

  lemma {:induction false} XorCommutes(a: nat, b: nat)
    ensures Xor(a, b) == Xor(b, a)
    decreases a + b
  {
    if a + b > 0 { XorCommutes(a / 2, b / 2); }
  }

  lemma {:induction false} XorAssociates(a: nat, b: nat, c: nat)
    ensures Xor(a, Xor(b, c)) == Xor(Xor(a, b), c)
    decreases a + b + c
  {
    if a + b + c > 0 {
      XorAssociates(a / 2, b / 2, c / 2);
      XorHalves(a, b);
      XorHalves(b, c);
      XorHalves(a, Xor(b, c));
      XorHalves(Xor(a, b), c);
      hide Xor;
      Parities(a, b, c, Xor(a, b), Xor(b, c));
      SameNumber(Xor(a, Xor(b, c)), Xor(Xor(a, b), c));
    }
  }

  lemma Parities(a: int, b: int, c: int, x: int, y: int)
    requires x % 2 == (a + b) % 2 && y % 2 == (b + c) % 2
    ensures (a + y) % 2 == (x + c) % 2
  {
  }

  lemma SameNumber(x: nat, y: nat)
    requires x / 2 == y / 2 && x % 2 == y % 2
    ensures x == y
  {
  }

  lemma XorDoubled(a: nat, b: nat)
    ensures Xor(2 * a, 2 * b) == 2 * Xor(a, b)
  {
    XorHalves(2 * a, 2 * b);
    hide Xor;
    assert 2 * a / 2 == a && 2 * b / 2 == b;
  }

  /** (a + b) + (c + d) = (a + c) + (b + d) */
  lemma XorSwap(a: nat, b: nat, c: nat, d: nat)
    ensures Xor(Xor(a, b), Xor(c, d)) == Xor(Xor(a, c), Xor(b, d))
  {
    hide Xor;
    XorAssociates(a, b, Xor(c, d));
    XorAssociates(b, c, d);
    XorCommutes(b, c);
    XorAssociates(c, b, d);
    XorAssociates(a, c, Xor(b, d));
  }

  lemma XorItself(a: nat)
    ensures Xor(a, a) == 0
  {
    XorZero(a);
    XorCancels(a, 0);
  }

  // Remainders ---------------------------------------------------------------------------------------------

  lemma ProductDoubled(q: nat, g: nat)
    ensures Product(2 * q, g) == 2 * Product(q, g)
    ensures Product(2 * q + 1, g) == Xor(g, 2 * Product(q, g))
  {
    XorZero(2 * Product(q, g));
    assert 2 * q / 2 == q && (2 * q + 1) / 2 == q;
  }

  /** Multiplying by x: the remainder is doubled, and the generator is added if it has become too large. */
  lemma RemainderDoubled(a: nat, r: nat)
    requires IsRemainder(a, r)
    ensures 2 * r < 0x1_0000_0000 ==> IsRemainder(2 * a, 2 * r)
    ensures Xor(2 * r, GENERATOR) < 0x1_0000_0000 ==> IsRemainder(2 * a, Xor(2 * r, GENERATOR))
  {
    hide Xor, Product;
    var q: nat :| a == Xor(Product(q, GENERATOR), r);
    var g := GENERATOR;
    var p := Product(q, g);
    ProductDoubled(q, g);
    XorDoubled(p, r);
    assert 2 * a == Xor(Product(2 * q, g), 2 * r);
    XorSwap(2 * p, 2 * r, g, g);
    XorItself(g);
    XorZero(2 * a);
    XorCommutes(2 * p, g);
    assert 2 * a == Xor(Product(2 * q + 1, g), Xor(2 * r, g));
  }

  lemma RemainderPlus(a: nat, r: nat, e: nat)
    requires IsRemainder(a, r) && Xor(r, e) < 0x1_0000_0000
    ensures IsRemainder(Xor(a, e), Xor(r, e))
  {
    hide Xor, Product;
    var q: nat :| a == Xor(Product(q, GENERATOR), r);
    XorAssociates(Product(q, GENERATOR), r, e);
  }

  lemma {:induction false} ProductAdds(p: nat, q: nat, g: nat)
    ensures Product(Xor(p, q), g) == Xor(Product(p, g), Product(q, g))
    decreases p + q
  {
    hide Xor, Product;
    if p + q > 0 {
      ProductAdds(p / 2, q / 2, g);
      XorHalves(p, q);
      ProductSplit(p, g);
      ProductSplit(q, g);
      ProductSplit(Xor(p, q), g);
      var c, d := Product(p / 2, g), Product(q / 2, g);
      XorDoubled(c, d);
      TermsAdd(p, q, g);
      XorSwap(Term(p, g), 2 * c, Term(q, g), 2 * d);
    } else {
      XorZero(0);
      NoProduct(g);
    }
  }

  /** The lowest term of a product */
  function Term(q: nat, g: nat): nat {
    if q % 2 == 1 then g else 0
  }

  lemma TermsAdd(p: nat, q: nat, g: nat)
    ensures Term(Xor(p, q), g) == Xor(Term(p, g), Term(q, g))
  {
    hide Xor;
    XorHalves(p, q);
    ParityOfSum(p, q);
    XorItself(g);
    XorZero(g);
    XorZero(0);
  }

  lemma ParityOfSum(p: nat, q: nat)
    ensures (p + q) % 2 == if p % 2 == q % 2 then 0 else 1
  {
  }

  lemma ProductSplit(q: nat, g: nat)
    ensures Product(q, g) == Xor(Term(q, g), 2 * Product(q / 2, g))
  {
    XorZero(0);
  }

  /** A multiple of the generator other than 0 has at least its degree. */
  lemma {:induction false} ProductLarge(q: nat)
    requires q > 0
    ensures Product(q, GENERATOR) >= 0x1_0000_0000
  {
    var n: nat, g, h := 33, GENERATOR, 2 * Product(q / 2, GENERATOR);
    if q / 2 > 0 {
      ProductLarge(q / 2);
      XorZero(h);
      if Xor(g, h) < 0x2_0000_0000 {
        Word33(n);
        XorBound(g, Xor(g, h), n);
        XorCancels(g, h);
      }
    } else {
      XorZero(g);
    }
  }

  /** n is a parameter so that the verifier does not count its way down from 33. */
  lemma Word33(n: nat)
    requires n == 33
    ensures Pow2(n) == 0x2_0000_0000
  {
    Word32();
    hide Pow2;
    Powers();
    Pow2Add(1, 32);
  }

  /** There is only one remainder. */
  lemma RemainderUnique(a: nat, r: nat, r': nat)
    requires IsRemainder(a, r) && IsRemainder(a, r')
    ensures r == r'
  {
    hide Xor, Product;
    var g := GENERATOR;
    var q: nat :| a == Xor(Product(q, g), r);
    var q': nat :| a == Xor(Product(q', g), r');
    XorSwap(Product(q, g), r, Product(q', g), r');
    XorItself(a);
    ProductAdds(q, q', g);
    var m, s := Product(Xor(q, q'), g), Xor(r, r');
    Word32();
    XorBound(r, r', 32);
    XorCancels(m, s);
    XorZero(m);
    if Xor(q, q') > 0 {
      ProductLarge(Xor(q, q'));
    } else {
      NoProduct(g);
    }
    XorCancels(r, r');
    XorZero(r);
  }

  lemma NoProduct(g: nat)
    ensures Product(0, g) == 0
  {
  }

  // The register -------------------------------------------------------------------------------------------

  /** The low n bits in reverse: the register has the highest power of x in its lowest bit. */
  function Mirror(c: nat, n: nat): (r: nat)
    ensures r < Pow2(n)
  {
    if n == 0 then 0 else
      BitSmall(c, n - 1);
      Bit(c, n - 1) + 2 * Mirror(c, n - 1)
  }

  lemma {:induction false} MirrorAdds(a: nat, b: nat, n: nat)
    ensures Mirror(Xor(a, b), n) == Xor(Mirror(a, n), Mirror(b, n))
  {
    hide Xor, Mirror, Bit;
    if n > 0 {
      MirrorAdds(a, b, n - 1);
      BitAdds(a, b, n - 1);
      MirrorHalves(a, n);
      MirrorHalves(b, n);
      MirrorHalves(Xor(a, b), n);
      XorHalves(Mirror(a, n), Mirror(b, n));
      SameNumber(Mirror(Xor(a, b), n), Xor(Mirror(a, n), Mirror(b, n)));
    } else {
      XorZero(0);
      MirrorNothing(a);
      MirrorNothing(b);
      MirrorNothing(Xor(a, b));
    }
  }

  lemma MirrorHalves(c: nat, n: nat)
    requires n > 0
    ensures Mirror(c, n) / 2 == Mirror(c, n - 1) && Mirror(c, n) % 2 == Bit(c, n - 1)
  {
    BitSmall(c, n - 1);
  }

  lemma MirrorNothing(c: nat)
    ensures Mirror(c, 0) == 0
  {
  }

  lemma {:induction false} MirrorShift(c: nat, n: nat)
    ensures Mirror(c, n + 1) == Pow2(n) * (c % 2) + Mirror(c / 2, n)
  {
    if n > 0 {
      MirrorShift(c, n - 1);
      var p, b := Pow2(n - 1), c % 2;
      assert Bit(c, n) == Bit(c / 2, n - 1) && Pow2(n) == 2 * p;
      assert Mirror(c, n + 1) == Bit(c, n) + 2 * Mirror(c, n);
      assert Mirror(c / 2, n) == Bit(c / 2, n - 1) + 2 * Mirror(c / 2, n - 1);
      hide Pow2, Mirror, Bit;
      TwiceProduct(2 * p, p, b);
    }
  }

  /** The low n bits of c moved one by one to acc */
  function Moved(c: nat, n: nat, acc: nat): nat {
    if n == 0 then acc else Moved(c / 2, n - 1, 2 * acc + c % 2)
  }

  lemma {:induction false} MovedMirror(c: nat, n: nat, acc: nat)
    ensures Moved(c, n, acc) == Mirror(c, n) + Pow2(n) * acc
    decreases n
  {
    if n > 0 {
      MovedMirror(c / 2, n - 1, 2 * acc + c % 2);
      MirrorShift(c, n - 1);
      var p, q := Pow2(n - 1), Pow2(n);
      assert q == 2 * p;
      MovedTerms(p, q, acc, c % 2);
    }
  }

  lemma MovedTerms(p: int, q: int, acc: int, b: int)
    requires q == 2 * p
    ensures p * (2 * acc + b) == q * acc + p * b
  {
  }

  /** Four bits moved: d is what they are, and its reverse is what becomes of them. */
  lemma MoveFour(c: nat, d: nat, n: nat, acc: nat)
    requires d < 16
    ensures Moved(16 * c + d, n + 4, acc) == Moved(c, n, 16 * acc + 8 * (d % 2) + 4 * (d / 2 % 2) + 2 * (d / 4 % 2)
      + d / 8)
  {
    hide Moved;
    MoveOne(8 * c + d / 2, d % 2, n + 3, acc);
    MoveOne(4 * c + d / 4, d / 2 % 2, n + 2, 2 * acc + d % 2);
    MoveOne(2 * c + d / 8, d / 4 % 2, n + 1, 4 * acc + 2 * (d % 2) + d / 2 % 2);
    MoveOne(c, d / 8, n, 8 * acc + 4 * (d % 2) + 2 * (d / 2 % 2) + d / 4 % 2);
  }

  lemma MoveOne(c: nat, b: nat, n: nat, acc: nat)
    requires b < 2
    ensures Moved(2 * c + b, n + 1, acc) == Moved(c, n, 2 * acc + b)
  {
  }

  lemma MirroredPolynomial()
    ensures Mirror(POLYNOMIAL, 32) == 0x04C1_1DB7
  {
    hide Mirror, Pow2, Moved;
    MovedMirror(POLYNOMIAL, 32, 0);
    MoveFour(0xEDB8832, 0x0, 28, 0x0);
    MoveFour(0xEDB883, 0x2, 24, 0x0);
    MoveFour(0xEDB88, 0x3, 20, 0x4);
    MoveFour(0xEDB8, 0x8, 16, 0x4C);
    MoveFour(0xEDB, 0x8, 12, 0x4C1);
    MoveFour(0xED, 0xB, 8, 0x4C11);
    MoveFour(0xE, 0xD, 4, 0x4C11D);
    MoveFour(0x0, 0xE, 0, 0x4C11DB);
    NothingMoved(0x04C1_1DB7);
  }

  lemma NothingMoved(acc: nat)
    ensures Moved(0, 0, acc) == acc
  {
  }

  /** One shift of the register multiplies its polynomial by x and takes the generator away if it is too large. */
  lemma ShiftDoubles(c: uint32)
    ensures c % 2 == 1 ==> Mirror(Shifted(c), 32) == Xor(2 * Mirror(c, 32), GENERATOR)
    ensures c % 2 == 0 ==> Mirror(Shifted(c), 32) == 2 * Mirror(c, 32)
  {
    hide Xor, Mirror, Bit, Pow2;
    var m, g, h: nat := Mirror(c / 2, 32), Mirror(POLYNOMIAL, 32), 0x1_0000_0000;
    HalfMirrored(c);
    if c % 2 == 1 {
      MirrorAdds(c / 2, POLYNOMIAL, 32);
      MirroredPolynomial();
      XorTop(m);
      XorTop(g);
      XorAssociates(m, h, Xor(h, g));
      XorCommutes(h, g);
      XorCancels(h, g);
    }
  }

  lemma XorTop(m: nat)
    requires m < 0x1_0000_0000
    ensures Xor(m, 0x1_0000_0000) == m + 0x1_0000_0000
  {
    hide Xor, Pow2;
    Word32();
    XorDisjoint(32, m, 1);
  }

  lemma HalfMirrored(c: uint32)
    ensures 2 * Mirror(c, 32) == Mirror(c / 2, 32) + 0x1_0000_0000 * (c % 2) && Mirror(c / 2, 32) < 0x1_0000_0000
  {
    var n: nat := 31;
    hide Mirror, Bit, Pow2;
    PowersOf32(n);
    MirrorShift(c, n);
    BitZeroAbove(c / 2, n, n);
    MirrorHalves(c / 2, n + 1);
    hide *;
    var x, y, z := Mirror(c, n + 1), Mirror(c / 2, n), Mirror(c / 2, n + 1);
    assert x == 0x8000_0000 * (c % 2) + y && z / 2 == y && z % 2 == 0;
  }

  /** n is a parameter for the same reason. */
  lemma PowersOf32(n: nat)
    requires n == 31
    ensures Pow2(n) == 0x8000_0000 && Pow2(n + 1) == 0x1_0000_0000
  {
    hide Pow2;
    Word32();
    Powers();
    Pow2Add(1, n);
  }

  /** The polynomial of a message: its first bit is the highest coefficient, and a byte starts with its lowest bit. */
  function Message(data: seq<byte>): nat {
    if data == [] then 0
    else
      var n := |data| - 1;
      0x100 * Message(data[..n]) + Mirror(data[n], 8)
  }

  /** Shifts multiply by x, one after the other. */
  lemma {:induction false} ShiftsMultiply(a: nat, c: uint32, n: nat)
    requires IsRemainder(a, Mirror(c, 32))
    ensures Pow2(n) * a >= 0 && IsRemainder(Pow2(n) * a, Mirror(ShiftedTimes(c, n), 32))
  {
    hide Mirror, Shifted, IsRemainder;
    if n > 0 {
      ShiftsMultiply(a, c, n - 1);
      var x, s := Pow2(n - 1) * a, ShiftedTimes(c, n - 1);
      TwiceProduct(Pow2(n), Pow2(n - 1), a);
      hide Pow2;
      Word32();
      ShiftDoubles(s);
      RemainderDoubled(x, Mirror(s, 32));
      assert Mirror(Shifted(s), 32) < Pow2(32);
    }
  }

  /** After a message the register is the remainder of the message times x^32, plus the register at the start
      times x to the number of bits. */
  lemma {:induction false} RegisterIsRemainder(c: uint32, data: seq<byte>)
    ensures Pow2(8 * |data|) * Mirror(c, 32) >= 0
    ensures IsRemainder(Xor(0x1_0000_0000 * Message(data), Pow2(8 * |data|) * Mirror(c, 32)),
      Mirror(Register(c, data), 32))
  {
    hide Mirror, Pow2, Xor, IsRemainder, ShiftedTimes, Xor32;
    Word32();
    if data == [] {
      StartIsRemainder(c);
    } else {
      var n, r := |data| - 1, Mirror(c, 32);
      var b, d := Register(c, data[..n]), data[n];
      RegisterIsRemainder(c, data[..n]);
      var m, p := Message(data[..n]), Pow2(8 * n);
      assert p * r >= 0;
      var a := Xor(0x1_0000_0000 * m, p * r);
      ByteAdded(a, b, d);
      var e := 0x100_0000 * Mirror(d, 8);
      ShiftsMultiply(Xor(a, e), Xor32(b, d), 8);
      Powers();
      MessageGrows(m, p * r, Mirror(d, 8));
      Pow2Add(8, 8 * n);
      Regrouped(p, r);
    }
  }

  lemma Regrouped(p: int, r: int)
    ensures (0x100 * p) * r == 0x100 * (p * r)
  {
  }

  lemma StartIsRemainder(c: uint32)
    ensures IsRemainder(Xor(0x1_0000_0000 * Message([]), Pow2(8 * 0) * Mirror(c, 32)), Mirror(Register(c, []), 32))
  {
    hide Mirror, Xor;
    Word32();
    XorZero(Mirror(c, 32));
    NoProduct(GENERATOR);
    assert Pow2(8 * 0) == 1 && Message([]) == 0;
  }

  /** A byte is added to the low bits of the register, the high coefficients. */
  lemma ByteAdded(a: nat, b: uint32, d: byte)
    requires IsRemainder(a, Mirror(b, 32))
    ensures IsRemainder(Xor(a, 0x100_0000 * Mirror(d, 8)), Mirror(Xor32(b, d), 32))
  {
    hide Mirror, Pow2, Xor, IsRemainder;
    Word32();
    MirrorAdds(b, d, 32);
    HighMirror(d, 24);
    Powers();
    assert Mirror(Xor32(b, d), 32) < Pow2(32);
    RemainderPlus(a, Mirror(b, 32), Mirror(d, 32));
  }

  lemma {:induction false} HighMirror(d: byte, n: nat)
    ensures Mirror(d, 8 + n) == Pow2(n) * Mirror(d, 8)
  {
    if n > 0 {
      HighMirror(d, n - 1);
      var k := 7 + n;
      Powers();
      Pow2Add(8, n - 1);
      BitZeroAbove(d, k, k);
      assert Mirror(d, k + 1) == 2 * Mirror(d, k);
      TwiceProduct(Pow2(n), Pow2(n - 1), Mirror(d, 8));
    }
  }

  /** 2^8 times the old polynomial with the byte added is the new one. */
  lemma MessageGrows(m: nat, s: nat, b: nat)
    requires b < 0x100
    ensures 0x100 * Xor(Xor(0x1_0000_0000 * m, s), 0x100_0000 * b) == Xor(0x1_0000_0000 * (0x100 * m + b), 0x100 * s)
  {
    hide Xor, Pow2;
    var x, y, z: nat := 0x1_0000_0000 * m, 0x100_0000 * b, 0x100 * s;
    var u, v: nat := 0x100_0000_0000 * m, 0x1_0000_0000 * b;
    XorTimes256(Xor(x, s), y);
    XorTimes256(x, s);
    XorCommutes(Xor(u, z), v);
    XorAssociates(v, u, z);
    Powers();
    Word32();
    Pow2Add(8, 32);
    XorDisjoint(40, v, m);
  }

  lemma XorTimes256(a: nat, b: nat)
    ensures Xor(0x100 * a, 0x100 * b) == 0x100 * Xor(a, b)
  {
    hide Xor;
    XorDoubled(0x80 * a, 0x80 * b);
    XorDoubled(0x40 * a, 0x40 * b);
    XorDoubled(0x20 * a, 0x20 * b);
    XorDoubled(0x10 * a, 0x10 * b);
    XorDoubled(8 * a, 8 * b);
    XorDoubled(4 * a, 4 * b);
    XorDoubled(2 * a, 2 * b);
    XorDoubled(a, b);
  }

  /** What a reader of an archive expects to find with the data: the complement of the remainder of the message
      times x^32, with the first 32 bits of it inverted; both start at the lowest bit. */
  ghost predicate IsChecksum(data: seq<byte>, crc: int) {
    && 0 <= crc < 0x1_0000_0000 && Pow2(8 * |data|) >= 0
    && IsRemainder(Xor(0x1_0000_0000 * Message(data), Pow2(8 * |data|) * 0xffff_ffff),
                   Mirror(0xffff_ffff - crc, 32))
  }

  lemma ChecksumRange(data: seq<byte>, crc: int)
    requires IsChecksum(data, crc)
    ensures 0 <= crc < 0x1_0000_0000
  {
  }

  /** crc32_update from 0: the register starts with ones, and the result is its complement. */
  lemma CrcIsRemainder(data: seq<byte>)
    ensures IsChecksum(data, Crc(0, data))
  {
    hide Xor, Mirror, IsRemainder, Register;
    MirroredOnes();
    RegisterIsRemainder(0xffff_ffff, data);
  }

  lemma {:induction false} MirrorBits(c: nat, n: nat, k: nat)
    requires k < n
    ensures Bit(Mirror(c, n), k) == Bit(c, n - 1 - k)
  {
    MirrorHalves(c, n);
    BitSmall(c, n - 1);
    hide Mirror;
    if k > 0 { MirrorBits(c, n - 1, k - 1); }
  }

  lemma MirrorInjective(a: uint32, b: uint32)
    requires Mirror(a, 32) == Mirror(b, 32)
    ensures a == b
  {
    var n: nat := 32;
    Word32();
    hide Mirror, Pow2, Bit;
    forall k | 0 <= k < n ensures Bit(a, k) == Bit(b, k) {
      MirrorBits(a, n, n - 1 - k);
      MirrorBits(b, n, n - 1 - k);
    }
    SameBits(a, b, n);
  }

  /** The data have one checksum, and crc32_update computes it. */
  lemma ChecksumUnique(data: seq<byte>, crc: int)
    ensures IsChecksum(data, crc) <==> crc == Crc(0, data)
  {
    CrcIsRemainder(data);
    hide Xor, Mirror, IsRemainder, Register, Message, Pow2;
    if IsChecksum(data, crc) {
      var a := Xor(0x1_0000_0000 * Message(data), Pow2(8 * |data|) * 0xffff_ffff);
      RemainderUnique(a, Mirror(0xffff_ffff - crc, 32), Mirror(0xffff_ffff - Crc(0, data), 32));
      MirrorInjective(0xffff_ffff - crc, 0xffff_ffff - Crc(0, data));
    }
  }

  /** The generator, term by term */
  lemma GeneratorTerms()
    ensures GENERATOR == Pow2(32) + Pow2(26) + Pow2(23) + Pow2(22) + Pow2(16) + Pow2(12) + Pow2(11) + Pow2(10) + Pow2(8)
      + Pow2(7) + Pow2(5) + Pow2(4) + Pow2(2) + Pow2(1) + Pow2(0)
  {
    assert Pow2(0) == 1 && Pow2(10) == 0x400;
    hide Pow2;
    Word32();
    Powers();
    Pow2Add(1, 10);
    Pow2Add(2, 10);
    Pow2Add(1, 21);
  }

  lemma MirroredOnes()
    ensures Mirror(0xffff_ffff, 32) == 0xffff_ffff
  {
    hide Mirror, Pow2, Moved;
    MovedMirror(0xffff_ffff, 32, 0);
    MoveFour(0xfff_ffff, 0xf, 28, 0);
    MoveFour(0xff_ffff, 0xf, 24, 0xf);
    MoveFour(0xf_ffff, 0xf, 20, 0xff);
    MoveFour(0xffff, 0xf, 16, 0xfff);
    MoveFour(0xfff, 0xf, 12, 0xffff);
    MoveFour(0xff, 0xf, 8, 0xf_ffff);
    MoveFour(0xf, 0xf, 4, 0xff_ffff);
    MoveFour(0, 0xf, 0, 0xfff_ffff);
    NothingMoved(0xffff_ffff);
  }
}
