/** The bitwise operators of C on non-negative numbers, bit by bit. */
module Bits {
  import opened Ints

  function And(a: nat, b: nat): nat
    decreases a
  {
    if a == 0 then 0 else (a % 2) * (b % 2) + 2 * And(a / 2, b / 2)
  }

  function Xor(a: nat, b: nat): (r: nat)
    decreases a + b
  {
    if a == 0 && b == 0 then 0 else (a + b) % 2 + 2 * Xor(a / 2, b / 2)
  }

  function Or(a: nat, b: nat): nat
    decreases a + b
  {
    if a == 0 && b == 0 then 0
    else (if a % 2 == 1 || b % 2 == 1 then 1 else 0) + 2 * Or(a / 2, b / 2)
  }

  lemma {:induction false} XorZero(a: nat)
    ensures Xor(a, 0) == a && Xor(0, a) == a
    decreases a
  {
    if a != 0 { XorZero(a / 2); }
  }

  lemma XorHalves(a: nat, b: nat)
    ensures Xor(a, b) / 2 == Xor(a / 2, b / 2) && Xor(a, b) % 2 == (a + b) % 2
  {
  }

  lemma {:induction false} XorBound(a: nat, b: nat, n: nat)
    requires a < Pow2(n) && b < Pow2(n)
    ensures Xor(a, b) < Pow2(n)
    decreases n
  {
    if n > 0 { XorBound(a / 2, b / 2, n - 1); }
  }

  lemma Parity(a: int, b: int, x: int)
    requires x % 2 == (a + b) % 2
    ensures (a + x) % 2 == b % 2
  {
  }

  lemma {:induction false} XorCancels(a: nat, b: nat)
    ensures Xor(a, Xor(a, b)) == b
    decreases a
  {
    if a == 0 {
      XorZero(b);
    } else {
      XorCancels(a / 2, b / 2);
      XorHalves(a, b);
      XorHalves(a, Xor(a, b));
      Parity(a, b, Xor(a, b));
      hide Xor;
    }
  }

  lemma {:induction false} AndZero(a: nat)
    ensures And(a, 0) == 0
    decreases a
  {
    if a != 0 { AndZero(a / 2); }
  }

  /** Masking with n ones keeps the low n bits. */
  lemma {:induction false} AndMask(n: nat, a: nat)
    ensures And(a, Pow2(n) - 1) == a % Pow2(n)
    decreases n
  {
    if n == 0 {
      AndZero(a);
    } else if a != 0 {
      AndMask(n - 1, a / 2);
      var p := Pow2(n - 1);
      assert (Pow2(n) - 1) % 2 == 1 && (Pow2(n) - 1) / 2 == p - 1;
      HalfMod(a, p);
    }
  }

  lemma HalfMod(a: nat, p: nat)
    requires p > 0
    ensures a % (2 * p) == a % 2 + 2 * ((a / 2) % p)
  {
    var h := a / 2;
    var q, r := h / p, h % p;
    assert h == q * p + r;
    assert a == (2 * p) * q + (a % 2 + 2 * r);
    DivModUnique(a, 2 * p, q, a % 2 + 2 * r);
  }

  lemma DivModUnique(a: int, m: int, q: int, r: int)
    requires a == m * q + r && 0 <= r < m
    ensures a / m == q && a % m == r
  {
    var q', r' := a / m, a % m;
    assert a == m * q' + r';
    assert m * (q - q') == r' - r;
    assert q - q' >= 1 ==> m * (q - q') >= m;
    assert q - q' <= -1 ==> m * (q - q') <= -m;
  }

  /** Numbers with no one bit in common are joined by Or as by addition. */
  lemma {:induction false} OrDisjoint(n: nat, low: nat, high: nat)
    requires low < Pow2(n)
    ensures Or(low, Pow2(n) * high) == low + Pow2(n) * high
    decreases n
  {
    if n == 0 {
      OrZero(high);
    } else {
      OrDisjoint(n - 1, low / 2, high);
      var c, b := Pow2(n - 1) * high, Pow2(n) * high;
      TwiceProduct(Pow2(n), Pow2(n - 1), high);
      hide Pow2, Or;
      OrEven(low, c, b);
    }
  }

  /** So are they by Xor. */
  lemma {:induction false} XorDisjoint(n: nat, low: nat, high: nat)
    requires low < Pow2(n)
    ensures Xor(low, Pow2(n) * high) == low + Pow2(n) * high
    decreases n
  {
    if n == 0 {
      XorZero(high);
    } else {
      XorDisjoint(n - 1, low / 2, high);
      var c, b := Pow2(n - 1) * high, Pow2(n) * high;
      TwiceProduct(Pow2(n), Pow2(n - 1), high);
      hide Pow2, Xor;
      XorEven(low, c, b);
    }
  }

  lemma XorEven(low: nat, c: nat, b: nat)
    requires b == 2 * c
    ensures Xor(low, b) == low % 2 + 2 * Xor(low / 2, c)
  {
    XorHalves(low, b);
    hide Xor;
    assert b / 2 == c && (low + b) % 2 == low % 2;
  }

  lemma TwiceProduct(p: nat, p': nat, h: nat)
    requires p == 2 * p'
    ensures p * h == 2 * (p' * h)
    ensures p' * h >= 0
  {
  }

  lemma OrEven(low: nat, c: nat, b: nat)
    requires b == 2 * c
    ensures Or(low, b) == low % 2 + 2 * Or(low / 2, c)
  {
    assert b / 2 == c && b % 2 == 0;
  }

  lemma {:induction false} OrZero(a: nat)
    ensures Or(0, a) == a
    decreases a
  {
    if a != 0 { OrZero(a / 2); }
  }

  /** x & (2^n - 1) */
  function Low(x: nat, n: nat): (r: nat)
    ensures r == x % Pow2(n) && r < Pow2(n)
  {
    AndMask(n, x);
    And(x, Pow2(n) - 1)
  }

  /** low | (high << n), for a low that fits in n bits. */
  function Join(low: nat, high: nat, n: nat): (r: nat)
    requires low < Pow2(n)
    ensures r == low + Pow2(n) * high
  {
    OrDisjoint(n, low, high);
    Or(low, Pow2(n) * high)
  }

  // Division by powers of two of a number put together from two parts ---------------------------

  lemma ShiftedDiv(a: int, h: int, m: int, m1: int, p: int)
    requires 0 <= a < m && 0 <= h && 0 < m1 && m * m1 == p
    ensures (a + m * h) / p == h / m1
  {
    var q, r := h / m1, h % m1;
    Regroup(m, m1, p, q, r, h);
    ScaledBelow(m, m1, r);
    DivModUnique(a + m * h, p, q, a + m * r);
  }

  lemma Regroup(m: int, m1: int, p: int, q: int, r: int, h: int)
    requires m * m1 == p && h == m1 * q + r
    ensures m * h == p * q + m * r
  {
    assert m * (m1 * q) == (m * m1) * q;
  }

  lemma ScaledBelow(m: int, m1: int, r: int)
    requires 0 < m && 0 <= r < m1
    ensures 0 <= m * r <= m * m1 - m
  {
    MulNonneg(m, m1 - 1 - r);
    MulNonneg(m, r);
    assert m * (m1 - 1 - r) == m * m1 - m - m * r;
  }

  lemma MulNonneg(x: int, y: int)
    requires x >= 0 && y >= 0
    ensures x * y >= 0
  {
  }

  lemma DivBounds(x: nat, m: int)
    requires m > 0
    ensures 0 <= x / m <= x
  {
    var q, r := x / m, x % m;
    assert x == m * q + r;
    NatFactor(m, q, r, x);
  }

  lemma NatFactor(m: int, q: int, r: int, x: int)
    requires m > 0 && 0 <= r < m && 0 <= x == m * q + r
    ensures 0 <= q <= x
  {
    if q < 0 {
      MulNonneg(m, -q - 1);
    } else {
      MulNonneg(m - 1, q);
    }
  }

  /** x >> k, for m = 2^k */
  function Shr(x: nat, m: nat): nat
    requires m > 0
  {
    DivBounds(x, m);
    x / m
  }

  lemma TwiceProductInt(p: int, p': int, h: int)
    requires p == 2 * p'
    ensures p * h == 2 * (p' * h)
  {
  }

  lemma HalveThenDivide(x: nat, p: nat)
    requires p > 0
    ensures x / 2 / p == x / (2 * p)
  {
    var h := x / 2;
    var q, r := h / p, h % p;
    assert h == p * q + r && x == 2 * h + x % 2;
    assert x == (2 * p) * q + (2 * r + x % 2);
    DivModUnique(x, 2 * p, q, 2 * r + x % 2);
  }

  lemma {:induction false} OrIsZero(a: nat, b: nat)
    ensures Or(a, b) == 0 <==> a == 0 && b == 0
    decreases a + b
  {
    if a + b != 0 { OrIsZero(a / 2, b / 2); }
  }

  /** x & (m << k) works on the bits from k on. */
  lemma {:induction false} AndShifted(x: nat, m: nat, k: nat, p: nat, pm: nat)
    requires p == Pow2(k) && pm == p * m
    ensures And(x, pm) == p * And(Shr(x, p), m)
    decreases k
  {
    if k == 0 {
      assert pm == m && Shr(x, 1) == x;
    } else {
      var q: nat := Pow2(k - 1);
      TwiceProduct(p, q, m);
      AndShifted(x / 2, m, k - 1, q, q * m);
      hide *;
      AndEven(x, q * m, pm);
      ShrTwice(x, p, q);
      TwiceProductInt(p, q, And(Shr(x, p), m));
    }
  }

  lemma ShrTwice(x: nat, p: nat, q: nat)
    requires q > 0 && p == 2 * q
    ensures Shr(x, p) == Shr(x / 2, q)
  {
    HalveThenDivide(x, q);
  }

  lemma AndEven(x: nat, c: nat, b: nat)
    requires b == 2 * c
    ensures And(x, b) == 2 * And(x / 2, c)
  {
    assert b / 2 == c && b % 2 == 0;
    assert x == 0 ==> x / 2 == 0;
    assert (x % 2) * 0 == 0;
  }

  // Single bits ---------------------------------------------------------------------------------

  function Bit(c: nat, k: nat): nat {
    if k == 0 then c % 2 else Bit(c / 2, k - 1)
  }

  lemma {:induction false} BitSmall(c: nat, k: nat)
    ensures Bit(c, k) <= 1
  {
    if k > 0 { BitSmall(c / 2, k - 1); }
  }

  lemma {:induction false} BitAdds(a: nat, b: nat, k: nat)
    ensures Bit(Xor(a, b), k) == (Bit(a, k) + Bit(b, k)) % 2
  {
    XorHalves(a, b);
    if k > 0 { BitAdds(a / 2, b / 2, k - 1); }
  }

  lemma {:induction false} BitOr(a: nat, b: nat, k: nat)
    ensures Bit(Or(a, b), k) == if Bit(a, k) == 0 && Bit(b, k) == 0 then 0 else 1
  {
    assert Or(a, b) / 2 == Or(a / 2, b / 2);
    if k > 0 { BitOr(a / 2, b / 2, k - 1); }
  }

  lemma {:induction false} BitAnd(a: nat, b: nat, k: nat)
    ensures Bit(And(a, b), k) == if Bit(a, k) == 1 && Bit(b, k) == 1 then 1 else 0
  {
    var p := (a % 2) * (b % 2);
    assert p == if a % 2 == 1 && b % 2 == 1 then 1 else 0;
    assert And(a, b) / 2 == And(a / 2, b / 2);
    BitSmall(a, k);
    if k > 0 { BitAnd(a / 2, b / 2, k - 1); }
  }

  lemma {:induction false} BitZeroAbove(c: nat, n: nat, k: nat)
    requires c < Pow2(n) && n <= k
    ensures Bit(c, k) == 0
    decreases n
  {
    if n > 0 {
      BitZeroAbove(c / 2, n - 1, k - 1);
    } else {
      BitOfZero(k);
    }
  }

  lemma {:induction false} BitOfZero(k: nat)
    ensures Bit(0, k) == 0
  {
    if k > 0 { BitOfZero(k - 1); }
  }

  /** x >> n */
  lemma {:induction false} BitShifted(x: nat, n: nat, i: nat)
    ensures x / Pow2(n) >= 0 && Bit(x / Pow2(n), i) == Bit(x, i + n)
    decreases n
  {
    if n > 0 {
      BitShifted(x / 2, n - 1, i);
      HalveThenDivide(x, Pow2(n - 1));
    }
  }

  /** x << m */
  lemma {:induction false} BitRaised(x: nat, m: nat, i: nat)
    ensures x * Pow2(m) >= 0 && Bit(x * Pow2(m), i) == if i < m then 0 else Bit(x, i - m)
    decreases m
  {
    if m > 0 {
      TwiceProduct(Pow2(m), Pow2(m - 1), x);
      BitRaised(x, m - 1, if i > 0 then i - 1 else 0);
      BitDoubled(x * Pow2(m - 1), x * Pow2(m), i);
    }
  }

  lemma BitDoubled(h: nat, d: nat, i: nat)
    requires d == 2 * h
    ensures Bit(d, i) == if i == 0 then 0 else Bit(h, i - 1)
  {
    assert d / 2 == h && d % 2 == 0;
  }

  lemma {:induction false} BitLow(y: nat, n: nat, i: nat)
    requires i < n
    ensures Bit(y % Pow2(n), i) == Bit(y, i)
    decreases n
  {
    HalfMod(y, Pow2(n - 1));
    var r := y % Pow2(n);
    assert r % 2 == y % 2 && r / 2 == y / 2 % Pow2(n - 1);
    if i > 0 { BitLow(y / 2, n - 1, i - 1); }
  }

  /** The bits make the number. */
  lemma {:induction false} SameBits(a: nat, b: nat, n: nat)
    requires a < Pow2(n) && b < Pow2(n) && forall k :: 0 <= k < n ==> Bit(a, k) == Bit(b, k)
    ensures a == b
    decreases n
  {
    if n > 0 {
      assert Bit(a, 0) == Bit(b, 0);
      forall k | 0 <= k < n - 1 ensures Bit(a / 2, k) == Bit(b / 2, k) {
        assert Bit(a, k + 1) == Bit(b, k + 1);
      }
      SameBits(a / 2, b / 2, n - 1);
    }
  }
}
