/** native/common/ed25519_orlp/src/fe.c: the predicates on field elements and the branch-free move. */
module FeTests {
  import opened Ints
  import opened Bits
  import opened Bytes
  import opened Field
  import opened Limbs
  import opened Fe
  import opened FeBytes

  /** The lowest bit of the canonical representative. */
  method FeIsNegative(f: array<int32>) returns (r: int)
    requires f.Length == 10 && Within(f[..], BYTES_IN_EVEN, BYTES_IN_ODD)
    ensures r == Residue(V(f[..])) % 2
  {
    hide *;
    var s := new byte[32];
    FeToBytes(s, f);
    BytesParity(s[..32]);
    r := And(s[0], 1);
  }

  lemma BytesParity(s: seq<byte>)
    requires s != []
    ensures And(s[0], 1) == Nat(s) % 2
  {
    hide And, Pow2;
    Powers();
    AndMask(1, s[0]);
    ByteParity(Nat(s), s[0], Nat(s[1..]));
  }

  lemma ByteParity(x: int, a: int, n: int)
    requires x == a + 0x100 * n
    ensures x % 2 == a % 2
  {
    hide *;
    DivModUnique(x, 2, a / 2 + 0x80 * n, a % 2);
  }

  /** False exactly for the multiples of P. */
  method FeIsNonzero(f: array<int32>) returns (r: bool)
    requires f.Length == 10 && Within(f[..], BYTES_IN_EVEN, BYTES_IN_ODD)
    ensures r <==> Residue(V(f[..])) != 0
  {
    hide V, Residue;
    var s := new byte[32];
    FeToBytes(s, f);
    var x: nat := s[0];
    ghost var bytes := s[..];
    assert s[..32] == bytes;
    for i := 1 to 32
      invariant bytes == s[..]
      invariant x == 0 <==> forall k :: 0 <= k < i ==> bytes[k] == 0
    {
      OrIsZero(x, s[i]);
      x := Or(x, s[i]);
    }
    NatIsZero(bytes);
    r := x != 0;
  }

  lemma {:induction false} NatIsZero(s: seq<byte>)
    ensures Nat(s) == 0 <==> forall k :: 0 <= k < |s| ==> s[k] == 0
  {
    if s != [] {
      NatIsZero(s[1..]);
      NatBound(s[1..]);
      assert forall k :: 1 <= k < |s| ==> s[k] == s[1..][k - 1];
    }
  }

  /** The 32-bit word of an int32_t. */
  function Word(x: int32): nat {
    if x < 0 then x as int + 0x1_0000_0000 else x
  }

  function Signed(w: nat): int {
    if w >= 0x8000_0000 then w - 0x1_0000_0000 else w
  }

  /** f ^ ((f ^ g) & -b) on n-bit words: g for b = 1, f for b = 0. */
  function CmovWord(f: nat, g: nat, b: int, n: nat): (r: nat)
    requires f < Pow2(n) && g < Pow2(n) && (b == 0 || b == 1)
    ensures r == if b == 1 then g else f
  {
    CmovLaw(f, g, n);
    Xor(f, And(Xor(f, g), if b == 1 then Pow2(n) - 1 else 0))
  }

  lemma CmovLaw(f: nat, g: nat, n: nat)
    requires f < Pow2(n) && g < Pow2(n)
    ensures Xor(f, And(Xor(f, g), Pow2(n) - 1)) == g
    ensures Xor(f, And(Xor(f, g), 0)) == f
  {
    hide Xor, And, Pow2;
    XorCancels(f, g);
    XorBound(f, g, n);
    AndMask(n, Xor(f, g));
    DivModUnique(Xor(f, g), Pow2(n), 0, Xor(f, g));
    AndZero(Xor(f, g));
    XorZero(f);
  }

  /** f = g if b is 1, and f is left as it was if b is 0 */
  method FeCmov(f: array<int32>, g: array<int32>, b: int)
    requires f.Length == g.Length == 10 && (b == 0 || b == 1)
    modifies f
    ensures f[..] == if b == 1 then old(g[..]) else old(f[..])
  {
    hide Cmov;
    var x0, x1, x2, x3, x4 := Cmov(f[0], g[0], b), Cmov(f[1], g[1], b), Cmov(f[2], g[2], b), Cmov(f[3], g[3], b),
      Cmov(f[4], g[4], b);
    var x5, x6, x7, x8, x9 := Cmov(f[5], g[5], b), Cmov(f[6], g[6], b), Cmov(f[7], g[7], b), Cmov(f[8], g[8], b),
      Cmov(f[9], g[9], b);
    Store(f, x0, x1, x2, x3, x4, x5, x6, x7, x8, x9);
  }

  function Cmov(f: int32, g: int32, b: int): (r: int32)
    requires b == 0 || b == 1
    ensures r == if b == 1 then g else f
  {
    WordPower();
    Signed(CmovWord(Word(f), Word(g), b, 32))
  }

  lemma WordPower()
    ensures Pow2(32) == 0x1_0000_0000
  {
    Powers();
    Pow2Add(16, 16);
  }
}
