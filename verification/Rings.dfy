/** Rearrangements of sums and products of integers, named so that a proof can ask for exactly the
    one it needs. */
module Rings {
  lemma Commute(a: int, b: int)
    ensures a * b == b * a
  {
  }

  lemma Associate(a: int, b: int, c: int)
    ensures a * (b * c) == (a * b) * c
  {
  }

  lemma Swap(a: int, b: int, c: int, d: int)
    ensures (a * b) * (c * d) == (a * c) * (b * d)
  {
  }

  lemma Distribute(a: int, b: int, c: int, d: int)
    ensures (a + b) * (c + d) == a * c + a * d + b * c + b * d
  {
  }

  lemma Factor(a: int, b: int, c: int)
    ensures a * c + b * c == (a + b) * c && a * c - b * c == (a - b) * c
  {
  }

  lemma Multiply(m: int, a: int, b: int)
    ensures m * (a + b) == m * a + m * b && m * (a - b) == m * a - m * b
  {
  }

  /** A term moves from one factor's sum to the other's. */
  lemma Exchange(w: int, a: int, x: int, v: int, r: int)
    ensures w * (a + x * r) + x * v == w * a + x * (v + w * r)
  {
    assert w * (x * r) == x * (w * r);
  }
}
