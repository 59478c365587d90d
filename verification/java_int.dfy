/** Java's 32-bit `int`: the range, and the two's-complement wrap-around that
    `+`, `+=` and `++` perform on overflow. */
module JavaInt {

  const MIN: int := -0x8000_0000
  const MAX: int := 0x7fff_ffff
  const MODULUS: int := 0x1_0000_0000

  newtype int32 = x: int | -0x8000_0000 <= x < 0x8000_0000

  /** The int32 that Java produces for the mathematical value `x`: the unique
      int32 congruent to `x` modulo 2^32. */
  function Wrap(x: int): (r: int32)
    ensures (r as int - x) % MODULUS == 0
    ensures MIN <= x <= MAX ==> r as int == x
  {
    ((x - MIN) % MODULUS + MIN) as int32
  }

  /** A Java array holds at most 2^31 − 1 elements; so does the single `int[]`
      behind an AWT raster of `n` pixels. */
  predicate ArrayFits(n: int)
  {
    n <= MAX
  }

  /** Java `a + b` on ints. */
  function Add(a: int32, b: int32): (r: int32)
    ensures (r as int - (a as int + b as int)) % MODULUS == 0
    ensures a as int + b as int <= MAX ==> MIN <= a as int + b as int ==> r as int == a as int + b as int
  {
    Wrap(a as int + b as int)
  }

  lemma ModUnique(a: int, q: int, r: int)
    requires a == q * MODULUS + r && 0 <= r < MODULUS
    ensures a % MODULUS == r
  {
  }

  /** Wrapping depends only on the residue modulo 2^32. */
  lemma WrapCongruent(x: int, y: int, k: int)
    requires x == y + k * MODULUS
    ensures Wrap(x) == Wrap(y)
  {
    var q, r := (y - MIN) / MODULUS, (y - MIN) % MODULUS;
    assert y - MIN == q * MODULUS + r;
    assert x - MIN == (q + k) * MODULUS + r;
    ModUnique(x - MIN, q + k, r);
  }

  /** Incrementing a wrapped count in Java gives the wrapped successor:
      an `Integer` counter that has overflowed keeps wrapping consistently. */
  lemma AddOneWrap(n: int)
    ensures Add(Wrap(n), 1) == Wrap(n + 1)
  {
    var k := (Wrap(n) as int - n) / MODULUS;
    assert Wrap(n) as int == n + k * MODULUS;
    WrapCongruent(Wrap(n) as int + 1, n + 1, k);
  }

  lemma AddZero(a: int32)
    ensures Add(0, a) == a && Add(a, 0) == a
  {
  }
}
