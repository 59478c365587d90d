/** The integer step of the MapReduce plotter's aspect-ratio fitting: after
    the height is recomputed, `height &= 0xfffffffe` clears its lowest bit so
    that video encoders accept the frame size. Java's `&` acts on the
    two's-complement bits of the int, modelled here bit by bit. */
module ImageSize {
  import opened JavaInt

  /** Bitwise AND of two non-negative numbers, lowest bit first. */
  function BitAnd(a: nat, b: nat): nat
  {
    if a == 0 || b == 0 then 0
    else 2 * BitAnd(a / 2, b / 2) + (if a % 2 == 1 && b % 2 == 1 then 1 else 0)
  }

  /** The 32 bits of an int read as an unsigned number. */
  function Bits(v: int32): (u: nat)
    ensures u < MODULUS && (u - v as int) % MODULUS == 0
  {
    v as int % MODULUS
  }

  function Pow2(n: nat): (p: nat)
    ensures p >= 1
  {
    if n == 0 then 1 else 2 * Pow2(n - 1)
  }

  lemma Pow2Of31()
    ensures Pow2(31) == 0x8000_0000
  {
    assert Pow2(8) == 0x100;
    assert Pow2(16) == 0x1_0000;
    assert Pow2(24) == 0x100_0000;
  }

  /** AND with n one-bits keeps every number below 2^n. */
  lemma {:induction false} AndOnes(u: nat, n: nat)
    requires u < Pow2(n)
    ensures BitAnd(u, Pow2(n) - 1) == u
  {
    if u > 0 {
      var m := Pow2(n) - 1;
      assert n > 0;
      assert m / 2 == Pow2(n - 1) - 1 && m % 2 == 1;
      AndOnes(u / 2, n - 1);
    }
  }

  /** Clearing bit 0 of a 32-bit pattern rounds it down to an even number. */
  lemma ClearLowBit(u: nat)
    requires u < MODULUS
    ensures BitAnd(u, 0xFFFF_FFFE) == u - u % 2
  {
    if u > 0 {
      Pow2Of31();
      AndOnes(u / 2, 31);
    }
  }

  /** Rounding the bit pattern down to even and reading it back as an int
      rounds the int itself down to even. */
  lemma RoundDownBits(h: int32)
    ensures Wrap(Bits(h) - Bits(h) % 2) as int == h as int - h as int % 2
  {
    var u := Bits(h);
    var k := (u - h as int) / MODULUS;
    assert u == h as int + k * MODULUS;
    assert u % 2 == h as int % 2 by {
      assert u == h as int + (k * 0x8000_0000) * 2;
    }
    WrapCongruent(u - u % 2, h as int - h as int % 2, k);
  }

  /** Subtracting its parity rounds an int down to the nearest even one. */
  lemma RoundDownEven(x: int)
    ensures (x - x % 2) % 2 == 0 && x - x % 2 <= x <= x - x % 2 + 1
  {
    assert x - x % 2 == 2 * (x / 2);
  }

  /** The bit operation of `height &= 0xfffffffe` rounds the int down to even. */
  lemma ClearLowBitOfInt(h: int32)
    ensures var r := Wrap(BitAnd(Bits(h), 0xFFFF_FFFE)) as int;
            r % 2 == 0 && r <= h as int <= r + 1
  {
    ClearLowBit(Bits(h));
    RoundDownBits(h);
    RoundDownEven(h as int);
  }

  /** `height &= 0xfffffffe`: the largest even int not above `h`, negative
      heights included (their bit pattern rounds down as well). */
  function EvenHeight(h: int32): (r: int32)
    ensures r as int % 2 == 0
    ensures r <= h && h as int <= r as int + 1
  {
    ClearLowBitOfInt(h);
    Wrap(BitAnd(Bits(h), 0xFFFF_FFFE))
  }
}
