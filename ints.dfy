/** Fixed-width integers used by the MCP3428 driver, and the big-endian
    decoding of a two's-complement 16-bit sample. */
module Ints {

  /** Rust `i16`. */
  type I16 = x: int | -0x8000 <= x < 0x8000

  /** Rust `i32`. */
  type I32 = x: int | -0x8000_0000 <= x < 0x8000_0000

  function Abs(x: int): (r: nat)
    ensures r == x || r == -x
  {
    if x < 0 then -x else x
  }

  /** The value of `1 << n`: positive, and larger than the shift amount. */
  function Pow2(n: nat): (p: nat)
    ensures p >= 1
    ensures n < p
  {
    if n == 0 then 1 else 2 * Pow2(n - 1)
  }

  /** The powers of two the driver's resolutions need. */
  lemma Pow2Table()
    ensures Pow2(0) == 1 && Pow2(2) == 4 && Pow2(4) == 16
    ensures Pow2(11) == 2048 && Pow2(12) == 4096
    ensures Pow2(13) == 8192 && Pow2(14) == 16384
    ensures Pow2(15) == 32768 && Pow2(16) == 65536
  {
  }

  /** The unsigned value of the 16-bit word whose high byte is `hi`. */
  function Word(hi: bv8, lo: bv8): (w: nat)
    ensures w < 0x1_0000
  {
    hi as nat * 0x100 + lo as nat
  }

  /** `i16::from_be_bytes([hi, lo])`: the two's-complement reading of a word. */
  function FromBeBytes(hi: bv8, lo: bv8): (m: I16)
    ensures (m - Word(hi, lo)) % 0x1_0000 == 0
    ensures m < 0 <==> hi >= 0x80
  {
    var w := Word(hi, lo);
    if w < 0x8000 then w else w - 0x1_0000
  }

  /** Distinct byte pairs decode to distinct samples, so the decoding loses
      nothing. */
  lemma FromBeBytesInjective(h1: bv8, l1: bv8, h2: bv8, l2: bv8)
    requires FromBeBytes(h1, l1) == FromBeBytes(h2, l2)
    ensures h1 == h2 && l1 == l2
  {
    assert Word(h1, l1) == Word(h2, l2);
    WordInjective(h1, l1, h2, l2);
  }

  lemma WordInjective(h1: bv8, l1: bv8, h2: bv8, l2: bv8)
    requires Word(h1, l1) == Word(h2, l2)
    ensures h1 == h2 && l1 == l2
  {
    DigitsEqual(h1 as int, l1 as int, h2 as int, l2 as int);
    ByteInjective(h1, h2);
    ByteInjective(l1, l2);
  }

  lemma DigitsEqual(a1: int, b1: int, a2: int, b2: int)
    requires 0 <= b1 < 0x100 && 0 <= b2 < 0x100
    requires a1 * 0x100 + b1 == a2 * 0x100 + b2
    ensures a1 == a2 && b1 == b2
  {
  }

  lemma ByteInjective(a: bv8, b: bv8)
    requires a as int == b as int
    ensures a == b
  {
  }
}
