/** Unsigned machine words as numbers, for indexing arrays. */
module Words {
  /** A byte as an array index. */
  function Index8(b: bv8): (i: nat)
    ensures i < 256
  {
    b as nat
  }

  lemma Index8Injective(a: bv8, b: bv8)
    requires Index8(a) == Index8(b)
    ensures a == b
  {}

  /** Counting through all bytes. */
  lemma Index8Of(n: nat)
    requires n < 256
    ensures Index8(n as bv8) == n
  {}

  lemma Index8Mask(a: bv8, m: bv8)
    requires a & m == a
    ensures Index8(a) <= Index8(m)
  {}

  /** A word of at most 16 bits as an array index. */
  function Index16(w: bv32): (i: nat)
    ensures i < 65536
  {
    256 * Index8(((w >> 8) & 0xff) as bv8) + Index8((w & 0xff) as bv8)
  }

  lemma Index16Injective(a: bv32, b: bv32)
    requires a <= 0xffff && b <= 0xffff && Index16(a) == Index16(b)
    ensures a == b
  {
    hide Index8;
    Index8Injective(((a >> 8) & 0xff) as bv8, ((b >> 8) & 0xff) as bv8);
    Index8Injective((a & 0xff) as bv8, (b & 0xff) as bv8);
    Halves(a, b);
  }

  lemma Halves(a: bv32, b: bv32)
    requires a <= 0xffff && b <= 0xffff
    requires ((a >> 8) & 0xff) as bv8 == ((b >> 8) & 0xff) as bv8 && (a & 0xff) as bv8 == (b & 0xff) as bv8
    ensures a == b
  {}

  /** A word without bits outside a mask of 8 to 16 bits is below the size of the mask. */
  lemma Index16Mask(w: bv32, m: bv32)
    requires m <= 0xffff && m & 0xff == 0xff && w & m == w
    ensures Index16(w) <= Index16(m)
  {
    hide Index8;
    MaskHigh(w, m);
    Index8Mask(((w >> 8) & 0xff) as bv8, ((m >> 8) & 0xff) as bv8);
    assert Index8(255) == 255 by { Index8Of(255); }
    assert (m & 0xff) as bv8 == 255;
  }

  lemma MaskHigh(w: bv32, m: bv32)
    requires w & m == w
    ensures ((w >> 8) & 0xff) as bv8 & ((m >> 8) & 0xff) as bv8 == ((w >> 8) & 0xff) as bv8
  {}
}
