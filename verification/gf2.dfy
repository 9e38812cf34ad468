/** The algebra behind CRC-32: words as polynomials over GF(2), lowest power in the highest bit.
    Each law is stated on named operations and proved once on raw words; everything else is
    derived from the laws. */
module Gf2 {
  const POLY: bv32 := 0xedb8_8320

  /** Addition. */
  function Xor(a: bv32, b: bv32): bv32 { a ^ b }

  function Half(a: bv32): bv32 { a >> 1 }

  predicate Odd(a: bv32) { a & 1 == 1 }

  function Wide(b: bv8): bv32 { b as bv32 }

  function Low(c: bv32): bv8 { (c & 0xff) as bv8 }

  function Drop(c: bv32): bv32 { c >> 8 }

  function Up(c: bv32): bv32 { c << 8 }

  /** ZSWAP32 */
  function Swap(w: bv32): bv32
  {
    ((w >> 24) & 0xff) + ((w >> 8) & 0xff00) + ((w & 0xff00) << 8) + ((w & 0xff) << 24)
  }

  /** The bytes of the word are in its three lowest byte positions. */
  predicate Three(w: bv32) { w <= 0xff_ffff }

  // ----- laws

  lemma XorIs(a: bv32, b: bv32)
    ensures Xor(a, b) == a ^ b
  {}

  lemma XorComm(a: bv32, b: bv32)
    ensures Xor(a, b) == Xor(b, a)
  {}

  lemma RawAssoc(a: bv32, b: bv32, c: bv32, ab: bv32, bc: bv32, l: bv32, r: bv32)
    requires ab == a ^ b && bc == b ^ c && l == ab ^ c && r == a ^ bc
    ensures l == r
  {}

  lemma XorAssoc(a: bv32, b: bv32, c: bv32)
    ensures Xor(Xor(a, b), c) == Xor(a, Xor(b, c))
  {
    hide Xor;
    XorIs(a, b);
    XorIs(b, c);
    XorIs(Xor(a, b), c);
    XorIs(a, Xor(b, c));
    RawAssoc(a, b, c, Xor(a, b), Xor(b, c), Xor(Xor(a, b), c), Xor(a, Xor(b, c)));
  }

  lemma XorZero(a: bv32)
    ensures Xor(a, 0) == a == Xor(0, a)
  {}

  lemma XorSelf(a: bv32)
    ensures Xor(a, a) == 0
  {}

  /** Adding the same word to both summands cancels. */
  lemma XorCancel(p: bv32, a: bv32, b: bv32)
    ensures Xor(Xor(p, a), Xor(p, b)) == Xor(a, b)
  {
    hide Xor;
    XorComm(p, a);
    XorAssoc(a, p, Xor(p, b));
    XorAssoc(p, p, b);
    XorSelf(p);
    XorZero(b);
  }

  lemma HalfXor(a: bv32, b: bv32)
    ensures Half(Xor(a, b)) == Xor(Half(a), Half(b))
  {}

  lemma OddXor(a: bv32, b: bv32)
    ensures Odd(Xor(a, b)) <==> Odd(a) != Odd(b)
  {}

  lemma SwapXor(a: bv32, b: bv32)
    ensures Swap(Xor(a, b)) == Xor(Swap(a), Swap(b))
  {}

  /** A word is its lowest byte and the rest. */
  lemma Split(c: bv32)
    ensures c == Xor(Wide(Low(c)), Up(Drop(c))) && Three(Drop(c))
  {}

  lemma LowOfSum(c: bv32, b: bv8)
    ensures Low(Xor(c, Wide(b))) == Low(c) ^ b && Drop(Xor(c, Wide(b))) == Drop(c)
  {}

  lemma DropAll(c: bv32)
    ensures Drop(Drop(Drop(Drop(c)))) == 0
  {}

  function High(c: bv32): bv8 { ((c >> 24) & 0xff) as bv8 }

  lemma SwapParts(y: bv32)
    ensures High(Swap(y)) == Low(y) && Up(Swap(y)) == Swap(Drop(y))
    ensures Low(Swap(y)) == Low(Drop(Drop(Drop(y)))) && Low(Drop(Swap(y))) == Low(Drop(Drop(y)))
    ensures Low(Drop(Drop(Swap(y)))) == Low(Drop(y)) && High(Swap(y)) == Low(y)
  {}

  function Double(c: bv32): bv32 { c << 1 }

  function LowBit(b: bv32): bv32 { b & 1 }

  lemma SplitBit(v: bv32)
    ensures v == Xor(LowBit(v), Double(Half(v)))
    ensures LowBit(v) == if Odd(v) then 1 else 0
  {}

  lemma DoubleXor(a: bv32, b: bv32)
    ensures Double(Xor(a, b)) == Xor(Double(a), Double(b))
  {}

  lemma EightDoubles(b: bv32)
    ensures Double(Double(Double(Double(Double(Double(Double(Double(b)))))))) == Up(b)
  {}

  lemma UpAll(c: bv32)
    ensures Up(Up(Up(Up(c)))) == 0
  {}

  lemma HalfDouble(u: bv32)
    requires u <= 0x4000_0000
    ensures Half(Double(u)) == u && !Odd(Double(u))
  {}
}
