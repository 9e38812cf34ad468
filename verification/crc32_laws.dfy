/** What a CRC-32 is for, in terms of checksums alone: the register is complemented before and after,
    a message followed by its checksum always gives the same residue, leading zero bytes count, and
    no change within four bytes goes unnoticed
    (section 8 of RFC 1952). */
module Crc32Laws {
  import opened Gf2
  import opened Crc32

  function Not(c: bv32): bv32 { !c }

  lemma Complement(c: bv32)
    ensures Xor(c, ONES) == Not(c)
  {}

  lemma Twice(c: bv32)
    ensures Not(Not(c)) == c
  {}

  lemma NotInjective(a: bv32, b: bv32)
    requires Not(a) == Not(b)
    ensures a == b
  {}

  /** The register starts from the complement of the checksum so far and is complemented at the end. */
  lemma Conditioned(crc: bv32, s: seq<bv8>)
    ensures Crc(crc, s) == Not(Feed(Not(crc), s))
  {
    hide Feed, Xor, Not;
    Complement(crc);
    Complement(Feed(Not(crc), s));
  }

  /** No bytes leave the checksum alone. */
  lemma NothingFed(crc: bv32)
    ensures Crc(crc, []) == crc
  {
    hide Xor, Not, Crc;
    Conditioned(crc, []);
    Twice(crc);
  }

  // ----- no two registers become one

  lemma StepKernel(c: bv32)
    requires Step(c) == 0
    ensures c == 0
  {}

  lemma XorEqual(a: bv32, b: bv32)
    ensures Xor(a, b) == 0 <==> a == b
  {}

  lemma StepInjective(a: bv32, b: bv32)
    requires Step(a) == Step(b)
    ensures a == b
  {
    hide Step, Xor;
    StepLinear(a, b);
    XorEqual(Step(a), Step(b));
    StepKernel(Xor(a, b));
    XorEqual(a, b);
  }

  lemma {:induction false} ZerosInjective(n: nat, a: bv32, b: bv32)
    requires Zeros(n, a) == Zeros(n, b)
    ensures a == b
  {
    hide Step;
    if n > 0 {
      StepInjective(Zeros(n - 1, a), Zeros(n - 1, b));
      ZerosInjective(n - 1, a, b);
    }
  }

  lemma SameSummand(c: bv32, a: bv32, b: bv32)
    requires Xor(c, a) == Xor(c, b) || Xor(a, c) == Xor(b, c)
    ensures a == b
  {}

  lemma {:induction false} FeedInjective(c: bv32, d: bv32, s: seq<bv8>)
    requires Feed(c, s) == Feed(d, s)
    ensures c == d
  {
    hide Xor, Wide, FeedByte, Zeros;
    if s != [] {
      var n := |s| - 1;
      var x, y := Feed(c, s[..n]), Feed(d, s[..n]);
      FeedByteIsZeros(x, s[n]);
      FeedByteIsZeros(y, s[n]);
      ZerosInjective(8, Xor(x, Wide(s[n])), Xor(y, Wide(s[n])));
      SameSummand(Wide(s[n]), x, y);
      FeedInjective(c, d, s[..n]);
    }
  }

  lemma WordParts(b: bv8, c: bv8, x: bv32, y: bv32)
    requires x <= 0xff_ffff && y <= 0xff_ffff && Xor(Wide(b), Up(x)) == Xor(Wide(c), Up(y))
    ensures b == c && x == y
  {}

  /** Different bytes are different words. */
  lemma {:induction false} LeInjective(s: seq<bv8>, t: seq<bv8>)
    requires |s| == |t| <= 4 && Le(s) == Le(t)
    ensures s == t
    decreases |s|
  {
    hide Xor, Wide, Up;
    if s != [] {
      LeThree(s[1..]);
      LeThree(t[1..]);
      WordParts(s[0], t[0], Le(s[1..]), Le(t[1..]));
      LeInjective(s[1..], t[1..]);
      assert s == [s[0]] + s[1..] && t == [t[0]] + t[1..];
    }
  }

  /** Error detection: changing up to four consecutive bytes of a message changes its checksum. */
  lemma BurstDetected(crc: bv32, a: seq<bv8>, w: seq<bv8>, v: seq<bv8>, b: seq<bv8>)
    requires |w| == |v| <= 4 && w != v
    ensures Crc(crc, a + w + b) != Crc(crc, a + v + b)
  {
    hide Feed, Xor, Zeros, Le;
    hide Not, Crc;
    var n := Not(crc);
    var c := Feed(n, a);
    Conditioned(crc, a + w + b);
    Conditioned(crc, a + v + b);
    FeedConcat(n, a + w, b);
    FeedConcat(n, a + v, b);
    FeedConcat(n, a, w);
    FeedConcat(n, a, v);
    if Crc(crc, a + w + b) == Crc(crc, a + v + b) {
      NotInjective(Feed(n, a + w + b), Feed(n, a + v + b));
      FeedInjective(Feed(c, w), Feed(c, v), b);
      FeedWord(c, w);
      FeedWord(c, v);
      ZerosInjective(8 * |w|, Xor(c, Le(w)), Xor(c, Le(v)));
      SameSummand(c, Le(w), Le(v));
      LeInjective(w, v);
    }
  }

  // ----- leading zero bytes

  lemma ZeroByte()
    ensures Zeros(8, 0xffff_ffff) == 0x2dfd_1072
  {
    assert Zeros(4, 0xffff_ffff) == 0xb242_0de3 by { FourSteps(0xffff_ffff); }
    ZerosAdd(4, 4, 0xffff_ffff);
    FourSteps(0xb242_0de3);
  }

  lemma FourSteps(c: bv32)
    ensures Zeros(4, c) == Step(Step(Step(Step(c))))
  {
    assert Zeros(1, c) == Step(Zeros(0, c));
    assert Zeros(2, c) == Step(Zeros(1, c));
    assert Zeros(3, c) == Step(Zeros(2, c));
  }

  /** A zero byte in front of a message changes its checksum. */
  lemma LeadingZeroCounts(s: seq<bv8>)
    ensures Crc(0, [0] + s) != Crc(0, s)
  {
    hide Feed, Zeros, Step, Crc;
    var ones := Not(0);
    Conditioned(0, [0] + s);
    Conditioned(0, s);
    FeedConcat(ones, [0], s);
    ZeroFed();
    assert ones == 0xffff_ffff;
    hide Not;
    if Crc(0, [0] + s) == Crc(0, s) {
      NotInjective(Feed(ones, [0] + s), Feed(ones, s));
      FeedInjective(Feed(ones, [0]), ones, s);
    }
  }

  lemma ZeroFed()
    ensures Feed(0xffff_ffff, [0]) == 0x2dfd_1072
    ensures Crc(0, [0]) == 0xd202_ef8d
  {
    hide Zeros, Step;
    FeedWord(0xffff_ffff, [0]);
    assert Le([0]) == 0 by { assert [0 as bv8][1..] == []; }
    ZeroByte();
    XorZero(0xffff_ffff);
    hide Feed, Crc;
    Conditioned(0, [0]);
    assert Not(0) == 0xffff_ffff && Not(0x2dfd_1072) == 0xd202_ef8d;
  }

  // ----- the residue

  /** A checksum as it is written behind a message, lowest byte first. */
  function Written(w: bv32): (s: seq<bv8>)
    ensures |s| == 4
  {
    [Low(w), Low(Drop(w)), Low(Drop(Drop(w))), Low(Drop(Drop(Drop(w))))]
  }

  lemma WrittenIs(w: bv32)
    ensures Le(Written(w)) == w
  {
    hide Xor, Wide, Up, Low, Drop;
    var s := Written(w);
    Split(w);
    Split(Drop(w));
    Split(Drop(Drop(w)));
    Split(Drop(Drop(Drop(w))));
    DropAll(w);
    assert s[1..] == [s[1], s[2], s[3]] && s[1..][1..] == [s[2], s[3]] && s[1..][1..][1..] == [s[3]];
    assert s[1..][1..][1..][1..] == [];
    assert Le([s[3]]) == Drop(Drop(Drop(w)));
    assert Le([s[2], s[3]]) == Drop(Drop(w));
    assert Le([s[1], s[2], s[3]]) == Drop(w);
  }

  /** A message followed by its checksum has the same checksum whatever the message. */
  lemma Residue(crc: bv32, s: seq<bv8>)
    ensures Crc(crc, s + Written(Crc(crc, s))) == 0x2144_df1c
  {
    hide Feed, Zeros, Written, Le, Xor, Crc;
    var n := Not(crc);
    var r := Feed(n, s);
    Conditioned(crc, s);
    Conditioned(crc, s + Written(Not(r)));
    FeedConcat(n, s, Written(Not(r)));
    FeedWord(r, Written(Not(r)));
    WrittenIs(Not(r));
    WithComplement(r);
    AllOnes();
  }

  lemma WithComplement(r: bv32)
    ensures Xor(r, Not(r)) == 0xffff_ffff
  {}

  lemma AllOnes()
    ensures Zeros(32, 0xffff_ffff) == 0xdebb_20e3
  {
    hide Zeros, Step;
    ZeroByte();
    SecondByte();
    ThirdByte();
    FourthByte();
    ZerosAdd(8, 8, 0xffff_ffff);
    ZerosAdd(8, 16, 0xffff_ffff);
    ZerosAdd(8, 24, 0xffff_ffff);
  }

  lemma SecondByte()
    ensures Zeros(8, 0x2dfd_1072) == 0xbe26_ed00
  {
    ZerosAdd(4, 4, 0x2dfd_1072);
    FourSteps(0x2dfd_1072);
    FourSteps(0x39b1_f1cf);
  }

  lemma ThirdByte()
    ensures Zeros(8, 0xbe26_ed00) == 0x00be_26ed
  {
    ZerosAdd(4, 4, 0xbe26_ed00);
    FourSteps(0xbe26_ed00);
    FourSteps(0x0be2_6ed0);
  }

  lemma FourthByte()
    ensures Zeros(8, 0x00be_26ed) == 0xdebb_20e3
  {
    ZerosAdd(4, 4, 0x00be_26ed);
    FourSteps(0x00be_26ed);
    FourSteps(0x86d8_30ba);
  }
}
