/** CRC-32 of crc32.c: the table generator, the byte, little-endian and big-endian word loops, and
    the combination of two checksums by powers of a GF(2) matrix, against one bitwise definition
    (section 8 of RFC 1952). */
module Crc32 {
  import opened Words
  import opened Gf2

  const ONES: bv32 := 0xffff_ffff

  // ----- the definition

  /** One message bit: the polynomial is subtracted when the bit differs from the one shifted out. */
  function FeedBit(c: bv32, bit: bv32): bv32
  {
    if Odd(Xor(c, bit)) then Xor(POLY, Half(c)) else Half(c)
  }

  /** The n lowest bits of b, lowest first. */
  function FeedBits(c: bv32, b: bv32, n: nat): bv32
    decreases n
  {
    if n == 0 then c else FeedBits(FeedBit(c, LowBit(b)), Half(b), n - 1)
  }

  function FeedByte(c: bv32, b: bv8): bv32
  {
    FeedBits(c, Wide(b), 8)
  }

  /** The register after the bytes of s. */
  function Feed(c: bv32, s: seq<bv8>): bv32
  {
    if s == [] then c else FeedByte(Feed(c, s[..|s| - 1]), s[|s| - 1])
  }

  /** The checksum of s, continuing from the checksum of what came before; 0 to start with. */
  function Crc(crc: bv32, s: seq<bv8>): bv32
  {
    Xor(Feed(Xor(crc, ONES), s), ONES)
  }

  // ----- zero bits

  /** One zero bit shifted through the register. */
  function Step(c: bv32): bv32
  {
    if Odd(c) then Xor(POLY, Half(c)) else Half(c)
  }

  function Zeros(n: nat, c: bv32): bv32
  {
    if n == 0 then c else Step(Zeros(n - 1, c))
  }

  lemma StepLinear(a: bv32, b: bv32)
    ensures Step(Xor(a, b)) == Xor(Step(a), Step(b))
  {
    hide Xor, Half, Odd;
    HalfXor(a, b);
    OddXor(a, b);
    XorCancel(POLY, Half(a), Half(b));
    XorAssoc(POLY, Half(a), Half(b));
    XorComm(Half(a), Half(b));
    XorComm(Half(a), Xor(POLY, Half(b)));
    XorAssoc(POLY, Half(b), Half(a));
  }

  lemma {:induction false} ZerosLinear(n: nat, a: bv32, b: bv32)
    ensures Zeros(n, Xor(a, b)) == Xor(Zeros(n, a), Zeros(n, b))
  {
    hide Step, Xor;
    if n > 0 {
      ZerosLinear(n - 1, a, b);
      StepLinear(Zeros(n - 1, a), Zeros(n - 1, b));
    }
  }

  lemma {:induction false} ZerosOfZero(n: nat)
    ensures Zeros(n, 0) == 0
  {
    if n > 0 {
      ZerosOfZero(n - 1);
    }
  }

  lemma {:induction false} ZerosAdd(m: nat, n: nat, c: bv32)
    ensures Zeros(m + n, c) == Zeros(m, Zeros(n, c))
  {
    hide Step;
    if m > 0 {
      ZerosAdd(m - 1, n, c);
    }
  }

  /** b without its n lowest bits. */
  function Rest(b: bv32, n: nat): bv32
    decreases n
  {
    if n == 0 then b else Rest(Half(b), n - 1)
  }

  lemma LowBitDecides(c: bv32, b: bv32)
    ensures Odd(Xor(c, b)) == Odd(Xor(c, LowBit(b)))
  {}

  /** Shifting a zero bit through the sum of register and message feeds the message's lowest bit. */
  lemma StepFeeds(c: bv32, b: bv32)
    ensures Step(Xor(c, b)) == Xor(FeedBit(c, LowBit(b)), Half(b))
  {
    hide Xor, Half, Odd, LowBit;
    LowBitDecides(c, b);
    HalfXor(c, b);
    XorAssoc(POLY, Half(c), Half(b));
  }

  lemma {:induction false} FeedBitsAreZeros(c: bv32, b: bv32, n: nat)
    ensures Zeros(n, Xor(c, b)) == Xor(FeedBits(c, b, n), Rest(b, n))
    decreases n
  {
    hide Step, Xor, Half, FeedBit, LowBit;
    if n > 0 {
      StepFeeds(c, b);
      ZerosAdd(n - 1, 1, Xor(c, b));
      assert Zeros(1, Xor(c, b)) == Step(Zeros(0, Xor(c, b)));
      FeedBitsAreZeros(FeedBit(c, LowBit(b)), Half(b), n - 1);
    }
  }

  lemma EightHalves(b: bv32)
    ensures Half(Half(Half(Half(Half(Half(Half(Half(b)))))))) == Drop(b)
  {}

  lemma Rest8(b: bv32)
    ensures Rest(b, 8) == Drop(b)
  {
    EightHalves(b);
    hide Half;
    assert Rest(b, 8) == Rest(Half(Half(b)), 6) == Rest(Half(Half(Half(Half(b)))), 4)
      == Rest(Half(Half(Half(Half(Half(Half(b)))))), 2);
  }

  lemma WideDrops(b: bv8)
    ensures Drop(Wide(b)) == 0
  {}

  /** A message byte is eight zero bits through the sum of register and byte. */
  lemma FeedByteIsZeros(c: bv32, b: bv8)
    ensures FeedByte(c, b) == Zeros(8, Xor(c, Wide(b)))
  {
    hide Step, Xor, Half, FeedBit, Wide, Zeros, FeedBits, Rest, Drop;
    FeedBitsAreZeros(c, Wide(b), 8);
    Rest8(Wide(b));
    WideDrops(b);
    XorZero(FeedBits(c, Wide(b), 8));
  }

  // ----- bytes of zeros

  lemma EightEven(x: bv32)
    requires Three(x)
    ensures var y := Up(x);
      && !Odd(y) && !Odd(Half(y)) && !Odd(Half(Half(y))) && !Odd(Half(Half(Half(y))))
      && !Odd(Half(Half(Half(Half(y))))) && !Odd(Half(Half(Half(Half(Half(y))))))
      && !Odd(Half(Half(Half(Half(Half(Half(y))))))) && !Odd(Half(Half(Half(Half(Half(Half(Half(y))))))))
      && Half(Half(Half(Half(Half(Half(Half(Half(y)))))))) == x
  {}

  /** Eight zero bits just shift a word whose lowest byte is empty. */
  lemma ZerosUp(x: bv32)
    requires Three(x)
    ensures Zeros(8, Up(x)) == x
  {
    EightEven(x);
    hide Half, Odd, Up;
    var y := Up(x);
    assert Zeros(0, y) == y;
    assert Zeros(2, y) == Half(Half(y));
    assert Zeros(3, y) == Half(Half(Half(y)));
    assert Zeros(4, y) == Half(Half(Half(Half(y))));
    assert Zeros(5, y) == Half(Half(Half(Half(Half(y)))));
    assert Zeros(6, y) == Half(Half(Half(Half(Half(Half(y))))));
    assert Zeros(7, y) == Half(Half(Half(Half(Half(Half(Half(y)))))));
  }

  /** The table entry for a byte followed by k zero bytes. */
  function Entry(k: nat, b: bv8): bv32
  {
    Zeros(8 * (k + 1), Wide(b))
  }

  /** Zeros through a word: those through its lowest byte, and one byte fewer through the rest. */
  lemma ZerosSplit(k: nat, c: bv32)
    ensures Zeros(8 * (k + 1), c) == Xor(Entry(k, Low(c)), Zeros(8 * k, Drop(c)))
  {
    hide Xor, Wide, Low, Drop, Up, Zeros, Three;
    Split(c);
    ZerosLinear(8 * (k + 1), Wide(Low(c)), Up(Drop(c)));
    ZerosAdd(8 * k, 8, Up(Drop(c)));
    ZerosUp(Drop(c));
  }

  /** The byte-at-a-time update of crc32.c. */
  lemma FeedByteByTable(c: bv32, b: bv8)
    ensures FeedByte(c, b) == Xor(Entry(0, Low(c) ^ b), Drop(c))
  {
    hide Xor, Wide, Low, Drop, FeedByte, Entry;
    FeedByteIsZeros(c, b);
    ZerosSplit(0, Xor(c, Wide(b)));
    LowOfSum(c, b);
  }

  /** Four bytes as a little-endian word, in general up to four. */
  function Le(s: seq<bv8>): bv32
  {
    if s == [] then 0 else Xor(Wide(s[0]), Up(Le(s[1..])))
  }

  lemma LeThree(s: seq<bv8>)
    requires |s| <= 3
    ensures Three(Le(s))
  {
    if |s| == 1 {
      assert s[1..] == [];
    } else if |s| == 2 {
      assert s[1..] == [s[1]] && [s[1]][1..] == [];
    } else if |s| == 3 {
      assert s[1..] == [s[1], s[2]] && [s[1], s[2]][1..] == [s[2]] && [s[2]][1..] == [];
    }
  }

  lemma {:induction false} FeedFront(c: bv32, b: bv8, s: seq<bv8>)
    ensures Feed(c, [b] + s) == Feed(FeedByte(c, b), s)
  {
    hide FeedByte;
    if s == [] {
      assert [b] + s == [b] && [b][..0] == [];
      assert Feed(c, [b]) == FeedByte(Feed(c, []), b);
    } else {
      var n := |s| - 1;
      assert ([b] + s)[..n + 1] == [b] + s[..n];
      FeedFront(c, b, s[..n]);
    }
  }

  /** Up to four bytes are that many bytes of zeros through the sum of register and word. */
  lemma {:induction false} FeedWord(c: bv32, s: seq<bv8>)
    requires |s| <= 4
    ensures Feed(c, s) == Zeros(8 * |s|, Xor(c, Le(s)))
    decreases |s|
  {
    hide Xor, FeedByte, Wide, Up, Three;
    if s == [] {
      XorZero(c);
    } else {
      var t := s[1..];
      assert s == [s[0]] + t;
      FeedFront(c, s[0], t);
      FeedWord(FeedByte(c, s[0]), t);
      FeedByteIsZeros(c, s[0]);
      LeThree(t);
      ZerosUp(Le(t));
      ZerosLinear(8, Xor(c, Wide(s[0])), Up(Le(t)));
      XorAssoc(c, Wide(s[0]), Up(Le(t)));
      ZerosAdd(8 * |t|, 8, Xor(c, Le(s)));
    }
  }

  /** DOLIT4: four table lookups replace four byte updates. */
  lemma FeedWordByTable(c: bv32, s: seq<bv8>)
    requires |s| == 4
    ensures var x := Xor(c, Le(s));
      Feed(c, s) == Xor(Xor(Xor(Entry(3, Low(x)), Entry(2, Low(Drop(x)))), Entry(1, Low(Drop(Drop(x))))),
                        Entry(0, Low(Drop(Drop(Drop(x))))))
  {
    hide Xor, Low, Drop, Entry, Le, Zeros;
    var x := Xor(c, Le(s));
    FeedWord(c, s);
    ZerosSplit(3, x);
    ZerosSplit(2, Drop(x));
    ZerosSplit(1, Drop(Drop(x)));
    ZerosSplit(0, Drop(Drop(Drop(x))));
    DropAll(x);
    ZerosOfZero(0);
    var e3, e2, e1, e0 := Entry(3, Low(x)), Entry(2, Low(Drop(x))), Entry(1, Low(Drop(Drop(x)))),
      Entry(0, Low(Drop(Drop(Drop(x)))));
    XorZero(e0);
    XorAssoc(e3, e2, Xor(e1, e0));
    XorAssoc(Xor(e3, e2), e1, e0);
  }

  lemma {:induction false} FeedConcat(c: bv32, s: seq<bv8>, t: seq<bv8>)
    ensures Feed(c, s + t) == Feed(Feed(c, s), t)
  {
    hide FeedByte;
    if t == [] {
      assert s + t == s;
    } else {
      var n := |t| - 1;
      assert (s + t)[..|s| + n] == s + t[..n];
      FeedConcat(c, s, t[..n]);
    }
  }

  // ----- the tables

  /** The exclusive-or pattern collects the terms of the polynomial except x^32. */
  lemma PolynomialTerms()
    ensures POLY == (1 << 31) | (1 << 30) | (1 << 29) | (1 << 27) | (1 << 26) | (1 << 24) | (1 << 23)
                    | (1 << 21) | (1 << 20) | (1 << 19) | (1 << 15) | (1 << 9) | (1 << 8) | (1 << 5)
  {}

  ghost predicate ColumnOk(t: array2<bv32>, b: bv8)
    requires t.Length0 == 8 && t.Length1 == 256
    reads t
  {
    var n := Index8(b);
    && t[0, n] == Entry(0, b) && t[1, n] == Entry(1, b) && t[2, n] == Entry(2, b) && t[3, n] == Entry(3, b)
    && t[4, n] == Swap(Entry(0, b)) && t[5, n] == Swap(Entry(1, b))
    && t[6, n] == Swap(Entry(2, b)) && t[7, n] == Swap(Entry(3, b))
  }

  /** crc_table as make_crc_table leaves it: table k holds the checksum register of every byte
      followed by k zero bytes, and tables 4 to 7 hold their byte swaps. */
  ghost predicate TablesOk(t: array2<bv32>)
    reads t
  {
    t.Length0 == 8 && t.Length1 == 256 && forall b: bv8 :: ColumnOk(t, b)
  }

  method MakeCrcTable(t: array2<bv32>)
    requires t.Length0 == 8 && t.Length1 == 256
    modifies t
    ensures TablesOk(t)
  {
    hide Index8, Entry, Swap;
    for n := 0 to 256
      invariant forall b: bv8 :: Index8(b) < n ==> t[0, Index8(b)] == Entry(0, b)
    {
      Index8Of(n);
      forall b: bv8 | Index8(b) == n ensures b == n as bv8 { Index8Injective(b, n as bv8); }
      var c := ByteRegister(n as bv8);
      t[0, n] := c;
    }
    for n := 0 to 256
      invariant forall b: bv8 :: t[0, Index8(b)] == Entry(0, b)
      invariant forall b: bv8 :: Index8(b) < n ==> ColumnOk(t, b)
    {
      Index8Of(n);
      forall b: bv8 | Index8(b) == n ensures b == n as bv8 { Index8Injective(b, n as bv8); }
      FillColumn(t, n as bv8);
    }
  }

  /** The inner loop for the first table: eight steps through a byte. */
  method ByteRegister(b: bv8) returns (c: bv32)
    ensures c == Entry(0, b)
  {
    hide Step;
    c := Wide(b);
    for k := 0 to 8
      invariant c == Zeros(k, Wide(b))
    {
      c := Step(c);
    }
  }

  /** The other seven tables at one byte. */
  method FillColumn(t: array2<bv32>, b: bv8)
    requires t.Length0 == 8 && t.Length1 == 256 && forall x: bv8 :: t[0, Index8(x)] == Entry(0, x)
    modifies t
    ensures ColumnOk(t, b)
    ensures forall i, j | 0 <= i < 8 && 0 <= j < 256 && (i == 0 || j != Index8(b)) :: t[i, j] == old(t[i, j])
  {
    hide Index8, Entry, Swap, Xor, Low, Drop;
    var n := Index8(b);
    var c := t[0, n];
    t[4, n] := Swap(c);
    c := FillEntry(t, b, 1, c);
    c := FillEntry(t, b, 2, c);
    c := FillEntry(t, b, 3, c);
  }

  /** One round of the inner loop: the checksum with one more zero byte. */
  method FillEntry(t: array2<bv32>, b: bv8, k: nat, c: bv32) returns (c': bv32)
    requires t.Length0 == 8 && t.Length1 == 256 && 1 <= k <= 3 && c == Entry(k - 1, b)
    requires t[0, Index8(Low(c))] == Entry(0, Low(c))
    modifies t
    ensures c' == Entry(k, b) && t[k, Index8(b)] == c' && t[k + 4, Index8(b)] == Swap(c')
    ensures forall i, j | 0 <= i < 8 && 0 <= j < 256 && (j != Index8(b) || (i != k && i != k + 4)) ::
      t[i, j] == old(t[i, j])
  {
    hide Index8, Entry, Swap, Xor, Low, Drop;
    NextEntry(k - 1, b);
    c' := Xor(t[0, Index8(Low(c))], Drop(c));
    t[k, Index8(b)] := c';
    t[k + 4, Index8(b)] := Swap(c');
  }

  lemma NextEntry(k: nat, b: bv8)
    ensures Entry(k + 1, b) == Xor(Entry(0, Low(Entry(k, b))), Drop(Entry(k, b)))
  {
    hide Xor, Low, Drop, Step, Wide;
    ZerosAdd(8, 8 * (k + 1), Wide(b));
    ZerosSplit(0, Entry(k, b));
  }

  // ----- the loops

  /** A byte through table 0. */
  method LittleByte(t: array2<bv32>, c: bv32, b: bv8) returns (r: bv32)
    requires TablesOk(t)
    ensures r == FeedByte(c, b)
  {
    hide Index8, Entry, Swap, FeedByte;
    FeedByteByTable(c, b);
    LowOfSum(c, b);
    assert ColumnOk(t, Low(c) ^ b);
    hide Xor, Low, Drop, Wide, TablesOk;
    r := Xor(t[0, Index8(Low(Xor(c, Wide(b))))], Drop(c));
  }

  /** A 32-bit load on a little-endian machine. */
  function LoadLittle(s: seq<bv8>): bv32
    requires |s| == 4
  {
    (s[0] as bv32) | ((s[1] as bv32) << 8) | ((s[2] as bv32) << 16) | ((s[3] as bv32) << 24)
  }

  lemma LoadLittleIs(s: seq<bv8>)
    requires |s| == 4
    ensures LoadLittle(s) == Le(s)
  {
    hide Xor, Up, Wide;
    assert s[1..][1..] == s[2..] && s[2..][1..] == s[3..] && s[3..][1..] == [];
    assert Le([]) == 0;
    assert Le(s[3..]) == Xor(Wide(s[3]), Up(0));
    assert Le(s[2..]) == Xor(Wide(s[2]), Up(Le(s[3..])));
    assert Le(s) == Xor(Wide(s[0]), Up(Xor(Wide(s[1]), Up(Le(s[2..])))));
    WordOfBytes(s[0], s[1], s[2], s[3]);
  }

  lemma WordOfBytes(a: bv8, b: bv8, c: bv8, d: bv8)
    ensures (a as bv32) | ((b as bv32) << 8) | ((c as bv32) << 16) | ((d as bv32) << 24)
      == Xor(Wide(a), Up(Xor(Wide(b), Up(Xor(Wide(c), Up(Xor(Wide(d), Up(0))))))))
  {}

  /** DOLIT4 */
  method LittleWord(t: array2<bv32>, c: bv32, s: seq<bv8>) returns (r: bv32)
    requires TablesOk(t) && |s| == 4
    ensures r == Feed(c, s)
  {
    hide Index8, Entry, Swap, Feed, LoadLittle;
    FeedWordByTable(c, s);
    LoadLittleIs(s);
    var x := Xor(c, LoadLittle(s));
    assert ColumnOk(t, Low(x)) && ColumnOk(t, Low(Drop(x))) && ColumnOk(t, Low(Drop(Drop(x))))
      && ColumnOk(t, Low(Drop(Drop(Drop(x)))));
    hide Xor, Low, Drop, TablesOk;
    r := Xor(Xor(Xor(t[3, Index8(Low(x))], t[2, Index8(Low(Drop(x)))]), t[1, Index8(Low(Drop(Drop(x))))]),
             t[0, Index8(Low(Drop(Drop(Drop(x)))))]);
  }

  /** crc32_little: bytes up to a word boundary of the buffer's address, then words, 32 bytes to a
      round, then the remaining bytes. */
  method Crc32Little(t: array2<bv32>, crc: bv32, buf: seq<bv8>, addr: nat) returns (r: bv32)
    requires TablesOk(t)
    ensures r == Crc(crc, buf)
  {
    hide TablesOk, Xor, FeedByte, Feed;
    var c := Xor(crc, ONES);
    var i := 0;
    FeedStart(c, buf);
    while i < |buf| && (addr + i) % 4 != 0
      invariant 0 <= i <= |buf| && c == Feed(Xor(crc, ONES), buf[..i])
    {
      FeedNext(Xor(crc, ONES), buf, i, 1);
      FeedOne(c, buf[i..i + 1]);
      c := LittleByte(t, c, buf[i]);
      i := i + 1;
    }
    while |buf| - i >= 32
      invariant 0 <= i <= |buf| && c == Feed(Xor(crc, ONES), buf[..i])
    {
      var start := i;
      for j := 0 to 8
        invariant i + 4 * (8 - j) <= |buf| && 0 <= i && c == Feed(Xor(crc, ONES), buf[..i])
        invariant i == start + 4 * j
      {
        FeedNext(Xor(crc, ONES), buf, i, 4);
        c := LittleWord(t, c, buf[i..i + 4]);
        i := i + 4;
      }
    }
    while |buf| - i >= 4
      invariant 0 <= i <= |buf| && c == Feed(Xor(crc, ONES), buf[..i])
    {
      FeedNext(Xor(crc, ONES), buf, i, 4);
      c := LittleWord(t, c, buf[i..i + 4]);
      i := i + 4;
    }
    while i < |buf|
      invariant 0 <= i <= |buf| && c == Feed(Xor(crc, ONES), buf[..i])
    {
      FeedNext(Xor(crc, ONES), buf, i, 1);
      FeedOne(c, buf[i..i + 1]);
      c := LittleByte(t, c, buf[i]);
      i := i + 1;
    }
    assert buf[..i] == buf;
    r := Xor(c, ONES);
  }

  lemma FeedStart(c: bv32, s: seq<bv8>)
    ensures Feed(c, s[..0]) == c
  {}

  lemma FeedOne(c: bv32, s: seq<bv8>)
    requires |s| == 1
    ensures Feed(c, s) == FeedByte(c, s[0])
  {
    hide FeedByte;
    assert Feed(c, s[..0]) == c;
  }

  lemma FeedNext(c: bv32, s: seq<bv8>, i: nat, n: nat)
    requires i + n <= |s|
    ensures Feed(c, s[..i + n]) == Feed(Feed(c, s[..i]), s[i..i + n])
  {
    hide Feed;
    assert s[..i + n] == s[..i] + s[i..i + n];
    FeedConcat(c, s[..i], s[i..i + n]);
  }

  /** One byte on a big-endian machine, whose register is byte-swapped. */
  method BigByte(t: array2<bv32>, c: bv32, b: bv8, ghost reg: bv32) returns (r: bv32)
    requires TablesOk(t) && c == Swap(reg)
    ensures r == Swap(FeedByte(reg, b))
  {
    hide Index8, Entry, FeedByte, Swap, Xor, Up, Drop, Low, High;
    FeedByteByTable(reg, b);
    SwapParts(reg);
    SwapXor(Entry(0, Low(reg) ^ b), Drop(reg));
    assert ColumnOk(t, Low(reg) ^ b);
    hide TablesOk;
    r := Xor(t[4, Index8(High(c) ^ b)], Up(c));
  }

  /** A 32-bit load on a big-endian machine. */
  function LoadBig(s: seq<bv8>): bv32
    requires |s| == 4
  {
    ((s[0] as bv32) << 24) | ((s[1] as bv32) << 16) | ((s[2] as bv32) << 8) | (s[3] as bv32)
  }

  lemma LoadBigIs(s: seq<bv8>)
    requires |s| == 4
    ensures LoadBig(s) == Swap(LoadLittle(s))
  {
    SwappedBytes(s[0], s[1], s[2], s[3]);
  }

  lemma SwappedBytes(a: bv8, b: bv8, c: bv8, d: bv8)
    ensures ((a as bv32) << 24) | ((b as bv32) << 16) | ((c as bv32) << 8) | (d as bv32)
      == Swap((a as bv32) | ((b as bv32) << 8) | ((c as bv32) << 16) | ((d as bv32) << 24))
  {}

  /** DOBIG4 */
  method BigWord(t: array2<bv32>, c: bv32, s: seq<bv8>, ghost reg: bv32) returns (r: bv32)
    requires TablesOk(t) && |s| == 4 && c == Swap(reg)
    ensures r == Swap(Feed(reg, s))
  {
    hide Index8, Entry, Feed, Swap, Xor, Up, Drop, Low, High, LoadBig, LoadLittle, Le;
    ghost var y := Xor(reg, Le(s));
    LoadBigIs(s);
    LoadLittleIs(s);
    SwapXor(reg, Le(s));
    var x := Xor(c, LoadBig(s));
    SwapParts(y);
    BigLookup(reg, s);
    assert ColumnOk(t, Low(x)) && ColumnOk(t, Low(Drop(x))) && ColumnOk(t, Low(Drop(Drop(x)))) && ColumnOk(t, High(x));
    hide TablesOk;
    r := Xor(Xor(Xor(t[4, Index8(Low(x))], t[5, Index8(Low(Drop(x)))]), t[6, Index8(Low(Drop(Drop(x))))]),
             t[7, Index8(High(x))]);
  }

  /** The four lookups in the order of a byte-swapped register. */
  lemma BigLookup(reg: bv32, s: seq<bv8>)
    requires |s| == 4
    ensures var y := Xor(reg, Le(s));
      Swap(Feed(reg, s)) == Xor(Xor(Xor(Swap(Entry(0, Low(Drop(Drop(Drop(y)))))), Swap(Entry(1, Low(Drop(Drop(y)))))),
                                    Swap(Entry(2, Low(Drop(y))))), Swap(Entry(3, Low(y))))
  {
    hide Entry, Feed, Swap, Xor, Drop, Low, Le;
    var y := Xor(reg, Le(s));
    FeedWordByTable(reg, s);
    var e3, e2, e1, e0 := Entry(3, Low(y)), Entry(2, Low(Drop(y))), Entry(1, Low(Drop(Drop(y)))),
      Entry(0, Low(Drop(Drop(Drop(y)))));
    SwapXor(Xor(Xor(e3, e2), e1), e0);
    SwapXor(Xor(e3, e2), e1);
    SwapXor(e3, e2);
    XorReverse(Swap(e3), Swap(e2), Swap(e1), Swap(e0));
  }

  lemma XorReverse(a: bv32, b: bv32, c: bv32, d: bv32)
    ensures Xor(Xor(Xor(a, b), c), d) == Xor(Xor(Xor(d, c), b), a)
  {
    hide Xor;
    XorComm(Xor(Xor(a, b), c), d);
    XorComm(Xor(a, b), c);
    XorComm(a, b);
    XorAssoc(d, c, Xor(b, a));
    XorAssoc(Xor(d, c), b, a);
  }

  lemma SwapOnes(c: bv32)
    ensures Swap(Xor(c, ONES)) == Xor(Swap(c), ONES) && Swap(Xor(Swap(c), ONES)) == Xor(c, ONES)
  {}

  /** crc32_big */
  method Crc32Big(t: array2<bv32>, crc: bv32, buf: seq<bv8>, addr: nat) returns (r: bv32)
    requires TablesOk(t)
    ensures r == Crc(crc, buf)
  {
    hide TablesOk, Xor, FeedByte, Feed, Swap;
    ghost var start := Xor(crc, ONES);
    SwapOnes(crc);
    var c := Xor(Swap(crc), ONES);
    var i := 0;
    FeedStart(start, buf);
    while i < |buf| && (addr + i) % 4 != 0
      invariant 0 <= i <= |buf| && c == Swap(Feed(start, buf[..i]))
    {
      FeedNext(start, buf, i, 1);
      FeedOne(Feed(start, buf[..i]), buf[i..i + 1]);
      c := BigByte(t, c, buf[i], Feed(start, buf[..i]));
      i := i + 1;
    }
    while |buf| - i >= 32
      invariant 0 <= i <= |buf| && c == Swap(Feed(start, buf[..i]))
    {
      var from := i;
      for j := 0 to 8
        invariant i + 4 * (8 - j) <= |buf| && 0 <= i && c == Swap(Feed(start, buf[..i]))
        invariant i == from + 4 * j
      {
        FeedNext(start, buf, i, 4);
        c := BigWord(t, c, buf[i..i + 4], Feed(start, buf[..i]));
        i := i + 4;
      }
    }
    while |buf| - i >= 4
      invariant 0 <= i <= |buf| && c == Swap(Feed(start, buf[..i]))
    {
      FeedNext(start, buf, i, 4);
      c := BigWord(t, c, buf[i..i + 4], Feed(start, buf[..i]));
      i := i + 4;
    }
    while i < |buf|
      invariant 0 <= i <= |buf| && c == Swap(Feed(start, buf[..i]))
    {
      FeedNext(start, buf, i, 1);
      FeedOne(Feed(start, buf[..i]), buf[i..i + 1]);
      c := BigByte(t, c, buf[i], Feed(start, buf[..i]));
      i := i + 1;
    }
    assert buf[..i] == buf;
    SwapOnes(Feed(start, buf));
    c := Xor(c, ONES);
    r := Swap(c);
  }

  datatype Buffer = Null | Bytes(bytes: seq<bv8>, addr: nat)

  datatype Machine = Little | Big | NoFourByteWords

  /** crc32(): 0 for a null buffer, otherwise the loop that suits the machine. */
  method Crc32Of(t: array2<bv32>, crc: bv32, buf: Buffer, machine: Machine) returns (r: bv32)
    requires TablesOk(t)
    ensures r == if buf.Null? then 0 else Crc(crc, buf.bytes)
  {
    hide TablesOk, Crc;
    match buf
    case Null => r := 0;
    case Bytes(bytes, addr) =>
      match machine {
        case Little => r := Crc32Little(t, crc, bytes, addr);
        case Big => r := Crc32Big(t, crc, bytes, addr);
        case NoFourByteWords => r := Crc32Bytes(t, crc, bytes);
      }
  }

  /** The loop of crc32() where no four-byte words are available: eight bytes to a round. */
  method Crc32Bytes(t: array2<bv32>, crc: bv32, buf: seq<bv8>) returns (r: bv32)
    requires TablesOk(t)
    ensures r == Crc(crc, buf)
  {
    hide TablesOk, Xor, FeedByte, Feed;
    ghost var start := Xor(crc, ONES);
    var c, i := Xor(crc, ONES), 0;
    FeedStart(start, buf);
    while |buf| - i >= 8
      invariant 0 <= i <= |buf| && c == Feed(start, buf[..i])
    {
      var from := i;
      for j := 0 to 8
        invariant i == from + j && from + 8 <= |buf| && c == Feed(start, buf[..i])
      {
        FeedNext(start, buf, i, 1);
        FeedOne(c, buf[i..i + 1]);
        c := LittleByte(t, c, buf[i]);
        i := i + 1;
      }
    }
    while i < |buf|
      invariant 0 <= i <= |buf| && c == Feed(start, buf[..i])
    {
      FeedNext(start, buf, i, 1);
      FeedOne(c, buf[i..i + 1]);
      c := LittleByte(t, c, buf[i]);
      i := i + 1;
    }
    assert buf[..i] == buf;
    r := Xor(c, ONES);
  }
}
