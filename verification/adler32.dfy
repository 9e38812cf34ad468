/** Adler-32 of adler32.c: deferred reductions that never leave 32 bits, division-free remainders,
    and the combination of two checksums (sections 2.2 and 9 of RFC 1950). */
module Adler32 {
  import opened Words

  const BASE := 65521
  const NMAX := 5552

  /** unsigned long in the worst case: every value assigned is checked to fit. */
  newtype uint32 = x: int | 0 <= x < 0x1_0000_0000

  // ----- the definition

  /** The two sums, each kept modulo BASE after every byte. */
  datatype Sums = Sums(s1: int, s2: int) {
    predicate Valid() { 0 <= s1 < BASE && 0 <= s2 < BASE }
  }

  function AddByte(s: Sums, b: bv8): Sums
  {
    var s1 := (s.s1 + Index8(b)) % BASE;
    Sums(s1, (s.s2 + s1) % BASE)
  }

  function AddBytes(s: Sums, buf: seq<bv8>): Sums
  {
    if buf == [] then s else AddByte(AddBytes(s, buf[..|buf| - 1]), buf[|buf| - 1])
  }

  /** A checksum is the second sum above the first. */
  function Pack(s: Sums): int { s.s2 * 65536 + s.s1 }

  function Unpack(adler: int): Sums { Sums(adler % 65536, adler / 65536 % 65536) }

  /** A checksum that adler32 can have returned. */
  predicate IsChecksum(adler: int) { 0 <= adler < 0x1_0000_0000 && Unpack(adler).Valid() }

  function Adler(adler: int, buf: seq<bv8>): int { Pack(AddBytes(Unpack(adler), buf)) }

  // ----- the sums without reduction

  function Sum(buf: seq<bv8>): nat
  {
    if buf == [] then 0 else Sum(buf[..|buf| - 1]) + Index8(buf[|buf| - 1])
  }

  /** Every byte counted once for itself and once for each byte after it. */
  function Weighted(buf: seq<bv8>): nat
  {
    if buf == [] then 0 else Weighted(buf[..|buf| - 1]) + Sum(buf)
  }

  /** Two numbers with the same remainder. */
  predicate Same(a: int, b: int) { a % BASE == b % BASE }

  lemma SameSum(a: int, b: int, c: int, d: int)
    requires Same(a, b) && Same(c, d)
    ensures Same(a + c, b + d)
  {}

  lemma SameReduced(a: int)
    ensures Same(a % BASE, a) && 0 <= a % BASE < BASE
  {}

  lemma {:induction false} AddBytesIsSums(s: Sums, buf: seq<bv8>)
    requires s.Valid()
    ensures AddBytes(s, buf).Valid()
    ensures Same(AddBytes(s, buf).s1, s.s1 + Sum(buf))
    ensures Same(AddBytes(s, buf).s2, s.s2 + |buf| * s.s1 + Weighted(buf))
  {
    hide Index8, Same;
    if buf == [] {
      assert Same(s.s1, s.s1) && Same(s.s2, s.s2) by { SameReflexive(s.s1); SameReflexive(s.s2); }
    } else {
      var n := |buf| - 1;
      var x, y := s.s1 + Sum(buf[..n]), s.s2 + n * s.s1 + Weighted(buf[..n]);
      AddBytesIsSums(s, buf[..n]);
      AddByteIsSums(AddBytes(s, buf[..n]), buf[n], x, y);
      assert s.s1 + Sum(buf) == x + Index8(buf[n]);
      assert s.s2 + |buf| * s.s1 + Weighted(buf) == y + x + Index8(buf[n]) by { OneMore(n, s.s1); }
      hide AddByte, Sums.Valid;
    }
  }

  lemma OneMore(n: int, a: int)
    ensures (n + 1) * a == n * a + a
  {}

  lemma SameReflexive(a: int)
    ensures Same(a, a)
  {}

  lemma AddByteIsSums(t: Sums, b: bv8, x: int, y: int)
    requires Same(t.s1, x) && Same(t.s2, y)
    ensures AddByte(t, b).Valid()
    ensures Same(AddByte(t, b).s1, x + Index8(b))
    ensures Same(AddByte(t, b).s2, y + x + Index8(b))
  {
    hide Index8, Same;
    var i := Index8(b);
    var s1 := (t.s1 + i) % BASE;
    SameReflexive(i);
    SameSum(t.s1, x, i, i);
    SameReduced(t.s1 + i);
    SameTransitive(s1, t.s1 + i, x + i);
    SameSum(t.s2, y, s1, x + i);
    SameReduced(t.s2 + s1);
    SameTransitive((t.s2 + s1) % BASE, t.s2 + s1, y + (x + i));
  }

  lemma SameTransitive(a: int, b: int, c: int)
    requires Same(a, b) && Same(b, c)
    ensures Same(a, c)
  {}

  lemma {:induction false} SumBounds(buf: seq<bv8>)
    ensures Sum(buf) <= 255 * |buf|
    ensures 2 * Weighted(buf) <= 255 * |buf| * (|buf| + 1)
  {
    hide Index8;
    if buf != [] {
      var n := |buf| - 1;
      SumBounds(buf[..n]);
      assert 255 * (n + 1) * (n + 2) == 255 * n * (n + 1) + 2 * (255 * (n + 1));
    }
  }

  lemma {:induction false} AddBytesConcat(s: Sums, a: seq<bv8>, b: seq<bv8>)
    ensures AddBytes(s, a + b) == AddBytes(AddBytes(s, a), b)
  {
    hide AddByte;
    if b == [] {
      assert a + b == a;
    } else {
      var n := |b| - 1;
      assert (a + b)[..|a| + n] == a + b[..n];
      AddBytesConcat(s, a, b[..n]);
    }
  }

  // ----- remainders without division

  /** CHOP: 65536 leaves 15 modulo BASE. */
  function Chop(a: nat): nat { a % 65536 + (a / 65536) * 16 - a / 65536 }

  function Mod28(a: nat): nat
  {
    var c := Chop(a);
    if c >= BASE then c - BASE else c
  }

  function Mod(a: nat): nat { Mod28(Chop(a)) }

  function Mod63(a: nat): nat
  {
    var hi := a / 0x1_0000_0000;
    var b := a % 0x1_0000_0000 + hi * 256 - hi * 32 + hi;
    Mod28(Chop(b))
  }

  lemma ChopSame(a: nat)
    ensures Same(Chop(a), a)
  {
    assert a == a / 65536 * 65536 + a % 65536;
    assert Chop(a) == a - a / 65536 * BASE;
    RemainderDrops(a, a / 65536);
  }

  lemma RemainderDrops(a: int, q: int)
    ensures (a - q * BASE) % BASE == a % BASE
  {}

  /** The first value whose chopped form reaches twice BASE; it is more than 2^28. */
  const MOD28_LIMIT := 4368 * 65536 + 65522

  /** One chop and one subtraction suffice below the limit. */
  lemma Mod28IsRemainder(a: nat)
    requires a < MOD28_LIMIT
    ensures Mod28(a) == a % BASE
  {
    ChopSame(a);
  }

  lemma ModIsRemainder(a: nat)
    requires a < 0x1_0000_0000
    ensures Mod(a) == a % BASE
  {
    ChopSame(a);
    Mod28IsRemainder(Chop(a));
  }

  lemma Mod63IsRemainder(a: nat)
    requires a < 0x8000_0000_0000_0000
    ensures Mod63(a) == a % BASE
  {
    var hi := a / 0x1_0000_0000;
    var b := a % 0x1_0000_0000 + hi * 256 - hi * 32 + hi;
    assert b == a - hi * (0x1_0000_0000 - 225);
    assert 0x1_0000_0000 - 225 == 65551 * BASE;
    RemainderDrops(a, hi * 65551);
    ChopSame(b);
    Mod28IsRemainder(Chop(b));
  }

  /** At the limit the single subtraction is not enough; every smaller value is right. */
  lemma Mod28BoundIsTight(a: nat)
    ensures (forall b: nat | b <= a :: Mod28(b) == b % BASE) <==> a < MOD28_LIMIT
  {
    if a < MOD28_LIMIT {
      forall b: nat | b <= a ensures Mod28(b) == b % BASE {
        Mod28IsRemainder(b);
      }
    } else {
      assert Mod28(MOD28_LIMIT) != MOD28_LIMIT % BASE;
    }
  }

  // ----- adler32()

  /** The largest number of bytes whose unreduced second sum fits 32 bits, from any valid sums. */
  lemma NmaxFits(s: Sums, buf: seq<bv8>)
    requires s.Valid() && |buf| <= NMAX
    ensures s.s1 + Sum(buf) < 0x1_0000_0000 && s.s2 + |buf| * s.s1 + Weighted(buf) < 0x1_0000_0000
  {
    SumBounds(buf);
    var n := |buf|;
    assert n * s.s1 <= NMAX * (BASE - 1) by { Products(n, NMAX, s.s1, BASE - 1); }
    assert n * (n + 1) <= NMAX * (NMAX + 1) by { Products(n, NMAX, n + 1, NMAX + 1); }
    assert 255 * n * (n + 1) == 255 * (n * (n + 1));
  }

  lemma Products(a: nat, b: nat, c: nat, d: nat)
    requires a <= b && c <= d
    ensures a * c <= b * d
  {
    assert a * c <= b * c;
    assert b * c <= b * d;
  }

  ghost predicate SecondSumFits(s: Sums, buf: seq<bv8>)
  {
    s.s2 + |buf| * s.s1 + Weighted(buf) < 0x1_0000_0000
  }

  /** NMAX is exact: n bytes fit from any valid sums, whatever the bytes, if and only if n is at most
      NMAX. */
  lemma NmaxIsLargest(n: nat)
    ensures (forall s: Sums, buf: seq<bv8> | s.Valid() && |buf| == n :: SecondSumFits(s, buf)) <==> n <= NMAX
  {
    if n <= NMAX {
      forall s: Sums, buf: seq<bv8> | s.Valid() && |buf| == n ensures SecondSumFits(s, buf) {
        NmaxFits(s, buf);
      }
    } else {
      var s, buf := Sums(BASE - 1, BASE - 1), seq<bv8>(n, i => 255);
      LargestSums(buf);
      assert n * s.s1 >= (NMAX + 1) * s.s1 by { Products(NMAX + 1, n, s.s1, s.s1); }
      assert n * (n + 1) >= (NMAX + 1) * (NMAX + 2) by { Products(NMAX + 1, n, NMAX + 2, n + 1); }
      assert 255 * n * (n + 1) == 255 * (n * (n + 1));
      assert !SecondSumFits(s, buf);
    }
  }

  /** Bytes of 255 reach the bounds. */
  lemma {:induction false} LargestSums(buf: seq<bv8>)
    requires forall i | 0 <= i < |buf| :: buf[i] == 255
    ensures Sum(buf) == 255 * |buf|
    ensures 2 * Weighted(buf) == 255 * |buf| * (|buf| + 1)
  {
    if buf != [] {
      var n := |buf| - 1;
      LargestSums(buf[..n]);
      assert 255 * (n + 1) * (n + 2) == 255 * n * (n + 1) + 2 * (255 * (n + 1));
    }
  }

  lemma {:induction false} SumAppend(buf: seq<bv8>, b: bv8)
    ensures Sum(buf + [b]) == Sum(buf) + Index8(b)
    ensures Weighted(buf + [b]) == Weighted(buf) + Sum(buf + [b])
  {
    assert (buf + [b])[..|buf|] == buf;
  }

  /** Adds at most NMAX bytes without any reduction; a and b are the two sums. */
  method AddRun(a0: uint32, b0: uint32, buf: seq<bv8>) returns (a: uint32, b: uint32)
    requires Sums(a0 as int, b0 as int).Valid() && |buf| <= NMAX
    ensures a as int == a0 as int + Sum(buf)
    ensures b as int == b0 as int + |buf| * a0 as int + Weighted(buf)
  {
    hide Index8, Sum, Weighted;
    a, b := a0, b0;
    SumNone();
    var i := 0;
    while i < |buf|
      invariant 0 <= i <= |buf| && a as int == a0 as int + Sum(buf[..i])
      invariant b as int == b0 as int + i * a0 as int + Weighted(buf[..i])
    {
      SumAppend(buf[..i], buf[i]);
      assert buf[..i] + [buf[i]] == buf[..i + 1];
      NmaxFits(Sums(a0 as int, b0 as int), buf[..i + 1]);
      assert (i + 1) * a0 as int == i * a0 as int + a0 as int;
      a := a + Index8(buf[i]) as uint32;
      b := b + a;
      i := i + 1;
    }
    assert buf[..i] == buf;
  }

  lemma SumNone()
    ensures Sum([]) == 0 && Weighted([]) == 0
  {}

  /** Adds a run and reduces once. */
  method ReduceRun(a0: uint32, b0: uint32, buf: seq<bv8>) returns (a: uint32, b: uint32)
    requires Sums(a0 as int, b0 as int).Valid() && |buf| <= NMAX
    ensures Sums(a as int, b as int) == AddBytes(Sums(a0 as int, b0 as int), buf)
  {
    hide Index8, Sum, Weighted, AddBytes;
    AddBytesIsSums(Sums(a0 as int, b0 as int), buf);
    a, b := AddRun(a0, b0, buf);
    a := a % (BASE as uint32);
    b := b % (BASE as uint32);
  }

  /** One byte: a single subtraction per sum. */
  method OneByte(a0: uint32, b0: uint32, c: bv8) returns (a: uint32, b: uint32)
    requires Sums(a0 as int, b0 as int).Valid()
    ensures Sums(a as int, b as int) == AddBytes(Sums(a0 as int, b0 as int), [c])
  {
    hide Index8;
    assert [c][..0] == [] && AddBytes(Sums(a0 as int, b0 as int), []) == Sums(a0 as int, b0 as int);
    a := a0 + Index8(c) as uint32;
    if a >= BASE as uint32 { a := a - BASE as uint32; }
    b := b0 + a;
    if b >= BASE as uint32 { b := b - BASE as uint32; }
  }

  /** Fewer than 16 bytes: a single subtraction for the first sum. */
  method ShortRun(a0: uint32, b0: uint32, buf: seq<bv8>) returns (a: uint32, b: uint32)
    requires Sums(a0 as int, b0 as int).Valid() && |buf| < 16
    ensures Sums(a as int, b as int) == AddBytes(Sums(a0 as int, b0 as int), buf)
  {
    hide Index8, Sum, Weighted, AddBytes;
    AddBytesIsSums(Sums(a0 as int, b0 as int), buf);
    SumBounds(buf);
    a, b := AddRun(a0, b0, buf);
    assert a as int < 2 * BASE;
    OneSubtraction(a as int, AddBytes(Sums(a0 as int, b0 as int), buf).s1);
    hide Same;
    if a >= BASE as uint32 { a := a - BASE as uint32; }
    b := b % (BASE as uint32);
  }

  /** Below twice BASE a single subtraction is the remainder. */
  lemma OneSubtraction(a: int, r: int)
    requires 0 <= a < 2 * BASE && Same(r, a) && 0 <= r < BASE
    ensures r == if a >= BASE then a - BASE else a
  {}

  /** 16 bytes or more: runs of NMAX bytes, then the remaining ones if there are any. */
  method LongRun(a0: uint32, b0: uint32, buf: seq<bv8>) returns (a: uint32, b: uint32)
    requires Sums(a0 as int, b0 as int).Valid()
    ensures Sums(a as int, b as int) == AddBytes(Sums(a0 as int, b0 as int), buf)
  {
    hide Index8, Sum, Weighted, AddBytes;
    ghost var s := Sums(a0 as int, b0 as int);
    a, b := a0, b0;
    var i := 0;
    NothingAdded(s);
    while |buf| - i >= NMAX
      invariant 0 <= i <= |buf| && Sums(a as int, b as int) == AddBytes(s, buf[..i])
    {
      AddBytesIsSums(s, buf[..i]);
      AddBytesConcat(s, buf[..i], buf[i..i + NMAX]);
      assert buf[..i] + buf[i..i + NMAX] == buf[..i + NMAX];
      a, b := ReduceRun(a, b, buf[i..i + NMAX]);
      i := i + NMAX;
    }
    AddBytesIsSums(s, buf[..i]);
    AddBytesConcat(s, buf[..i], buf[i..]);
    assert buf[..i] + buf[i..] == buf;
    if i < |buf| {
      a, b := ReduceRun(a, b, buf[i..]);
    } else {
      assert buf[..i] == buf;
    }
  }

  lemma NothingAdded(s: Sums)
    ensures AddBytes(s, []) == s
  {}

  datatype Buffer = Null | Bytes(bytes: seq<bv8>)

  /** The two halves of a checksum are the two sums of its bytes. */
  lemma SumsOf(adler: int, bytes: seq<bv8>)
    requires IsChecksum(adler)
    ensures var a, b, n, r := adler % 65536, adler / 65536, |bytes|, Adler(adler, bytes);
      r % 65536 == (a + Sum(bytes)) % 65521 && r / 65536 == (b + n * a + Weighted(bytes)) % 65521
  {
    var s := Unpack(adler);
    AddBytesIsSums(s, bytes);
    hide AddBytes, Sum, Weighted, IsChecksum;
    assert s.s1 == adler % 65536 && s.s2 == adler / 65536;
    PackHalves(AddBytes(s, bytes));
    Reduced(AddBytes(s, bytes).s1, s.s1 + Sum(bytes));
    Reduced(AddBytes(s, bytes).s2, s.s2 + |bytes| * s.s1 + Weighted(bytes));
  }

  lemma PackHalves(s: Sums)
    requires s.Valid()
    ensures Pack(s) % 65536 == s.s1 && Pack(s) / 65536 == s.s2
  {}

  lemma Reduced(a: int, b: int)
    requires 0 <= a < BASE && Same(a, b)
    ensures a == b % 65521
  {}

  /** adler32(): one byte, no buffer, fewer than 16 bytes, or runs of NMAX bytes and a remainder. */
  method Adler32Of(adler: uint32, buf: Buffer) returns (r: uint32)
    requires IsChecksum(adler as int)
    ensures r as int == if buf.Null? then 1 else Adler(adler as int, buf.bytes)
    ensures IsChecksum(r as int)
    ensures buf.Bytes? ==> var a, b, n := adler as int % 65536, adler as int / 65536, |buf.bytes|;
      r as int % 65536 == (a + Sum(buf.bytes)) % 65521
      && r as int / 65536 == (b + n * a + Weighted(buf.bytes)) % 65521
  {
    if buf.Null? { return 1; }
    hide AddBytes, Index8;
    var bytes := buf.bytes;
    var a, b := adler % 65536, adler / 65536 % 65536;
    ghost var s := Unpack(adler as int);
    SumsOf(adler as int, bytes);
    assert s == Sums(a as int, b as int) && s.Valid();
    hide Unpack, IsChecksum;
    a, b := AddAll(a, b, bytes);
    r := Recombine(a, b);
  }

  /** The three ways to add a buffer. */
  method AddAll(a0: uint32, b0: uint32, bytes: seq<bv8>) returns (a: uint32, b: uint32)
    requires Sums(a0 as int, b0 as int).Valid()
    ensures Sums(a as int, b as int) == AddBytes(Sums(a0 as int, b0 as int), bytes)
    ensures Sums(a as int, b as int).Valid()
  {
    hide AddBytes, Index8, Sum, Weighted, Same;
    AddBytesIsSums(Sums(a0 as int, b0 as int), bytes);
    if |bytes| == 1 {
      assert bytes == [bytes[0]];
      a, b := OneByte(a0, b0, bytes[0]);
    } else if |bytes| < 16 {
      a, b := ShortRun(a0, b0, bytes);
    } else {
      a, b := LongRun(a0, b0, bytes);
    }
  }

  method Recombine(a: uint32, b: uint32) returns (r: uint32)
    requires Sums(a as int, b as int).Valid()
    ensures r as int == Pack(Sums(a as int, b as int)) && IsChecksum(r as int)
  {
    PackUnpack(Sums(a as int, b as int));
    r := b * 65536 + a;
  }

  lemma PackUnpack(s: Sums)
    requires s.Valid()
    ensures IsChecksum(Pack(s)) && Unpack(Pack(s)) == s
  {}

  // ----- adler32_combine()

  /** adler32_combine_: what the second checksum would have been after the bytes of the first. A
      negative length gives the invalid checksum of all ones. */
  method Combine(adler1: uint32, adler2: uint32, len2: int) returns (r: uint32)
    requires IsChecksum(adler1 as int) && IsChecksum(adler2 as int)
    ensures r as int == if len2 < 0 then 0xffff_ffff
                        else Pack(Combined(Unpack(adler1 as int), Unpack(adler2 as int), len2))
  {
    if len2 < 0 { return 0xffff_ffff; }
    var rem := (len2 % BASE) as uint32;
    var a1, b1, a2, b2 := adler1 % 65536, adler1 / 65536 % 65536, adler2 % 65536, adler2 / 65536 % 65536;
    Products(rem as int, BASE - 1, a1 as int, BASE - 1);
    var sum2 := rem * a1;
    sum2 := sum2 % (BASE as uint32);
    var sum1 := CombineFirst(a1, a2);
    sum2 := CombineSecond(sum2, b1, b2, rem);
    r := sum2 * 65536 + sum1;
  }

  /** Two subtractions suffice for the first sum. */
  method CombineFirst(a1: uint32, a2: uint32) returns (sum1: uint32)
    requires a1 as int < BASE && a2 as int < BASE
    ensures sum1 as int == (a1 as int + a2 as int - 1) % BASE
  {
    sum1 := a1 + (a2 + BASE as uint32 - 1);
    RemainderDrops(sum1 as int, 1);
    if sum1 >= BASE as uint32 { sum1 := sum1 - BASE as uint32; }
    if sum1 >= BASE as uint32 { sum1 := sum1 - BASE as uint32; }
  }

  /** Subtracting twice BASE and then BASE suffices for the second sum. */
  method CombineSecond(s: uint32, b1: uint32, b2: uint32, rem: uint32) returns (sum2: uint32)
    requires s as int < BASE && b1 as int < BASE && b2 as int < BASE && rem as int < BASE
    ensures sum2 as int == (b1 as int + b2 as int + s as int - rem as int) % BASE
  {
    sum2 := s + (b1 + b2 + BASE as uint32 - rem);
    RemainderDrops(sum2 as int, 1);
    if sum2 >= 2 * BASE as uint32 { sum2 := sum2 - 2 * BASE as uint32; }
    if sum2 >= BASE as uint32 { sum2 := sum2 - BASE as uint32; }
  }

  /** The sums of a concatenation from the sums of its pieces, the second started from 1. */
  function Combined(x: Sums, y: Sums, len2: nat): Sums
  {
    Sums((x.s1 + y.s1 - 1) % BASE, (x.s2 + y.s2 + (len2 % BASE) * x.s1 % BASE - len2 % BASE) % BASE)
  }

  lemma SameProduct(n: nat, a: int)
    ensures Same((n % BASE) * a, n * a)
  {
    assert n * a == (n % BASE) * a + (n / BASE * a) * BASE by {
      assert n == n / BASE * BASE + n % BASE;
    }
    RemainderDrops(n * a, n / BASE * a);
  }

  /** Continuing a checksum over b is combining it with the checksum of b alone. */
  lemma CombinedIsConcatenation(s: Sums, b: seq<bv8>)
    requires s.Valid()
    ensures AddBytes(s, b) == Combined(s, AddBytes(Sums(1, 0), b), |b|)
  {
    hide AddBytes, Sum, Weighted, Index8;
    var one := Sums(1, 0);
    var n, y := |b|, AddBytes(one, b);
    AddBytesIsSums(s, b);
    AddBytesIsSums(one, b);
    SameProduct(n, s.s1);
    SameReduced((n % BASE) * s.s1);
    SameReduced(n);
    CombinedSums(s, y, AddBytes(s, b), n, Sum(b), Weighted(b), n * s.s1, (n % BASE) * s.s1);
  }

  lemma CombinedSums(s: Sums, y: Sums, t: Sums, n: nat, sum: int, w: int, ns: int, rs: int)
    requires t.Valid() && Same(y.s1, 1 + sum) && Same(y.s2, n + w)
    requires Same(t.s1, s.s1 + sum) && Same(t.s2, s.s2 + ns + w) && Same(rs, ns)
    ensures t.s1 == (s.s1 + y.s1 - 1) % BASE && t.s2 == (s.s2 + y.s2 + rs % BASE - n % BASE) % BASE
  {}

  lemma PiecesCombined(a: seq<bv8>, b: seq<bv8>)
    ensures IsChecksum(Adler(1, a)) && IsChecksum(Adler(1, b))
    ensures Pack(Combined(Unpack(Adler(1, a)), Unpack(Adler(1, b)), |b|)) == Adler(1, a + b)
  {
    hide AddBytes, Sum, Weighted, Index8, Same;
    var one := Sums(1, 0);
    assert Unpack(1) == one;
    hide Pack, Unpack, Combined;
    AddBytesIsSums(one, a);
    AddBytesIsSums(one, b);
    AddBytesConcat(one, a, b);
    CombinedIsConcatenation(AddBytes(one, a), b);
    PackUnpack(AddBytes(one, a));
    PackUnpack(AddBytes(one, b));
  }

  /** adler32_combine on the checksums of two pieces gives the checksum of the concatenation. */
  method CombinePieces(a: seq<bv8>, b: seq<bv8>, adler1: uint32, adler2: uint32) returns (r: uint32)
    requires adler1 as int == Adler(1, a) && adler2 as int == Adler(1, b)
    ensures r as int == Adler(1, a + b)
  {
    hide Adler, Combined, Pack, Unpack, IsChecksum;
    PiecesCombined(a, b);
    r := Combine(adler1, adler2, |b|);
  }
}
