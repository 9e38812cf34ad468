/** crc32_combine_: shifting a checksum through len2 zero bytes by repeatedly squaring the GF(2)
    matrix of one zero bit. */
module Crc32Combine {
  import opened Gf2
  import opened Crc32

  const GF2_DIM := 32

  /** The unit vector of row n. */
  function Unit(n: nat): bv32
  {
    if n == 0 then 1 else Double(Unit(n - 1))
  }

  /** v moved up by n bits. */
  function Shift(v: bv32, n: nat): bv32
    decreases n
  {
    if n == 0 then v else Shift(Double(v), n - 1)
  }

  /** The product of a matrix with a vector whose bits start at row i. */
  function Times(mat: seq<bv32>, i: nat, v: bv32): bv32
    decreases |mat| - i
  {
    if i >= |mat| then 0
    else Xor(if Odd(v) then mat[i] else 0, Times(mat, i + 1, Half(v)))
  }

  /** The matrix is the operator of n zero bits. */
  ghost predicate Represents(mat: seq<bv32>, n: nat)
  {
    |mat| == GF2_DIM && forall i | 0 <= i < GF2_DIM :: mat[i] == Zeros(n, Unit(i))
  }

  // ----- a matrix is its operator

  lemma {:induction false} ShiftUnit(i: nat, n: nat)
    ensures Shift(Unit(i), n) == Unit(i + n)
    decreases n
  {
    hide Double;
    if n > 0 {
      ShiftUnit(i + 1, n - 1);
    }
  }

  lemma {:induction false} ShiftXor(a: bv32, b: bv32, n: nat)
    ensures Shift(Xor(a, b), n) == Xor(Shift(a, n), Shift(b, n))
    decreases n
  {
    hide Xor, Double;
    if n > 0 {
      DoubleXor(a, b);
      ShiftXor(Double(a), Double(b), n - 1);
    }
  }

  lemma {:induction false} ShiftZero(n: nat)
    ensures Shift(0, n) == 0
    decreases n
  {
    if n > 0 {
      assert Double(0) == 0;
      ShiftZero(n - 1);
    }
  }

  lemma {:induction false} ShiftAdd(v: bv32, m: nat, n: nat)
    ensures Shift(v, m + n) == Shift(Shift(v, m), n)
    decreases m
  {
    hide Double;
    if m > 0 {
      ShiftAdd(Double(v), m - 1, n);
    }
  }

  lemma ShiftByte(v: bv32)
    ensures Shift(v, 8) == Up(v)
  {
    EightDoubles(v);
    hide Double;
    assert Shift(v, 8) == Shift(Double(Double(v)), 6) == Shift(Double(Double(Double(Double(v)))), 4)
      == Shift(Double(Double(Double(Double(Double(Double(v)))))), 2);
  }

  /** Nothing is left of a word moved up by its whole width. */
  lemma ShiftOut(v: bv32)
    ensures Shift(v, GF2_DIM) == 0
  {
    hide Shift, Up;
    ShiftAdd(v, 8, 24);
    ShiftByte(v);
    ShiftAdd(Up(v), 8, 16);
    ShiftByte(Up(v));
    ShiftAdd(Up(Up(v)), 8, 8);
    ShiftByte(Up(Up(v)));
    ShiftByte(Up(Up(Up(v))));
    UpAll(v);
  }

  /** Multiplying by the matrix of an operator applies the operator. */
  lemma {:induction false} TimesIsZeros(mat: seq<bv32>, n: nat, i: nat, v: bv32)
    requires Represents(mat, n) && i <= GF2_DIM
    ensures Times(mat, i, v) == Zeros(n, Shift(v, i))
    decreases GF2_DIM - i
  {
    hide Xor, Half, Odd, Double, Zeros, LowBit;
    if i == GF2_DIM {
      ShiftOut(v);
      ZerosOfZero(n);
    } else {
      TimesIsZeros(mat, n, i + 1, Half(v));
      SplitBit(v);
      ShiftXor(LowBit(v), Double(Half(v)), i);
      assert Shift(Double(Half(v)), i) == Shift(Half(v), i + 1);
      ZerosLinear(n, Shift(LowBit(v), i), Shift(Half(v), i + 1));
      ShiftUnit(0, i);
      ShiftZero(i);
      ZerosOfZero(n);
      assert Unit(0) == 1;
    }
  }

  // ----- the matrix routines

  lemma {:induction false} TimesZero(mat: seq<bv32>, i: nat)
    ensures Times(mat, i, 0) == 0
    decreases |mat| - i
  {
    if i < |mat| {
      TimesZero(mat, i + 1);
    }
  }

  lemma {:induction false} HalfRest(b: bv32, n: nat)
    ensures Half(Rest(b, n)) == Rest(b, n + 1)
    decreases n
  {
    hide Half;
    if n > 0 {
      HalfRest(Half(b), n - 1);
    }
  }

  lemma {:induction false} RestAdd(b: bv32, m: nat, n: nat)
    ensures Rest(b, m + n) == Rest(Rest(b, m), n)
    decreases m
  {
    hide Half;
    if m > 0 {
      RestAdd(Half(b), m - 1, n);
    }
  }

  lemma RestOut(v: bv32)
    ensures Rest(v, GF2_DIM) == 0
  {
    hide Rest, Drop;
    RestAdd(v, 8, 24);
    Rest8(v);
    RestAdd(Drop(v), 8, 16);
    Rest8(Drop(v));
    RestAdd(Drop(Drop(v)), 8, 8);
    Rest8(Drop(Drop(v)));
    Rest8(Drop(Drop(Drop(v))));
    DropAll(v);
  }

  /** gf2_matrix_times: stops at the highest set bit, so that no row beyond the last is read. */
  method MatrixTimes(mat: array<bv32>, vec: bv32) returns (sum: bv32)
    requires mat.Length == GF2_DIM
    ensures sum == Times(mat[..], 0, vec)
  {
    hide Xor, Half, Odd, Rest;
    sum := 0;
    var v, i := vec, 0;
    assert Rest(vec, 0) == vec by { RestNone(vec); }
    XorZero(Times(mat[..], 0, vec));
    RestOut(vec);
    while v != 0
      invariant 0 <= i <= GF2_DIM && v == Rest(vec, i)
      invariant Xor(sum, Times(mat[..], i, v)) == Times(mat[..], 0, vec)
      decreases GF2_DIM - i
    {
      var row := if Odd(v) then mat[i] else 0;
      XorAssoc(sum, row, Times(mat[..], i + 1, Half(v)));
      XorZero(sum);
      if Odd(v) {
        sum := Xor(sum, mat[i]);
      }
      HalfRest(vec, i);
      v := Half(v);
      i := i + 1;
    }
    TimesZero(mat[..], i);
    XorZero(sum);
  }

  lemma RestNone(v: bv32)
    ensures Rest(v, 0) == v
  {}

  /** gf2_matrix_square: doubles the number of zero bits. */
  method MatrixSquare(square: array<bv32>, mat: array<bv32>, ghost n: nat)
    requires square.Length == GF2_DIM && mat.Length == GF2_DIM && square != mat && Represents(mat[..], n)
    modifies square
    ensures Represents(square[..], 2 * n)
  {
    hide Zeros, Unit, Times, Shift;
    for i := 0 to GF2_DIM
      invariant Represents(mat[..], n)
      invariant forall k | 0 <= k < i :: square[k] == Zeros(2 * n, Unit(k))
    {
      var row := MatrixTimes(mat, mat[i]);
      SquareRow(mat[..], n, i);
      square[i] := row;
    }
  }

  lemma SquareRow(mat: seq<bv32>, n: nat, i: nat)
    requires Represents(mat, n) && i < GF2_DIM
    ensures Times(mat, 0, mat[i]) == Zeros(2 * n, Unit(i))
  {
    hide Zeros, Unit, Times;
    TimesIsZeros(mat, n, 0, mat[i]);
    ShiftNone(mat[i]);
    ZerosAdd(n, n, Unit(i));
  }

  lemma ShiftNone(v: bv32)
    ensures Shift(v, 0) == v
  {}

  lemma UnitSmall(n: nat)
    requires n <= 30
    ensures Unit(n) <= 0x4000_0000
  {
    assert Unit(8) == 0x100;
    assert Unit(16) == 0x1_0000;
    assert Unit(24) == 0x100_0000;
    assert Unit(30) == 0x4000_0000;
  }

  // ----- the combination

  /** The operator for one zero bit: the polynomial, then the unit vectors. */
  method OneZeroBit(odd: array<bv32>)
    requires odd.Length == GF2_DIM
    modifies odd
    ensures Represents(odd[..], 1)
  {
    hide Xor, Half, Odd, Double;
    StepUnit(0);
    odd[0] := POLY;
    var row := 1;
    for n := 1 to GF2_DIM
      invariant row == Unit(n - 1)
      invariant forall i | 0 <= i < n :: odd[i] == Zeros(1, Unit(i))
    {
      StepUnit(n);
      odd[n] := row;
      row := Double(row);
    }
  }

  lemma StepUnit(n: nat)
    requires n < GF2_DIM
    ensures Zeros(1, Unit(n)) == if n == 0 then POLY else Unit(n - 1)
  {
    assert Zeros(1, Unit(n)) == Step(Zeros(0, Unit(n))) == Step(Unit(n));
    if n == 0 {
      assert Odd(1) && Half(1) == 0;
      XorZero(POLY);
    } else {
      UnitSmall(n - 1);
      HalfDouble(Unit(n - 1));
    }
  }

  /** One half of the loop: squares the operator into dst and applies it for the lowest bit of the
      remaining length. */
  method HalfRound(dst: array<bv32>, src: array<bv32>, crc: bv32, len: nat, ghost n: nat) returns (r: bv32)
    requires dst.Length == GF2_DIM && src.Length == GF2_DIM && dst != src && Represents(src[..], n)
    modifies dst
    ensures Represents(dst[..], 2 * n)
    ensures Zeros(2 * (2 * n) * (len / 2), r) == Zeros(2 * n * len, crc)
  {
    hide Zeros, Unit, Times, Represents;
    MatrixSquare(dst, src, n);
    r := crc;
    HalveLength(2 * n, len, crc);
    if len % 2 == 1 {
      r := MatrixTimes(dst, crc);
      TimesIsZeros(dst[..], 2 * n, 0, crc);
      ShiftNone(crc);
    }
  }

  lemma HalveLength(n: nat, len: nat, c: bv32)
    ensures Zeros(2 * n * (len / 2), if len % 2 == 1 then Zeros(n, c) else c) == Zeros(n * len, c)
  {
    hide Zeros;
    var h := len / 2;
    assert n * len == 2 * n * h + n * (len % 2) by {
      assert len == 2 * h + len % 2;
    }
    if len % 2 == 1 {
      ZerosAdd(2 * n * h, n, c);
    }
  }

  /** crc32_combine_: the first checksum shifted through len2 zero bytes, plus the second. */
  method Combine(crc1: bv32, crc2: bv32, len2: int) returns (r: bv32)
    ensures r == if len2 <= 0 then crc1 else Xor(Zeros(8 * len2, crc1), crc2)
  {
    if len2 <= 0 { return crc1; }
    hide Zeros, Unit, Times, Represents, Xor;
    var even, odd := new bv32[GF2_DIM], new bv32[GF2_DIM];
    OneZeroBit(odd);
    MatrixSquare(even, odd, 1);
    MatrixSquare(odd, even, 2);
    var crc, len: nat := crc1, len2;
    ghost var n := 4;
    while true
      invariant len > 0 && n >= 0 && Represents(odd[..], n)
      invariant Zeros(2 * n * len, crc) == Zeros(8 * len2, crc1)
      decreases len
    {
      crc := HalfRound(even, odd, crc, len, n);
      len := len / 2;
      if len == 0 { break; }
      crc := HalfRound(odd, even, crc, len, 2 * n);
      len := len / 2;
      n := 4 * n;
      if len == 0 { break; }
    }
    Done(crc);
    r := Xor(crc, crc2);
  }

  lemma Done(c: bv32)
    ensures Zeros(0, c) == c
  {}

  /** The register is linear in its start value, up to zeros. */
  lemma {:induction false} FeedLinear(c: bv32, d: bv32, s: seq<bv8>)
    ensures Feed(Xor(c, d), s) == Xor(Feed(c, s), Zeros(8 * |s|, d))
  {
    hide Xor, FeedByte, Wide;
    if s != [] {
      var n := |s| - 1;
      var f, z, w := Feed(c, s[..n]), Zeros(8 * n, d), Wide(s[n]);
      FeedLinear(c, d, s[..n]);
      FeedByteIsZeros(Xor(f, z), s[n]);
      FeedByteIsZeros(f, s[n]);
      XorAssoc(f, z, w);
      XorComm(z, w);
      XorAssoc(f, w, z);
      ZerosLinear(8, Xor(f, w), z);
      ZerosAdd(8, 8 * n, d);
    }
  }

  /** Combining the checksums of two pieces gives the checksum of their concatenation. */
  lemma CombineIsConcatenation(crc: bv32, a: seq<bv8>, b: seq<bv8>)
    ensures Xor(Zeros(8 * |b|, Crc(crc, a)), Crc(0, b)) == Crc(crc, a + b)
    ensures b == [] ==> Crc(crc, a) == Crc(crc, a + b)
  {
    hide Xor, Feed, Zeros;
    var start := Xor(crc, ONES);
    var fa, z := Feed(start, a), Zeros(8 * |b|, Crc(crc, a));
    FeedConcat(start, a, b);
    XorAssoc(fa, ONES, ONES);
    XorSelf(ONES);
    XorZero(fa);
    XorZero(ONES);
    XorComm(Crc(crc, a), ONES);
    FeedLinear(ONES, Crc(crc, a), b);
    var fb := Feed(ONES, b);
    XorComm(z, Xor(fb, ONES));
    XorAssoc(fb, ONES, z);
    XorComm(ONES, z);
    XorAssoc(fb, z, ONES);
    if b == [] { assert a + b == a; }
  }

  /** crc32_combine on the checksums of two pieces, of which the second has length len2. */
  method CombinePieces(a: seq<bv8>, b: seq<bv8>, crc1: bv32, crc2: bv32) returns (r: bv32)
    requires crc1 == Crc(0, a) && crc2 == Crc(0, b)
    ensures r == Crc(0, a + b)
  {
    hide Crc, Zeros, Xor;
    CombineIsConcatenation(0, a, b);
    r := Combine(crc1, crc2, |b|);
  }
}
