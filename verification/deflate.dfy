/** The LZ77 engine of deflate.c: sliding window, hash chains, lazy matching, stored blocks and
    restartable calls, for one stream whose level and strategy stay fixed. */
module Deflate {
  import opened Lz77
  import opened HashChains
  import opened MatchSearch
  import opened Words

  const MIN_LOOKAHEAD := MAX_MATCH + MIN_MATCH + 1
  const TOO_FAR := 4096
  const WORD := 0x1_0000_0000

  /** A 32-bit unsigned subtraction. */
  function WordSub(a: nat, b: nat): nat
  {
    (a - b) % WORD
  }

  function Min(a: nat, b: nat): nat { if a <= b then a else b }

  function Max(a: nat, b: nat): nat { if a <= b then b else a }

  /** The hash register is ready for the string at absolute position p, if its two first bytes
      are there. */
  ghost predicate HashReady(P: HashParams, h: bv32, s: seq<bv8>, p: nat)
  {
    P.Valid() && (p + 2 <= |s| ==> P.Ready(h, s[p], s[p + 1]))
  }

  /** The flush argument of deflate(). */
  const Z_NO_FLUSH := 0
  const Z_PARTIAL_FLUSH := 1
  const Z_SYNC_FLUSH := 2
  const Z_FULL_FLUSH := 3
  const Z_FINISH := 4
  const Z_BLOCK := 5

  const Z_FILTERED := 1
  const Z_HUFFMAN_ONLY := 2
  const Z_RLE := 3
  const Z_FIXED := 4

  /** RANK: Z_BLOCK ranks between Z_NO_FLUSH and Z_PARTIAL_FLUSH. */
  function Rank(flush: int): int
  {
    2 * flush - (if flush > 4 then 9 else 0)
  }

  /** The flushes in the order of their ranks. */
  lemma RankOrder(i: nat, j: nat)
    requires i < j < 6
    ensures var order := [Z_NO_FLUSH, Z_BLOCK, Z_PARTIAL_FLUSH, Z_SYNC_FLUSH, Z_FULL_FLUSH, Z_FINISH];
      Rank(-1) < Rank(order[i]) < Rank(order[j])
  {}

  datatype Ret = Ok | StreamEnd | BufError | StreamError

  datatype Config = Config(good: nat, lazy: nat, nice: nat, chain: nat, func: Func)

  /** configuration_table */
  function Configuration(level: nat): Config
  {
    match level
    case 0 => Config(0, 0, 0, 0, Stored)
    case 1 => Config(4, 4, 8, 4, Fast)
    case 2 => Config(4, 5, 16, 8, Fast)
    case 3 => Config(4, 6, 32, 32, Fast)
    case 4 => Config(4, 4, 16, 16, Slow)
    case 5 => Config(8, 16, 32, 32, Slow)
    case 6 => Config(8, 16, 128, 128, Slow)
    case 7 => Config(8, 32, 128, 256, Slow)
    case 8 => Config(32, 128, 258, 1024, Slow)
    case _ => Config(32, 258, 258, 4096, Slow)
  }

  const GOOD := [0, 4, 4, 4, 4, 8, 8, 8, 32, 32]
  const LAZY := [0, 4, 5, 6, 4, 16, 16, 32, 128, 258]
  const NICE := [0, 8, 16, 32, 16, 32, 128, 128, 258, 258]
  const CHAIN := [0, 4, 8, 32, 16, 32, 128, 256, 1024, 4096]

  predicate IsRow(level: nat, good: nat, lazy: nat, nice: nat, chain: nat)
  {
    level <= 9 && good == GOOD[level] && lazy == LAZY[level] && nice == NICE[level] && chain == CHAIN[level]
  }

  /** The table column by column, and what deflate() requires of it. */
  lemma ConfigurationRows(level: nat)
    requires level <= 9
    ensures var c := Configuration(level);
      && IsRow(level, c.good, c.lazy, c.nice, c.chain)
      && c.func == (if level == 0 then Stored else if level <= 3 then Fast else Slow)
      && (level > 0 ==> c.lazy >= MIN_MATCH && c.chain >= 4 && MIN_MATCH <= c.nice <= MAX_MATCH)
  {}

  lemma HashBitsValid(memLevel: nat)
    requires 1 <= memLevel <= 9
    ensures HashParams(HashBits(memLevel)).Valid()
  {}

  lemma HashBitsAre(memLevel: nat)
    requires 1 <= memLevel <= 9
    ensures HashBits(memLevel) as int == memLevel + 7
  {}

  /** hash_bits is memLevel + 7. */
  function HashBits(memLevel: nat): bv32
  {
    match memLevel
    case 1 => 8
    case 2 => 9
    case 3 => 10
    case 4 => 11
    case 5 => 12
    case 6 => 13
    case 7 => 14
    case 8 => 15
    case _ => 16
  }

  function Pow2(k: nat): nat
  {
    if k == 0 then 1 else 2 * Pow2(k - 1)
  }

  lemma WindowSizes(k: nat)
    requires 9 <= k <= 15
    ensures 512 <= Pow2(k) <= 32768
  {
    assert Pow2(9) == 512;
    PowMonotone(9, k);
    PowMonotone(k, 15);
    assert Pow2(15) == 32768;
  }

  lemma {:induction false} PowMonotone(j: nat, k: nat)
    requires j <= k
    ensures 1 <= Pow2(j) <= Pow2(k)
    decreases k
  {
    if j < k {
      PowMonotone(j, k - 1);
    } else if k > 0 {
      PowMonotone(j - 1, k - 1);
    }
  }

  datatype Func = Stored | Fast | Slow | Rle | Huff

  datatype Step = Continue | Break | Return

  datatype BlockState = NeedMore | BlockDone | FinishStarted | FinishDone

  /** The empty block that marks a flush at a position of the input. */
  function Marker(flush: nat, start: int): seq<Block>
  {
    if flush == Z_BLOCK || start < 0 then []
    else [Block(start, [], if flush == Z_PARTIAL_FLUSH then None else Some([]), flush != Z_PARTIAL_FLUSH, false)]
  }

  /** Ghost bookkeeping of the window bytes never assigned, neither by input nor by zeroing nor by
      copying an assigned byte; in a window of two halves of w bytes these are the bytes from gap to
      the end of the lower half and those from tail on. */
  datatype Marks = Marks(unset: set<nat>, gap: nat, tail: nat) {
    ghost predicate Exact(w: nat)
    {
      gap <= w && tail <= 2 * w && forall i: nat :: i in unset <==> gap <= i < w || tail <= i < 2 * w
    }

    ghost function Copied(to: nat, from: nat): Marks
    {
      this.(unset := if from in unset then unset + {to} else unset - {to})
    }

    ghost function Assigned(i: nat): Marks { this.(unset := unset - {i}) }

    ghost function Written(from: nat, n: nat): (m: Marks)
      ensures m.gap == gap && m.tail == tail
    {
      this.(unset := set i | i in unset && !(from <= i < from + n))
    }
  }

  /** Where a window of two halves of w bytes begins in the input, where the input in it ends, the
      high_water mark and the beginning of the gap. */
  datatype Extent = Extent(base: nat, curr: nat, highWater: nat, gap: nat) {
    /** The extent after fill_window, with n bytes of input to read: after a slide the gap begins where
        the bytes above high_water were copied to, and the input that fits behind the lookahead closes
        it again. */
    function Filled(strstart: nat, n: nat, w: nat): Extent
      requires w >= 512 && (strstart >= 2 * w - MIN_LOOKAHEAD ==> curr >= w)
    {
      var slid := strstart >= 2 * w - MIN_LOOKAHEAD;
      var from := curr - if slid then w else 0;
      var end := from + Min(n, if from < 2 * w then 2 * w - from else 0);
      Extent(base + if slid then w else 0, end, Max(highWater, Min(end + MAX_MATCH, 2 * w)),
             Min(w, Max(end, if !slid then gap else if highWater >= w then highWater - w else 0)))
    }

    /** high_water has kept ahead of the input, and the gap is not reached yet. */
    predicate Ahead(w: nat)
    {
      && (curr > 0 ==> Min(curr + MAX_MATCH, 2 * w) <= highWater) && gap <= w && (gap < w ==> curr <= gap)
    }

    /** The extent once all input is used up: the window has slid if it was full. */
    function Ended(w: nat): Extent
      requires w >= 512
    {
      if curr < 2 * w - MIN_LOOKAHEAD || highWater < w then this
      else Extent(base + w, curr - w, highWater, Min(w, Max(curr - w, highWater - w)))
    }
  }

  /** The state of the output; see Deflater.Books. */
  datatype Account = Account(owed: int, unsized: int, space: nat, lastFlush: int)

  function Total(sizes: seq<nat>): nat
  {
    if sizes == [] then 0 else Total(sizes[..|sizes| - 1]) + sizes[|sizes| - 1]
  }

  lemma TotalNext(sizes: seq<nat>, n: nat)
    ensures Total(sizes + [n]) == Total(sizes) + n
  {
    assert (sizes + [n])[..|sizes|] == sizes;
  }

  /** A search: the window, the chains, where the string is, how much is ahead of it, the length to
      beat, and the front of the string's chain. */
  datatype Search = Search(win: seq<bv8>, prev: seq<nat>, start: nat, ahead: nat, first: nat, front: nat) {
    ghost function Best(w: nat, n: nat): nat
      requires first >= 1
    {
      BestAfter(win, prev, w, start, front, first, n)
    }

    /** m is the first of n candidates that agrees on the best length. */
    ghost predicate Nearest(w: nat, n: nat, m: nat)
      requires first >= 1
    {
      exists i: nat :: i < n && m == Visit(prev, w, front, i)
        && NoneBetter(win, prev, w, start, front, i, Best(w, n) - 1)
    }
  }

  datatype Place = Place(held: Extent, start: nat, ahead: nat, input: nat, tokens: nat) {
    /** Before the input that fits is read, or after it; e is the extent then. */
    predicate Due(e: Extent, w: nat, limit: nat)
    {
      && w >= 512 && held.Ahead(w) && held.curr == start + ahead && 0 < e.curr <= 2 * w - MIN_LOOKAHEAD
      && e.base + e.curr == held.base + held.curr + input && tokens + input + ahead + 2 < limit
      && if input == 0 then held == e
         else ahead < MIN_LOOKAHEAD && start < 2 * w - MIN_LOOKAHEAD && held.Filled(start, input, w) == e
    }
  }

  /** An iteration brings the input in that is due; the last one slides a window that is full. */
  lemma DueStep(e: Extent, w: nat, limit: nat, p: Place, q: Place, done: bool)
    requires p.Due(e, w, limit) && q.held.Ahead(w) && q.held.curr == q.start + q.ahead && q.tokens <= p.tokens + 1
    requires q.held.base + q.held.curr + q.input == p.held.base + p.held.curr + p.input
    requires q.held == if p.ahead < MIN_LOOKAHEAD then p.held.Filled(p.start, p.input, w) else p.held
    requires if done then q.ahead == q.input == p.ahead == p.input == 0 else q.input + q.ahead < p.input + p.ahead
    ensures if done then q.held == e.Ended(w) else q.Due(e, w, limit) && q.held == e
  {}

  ghost function NothingAssigned(w: nat): (m: Marks)
    ensures m.Exact(w) && m.gap == w && m.tail == 0
  {
    Marks(Upto(2 * w), w, 0)
  }

  /** The numbers below n. */
  ghost function Upto(n: nat): (r: set<nat>)
    ensures forall i: nat :: i in r <==> i < n
  {
    if n == 0 then {} else Upto(n - 1) + {n - 1}
  }

  /** The positions from a to b, b not among them. */
  ghost function Between(a: int, b: int): (r: set<nat>)
    ensures forall i: nat :: i in r <==> a <= i < b
    decreases b - a
  {
    if b <= a || b <= 0 then {} else Between(a, b - 1) + {b - 1}
  }

  lemma BetweenNext(s: set<nat>, a: int, b: nat)
    requires a <= b
    ensures s + Between(a, b) + {b} == s + Between(a, b + 1)
  {}

  lemma BetweenNone(s: set<nat>, a: int, b: int)
    requires b <= a
    ensures s + Between(a, b) == s
  {}

  lemma SlidGap(m: Marks, n: Marks, i: nat, w: nat)
    requires CopiedDown(m, n, i, w)
    ensures n.gap == m.gap && n.tail == m.tail
  {}

  lemma WrittenNone(m: Marks, from: nat)
    ensures m.Written(from, 0) == m
  {}

  lemma WrittenNext(m: Marks, from: nat, n: nat)
    ensures m.Written(from, n).Assigned(from + n) == m.Written(from, n + 1)
  {}

  /** Window indices looked at by a search at a: none past offset reach, and all from offset 3 to
      len. */
  ghost predicate Covered(touched: set<nat>, a: nat, len: nat, reach: nat)
  {
    (forall i | i in touched :: i <= a + reach) && forall i | a + 3 <= i <= a + len :: i in touched
  }

  /** A search at a that began with prevLength and has reached best: it looked at the last two bytes
      of the former, and up to the latter from offset 3 on if that is more. */
  ghost predicate Reached(touched: set<nat>, a: nat, prevLength: nat, best: nat)
    requires prevLength >= 1
  {
    && a + prevLength - 1 in touched && a + prevLength in touched
    && Covered(touched, a, if best > prevLength then best else 0, best)
  }

  /** Loading the last two bytes of the best match looks at nothing beyond it. */
  lemma ReachedEnds(t: set<nat>, a: nat, prevLength: nat, best: nat)
    requires 1 <= prevLength <= best && Reached(t, a, prevLength, best)
    ensures Reached(t + {a + best - 1, a + best}, a, prevLength, best)
  {}

  lemma ReachedFirst(a: nat, prevLength: nat)
    requires prevLength >= 1
    ensures Reached({a + prevLength - 1, a + prevLength}, a, prevLength, prevLength)
  {}

  /** One more candidate looked at. */
  lemma ReachedMore(t: set<nat>, u: set<nat>, a: nat, prevLength: nat, best: nat, more: nat)
    requires 1 <= prevLength <= best <= more
    requires Reached(t, a, prevLength, best) && Covered(u, a, if more > best then more else 0, more)
    ensures Reached(t + u, a, prevLength, more)
  {}

  /** A search at a that looked at offset reach, and at all before it from offset 3 on unless reach is
      within one byte of the input's end, met a byte never assigned exactly if it reached the gap. */
  lemma MetIff(m: Marks, w: nat, touched: set<nat>, a: nat, end: nat, prevLength: nat, reach: nat)
    requires m.Exact(w) && a + 3 <= end && (m.gap < w ==> end <= m.gap) && a + reach < m.tail
    requires 1 <= prevLength <= reach && a + prevLength <= end + 1
    requires Reached(touched, a, prevLength, reach)
    ensures (forall i | i in touched :: i <= a + reach) && (touched !! m.unset <==> m.gap == w || a + reach < m.gap)
  {
    if m.gap < w && m.gap <= a + reach {
      if reach > prevLength {
        assert m.gap in touched && m.gap in m.unset;
      } else if a + prevLength < w {
        assert a + prevLength in m.unset;
      } else {
        assert a + prevLength - 1 in m.unset;
      }
    } else {
      assert forall i | i in touched :: i !in m.unset;
    }
  }

  /** The same for a run that was scanned for len bytes. */
  lemma RunMetIff(m: Marks, w: nat, touched: set<nat>, a: nat, end: nat, len: nat)
    requires m.Exact(w) && a + 3 <= end && (m.gap < w ==> end <= m.gap) && end <= m.tail && a + len < m.tail
    requires (forall i | i in touched :: i <= a + len || i <= a + 2) && forall i | a + 3 <= i <= a + len :: i in touched
    ensures touched !! m.unset <==> m.gap == w || a + len < m.gap
  {
    if m.gap < w && m.gap <= a + len {
      assert m.gap in touched && m.gap in m.unset;
    } else {
      assert forall i | i in touched :: i !in m.unset;
    }
  }

  /** Once the first i bytes have been copied down over w bytes, they are unset as their sources are. */
  ghost predicate CopiedDown(m: Marks, n: Marks, i: nat, w: nat)
  {
    && n.gap == m.gap && n.tail == m.tail
    && forall k: nat {:trigger k in n.unset} :: k in n.unset <==> if k < i then k + w in m.unset else k in m.unset
  }

  lemma CopiedNext(m: Marks, n: Marks, i: nat, w: nat)
    requires CopiedDown(m, n, i, w) && i < w
    ensures CopiedDown(m, n.Copied(i, i + w), i + 1, w)
  {
    assert i + w in n.unset <==> i + w in m.unset;
  }

  /** Copying the upper half down copies the bytes never assigned with it. */
  lemma SlidExact(m: Marks, n: Marks, w: nat)
    requires m.Exact(w) && m.tail >= w && CopiedDown(m, n, w, w)
    ensures n.(gap := m.tail - w).Exact(w)
  {}

  lemma InputExact(m: Marks, at: nat, n: nat, w: nat)
    requires m.Exact(w) && at + n <= 2 * w && at <= m.tail && (m.gap < w ==> at <= m.gap && m.tail >= w)
    ensures m.Written(at, n).(gap := Min(w, Max(at + n, m.gap)), tail := Max(m.tail, at + n)).Exact(w)
  {}

  lemma ZeroExact(m: Marks, from: nat, n: nat, w: nat)
    requires m.Exact(w) && from <= m.tail <= from + n <= 2 * w && (m.gap < w ==> from >= w)
    ensures m.Written(from, n).(tail := from + n).Exact(w)
  {}

  class Deflater {
    const P: HashParams
    const wSize: nat
    const goodMatch: nat
    const niceMatch: nat
    const maxChain: nat
    const maxLazy: nat
    const func: Func             // the compression function
    const filtered: bool
    const litBufsize: nat
    const pendingBufSize: nat
    const window: array<bv8>
    const prev: array<nat>
    const head: array<nat>
    var insH: bv32
    var insert: nat
    var strstart: nat
    var lookahead: nat
    var blockStart: int
    var matchStart: nat
    var matchLength: nat
    var matchAvailable: bool
    var prevLength: nat
    var prevMatch: nat
    var highWater: nat
    var tallied: seq<Token>      // d_buf and l_buf up to last_lit
    var pending: nat             // bytes of pending_buf not yet handed out
    var nextIn: seq<bv8>         // the caller's next_in, avail_in bytes
    var availOut: nat
    var totalOut: nat            // bytes handed out so far
    var finished: bool           // status is FINISH_STATE
    var lastFlush: int

    ghost var stream: seq<bv8>   // all input read so far
    ghost var base: nat          // where in it the window begins
    ghost var ins: set<nat>      // positions in the dictionary
    ghost var top: nat           // one past the last of them
    ghost var marks: Marks       // window bytes never assigned
    ghost var met: bool          // a search has compared one of them
    ghost var blocks: seq<Block> // the blocks handed to _tr_flush_block
    ghost var sizes: seq<nat>    // the bytes each of them takes

    ghost predicate Shape()
    {
      P.Valid() && 512 <= wSize <= 32768 && maxChain < WORD
      && litBufsize >= 2 && pendingBufSize >= 6 && window.Length == 2 * wSize && prev.Length == wSize
      && head.Length == P.Size() && head != prev && window as object != head && window as object != prev
    }

    function MaxDist(): nat
      requires wSize >= 512
    {
      wSize - MIN_LOOKAHEAD
    }

    ghost predicate Window()
      reads `stream, `base, `strstart, `lookahead, window
    {
      Bytes() && base + strstart + lookahead == |stream|
    }

    /** The window holds the input from base on. */
    ghost predicate Bytes()
      reads `stream, `base, window
    {
      base <= |stream| && WindowOk(window[..], stream, base, |stream| - base)
    }

    ghost predicate Chains()
      reads `stream, `base, `ins, `top, prev, head
    {
      ChainsOk(P, wSize, head[..], prev[..], stream, base, ins, top)
    }

    /** The window bytes never assigned: those from some place on, and, once bytes of these have been
        copied down by a slide, a gap at the end of the lower half that the input has not reached
        again. */
    ghost predicate Assigned()
      reads `highWater, `marks, `strstart, `lookahead
    {
      && marks.Exact(wSize) && marks.gap <= wSize
      && highWater <= marks.tail <= 2 * wSize && strstart + lookahead <= marks.tail
      && (marks.gap < wSize ==> strstart + lookahead <= marks.gap && highWater >= wSize)
    }

    /** The zeroing has kept ahead of the input: past high_water nothing has been assigned, and
        high_water is MAX_MATCH past the input or at the end of the window. */
    ghost predicate Room()
      reads `highWater, `marks, `strstart, `lookahead
    {
      && Assigned() && highWater == marks.tail
      && (strstart + lookahead > 0 ==> Min(strstart + lookahead + MAX_MATCH, 2 * wSize) <= highWater)
    }

    /** Where the window begins, where the input in it ends, and what has been assigned. */
    ghost function Held(): Extent
      reads `base, `strstart, `lookahead, `highWater, `marks
    {
      Extent(base, strstart + lookahead, highWater, marks.gap)
    }

    /** The extent after fill_window. */
    ghost function Filled(): Extent
      requires wSize >= 512
      reads `base, `strstart, `lookahead, `highWater, `marks, `nextIn
    {
      Held().Filled(strstart, |nextIn|, wSize)
    }

    /** The extent once n more bytes of input have been read without a slide. */
    ghost function AllRead(n: nat): Extent
      reads `base, `strstart, `lookahead, `highWater, `marks
    {
      var curr := strstart + lookahead + n;
      Extent(base, curr, Max(highWater, Min(curr + MAX_MATCH, 2 * wSize)), Min(wSize, Max(curr, marks.gap)))
    }

    /** The input to come is read by one fill_window without a slide and does not fill the token
        buffer; only once all of it is used up may the window slide. */
    ghost predicate Fits(data: seq<bv8>)
      requires wSize >= 512
      reads `strstart, `lookahead, `tallied
    {
      && lookahead < MIN_LOOKAHEAD && 0 < lookahead + |data| && strstart + lookahead + |data| <= wSize + MaxDist()
      && |tallied| + lookahead + |data| + 2 < litBufsize
    }

    /** A call has used up all input and left the window like this. */
    ghost predicate UsedUp(e: Extent)
      reads `base, `strstart, `lookahead, `highWater, `marks, `insert, `nextIn
    {
      Held() == e && insert == Min(strstart, MIN_MATCH - 1) && lookahead == 0 && nextIn == []
    }

    /** A place in the loop: the extent, strstart, the bytes ahead, those of input to come, and the
        tokens in the buffer. */
    ghost function Now(): Place
      reads `base, `strstart, `lookahead, `highWater, `marks, `nextIn, `tallied
    {
      Place(Held(), strstart, lookahead, |nextIn|, |tallied|)
    }

    lemma HeldAhead()
      requires Shape() && Window() && Room()
      ensures Held().Ahead(wSize) && Held().curr == strstart + lookahead && Held().base + Held().curr == |stream|
    {
      hide Marks.Exact, WindowOk;
    }

    lemma FitsIsDue()
      requires Shape() && Window() && Room() && Fits(nextIn)
      ensures Now().Due(AllRead(|nextIn|), wSize, litBufsize)
    {
      hide Marks.Exact, WindowOk;
    }

    // ----- the dictionary

    /** INSERT_STRING: hashes the third byte, links str in front of its chain and returns the
        previous front. */
    method InsertString(str: nat) returns (hashHead: nat)
      requires Shape() && str + 2 < window.Length
      modifies prev, head, `insH
      ensures insH == P.Update(old(insH), window[str + 2])
      ensures Index16(insH) < head.Length && hashHead == old(head[..])[Index16(insH)]
      ensures head[..] == old(head[..])[Index16(insH) := str]
      ensures prev[..] == old(prev[..])[Slot(str, wSize) := hashHead]
    {
      hide Index16, HashParams.Update, HashParams.Size;
      KeyInRange(P, insH, window[str + 2]);
      insH := P.Update(insH, window[str + 2]);
      hashHead := head[Index16(insH)];
      prev[Slot(str, wSize)] := hashHead;
      head[Index16(insH)] := str;
    }

    /** The string at this window index is the front of its chain. */
    ghost predicate Front(i: int)
      reads `stream, `base, head
    {
      && i >= 0 && P.Valid() && base + i + 3 <= |stream| && KeyAt(P, stream, base + i) < head.Length
      && head[KeyAt(P, stream, base + i)] == i
    }

    /** INSERT_STRING where the source uses it: at a position after all inserted ones, with the
        register ready. The dictionary stays well-formed and the register is ready again. */
    method Insert(str: nat) returns (hashHead: nat)
      requires Shape() && Bytes() && Chains()
      requires top <= base + str && base + str + 3 <= |stream|
      requires HashReady(P, insH, stream, base + str)
      modifies prev, head, `insH, `ins, `top
      ensures Chains() && ins == old(ins) + {base + str} && top == base + str + 1
      ensures HashReady(P, insH, stream, base + str + 1)
      ensures Link(P, stream, base, ins, hashHead, base + str, KeyAt(P, stream, base + str))
      ensures var key := KeyAt(P, stream, base + str);
        key < head.Length && hashHead == old(head[..])[key] && head[..] == old(head[..])[key := str]
      ensures prev[..] == old(prev[..])[Slot(str, wSize) := hashHead]
      ensures Front(str)
    {
      hide HashParams.Update, ChainsOk, KeyAt, HashReady, Index16, Link, WindowOk, Slot;
      ghost var p := base + str;
      HashHere(str);
      InsertKeeps(P, wSize, head[..], prev[..], stream, base, ins, top, str);
      LinkLater(P, stream, base, ins, head[KeyAt(P, stream, p)], p, KeyAt(P, stream, p), p);
      hashHead := InsertString(str);
      ins, top := ins + {p}, p + 1;
    }

    /** The register updated with the third byte is the hash of the string, and ready for the next. */
    lemma HashHere(str: nat)
      requires Shape() && Bytes() && base + str + 3 <= |stream| && HashReady(P, insH, stream, base + str)
      ensures str + 2 < window.Length && Index16(P.Update(insH, window[str + 2])) == KeyAt(P, stream, base + str)
      ensures HashReady(P, P.Update(insH, window[str + 2]), stream, base + str + 1)
    {
      hide HashParams.Update, HashParams.Hash3, Index16;
      var p := base + str;
      ReadyStep(P, insH, stream[p], stream[p + 1], stream[p + 2]);
      assert window[..][str + 2] == stream[p + 2];
    }

    // ----- fill_window

    /** zmemcpy of the upper half of the window over the lower half. */
    method SlideWindow()
      requires Shape() && marks.Exact(wSize) && marks.tail >= wSize
      modifies window, `marks
      ensures forall i | 0 <= i < wSize :: window[i] == old(window[i + wSize])
      ensures marks.Exact(wSize) && marks.gap == old(marks).tail - wSize && marks.tail == old(marks).tail
    {
      hide Marks.Exact, Marks.Copied;
      var i := 0;
      assert CopiedDown(marks, marks, 0, wSize);
      hide CopiedDown;
      while i < wSize
        invariant i <= wSize
        invariant forall k | 0 <= k < i :: window[k] == old(window[k + wSize])
        invariant forall k | i <= k < 2 * wSize :: window[k] == old(window[k])
        invariant CopiedDown(old(marks), marks, i, wSize)
      {
        window[i] := window[i + wSize];
        CopiedNext(old(marks), marks, i, wSize);
        marks := marks.Copied(i, i + wSize);
        i := i + 1;
      }
      SlidExact(old(marks), marks, wSize);
      SlidGap(old(marks), marks, wSize, wSize);
      marks := marks.(gap := marks.tail - wSize);
    }

    /** Every entry of a table moves down by w_size, or becomes NIL. */
    method SlideTable(table: array<nat>)
      modifies table
      ensures forall i | 0 <= i < table.Length :: table[i] == SlideEntry(old(table[i]), wSize)
    {
      var n := table.Length;
      while n > 0
        invariant 0 <= n <= table.Length
        invariant forall k | n <= k < table.Length :: table[k] == SlideEntry(old(table[k]), wSize)
        invariant forall k | 0 <= k < n :: table[k] == old(table[k])
      {
        n := n - 1;
        table[n] := SlideEntry(table[n], wSize);
      }
    }

    /** The slide: window, positions and dictionary all move down by w_size. */
    method Slide()
      requires Shape() && Window() && Chains() && Assigned() && highWater == marks.tail
      requires strstart >= wSize + MaxDist()
      modifies window, prev, head, `strstart, `matchStart, `blockStart, `base, `marks
      ensures Window() && Chains() && Assigned()
      ensures marks.gap == old(marks).tail - wSize && marks.tail == old(marks).tail
      ensures base == old(base) + wSize && strstart == old(strstart) - wSize
      ensures blockStart == old(blockStart) - wSize && matchStart == WordSub(old(matchStart), wSize)
    {
      hide ChainsOk, Marks.Exact;
      ghost var win, heads, pre := window[..], head[..], prev[..];
      SlideWindow();
      SlideTable(head);
      SlideTable(prev);
      SlideKeeps(P, wSize, heads, pre, head[..], prev[..], stream, base, ins, top);
      matchStart := WordSub(matchStart, wSize);
      strstart := strstart - wSize;
      blockStart := blockStart - wSize;
      base := base + wSize;
      forall i | 0 <= i < strstart + lookahead ensures window[i] == stream[base + i] {
        assert win[i + wSize] == stream[base - wSize + (i + wSize)];
      }
    }

    /** zmemcpy of the first n bytes of the caller's input into the window. */
    method CopyIn(at: nat, n: nat)
      requires Shape() && at + n <= 2 * wSize && n <= |nextIn|
      modifies window, `marks
      ensures forall k | 0 <= k < at :: window[k] == old(window[k])
      ensures forall k | at <= k < at + n :: window[k] == nextIn[k - at]
      ensures marks == old(marks).Written(at, n)
    {
      var i := 0;
      WrittenNone(marks, at);
      while i < n
        invariant i <= n
        invariant forall k | 0 <= k < at :: window[k] == old(window[k])
        invariant forall k | at <= k < at + i :: window[k] == nextIn[k - at]
        invariant marks == old(marks).Written(at, i)
      {
        window[at + i] := nextIn[i];
        WrittenNext(old(marks), at, i);
        marks := marks.Assigned(at + i);
        i := i + 1;
      }
    }

    /** read_buf: moves at most size bytes of the caller's input behind the lookahead. */
    method ReadBuf(size: nat)
      requires Shape() && Window() && Assigned() && strstart + lookahead + size <= 2 * wSize
      modifies window, `nextIn, `lookahead, `stream, `marks
      ensures var n := Min(|old(nextIn)|, size);
        && lookahead == old(lookahead) + n
        && stream == old(stream) + old(nextIn)[..n] && nextIn == old(nextIn)[n..]
      ensures Window() && Assigned()
      ensures marks.gap == Min(wSize, Max(strstart + lookahead, old(marks).gap))
      ensures marks.tail == Max(old(marks).tail, strstart + lookahead)
    {
      hide Marks.Exact, Marks.Written, WindowOk;
      var n := Min(|nextIn|, size);
      var at := strstart + lookahead;
      ghost var win := window[..];
      CopyIn(at, n);
      stream := stream + nextIn[..n];
      nextIn := nextIn[n..];
      lookahead := lookahead + n;
      InputExact(old(marks), at, n, wSize);
      marks := marks.(gap := Min(wSize, Max(at + n, marks.gap)), tail := Max(marks.tail, at + n));
      WindowMore(win, window[..], old(stream), old(nextIn)[..n], base, at);
    }

    /** INSERT_STRING where the front is not asked for. */
    method InsertNext(str: nat)
      requires Shape() && Bytes() && Chains()
      requires top <= base + str && base + str + 3 <= |stream|
      requires HashReady(P, insH, stream, base + str)
      modifies prev, head, `insH, `ins, `top
      ensures Chains() && ins == old(ins) + {base + str} && top == base + str + 1
      ensures HashReady(P, insH, stream, base + str + 1) && Front(str)
    {
      hide Deflater.Bytes, Deflater.Chains, HashReady, Link, KeyAt, Deflater.Front, Slot;
      var _ := Insert(str);
    }

    /** Re-inserts the strings left over from the previous call, now that their third byte may be
        there, after starting the hash register over. */
    method Reinsert()
      requires Shape() && Window() && Chains()
      requires lookahead + insert >= MIN_MATCH && insert <= strstart && top <= base + strstart - insert
      modifies prev, head, `insH, `insert, `ins, `top
      ensures Chains() && insert <= old(insert) && top <= base + strstart - insert
      ensures lookahead + insert >= MIN_MATCH ==> insert == 0 && HashReady(P, insH, stream, base + strstart)
      ensures ins == old(ins) + Between(base + strstart - old(insert), base + strstart - insert)
      ensures old(insert) > 0 && insert == 0 ==> Front(strstart - 1)
    {
      WindowEnds();
      RestartAt(strstart - insert);
      InsertLeftover();
    }

    /** The loop: goes on while a third byte is there. */
    method InsertLeftover()
      requires Shape() && Bytes() && Chains() && base + strstart + lookahead == |stream|
      requires lookahead + insert >= MIN_MATCH && insert <= strstart && top <= base + strstart - insert
      requires HashReady(P, insH, stream, base + strstart - insert)
      modifies prev, head, `insH, `insert, `ins, `top
      ensures Chains() && insert <= old(insert) && top <= base + strstart - insert
      ensures lookahead + insert >= MIN_MATCH ==> insert == 0 && HashReady(P, insH, stream, base + strstart)
      ensures ins == old(ins) + Between(base + strstart - old(insert), base + strstart - insert)
      ensures old(insert) > 0 && insert == 0 ==> Front(strstart - 1)
    {
      hide Deflater.Chains, Deflater.Bytes, HashReady, Deflater.Front, Between;
      var str := strstart - insert;
      ghost var was, first := ins, base + str;
      BetweenNone(was, first, first);
      while insert != 0
        invariant insert <= old(insert) && str == strstart - insert && first <= base + str && top <= base + str
        invariant lookahead + insert >= MIN_MATCH && ins == was + Between(first, base + str)
        invariant Chains() && HashReady(P, insH, stream, base + str)
        invariant insert < old(insert) ==> Front(str - 1)
        modifies prev, head, `insH, `insert, `ins, `top
      {
        BetweenNext(was, first, base + str);
        InsertNext(str);
        str := str + 1;
        insert := insert - 1;
        if lookahead + insert < MIN_MATCH { break; }
      }
    }

    /** zmemzero of n window bytes. */
    method ZeroFill(from: nat, n: nat)
      requires Shape() && from + n <= 2 * wSize
      modifies window, `marks
      ensures forall k | 0 <= k < from :: window[k] == old(window[k])
      ensures forall k | from <= k < from + n :: window[k] == 0
      ensures marks == old(marks).Written(from, n)
    {
      var i := 0;
      WrittenNone(marks, from);
      while i < n
        invariant i <= n
        invariant forall k | 0 <= k < from :: window[k] == old(window[k])
        invariant forall k | from <= k < from + i :: window[k] == 0
        invariant marks == old(marks).Written(from, i)
      {
        window[from + i] := 0;
        WrittenNext(old(marks), from, i);
        marks := marks.Assigned(from + i);
        i := i + 1;
      }
    }

    /** Zeroes the bytes above high_water within MAX_MATCH of the input. A gap below them stays. */
    method ZeroTail()
      requires Shape() && Window() && Assigned() && marks.tail == Max(highWater, strstart + lookahead)
      modifies window, `highWater, `marks
      ensures Window() && Room() && marks.gap == old(marks).gap
      ensures highWater == Max(old(highWater), Min(strstart + lookahead + MAX_MATCH, 2 * wSize))
    {
      hide Marks.Exact;
      var curr := strstart + lookahead;
      if highWater < 2 * wSize {
        if highWater < curr {
          ZeroFrom(curr, Min(2 * wSize - curr, MAX_MATCH));
        } else if highWater < curr + MAX_MATCH {
          ZeroFrom(highWater, Min(curr + MAX_MATCH - highWater, 2 * wSize - highWater));
        }
      }
    }

    /** zmemzero behind the input, moving high_water to its end. */
    method ZeroFrom(from: nat, init: nat)
      requires Shape() && Window() && marks.Exact(wSize) && strstart + lookahead <= from && from + init <= 2 * wSize
      requires from <= marks.tail <= from + init && (marks.gap < wSize ==> from >= wSize)
      modifies window, `highWater, `marks
      ensures Window() && marks.Exact(wSize) && marks.gap == old(marks).gap && highWater == marks.tail == from + init
    {
      hide Marks.Exact;
      ZeroFill(from, init);
      highWater := from + init;
      ZeroExact(old(marks), from, init, wSize);
      marks := marks.(tail := highWater);
      forall k | 0 <= k < strstart + lookahead ensures window[k] == stream[base + k] {
        assert old(window[..])[k] == stream[base + k];
      }
    }

    /** What the hash state is between two tokens: leftover strings only while too few bytes
        follow, otherwise the register is ready for the next string. */
    ghost predicate HashIdle()
      reads `lookahead, `insert, `insH, `stream, `base, `strstart
    {
      lookahead + insert >= MIN_MATCH ==> insert == 0 && HashReady(P, insH, stream, base + strstart)
    }

    ghost predicate Leftover()
      reads `insert, `strstart, `top, `base
    {
      insert <= strstart && insert < MIN_MATCH && top <= base + strstart - insert
    }

    /** One round of fill_window's loop: slides when the window is almost full, reads what fits,
        and catches up with leftover insertions. */
    method FillOnce() returns (again: bool)
      requires Shape() && Window() && Chains() && Room() && Leftover() && lookahead < MIN_LOOKAHEAD
      modifies window, prev, head, `insH, `insert, `strstart, `lookahead, `blockStart, `matchStart, `nextIn
      modifies `stream, `base, `ins, `top, `marks
      ensures Window() && Chains() && Assigned() && Leftover()
      ensures strstart + MIN_LOOKAHEAD <= 2 * wSize && (base == old(base) || strstart >= MaxDist())
      ensures insert <= old(insert)
      ensures base + strstart == old(base + strstart) && base + blockStart == old(base + blockStart)
      ensures WordSub(strstart, matchStart) == old(WordSub(strstart, matchStart))
      ensures stream + nextIn == old(stream + nextIn) && |nextIn| <= |old(nextIn)|
      ensures old(HashIdle()) || |nextIn| < |old(nextIn)| ==> HashIdle()
      ensures again == (lookahead < MIN_LOOKAHEAD && nextIn != []) && !again
      ensures HeldBelow(old(Filled()))
      ensures marks.tail == Max(highWater, strstart + lookahead)
      ensures old(insert) > 0 && insert == 0 ==> Front(strstart - 1)
      ensures ins == old(ins) + Between(base + strstart - old(insert), base + strstart - insert)
    {
      hide Between;
      hide Deflater.Window, Deflater.Chains, Deflater.Leftover, Deflater.HashIdle, Deflater.Front, Marks.Exact;
      hide WordSub;
      var more := SlideIfFull();
      BetweenNone(ins, base + strstart - insert, base + strstart - insert);
      if nextIn == [] { return false; }
      ReadMore(more);
      again := lookahead < MIN_LOOKAHEAD && nextIn != [];
    }

    /** The extent but for high_water. */
    ghost predicate HeldBelow(e: Extent)
      reads `base, `strstart, `lookahead, `marks
    {
      base == e.base && strstart + lookahead == e.curr && marks.gap == e.gap
    }

    /** The slide, if the window is almost full, and the room there is for input then. */
    method SlideIfFull() returns (more: nat)
      requires Shape() && Window() && Chains() && Room() && Leftover() && lookahead < MIN_LOOKAHEAD
      modifies window, prev, head, `strstart, `blockStart, `matchStart, `base, `marks
      ensures Window() && Chains() && Assigned() && Leftover() && (old(HashIdle()) ==> HashIdle())
      ensures strstart + MIN_LOOKAHEAD <= 2 * wSize && (base == old(base) || strstart >= MaxDist())
      ensures base + strstart == old(base + strstart) && base + blockStart == old(base + blockStart)
      ensures WordSub(strstart, matchStart) == old(WordSub(strstart, matchStart))
      ensures more > 0 && more + strstart + lookahead == 2 * wSize && marks.tail == highWater
      ensures if old(strstart) >= wSize + MaxDist() then base == old(base) + wSize && marks.gap + wSize == highWater
              else base == old(base) && marks.gap == old(marks).gap
    {
      hide ChainsOk, HashParams.Update, WindowOk, Marks.Exact, HashReady;
      more := 2 * wSize - lookahead - strstart;
      if strstart >= wSize + MaxDist() {
        WordSubShift(strstart, matchStart, wSize);
        Slide();
        more := more + wSize;
      }
    }

    /** The reading half of a round. */
    method ReadMore(more: nat)
      requires Shape() && Window() && Chains() && Assigned() && Leftover()
      requires nextIn != [] && more > 0 && strstart + lookahead + more <= 2 * wSize
      modifies window, prev, head, `insH, `insert, `lookahead, `nextIn, `stream, `ins, `top, `marks
      ensures Window() && Chains() && Assigned() && Leftover() && HashIdle() && insert <= old(insert)
      ensures stream + nextIn == old(stream + nextIn) && |nextIn| < |old(nextIn)|
      ensures lookahead == old(lookahead) + Min(|old(nextIn)|, more)
      ensures |nextIn| == |old(nextIn)| - Min(|old(nextIn)|, more)
      ensures marks.gap == Min(wSize, Max(strstart + lookahead, old(marks).gap))
      ensures marks.tail == Max(old(marks).tail, strstart + lookahead)
      ensures old(insert) > 0 && insert == 0 ==> Front(strstart - 1)
      ensures ins == old(ins) + Between(base + strstart - old(insert), base + strstart - insert)
    {
      hide ChainsOk, HashParams.Update, WindowOk, Marks.Exact;
      BetweenNone(ins, base + strstart - insert, base + strstart - insert);
      hide Between;
      GrowKeeps(P, wSize, head[..], prev[..], stream, base, ins, top, nextIn[..Min(|nextIn|, more)]);
      ReadBuf(more);
      if lookahead + insert >= MIN_MATCH {
        Reinsert();
      }
    }

    /** fill_window: the loop, whose first round always is the last, then the zeroing. Neither the
        position in the input, nor the block start, nor the distance to the match found last changes. */
    method FillWindow()
      requires Shape() && Window() && Chains() && Room() && Leftover() && lookahead < MIN_LOOKAHEAD
      modifies window, prev, head, `insH, `insert, `strstart, `lookahead, `blockStart, `matchStart, `highWater, `nextIn
      modifies `stream, `base, `ins, `top, `marks
      ensures Window() && Chains() && Room() && Leftover()
      ensures strstart + MIN_LOOKAHEAD <= 2 * wSize && (base == old(base) || strstart >= MaxDist())
      ensures insert <= old(insert)
      ensures base + strstart == old(base + strstart) && base + blockStart == old(base + blockStart)
      ensures WordSub(strstart, matchStart) == old(WordSub(strstart, matchStart))
      ensures lookahead >= MIN_LOOKAHEAD || nextIn == []
      ensures stream + nextIn == old(stream + nextIn) && |nextIn| <= |old(nextIn)|
      ensures old(HashIdle()) || |nextIn| < |old(nextIn)| ==> HashIdle()
      ensures Held() == old(Filled())
      ensures old(insert) > 0 && insert == 0 ==> Front(strstart - 1)
      ensures ins == old(ins) + Between(base + strstart - old(insert), base + strstart - insert)
    {
      hide Between;
      hide ChainsOk, HashParams.Update, WindowOk, Marks.Exact, Deflater.HashIdle, Deflater.Window, Deflater.Chains,
        Deflater.Leftover;
      var again := FillOnce();
      assert !again;
      ZeroTail();
    }

    // ----- longest_match

    /** The chain budget of one search: an unsigned count-down that starts at the maximal chain
        length, quartered after a good match, and wraps around from 0. */
    function Budget(): (n: nat)
      reads `prevLength
      ensures n >= 1
    {
      BudgetFor(prevLength)
    }

    function BudgetFor(first: nat): (n: nat)
      ensures n >= 1
    {
      var n := if first >= goodMatch then maxChain / 4 else maxChain;
      if n == 0 then WORD else n
    }

    /** Candidates at or below this window index are too far away. */
    function Limit(): nat
      requires wSize >= 512
      reads `strstart
    {
      if strstart > MaxDist() then strstart - MaxDist() else NIL
    }

    /** Compares from byte 3 on, eight bytes to a round, up to MAX_MATCH; touched are the window
        indices compared. */
    method ScanMatch(cur: nat) returns (len: nat, ghost touched: set<nat>)
      requires Shape() && strstart + MIN_LOOKAHEAD <= 2 * wSize
      requires cur < strstart && Agrees(window[..], strstart, cur, 3)
      ensures 3 <= len <= MAX_MATCH && Agrees(window[..], strstart, cur, len)
      ensures len < MAX_MATCH ==> window[strstart + len] != window[cur + len]
      ensures len == ScanEnd(window[..], strstart, cur, 3) && touched == Offsets(strstart, len) + Offsets(cur, len)
    {
      hide ScanEnd, Offsets, Agrees;
      len, touched := 2, {};
      NoOffsets(strstart);
      NoOffsets(cur);
      var same := true;
      ghost var rounds: nat := 0;
      while same && len < MAX_MATCH
        invariant 2 <= len <= MAX_MATCH && (!same ==> len > 2) && touched == Offsets(strstart, len) + Offsets(cur, len)
        invariant ScannedTo(cur, len, same) && (same ==> len == 2 + 8 * rounds)
        decreases MAX_MATCH - len, same
      {
        var i := 0;
        ghost var from := len;
        while i < 8 && same
          invariant 0 <= i <= 8 && len == from + i && (i == 0 ==> same)
          invariant 2 <= len <= MAX_MATCH && (!same ==> len > 2)
          invariant touched == Offsets(strstart, len) + Offsets(cur, len)
          invariant ScannedTo(cur, len, same)
          decreases 8 - i
        {
          len, i := len + 1, i + 1;
          same, touched := CompareNext(cur, len, touched);
        }
        rounds := rounds + 1;
      }
      ScanStops(cur, len, same);
    }

    /** The strings agree before offset len, and at it if the comparison there succeeded. */
    ghost predicate ScannedTo(cur: nat, len: nat, same: bool)
      requires Shape() && cur < strstart
      reads `strstart, window
    {
      if same then Agrees(window[..], strstart, cur, len + 1)
      else
        && Agrees(window[..], strstart, cur, len) && strstart + len < window.Length
        && window[strstart + len] != window[cur + len]
    }

    /** One comparison of a scan. */
    method CompareNext(cur: nat, len: nat, ghost touched: set<nat>) returns (same: bool, ghost more: set<nat>)
      requires Shape() && strstart + MIN_LOOKAHEAD <= 2 * wSize && cur < strstart && 3 <= len <= MAX_MATCH
      requires ScannedTo(cur, len - 1, true) && touched == Offsets(strstart, len - 1) + Offsets(cur, len - 1)
      ensures ScannedTo(cur, len, same) && more == Offsets(strstart, len) + Offsets(cur, len)
    {
      hide Offsets;
      same := window[strstart + len] == window[cur + len];
      more := touched + {strstart + len, cur + len};
      OffsetsNext(strstart, cur, len);
    }

    lemma ScanStops(cur: nat, len: nat, same: bool)
      requires Shape() && strstart + MIN_LOOKAHEAD <= 2 * wSize && cur < strstart && 3 <= len <= MAX_MATCH
      requires ScannedTo(cur, len, same) && (same ==> len == MAX_MATCH)
      ensures Agrees(window[..], strstart, cur, len) && len == ScanEnd(window[..], strstart, cur, 3)
      ensures len < MAX_MATCH ==> window[strstart + len] != window[cur + len]
    {
      hide ScanEnd;
      ScanEndAgrees(window[..], strstart, cur, len);
    }

    /** One candidate: rejected unless it agrees at best_len, best_len - 1, 0 and 1; otherwise
        scanned. A result above best is the exact length of the match, up to MAX_MATCH; any other
        result means the candidate is no better than best. */
    method TryCandidate(cur: nat, best: nat, scanEnd1: bv8, scanEnd: bv8, ghost key: nat)
      returns (len: nat, ghost touched: set<nat>)
      requires Shape() && Window() && strstart + MIN_LOOKAHEAD <= 2 * wSize && lookahead >= MIN_MATCH
      requires 1 <= best <= MAX_MATCH && cur < strstart
      requires scanEnd1 == window[strstart + best - 1] && scanEnd == window[strstart + best]
      requires base + strstart + 3 <= |stream|
      requires KeyAt(P, stream, base + strstart) == key == KeyAt(P, stream, base + cur)
      ensures len <= MAX_MATCH
      ensures len > best ==> Agrees(window[..], strstart, cur, len)
      ensures Max(len, best) < MAX_MATCH ==> !Agrees(window[..], strstart, cur, Max(len, best) + 1)
      ensures Covered(touched, strstart, len, Max(len, best))
      ensures len == Measured(window[..], strstart, cur, best)
      ensures touched == CandidateRead(window[..], strstart, cur, best)
    {
      hide HashParams.Update, HashParams.Hash3, WindowOk, ScanEnd, Measured, CandidateRead, EndsSame, EndsRead, Offsets;
      hide Agrees;
      Examined(window[..], strstart, cur, best);
      EndsReadBelow(window[..], strstart, cur, best);
      var same;
      same, touched := SameEnds(cur, best, scanEnd1, scanEnd);
      len := 0;
      if !same {
        RejectedNoBetter(window[..], strstart, cur, best);
        return;
      }
      ThirdByteAgrees(P, window[..], stream, base, strstart + lookahead, strstart, cur);
      ghost var scanned;
      len, scanned := ScanMatch(cur);
      touched := touched + scanned;
      if len < MAX_MATCH { DiffersAt(window[..], strstart, cur, len, Max(len, best) + 1); }
    }

    /** The four comparisons before a scan, each made only if the ones before it succeed. */
    method SameEnds(cur: nat, best: nat, scanEnd1: bv8, scanEnd: bv8) returns (same: bool, ghost touched: set<nat>)
      requires Shape() && strstart + MIN_LOOKAHEAD <= 2 * wSize && 1 <= best <= MAX_MATCH && cur < strstart
      requires scanEnd1 == window[strstart + best - 1] && scanEnd == window[strstart + best]
      ensures same ==> Agrees(window[..], strstart, cur, 2)
      ensures same == EndsSame(window[..], strstart, cur, best) && touched == EndsRead(window[..], strstart, cur, best)
    {
      same, touched := window[cur + best] == scanEnd, {cur + best};
      if !same { return; }
      same, touched := window[cur + best - 1] == scanEnd1, touched + {cur + best - 1};
      if !same { return; }
      same, touched := window[cur] == window[strstart], touched + {cur, strstart};
      if !same { return; }
      same, touched := window[cur + 1] == window[strstart + 1], touched + {cur + 1, strstart + 1};
    }

    /** Candidate i is m, and none before it agrees on that many bytes. */
    ghost predicate FirstAt(win: seq<bv8>, pre: seq<nat>, front: nat, i: nat, best: nat, m: nat)
      requires best >= 1
      reads `strstart
    {
      m == Visit(pre, wSize, front, i) && NoneBetter(win, pre, wSize, strstart, front, i, best - 1)
    }

    /** The search so far: no visited candidate beats best, and match_start is the first visited
        candidate that reaches it if it beats prev_length. */
    ghost predicate Found(win: seq<bv8>, pre: seq<nat>, curMatch: nat, visited: nat, best: nat)
      requires wSize >= 512
      reads `strstart, `prevLength, `matchStart
    {
      && NoneBetter(win, pre, wSize, strstart, curMatch, visited, best)
      && (best > prevLength ==>
            && matchStart < strstart <= matchStart + MaxDist() && Agrees(win, strstart, matchStart, best)
            && exists i: nat :: i < visited && FirstAt(win, pre, curMatch, i, best, matchStart))
    }

    /** One round of longest_match's loop: records the candidate if it beats best. */
    method VisitCandidate(cur: nat, best: nat, scanEnd1: bv8, scanEnd: bv8, ghost key: nat, ghost curMatch: nat,
                          ghost visited: nat)
      returns (best': nat, ghost touched: set<nat>)
      requires Shape() && Window() && strstart + MIN_LOOKAHEAD <= 2 * wSize && lookahead >= MIN_MATCH
      requires 1 <= prevLength <= best <= MAX_MATCH && cur < strstart <= cur + MaxDist()
      requires scanEnd1 == window[strstart + best - 1] && scanEnd == window[strstart + best]
      requires base + strstart + 3 <= |stream|
      requires KeyAt(P, stream, base + strstart) == key == KeyAt(P, stream, base + cur)
      requires cur == Visit(prev[..], wSize, curMatch, visited)
      requires Found(window[..], prev[..], curMatch, visited, best)
      modifies `matchStart
      ensures best <= best' <= MAX_MATCH && Found(window[..], prev[..], curMatch, visited + 1, best')
      ensures Covered(touched, strstart, if best' > best then best' else 0, best')
      ensures best' == Max(Measured(window[..], strstart, cur, best), best)
      ensures touched == CandidateRead(window[..], strstart, cur, best)
    {
      hide HashParams.Update, HashParams.Hash3, WindowOk, Agrees, NoneBetter, Measured, CandidateRead;
      var len;
      len, touched := TryCandidate(cur, best, scanEnd1, scanEnd, key);
      best' := best;
      NoneBetterGrows(window[..], prev[..], wSize, strstart, curMatch, visited, best, Max(len, best));
      NoneBetterStep(window[..], prev[..], wSize, strstart, curMatch, visited, Max(len, best));
      if len > best {
        NoneBetterGrows(window[..], prev[..], wSize, strstart, curMatch, visited, best, len - 1);
        matchStart, best' := cur, len;
        assert FirstAt(window[..], prev[..], curMatch, visited, len, cur);
      }
    }

    /** A candidate: an earlier string with the same key, near enough. */
    ghost predicate OnChain(cur: nat)
      requires wSize >= 512
      reads `stream, `base, `ins, `strstart
    {
      && cur != NIL && strstart <= cur + MaxDist() && P.Valid() && base + strstart + 3 <= |stream|
      && Link(P, stream, base, ins, cur, base + strstart, KeyAt(P, stream, base + strstart))
    }

    /** nice_match, which does not exceed the lookahead. */
    function Nice(): nat
      reads `lookahead
    {
      Min(niceMatch, lookahead)
    }

    /** The best length after n candidates, and the window indices looked at for them. */
    ghost function BestOf(curMatch: nat, n: nat): nat
      requires prevLength >= 1
      reads `strstart, `prevLength, window, prev
    {
      BestAfter(window[..], prev[..], wSize, strstart, curMatch, prevLength, n)
    }

    ghost function ReadFor(curMatch: nat, n: nat): set<nat>
      requires prevLength >= 1
      reads `strstart, `prevLength, `lookahead, window, prev
    {
      ReadAfter(window[..], prev[..], wSize, strstart, curMatch, prevLength, Nice(), n)
    }

    /** What a walk has found and looked at after some candidates. */
    ghost predicate Walked(curMatch: nat, visited: nat, best: nat, touched: set<nat>)
      requires wSize >= 512 && prevLength >= 1
      reads `strstart, `prevLength, `matchStart, `lookahead, window, prev
    {
      && prevLength <= best <= MAX_MATCH && Found(window[..], prev[..], curMatch, visited, best)
      && Reached(touched, strstart, prevLength, best)
      && best == BestOf(curMatch, visited) && touched == ReadFor(curMatch, visited)
    }

    /** A reason to stop after n candidates: the budget is spent, the chain leaves the reachable
        window, or a match has just been found that is nice enough. */
    ghost predicate Stops(curMatch: nat, n: nat)
      requires wSize >= 512 && prevLength >= 1 && n >= 1
      reads `strstart, `prevLength, `lookahead, window, prev
    {
      StopsAt(Search(window[..], prev[..], strstart, lookahead, prevLength, curMatch), n)
    }

    ghost predicate StopsAt(q: Search, n: nat)
      requires q.first >= 1 && n >= 1
    {
      || n == BudgetFor(q.first) || Visit(q.prev, wSize, q.front, n) + wSize - MIN_LOOKAHEAD <= q.start
      || Visit(q.prev, wSize, q.front, n) == NIL
      || (q.Best(wSize, n) > q.Best(wSize, n - 1) && q.Best(wSize, n) >= Min(niceMatch, q.ahead))
    }

    /** What longest_match returns: the best length, cut to the lookahead, when the first reason to stop
        comes up; and in match_start the first candidate that reaches it if it beats the length to beat. */
    ghost predicate Finds(q: Search, r: nat, m: nat)
      requires q.first >= 1
    {
      exists n: nat ::
        n >= 1 && StopsAt(q, n) && (forall i | 1 <= i < n :: !StopsAt(q, i)) && r == Min(q.Best(wSize, n), q.ahead)
        && (q.Best(wSize, n) > q.first ==> q.Nearest(wSize, n, m))
    }

    /** The walk goes on after each of the first n candidates. */
    ghost predicate GoesOn(curMatch: nat, n: nat)
      requires wSize >= 512 && prevLength >= 1
      reads `strstart, `prevLength, `lookahead, window, prev
    {
      forall i | 1 <= i <= n :: !Stops(curMatch, i)
    }

    /** The next candidate, while it is above the limit, is on the chain and strictly smaller. */
    lemma NextOnChain(cur: nat, curMatch: nat, visited: nat)
      requires Shape() && Chains() && strstart < 2 * wSize && top == base + strstart + 1 && OnChain(cur)
      requires cur == Visit(prev[..], wSize, curMatch, visited)
      ensures cur < strstart && Slot(cur, wSize) < prev.Length
      ensures prev[Slot(cur, wSize)] == Visit(prev[..], wSize, curMatch, visited + 1)
      ensures var next := prev[Slot(cur, wSize)];
        next > Limit() ==> next < cur && OnChain(next)
    {
      hide ChainsOk, KeyAt;
      WalkStep(P, wSize, head[..], prev[..], stream, base, ins, top, cur);
      VisitNext(prev[..], wSize, curMatch, visited);
    }

    /** longest_match's loop: visits candidates until the budget is spent, the chain leaves the
        reachable window or the match is nice enough, whichever comes first. */
    method WalkChain(curMatch: nat) returns (best: nat, ghost visited: nat, ghost touched: set<nat>)
      requires Shape() && Window() && Chains() && strstart + MIN_LOOKAHEAD <= 2 * wSize
      requires lookahead >= MIN_MATCH && 1 <= prevLength <= MAX_MATCH && top == base + strstart + 1
      requires OnChain(curMatch)
      modifies `matchStart
      ensures visited >= 1 && Walked(curMatch, visited, best, touched)
      ensures Stops(curMatch, visited) && GoesOn(curMatch, visited - 1)
    {
      hide Deflater.Window, Deflater.Chains, NoneBetter, Reached, KeyAt, Link, Visit, Deflater.OnChain, Deflater.Walked;
      hide Deflater.Found, Deflater.Limit, Slot, WindowOk, ChainsOk, Min, Deflater.BestOf, Deflater.Stops,
        Deflater.GoesOn;
      var chainLength := if prevLength >= goodMatch then maxChain / 4 else maxChain;
      var cur: nat, limit, nice := curMatch, Limit(), Nice();
      best, visited := prevLength, 0;
      var scanEnd1, scanEnd := window[strstart + best - 1], window[strstart + best];
      touched := {strstart + best - 1, strstart + best};
      ghost var budget := Budget();
      WalkBegins(curMatch);
      while true
        invariant OnChain(cur) && cur == Visit(prev[..], wSize, curMatch, visited) && 0 <= visited < budget
        invariant Walked(curMatch, visited, best, touched) && GoesOn(curMatch, visited)
        invariant prevLength <= best <= MAX_MATCH
        invariant scanEnd1 == window[strstart + best - 1] && scanEnd == window[strstart + best]
        invariant chainLength == if visited == 0 && budget == WORD then 0 else budget - visited
        decreases cur
      {
        var longer;
        longer, touched := WalkTo(cur, best, scanEnd1, scanEnd, curMatch, visited, touched);
        visited := visited + 1;
        if longer > best {
          best := longer;
          if best >= nice { break; }
          scanEnd1, scanEnd := window[strstart + best - 1], window[strstart + best];
          touched := touched + {strstart + best - 1, strstart + best};
        }
        NextOnChain(cur, curMatch, visited - 1);
        cur := prev[Slot(cur, wSize)];
        if cur <= limit { break; }
        chainLength := if chainLength == 0 then WORD - 1 else chainLength - 1;
        if chainLength == 0 { break; }
        StillGoesOn(curMatch, visited);
      }
    }

    lemma WalkBegins(curMatch: nat)
      requires Shape() && 1 <= prevLength <= MAX_MATCH && OnChain(curMatch)
      ensures Visit(prev[..], wSize, curMatch, 0) == curMatch && GoesOn(curMatch, 0)
      ensures Walked(curMatch, 0, prevLength, {strstart + prevLength - 1, strstart + prevLength})
    {
      ReachedFirst(strstart, prevLength);
      NoneBetterStart(window[..], prev[..], wSize, strstart, curMatch, prevLength);
    }

    lemma WalkedMeans(curMatch: nat, visited: nat, best: nat, touched: set<nat>)
      requires wSize >= 512 && prevLength >= 1 && Walked(curMatch, visited, best, touched)
      ensures prevLength <= best <= MAX_MATCH && Found(window[..], prev[..], curMatch, visited, best)
      ensures Reached(touched, strstart, prevLength, best)
      ensures best == BestOf(curMatch, visited) && touched == ReadFor(curMatch, visited)
    {}

    /** When the walk stops after a candidate. */
    lemma StopsWhen(curMatch: nat, n: nat, before: nat, best: nat)
      requires wSize >= 512 && prevLength >= 1 && n >= 1
      requires before == BestOf(curMatch, n - 1) && best == BestOf(curMatch, n)
      ensures Stops(curMatch, n) <==>
        n == Budget() || Visit(prev[..], wSize, curMatch, n) <= Limit() || (best > before && best >= Nice())
    {
      hide Deflater.BudgetFor;
    }

    lemma StillGoesOn(curMatch: nat, n: nat)
      requires wSize >= 512 && prevLength >= 1 && n >= 1 && GoesOn(curMatch, n - 1) && !Stops(curMatch, n)
      ensures GoesOn(curMatch, n)
    {
      hide Deflater.Stops;
    }

    /** One candidate of the walk; the bytes at the end of the best match have still to be loaded. */
    method WalkTo(cur: nat, best: nat, scanEnd1: bv8, scanEnd: bv8, ghost curMatch: nat, ghost visited: nat,
                  ghost touched: set<nat>)
      returns (longer: nat, ghost more: set<nat>)
      requires Shape() && Window() && strstart + MIN_LOOKAHEAD <= 2 * wSize && lookahead >= MIN_MATCH
      requires prevLength >= 1 && OnChain(cur) && cur == Visit(prev[..], wSize, curMatch, visited)
      requires Walked(curMatch, visited, best, touched) && strstart + best < 2 * wSize
      requires scanEnd1 == window[strstart + best - 1] && scanEnd == window[strstart + best]
      modifies `matchStart
      ensures best <= longer <= MAX_MATCH && OnChain(cur)
      ensures Walked(curMatch, visited + 1, longer,
                     if best < longer < Nice() then more + {strstart + longer - 1, strstart + longer} else more)
      ensures Stops(curMatch, visited + 1) <==>
        || visited + 1 == Budget() || Visit(prev[..], wSize, curMatch, visited + 1) <= Limit()
        || (longer > best && longer >= Nice())
    {
      hide Deflater.Window, Deflater.Found, Reached, Covered, KeyAt, Visit, Measured, CandidateRead, Deflater.Stops,
        Deflater.Nice;
      LinkMeans(P, stream, base, ins, cur, base + strstart, KeyAt(P, stream, base + strstart));
      hide Link;
      ghost var seen;
      longer, seen := VisitCandidate(cur, best, scanEnd1, scanEnd, KeyAt(P, stream, base + strstart), curMatch,
        visited);
      ReachedMore(touched, seen, strstart, prevLength, best, longer);
      more := touched + seen;
      if best < longer < Nice() { ReachedEnds(more, strstart, prevLength, longer); }
      StopsWhen(curMatch, visited + 1, best, longer);
    }

    /** The outcome of a search from curMatch: no visited candidate repeats for longer, and the walk
        went on to the first reason to stop. */
    ghost predicate Searched(curMatch: nat, visited: nat, r: nat)
      requires wSize >= 512 && prevLength >= 1
      reads `strstart, `prevLength, `lookahead, `stream, `base, window, prev
    {
      && visited >= 1 && Min(prevLength, lookahead) <= r <= lookahead
      && (r < lookahead && r < MAX_MATCH ==> forall i | 0 <= i < visited ::
            var c := Visit(prev[..], wSize, curMatch, i);
            c < strstart && !Repeats(stream, base + strstart, strstart - c, r + 1))
      && Stops(curMatch, visited) && GoesOn(curMatch, visited - 1)
    }

    /** The search meets the gap: the length to beat ends at it or behind it, or a visited candidate
        agrees with the string at strstart all the way to it. */
    ghost predicate MeetsGap(curMatch: nat, visited: nat)
      requires prev.Length == wSize > 0
      reads `strstart, `prevLength, `marks, window, prev
    {
      marks.gap < wSize &&
      (marks.gap <= strstart + prevLength
       || (strstart <= marks.gap <= strstart + MAX_MATCH && exists i ::
             0 <= i < visited && var c := Visit(prev[..], wSize, curMatch, i);
               c < strstart && Agrees(window[..], strstart, c, marks.gap - strstart)))
    }

    /** What a search looked at: exactly the indices its comparisons name, none outside the window; a
        byte never assigned if and only if it meets the gap. */
    ghost predicate Looked(curMatch: nat, visited: nat, touched: set<nat>)
      requires prev.Length == wSize > 0 && prevLength >= 1
      reads `strstart, `prevLength, `lookahead, `marks, window, prev
    {
      && touched == ReadFor(curMatch, visited) && (forall i | i in touched :: i < 2 * wSize)
      && (touched !! marks.unset <==> !MeetsGap(curMatch, visited))
    }

    /** longest_match: the length of the best match within the lookahead, with its start in
        match_start if it beats prev_length. No visited candidate is longer. No index leaves the
        window, and a byte never assigned is looked at if and only if the search meets the gap, which
        takes a match of the whole lookahead. */
    method LongestMatch(curMatch: nat) returns (r: nat, ghost visited: nat, ghost touched: set<nat>)
      requires Shape() && Window() && Chains() && Room() && strstart + MIN_LOOKAHEAD <= 2 * wSize
      requires lookahead >= MIN_MATCH && 1 <= prevLength <= MAX_MATCH && prevLength <= lookahead + 1
      requires top == base + strstart + 1
      requires base + strstart + 3 <= |stream| && curMatch != NIL && strstart <= curMatch + MaxDist()
      requires Link(P, stream, base, ins, curMatch, base + strstart, KeyAt(P, stream, base + strstart))
      modifies `matchStart, `met
      ensures r == Min(BestOf(curMatch, visited), lookahead) && r <= MAX_MATCH && visited >= 1
      ensures Searched(curMatch, visited, r)
      ensures Finds(Search(window[..], prev[..], strstart, lookahead, prevLength, curMatch), r, matchStart)
      ensures r > prevLength ==>
        && matchStart < strstart <= matchStart + MaxDist()
        && Repeats(stream, base + strstart, strstart - matchStart, r)
      ensures Looked(curMatch, visited, touched) && (r < lookahead || marks.gap == wSize ==> touched !! marks.unset)
      ensures met == (old(met) || !(touched !! marks.unset))
    {
      hide Deflater.Window, Deflater.Chains, Deflater.Room, Repeats, Link, Deflater.Walked, Deflater.Looked;
      hide Deflater.Searched, Deflater.Finds, Deflater.Stops, Deflater.GoesOn, Deflater.BestOf;
      var length;
      length, visited, touched := WalkChain(curMatch);
      WalkSearched(curMatch, visited, length, touched);
      WalkFindsBest(curMatch, visited, length, touched);
      WalkLooked(curMatch, visited, length, touched);
      r := Min(length, lookahead);
      met := met || !(touched !! marks.unset);
    }

    /** What a finished walk has found. */
    lemma WalkSearched(curMatch: nat, visited: nat, best: nat, touched: set<nat>)
      requires Shape() && Window() && prevLength >= 1 && Walked(curMatch, visited, best, touched) && visited >= 1
      requires Stops(curMatch, visited) && GoesOn(curMatch, visited - 1)
      ensures var r := Min(best, lookahead);
        && r == Min(BestOf(curMatch, visited), lookahead) && r <= MAX_MATCH && Searched(curMatch, visited, r)
        && (r > prevLength ==>
              matchStart < strstart <= matchStart + MaxDist()
                && Repeats(stream, base + strstart, strstart - matchStart, r))
    {
      hide Deflater.Walked, WindowOk, Agrees, Repeats, NoneBetter, Reached, Deflater.Stops, Deflater.GoesOn,
        Deflater.BestOf, Deflater.ReadFor;
      WalkedMeans(curMatch, visited, best, touched);
      SearchResult(window[..], prev[..], curMatch, visited, best, Min(best, lookahead));
    }

    /** The walk is the search of the window as it is. */
    lemma WalkFindsBest(curMatch: nat, visited: nat, best: nat, touched: set<nat>)
      requires Shape() && prevLength >= 1 && Walked(curMatch, visited, best, touched) && visited >= 1
      requires Stops(curMatch, visited) && GoesOn(curMatch, visited - 1)
      ensures
        Finds(Search(window[..], prev[..], strstart, lookahead, prevLength, curMatch), Min(best, lookahead), matchStart)
    {
      hide Deflater.Finds, Deflater.Stops, Deflater.GoesOn, Deflater.BestOf, Found;
      WalkFinds(curMatch, visited, best);
    }

    lemma WalkFinds(curMatch: nat, visited: nat, best: nat)
      requires wSize >= 512 && prevLength >= 1 && visited >= 1 && Stops(curMatch, visited)
      requires GoesOn(curMatch, visited - 1)
      requires best == BestOf(curMatch, visited) && Found(window[..], prev[..], curMatch, visited, best)
      ensures
        Finds(Search(window[..], prev[..], strstart, lookahead, prevLength, curMatch), Min(best, lookahead), matchStart)
    {
      var q := Search(window[..], prev[..], strstart, lookahead, prevLength, curMatch);
      assert best == q.Best(wSize, visited);
      assert StopsAt(q, visited);
      forall i | 1 <= i < visited ensures !StopsAt(q, i) {
        hide Deflater.StopsAt;
        assert !Stops(curMatch, i);
      }
      if best > prevLength {
        var i: nat :| i < visited && FirstAt(window[..], prev[..], curMatch, i, best, matchStart);
        assert q.Nearest(wSize, visited, matchStart) by { hide Deflater.StopsAt, BestAfter, Agrees; }
      }
      FindsAt(q, visited, matchStart);
    }

    lemma FindsAt(q: Search, n: nat, m: nat)
      requires q.first >= 1 && n >= 1 && StopsAt(q, n) && forall i | 1 <= i < n :: !StopsAt(q, i)
      requires q.Best(wSize, n) > q.first ==> q.Nearest(wSize, n, m)
      ensures Finds(q, Min(q.Best(wSize, n), q.ahead), m)
    {
      hide Deflater.StopsAt, Search.Best, Search.Nearest;
    }

    /** What a finished walk has looked at. */
    lemma WalkLooked(curMatch: nat, visited: nat, best: nat, touched: set<nat>)
      requires Shape() && Room() && strstart + MIN_LOOKAHEAD <= 2 * wSize && lookahead >= MIN_MATCH
      requires 1 <= prevLength <= lookahead + 1 && Walked(curMatch, visited, best, touched)
      ensures Looked(curMatch, visited, touched)
      ensures best < lookahead || marks.gap == wSize ==> touched !! marks.unset
    {
      hide Deflater.Walked, NoneBetter, Reached, Deflater.BestOf, Deflater.ReadFor, Deflater.MeetsGap, Marks.Exact,
        Agrees;
      WalkedMeans(curMatch, visited, best, touched);
      MetIff(marks, wSize, touched, strstart, strstart + lookahead, prevLength, best);
      MetWhen(curMatch, visited, best);
    }

    /** The search reached the gap if and only if it meets it. */
    lemma MetWhen(curMatch: nat, visited: nat, best: nat)
      requires Shape() && Room() && Found(window[..], prev[..], curMatch, visited, best)
      requires 1 <= prevLength <= best <= MAX_MATCH
      ensures MeetsGap(curMatch, visited) <==> marks.gap < wSize && marks.gap <= strstart + best
    {
      hide Agrees, Marks.Exact, Visit;
      if marks.gap < wSize {
        var n: nat := marks.gap - strstart;
        if n <= best && best > prevLength {
          AgreesLess(window[..], strstart, matchStart, best, n);
        }
        if i :| 0 <= i < visited && n <= MAX_MATCH && var c := Visit(prev[..], wSize, curMatch, i);
          c < strstart && Agrees(window[..], strstart, c, n)
        {
          if best < n {
            AgreesLess(window[..], strstart, Visit(prev[..], wSize, curMatch, i), n, best + 1);
          }
        }
      }
    }

    /** From the window to the input. */
    lemma SearchResult(win: seq<bv8>, pre: seq<nat>, curMatch: nat, visited: nat, bestLen: nat, r: nat)
      requires WindowOk(win, stream, base, strstart + lookahead) && r == Min(bestLen, lookahead)
      requires wSize >= 512 && Found(win, pre, curMatch, visited, bestLen)
      ensures r > prevLength ==>
        matchStart < strstart <= matchStart + MaxDist() && Repeats(stream, base + strstart, strstart - matchStart, r)
      ensures r < lookahead && r < MAX_MATCH ==> forall i | 0 <= i < visited ::
        var c := Visit(pre, wSize, curMatch, i);
        c < strstart && !Repeats(stream, base + strstart, strstart - c, r + 1)
    {
      hide Agrees, Repeats, WindowOk;
      if r > prevLength {
        AgreesLess(win, strstart, matchStart, bestLen, r);
        AgreesRepeats(win, stream, base, strstart + lookahead, strstart, matchStart, r);
      }
      if r < lookahead && r < MAX_MATCH {
        forall i | 0 <= i < visited
          ensures var c := Visit(pre, wSize, curMatch, i);
            c < strstart && !Repeats(stream, base + strstart, strstart - c, r + 1)
        {
          var c := Visit(pre, wSize, curMatch, i);
          AgreesRepeats(win, stream, base, strstart + lookahead, strstart, c, r + 1);
        }
      }
    }

    // ----- tallying and flushing

    function MaxStored(): nat
      requires pendingBufSize >= 6
    {
      Min(0xffff, pendingBufSize - 5)
    }

    /** What has been output covers the input up to the absolute position pos. */
    ghost predicate Out(pos: int)
      requires Shape()
      reads `blocks, `tallied, `stream, `base, `blockStart
    {
      OutOk(blocks, tallied, stream, base + blockStart, pos, MaxDist(), MaxStored())
    }

    /** Every token output so far, in blocks or still open. */
    ghost function Emitted(): seq<Token>
      reads `blocks, `tallied
    {
      Tokens(blocks) + tallied
    }

    /** One more token: the match found, or else the literal. */
    ghost predicate Took(before: seq<Token>, after: seq<Token>, found: nat, dist: nat, c: bv8)
    {
      after == before + [if found >= MIN_MATCH then Match(dist, found) else Literal(c)]
    }

    method TallyLit(c: bv8, ghost pos: nat) returns (bflush: bool)
      requires Shape() && Out(pos) && pos < |stream| && c == stream[pos] && |tallied| < litBufsize - 1
      modifies `tallied
      ensures Out(pos + 1) && tallied == old(tallied) + [Literal(c)] && bflush == (|tallied| == litBufsize - 1)
    {
      hide OutOk;
      OutLiteral(blocks, tallied, stream, base + blockStart, pos, MaxDist(), MaxStored());
      tallied := tallied + [Literal(c)];
      bflush := |tallied| == litBufsize - 1;
    }

    /** The pair is stored as 16 and 8 bits, the length less MIN_MATCH. */
    method TallyDist(dist: nat, lc: nat, ghost pos: nat) returns (bflush: bool)
      requires Shape() && Out(pos) && |tallied| < litBufsize - 1
      requires dist <= MaxDist() && lc <= MAX_MATCH - MIN_MATCH && Repeats(stream, pos, dist, lc + MIN_MATCH)
      modifies `tallied
      ensures Out(pos + lc + MIN_MATCH)
      ensures tallied == old(tallied) + [Match(dist, lc + MIN_MATCH)] && bflush == (|tallied| == litBufsize - 1)
    {
      hide OutOk, Repeats;
      assert dist < 0x1_0000 && lc < 0x100;
      OutMatch(blocks, tallied, stream, base + blockStart, pos, MaxDist(), MaxStored(), dist, lc + MIN_MATCH);
      tallied := tallied + [Match(dist, lc + MIN_MATCH)];
      bflush := |tallied| == litBufsize - 1;
    }

    /** flush_pending */
    method FlushPending()
      modifies `pending, `availOut, `totalOut
      ensures totalOut + availOut == old(totalOut + availOut)
      ensures availOut <= old(availOut) && (availOut > 0 ==> pending == 0)
      ensures pending <= old(pending) && old(pending) - pending == old(availOut) - availOut
      ensures Books() == old(Books())
    {
      var len := Min(pending, availOut);
      availOut := availOut - len;
      totalOut := totalOut + len;
      pending := pending - len;
    }

    /** The bytes of blocks neither handed out nor pending, and the blocks without a size: none of
        either; the output space of the call; and the flush of the last call. */
    ghost function Books(): Account
      reads `blocks, `sizes, `pending, `availOut, `totalOut, `lastFlush
    {
      Account(Total(sizes) - totalOut - pending, |blocks| - |sizes|, totalOut + availOut, lastFlush)
    }

    /** One more block, of so many bytes. */
    method Record(ghost b: Block, size: nat)
      modifies `blocks, `sizes, `pending
      ensures blocks == old(blocks) + [b] && sizes == old(sizes) + [size] && pending == old(pending) + size
      ensures Books() == old(Books())
    {
      hide Total;
      TotalNext(sizes, size);
      blocks := blocks + [b];
      sizes := sizes + [size];
      pending := pending + size;
    }

    /** The open block, closed at strstart: its tokens and, while they are in the window, its bytes. */
    ghost function Open(last: bool): Block
      requires 0 <= base + blockStart <= base + strstart <= |stream|
      reads `stream, `base, `blockStart, `strstart, `tallied
    {
      Block(base + blockStart, tallied,
        if blockStart >= 0 then Some(stream[base + blockStart..base + strstart]) else None,
            false, last)
    }

    /** FLUSH_BLOCK_ONLY at the levels that code blocks. How many bytes the block takes is left
        open; the tokens and, while they are in the window, the raw bytes are handed over. */
    method FlushBlockOnly(last: bool)
      requires Shape() && Window() && Out(base + strstart)
      modifies `blocks, `tallied, `blockStart, `pending, `availOut, `totalOut, `sizes
      ensures Out(base + strstart) && tallied == [] && blockStart == strstart
      ensures old(blockStart) <= strstart && blocks == old(blocks) + [old(Open(last))]
      ensures NoneLast(old(blocks)) ==> if last then EndsLast(blocks) else NoneLast(blocks)
      ensures availOut <= old(availOut) && (availOut > 0 ==> pending == 0)
      ensures Emitted() == old(Emitted()) && Books() == old(Books())
    {
      hide Deflater.Books, BlocksOk, Decode, DistancesWithin, Tokens;
      var raw := if blockStart >= 0 then Some(window[blockStart..strstart]) else None;
      if raw.Some? {
        assert window[blockStart..strstart] == stream[base + blockStart..base + strstart] by {
          assert forall i | blockStart <= i < strstart :: window[..][i] == stream[base + i];
        }
      }
      OutFlush(blocks, tallied, stream, base + blockStart, base + strstart, MaxDist(), MaxStored(), raw, last);
      TokensAppend(blocks, Block(base + blockStart, tallied, raw, false, last));
      var size :| 0 <= size;
      Record(Block(base + blockStart, tallied, raw, false, last), size);
      tallied := [];
      blockStart := strstart;
      FlushPending();
    }

    // ----- what holds between two tokens

    /** The window, the dictionary and the output, with everything before the given position
        output. */
    ghost predicate Steady(pos: int)
      reads `stream, `base, `ins, `top, `strstart, `lookahead
      reads `insert, `blocks, `tallied, `blockStart, window, prev, head
    {
      Shape() && Window() && Chains() && Leftover() && Out(pos)
    }

    /** A match found at the previous position, waiting for a better one. */
    ghost predicate Waiting()
      reads `matchLength, `matchAvailable, `lookahead, `strstart, `matchStart, `stream, `base
    {
      matchLength >= MIN_MATCH ==>
        && matchAvailable && matchLength <= lookahead + 1
        && Pair(WordSub(strstart, matchStart), matchLength)
    }

    /** The len bytes from the previous position on repeat, at one less than the given distance
        from here. */
    ghost predicate Pair(dist: nat, len: nat)
      reads `base, `strstart, `stream
    {
      && 2 <= dist <= wSize - MIN_LOOKAHEAD + 1 && base + strstart >= 1
      && Repeats(stream, base + strstart - 1, dist - 1, len)
    }

    /** fill_window between two tokens: nothing that was output or found changes its meaning. */
    method Refill(ghost pos: int)
      requires Steady(pos) && Room() && lookahead < MIN_LOOKAHEAD && Waiting()
      modifies window, prev, head, `insH, `insert, `strstart, `lookahead, `blockStart, `matchStart, `highWater, `nextIn
      modifies `stream, `base, `ins, `top, `marks
      ensures Steady(pos) && Room() && Waiting()
      ensures strstart + MIN_LOOKAHEAD <= 2 * wSize && (base == old(base) || strstart >= MaxDist())
      ensures insert <= old(insert)
      ensures base + strstart == old(base + strstart) && base + blockStart == old(base + blockStart)
      ensures lookahead >= MIN_LOOKAHEAD || nextIn == []
      ensures stream + nextIn == old(stream + nextIn) && |nextIn| + lookahead == old(|nextIn| + lookahead)
      ensures old(HashIdle()) || |nextIn| < |old(nextIn)| ==> HashIdle()
      ensures old(insert) > 0 && insert == 0 ==> Front(strstart - 1)
      ensures Held() == old(Filled())
      ensures ins == old(ins) + Between(base + strstart - old(insert), base + strstart - insert)
    {
      hide Between;
      hide Deflater.Window, Deflater.Chains, Deflater.Out, Deflater.Room, Deflater.HashIdle, Deflater.Leftover,
        Deflater.Waiting;
      hide Deflater.Filled, Deflater.Held, Deflater.Front;
      WindowEnds();
      FillWindow();
      WindowEnds();
      assert |old(stream)| + |old(nextIn)| == |stream| + |nextIn| by {
        assert |stream + nextIn| == |old(stream) + old(nextIn)|;
      }
      OutSurvives(pos);
      WaitingSurvives();
    }

    /** Reading on does not change what was output. */
    twostate lemma OutSurvives(pos: int)
      requires Shape() && old(Out(pos)) && blocks == old(blocks) && tallied == old(tallied)
      requires base + blockStart == old(base + blockStart)
      requires stream + nextIn == old(stream + nextIn) && |nextIn| <= |old(nextIn)|
      ensures Out(pos)
    {
      hide OutOk;
      OutGrow(blocks, tallied, old(stream), base + blockStart, pos, MaxDist(), MaxStored(), old(nextIn),
        stream, nextIn);
    }

    /** Reading on and sliding do not change the match that waits. */
    twostate lemma WaitingSurvives()
      requires Shape() && old(Waiting()) && matchLength == old(matchLength) && matchAvailable == old(matchAvailable)
      requires lookahead >= old(lookahead) && base + strstart == old(base + strstart)
      requires WordSub(strstart, matchStart) == old(WordSub(strstart, matchStart))
      requires stream + nextIn == old(stream + nextIn) && |nextIn| <= |old(nextIn)|
      ensures Waiting()
    {
      hide Repeats;
      if matchLength >= MIN_MATCH {
        RepeatsGrow(old(stream), base + strstart - 1, WordSub(strstart, matchStart) - 1, matchLength,
          old(nextIn), stream, nextIn);
      }
    }

    /** The front of the chain of the string at strstart. */
    ghost function FrontHere(): nat
      reads `lookahead, `stream, `base, `strstart, head
    {
      if lookahead >= MIN_MATCH && P.Valid() && base + strstart + 3 <= |stream|
         && KeyAt(P, stream, base + strstart) < head.Length
      then head[KeyAt(P, stream, base + strstart)] else NIL
    }

    /** The chains once that string is linked in front. */
    ghost function Linked(): seq<nat>
      requires Slot(strstart, wSize) < prev.Length
      reads `lookahead, `stream, `base, `strstart, head, prev
    {
      if lookahead >= MIN_MATCH then prev[..][Slot(strstart, wSize) := FrontHere()] else prev[..]
    }

    /** The search for the string at strstart, to beat the given length. */
    ghost function SearchHere(first: nat): Search
      requires Slot(strstart, wSize) < prev.Length
      reads `lookahead, `stream, `base, `strstart, head, prev, window
    {
      Search(window[..], Linked(), strstart, lookahead, first, FrontHere())
    }

    /** The front is near enough to be searched from. */
    ghost predicate Near(q: Search)
    {
      q.front != NIL && q.start - q.front <= wSize - MIN_LOOKAHEAD
    }

    lemma HereIs(first: nat)
      requires Slot(strstart, wSize) < prev.Length
      ensures SearchHere(first) == Search(window[..], Linked(), strstart, lookahead, first, FrontHere())
    {}

    lemma HereNear()
      requires Shape() && Window() && lookahead > 0
      ensures Slot(strstart, wSize) < prev.Length
    {
      WindowEnds();
      SlotHere();
    }

    lemma SlotHere()
      requires Shape() && strstart < 2 * wSize
      ensures Slot(strstart, wSize) < prev.Length
    {
      SlotInside(strstart, wSize);
    }

    /** The start of an iteration: inserts the string at strstart if it has three bytes. */
    method InsertHere() returns (hashHead: nat)
      requires Shape() && Window() && Chains() && Leftover() && HashIdle() && lookahead > 0
      modifies prev, head, `insH, `ins, `top
      ensures Chains() && Inserted()
      ensures lookahead < MIN_MATCH ==> hashHead == NIL
      ensures lookahead >= MIN_MATCH ==>
        && base + strstart + 3 <= |stream|
        && Link(P, stream, base, ins, hashHead, base + strstart, KeyAt(P, stream, base + strstart))
      ensures HeadFound(old(head[..]), hashHead)
      ensures old(Slot(strstart, wSize)) < prev.Length && prev[..] == old(Linked()) && hashHead == old(FrontHere())
      ensures ins == old(ins) + if lookahead >= MIN_MATCH then {base + strstart} else {}
    {
      hide ChainsOk, WindowOk, HashParams.Update, Link;
      WindowEnds();
      SlotHere();
      hashHead := NIL;
      if lookahead >= MIN_MATCH {
        hashHead := Insert(strstart);
      }
    }

    /** The string at strstart is in the dictionary if it has three bytes, and the register is
        ready for the next. */
    ghost predicate Inserted()
      reads `lookahead, `insert, `top, `base, `strstart, `insH, `stream
    {
      if lookahead >= MIN_MATCH then
        insert == 0 && top == base + strstart + 1 && HashReady(P, insH, stream, base + strstart + 1)
      else Leftover() && (lookahead + insert >= MIN_MATCH ==> insert == 0)
    }

    /** A match of the string at strstart. */
    ghost predicate Matched(dist: int, len: nat)
      requires wSize >= 512
      reads `lookahead, `stream, `base, `strstart
    {
      1 <= dist <= MaxDist() && len <= lookahead && len <= MAX_MATCH && Repeats(stream, base + strstart, dist, len)
    }

    // ----- the end of a call

    /** All input that was read has been tallied and flushed. */
    ghost predicate Flushed()
      reads `lookahead, `tallied, `blockStart, `strstart, `matchAvailable
    {
      lookahead == 0 && tallied == [] && blockStart == strstart && !matchAvailable
    }

    /** All input has been read, tallied and flushed. */
    ghost predicate Drained()
      reads `nextIn, `lookahead, `tallied, `blockStart, `strstart, `matchAvailable
    {
      nextIn == [] && Flushed()
    }

    /** What a compression function's result promises. */
    ghost predicate Promise(bs: BlockState, flush: nat)
      reads `blocks, `availOut, `nextIn, `lookahead, `tallied, `blockStart, `strstart, `matchAvailable, `pending
    {
      match bs
      case NeedMore =>
        NoneLast(blocks) && (availOut == 0 || (flush == Z_NO_FLUSH && nextIn == [] && lookahead < MIN_LOOKAHEAD))
      case BlockDone => NoneLast(blocks) && Drained() && flush != Z_NO_FLUSH && flush != Z_FINISH
      case FinishStarted => EndsLast(blocks) && Drained() && flush == Z_FINISH && availOut == 0
      case FinishDone => EndsLast(blocks) && Drained() && flush == Z_FINISH && availOut > 0 && pending == 0
    }

    /** What one iteration of a compression loop promises: it goes on with less input left, or
        leaves the loop with none left, or leaves the function. */
    ghost predicate StepPromise(step: Step, flush: nat, before: nat)
      reads `nextIn, `lookahead, `availOut
    {
      match step
      case Continue => |nextIn| + lookahead < before
      case Break => lookahead == 0 && nextIn == [] && flush != Z_NO_FLUSH
      case Return => availOut == 0 || (flush == Z_NO_FLUSH && nextIn == [] && lookahead < MIN_LOOKAHEAD)
    }

    /** The head of an iteration: refills the window when fewer than need bytes are ahead. */
    method EnsureLookahead(need: nat, flush: nat, ghost pos: int) returns (step: Step)
      requires Steady(pos) && Room() && Waiting() && 1 <= need <= MIN_LOOKAHEAD
      modifies window, prev, head, `insH, `insert, `strstart, `lookahead, `blockStart, `matchStart, `highWater, `nextIn
      modifies `stream, `base, `ins, `top, `marks
      ensures Steady(pos) && Room() && Waiting()
      ensures base + strstart == old(base + strstart) && base + blockStart == old(base + blockStart)
      ensures stream + nextIn == old(stream + nextIn) && |nextIn| + lookahead == old(|nextIn| + lookahead)
      ensures old(HashIdle()) ==> HashIdle()
      ensures (base == old(base) || strstart >= MaxDist()) && insert <= old(insert)
      ensures step == Continue
        ==> lookahead > 0 && strstart + need <= 2 * wSize && (lookahead >= need || flush != Z_NO_FLUSH)
      ensures step != Continue ==> StepPromise(step, flush, 0)
      ensures old(insert) > 0 && insert == 0 ==> Front(strstart - 1)
      ensures Held() == old(if lookahead < need then Filled() else Held())
      ensures step == Return ==> flush == Z_NO_FLUSH
      ensures ins == old(ins) + Between(base + strstart - old(insert), base + strstart - insert)
    {
      hide Between;
      hide Deflater.Filled, Deflater.Front;
      WindowEnds();
      hide Deflater.Window, Deflater.Chains, Deflater.Out, Deflater.Leftover, Deflater.HashIdle, Deflater.Room;
      hide Deflater.Waiting;
      BetweenNone(ins, base + strstart - insert, base + strstart - insert);
      step := Continue;
      if lookahead < need {
        Refill(pos);
        if lookahead < need && flush == Z_NO_FLUSH {
          step := Return;
        } else if lookahead == 0 {
          step := Break;
        }
      }
    }

    /** FLUSH_BLOCK when the token buffer is full; stop tells that the output space is used up. */
    method FlushFull(bflush: bool) returns (stop: bool)
      requires Shape() && Window() && Out(base + strstart) && NoneLast(blocks)
      requires |tallied| < litBufsize && bflush == (|tallied| == litBufsize - 1)
      modifies `blocks, `tallied, `blockStart, `pending, `availOut, `totalOut, `sizes
      ensures Out(base + strstart) && NoneLast(blocks) && |tallied| < litBufsize - 1
      ensures (stop <==> bflush && availOut == 0) && Emitted() == old(Emitted())
      ensures !bflush ==> !stop && tallied == old(tallied) && blocks == old(blocks)
      ensures bflush ==> old(blockStart) <= strstart && blocks == old(blocks) + [old(Open(false))] && tallied == []
      ensures Books() == old(Books())
    {
      hide Deflater.Books;
      hide Deflater.Window, Deflater.Out, NoneLast, Deflater.Emitted, Deflater.Open;
      stop := false;
      if bflush {
        FlushBlockOnly(false);
        stop := availOut == 0;
      }
    }

    /** The common end of deflate_fast, deflate_slow, deflate_rle and deflate_huff. */
    method FinishCall(flush: nat) returns (bs: BlockState)
      requires Shape() && Window() && Out(base + strstart) && NoneLast(blocks) && flush != Z_NO_FLUSH
      requires nextIn == [] && lookahead == 0 && !matchAvailable
      modifies `blocks, `tallied, `blockStart, `pending, `availOut, `totalOut, `sizes
      ensures Out(base + strstart) && Promise(bs, flush) && tallied == []
      ensures flush == Z_FINISH ==> old(blockStart) <= strstart && blocks == old(blocks) + [old(Open(true))]
      ensures flush != Z_FINISH && old(tallied) != [] ==>
        old(blockStart) <= strstart && blocks == old(blocks) + [old(Open(false))]
      ensures flush != Z_FINISH && old(tallied) == [] ==> blocks == old(blocks)
      ensures Books() == old(Books())
    {
      hide Deflater.Books;
      hide OutOk, WindowOk, Deflater.Open;
      if flush == Z_FINISH {
        FlushBlockOnly(true);
        if availOut == 0 { return FinishStarted; }
        return FinishDone;
      }
      if tallied != [] {
        FlushBlockOnly(false);
        if availOut == 0 { return NeedMore; }
      }
      NothingTallied(base + strstart);
      bs := BlockDone;
    }

    /** With nothing tallied, the open block is empty. */
    lemma NothingTallied(pos: int)
      requires Shape() && Out(pos) && tallied == []
      ensures base + blockStart == pos
    {
      assert |stream[..base + blockStart]| == base + blockStart;
    }

    /** Every inserted string has three bytes of input. */
    lemma TopBound()
      requires Chains()
      ensures top == 0 || top + 2 <= |stream|
    {}

    /** The end of deflate_fast and deflate_slow: the last strings are left for the next call. */
    method EndCall(flush: nat) returns (bs: BlockState)
      requires Steady(base + strstart) && NoneLast(blocks) && flush != Z_NO_FLUSH
      requires nextIn == [] && lookahead == 0 && !matchAvailable
      modifies `insert, `blocks, `tallied, `blockStart, `pending, `availOut, `totalOut, `sizes
      ensures Steady(base + strstart) && HashIdle() && Promise(bs, flush) && tallied == []
      ensures insert == Min(strstart, MIN_MATCH - 1)
      ensures Books() == old(Books())
    {
      hide Deflater.Books;
      hide ChainsOk, WindowOk, Deflater.Out, NoneLast, EndsLast;
      TopBound();
      insert := if strstart < MIN_MATCH - 1 then strstart else MIN_MATCH - 1;
      bs := FinishCall(flush);
    }

    /** The head of the chain of the string at strstart, before that string was inserted. */
    ghost predicate HeadFound(heads: seq<nat>, hashHead: nat)
      reads `lookahead, `stream, `base, `strstart
    {
      && (lookahead < MIN_MATCH ==> hashHead == NIL)
      && (lookahead >= MIN_MATCH ==>
            P.Valid() && base + strstart + 3 <= |stream| && KeyAt(P, stream, base + strstart) < |heads|
            && hashHead == heads[KeyAt(P, stream, base + strstart)])
    }

    // ----- deflate_fast

    ghost predicate FastInv()
      reads `stream, `base, `ins, `top, `strstart, `lookahead
      reads `insert, `blocks, `tallied, `blockStart, window, prev, head, `insH, `highWater, `marks, `matchLength
      reads `prevLength
    {
      && Steady(base + strstart) && Room() && HashIdle()
      && matchLength < MIN_MATCH && prevLength == MIN_MATCH - 1 && |tallied| < litBufsize - 1
    }

    /** The input to come goes on with its last byte up to the gap, and the string before the next one
        has still to be inserted. */
    ghost predicate Poised(data: seq<bv8>)
      requires wSize >= 512
      reads `strstart, `lookahead, `insert, `marks, `stream
    {
      && lookahead == 0 && insert > 0 && 2 <= strstart < wSize + MaxDist() && |stream| > 0 && marks.gap < wSize
      && MIN_MATCH <= |data| <= MAX_MATCH && strstart + |data| == marks.gap
      && forall i | 0 <= i < |data| :: data[i] == stream[|stream| - 1]
    }

    /** The string before the next one is the front of its chain, and its first byte goes on to the end
        of the lookahead, where the gap begins. */
    ghost predicate RunAhead(heads: seq<nat>)
      reads `strstart, `lookahead, `marks, `stream, `base
    {
      && MIN_MATCH <= lookahead <= MAX_MATCH && 2 <= strstart && marks.gap < wSize && strstart + lookahead == marks.gap
      && P.Valid() && base + strstart + 2 <= |stream| && KeyAt(P, stream, base + strstart - 1) < |heads|
      && heads[KeyAt(P, stream, base + strstart - 1)] == strstart - 1 && Repeats(stream, base + strstart, 1, lookahead)
    }

    /** fill_window leads from the one to the other. */
    twostate lemma PoisedRuns()
      requires Shape() && old(Window()) && Window() && HashIdle() && old(Poised(nextIn))
      requires stream + nextIn == old(stream + nextIn) && |nextIn| + lookahead == old(|nextIn| + lookahead)
      requires base + strstart == old(base + strstart) && Held() == old(Filled())
      requires old(insert) > 0 && insert == 0 ==> Front(strstart - 1)
      ensures RunAhead(head[..])
    {
      hide WindowOk, Deflater.Bytes, HashReady, KeyAt;
      ghost var s, p := old(stream), old(nextIn);
      assert nextIn == [] && stream == s + p && lookahead == |p| by {
        assert |stream + nextIn| == |s| + |p|;
        assert stream + [] == stream;
      }
      forall k | base + strstart <= k < base + strstart + lookahead ensures stream[k] == stream[k - 1] {
        assert stream[k] == p[k - |s|] == s[|s| - 1];
        assert stream[k - 1] == if k - 1 < |s| then s[k - 1] else p[k - 1 - |s|];
      }
    }

    /** Two strings of one run have the same key. */
    lemma RunKeys(p: nat, len: nat)
      requires P.Valid() && p > 0 && len >= MIN_MATCH && p + len <= |stream| && Repeats(stream, p, 1, len)
      ensures KeyAt(P, stream, p) == KeyAt(P, stream, p - 1)
    {
      hide HashParams.Hash3, Index16;
      assert stream[p] == stream[p - 1] && stream[p + 1] == stream[p] && stream[p + 2] == stream[p + 1];
    }

    /** The first candidate agrees with the string up to the gap. */
    lemma RunMeets(hashHead: nat, visited: nat)
      requires Shape() && Window() && hashHead + 1 == strstart && visited >= 1
      requires marks.gap < wSize && strstart + lookahead == marks.gap && lookahead <= MAX_MATCH
      requires Repeats(stream, base + strstart, 1, lookahead)
      ensures MeetsGap(hashHead, visited)
    {
      hide WindowOk, Agrees, Repeats;
      AgreesRepeats(window[..], stream, base, strstart + lookahead, strstart, hashHead, lookahead);
      assert Visit(prev[..], wSize, hashHead, 0) == hashHead;
    }

    /** The search that FastFind makes when a run goes on to the gap. */
    lemma RunFinds(heads: seq<nat>, hashHead: nat, visited: nat, touched: set<nat>)
      requires Shape() && Window() && RunAhead(heads) && HeadFound(heads, hashHead) && prevLength >= 1
      requires hashHead != NIL && strstart - hashHead <= MaxDist()
        ==> Looked(hashHead, visited, touched) && visited >= 1
      ensures !(touched !! marks.unset) && hashHead + 1 == strstart
    {
      hide Deflater.Window, KeyAt, Repeats, Deflater.ReadFor, Deflater.MeetsGap;
      WindowEnds();
      RunKeys(base + strstart, lookahead);
      RunMeets(hashHead, visited);
    }

    /** The search of an iteration, if the chain's head is near enough. */
    method FastFind() returns (ghost hashHead: nat, ghost visited: nat, ghost touched: set<nat>)
      requires FastInv() && strstart + MIN_LOOKAHEAD <= 2 * wSize && lookahead > 0
      modifies prev, head, `insH, `ins, `top, `matchLength, `matchStart, `met
      ensures Chains() && Inserted()
      ensures matchLength >= MIN_MATCH ==>
        lookahead >= MIN_MATCH && matchStart < strstart && Matched(strstart - matchStart, matchLength)
      ensures HeadFound(old(head[..]), hashHead)
      ensures if hashHead != NIL && strstart - hashHead <= MaxDist()
              then visited >= 1 && Searched(hashHead, visited, matchLength) && Looked(hashHead, visited, touched)
              else matchLength == old(matchLength) && touched == {}
      ensures Slot(strstart, wSize) < prev.Length && hashHead == old(FrontHere())
      ensures ins == old(ins) + if lookahead >= MIN_MATCH then {base + strstart} else {}
      ensures var q := old(SearchHere(prevLength));
        if Near(q) then Finds(q, matchLength, matchStart) else matchLength == old(matchLength)
      ensures met == (old(met) || !(touched !! marks.unset)) && (marks.gap == wSize ==> touched !! marks.unset)
    {
      hide Deflater.Window, Deflater.Chains, Deflater.Out, Deflater.Leftover, Deflater.HashIdle, Deflater.Room, Link;
      hide Repeats, Deflater.Limit, Deflater.Budget, HashReady;
      hide Deflater.Searched, Deflater.HeadFound, Deflater.Looked, Marks.Exact;
      hide Deflater.Finds, Deflater.SearchHere, Deflater.FrontHere, Deflater.Linked;
      SlotHere();
      HereIs(prevLength);
      ghost var q := SearchHere(prevLength);
      var front := InsertHere();
      assert q == Search(window[..], prev[..], strstart, lookahead, prevLength, front);
      hashHead, visited, touched := front, 0, {};
      if front != NIL && strstart - front <= MaxDist() {
        var len;
        len, visited, touched := LongestMatch(front);
        matchLength := len;
      }
    }

    /** A literal: one byte further. */
    method FastLiteral() returns (bflush: bool)
      requires Shape() && Window() && Chains() && Inserted() && Out(base + strstart) && Room()
      requires lookahead > 0 && |tallied| < litBufsize - 1
      modifies `tallied, `lookahead, `strstart
      ensures Steady(base + strstart) && Room() && HashIdle() && bflush == (|tallied| == litBufsize - 1)
      ensures |tallied| < litBufsize && lookahead < old(lookahead) && strstart + lookahead == old(strstart + lookahead)
      ensures tallied == old(tallied) + [Literal(window[old(strstart)])]
    {
      hide ChainsOk, HashParams.Update, OutOk;
      assert window[..][strstart] == stream[base + strstart];
      bflush := TallyLit(window[strstart], base + strstart);
      lookahead := lookahead - 1;
      strstart := strstart + 1;
    }

    /** A match: tallied, then passed over. */
    method FastMatch() returns (bflush: bool)
      requires Shape() && Window() && Chains() && Inserted() && Out(base + strstart) && Room()
      requires MIN_MATCH <= matchLength && Matched(strstart - matchStart, matchLength) && |tallied| < litBufsize - 1
      requires strstart + MIN_LOOKAHEAD <= 2 * wSize
      modifies prev, head, `insH, `ins, `top, `tallied, `lookahead, `strstart, `matchLength
      ensures Steady(base + strstart) && Room() && HashIdle() && bflush == (|tallied| == litBufsize - 1)
      ensures |tallied| < litBufsize && lookahead < old(lookahead) && matchLength == 0
      ensures ins == old(ins) + if old(matchLength) <= maxLazy && lookahead >= MIN_MATCH
                                then Between(old(base + strstart) + 1, base + strstart) else {}
      ensures strstart + lookahead == old(strstart + lookahead)
      ensures tallied == old(tallied) + [Match(old(strstart) - matchStart, old(matchLength))]
    {
      hide ChainsOk, OutOk, Repeats, WindowOk, HashReady;
      bflush := TallyDist(strstart - matchStart, matchLength - MIN_MATCH, base + strstart);
      PassMatch();
    }

    /** Moves past a match: its strings are inserted if it is short, otherwise the register starts
        over. */
    method PassMatch()
      requires Shape() && Window() && Chains() && Inserted() && Room()
      requires MIN_MATCH <= matchLength <= lookahead && matchLength <= MAX_MATCH
      requires strstart + MIN_LOOKAHEAD <= 2 * wSize
      modifies prev, head, `insH, `ins, `top, `lookahead, `strstart, `matchLength
      ensures Window() && Chains() && Leftover() && Room() && HashIdle()
      ensures strstart == old(strstart + matchLength) && matchLength == 0 && lookahead < old(lookahead)
      ensures ins == old(ins) + if old(matchLength) <= maxLazy && lookahead >= MIN_MATCH
                                then Between(old(base + strstart) + 1, base + strstart) else {}
      ensures strstart + lookahead == old(strstart + lookahead)
    {
      hide ChainsOk, WindowOk, HashReady;
      lookahead := lookahead - matchLength;
      if matchLength <= maxLazy && lookahead >= MIN_MATCH {
        InsertMatch();
      } else {
        strstart := strstart + matchLength;
        matchLength := 0;
        RestartHash();
      }
    }

    /** Starts the hash register over at strstart; garbage, but unused, near the end of the input. */
    method RestartHash()
      requires Shape() && Bytes() && strstart + 1 < 2 * wSize
      modifies `insH
      ensures HashReady(P, insH, stream, base + strstart)
    {
      RestartAt(strstart);
    }

    method RestartAt(str: nat)
      requires Shape() && Bytes() && str + 1 < 2 * wSize
      modifies `insH
      ensures HashReady(P, insH, stream, base + str)
    {
      hide HashParams.Update, WindowOk;
      insH := window[str] as bv32;
      insH := P.Update(insH, window[str + 1]);
      if base + str + 2 <= |stream| {
        ReadyStart(P, window[str], window[str + 1]);
        WindowAt(str);
        WindowAt(str + 1);
      }
    }

    /** The input read ends within the window. */
    lemma WindowEnds()
      requires Shape() && Window()
      ensures strstart + lookahead <= 2 * wSize && base + strstart + lookahead == |stream|
    {}

    lemma WindowAt(i: nat)
      requires Shape() && Bytes() && base + i < |stream|
      ensures window[i] == stream[base + i]
    {
      assert window[..][i] == stream[base + i];
    }

    /** Inserts the strings inside a match whose first one is in the dictionary already. */
    method InsertMatch()
      requires Shape() && Bytes() && Chains() && matchLength >= MIN_MATCH && top == base + strstart + 1
      requires base + strstart + matchLength + MIN_MATCH <= |stream|
      requires HashReady(P, insH, stream, base + strstart + 1)
      modifies prev, head, `insH, `ins, `top, `strstart, `matchLength
      ensures Chains() && strstart == old(strstart + matchLength) && matchLength == 0
      ensures ins == old(ins) + Between(old(base + strstart) + 1, base + strstart)
      ensures top == base + strstart && HashReady(P, insH, stream, base + strstart)
    {
      hide ChainsOk, HashParams.Update, WindowOk, Between;
      ghost var first := base + strstart + 1;
      BetweenNone(ins, first, first);
      matchLength := matchLength - 1;
      while true
        invariant matchLength >= 1 && strstart + matchLength + 1 == old(strstart + matchLength)
        invariant ins == old(ins) + Between(first, base + strstart + 1)
        invariant Chains() && top == base + strstart + 1 && HashReady(P, insH, stream, base + strstart + 1)
        decreases matchLength
        modifies prev, head, `insH, `ins, `top, `strstart, `matchLength
      {
        strstart := strstart + 1;
        BetweenNext(old(ins), first, base + strstart);
        InsertNext(strstart);
        matchLength := matchLength - 1;
        if matchLength == 0 { break; }
      }
      strstart := strstart + 1;
    }

    /** The token of an iteration. */
    method FastEmit() returns (bflush: bool, ghost found: nat)
      requires FastInv() && strstart + MIN_LOOKAHEAD <= 2 * wSize && lookahead > 0
      modifies `met, prev, head, `insH, `ins, `top, `matchLength, `matchStart, `tallied, `lookahead, `strstart
      ensures Steady(base + strstart) && Room() && HashIdle() && matchLength < MIN_MATCH
      ensures |tallied| < litBufsize && bflush == (|tallied| == litBufsize - 1) && lookahead < old(lookahead)
      ensures strstart + lookahead == old(strstart + lookahead)
      ensures found >= MIN_MATCH ==> matchStart < old(strstart)
      ensures Took(old(tallied), tallied, found, if found >= MIN_MATCH then old(strstart) - matchStart else 1,
                   window[old(strstart)])
      ensures |tallied| == old(|tallied|) + 1
      ensures old(Slot(strstart, wSize)) < prev.Length
      ensures old(Near(SearchHere(prevLength))) ==> Finds(old(SearchHere(prevLength)), found, matchStart)
      ensures !old(Near(SearchHere(prevLength))) ==> found < MIN_MATCH
      ensures ins == old(ins) + (if old(lookahead) >= MIN_MATCH then {old(base + strstart)} else {})
        + if MIN_MATCH <= found <= maxLazy && lookahead >= MIN_MATCH
          then Between(old(base + strstart) + 1, base + strstart) else {}
      ensures (old(met || RunAhead(head[..])) ==> met) && (marks.gap == wSize ==> met == old(met))
    {
      hide Deflater.Window, Deflater.Chains, Deflater.Out, Deflater.Room, Deflater.Matched, Deflater.Leftover;
      hide Deflater.HashIdle, Deflater.Inserted, Deflater.Finds, Deflater.SearchHere, Deflater.Near, Between;
      hide Deflater.Searched, Deflater.HeadFound;
      hide Deflater.Looked, Deflater.RunAhead;
      HereNear();
      ghost var heads := head[..];
      ghost var hashHead, visited, touched := FastFind();
      if RunAhead(heads) { RunFinds(heads, hashHead, visited, touched); }
      found := matchLength;
      if matchLength >= MIN_MATCH {
        bflush := FastMatch();
      } else {
        bflush := FastLiteral();
      }
    }

    /** The token of an iteration, with the flush if it fills the buffer. */
    method FastToken() returns (stop: bool)
      requires FastInv() && NoneLast(blocks) && strstart + MIN_LOOKAHEAD <= 2 * wSize && lookahead > 0
      modifies `met, prev, head, `insH, `ins, `top, `matchLength, `matchStart, `tallied, `lookahead, `strstart
      modifies `blocks, `blockStart, `pending, `availOut, `totalOut, `sizes
      ensures FastInv() && NoneLast(blocks) && lookahead < old(lookahead) && (stop ==> availOut == 0)
      ensures Held() == old(Held())
      ensures old(|tallied|) + 2 < litBufsize ==> !stop && |tallied| <= old(|tallied|) + 1
      ensures (old(met || RunAhead(head[..])) ==> met) && (marks.gap == wSize ==> met == old(met))
      ensures Books() == old(Books())
    {
      hide Deflater.Books;
      hide Deflater.RunAhead;
      hide Deflater.Window, Deflater.Chains, Deflater.Out, Deflater.Leftover, Deflater.HashIdle, Deflater.Room;
      hide NoneLast, EndsLast, Deflater.Took, Deflater.Emitted;
      var bflush, _ := FastEmit();
      stop := FlushFull(bflush);
    }

    /** The head of an iteration. */
    method FastHead(flush: nat) returns (step: Step)
      requires FastInv()
      modifies window, prev, head, `insH, `insert, `strstart, `lookahead, `blockStart, `matchStart, `highWater, `nextIn
      modifies `stream, `base, `ins, `top, `marks
      ensures FastInv() && stream + nextIn == old(stream + nextIn) && |nextIn| + lookahead == old(|nextIn| + lookahead)
      ensures step == Continue ==> lookahead > 0 && strstart + MIN_LOOKAHEAD <= 2 * wSize
      ensures step != Continue ==> StepPromise(step, flush, 0) && (step == Return ==> flush == Z_NO_FLUSH)
      ensures Held() == old(if lookahead < MIN_LOOKAHEAD then Filled() else Held())
      ensures flush != Z_NO_FLUSH && old(Poised(nextIn)) ==> step == Continue && RunAhead(head[..])
    {
      hide Deflater.Filled, Deflater.Front, Deflater.RunAhead, Deflater.Held;
      hide Deflater.Window, Deflater.Chains, Deflater.Out, Deflater.Leftover, Deflater.HashIdle, Deflater.Room;
      hide Repeats, Deflater.Bytes, WindowOk, ChainsOk, OutOk;
      step := EnsureLookahead(MIN_LOOKAHEAD, flush, base + strstart);
      if flush != Z_NO_FLUSH && old(Poised(nextIn)) { PoisedRuns(); }
    }

    /** One iteration of deflate_fast's loop. */
    method FastStep(flush: nat) returns (step: Step)
      requires FastInv() && NoneLast(blocks)
      modifies this, window, prev, head
      ensures FastInv() && NoneLast(blocks) && matchAvailable == old(matchAvailable)
      ensures stream + nextIn == old(stream + nextIn) && finished == old(finished)
      ensures StepPromise(step, flush, old(|nextIn| + lookahead))
      ensures Held() == old(if lookahead < MIN_LOOKAHEAD then Filled() else Held())
      ensures step == Break ==> |nextIn| + lookahead == old(|nextIn| + lookahead)
      ensures flush != Z_NO_FLUSH && old(|tallied|) + 2 < litBufsize
        ==> step != Return && |tallied| <= old(|tallied|) + 1
      ensures Held().gap == wSize || step == Break ==> met == old(met)
      ensures old(met) || (flush != Z_NO_FLUSH && old(Poised(nextIn))) ==> met
      ensures Books() == old(Books())
    {
      hide Deflater.Books, Deflater.FastInv, Deflater.Filled, Deflater.RunAhead, Deflater.Poised, NoneLast;
      step := FastHead(flush);
      if step == Continue {
        var stop := FastToken();
        if stop { step := Return; }
      }
    }

    /** The same, on the way to an extent that is due. */
    method FastRound(flush: nat, ghost e: Extent, ghost due: bool) returns (step: Step)
      requires FastInv() && NoneLast(blocks) && (due ==> flush != Z_NO_FLUSH && Now().Due(e, wSize, litBufsize))
      modifies this, window, prev, head
      ensures FastInv() && NoneLast(blocks) && matchAvailable == old(matchAvailable)
      ensures stream + nextIn == old(stream + nextIn) && finished == old(finished)
      ensures StepPromise(step, flush, old(|nextIn| + lookahead))
      ensures due && step == Break ==> Held() == e.Ended(wSize)
      ensures due && step != Break ==> step == Continue && Now().Due(e, wSize, litBufsize)
      ensures due && e.gap == wSize ==> met == old(met)
      ensures old(met) || (flush != Z_NO_FLUSH && old(Poised(nextIn))) ==> met
      ensures Books() == old(Books())
    {
      hide Deflater.Books;
      hide ChainsOk, WindowOk, Deflater.Out, NoneLast, EndsLast, Deflater.HashIdle, Deflater.Leftover;
      hide Deflater.Window, Deflater.Chains, Deflater.Room, Deflater.Poised, Extent.Ended, Extent.Ahead, Extent.Filled;
      ghost var p, all := Now(), stream + nextIn;
      HeldAhead();
      step := FastStep(flush);
      HeldAhead();
      assert |stream| + |nextIn| == |all|;
      if due { DueStep(e, wSize, litBufsize, p, Now(), step == Break); }
    }

    /** deflate_fast's loop, which is left only with all input used up or by a return. */
    method FastLoop(flush: nat, ghost e: Extent, ghost due: bool) returns (step: Step)
      requires FastInv() && NoneLast(blocks) && !matchAvailable
      requires due ==> flush != Z_NO_FLUSH && Now().Due(e, wSize, litBufsize)
      modifies this, window, prev, head
      ensures FastInv() && NoneLast(blocks) && !matchAvailable
      ensures stream + nextIn == old(stream + nextIn) && finished == old(finished)
      ensures step != Continue && StepPromise(step, flush, 0)
      ensures due ==> step == Break && Held() == e.Ended(wSize)
      ensures due && e.gap == wSize ==> met == old(met)
      ensures old(met) || (flush != Z_NO_FLUSH && old(Poised(nextIn))) ==> met
      ensures Books() == old(Books())
    {
      hide Deflater.Books;
      assert wSize >= 512;
      hide Deflater.FastInv, NoneLast, Place.Due, Deflater.Poised, Extent.Ended, Deflater.Now, Deflater.Held;
      ghost var poised := flush != Z_NO_FLUSH && Poised(nextIn);
      step := Continue;
      while step == Continue
        invariant Books() == old(Books())
        invariant FastInv() && NoneLast(blocks) && !matchAvailable
        invariant stream + nextIn == old(stream + nextIn) && finished == old(finished)
        invariant step != Continue ==> StepPromise(step, flush, 0)
        invariant due && step == Break ==> Held() == e.Ended(wSize)
        invariant due && step != Break ==> step == Continue && Now().Due(e, wSize, litBufsize)
        invariant due && e.gap == wSize ==> met == old(met)
        invariant (old(met) ==> met) && (poised ==> met || (step == Continue && Poised(nextIn)))
        decreases step == Continue, |nextIn| + lookahead
      {
        step := FastRound(flush, e, due);
      }
    }

    /** deflate_fast */
    method DeflateFast(flush: nat) returns (bs: BlockState)
      requires FastInv() && NoneLast(blocks) && !matchAvailable
      modifies this, window, prev, head
      ensures FastInv() && Promise(bs, flush) && !matchAvailable
      ensures stream + nextIn == old(stream + nextIn) && finished == old(finished)
      ensures flush != Z_NO_FLUSH && old(Fits(nextIn)) ==> UsedUp(old(AllRead(|nextIn|)).Ended(wSize))
      ensures flush != Z_NO_FLUSH && old(Fits(nextIn)) && old(AllRead(|nextIn|)).gap == wSize ==> met == old(met)
      ensures old(met) || (flush != Z_NO_FLUSH && old(Poised(nextIn))) ==> met
      ensures Books() == old(Books())
    {
      hide Deflater.Books;
      hide ChainsOk, WindowOk, Deflater.Out, NoneLast, EndsLast, Deflater.Leftover;
      hide Deflater.Window, Deflater.Chains, Deflater.Room, Deflater.HashIdle, Deflater.Filled;
      hide Deflater.AllRead, Deflater.Fits, Place.Due, Deflater.Poised, Extent.Ended;
      ghost var e, fits := AllRead(|nextIn|), flush != Z_NO_FLUSH && Fits(nextIn);
      if fits { FitsIsDue(); }
      var step := FastLoop(flush, e, fits);
      if step == Return { return NeedMore; }
      bs := EndCall(flush);
    }

    // ----- deflate_slow

    /** Everything before strstart is output, except the byte kept back while a match waits. */
    ghost predicate SlowInv()
      reads `stream, `base, `ins, `top, `strstart, `lookahead
      reads `insert, `blocks, `tallied, `blockStart, window, prev, head, `insH, `highWater, `marks, `matchLength
      reads `matchAvailable, `matchStart
    {
      && (matchAvailable ==> strstart >= 1)
      && Steady(SlowPos()) && Room() && HashIdle() && Waiting()
      && MIN_MATCH - 1 <= matchLength <= MAX_MATCH && |tallied| < litBufsize - 1
    }

    ghost function SlowPos(): int
      reads `base, `strstart, `matchAvailable
    {
      base + strstart - (if matchAvailable then 1 else 0)
    }

    /** The lazy search: the match found at the previous position becomes the previous match; a new
        one is looked for unless it is good enough, and short far matches are dropped. */
    method SlowFind() returns (ghost hashHead: nat, ghost visited: nat, ghost longest: nat)
      requires Shape() && Window() && Chains() && Leftover() && HashIdle() && Room() && Waiting()
      requires strstart + MIN_LOOKAHEAD <= 2 * wSize && lookahead > 0 && MIN_MATCH - 1 <= matchLength <= MAX_MATCH
      modifies `met, prev, head, `insH, `ins, `top, `matchLength, `matchStart, `prevLength, `prevMatch
      ensures Chains() && Inserted()
      ensures prevLength == old(matchLength) && prevMatch == old(matchStart)
      ensures MIN_MATCH - 1 <= matchLength <= MAX_MATCH
      ensures matchLength > prevLength && matchLength >= MIN_MATCH
        ==> matchStart < strstart && Matched(strstart - matchStart, matchLength)
      ensures Slot(strstart, wSize) < prev.Length && hashHead == old(FrontHere())
      ensures ins == old(ins) + if lookahead >= MIN_MATCH then {base + strstart} else {}
      ensures var q := old(SearchHere(matchLength));
        if Near(q) && prevLength < maxLazy
        then Finds(q, longest, matchStart) && matchLength == if Dropped(longest) then MIN_MATCH - 1 else longest
        else matchLength == MIN_MATCH - 1
      ensures HeadFound(old(head[..]), hashHead)
      ensures if hashHead != NIL && prevLength < maxLazy && strstart - hashHead <= MaxDist()
              then Searched(hashHead, visited, longest)
                && matchLength == (if Dropped(longest) then MIN_MATCH - 1 else longest)
              else matchLength == MIN_MATCH - 1
    {
      hide Deflater.Window, Deflater.Chains, Repeats, Deflater.Limit, Deflater.Budget, Deflater.Room;
      hide Deflater.Waiting, Deflater.Leftover;
      hide Deflater.HashIdle, HashReady, Visit, Deflater.Searched, Deflater.Dropped, Deflater.HeadFound;
      hide Deflater.Inserted, Deflater.Matched, Link;
      hide Deflater.Finds, Deflater.SearchHere, Deflater.FrontHere, Deflater.Linked;
      HereNear();
      HereIs(matchLength);
      ghost var q := SearchHere(matchLength);
      var front := SlowHead();
      assert q == Search(window[..], prev[..], strstart, lookahead, prevLength, front);
      hashHead, visited, longest := front, 0, 0;
      if front != NIL && prevLength < maxLazy && strstart - front <= MaxDist() {
        visited, longest := SlowSearch(front);
      }
    }

    /** The string at strstart enters the dictionary and the last match becomes the previous one. */
    method SlowHead() returns (hashHead: nat)
      requires lookahead > 0 && Shape() && Window() && Chains() && Leftover() && HashIdle()
      requires MIN_MATCH - 1 <= matchLength && Waiting()
      modifies prev, head, `insH, `ins, `top, `matchLength, `prevLength, `prevMatch
      ensures Chains() && Inserted() && HeadFound(old(head[..]), hashHead)
      ensures prevLength == old(matchLength) && prevMatch == matchStart && matchLength == MIN_MATCH - 1
      ensures lookahead >= MIN_MATCH ==> prevLength <= lookahead + 1
      ensures old(Slot(strstart, wSize)) < prev.Length && prev[..] == old(Linked()) && hashHead == old(FrontHere())
      ensures ins == old(ins) + if lookahead >= MIN_MATCH then {base + strstart} else {}
      ensures hashHead != NIL ==>
        && lookahead >= MIN_MATCH && top == base + strstart + 1 && base + strstart + 3 <= |stream|
        && Link(P, stream, base, ins, hashHead, base + strstart, KeyAt(P, stream, base + strstart))
    {
      hide Deflater.Window, Deflater.Chains, Deflater.Leftover, Deflater.HashIdle, HashReady, Deflater.HeadFound, Link;
      hide Deflater.Linked, Deflater.FrontHere;
      hashHead := InsertHere();
      prevLength, prevMatch := matchLength, matchStart;
      matchLength := MIN_MATCH - 1;
    }

    /** A match too short for its distance or for the filtered strategy. */
    predicate Dropped(len: nat)
      reads `strstart, `matchStart
    {
      DroppedAt(len, strstart, matchStart)
    }

    /** Three bytes farther back than 4096 are not worth a pair, nor up to five in filtered data. */
    predicate DroppedAt(len: nat, start: nat, m: nat)
    {
      len <= 5 && (filtered || (len == 3 && WordSub(start, m) > 4096))
    }

    /** A search for a match longer than the previous one; short far matches are dropped. */
    method SlowSearch(hashHead: nat) returns (ghost visited: nat, ghost longest: nat)
      requires Shape() && Window() && Chains() && Room() && strstart + MIN_LOOKAHEAD <= 2 * wSize
      requires lookahead >= MIN_MATCH && MIN_MATCH - 1 <= prevLength <= MAX_MATCH && prevLength <= lookahead + 1
      requires top == base + strstart + 1
      requires base + strstart + 3 <= |stream| && hashHead != NIL && strstart <= hashHead + MaxDist()
      requires Link(P, stream, base, ins, hashHead, base + strstart, KeyAt(P, stream, base + strstart))
      modifies `matchLength, `matchStart, `met
      ensures MIN_MATCH - 1 <= matchLength <= MAX_MATCH
      ensures matchLength > prevLength && matchLength >= MIN_MATCH
        ==> matchStart < strstart && Matched(strstart - matchStart, matchLength)
      ensures Finds(Search(window[..], prev[..], strstart, lookahead, prevLength, hashHead), longest, matchStart)
      ensures Searched(hashHead, visited, longest) && matchLength == if Dropped(longest) then MIN_MATCH - 1 else longest
    {
      hide Deflater.Window, Deflater.Chains, Repeats, Deflater.Limit, Deflater.Budget, Deflater.Room, Visit;
      hide Marks.Exact, Deflater.Looked, Deflater.Finds;
      var len, seen, _ := LongestMatch(hashHead);
      matchLength, visited := len, seen;
      longest := matchLength;
      hide Deflater.Searched;
      if matchLength <= 5 && (filtered || (matchLength == MIN_MATCH && WordSub(strstart, matchStart) > TOO_FAR)) {
        matchLength := MIN_MATCH - 1;
      }
    }

    /** The previous match is taken: tallied from the previous position, then passed over. */
    method SlowMatch() returns (bflush: bool)
      requires Shape() && Window() && Chains() && Inserted() && Room() && strstart >= 1
      requires Out(base + strstart - 1) && |tallied| < litBufsize - 1
      requires MIN_MATCH <= prevLength <= MAX_MATCH && prevLength <= lookahead + 1
      requires Pair(WordSub(strstart, prevMatch), prevLength)
      modifies prev, head, `insH, `ins, `top, `tallied, `lookahead, `strstart, `matchLength, `prevLength,
        `matchAvailable
      ensures Steady(base + strstart) && Room() && HashIdle() && !matchAvailable && matchLength == MIN_MATCH - 1
      ensures |tallied| < litBufsize && bflush == (|tallied| == litBufsize - 1) && lookahead < old(lookahead)
      ensures ins == old(ins) +
        Between(old(base + strstart) + 1,
                base + if lookahead >= MIN_MATCH - 1 then strstart else strstart + lookahead - 2)
      ensures strstart == old(strstart + prevLength) - 1
      ensures tallied == old(tallied) + [Match(WordSub(old(strstart) - 1, prevMatch), old(prevLength))]
    {
      hide ChainsOk, OutOk, Repeats, WindowOk, HashReady, Deflater.Chains, Deflater.Room;
      WordSubOne(strstart, prevMatch);
      bflush := TallyDist(WordSub(strstart - 1, prevMatch), prevLength - MIN_MATCH, base + strstart - 1);
      PassPrevious();
      matchAvailable := false;
      matchLength := MIN_MATCH - 1;
    }

    /** Moves past the previous match, inserting its strings up to the last one that has three
        bytes; the first two positions have been dealt with. */
    method PassPrevious()
      requires Shape() && Window() && Chains() && Inserted() && Room() && strstart >= 1
      requires MIN_MATCH <= prevLength <= MAX_MATCH && prevLength <= lookahead + 1
      modifies prev, head, `insH, `ins, `top, `lookahead, `strstart, `prevLength
      ensures Window() && Chains() && Leftover() && Room() && HashIdle()
      ensures ins == old(ins) +
        Between(old(base + strstart) + 1,
                base + if lookahead >= MIN_MATCH - 1 then strstart else strstart + lookahead - 2)
      ensures strstart == old(strstart + prevLength) - 1 && lookahead < old(lookahead)
    {
      hide ChainsOk, WindowOk, HashReady;
      var maxInsert := strstart + lookahead - MIN_MATCH;
      lookahead := lookahead - (prevLength - 1);
      prevLength := prevLength - 2;
      InsertUpTo(maxInsert);
      strstart := strstart + 1;
    }

    /** Passes over prev_length positions, inserting the strings up to window index maxInsert. */
    method InsertUpTo(maxInsert: int)
      requires Shape() && Bytes() && Chains() && prevLength >= 1 && top <= base + strstart + 1
      requires base + maxInsert + MIN_MATCH <= |stream|
      requires strstart + 1 <= maxInsert ==> HashReady(P, insH, stream, base + strstart + 1)
      modifies prev, head, `insH, `ins, `top, `strstart, `prevLength
      ensures Chains() && strstart == old(strstart + prevLength) && top <= base + strstart + 1
      ensures ins == old(ins) +
        Between(old(base + strstart) + 1, base + (if strstart <= maxInsert then strstart else maxInsert) + 1)
      ensures strstart <= maxInsert ==> HashReady(P, insH, stream, base + strstart + 1)
    {
      hide Deflater.Bytes, Deflater.Chains, HashReady;
      hide Between;
      ghost var first := base + strstart + 1;
      BetweenNone(ins, first, base + (if strstart <= maxInsert then strstart else maxInsert) + 1);
      ghost var last := strstart + prevLength;
      while true
        invariant prevLength >= 1 && strstart + prevLength == last
        invariant ins == old(ins) + Between(first, base + (if strstart <= maxInsert then strstart else maxInsert) + 1)
        invariant Chains() && top <= base + strstart + 1
        invariant strstart + 1 <= maxInsert ==> HashReady(P, insH, stream, base + strstart + 1)
        decreases prevLength
        modifies prev, head, `insH, `ins, `top, `strstart, `prevLength
      {
        strstart := strstart + 1;
        if strstart <= maxInsert {
          BetweenNext(old(ins), first, base + strstart);
          InsertNext(strstart);
        }
        prevLength := prevLength - 1;
        if prevLength == 0 { break; }
      }
    }

    /** The byte kept back is output as a literal. */
    method TallyKept() returns (bflush: bool)
      requires Shape() && Window() && strstart >= 1 && Out(base + strstart - 1) && |tallied| < litBufsize - 1
      modifies `tallied
      ensures Out(base + strstart)
      ensures |tallied| < litBufsize && bflush == (|tallied| == litBufsize - 1)
      ensures tallied == old(tallied) + [Literal(window[strstart - 1])]
    {
      hide OutOk;
      assert window[..][strstart - 1] == stream[base + strstart - 1] && base + strstart <= |stream|;
      bflush := TallyLit(window[strstart - 1], base + strstart - 1);
    }

    /** The byte kept back is output, and the block flushed if that fills the buffer. */
    method OutputKept()
      requires Shape() && Window() && NoneLast(blocks)
      requires strstart >= 1 && Out(base + strstart - 1) && |tallied| < litBufsize - 1
      modifies `tallied, `blocks, `blockStart, `pending, `availOut, `totalOut, `sizes
      ensures Out(base + strstart) && NoneLast(blocks) && |tallied| < litBufsize - 1
      ensures Emitted() == old(Emitted()) + [Literal(window[strstart - 1])]
      ensures Books() == old(Books())
    {
      hide Deflater.Books;
      WindowEnds();
      hide Deflater.Window, Deflater.Out, NoneLast, Tokens;
      var bflush := TallyKept();
      assert Emitted() == old(Emitted()) + [Literal(window[strstart - 1])];
      if bflush {
        FlushBlockOnly(false);
      }
    }

    /** One byte further, keeping it back. */
    method KeepByte()
      requires Shape() && Window() && Chains() && Inserted() && Room() && Out(base + strstart)
      requires lookahead > 0 && MIN_MATCH - 1 <= matchLength <= MAX_MATCH
      requires matchLength >= MIN_MATCH ==> matchStart < strstart && Matched(strstart - matchStart, matchLength)
      modifies `lookahead, `strstart, `matchAvailable
      ensures matchAvailable && strstart >= 1 && Steady(base + strstart - 1) && Room() && HashIdle() && Waiting()
      ensures lookahead == old(lookahead) - 1
    {
      hide ChainsOk, OutOk, Repeats, WindowOk, HashReady;
      matchAvailable := true;
      strstart := strstart + 1;
      lookahead := lookahead - 1;
    }

    /** The decision of an iteration: take the previous match, or output the byte kept back, or
        keep the first one; stop tells that the output space is used up. */
    method SlowEmit() returns (stop: bool, ghost found: nat, ghost longest: nat)
      requires SlowInv() && NoneLast(blocks) && strstart + MIN_LOOKAHEAD <= 2 * wSize && lookahead > 0
      modifies `met, prev, head, `insH, `ins, `top, `tallied, `lookahead, `strstart, `matchLength, `matchStart
      modifies `prevLength, `prevMatch, `matchAvailable, `blocks, `blockStart, `pending, `availOut, `totalOut, `sizes
      ensures SlowInv() && NoneLast(blocks) && lookahead < old(lookahead) && (stop ==> availOut == 0)
      ensures old(matchAvailable) ==> old(strstart) >= 1
      ensures Emitted() == old(Emitted()) +
        if old(matchLength) >= MIN_MATCH && found <= old(matchLength) then
          [Match(WordSub(old(strstart) - 1, old(matchStart)), old(matchLength))]
        else if old(matchAvailable) then [Literal(window[old(strstart) - 1])]
        else []
      ensures old(Slot(strstart, wSize)) < prev.Length
      ensures if old(Near(SearchHere(matchLength)) && matchLength < maxLazy)
              then Finds(old(SearchHere(matchLength)), longest, matchStart)
                && found == if DroppedAt(longest, old(strstart), matchStart) then MIN_MATCH - 1 else longest
              else found == MIN_MATCH - 1
      ensures Books() == old(Books())
    {
      hide Deflater.Books;
      hide Deflater.Window, Deflater.Chains, Deflater.Out, Deflater.Leftover, Deflater.HashIdle, Deflater.Room;
      hide Deflater.Inserted;
      hide NoneLast, Deflater.Pair, Deflater.Matched, Tokens, Deflater.Searched, Deflater.HeadFound;
      hide Deflater.Finds, Deflater.SearchHere, Deflater.Near, Deflater.DroppedAt;
      HereNear();
      ghost var hashHead, visited, l := SlowFind();
      longest := l;
      found := matchLength;
      stop := SlowDecide();
    }

    /** The decision itself: the previous match, if the new one is not longer; the byte kept back, if
        there is one; or nothing yet. */
    method SlowDecide() returns (stop: bool)
      requires Shape() && Window() && Chains() && Inserted() && Room() && NoneLast(blocks) && lookahead > 0
      requires (matchAvailable ==> strstart >= 1) && Out(SlowPos()) && |tallied| < litBufsize - 1
      requires MIN_MATCH - 1 <= prevLength <= MAX_MATCH && MIN_MATCH - 1 <= matchLength <= MAX_MATCH
      requires prevLength >= MIN_MATCH ==>
        matchAvailable && prevLength <= lookahead + 1 && Pair(WordSub(strstart, prevMatch), prevLength)
      requires matchLength > prevLength && matchLength >= MIN_MATCH
        ==> matchStart < strstart && Matched(strstart - matchStart, matchLength)
      modifies prev, head, `insH, `ins, `top, `tallied, `lookahead, `strstart, `matchLength
      modifies `prevLength, `matchAvailable, `blocks, `blockStart, `pending, `availOut, `totalOut, `sizes
      ensures SlowInv() && NoneLast(blocks) && lookahead < old(lookahead) && (stop ==> availOut == 0)
      ensures Emitted() == old(Emitted()) +
        if old(prevLength) >= MIN_MATCH && old(matchLength) <= old(prevLength) then
          [Match(WordSub(old(strstart) - 1, prevMatch), old(prevLength))]
        else if old(matchAvailable) then [Literal(window[old(strstart) - 1])]
        else []
      ensures old(matchAvailable) ==> old(strstart) >= 1
      ensures Books() == old(Books())
    {
      hide Deflater.Books;
      hide Deflater.Window, Deflater.Chains, Deflater.Out, Deflater.Leftover, Deflater.HashIdle, Deflater.Room;
      hide Deflater.Inserted, NoneLast, Deflater.Pair, Deflater.Matched, Tokens;
      if prevLength >= MIN_MATCH && matchLength <= prevLength {
        var bflush := SlowMatch();
        stop := FlushFull(bflush);
      } else {
        stop := SlowLiteral();
      }
    }

    /** No previous match is taken: the byte kept back, if any, is a literal, and the next one is
        kept back. */
    method SlowLiteral() returns (stop: bool)
      requires Shape() && Window() && Chains() && Inserted() && Room() && NoneLast(blocks)
      requires (matchAvailable ==> strstart >= 1) && Out(SlowPos()) && |tallied| < litBufsize - 1
      requires lookahead > 0 && MIN_MATCH - 1 <= matchLength <= MAX_MATCH
      requires matchLength >= MIN_MATCH ==> matchStart < strstart && Matched(strstart - matchStart, matchLength)
      modifies `tallied, `lookahead, `strstart, `matchAvailable, `blocks, `blockStart, `pending, `availOut, `totalOut,
        `sizes
      ensures SlowInv() && NoneLast(blocks) && lookahead < old(lookahead) && (stop ==> availOut == 0)
      ensures Emitted() == old(Emitted()) + if old(matchAvailable) then [Literal(window[old(strstart) - 1])] else []
      ensures Books() == old(Books())
    {
      hide Deflater.Books;
      hide Deflater.Window, Deflater.Chains, Deflater.Out, Deflater.Leftover, Deflater.HashIdle, Deflater.Room;
      hide Deflater.Inserted;
      hide NoneLast, Deflater.Matched, Deflater.Waiting, Deflater.Emitted;
      var kept := matchAvailable;
      if kept {
        OutputKept();
      }
      KeepByte();
      stop := kept && availOut == 0;
    }

    /** One iteration of deflate_slow's loop. */
    method SlowStep(flush: nat) returns (step: Step)
      requires SlowInv() && NoneLast(blocks)
      modifies this, window, prev, head
      ensures SlowInv() && NoneLast(blocks)
      ensures stream + nextIn == old(stream + nextIn) && finished == old(finished)
      ensures StepPromise(step, flush, old(|nextIn| + lookahead))
      ensures Books() == old(Books())
    {
      hide Deflater.Books;
      hide Deflater.Filled, Deflater.Front;
      hide Deflater.Window, Deflater.Chains, Deflater.Out, Deflater.Leftover, Deflater.HashIdle, Deflater.Room;
      hide Deflater.Waiting, NoneLast, Deflater.Finds, Deflater.SearchHere, Deflater.Near, Deflater.DroppedAt, Slot;
      hide Deflater.Emitted;
      step := EnsureLookahead(MIN_LOOKAHEAD, flush, SlowPos());
      if step == Continue {
        var stop, _, _ := SlowEmit();
        if stop { step := Return; }
      }
    }

    /** deflate_slow */
    method DeflateSlow(flush: nat) returns (bs: BlockState)
      requires SlowInv() && NoneLast(blocks)
      modifies this, window, prev, head
      ensures SlowInv() && Promise(bs, flush)
      ensures stream + nextIn == old(stream + nextIn) && finished == old(finished)
      ensures Books() == old(Books())
    {
      hide Deflater.Books;
      hide Deflater.Window, Deflater.Chains, Deflater.Out, Deflater.Leftover, Deflater.HashIdle, Deflater.Room;
      hide NoneLast, EndsLast, Deflater.Pair;
      while true
        invariant Books() == old(Books())
        invariant SlowInv() && NoneLast(blocks)
        invariant stream + nextIn == old(stream + nextIn) && finished == old(finished)
        decreases |nextIn| + lookahead
      {
        var step := SlowStep(flush);
        if step == Return { return NeedMore; }
        if step == Break { break; }
      }
      bs := EndSlow(flush);
    }

    /** The end of deflate_slow: the byte kept back is the last literal. */
    method EndSlow(flush: nat) returns (bs: BlockState)
      requires SlowInv() && NoneLast(blocks) && nextIn == [] && lookahead == 0 && flush != Z_NO_FLUSH
      modifies `matchAvailable, `insert, `blocks, `tallied, `blockStart, `pending, `availOut, `totalOut, `sizes
      ensures SlowInv() && Promise(bs, flush)
      ensures Books() == old(Books())
    {
      hide Deflater.Books;
      hide Deflater.Window, Deflater.Chains, Deflater.Out, Deflater.Leftover, Deflater.HashIdle, Deflater.Room;
      hide NoneLast, EndsLast, Deflater.Pair;
      if matchAvailable {
        var _ := TallyKept();
        matchAvailable := false;
      }
      bs := EndCall(flush);
    }

    // ----- deflate_rle and deflate_huff

    /** These two never touch the dictionary. */
    ghost predicate PlainInv()
      reads `stream, `base, `ins, `top, `strstart, `lookahead
      reads `insert, `blocks, `tallied, `blockStart, window, prev, head, `highWater, `marks, `matchLength
    {
      Steady(base + strstart) && Room() && insert == 0 && matchLength < MIN_MATCH && |tallied| < litBufsize - 1
    }

    /** The run at strstart goes on to the gap. */
    ghost predicate RunMeetsGap()
      requires Shape()
      reads `strstart, `lookahead, `marks, window
    {
      && marks.gap < wSize && lookahead >= MIN_MATCH && 0 < strstart <= marks.gap <= strstart + MAX_MATCH
      && forall k | strstart <= k < marks.gap :: window[k] == window[strstart - 1]
    }

    /** The run of the previous byte at strstart, up to MAX_MATCH and the lookahead. It looks at exactly
        the indices its comparisons name; at a byte never assigned if and only if the run goes on to
        the gap. */
    method FindRun() returns (ghost touched: set<nat>)
      requires Shape() && Window() && Room() && strstart + MAX_MATCH < 2 * wSize && lookahead > 0
      modifies `matchLength, `met
      ensures matchLength == 0 || (MIN_MATCH <= matchLength && Matched(1, matchLength))
      ensures matchLength < lookahead && matchLength < MAX_MATCH && lookahead >= MIN_MATCH && strstart > 0
        ==> !Repeats(stream, base + strstart, 1, Max(matchLength + 1, MIN_MATCH))
      ensures if lookahead >= MIN_MATCH && strstart > 0
              then matchLength == Min(RunLength(window[..], strstart), lookahead)
                && touched == RunRead(window[..], strstart)
              else matchLength == 0 && touched == {}
      ensures (forall i | i in touched :: i < 2 * wSize) && (touched !! marks.unset <==> !RunMeetsGap())
      ensures met == (old(met) || !(touched !! marks.unset))
    {
      hide Deflater.Window, Repeats, Deflater.Room, RunLength, RunRead;
      matchLength, touched := 0, {};
      if lookahead >= MIN_MATCH && strstart > 0 {
        var len;
        len, touched := MeasureRun();
        matchLength := len;
        met := met || !(touched !! marks.unset);
      }
    }

    /** The comparisons: three, then the scan, whose result is cut to the lookahead. */
    method MeasureRun() returns (r: nat, ghost touched: set<nat>)
      requires Shape() && Window() && Room() && 0 < strstart && strstart + MAX_MATCH < 2 * wSize
      requires lookahead >= MIN_MATCH
      ensures r == Min(RunLength(window[..], strstart), lookahead) && (r == 0 || MIN_MATCH <= r <= MAX_MATCH)
      ensures Repeats(stream, base + strstart, 1, r)
      ensures r < lookahead && r < MAX_MATCH ==> !Repeats(stream, base + strstart, 1, Max(r + 1, MIN_MATCH))
      ensures touched == RunRead(window[..], strstart) && forall i | i in touched :: i < 2 * wSize
      ensures touched !! marks.unset <==> !RunMeetsGap()
    {
      hide WindowOk, Agrees, Repeats, Marks.Exact, Offsets, ScanEnd, StartRead, RunStarts, RunLength, RunRead;
      var c := window[strstart - 1];
      var same, len := false, 0;
      same, touched := RunBegins(c);
      RunExamined(window[..], strstart);
      if same {
        assert RunTo(c, 2, true);
        hide Deflater.RunTo;
        var n, t := ScanRun(c);
        len, touched := n, touched + t;
        RunMeans(c, len, window[strstart + len] == c);
      }
      r := Min(len, lookahead);
      hide Deflater.Window, Deflater.Room, Deflater.RunMeetsGap;
      RunFound(c, same, len, touched);
    }

    /** What the bytes found say about the input and the gap. */
    lemma RunFound(c: bv8, same: bool, len: nat, touched: set<nat>)
      requires Shape() && Window() && Room() && 0 < strstart && strstart + MAX_MATCH < 2 * wSize
      requires lookahead >= MIN_MATCH
      requires c == window[strstart - 1] && len <= MAX_MATCH
      requires same <==> window[strstart] == c && window[strstart + 1] == c && window[strstart + 2] == c
      requires if same then (forall i | strstart - 1 <= i < strstart + len :: window[i] == c)
                            && (len < MAX_MATCH ==> window[strstart + len] != c) && len >= MIN_MATCH
               else len == 0
      requires (forall i | i in touched :: i <= strstart + len || i <= strstart + 2)
               && forall i | strstart + 3 <= i <= strstart + len :: i in touched
      ensures Repeats(stream, base + strstart, 1, Min(len, lookahead))
      ensures Min(len, lookahead) < lookahead && Min(len, lookahead) < MAX_MATCH ==>
                !Repeats(stream, base + strstart, 1, Max(Min(len, lookahead) + 1, MIN_MATCH))
      ensures touched !! marks.unset <==> !RunMeetsGap()
    {
      hide WindowOk, Agrees, Repeats, Marks.Exact, Deflater.RunMeetsGap;
      if same {
        RunRepeats(c, len);
      } else {
        NoRun(window[..], strstart, c);
        AgreesRepeats(window[..], stream, base, strstart + lookahead, strstart, strstart - 1, MIN_MATCH);
        AgreesRepeats(window[..], stream, base, strstart + lookahead, strstart, strstart - 1, 0);
        assert Agrees(window[..], strstart, strstart - 1, 0) by { AgreesNone(window[..], strstart, strstart - 1); }
      }
      RunMetIff(marks, wSize, touched, strstart, strstart + lookahead, len);
      RunMetWhen(c, same, len);
    }

    /** The scan of a run reached the gap if and only if the run goes on to it. */
    lemma RunMetWhen(c: bv8, same: bool, len: nat)
      requires Shape() && Room() && 0 < strstart && strstart + MAX_MATCH < 2 * wSize && lookahead >= MIN_MATCH
      requires c == window[strstart - 1] && len <= MAX_MATCH
      requires same <==> window[strstart] == c && window[strstart + 1] == c && window[strstart + 2] == c
      requires if same then (forall i | strstart - 1 <= i < strstart + len :: window[i] == c)
                            && (len < MAX_MATCH ==> window[strstart + len] != c)
               else len == 0
      ensures RunMeetsGap() <==> marks.gap < wSize && marks.gap <= strstart + len
    {
      hide Marks.Exact;
    }

    /** The three comparisons before a scan, each made only if the ones before it succeed. */
    method RunBegins(c: bv8) returns (same: bool, ghost touched: set<nat>)
      requires Shape() && 0 < strstart && strstart + MAX_MATCH < 2 * wSize && c == window[strstart - 1]
      ensures same <==> window[strstart] == c && window[strstart + 1] == c && window[strstart + 2] == c
      ensures same == RunStarts(window[..], strstart) && touched == StartRead(window[..], strstart)
      ensures forall i | i in touched :: i <= strstart + 2
    {
      same, touched := c == window[strstart], {strstart - 1, strstart};
      if !same { return; }
      same, touched := c == window[strstart + 1], touched + {strstart + 1};
      if !same { return; }
      same, touched := c == window[strstart + 2], touched + {strstart + 2};
    }

    lemma RunRepeats(c: bv8, len: nat)
      requires Shape() && Window() && 0 < strstart && strstart + MAX_MATCH < 2 * wSize && len <= MAX_MATCH
      requires forall i | strstart - 1 <= i < strstart + len :: window[i] == c
      requires len < MAX_MATCH ==> window[strstart + len] != c
      ensures Repeats(stream, base + strstart, 1, Min(len, lookahead))
      ensures len < lookahead && len < MAX_MATCH ==> !Repeats(stream, base + strstart, 1, len + 1)
    {
      hide WindowOk, Agrees, Repeats;
      AgreesRun(window[..], strstart, len, Min(len, lookahead), c);
      AgreesRepeats(window[..], stream, base, strstart + lookahead, strstart, strstart - 1, Min(len, lookahead));
      if len < lookahead {
        AgreesRepeats(window[..], stream, base, strstart + lookahead, strstart, strstart - 1, len + 1);
      }
    }

    method ScanRun(c: bv8) returns (len: nat, ghost touched: set<nat>)
      requires Shape() && 0 < strstart && strstart + MAX_MATCH < 2 * wSize
      requires RunTo(c, 2, true)
      ensures MIN_MATCH <= len <= MAX_MATCH && RunTo(c, len, window[strstart + len] == c)
      ensures len < MAX_MATCH ==> window[strstart + len] != c
      ensures len == ScanEnd(window[..], strstart, strstart - 1, 3) && touched == Offsets(strstart, len)
    {
      hide Offsets, ScanEnd, Deflater.RunTo;
      len, touched := 2, {};
      NoOffsets(strstart);
      var same := true;
      ghost var rounds: nat := 0;
      while same && len < MAX_MATCH
        invariant 2 <= len <= MAX_MATCH && (!same ==> len > 2) && touched == Offsets(strstart, len)
        invariant RunTo(c, len, same) && (same ==> len == 2 + 8 * rounds)
        decreases MAX_MATCH - len, same
      {
        var i := 0;
        ghost var from := len;
        while i < 8 && same
          invariant 0 <= i <= 8 && len == from + i && (i == 0 ==> same)
          invariant 2 <= len <= MAX_MATCH && (!same ==> len > 2) && touched == Offsets(strstart, len)
          invariant RunTo(c, len, same)
          decreases 8 - i
        {
          len, i := len + 1, i + 1;
          same, touched := CompareRun(c, len, touched);
        }
        rounds := rounds + 1;
      }
      RunStops(c, len, same);
    }

    /** One comparison of a run. */
    method CompareRun(c: bv8, len: nat, ghost touched: set<nat>) returns (same: bool, ghost more: set<nat>)
      requires Shape() && 3 <= len <= MAX_MATCH && strstart + MAX_MATCH < 2 * wSize
      requires RunTo(c, len - 1, true) && touched == Offsets(strstart, len - 1)
      ensures RunTo(c, len, same) && more == Offsets(strstart, len)
    {
      hide Offsets;
      same := window[strstart + len] == c;
      more := touched + {strstart + len};
      OffsetsOne(strstart, len);
    }

    lemma RunStops(c: bv8, len: nat, same: bool)
      requires Shape() && 0 < strstart && strstart + MAX_MATCH < 2 * wSize && 3 <= len <= MAX_MATCH
      requires RunTo(c, len, same) && (same ==> len == MAX_MATCH)
      ensures same == (window[strstart + len] == c) && len == ScanEnd(window[..], strstart, strstart - 1, 3)
    {
      RunScan(window[..], strstart, len);
    }

    lemma RunMeans(c: bv8, len: nat, same: bool)
      requires RunTo(c, len, same)
      ensures 0 < strstart && strstart + len < window.Length && (same <==> window[strstart + len] == c)
      ensures forall i | strstart - 1 <= i < strstart + len :: window[i] == c
    {}

    /** All bytes before offset len are c, and the one at it if the comparison there succeeded. */
    ghost predicate RunTo(c: bv8, len: nat, same: bool)
      reads `strstart, window
    {
      && 0 < strstart && strstart + len < window.Length
      && (forall i | strstart - 1 <= i < strstart + len :: window[i] == c)
      && same == (window[strstart + len] == c)
    }

    /** One literal, leaving the dictionary alone. */
    method PlainLiteral() returns (bflush: bool)
      requires PlainInv() && lookahead > 0
      modifies `tallied, `lookahead, `strstart
      ensures Steady(base + strstart) && Room() && lookahead < old(lookahead)
      ensures |tallied| < litBufsize && bflush == (|tallied| == litBufsize - 1)
      ensures tallied == old(tallied) + [Literal(window[old(strstart)])]
    {
      hide ChainsOk, OutOk;
      assert window[..][strstart] == stream[base + strstart];
      bflush := TallyLit(window[strstart], base + strstart);
      lookahead := lookahead - 1;
      strstart := strstart + 1;
    }

    /** One run, as a match of distance one. */
    method RleMatch() returns (bflush: bool)
      requires Steady(base + strstart) && Room() && |tallied| < litBufsize - 1
      requires insert == 0 && MIN_MATCH <= matchLength && Matched(1, matchLength)
      modifies `tallied, `lookahead, `strstart, `matchLength
      ensures Steady(base + strstart) && Room() && matchLength == 0 && lookahead < old(lookahead)
      ensures |tallied| < litBufsize && bflush == (|tallied| == litBufsize - 1)
      ensures tallied == old(tallied) + [Match(1, old(matchLength))]
    {
      hide ChainsOk, OutOk, Repeats, WindowOk;
      bflush := TallyDist(1, matchLength - MIN_MATCH, base + strstart);
      lookahead := lookahead - matchLength;
      strstart := strstart + matchLength;
      matchLength := 0;
    }

    /** The token of an iteration: a run of three or more bytes, or a literal. */
    method PlainEmit(rle: bool) returns (bflush: bool, ghost found: nat)
      requires PlainInv() && lookahead > 0 && (rle ==> strstart + MAX_MATCH < 2 * wSize)
      modifies `met, `tallied, `lookahead, `strstart, `matchLength
      ensures Steady(base + strstart) && Room() && matchLength < MIN_MATCH && lookahead < old(lookahead)
      ensures |tallied| < litBufsize && bflush == (|tallied| == litBufsize - 1)
      ensures Took(old(tallied), tallied, found, 1, window[old(strstart)])
      ensures (!rle ==> found == 0) && (found > 0 ==> found >= MIN_MATCH && old(Matched(1, found)))
      ensures rle && found < old(lookahead) && found < MAX_MATCH && old(lookahead) >= MIN_MATCH && old(strstart) > 0
        ==> !Repeats(stream, old(base + strstart), 1, Max(found + 1, MIN_MATCH))
    {
      hide Deflater.Window, Deflater.Chains, Deflater.Out, Deflater.Leftover, Deflater.Room, Deflater.Matched, Repeats;
      matchLength := 0;
      if rle {
        var _ := FindRun();
      }
      found := matchLength;
      if matchLength >= MIN_MATCH {
        bflush := RleMatch();
      } else {
        bflush := PlainLiteral();
      }
    }

    /** The token of an iteration, with the flush if it fills the buffer. */
    method PlainToken(rle: bool) returns (stop: bool)
      requires PlainInv() && NoneLast(blocks) && lookahead > 0 && (rle ==> strstart + MAX_MATCH < 2 * wSize)
      modifies `met, `tallied, `lookahead, `strstart, `matchLength, `blocks, `blockStart, `pending, `availOut,
        `totalOut, `sizes
      ensures PlainInv() && NoneLast(blocks) && lookahead < old(lookahead) && (stop ==> availOut == 0)
      ensures Books() == old(Books())
    {
      hide Deflater.Books;
      hide Deflater.Window, Deflater.Chains, Deflater.Out, Deflater.Leftover, Deflater.HashIdle, Deflater.Room;
      hide NoneLast, EndsLast, Deflater.Took, Deflater.Emitted, Deflater.Matched, Repeats;
      var bflush, _ := PlainEmit(rle);
      stop := FlushFull(bflush);
    }

    /** One iteration of the loop of deflate_rle, or (need is 1) of deflate_huff. */
    method PlainStep(rle: bool, flush: nat) returns (step: Step)
      requires PlainInv() && NoneLast(blocks)
      modifies this, window, prev, head
      ensures PlainInv() && NoneLast(blocks) && matchAvailable == old(matchAvailable)
      ensures stream + nextIn == old(stream + nextIn) && finished == old(finished)
      ensures StepPromise(step, flush, old(|nextIn| + lookahead))
      ensures Books() == old(Books())
    {
      hide Deflater.Books;
      hide Deflater.Filled, Deflater.Front, Deflater.Held, Deflater.Bytes, WindowOk, ChainsOk, OutOk;
      hide Deflater.Window, Deflater.Chains, Deflater.Out, Deflater.Room, NoneLast, EndsLast, Deflater.Leftover;
      hide Deflater.HashIdle, Deflater.Took, Deflater.Emitted, Deflater.Matched, Repeats;
      step := EnsureLookahead(if rle then MAX_MATCH + 1 else 1, flush, base + strstart);
      if step == Continue {
        var stop := PlainToken(rle);
        if stop { step := Return; }
      }
    }

    /** Their loop, which is left only with all input used up or by a return. */
    method PlainLoop(rle: bool, flush: nat) returns (step: Step)
      requires PlainInv() && NoneLast(blocks) && !matchAvailable
      modifies this, window, prev, head
      ensures PlainInv() && NoneLast(blocks) && !matchAvailable
      ensures stream + nextIn == old(stream + nextIn) && finished == old(finished)
      ensures step != Continue && StepPromise(step, flush, 0) && Books() == old(Books())
    {
      hide Deflater.PlainInv, NoneLast, Deflater.Books;
      step := Continue;
      while step == Continue
        invariant PlainInv() && NoneLast(blocks) && !matchAvailable
        invariant stream + nextIn == old(stream + nextIn) && finished == old(finished)
        invariant (step != Continue ==> StepPromise(step, flush, 0)) && Books() == old(Books())
        decreases step == Continue, |nextIn| + lookahead
      {
        step := PlainStep(rle, flush);
      }
    }

    /** deflate_rle and deflate_huff, which differ in the token of an iteration only. */
    method DeflatePlain(rle: bool, flush: nat) returns (bs: BlockState)
      requires PlainInv() && NoneLast(blocks) && !matchAvailable
      modifies this, window, prev, head
      ensures PlainInv() && Promise(bs, flush) && !matchAvailable
      ensures stream + nextIn == old(stream + nextIn) && finished == old(finished)
      ensures Books() == old(Books())
    {
      hide Deflater.Books;
      hide Deflater.Window, Deflater.Chains, Deflater.Out, Deflater.Room, NoneLast, EndsLast, Deflater.HashIdle;
      var step := PlainLoop(rle, flush);
      if step == Return { return NeedMore; }
      insert := 0;
      bs := FinishCall(flush);
    }

    // ----- deflate_stored

    /** The bytes since block_start are in the window, short of a slide and of a full block. */
    ghost predicate StoredInv()
      reads `stream, `base, `ins, `top, `strstart, `lookahead
      reads `insert, `blocks, `tallied, `blockStart, window, prev, head, `highWater, `marks, `matchLength
    {
      && Steady(base + blockStart) && Room() && insert == 0 && matchLength < MIN_MATCH && tallied == []
      && 0 <= blockStart <= strstart < blockStart + MaxDist() && strstart < blockStart + MaxStored()
    }

    /** FLUSH_BLOCK_ONLY at level 0: the bytes since block_start leave as one stored block, whose
        header and contents fit the empty pending buffer. */
    method FlushStored(last: bool)
      requires Shape() && Window() && Out(base + blockStart) && tallied == [] && pending == 0
      requires 0 <= blockStart <= strstart <= blockStart + MaxStored()
      modifies `blocks, `blockStart, `pending, `availOut, `totalOut, `sizes
      ensures Out(base + blockStart) && blockStart == strstart && strstart + base <= |stream|
      ensures blocks == old(blocks) + [StoredBlock(old(base + blockStart), base + strstart, last)]
      ensures sizes == old(sizes) + [5 + strstart - old(blockStart)]
      ensures NoneLast(old(blocks)) ==> if last then EndsLast(blocks) else NoneLast(blocks)
      ensures (availOut > 0 ==> pending == 0) && Books() == old(Books())
    {
      hide Deflater.Books, BlocksOk, Decode, DistancesWithin;
      var raw := window[blockStart..strstart];
      assert raw == stream[base + blockStart..base + strstart] by {
        assert forall i | blockStart <= i < strstart :: window[..][i] == stream[base + i];
      }
      OutStore(blocks, stream, base + blockStart, base + strstart, MaxDist(), MaxStored(), last);
      assert 5 + |raw| <= pendingBufSize;
      Record(Block(base + blockStart, [], Some(raw), true, last), 5 + |raw|);
      blockStart := strstart;
      FlushPending();
    }

    /** The input between two positions as one stored block. */
    ghost function StoredBlock(from: int, to: int, last: bool): Block
      requires 0 <= from <= to <= |stream|
      reads `stream
    {
      Block(from, [], Some(stream[from..to]), true, last)
    }

    /** The bytes since block_start are in the window and fit one block. */
    ghost predicate BlockFits()
      reads `stream, `base, `ins, `top, `strstart, `lookahead
      reads `insert, `blocks, `tallied, `blockStart, window, prev, head, `highWater, `marks, `matchLength
    {
      && Steady(base + blockStart) && Room() && insert == 0 && matchLength < MIN_MATCH && tallied == []
      && 0 <= blockStart <= strstart < blockStart + MaxStored()
    }

    /** The body of an iteration: takes all input ahead, stores a full block, and stores what would
        be lost by a slide. */
    method StoreAhead() returns (stop: bool)
      requires StoredInv() && NoneLast(blocks) && lookahead > 0 && pending == 0
      modifies `strstart, `lookahead, `blocks, `blockStart, `pending, `availOut, `totalOut, `sizes
      ensures StoredInv() && NoneLast(blocks) && (stop ==> availOut == 0) && (!stop ==> pending == 0)
      ensures lookahead == 0 || (lookahead < old(lookahead) && strstart == blockStart)
      ensures 0 <= old(base + blockStart) <= base + blockStart <= |stream|
      ensures if old(strstart + lookahead - blockStart) >= Min(MaxStored(), MaxDist())
              then blockStart == strstart == old(blockStart) + Min(MaxStored(), old(strstart + lookahead - blockStart))
                   && blocks == old(blocks) + [StoredBlock(old(base + blockStart), base + blockStart, false)]
              else lookahead == 0 && blockStart == old(blockStart) && blocks == old(blocks)
      ensures Books() == old(Books())
    {
      hide Deflater.Books;
      hide Deflater.Window, Deflater.Chains, Deflater.Out, Deflater.Leftover, Deflater.Room, NoneLast, EndsLast;
      hide Deflater.StoredBlock;
      stop := StoreFull();
      if !stop && strstart - blockStart >= MaxDist() {
        FlushStored(false);
        stop := availOut == 0;
      }
    }

    /** All input ahead is taken; if that fills a block, the block is stored. */
    method StoreFull() returns (stop: bool)
      requires StoredInv() && NoneLast(blocks) && lookahead > 0 && pending == 0
      modifies `strstart, `lookahead, `blocks, `blockStart, `pending, `availOut, `totalOut, `sizes
      ensures BlockFits() && NoneLast(blocks) && (stop ==> availOut == 0 && StoredInv()) && (!stop ==> pending == 0)
      ensures lookahead == 0 || (lookahead < old(lookahead) && strstart == blockStart)
      ensures 0 <= old(base + blockStart) <= base + strstart <= |stream|
      ensures if old(strstart + lookahead - blockStart) >= MaxStored()
              then strstart == old(blockStart) + MaxStored() == blockStart
                   && blocks == old(blocks) + [StoredBlock(old(base + blockStart), base + strstart, false)]
              else lookahead == 0 && blockStart == old(blockStart) && blocks == old(blocks)
      ensures strstart + lookahead == old(strstart + lookahead)
      ensures Books() == old(Books())
    {
      hide Deflater.Books;
      hide Deflater.Chains, WindowOk, Deflater.Out, NoneLast, EndsLast, Marks.Exact;
      WindowEnds();
      hide Deflater.StoredBlock;
      strstart := strstart + lookahead;
      lookahead := 0;
      var maxStart := blockStart + MaxStored();
      stop := false;
      if strstart == 0 || strstart >= maxStart {
        lookahead := strstart - maxStart;
        strstart := maxStart;
        FlushStored(false);
        stop := availOut == 0;
      }
    }

    /** One iteration of deflate_stored's loop. */
    method StoredStep(flush: nat) returns (step: Step)
      requires StoredInv() && NoneLast(blocks) && pending == 0
      modifies this, window, prev, head
      ensures StoredInv() && NoneLast(blocks) && matchAvailable == old(matchAvailable)
      ensures stream + nextIn == old(stream + nextIn) && finished == old(finished) && (step != Return ==> pending == 0)
      ensures step == Continue ==>
        |nextIn| + lookahead < old(|nextIn| + lookahead)
      ensures step != Continue ==> StepPromise(step, flush, 0)
      ensures Books() == old(Books())
    {
      hide Deflater.Books;
      hide Deflater.Filled, Deflater.Front;
      hide Deflater.Window, Deflater.Chains, Deflater.Out, Deflater.Room, NoneLast, EndsLast;
      step := Continue;
      if lookahead <= 1 {
        RefillStored();
        if lookahead == 0 {
          step := if flush == Z_NO_FLUSH then Return else Break;
        }
      }
      if step == Continue {
        var stop := StoreAhead();
        if stop { step := Return; }
      }
    }

    /** fill_window at level 0: block_start stays in the window across a slide. */
    method RefillStored()
      requires StoredInv() && lookahead <= 1
      modifies window, prev, head, `insH, `insert, `strstart, `lookahead, `blockStart, `matchStart, `highWater, `nextIn
      modifies `stream, `base, `ins, `top, `marks
      ensures StoredInv() && (lookahead == 0 ==> nextIn == [])
      ensures stream + nextIn == old(stream + nextIn) && |nextIn| + lookahead == old(|nextIn| + lookahead)
    {
      hide Deflater.Filled, Deflater.Front;
      hide Deflater.Window, Deflater.Chains, Deflater.Out, Deflater.Room;
      Refill(base + blockStart);
    }

    /** deflate_stored */
    method DeflateStored(flush: nat) returns (bs: BlockState)
      requires StoredInv() && NoneLast(blocks) && !matchAvailable && pending == 0
      modifies this, window, prev, head
      ensures StoredInv() && Promise(bs, flush) && !matchAvailable
      ensures stream + nextIn == old(stream + nextIn) && finished == old(finished)
      ensures Books() == old(Books())
    {
      hide Deflater.Books;
      hide Deflater.Window, Deflater.Chains, Deflater.Out, Deflater.Room, NoneLast, EndsLast;
      while true
        invariant Books() == old(Books())
        invariant StoredInv() && NoneLast(blocks) && !matchAvailable && pending == 0
        invariant stream + nextIn == old(stream + nextIn) && finished == old(finished)
        decreases |nextIn| + lookahead
      {
        var step := StoredStep(flush);
        if step == Return { return NeedMore; }
        if step == Break { break; }
      }
      bs := EndStored(flush);
    }

    /** The end of deflate_stored. */
    method EndStored(flush: nat) returns (bs: BlockState)
      requires StoredInv() && NoneLast(blocks) && !matchAvailable && pending == 0
      requires nextIn == [] && lookahead == 0 && flush != Z_NO_FLUSH
      modifies `insert, `blocks, `blockStart, `pending, `availOut, `totalOut, `sizes
      ensures StoredInv() && Promise(bs, flush)
      ensures 0 <= old(base + blockStart) <= base + strstart <= |stream|
      ensures flush == Z_FINISH ==> blocks == old(blocks) + [StoredBlock(old(base + blockStart), base + strstart, true)]
      ensures flush != Z_FINISH && strstart > old(blockStart) ==>
        blocks == old(blocks) + [StoredBlock(old(base + blockStart), base + strstart, false)]
      ensures flush != Z_FINISH && strstart == old(blockStart) ==> blocks == old(blocks)
      ensures Books() == old(Books())
    {
      hide Deflater.Books;
      hide Deflater.Window, Deflater.Chains, Deflater.Out, Deflater.Room, NoneLast, EndsLast;
      WindowEnds();
      insert := 0;
      bs := BlockDone;
      if flush == Z_FINISH {
        FlushStored(true);
        bs := if availOut == 0 then FinishStarted else FinishDone;
      } else if strstart > blockStart {
        FlushStored(false);
        if availOut == 0 { bs := NeedMore; }
      }
    }

    // ----- deflate()

    /** The invariant of the stream's compression function. */
    ghost predicate FuncInv()
      reads `stream, `base, `ins, `top, `strstart, `lookahead
      reads `insert, `blocks, `tallied, `blockStart, `insH, `highWater, `marks, `matchLength, `matchAvailable
      reads `matchStart, `prevLength, window, prev, head
    {
      match func
      case Stored => StoredInv() && !matchAvailable
      case Fast => FastInv() && !matchAvailable
      case Slow => SlowInv()
      case Rle => PlainInv() && !matchAvailable
      case Huff => PlainInv() && !matchAvailable
    }

    /** The state between two calls of deflate(). */
    ghost predicate Valid()
      reads this, window, prev, head
    {
      FuncInv() && if finished then EndsLast(blocks) && Flushed() else NoneLast(blocks)
    }

    /** At the levels of deflate_fast: a call with input that fits uses it all up and leaves the window
        as it must, and a run up to the gap meets it. */
    ghost predicate FastCall(flush: nat, fits: bool, e: Extent, poised: bool, was: bool)
      requires wSize >= 512
      reads `base, `strstart, `lookahead, `highWater, `marks, `insert, `nextIn, `met
    {
      func == Fast && flush != Z_NO_FLUSH ==>
        (fits ==> UsedUp(e.Ended(wSize)) && (e.gap == wSize ==> met == was)) && (poised ==> met)
    }

    /** Calls the compression function of the stream. */
    method CompressFunc(flush: nat) returns (bs: BlockState)
      requires Valid() && !finished && pending == 0
      modifies this, window, prev, head
      ensures !finished && Promise(bs, flush) && stream + nextIn == old(stream + nextIn)
      ensures FuncInv()
      ensures FastCall(flush, old(Fits(nextIn)), old(AllRead(|nextIn|)), old(Poised(nextIn)), old(met))
      ensures Books() == old(Books())
    {
      hide Deflater.Books;
      hide Deflater.StoredInv, Deflater.FastInv, Deflater.SlowInv, Deflater.PlainInv, NoneLast, EndsLast;
      match func
      case Stored => bs := DeflateStored(flush);
      case Fast => bs := DeflateFast(flush);
      case Slow => bs := DeflateSlow(flush);
      case Rle => bs := DeflatePlain(true, flush);
      case Huff => bs := DeflatePlain(false, flush);
    }

    /** deflateInit2_ and deflateReset for a raw stream: table sizes from the window and memory
        parameters, search parameters and compression function from level and strategy. */
    constructor (level: nat, windowBits: nat, memLevel: nat, strategy: nat)
      requires level <= 9 && 8 <= windowBits <= 15 && 1 <= memLevel <= 9 && strategy <= Z_FIXED
      ensures Valid() && !finished && stream == [] && nextIn == [] && blocks == []
      ensures wSize == Pow2(if windowBits == 8 then 9 else windowBits) && litBufsize == Pow2(memLevel + 6)
      ensures func == if strategy == Z_HUFFMAN_ONLY then Huff else if strategy == Z_RLE then Rle
                      else if level == 0 then Stored else if level <= 3 then Fast else Slow
      ensures Flushed() && Held() == Extent(0, 0, 0, wSize) && pending == 0 && !met
      ensures fresh(window) && fresh(prev) && fresh(head)
      ensures IsRow(level, goodMatch, maxLazy, niceMatch, maxChain)
      ensures P == HashParams(HashBits(memLevel)) && filtered == (strategy == Z_FILTERED)
      ensures pendingBufSize == 4 * litBufsize
      ensures Books() == Account(0, 0, 0, Z_NO_FLUSH)
      ensures wSize >= 512
    {
      var w := Pow2(if windowBits == 8 then 9 else windowBits);
      var c := Configuration(level);
      ConfigurationRows(level);
      HashBitsValid(memLevel);
      hide HashParams.Valid, HashBits, Configuration;
      WindowSizes(if windowBits == 8 then 9 else windowBits);
      PowMonotone(1, memLevel + 6);
      assert Pow2(memLevel + 6) >= 2;
      hide Pow2, HashParams.Size, IsRow;
      P := HashParams(HashBits(memLevel));
      wSize, litBufsize, pendingBufSize := w, Pow2(memLevel + 6), 4 * Pow2(memLevel + 6);
      goodMatch, maxLazy, niceMatch, maxChain := c.good, c.lazy, c.nice, c.chain;
      filtered := strategy == Z_FILTERED;
      func := if strategy == Z_HUFFMAN_ONLY then Huff else if strategy == Z_RLE then Rle else c.func;
      window, prev, head := new bv8[2 * w], new nat[w], new nat[HashParams(HashBits(memLevel)).Size()](_ => NIL);
      insH, insert, strstart, lookahead, blockStart := 0, 0, 0, 0, 0;
      matchStart, matchLength, prevLength, prevMatch, matchAvailable := 0, MIN_MATCH - 1, MIN_MATCH - 1, 0, false;
      highWater, tallied, pending, nextIn, availOut, totalOut, sizes := 0, [], 0, [], 0, 0, [];
      finished, lastFlush := false, Z_NO_FLUSH;
      stream, base, ins, top, blocks := [], 0, {}, 0, [];
      marks, met := NothingAssigned(w), false;
      new;
      hide Deflater.FuncInv, Deflater.Books, Deflater.Held, Deflater.Flushed, Total;
      Initial();
    }

    /** An empty window, dictionary and output satisfy every invariant. */
    lemma Initial()
      requires Shape() && stream == [] && base == 0 && ins == {} && top == 0 && blocks == [] && tallied == []
      requires forall i | 0 <= i < head.Length :: head[i] == NIL
      requires strstart == 0 && lookahead == 0 && insert == 0 && blockStart == 0 && highWater == 0
      requires marks == NothingAssigned(wSize)
      requires matchLength == MIN_MATCH - 1 && prevLength == MIN_MATCH - 1 && !matchAvailable
      requires sizes == [] && totalOut == pending == availOut == 0
      ensures FuncInv() && Flushed() && Held() == Extent(0, 0, 0, wSize) && Books() == Account(0, 0, 0, lastFlush)
    {
      hide ChainsOk, WindowOk, HashReady;
      EmptyDictionary(P, wSize, head[..], prev[..], stream, 0);
      WindowEmpty(window[..], stream);
      assert Steady(0) && Room() && HashIdle();
      hide Deflater.Steady;
    }

    /** CLEAR_HASH */
    method ClearHash()
      modifies head
      ensures forall i | 0 <= i < head.Length :: head[i] == NIL
    {
      var i := 0;
      while i < head.Length
        invariant 0 <= i <= head.Length
        invariant forall k | 0 <= k < i :: head[k] == NIL
      {
        head[i] := NIL;
        i := i + 1;
      }
    }

    /** Z_FULL_FLUSH forgets the dictionary and, when nothing is ahead, restarts the window. */
    method ForgetHistory()
      requires Steady(base + strstart) && Room() && blockStart == strstart && lookahead == 0
      modifies head, `ins, `top, `strstart, `blockStart, `insert, `base
      ensures Steady(base + strstart) && Room() && blockStart == strstart && insert == 0
      ensures base + strstart == old(base + strstart) && strstart == 0
      ensures ins == {} && forall i | 0 <= i < head.Length :: head[i] == NIL
    {
      hide ChainsOk, WindowOk, Deflater.Out, Deflater.Room;
      ClearHash();
      ins, top := {}, 0;
      EmptyDictionary(P, wSize, head[..], prev[..], stream, base);
      if lookahead == 0 {
        RestartWindow();
      }
    }

    method RestartWindow()
      requires Steady(base + strstart) && Room() && blockStart == strstart && lookahead == 0 && ins == {} && top == 0
      requires forall i | 0 <= i < head.Length :: head[i] == NIL
      modifies `strstart, `blockStart, `insert, `base
      ensures Steady(base + strstart) && Room() && blockStart == strstart && insert == 0
      ensures base + strstart == old(base + strstart) && strstart == 0
    {
      hide ChainsOk, WindowOk, OutOk;
      WindowEmpty(window[..], stream);
      EmptyDictionary(P, wSize, head[..], prev[..], stream, base + strstart);
      base := base + strstart;
      strstart, blockStart, insert := 0, 0, 0;
    }

    /** The last block is empty and lies where the input stands: a coded one for flush 1, a stored one
        for 2 and 3. */
    ghost predicate Marked(flush: nat)
      reads `blocks, `stream
    {
      && blocks != []
      && blocks[|blocks| - 1] == if flush == 1 then Block(|stream|, [], None, false, false)
                                 else Block(|stream|, [], Some([]), true, false)
    }

    /** Nothing is left of the history: no string in the dictionary, and an empty window. */
    ghost predicate Forgotten()
      reads `ins, `strstart, `lookahead, `insert, head
    {
      ins == {} && strstart == 0 && lookahead == 0 && insert == 0 && forall i | 0 <= i < head.Length :: head[i] == NIL
    }

    /** The marker after a completed block: an empty stored block, or an empty coded one for
        Z_PARTIAL_FLUSH; none for Z_BLOCK. */
    method FlushMarker(flush: nat)
      requires Valid() && !finished && Flushed()
      modifies head, `ins, `top, `strstart, `blockStart, `insert, `base, `blocks, `pending, `sizes
      ensures Valid() && !finished && Flushed()
      ensures blocks == old(blocks) + Marker(flush, old(base + blockStart))
      ensures flush != Z_FULL_FLUSH ==> forall fits, e, poised, was ::
                old(FastCall(flush, fits, e, poised, was)) ==> FastCall(flush, fits, e, poised, was)
      ensures 1 <= flush <= 3 ==> Marked(flush)
      ensures if flush == 3 then Forgotten() else ins == old(ins) && strstart == old(strstart)
      ensures Books() == old(Books())
    {
      hide Deflater.Books;
      FlushedEnds();
      EmptyBlock(flush);
      hide Deflater.FuncInv, Marker, NoneLast, EndsLast;
      if flush == Z_FULL_FLUSH {
        FullFlush();
      }
    }

    lemma FlushedEnds()
      requires Valid() && Flushed()
      ensures base + blockStart == |stream|
    {
      hide Deflater.Chains, Deflater.Out, Deflater.Leftover, Deflater.Room, Deflater.HashIdle, Deflater.Waiting;
      WindowEnds();
    }

    /** The history is forgotten; what every compression function keeps still holds. */
    method FullFlush()
      requires Valid() && !finished && Flushed()
      modifies head, `ins, `top, `strstart, `blockStart, `insert, `base
      ensures Valid() && Flushed() && Forgotten()
    {
      hide Deflater.Window, Deflater.Chains, Deflater.Out, Deflater.Leftover, Deflater.Room, NoneLast, EndsLast;
      hide Repeats, HashReady;
      ForgetHistory();
    }

    /** One empty block, stored or coded, as the flush asks for. */
    method EmptyBlock(flush: nat)
      requires Valid() && !finished && tallied == [] && blockStart == strstart && !matchAvailable
      modifies `blocks, `pending, `sizes
      ensures Valid() && !finished && tallied == [] && blockStart == strstart && !matchAvailable
      ensures blocks == old(blocks) + Marker(flush, base + blockStart) && Books() == old(Books())
    {
      hide Deflater.Books, BlocksOk, Decode, Deflater.Chains, Deflater.Window, Deflater.Room, Deflater.HashIdle;
      hide Deflater.Leftover;
      var size :| 0 <= size;
      if flush == Z_PARTIAL_FLUSH {
        OutFlush(blocks, [], stream, base + blockStart, base + blockStart, MaxDist(), MaxStored(), None, false);
        Record(Block(base + blockStart, [], None, false, false), size);
      } else if flush != Z_BLOCK {
        OutStore(blocks, stream, base + blockStart, base + blockStart, MaxDist(), MaxStored(), false);
        assert stream[base + blockStart..base + blockStart] == [];
        Record(Block(base + blockStart, [], Some([]), true, false), size);
      }
    }

    /** The marker behind a completed block, and its output; again tells that space has run out. */
    method CompleteFlush(flush: nat) returns (again: bool)
      requires Valid() && !finished && Flushed()
      modifies head, `ins, `top, `strstart, `blockStart, `insert, `base, `blocks, `pending, `availOut, `totalOut, `sizes
      ensures Valid() && !finished && Flushed()
      ensures if again then availOut == 0 else availOut > 0 && pending == 0
      ensures flush != Z_FULL_FLUSH ==> forall fits, e, poised, was ::
                old(FastCall(flush, fits, e, poised, was)) ==> FastCall(flush, fits, e, poised, was)
      ensures Books() == old(Books())
      ensures (1 <= flush <= 3 ==> Marked(flush)) && (flush == 3 ==> Forgotten())
    {
      hide Deflater.Marked, Deflater.Forgotten, Deflater.Books;
      hide Deflater.FuncInv, NoneLast, EndsLast, Marker, Deflater.FastCall;
      FlushMarker(flush);
      FlushPending();
      again := availOut == 0;
    }

    /** Runs the compression function and completes what it started; again tells that the caller
        must come back, with more input or more space. */
    method RunFunc(flush: nat) returns (again: bool)
      requires Valid() && !finished && pending == 0
      modifies this, window, prev, head
      ensures Valid() && stream + nextIn == old(stream + nextIn)
      ensures !again && flush == Z_FINISH ==> finished && nextIn == []
      ensures finished ==> flush == Z_FINISH
      ensures !again ==> nextIn == [] && Flushed() && availOut > 0 && pending == 0
      ensures again ==> availOut == 0 || (flush == Z_NO_FLUSH && nextIn == [] && lookahead < MIN_LOOKAHEAD)
      ensures Books() == old(Books()).(lastFlush := if again && availOut == 0 then -1 else old(lastFlush))
      ensures flush != Z_FULL_FLUSH ==>
        FastCall(flush, old(Fits(nextIn)), old(AllRead(|nextIn|)), old(Poised(nextIn)), old(met))
      ensures !again ==> (1 <= flush <= 3 ==> Marked(flush)) && (flush == 3 ==> Forgotten())
    {
      hide Deflater.Marked, Deflater.Forgotten;
      hide Deflater.FastCall, Deflater.Fits, Deflater.AllRead, Deflater.Poised;
      hide Deflater.FuncInv, NoneLast, EndsLast;
      LastFlushIs();
      hide Deflater.Books;
      var bs := CompressFunc(flush);
      finished := bs == FinishStarted || bs == FinishDone;
      again := bs == NeedMore || bs == FinishStarted;
      if bs == BlockDone {
        again := CompleteFlush(flush);
      }
      if again && availOut == 0 { MarkFull(); }
    }

    lemma LastFlushIs()
      ensures Books().lastFlush == lastFlush
    {}

    /** The next call may come with the same flush. */
    method MarkFull()
      modifies `lastFlush
      ensures Books() == old(Books()).(lastFlush := -1)
    {
      lastFlush := -1;
    }

    /** Every block can be written in the format. */
    lemma BlocksFit()
      requires Valid()
      ensures Bounded(blocks, MaxDist(), MaxStored()) && MaxDist() <= 32768 - 262 && MaxStored() <= 65535
    {
      hide Deflater.Window, Deflater.Chains, Deflater.Room, Deflater.HashIdle, Deflater.Leftover, Deflater.Waiting;
      hide NoneLast, EndsLast, BlocksOk, Decode, DistancesWithin, Bounded;
      BlocksBounded(blocks, stream, base + blockStart, MaxDist(), MaxStored());
    }

    /** Between any two calls, whichever forms were chosen for the blocks written so far, inflating
        them gives the input up to the current block, and the tokens tallied since continue it up
        to the byte or two not decided yet. After the last block it gives the whole input. */
    lemma InflateAll(stored: seq<bool>)
      requires Valid() && Allowed(blocks, stored)
      ensures 0 <= base + blockStart <= |stream| && Inflate(blocks, stored) == Output(stream[..base + blockStart])
      ensures func != Stored ==> Decode(stream[..base + blockStart], tallied) == Output(stream[..SlowPos()])
      ensures finished || Flushed() ==> Inflate(blocks, stored) == Output(stream)
      ensures Bounded(blocks, MaxDist(), MaxStored()) && (func != Stored ==> DistancesWithin(tallied, MaxDist()))
    {
      hide Deflater.Window, Deflater.Chains, Deflater.Room, Deflater.HashIdle, Deflater.Leftover, Deflater.Waiting;
      hide NoneLast, EndsLast;
      hide BlocksOk, Inflate, Decode, DistancesWithin, Allowed, Bounded;
      BlocksFit();
      BlocksInflate(blocks, stream, base + blockStart, MaxDist(), MaxStored(), stored);
      if finished || Flushed() {
        WindowEnds();
        assert stream[..base + blockStart] == stream;
      }
    }

    /** When a call to deflate() is an error that no output space and no input would mend. */
    ghost predicate Refused(flush: nat, finished: bool)
    {
      flush > Z_BLOCK || (finished && flush != Z_FINISH)
    }

    /** When a call finds nothing to do, or no way to do it. */
    ghost predicate Stuck(data: seq<bv8>, space: nat, flush: nat, finished: bool, pending: nat, lastFlush: int)
    {
      || space == 0 || (finished && data != [] && pending < space)
      || (pending == 0 && data == [] && flush != Z_FINISH && Rank(flush) <= Rank(lastFlush))
    }

    /** The beginning of deflate(): errors, and the output left over from the last call. */
    method Begin(flush: nat) returns (done: bool, ret: Ret)
      modifies `lastFlush, `pending, `availOut, `totalOut
      ensures done && ret == StreamError <==> Refused(flush, finished)
      ensures done && ret == BufError <==>
        !Refused(flush, finished) && Stuck(nextIn, old(availOut), flush, finished, old(pending), old(lastFlush))
      ensures done && ret == Ok <==>
        !Refused(flush, finished) && old(pending) >= old(availOut) > 0
      ensures done ==> ret != StreamEnd && (ret == Ok ==> availOut == 0)
      ensures !done ==> pending == 0 && availOut > 0 && (finished ==> nextIn == [])
      ensures Books() == old(Books()).(lastFlush :=
        if done && (ret == StreamError || old(availOut) == 0) then old(lastFlush)
        else if done && ret == Ok then -1 else flush)
    {
      if flush > Z_BLOCK || (finished && flush != Z_FINISH) { return true, StreamError; }
      if availOut == 0 { return true, BufError; }
      var oldFlush := lastFlush;
      lastFlush := flush;
      if pending != 0 {
        FlushPending();
        if availOut == 0 {
          lastFlush := -1;
          return true, Ok;
        }
      } else if nextIn == [] && Rank(flush) <= Rank(oldFlush) && flush != Z_FINISH {
        return true, BufError;
      }
      if finished && nextIn != [] { return true, BufError; }
      return false, Ok;
    }

    /** deflate(), after the header of a wrapped stream: the caller provides input and output space
        and takes over what is left of them. */
    method Deflate(data: seq<bv8>, space: nat, flush: nat) returns (ret: Ret)
      requires Valid()
      modifies this, window, prev, head
      ensures Valid() && stream + nextIn == old(stream) + data
      ensures ret == StreamError <==> flush > Z_BLOCK || (old(finished) && flush != Z_FINISH)
      ensures ret == StreamError || ret == BufError ==> stream == old(stream) && nextIn == data && blocks == old(blocks)
      ensures ret == BufError <==>
        ret != StreamError && Stuck(data, space, flush, old(finished), old(pending), old(lastFlush))
      ensures ret == StreamEnd <==> flush == Z_FINISH && ret != BufError && availOut > 0
      ensures ret == StreamEnd ==> finished && nextIn == [] && pending == 0
      ensures ret == Ok && availOut > 0 ==> nextIn == [] && lookahead < MIN_LOOKAHEAD
      ensures ret == Ok && availOut > 0 && flush != Z_NO_FLUSH ==> Flushed() && pending == 0
      ensures ret == Ok && availOut > 0 ==> (1 <= flush <= 3 ==> Marked(flush)) && (flush == 3 ==> Forgotten())
      ensures finished ==> old(finished) || flush == Z_FINISH
      ensures old(finished) ==> finished && stream == old(stream) && blocks == old(blocks)
      ensures Books() == Account(old(Books()).owed, old(Books()).unsized, old(totalOut) + space,
                                 if ret == StreamError || space == 0 then old(lastFlush)
                                 else if ret == Ok && availOut == 0 then -1 else flush)
      ensures flush <= Z_BLOCK && flush != Z_FULL_FLUSH && !old(finished) && old(pending) < space && data != [] ==>
        FastCall(flush, old(Fits(data)), old(AllRead(|data|)), old(Poised(data)), old(met))
    {
      hide Deflater.Marked, Deflater.Forgotten;
      hide Deflater.FastCall, Deflater.Fits, Deflater.AllRead, Deflater.Poised;
      hide Deflater.FuncInv, NoneLast, EndsLast;
      nextIn, availOut := data, space;
      ghost var books := Books();
      assert books == Account(old(Books()).owed, old(Books()).unsized, old(totalOut) + space, old(lastFlush));
      hide Deflater.Books;
      var done;
      done, ret := Begin(flush);
      if done { return; }
      if nextIn != [] || lookahead != 0 || (flush != Z_NO_FLUSH && !finished) {
        var again := RunFunc(flush);
        if again { return Ok; }
      }
      if flush != Z_FINISH { return Ok; }
      return StreamEnd;
    }
  }

  lemma WordSubShift(a: nat, m: nat, w: nat)
    requires w <= a
    ensures WordSub(a - w, WordSub(m, w)) == WordSub(a, m)
  {}

  lemma WordSubOne(a: nat, m: nat)
    requires 1 <= a && WordSub(a, m) >= 1
    ensures WordSub(a - 1, m) == WordSub(a, m) - 1
  {}
}
