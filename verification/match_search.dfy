/** Values that longest_match compares and visits. */
module MatchSearch {
  import opened Lz77
  import opened HashChains
  import opened Words

  /** end bytes of the window hold the input from the absolute position base on. */
  ghost predicate WindowOk(win: seq<bv8>, s: seq<bv8>, base: nat, end: nat)
  {
    base + end == |s| && end <= |win| && forall i | 0 <= i < end :: win[i] == s[base + i]
  }

  /** More input behind what the window holds. */
  lemma WindowMore(win: seq<bv8>, win': seq<bv8>, s: seq<bv8>, data: seq<bv8>, base: nat, end: nat)
    requires WindowOk(win, s, base, end) && base + end == |s| && end + |data| <= |win'| == |win|
    requires forall k | 0 <= k < end :: win'[k] == win[k]
    requires forall k | end <= k < end + |data| :: win'[k] == data[k - end]
    ensures WindowOk(win', s + data, base, end + |data|)
  {}

  lemma WindowEmpty(win: seq<bv8>, s: seq<bv8>)
    ensures WindowOk(win, s, |s|, 0)
  {}

  /** The n bytes at window index a equal those at the earlier index b. */
  ghost predicate Agrees(win: seq<bv8>, a: nat, b: nat, n: nat)
    requires b < a
  {
    a + n <= |win| && forall i | a <= i < a + n :: win[i] == win[i - (a - b)]
  }

  /** Within the lookahead, agreeing in the window is repeating in the input. */
  lemma AgreesRepeats(win: seq<bv8>, s: seq<bv8>, base: nat, end: nat, a: nat, b: nat, n: nat)
    requires WindowOk(win, s, base, end) && b < a && a + n <= end
    ensures Agrees(win, a, b, n) <==> Repeats(s, base + a, a - b, n)
  {
    if Agrees(win, a, b, n) {
      forall k | base + a <= k < base + a + n ensures s[k] == s[k - (a - b)] {
        assert win[k - base] == win[k - base - (a - b)];
      }
    }
    if Repeats(s, base + a, a - b, n) {
      forall i | a <= i < a + n ensures win[i] == win[i - (a - b)] {
        assert s[base + i] == s[base + i - (a - b)];
      }
    }
  }

  /** The candidate reached after n links of the chain that starts at cur. */
  ghost function Visit(prev: seq<nat>, w: nat, cur: nat, n: nat): nat
  {
    if n == 0 then cur
    else
      var c := Visit(prev, w, cur, n - 1);
      if Slot(c, w) < |prev| then prev[Slot(c, w)] else NIL
  }

  lemma VisitNext(prev: seq<nat>, w: nat, cur: nat, n: nat)
    requires Slot(Visit(prev, w, cur, n), w) < |prev|
    ensures Visit(prev, w, cur, n + 1) == prev[Slot(Visit(prev, w, cur, n), w)]
  {}

  /** No candidate among the first n visited agrees with position a on more than best bytes. */
  ghost predicate NoneBetter(win: seq<bv8>, prev: seq<nat>, w: nat, a: nat, cur: nat, n: nat, best: nat)
  {
    best < MAX_MATCH ==> forall i | 0 <= i < n ::
      var c := Visit(prev, w, cur, i); c < a && !Agrees(win, a, c, best + 1)
  }

  lemma AgreesNone(win: seq<bv8>, a: nat, b: nat)
    requires b < a <= |win|
    ensures Agrees(win, a, b, 0)
  {}

  lemma AgreesLess(win: seq<bv8>, a: nat, b: nat, n: nat, m: nat)
    requires b < a && Agrees(win, a, b, n) && m <= n
    ensures Agrees(win, a, b, m)
  {}

  lemma NoneBetterStart(win: seq<bv8>, prev: seq<nat>, w: nat, a: nat, cur: nat, best: nat)
    ensures NoneBetter(win, prev, w, a, cur, 0, best)
  {}

  lemma NoneBetterGrows(win: seq<bv8>, prev: seq<nat>, w: nat, a: nat, cur: nat, n: nat, best: nat, best': nat)
    requires NoneBetter(win, prev, w, a, cur, n, best) && best <= best'
    ensures NoneBetter(win, prev, w, a, cur, n, best')
  {}

  lemma NoneBetterStep(win: seq<bv8>, prev: seq<nat>, w: nat, a: nat, cur: nat, n: nat, best: nat)
    requires NoneBetter(win, prev, w, a, cur, n, best)
    requires var c := Visit(prev, w, cur, n); c < a && (best < MAX_MATCH ==> !Agrees(win, a, c, best + 1))
    ensures NoneBetter(win, prev, w, a, cur, n + 1, best)
  {}

  // ----- the window bytes read by a search

  /** The byte at a window index; anything outside. */
  function ByteAt(win: seq<bv8>, i: nat): bv8 { if i < |win| then win[i] else 0 }

  predicate Alike(win: seq<bv8>, a: nat, c: nat, j: nat) { ByteAt(win, a + j) == ByteAt(win, c + j) }

  /** Where a scan that goes on from offset k stops: the first offset at which the strings at a and c
      differ, or MAX_MATCH. */
  function ScanEnd(win: seq<bv8>, a: nat, c: nat, k: nat): (len: nat)
    requires k <= MAX_MATCH
    ensures k <= len <= MAX_MATCH && (len < MAX_MATCH ==> !Alike(win, a, c, len))
    ensures forall j: nat | k <= j < len :: Alike(win, a, c, j)
    decreases MAX_MATCH - k
  {
    if k == MAX_MATCH || !Alike(win, a, c, k) then k else ScanEnd(win, a, c, k + 1)
  }

  /** A scan that finds no difference before offset n, and one there unless n is MAX_MATCH. */
  lemma {:induction false} ScanEndIs(win: seq<bv8>, a: nat, c: nat, k: nat, n: nat)
    requires k <= n <= MAX_MATCH && forall j: nat | k <= j < n :: Alike(win, a, c, j)
    requires n < MAX_MATCH ==> !Alike(win, a, c, n)
    ensures ScanEnd(win, a, c, k) == n
    decreases n - k
  {
    if k < n { ScanEndIs(win, a, c, k + 1, n); }
  }

  lemma ScanEndAgrees(win: seq<bv8>, a: nat, c: nat, n: nat)
    requires c < a && a + MAX_MATCH < |win| && 3 <= n <= MAX_MATCH && Agrees(win, a, c, n)
    requires n < MAX_MATCH ==> win[a + n] != win[c + n]
    ensures ScanEnd(win, a, c, 3) == n
  {
    forall j: nat | 3 <= j < n ensures Alike(win, a, c, j) {
      assert win[a + j] == win[a + j - (a - c)];
    }
    ScanEndIs(win, a, c, 3, n);
  }

  /** The window indices from offset 3 to len. */
  ghost function Offsets(a: nat, len: nat): (r: set<nat>)
    ensures forall i: nat :: i in r <==> a + 3 <= i <= a + len
  {
    if len < 3 then {} else Offsets(a, len - 1) + {a + len}
  }

  lemma OffsetsNext(a: nat, c: nat, len: nat)
    requires len >= 3
    ensures Offsets(a, len - 1) + Offsets(c, len - 1) + {a + len, c + len} == Offsets(a, len) + Offsets(c, len)
  {}

  lemma OffsetsOne(a: nat, len: nat)
    requires len >= 3
    ensures Offsets(a, len - 1) + {a + len} == Offsets(a, len)
  {}

  lemma NoOffsets(a: nat)
    ensures Offsets(a, 2) == {}
  {}

  /** The four comparisons before a scan: the last two bytes of the best match, then the first two. */
  predicate EndsSame(win: seq<bv8>, a: nat, c: nat, best: nat)
    requires best >= 1
  {
    && ByteAt(win, c + best) == ByteAt(win, a + best) && ByteAt(win, c + best - 1) == ByteAt(win, a + best - 1)
    && ByteAt(win, c) == ByteAt(win, a) && ByteAt(win, c + 1) == ByteAt(win, a + 1)
  }

  /** The indices these comparisons look at, each made only if the ones before it succeed; the bytes
      at the end of the best match have been loaded before. */
  function EndsRead(win: seq<bv8>, a: nat, c: nat, best: nat): set<nat>
    requires best >= 1
  {
    if ByteAt(win, c + best) != ByteAt(win, a + best) then {c + best}
    else if ByteAt(win, c + best - 1) != ByteAt(win, a + best - 1) then {c + best, c + best - 1}
    else if ByteAt(win, c) != ByteAt(win, a) then {c + best, c + best - 1, c, a}
    else {c + best, c + best - 1, c, a, c + 1, a + 1}
  }

  /** The length measured for candidate c, 0 if it is rejected before the scan. */
  function Measured(win: seq<bv8>, a: nat, c: nat, best: nat): nat
    requires best >= 1
  {
    if EndsSame(win, a, c, best) then ScanEnd(win, a, c, 3) else 0
  }

  /** The indices looked at for candidate c. */
  ghost function CandidateRead(win: seq<bv8>, a: nat, c: nat, best: nat): set<nat>
    requires best >= 1
  {
    EndsRead(win, a, c, best) + if EndsSame(win, a, c, best) then
      Offsets(a, ScanEnd(win, a, c, 3)) + Offsets(c, ScanEnd(win, a, c, 3)) else {}
  }

  lemma Examined(win: seq<bv8>, a: nat, c: nat, best: nat)
    requires best >= 1
    ensures if EndsSame(win, a, c, best) then
        Measured(win, a, c, best) == ScanEnd(win, a, c, 3)
        && CandidateRead(win, a, c, best) ==
           EndsRead(win, a, c, best) + (Offsets(a, ScanEnd(win, a, c, 3)) + Offsets(c, ScanEnd(win, a, c, 3)))
      else Measured(win, a, c, best) == 0 && CandidateRead(win, a, c, best) == EndsRead(win, a, c, best)
  {}

  /** A candidate that fails one of the four comparisons is no better than best. */
  lemma RejectedNoBetter(win: seq<bv8>, a: nat, c: nat, best: nat)
    requires c < a && best >= 1 && a + best < |win| && !EndsSame(win, a, c, best)
    ensures !Agrees(win, a, c, best + 1)
  {}

  /** A difference at offset len. */
  lemma DiffersAt(win: seq<bv8>, a: nat, c: nat, len: nat, n: nat)
    requires c < a && a + len < |win| && win[a + len] != win[c + len] && len < n
    ensures !Agrees(win, a, c, n)
  {}

  /** No index read at the ends lies behind the best match. */
  lemma EndsReadBelow(win: seq<bv8>, a: nat, c: nat, best: nat)
    requires best >= 1 && c < a
    ensures forall i | i in EndsRead(win, a, c, best) :: i <= a + best
  {}

  /** The best length after n candidates of the chain that starts at cur. */
  ghost function BestAfter(win: seq<bv8>, prev: seq<nat>, w: nat, a: nat, cur: nat, first: nat, n: nat): (best: nat)
    requires first >= 1
    ensures best >= first
  {
    if n == 0 then first
    else
      var best := BestAfter(win, prev, w, a, cur, first, n - 1);
      var len := Measured(win, a, Visit(prev, w, cur, n - 1), best);
      if len > best then len else best
  }

  /** The last two bytes of the best match are loaded again when it grows, unless it is nice enough. */
  function Reloaded(win: seq<bv8>, a: nat, c: nat, best: nat, nice: nat): set<nat>
    requires best >= 1
  {
    var len := Measured(win, a, c, best);
    if best < len < nice then {a + len - 1, a + len} else {}
  }

  /** All indices looked at: the last two bytes of the length to beat, then those for n candidates. */
  ghost function ReadAfter(win: seq<bv8>, prev: seq<nat>, w: nat, a: nat, cur: nat, first: nat, nice: nat,
                           n: nat): set<nat>
    requires first >= 1
  {
    if n == 0 then {a + first - 1, a + first}
    else
      var c, best := Visit(prev, w, cur, n - 1), BestAfter(win, prev, w, a, cur, first, n - 1);
      ReadAfter(win, prev, w, a, cur, first, nice, n - 1) + CandidateRead(win, a, c, best)
        + Reloaded(win, a, c, best, nice)
  }

  /** The three bytes at a are equal to the one before it. */
  predicate RunStarts(win: seq<bv8>, a: nat)
    requires a > 0
  {
    Alike(win, a, a - 1, 0) && ByteAt(win, a + 1) == ByteAt(win, a - 1) == ByteAt(win, a + 2)
  }

  /** The length of the run of the byte before a, up to MAX_MATCH; 0 if it is shorter than three. */
  function RunLength(win: seq<bv8>, a: nat): nat
    requires a > 0
  {
    if RunStarts(win, a) then ScanEnd(win, a, a - 1, 3) else 0
  }

  /** The indices looked at before the scan, each only if the bytes before it are equal. */
  function StartRead(win: seq<bv8>, a: nat): set<nat>
    requires a > 0
  {
    var c := ByteAt(win, a - 1);
    if ByteAt(win, a) != c then {a - 1, a}
    else if ByteAt(win, a + 1) != c then {a - 1, a, a + 1}
    else {a - 1, a, a + 1, a + 2}
  }

  /** All indices looked at for a run. */
  ghost function RunRead(win: seq<bv8>, a: nat): set<nat>
    requires a > 0
  {
    StartRead(win, a) + if RunStarts(win, a) then Offsets(a, ScanEnd(win, a, a - 1, 3)) else {}
  }

  lemma RunExamined(win: seq<bv8>, a: nat)
    requires a > 0
    ensures if RunStarts(win, a) then
        RunLength(win, a) == ScanEnd(win, a, a - 1, 3)
          && RunRead(win, a) == StartRead(win, a) + Offsets(a, ScanEnd(win, a, a - 1, 3))
      else RunLength(win, a) == 0 && RunRead(win, a) == StartRead(win, a)
  {}

  /** A run of one byte is a scan at distance one. */
  lemma RunScan(win: seq<bv8>, a: nat, len: nat)
    requires 0 < a && a + MAX_MATCH < |win| && 3 <= len <= MAX_MATCH
    requires forall i | a - 1 <= i < a + len :: win[i] == win[a - 1]
    requires len < MAX_MATCH ==> win[a + len] != win[a - 1]
    ensures ScanEnd(win, a, a - 1, 3) == len
  {
    hide ScanEnd;
    var before: nat := a - 1;
    assert forall j: nat | 3 <= j < len :: Alike(win, a, before, j);
    ScanEndIs(win, a, a - 1, 3, len);
  }

  /** Equal keys and two agreeing bytes agree on three. */
  lemma ThirdByteAgrees(P: HashParams, win: seq<bv8>, s: seq<bv8>, base: nat, end: nat, a: nat, b: nat)
    requires P.Valid() && WindowOk(win, s, base, end) && b < a && a + 3 <= end
    requires KeyAt(P, s, base + a) == KeyAt(P, s, base + b) && Agrees(win, a, b, 2)
    ensures Agrees(win, a, b, 3)
  {
    hide HashParams.Update, HashParams.Hash3, Index16;
    assert win[a] == win[a - (a - b)] && win[a + 1] == win[a + 1 - (a - b)];
    KeysForceThird(P, win[a], win[a + 1], win[a + 2], win[b + 2]);
  }

  /** A run of the byte before position a is agreement at distance one. */
  lemma AgreesRun(win: seq<bv8>, a: nat, len: nat, n: nat, c: bv8)
    requires 0 < a && a + len < |win| && n <= len && forall i | a - 1 <= i < a + len :: win[i] == c
    ensures Agrees(win, a, a - 1, n)
    ensures win[a + len] != c ==> !Agrees(win, a, a - 1, len + 1)
  {
    assert win[a + len - 1] == c;
  }

  lemma NoRun(win: seq<bv8>, a: nat, c: bv8)
    requires 0 < a && a + 2 < |win| && win[a - 1] == c
    requires win[a] != c || win[a + 1] != c || win[a + 2] != c
    ensures !Agrees(win, a, a - 1, 3)
  {}
}
