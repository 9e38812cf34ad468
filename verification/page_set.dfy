/** Bit vectors of 32 bits, addressed by numbers. */
module BitVectors {
  const BITVEC_SIZE := 32

  function Place(n: nat): bv5
    requires n < BITVEC_SIZE
  {
    n as bv5
  }

  predicate GetNth(b: bv32, n: nat)
    requires n < BITVEC_SIZE
  {
    IsOne(b, Place(n))
  }

  function SetNth(b: bv32, n: nat): bv32
    requires n < BITVEC_SIZE
  {
    WithOne(b, Place(n))
  }

  function ResetNth(b: bv32, n: nat): bv32
    requires n < BITVEC_SIZE
  {
    WithZero(b, Place(n))
  }

  lemma PlaceInjective(n: nat, m: nat)
    requires n < BITVEC_SIZE && m < BITVEC_SIZE && Place(n) == Place(m)
    ensures n == m
  {
    assert Place(n) as nat == n;
  }

  lemma AfterSet(b: bv32, n: nat, m: nat)
    requires n < BITVEC_SIZE && m < BITVEC_SIZE
    ensures GetNth(SetNth(b, n), m) <==> n == m || GetNth(b, m)
  {
    hide Place, IsOne, WithOne;
    SetPlace(b, Place(n), Place(m));
    if Place(n) == Place(m) { PlaceInjective(n, m); }
  }

  lemma AfterReset(b: bv32, n: nat, m: nat)
    requires n < BITVEC_SIZE && m < BITVEC_SIZE
    ensures GetNth(ResetNth(b, n), m) <==> n != m && GetNth(b, m)
  {
    hide Place, IsOne, WithZero;
    ResetPlace(b, Place(n), Place(m));
    if Place(n) == Place(m) { PlaceInjective(n, m); }
  }

  predicate IsOne(b: bv32, n: bv5) { (b >> n) & 1 == 1 }

  function WithOne(b: bv32, n: bv5): bv32 { b | (1 << n) }

  function WithZero(b: bv32, n: bv5): bv32 { b & !(1 << n) }

  lemma SetPlace(b: bv32, n: bv5, m: bv5)
    ensures IsOne(WithOne(b, n), m) <==> n == m || IsOne(b, m)
  {}

  lemma ResetPlace(b: bv32, n: bv5, m: bv5)
    ensures IsOne(WithZero(b, n), m) <==> n != m && IsOne(b, m)
  {}

  /** A vector is zero exactly when it has no bit. */
  lemma ZeroVector(b: bv32)
    ensures b == 0 <==> forall n | 0 <= n < BITVEC_SIZE :: !GetNth(b, n)
  {
    if forall n | 0 <= n < BITVEC_SIZE :: !GetNth(b, n) {
      forall n: bv5 ensures !IsOne(b, n) {
        assert Place(n as nat) == n;
        assert !GetNth(b, n as nat);
      }
      NoBit(b);
    } else {
      NoneInZero();
    }
  }

  lemma NoneInZero()
    ensures forall n | 0 <= n < BITVEC_SIZE :: !GetNth(0, n)
  {
    hide Place;
    assert forall n: bv5 :: !IsOne(0, n);
    forall n | 0 <= n < BITVEC_SIZE ensures !GetNth(0, n) { assert !IsOne(0, Place(n)); }
  }

  lemma NoBit(b: bv32)
    requires forall n: bv5 :: !IsOne(b, n)
    ensures b == 0
  {
    assert !IsOne(b, 0) && !IsOne(b, 1) && !IsOne(b, 2) && !IsOne(b, 3) && !IsOne(b, 4) && !IsOne(b, 5)
      && !IsOne(b, 6) && !IsOne(b, 7);
    assert !IsOne(b, 8) && !IsOne(b, 9) && !IsOne(b, 10) && !IsOne(b, 11);
    assert !IsOne(b, 12) && !IsOne(b, 13) && !IsOne(b, 14) && !IsOne(b, 15);
    assert !IsOne(b, 16) && !IsOne(b, 17) && !IsOne(b, 18) && !IsOne(b, 19);
    assert !IsOne(b, 20) && !IsOne(b, 21) && !IsOne(b, 22) && !IsOne(b, 23);
    assert !IsOne(b, 24) && !IsOne(b, 25) && !IsOne(b, 26) && !IsOne(b, 27);
    assert !IsOne(b, 28) && !IsOne(b, 29) && !IsOne(b, 30) && !IsOne(b, 31);
  }
}

/** A set of pages of a 32-bit address space as a two-level bitmap: a bit per page, and above it a
    bit per word of 32 pages. */
module PageSets {
  import opened BitVectors

  const PAGE_COUNT := 1048576
  const PAGE_SIZE := 4096
  const WORDS := 32768
  const L1_TABLE_LEN := 262144
  const L2_TABLE_LEN := 65536
  const PAGESET_END := 0

  /** The bit of number n in a table. */
  ghost predicate Bit(table: seq<bv32>, n: nat)
    requires n / BITVEC_SIZE < |table|
  {
    GetNth(table[n / BITVEC_SIZE], n % BITVEC_SIZE)
  }

  ghost predicate TablesOk(l1: seq<bv32>, l2: seq<bv32>, pages: set<nat>)
  {
    && |l1| == L1_TABLE_LEN && |l2| == L2_TABLE_LEN
    && (forall p | p in pages :: p < PAGE_COUNT)
    && (forall p: nat {:trigger Bit(l1, p)} :: p < L1_TABLE_LEN * BITVEC_SIZE ==> (Bit(l1, p) <==> p in pages))
    && (forall t: nat {:trigger Bit(l2, t)} ::
          t < L2_TABLE_LEN * BITVEC_SIZE && Bit(l2, t) ==> t < L1_TABLE_LEN && l1[t] != 0)
  }

  /** Every word with a page in it is marked at the second level. */
  ghost predicate Summarized(l2: seq<bv32>, pages: set<nat>)
    requires |l2| == L2_TABLE_LEN
  {
    forall p | p in pages && p < PAGE_COUNT :: Bit(l2, p / BITVEC_SIZE)
  }

  /** The pages after a given one that the search can see: those in the same word, and those in
      words marked at the second level. */
  ghost predicate Visible(l2: seq<bv32>, pages: set<nat>, cur: nat, p: nat)
    requires |l2| == L2_TABLE_LEN
  {
    p in pages && cur < p < PAGE_COUNT && (p / BITVEC_SIZE == cur / BITVEC_SIZE || Bit(l2, p / BITVEC_SIZE))
  }

  /** The address of the first visible page after a given one, or the end. */
  ghost predicate IsNext(l2: seq<bv32>, pages: set<nat>, cur: nat, r: nat)
    requires |l2| == L2_TABLE_LEN
  {
    if r == PAGESET_END then forall p: nat :: !Visible(l2, pages, cur, p)
    else r % PAGE_SIZE == 0 && Visible(l2, pages, cur, r / PAGE_SIZE)
         && forall p: nat :: Visible(l2, pages, cur, p) ==> r / PAGE_SIZE <= p
  }

  /** The address of the least page, or the end. */
  ghost predicate IsLeast(pages: set<nat>, r: nat)
  {
    if pages == {} then r == PAGESET_END
    else r % PAGE_SIZE == 0 && r / PAGE_SIZE in pages && forall p | p in pages :: r / PAGE_SIZE <= p
  }

  // ----- setting and clearing bits

  lemma BitSet(table: seq<bv32>, n: nat, m: nat)
    requires n / BITVEC_SIZE < |table| && m / BITVEC_SIZE < |table|
    ensures var w := n / BITVEC_SIZE;
      Bit(table[w := SetNth(table[w], n % BITVEC_SIZE)], m) <==> m == n || Bit(table, m)
  {
    hide GetNth, SetNth;
    if m / BITVEC_SIZE == n / BITVEC_SIZE {
      AfterSet(table[n / BITVEC_SIZE], n % BITVEC_SIZE, m % BITVEC_SIZE);
    }
  }

  lemma BitReset(table: seq<bv32>, n: nat, m: nat)
    requires n / BITVEC_SIZE < |table| && m / BITVEC_SIZE < |table|
    ensures var w := n / BITVEC_SIZE;
      Bit(table[w := ResetNth(table[w], n % BITVEC_SIZE)], m) <==> m != n && Bit(table, m)
  {
    hide GetNth, ResetNth;
    if m / BITVEC_SIZE == n / BITVEC_SIZE {
      AfterReset(table[n / BITVEC_SIZE], n % BITVEC_SIZE, m % BITVEC_SIZE);
    }
  }

  /** A word of the first level is nonzero exactly when it has a page. */
  lemma WordHasPage(l1: seq<bv32>, t: nat)
    requires t < |l1|
    ensures l1[t] != 0 <==> exists p: nat :: p / BITVEC_SIZE == t && Bit(l1, p)
  {
    hide GetNth;
    ZeroVector(l1[t]);
    if n :| 0 <= n < BITVEC_SIZE && GetNth(l1[t], n) {
      var p: nat := t * BITVEC_SIZE + n;
      assert p / BITVEC_SIZE == t && p % BITVEC_SIZE == n;
      assert Bit(l1, p);
    }
  }

  function Marked(l: seq<bv32>, n: nat): (m: seq<bv32>)
    requires n / BITVEC_SIZE < |l|
    ensures |m| == |l|
  {
    l[n / BITVEC_SIZE := SetNth(l[n / BITVEC_SIZE], n % BITVEC_SIZE)]
  }

  function Unmarked(l: seq<bv32>, n: nat): (m: seq<bv32>)
    requires n / BITVEC_SIZE < |l|
    ensures |m| == |l|
  {
    l[n / BITVEC_SIZE := ResetNth(l[n / BITVEC_SIZE], n % BITVEC_SIZE)]
  }

  lemma InsertedTables(l1: seq<bv32>, l2: seq<bv32>, pages: set<nat>, p: nat)
    requires TablesOk(l1, l2, pages) && p < PAGE_COUNT
    ensures var t := p / BITVEC_SIZE;
      TablesOk(Marked(l1, p), Marked(l2, t), pages + {p})
      && (Summarized(l2, pages) ==> Summarized(Marked(l2, t), pages + {p}))
  {
    hide Bit, SetNth;
    var t := p / BITVEC_SIZE;
    var m1, m2 := Marked(l1, p), Marked(l2, t);
    forall q: nat | q < L1_TABLE_LEN * BITVEC_SIZE ensures Bit(m1, q) <==> q in pages + {p} { BitSet(l1, p, q); }
    forall u: nat | u < L2_TABLE_LEN * BITVEC_SIZE && Bit(m2, u) ensures u < L1_TABLE_LEN && m1[u] != 0 {
      BitSet(l2, t, u);
      if u == t {
        assert Bit(m1, p);
        WordHasPage(m1, t);
      }
    }
    if Summarized(l2, pages) {
      forall q | q in pages + {p} && q < PAGE_COUNT ensures Bit(m2, q / BITVEC_SIZE) { BitSet(l2, t, q / BITVEC_SIZE); }
    }
  }

  /** No page is left in the word, and all words with pages are marked. */
  ghost predicate OthersMarked(l2: seq<bv32>, pages: set<nat>, t: nat)
    requires |l2| == L2_TABLE_LEN
  {
    forall q | q in pages && q < PAGE_COUNT :: q / BITVEC_SIZE != t && Bit(l2, q / BITVEC_SIZE)
  }

  /** Erasing always unmarks the word: afterwards the second level is complete exactly when no page
      of that word is left and all other words were marked. */
  lemma ErasedTables(l1: seq<bv32>, l2: seq<bv32>, pages: set<nat>, p: nat)
    requires TablesOk(l1, l2, pages) && p < PAGE_COUNT
    ensures var t := p / BITVEC_SIZE;
      TablesOk(Unmarked(l1, p), Unmarked(l2, t), pages - {p})
      && (Summarized(Unmarked(l2, t), pages - {p}) <==> OthersMarked(l2, pages - {p}, t))
  {
    hide Bit, ResetNth;
    var t := p / BITVEC_SIZE;
    var m1, m2 := Unmarked(l1, p), Unmarked(l2, t);
    forall q: nat | q < L1_TABLE_LEN * BITVEC_SIZE ensures Bit(m1, q) <==> q in pages - {p} { BitReset(l1, p, q); }
    forall u: nat | u < L2_TABLE_LEN * BITVEC_SIZE ensures Bit(m2, u) <==> u != t && Bit(l2, u) { BitReset(l2, t, u); }
    if Summarized(m2, pages - {p}) {
      forall q | q in pages - {p} && q < PAGE_COUNT ensures q / BITVEC_SIZE != t && Bit(l2, q / BITVEC_SIZE) {
        assert Bit(m2, q / BITVEC_SIZE);
      }
    }
  }

  lemma PageBit(l1: seq<bv32>, l2: seq<bv32>, pages: set<nat>, p: nat)
    requires TablesOk(l1, l2, pages) && p < PAGE_COUNT
    ensures |l1| == L1_TABLE_LEN && |l2| == L2_TABLE_LEN
    ensures GetNth(l1[p / BITVEC_SIZE], p % BITVEC_SIZE) <==> p in pages
  {
    hide GetNth;
    assert Bit(l1, p) <==> p in pages;
  }

  // ----- searching

  /** No page of the same word comes after this one. */
  ghost predicate RestEmpty(l1: seq<bv32>, cur: nat)
    requires cur / BITVEC_SIZE < |l1|
  {
    forall k | cur % BITVEC_SIZE < k < BITVEC_SIZE :: !GetNth(l1[cur / BITVEC_SIZE], k)
  }

  /** The first word after t that is marked. */
  ghost predicate FirstWord(l2: seq<bv32>, t: nat, u: nat)
    requires |l2| == L2_TABLE_LEN
  {
    t < u < L2_TABLE_LEN * BITVEC_SIZE && Bit(l2, u) && forall v | t < v < u :: !Bit(l2, v)
  }

  lemma NextInWord(l1: seq<bv32>, l2: seq<bv32>, pages: set<nat>, cur: nat, n: nat)
    requires TablesOk(l1, l2, pages) && cur < PAGE_COUNT && cur % BITVEC_SIZE < n < BITVEC_SIZE
    requires GetNth(l1[cur / BITVEC_SIZE], n) && forall k | cur % BITVEC_SIZE < k < n ::
      !GetNth(l1[cur / BITVEC_SIZE], k)
    ensures IsNext(l2, pages, cur, (cur / BITVEC_SIZE * BITVEC_SIZE + n) * PAGE_SIZE)
    ensures (cur / BITVEC_SIZE * BITVEC_SIZE + n) * PAGE_SIZE < 0x1_0000_0000
  {
    hide GetNth;
    var q: nat := cur / BITVEC_SIZE * BITVEC_SIZE + n;
    assert q / BITVEC_SIZE == cur / BITVEC_SIZE && q % BITVEC_SIZE == n;
    assert Bit(l1, q);
    forall p | Visible(l2, pages, cur, p) ensures q <= p { assert Bit(l1, p); }
    assert q * PAGE_SIZE / PAGE_SIZE == q;
  }

  lemma FirstMarked(l1: seq<bv32>, l2: seq<bv32>, pages: set<nat>, t: nat, n: nat)
    requires TablesOk(l1, l2, pages) && t < WORDS && t % BITVEC_SIZE < n < BITVEC_SIZE
    requires GetNth(l2[t / BITVEC_SIZE], n) && forall k | t % BITVEC_SIZE < k < n :: !GetNth(l2[t / BITVEC_SIZE], k)
    ensures var u: nat := t / BITVEC_SIZE * BITVEC_SIZE + n;
      FirstWord(l2, t, u) && u < L1_TABLE_LEN && l1[u] != 0
  {
    hide GetNth;
    var u: nat := t / BITVEC_SIZE * BITVEC_SIZE + n;
    assert u / BITVEC_SIZE == t / BITVEC_SIZE && u % BITVEC_SIZE == n;
    assert Bit(l2, u);
  }

  lemma FirstMarkedLater(l1: seq<bv32>, l2: seq<bv32>, pages: set<nat>, t: nat, w: nat, n: nat)
    requires TablesOk(l1, l2, pages) && t < WORDS && t / BITVEC_SIZE < w < L2_TABLE_LEN && n < BITVEC_SIZE
    requires RestEmpty(l2, t)
    requires forall k | t / BITVEC_SIZE < k < w :: l2[k] == 0
    requires GetNth(l2[w], n) && forall k | 0 <= k < n :: !GetNth(l2[w], k)
    ensures var u: nat := w * BITVEC_SIZE + n;
      FirstWord(l2, t, u) && u < L1_TABLE_LEN && l1[u] != 0
  {
    hide GetNth;
    var u: nat := w * BITVEC_SIZE + n;
    assert u / BITVEC_SIZE == w && u % BITVEC_SIZE == n;
    assert Bit(l2, u);
    forall v | t < v < u ensures !Bit(l2, v) {
      ZeroVector(l2[v / BITVEC_SIZE]);
    }
  }

  lemma NextWord(l1: seq<bv32>, l2: seq<bv32>, pages: set<nat>, cur: nat, u: nat, n: nat)
    requires TablesOk(l1, l2, pages) && cur < PAGE_COUNT && RestEmpty(l1, cur) && FirstWord(l2, cur / BITVEC_SIZE, u)
    requires u < L1_TABLE_LEN && n < BITVEC_SIZE && GetNth(l1[u], n) && forall k | 0 <= k < n :: !GetNth(l1[u], k)
    ensures IsNext(l2, pages, cur, (u * BITVEC_SIZE + n) * PAGE_SIZE)
    ensures (u * BITVEC_SIZE + n) * PAGE_SIZE < 0x1_0000_0000
  {
    hide GetNth;
    var q: nat := u * BITVEC_SIZE + n;
    assert q / BITVEC_SIZE == u && q % BITVEC_SIZE == n;
    assert Bit(l1, q);
    forall p | Visible(l2, pages, cur, p) ensures q <= p {
      assert Bit(l1, p);
    }
    assert q * PAGE_SIZE / PAGE_SIZE == q;
  }

  lemma NoneVisible(l1: seq<bv32>, l2: seq<bv32>, pages: set<nat>, cur: nat)
    requires TablesOk(l1, l2, pages) && cur < PAGE_COUNT && RestEmpty(l1, cur) && RestEmpty(l2, cur / BITVEC_SIZE)
    requires forall k | cur / BITVEC_SIZE / BITVEC_SIZE < k < L2_TABLE_LEN :: l2[k] == 0
    ensures IsNext(l2, pages, cur, PAGESET_END)
  {
    hide GetNth;
    forall p: nat ensures !Visible(l2, pages, cur, p) {
      if p in pages && cur < p < PAGE_COUNT {
        assert Bit(l1, p);
        var t := p / BITVEC_SIZE;
        ZeroVector(l2[t / BITVEC_SIZE]);
      }
    }
  }

  // ----- iteration

  /** The loop that begins at an address and goes on with next visits exactly these addresses and
      ends. */
  ghost predicate Yields(l2: seq<bv32>, pages: set<nat>, start: nat, visited: seq<nat>)
    requires |l2| == L2_TABLE_LEN
  {
    Trail(l2, pages, start, visited, PAGESET_END)
  }

  /** The loop has visited these addresses and stands at another one. */
  ghost predicate Trail(l2: seq<bv32>, pages: set<nat>, start: nat, visited: seq<nat>, it: nat)
    requires |l2| == L2_TABLE_LEN
  {
    && start == (if visited == [] then it else visited[0])
    && forall i: nat {:trigger Hop(l2, pages, visited, i, it)} | i < |visited| :: Hop(l2, pages, visited, i, it)
  }

  /** One step of the loop, from the address visited at one index to that at the next. */
  ghost predicate Hop(l2: seq<bv32>, pages: set<nat>, visited: seq<nat>, i: nat, it: nat)
    requires |l2| == L2_TABLE_LEN && i < |visited|
  {
    visited[i] != PAGESET_END
      && IsNext(l2, pages, visited[i] / PAGE_SIZE, if i + 1 < |visited| then visited[i + 1] else it)
  }

  /** The addresses of all the pages and of nothing else, each once, in ascending order. */
  ghost predicate Complete(visited: seq<nat>, pages: set<nat>)
  {
    && (forall i, j | 0 <= i < j < |visited| :: visited[i] < visited[j])
    && (forall i | 0 <= i < |visited| :: visited[i] % PAGE_SIZE == 0 && visited[i] / PAGE_SIZE in pages)
    && forall p | p in pages :: p * PAGE_SIZE in visited
  }

  /** Iteration is exact: what the loop visits is complete. */
  ghost predicate ExactFrom(l2: seq<bv32>, pages: set<nat>, start: nat)
    requires |l2| == L2_TABLE_LEN
  {
    exists visited :: Yields(l2, pages, start, visited) && Complete(visited, pages)
  }

  /** What exactness comes down to: the loop begins at the least page, and every word but that
      page's own is marked. */
  ghost predicate Seen(l2: seq<bv32>, pages: set<nat>, start: nat)
    requires |l2| == L2_TABLE_LEN
  {
    && 0 !in pages && IsLeast(pages, start)
    && forall p | p in pages && p < PAGE_COUNT ::
      p / BITVEC_SIZE == start / PAGE_SIZE / BITVEC_SIZE || Bit(l2, p / BITVEC_SIZE)
  }

  lemma NextUnique(l2: seq<bv32>, pages: set<nat>, cur: nat, r: nat, q: nat)
    requires |l2| == L2_TABLE_LEN && IsNext(l2, pages, cur, r) && IsNext(l2, pages, cur, q)
    ensures r == q
  {
    hide Visible;
  }

  /** The loop visits one sequence only. */
  lemma {:induction false} YieldsUnique(l2: seq<bv32>, pages: set<nat>, start: nat, v: seq<nat>, w: seq<nat>)
    requires |l2| == L2_TABLE_LEN && Yields(l2, pages, start, v) && Yields(l2, pages, start, w)
    ensures v == w
    decreases |v|
  {
    hide IsNext;
    if v != [] { assert Hop(l2, pages, v, 0, PAGESET_END); }
    if w != [] { assert Hop(l2, pages, w, 0, PAGESET_END); }
    if v != [] && w != [] {
      var r := if 1 < |v| then v[1] else PAGESET_END;
      var q := if 1 < |w| then w[1] else PAGESET_END;
      NextUnique(l2, pages, start / PAGE_SIZE, r, q);
      YieldsTail(l2, pages, start, v);
      YieldsTail(l2, pages, start, w);
      YieldsUnique(l2, pages, r, v[1..], w[1..]);
      assert v == [start] + v[1..] && w == [start] + w[1..];
    }
  }

  lemma YieldsTail(l2: seq<bv32>, pages: set<nat>, start: nat, v: seq<nat>)
    requires |l2| == L2_TABLE_LEN && v != [] && Yields(l2, pages, start, v)
    ensures Yields(l2, pages, if 1 < |v| then v[1] else PAGESET_END, v[1..])
  {
    hide IsNext;
    forall i: nat | i < |v[1..]| ensures Hop(l2, pages, v[1..], i, PAGESET_END) {
      assert Hop(l2, pages, v, i + 1, PAGESET_END);
    }
  }

  lemma {:induction false} NextBelow(l2: seq<bv32>, pages: set<nat>, cur: nat, p: nat) returns (r: nat)
    requires |l2| == L2_TABLE_LEN && Visible(l2, pages, cur, p)
    ensures IsNext(l2, pages, cur, r) && r != PAGESET_END
    decreases p
  {
    if q: nat :| q < p && Visible(l2, pages, cur, q) {
      r := NextBelow(l2, pages, cur, q);
    } else {
      r := p * PAGE_SIZE;
      assert r / PAGE_SIZE == p && r % PAGE_SIZE == 0;
    }
  }

  lemma NextExists(l2: seq<bv32>, pages: set<nat>, cur: nat) returns (r: nat)
    requires |l2| == L2_TABLE_LEN
    ensures IsNext(l2, pages, cur, r)
  {
    if p: nat :| Visible(l2, pages, cur, p) {
      r := NextBelow(l2, pages, cur, p);
    } else {
      r := PAGESET_END;
    }
  }

  /** From any address the loop ends. */
  lemma {:induction false} YieldsExists(l2: seq<bv32>, pages: set<nat>, start: nat) returns (v: seq<nat>)
    requires |l2| == L2_TABLE_LEN
    ensures Yields(l2, pages, start, v)
    decreases if start == PAGESET_END then 0
              else 1 + if start / PAGE_SIZE < PAGE_COUNT then PAGE_COUNT - start / PAGE_SIZE else 0
  {
    if start == PAGESET_END {
      v := [];
    } else {
      var r := NextExists(l2, pages, start / PAGE_SIZE);
      if r == PAGESET_END {
        v := [start];
      } else {
        var w := YieldsExists(l2, pages, r);
        v := [start] + w;
        YieldsFront(l2, pages, start, r, w);
      }
    }
  }

  lemma YieldsFront(l2: seq<bv32>, pages: set<nat>, start: nat, r: nat, w: seq<nat>)
    requires |l2| == L2_TABLE_LEN && start != PAGESET_END && r != PAGESET_END
    requires IsNext(l2, pages, start / PAGE_SIZE, r) && Yields(l2, pages, r, w)
    ensures Yields(l2, pages, start, [start] + w)
  {
    hide IsNext;
    var v := [start] + w;
    forall i: nat | i < |v| ensures Hop(l2, pages, v, i, PAGESET_END) {
      if i > 0 { assert Hop(l2, pages, w, i - 1, PAGESET_END); }
    }
  }

  /** The loop goes upwards through pages of the set. */
  lemma {:induction false} YieldsAscend(l2: seq<bv32>, pages: set<nat>, start: nat, v: seq<nat>, i: nat, j: nat)
    requires |l2| == L2_TABLE_LEN && Yields(l2, pages, start, v) && i < j < |v|
    ensures v[i] / PAGE_SIZE < v[j] / PAGE_SIZE && v[i] < v[j] && v[j] % PAGE_SIZE == 0 && v[j] / PAGE_SIZE in pages
    decreases j
  {
    hide Bit;
    assert Hop(l2, pages, v, j - 1, PAGESET_END) && Hop(l2, pages, v, j, PAGESET_END);
    if i < j - 1 { YieldsAscend(l2, pages, start, v, i, j - 1); }
  }

  /** A page the loop has not passed yet is visited. */
  lemma {:induction false} PageVisited(l2: seq<bv32>, pages: set<nat>, start: nat, v: seq<nat>, i: nat, p: nat)
    requires |l2| == L2_TABLE_LEN && Yields(l2, pages, start, v) && Seen(l2, pages, start) && i < |v|
    requires p in pages && p < PAGE_COUNT && v[i] / PAGE_SIZE <= p
    ensures p * PAGE_SIZE in v
    decreases |v| - i
  {
    hide Bit;
    if i > 0 { YieldsAscend(l2, pages, start, v, 0, i); }
    if v[i] / PAGE_SIZE == p {
      assert v[i] == p * PAGE_SIZE;
    } else {
      assert Visible(l2, pages, v[i] / PAGE_SIZE, p);
      assert Hop(l2, pages, v, i, PAGESET_END);
      PageVisited(l2, pages, start, v, i + 1, p);
    }
  }

  lemma SeenIsComplete(l2: seq<bv32>, pages: set<nat>, start: nat, v: seq<nat>)
    requires |l2| == L2_TABLE_LEN && (forall p | p in pages :: p < PAGE_COUNT)
    requires Seen(l2, pages, start) && Yields(l2, pages, start, v)
    ensures Complete(v, pages)
  {
    hide Bit, IsNext;
    if v != [] { assert Hop(l2, pages, v, 0, PAGESET_END); }
    forall i, j | 0 <= i < j < |v| ensures v[i] < v[j] { YieldsAscend(l2, pages, start, v, i, j); }
    forall i | 0 <= i < |v| ensures v[i] % PAGE_SIZE == 0 && v[i] / PAGE_SIZE in pages {
      if i > 0 { YieldsAscend(l2, pages, start, v, 0, i); }
    }
    forall p | p in pages ensures p * PAGE_SIZE in v { PageVisited(l2, pages, start, v, 0, p); }
  }

  /** Only pages of the first word and of marked words are ever visited. */
  lemma {:induction false} VisitedIsMarked(l2: seq<bv32>, pages: set<nat>, start: nat, v: seq<nat>, i: nat)
    requires |l2| == L2_TABLE_LEN && Yields(l2, pages, start, v) && i < |v|
    ensures v[i] / PAGE_SIZE / BITVEC_SIZE == start / PAGE_SIZE / BITVEC_SIZE
            || (v[i] / PAGE_SIZE < PAGE_COUNT && Bit(l2, v[i] / PAGE_SIZE / BITVEC_SIZE))
  {
    hide Bit;
    if i > 0 {
      VisitedIsMarked(l2, pages, start, v, i - 1);
      assert Hop(l2, pages, v, i - 1, PAGESET_END) && Hop(l2, pages, v, i, PAGESET_END);
    }
  }

  /** A complete visit begins with the least page, whose address is not the end marker. */
  lemma CompleteStart(l2: seq<bv32>, pages: set<nat>, start: nat, v: seq<nat>, p: nat)
    requires |l2| == L2_TABLE_LEN && Yields(l2, pages, start, v) && Complete(v, pages) && p in pages
    ensures v != [] && start == v[0] != PAGESET_END && start % PAGE_SIZE == 0 && start / PAGE_SIZE in pages
    ensures start <= p * PAGE_SIZE
  {
    hide Bit, IsNext;
    var i :| 0 <= i < |v| && v[i] == p * PAGE_SIZE;
    assert Hop(l2, pages, v, 0, PAGESET_END);
    if i > 0 { assert v[0] < v[i]; }
  }

  lemma PageInComplete(l2: seq<bv32>, pages: set<nat>, start: nat, v: seq<nat>, p: nat)
    requires |l2| == L2_TABLE_LEN && Yields(l2, pages, start, v) && Complete(v, pages) && p in pages && p < PAGE_COUNT
    ensures p / BITVEC_SIZE == start / PAGE_SIZE / BITVEC_SIZE || Bit(l2, p / BITVEC_SIZE)
  {
    hide Bit, IsNext, Yields;
    var i :| 0 <= i < |v| && v[i] == p * PAGE_SIZE;
    assert p * PAGE_SIZE / PAGE_SIZE == p;
    VisitedIsMarked(l2, pages, start, v, i);
  }

  lemma NothingComplete(v: seq<nat>, pages: set<nat>)
    requires Complete(v, pages) && v != []
    ensures pages != {}
  {
    assert v[0] / PAGE_SIZE in pages;
  }

  lemma CompleteIsSeen(l2: seq<bv32>, pages: set<nat>, start: nat, v: seq<nat>)
    requires |l2| == L2_TABLE_LEN && Yields(l2, pages, start, v) && Complete(v, pages)
    ensures Seen(l2, pages, start)
  {
    hide Bit, IsNext, Yields, Complete, IsLeast;
    forall p | p in pages ensures p != 0 { CompleteStart(l2, pages, start, v, p); }
    forall p | p in pages && p < PAGE_COUNT
      ensures p / BITVEC_SIZE == start / PAGE_SIZE / BITVEC_SIZE || Bit(l2, p / BITVEC_SIZE)
    {
      PageInComplete(l2, pages, start, v, p);
    }
    LeastFirst(l2, pages, start, v);
  }

  lemma LeastFirst(l2: seq<bv32>, pages: set<nat>, start: nat, v: seq<nat>)
    requires |l2| == L2_TABLE_LEN && Yields(l2, pages, start, v) && Complete(v, pages)
    ensures IsLeast(pages, start)
  {
    hide Bit, IsNext, Yields, Complete;
    forall p | p in pages
      ensures start % PAGE_SIZE == 0 && start / PAGE_SIZE in pages && start / PAGE_SIZE <= p
    {
      CompleteStart(l2, pages, start, v, p);
    }
    if v != [] {
      NothingComplete(v, pages);
    } else {
      YieldsNothing(l2, pages, start);
      if p :| p in pages { CompleteStart(l2, pages, start, v, p); }
    }
  }

  lemma YieldsNothing(l2: seq<bv32>, pages: set<nat>, start: nat)
    requires |l2| == L2_TABLE_LEN && Yields(l2, pages, start, [])
    ensures start == PAGESET_END
  {}

  /** Iteration is exact if and only if it begins at the least page and every other word with a page
      is marked. */
  lemma ExactIff(l2: seq<bv32>, pages: set<nat>, start: nat)
    requires |l2| == L2_TABLE_LEN && forall p | p in pages :: p < PAGE_COUNT
    ensures ExactFrom(l2, pages, start) <==> Seen(l2, pages, start)
  {
    hide Bit, IsNext, Seen, Complete, Yields;
    if ExactFrom(l2, pages, start) {
      var v :| Yields(l2, pages, start, v) && Complete(v, pages);
      CompleteIsSeen(l2, pages, start, v);
    }
    if Seen(l2, pages, start) {
      var v := YieldsExists(l2, pages, start);
      SeenIsComplete(l2, pages, start, v);
    }
  }

  // ----- iteration after inserting and erasing

  /** No page of this word is left. */
  ghost predicate WordEmptied(pages: set<nat>, t: nat)
  {
    forall q | q in pages :: q / BITVEC_SIZE != t
  }

  /** The least page lies in this word. */
  ghost predicate LeastInWord(pages: set<nat>, t: nat)
  {
    exists p :: p in pages && p / BITVEC_SIZE == t && forall q | q in pages :: p <= q
  }

  /** An address inside the least page, but not its first, leaves the erased page on record. */
  predicate LeastKept(pages: set<nat>, least: nat, addr: nat)
  {
    addr % PAGE_SIZE == 0 || addr / PAGE_SIZE !in pages || addr / PAGE_SIZE * PAGE_SIZE != least
  }

  lemma UnmarkedBit(l2: seq<bv32>, t: nat)
    requires |l2| == L2_TABLE_LEN && t < WORDS
    ensures forall p: nat {:trigger Bit(Unmarked(l2, t), p / BITVEC_SIZE)} | p < PAGE_COUNT ::
              Bit(Unmarked(l2, t), p / BITVEC_SIZE) <==> p / BITVEC_SIZE != t && Bit(l2, p / BITVEC_SIZE)
  {
    hide Bit, ResetNth;
    forall p: nat | p < PAGE_COUNT
      ensures Bit(Unmarked(l2, t), p / BITVEC_SIZE) <==> p / BITVEC_SIZE != t && Bit(l2, p / BITVEC_SIZE)
    {
      BitReset(l2, t, p / BITVEC_SIZE);
    }
  }

  /** The page on record after erasing is the least one unless the address spoils it. */
  lemma ErasedLeast(l2: seq<bv32>, pages: set<nat>, addr: nat, least: nat, later: nat)
    requires |l2| == L2_TABLE_LEN && (forall p | p in pages :: p < PAGE_COUNT) && Seen(l2, pages, least)
    requires if addr == least then IsNext(l2, pages, addr / PAGE_SIZE, later) else later == least
    ensures IsLeast(pages - {addr / PAGE_SIZE}, later) <==> LeastKept(pages, least, addr)
  {
    hide Bit;
    var page: nat := addr / PAGE_SIZE;
    var rest := pages - {page};
    if addr == least {
      LeastAfter(l2, pages, page, later);
    } else if page !in pages {
      assert rest == pages;
    } else if page * PAGE_SIZE == least {
      assert least / PAGE_SIZE == page && page !in rest && least != 0;
    } else {
      assert least / PAGE_SIZE in rest;
    }
  }

  /** The next page after the least one is the least of the others. */
  lemma LeastAfter(l2: seq<bv32>, pages: set<nat>, page: nat, r: nat)
    requires |l2| == L2_TABLE_LEN && (forall p | p in pages :: page <= p < PAGE_COUNT) && IsNext(l2, pages, page, r)
    requires forall p | p in pages && p < PAGE_COUNT ::
      p / BITVEC_SIZE == page / BITVEC_SIZE || Bit(l2, p / BITVEC_SIZE)
    ensures IsLeast(pages - {page}, r)
  {
    hide Bit;
    var rest := pages - {page};
    forall p | p in rest ensures Visible(l2, pages, page, p) {
      assert p < PAGE_COUNT;
    }
    if r == PAGESET_END {
      NoneVisibleNone(l2, pages, page, rest);
    } else {
      assert r / PAGE_SIZE in rest;
    }
  }

  lemma NoneVisibleNone(l2: seq<bv32>, pages: set<nat>, cur: nat, rest: set<nat>)
    requires |l2| == L2_TABLE_LEN && (forall p | p in rest :: Visible(l2, pages, cur, p))
    requires forall p: nat :: !Visible(l2, pages, cur, p)
    ensures rest == {}
  {
    hide Visible;
  }

  /** After erasing from an exact state iteration is exact if and only if the right page is on
      record and the erased page's word is empty or holds the least page left. */
  lemma ErasedSeen(l2: seq<bv32>, pages: set<nat>, addr: nat, least: nat, later: nat)
    requires |l2| == L2_TABLE_LEN && (forall p | p in pages :: p < PAGE_COUNT) && Seen(l2, pages, least)
    requires addr < 0x1_0000_0000
    requires if addr == least then IsNext(l2, pages, addr / PAGE_SIZE, later) else later == least
    ensures var t, rest := addr / PAGE_SIZE / BITVEC_SIZE, pages - {addr / PAGE_SIZE};
      Seen(Unmarked(l2, t), rest, later) <==>
      LeastKept(pages, least, addr) && (WordEmptied(rest, t) || LeastInWord(rest, t))
  {
    hide Bit, LeastKept, IsNext, Unmarked;
    var t, page := addr / PAGE_SIZE / BITVEC_SIZE, addr / PAGE_SIZE;
    var rest := pages - {page};
    ErasedLeast(l2, pages, addr, least, later);
    if LeastKept(pages, least, addr) {
      UnmarkedBit(l2, t);
      if rest != {} {
        var m := later / PAGE_SIZE;
        assert m in rest && m in pages && forall q | q in rest :: m <= q;
        assert forall p | p in pages :: least / PAGE_SIZE <= p < PAGE_COUNT;
        assert LeastInWord(rest, t) <==> m / BITVEC_SIZE == t;
        assert forall q | q in pages && q != page :: q in rest;
        ErasedOthers(l2, pages, page, least / PAGE_SIZE, m);
      }
    }
  }

  /** Outside its own word the least page left keeps finding what was found before. */
  lemma ErasedOthers(l2: seq<bv32>, pages: set<nat>, page: nat, least: nat, m: nat)
    requires |l2| == L2_TABLE_LEN && (forall p | p in pages :: least <= p < PAGE_COUNT) && page < PAGE_COUNT
    requires forall p | p in pages && p < PAGE_COUNT ::
      p / BITVEC_SIZE == least / BITVEC_SIZE || Bit(l2, p / BITVEC_SIZE)
    requires least in pages && m in pages && m != page && forall q | q in pages && q != page :: m <= q
    ensures forall p | p in pages && p != page && p < PAGE_COUNT ::
      p / BITVEC_SIZE == m / BITVEC_SIZE || Bit(l2, p / BITVEC_SIZE)
  {
    hide Bit;
    if least == page {
      forall p | p in pages && p != page && p / BITVEC_SIZE == least / BITVEC_SIZE
        ensures p / BITVEC_SIZE == m / BITVEC_SIZE
      {
        assert least <= m <= p;
      }
    } else {
      assert m == least;
    }
  }

  lemma MarkedBit(l2: seq<bv32>, t: nat)
    requires |l2| == L2_TABLE_LEN && t < WORDS
    ensures forall p: nat {:trigger Bit(Marked(l2, t), p / BITVEC_SIZE)} | p < PAGE_COUNT ::
              Bit(Marked(l2, t), p / BITVEC_SIZE) <==> p / BITVEC_SIZE == t || Bit(l2, p / BITVEC_SIZE)
  {
    hide Bit, SetNth;
    forall p: nat | p < PAGE_COUNT
      ensures Bit(Marked(l2, t), p / BITVEC_SIZE) <==> p / BITVEC_SIZE == t || Bit(l2, p / BITVEC_SIZE)
    {
      BitSet(l2, t, p / BITVEC_SIZE);
    }
  }

  /** A page that would come before the least one's word hides that word if it is not marked. */
  predicate Hides(l2: seq<bv32>, pages: set<nat>, least: nat, page: nat)
    requires |l2| == L2_TABLE_LEN && least < 0x1_0000_0000
  {
    pages != {} && page / BITVEC_SIZE < least / PAGE_SIZE / BITVEC_SIZE
    && !GetNth(l2[least / PAGE_SIZE / BITVEC_SIZE / BITVEC_SIZE], least / PAGE_SIZE / BITVEC_SIZE % BITVEC_SIZE)
  }

  /** After inserting into an exact state iteration is exact if and only if the page is not page 0
      and does not hide the least page's word. */
  lemma InsertedSeen(l2: seq<bv32>, pages: set<nat>, page: nat, least: nat, later: nat)
    requires |l2| == L2_TABLE_LEN && (forall p | p in pages :: p < PAGE_COUNT) && Seen(l2, pages, least)
    requires page < PAGE_COUNT && least < 0x1_0000_0000
    requires later == if page * PAGE_SIZE < least || least == PAGESET_END then page * PAGE_SIZE else least
    ensures Seen(Marked(l2, page / BITVEC_SIZE), pages + {page}, later) <==> page != 0 && !Hides(l2, pages, least, page)
  {
    hide Bit, Marked, Hides, GetNth;
    var t, more, first := page / BITVEC_SIZE, pages + {page}, least / PAGE_SIZE;
    MarkedBit(l2, t);
    HidesBit(l2, pages, least, page);
    assert page * PAGE_SIZE / PAGE_SIZE == page && page * PAGE_SIZE % PAGE_SIZE == 0;
    if page != 0 {
      if pages == {} {
        assert more == {page};
      } else {
        assert first in pages && first * PAGE_SIZE == least;
        assert later / PAGE_SIZE == if page < first then page else first;
        InsertedOthers(l2, pages, page, first);
      }
    }
  }

  lemma HidesBit(l2: seq<bv32>, pages: set<nat>, least: nat, page: nat)
    requires |l2| == L2_TABLE_LEN && least < 0x1_0000_0000
    ensures Hides(l2, pages, least, page) <==>
            pages != {} && page / BITVEC_SIZE < least / PAGE_SIZE / BITVEC_SIZE
              && !Bit(l2, least / PAGE_SIZE / BITVEC_SIZE)
  {}

  lemma InsertedOthers(l2: seq<bv32>, pages: set<nat>, page: nat, first: nat)
    requires |l2| == L2_TABLE_LEN && (forall p | p in pages :: first <= p < PAGE_COUNT) && first in pages
    requires page < PAGE_COUNT
    requires forall p | p in pages && p < PAGE_COUNT ::
      p / BITVEC_SIZE == first / BITVEC_SIZE || Bit(l2, p / BITVEC_SIZE)
    ensures var m := if page < first then page else first;
      (forall p | p in pages + {page} && p < PAGE_COUNT ::
         p / BITVEC_SIZE == m / BITVEC_SIZE || p / BITVEC_SIZE == page / BITVEC_SIZE || Bit(l2, p / BITVEC_SIZE)) <==>
      !(page / BITVEC_SIZE < first / BITVEC_SIZE && !Bit(l2, first / BITVEC_SIZE))
  {
    hide Bit;
    if page / BITVEC_SIZE < first / BITVEC_SIZE {
      assert first in pages + {page};
    }
  }

  class PageSet {
    const tblL1: array<bv32>
    const tblL2: array<bv32>
    var minaddr: nat
    var count: nat
    ghost var pages: set<nat>

    ghost predicate Shape()
    {
      tblL1.Length == L1_TABLE_LEN && tblL2.Length == L2_TABLE_LEN && tblL1 != tblL2
    }

    /** The tables and the count are those of the set of pages. */
    ghost predicate Valid()
      reads this, tblL1, tblL2
    {
      Shape() && TablesOk(tblL1[..], tblL2[..], pages) && count == |pages| && minaddr < 0x1_0000_0000
    }

    /** Iteration by begin and next is exact. */
    ghost predicate Exact()
      requires Shape()
      reads this, tblL2
    {
      ExactFrom(tblL2[..], pages, minaddr)
    }

    /** What runs of clear and insert keep: every word with a page marked and the least page on
        record. */
    ghost predicate Iterable()
      requires Shape()
      reads this, tblL2
    {
      Summarized(tblL2[..], pages) && 0 !in pages && IsLeast(pages, minaddr)
    }

    /** A page before the least page's word, which is not marked, would hide that word. */
    ghost predicate HidesLeast(page: nat)
      requires Shape() && minaddr < 0x1_0000_0000
      reads this, tblL2
    {
      Hides(tblL2[..], pages, minaddr, page)
    }

    lemma IterableIsExact()
      requires Valid() && Iterable()
      ensures Exact()
    {
      hide Bit;
      ExactIff(tblL2[..], pages, minaddr);
    }

    constructor ()
      ensures Shape() && fresh(tblL1) && fresh(tblL2)
    {
      tblL1, tblL2 := new bv32[L1_TABLE_LEN], new bv32[L2_TABLE_LEN];
    }

    method Clear()
      requires Shape()
      modifies this, tblL1, tblL2
      ensures Valid() && Iterable() && Exact() && pages == {}
    {
      forall i | 0 <= i < tblL1.Length { tblL1[i] := 0; }
      forall i | 0 <= i < tblL2.Length { tblL2[i] := 0; }
      minaddr, count, pages := PAGESET_END, 0, {};
      hide GetNth;
      NoneInZero();
      IterableIsExact();
    }

    /** Inserting is exact on the set; on runs of clear and insert iteration is exact as long as
        page 0 is left alone. */
    method Insert(addr: nat)
      requires Valid() && addr < 0x1_0000_0000
      modifies this, tblL1, tblL2
      ensures Valid() && pages == old(pages) + {addr / PAGE_SIZE}
      ensures old(Exact()) ==> (Exact() <==> addr / PAGE_SIZE != 0 && !old(HidesLeast(addr / PAGE_SIZE)))
      ensures old(Iterable()) && addr / PAGE_SIZE != 0 ==> Iterable()
      ensures tblL2[..] == old(Marked(tblL2[..], addr / PAGE_SIZE / BITVEC_SIZE))
      ensures minaddr == if addr / PAGE_SIZE * PAGE_SIZE < old(minaddr) || old(minaddr) == PAGESET_END
                         then addr / PAGE_SIZE * PAGE_SIZE else old(minaddr)
    {
      hide GetNth, SetNth, TablesOk, Summarized, Seen, Hides, IsLeast, ExactFrom;
      ghost var l1, l2 := tblL1[..], tblL2[..];
      var page: nat := addr / PAGE_SIZE;
      assert addr % PAGE_SIZE <= addr;
      var base: nat := addr - addr % PAGE_SIZE;
      InsertedTables(l1, l2, pages, page);
      var idx := page % BITVEC_SIZE;
      var tag: nat := page / BITVEC_SIZE;
      var org := GetNth(tblL1[tag], idx);
      PageBit(l1, l2, pages, page);
      tblL1[tag] := SetNth(tblL1[tag], idx);
      var idx2 := tag % BITVEC_SIZE;
      var tag2 := tag / BITVEC_SIZE;
      tblL2[tag2] := SetNth(tblL2[tag2], idx2);
      assert tblL1[..] == Marked(l1, page) && tblL2[..] == Marked(l2, tag);
      if base < minaddr || minaddr == PAGESET_END {
        minaddr := base;
      }
      if !org { count := count + 1; }
      pages := pages + {page};
      assert base / PAGE_SIZE == page && base == page * PAGE_SIZE;
      InsertedState(l1, l2, old(pages), page, old(minaddr), minaddr);
    }

    /** Erasing is exact on the set; the least page is moved on only when the address is the very
        one on record. */
    method Erase(addr: nat)
      requires Valid() && addr < 0x1_0000_0000
      modifies this, tblL1, tblL2
      ensures Valid() && pages == old(pages) - {addr / PAGE_SIZE}
      ensures old(Exact()) ==>
                (Exact() <==> LeastKept(old(pages), old(minaddr), addr)
                              && (WordEmptied(pages, addr / PAGE_SIZE / BITVEC_SIZE)
                                || LeastInWord(pages, addr / PAGE_SIZE / BITVEC_SIZE)))
      ensures tblL2[..] == old(Unmarked(tblL2[..], addr / PAGE_SIZE / BITVEC_SIZE))
      ensures if addr == old(minaddr) then IsNext(old(tblL2[..]), old(pages), addr / PAGE_SIZE, minaddr)
              else minaddr == old(minaddr)
    {
      hide GetNth, ResetNth, TablesOk, Seen, ExactFrom, IsNext, Bit, IsLeast, WordEmptied, LeastInWord, LeastKept;
      ghost var l1, l2 := tblL1[..], tblL2[..];
      if addr == minaddr {
        minaddr := Next(minaddr);
      }
      var page: nat := addr / PAGE_SIZE;
      ErasedTables(l1, l2, pages, page);
      var idx := page % BITVEC_SIZE;
      var tag: nat := page / BITVEC_SIZE;
      var org := GetNth(tblL1[tag], idx);
      PageBit(l1, l2, pages, page);
      tblL1[tag] := ResetNth(tblL1[tag], idx);
      var idx2 := tag % BITVEC_SIZE;
      var tag2 := tag / BITVEC_SIZE;
      tblL2[tag2] := ResetNth(tblL2[tag2], idx2);
      assert tblL1[..] == Unmarked(l1, page) && tblL2[..] == Unmarked(l2, tag);
      if org {
        assert page in pages;
        assert |pages| > 0;
        count := count - 1;
      }
      pages := pages - {page};
      ErasedState(l1, l2, old(pages), addr, old(minaddr), minaddr);
    }

    method Contains(addr: nat) returns (r: bool)
      requires Valid() && addr < 0x1_0000_0000
      ensures r <==> addr / PAGE_SIZE in pages
    {
      hide GetNth, TablesOk;
      var pgnum: nat := addr / PAGE_SIZE;
      PageBit(tblL1[..], tblL2[..], pages, pgnum);
      var idx := pgnum % BITVEC_SIZE;
      var tag := pgnum / BITVEC_SIZE;
      r := GetNth(tblL1[tag], idx);
    }

    method Size() returns (n: nat)
      requires Valid()
      ensures n == |pages|
    {
      n := count;
    }

    method Begin() returns (r: nat)
      ensures r == minaddr
    {
      r := minaddr;
    }

    /** The bit found from a given place on, or none. */
    method FindNonZeroIdx(bvec: bv32, from: nat) returns (found: bool, i: nat)
      requires from <= BITVEC_SIZE
      ensures found ==> from <= i < BITVEC_SIZE && GetNth(bvec, i) && forall k | from <= k < i :: !GetNth(bvec, k)
      ensures !found ==> forall k | from <= k < BITVEC_SIZE :: !GetNth(bvec, k)
    {
      hide GetNth;
      i := from;
      while i < BITVEC_SIZE
        invariant from <= i <= BITVEC_SIZE && forall k | from <= k < i :: !GetNth(bvec, k)
      {
        if GetNth(bvec, i) { return true, i; }
        i := i + 1;
      }
      found := false;
    }

    method FindNonZeroL2Entry(from: nat) returns (found: bool, i: nat)
      requires Shape() && from <= L2_TABLE_LEN
      ensures found ==> from <= i < L2_TABLE_LEN && tblL2[i] != 0 && forall k | from <= k < i :: tblL2[k] == 0
      ensures !found ==> forall k | from <= k < L2_TABLE_LEN :: tblL2[k] == 0
    {
      i := from;
      while i < L2_TABLE_LEN
        invariant from <= i <= L2_TABLE_LEN && forall k | from <= k < i :: tblL2[k] == 0
      {
        if tblL2[i] != 0 { return true, i; }
        i := i + 1;
      }
      found := false;
    }

    /** The first page after cur that the two levels show. */
    method Next(cur: nat) returns (r: nat)
      requires Valid() && cur < 0x1_0000_0000
      ensures IsNext(tblL2[..], pages, cur / PAGE_SIZE, r) && r < 0x1_0000_0000
    {
      hide GetNth, TablesOk, IsNext;
      ghost var l1, l2 := tblL1[..], tblL2[..];
      var pgnum: nat := cur / PAGE_SIZE;
      var tagL1: nat := pgnum / BITVEC_SIZE;
      var idxL1 := pgnum % BITVEC_SIZE;
      var found, nidxL1 := FindNonZeroIdx(tblL1[tagL1], idxL1 + 1);
      if found {
        r := (tagL1 * BITVEC_SIZE + nidxL1) * PAGE_SIZE;
        NextInWord(l1, l2, pages, pgnum, nidxL1);
      } else {
        var tagL2: nat := tagL1 / BITVEC_SIZE;
        var idxL2 := tagL1 % BITVEC_SIZE;
        var ntagL1: nat;
        var found2, nidxL2 := FindNonZeroIdx(tblL2[tagL2], idxL2 + 1);
        if found2 {
          ntagL1 := tagL2 * BITVEC_SIZE + nidxL2;
          FirstMarked(l1, l2, pages, tagL1, nidxL2);
        } else {
          var found3, ntagL2 := FindNonZeroL2Entry(tagL2 + 1);
          if !found3 {
            NoneVisible(l1, l2, pages, pgnum);
            return PAGESET_END;
          }
          ZeroVector(tblL2[ntagL2]);
          var found4, k := FindNonZeroIdx(tblL2[ntagL2], 0);
          ntagL1 := ntagL2 * BITVEC_SIZE + k;
          FirstMarkedLater(l1, l2, pages, tagL1, ntagL2, k);
        }
        assert ntagL1 < L1_TABLE_LEN && tblL1[ntagL1] == l1[ntagL1];
        ZeroVector(tblL1[ntagL1]);
        var found5, n := FindNonZeroIdx(tblL1[ntagL1], 0);
        r := (ntagL1 * BITVEC_SIZE + n) * PAGE_SIZE;
        NextWord(l1, l2, pages, pgnum, ntagL1, n);
      }
    }

    /** The loop from begin through next to end: it ends, and what it visits is complete, each page
        once and in ascending order, if and only if iteration is exact. */
    method Visit() returns (visited: seq<nat>)
      requires Valid()
      ensures Yields(tblL2[..], pages, minaddr, visited)
      ensures Complete(visited, pages) <==> Exact()
    {
      hide GetNth, TablesOk, Bit, IsNext;
      visited := [];
      var it: nat := Begin();
      while it != PAGESET_END
        invariant it < 0x1_0000_0000 && Trail(tblL2[..], pages, minaddr, visited, it)
        decreases if it == PAGESET_END then 0
                  else 1 + if it / PAGE_SIZE < PAGE_COUNT then PAGE_COUNT - it / PAGE_SIZE else 0
      {
        ghost var cur, was := it, visited;
        visited := visited + [it];
        it := Next(it);
        TrailGrows(tblL2[..], pages, minaddr, was, cur, it);
        NextLater(tblL2[..], pages, cur / PAGE_SIZE, it);
      }
      VisitedIsExact(tblL2[..], pages, minaddr, visited);
    }
  }

  lemma TrailGrows(l2: seq<bv32>, pages: set<nat>, start: nat, visited: seq<nat>, cur: nat, it: nat)
    requires |l2| == L2_TABLE_LEN && Trail(l2, pages, start, visited, cur) && cur != PAGESET_END
    requires IsNext(l2, pages, cur / PAGE_SIZE, it)
    ensures Trail(l2, pages, start, visited + [cur], it)
  {
    hide IsNext;
    var more := visited + [cur];
    forall i: nat | i < |more| ensures Hop(l2, pages, more, i, it) {
      if i < |visited| { assert Hop(l2, pages, visited, i, cur); }
    }
  }

  lemma NextLater(l2: seq<bv32>, pages: set<nat>, cur: nat, it: nat)
    requires |l2| == L2_TABLE_LEN && IsNext(l2, pages, cur, it)
    ensures it != PAGESET_END ==> cur < it / PAGE_SIZE < PAGE_COUNT
  {
    hide Bit;
  }

  lemma VisitedIsExact(l2: seq<bv32>, pages: set<nat>, start: nat, visited: seq<nat>)
    requires |l2| == L2_TABLE_LEN && Yields(l2, pages, start, visited)
    ensures Complete(visited, pages) <==> ExactFrom(l2, pages, start)
  {
    hide IsNext, Yields, Complete;
    if ExactFrom(l2, pages, start) {
      var v :| Yields(l2, pages, start, v) && Complete(v, pages);
      YieldsUnique(l2, pages, start, v, visited);
    }
  }

  lemma NotSummarized(l2: seq<bv32>, pages: set<nat>, t: nat, p: nat)
    requires |l2| == L2_TABLE_LEN && t < WORDS && p in pages && p < PAGE_COUNT && p / BITVEC_SIZE == t
    ensures !Summarized(Unmarked(l2, t), pages)
  {
    hide Bit, Unmarked;
    UnmarkedBit(l2, t);
    assert !Bit(Unmarked(l2, t), p / BITVEC_SIZE);
  }

  lemma UnmarkedHides(l2: seq<bv32>, pages: set<nat>, t: nat, least: nat, page: nat)
    requires |l2| == L2_TABLE_LEN && pages != {} && least < 0x1_0000_0000 && least / PAGE_SIZE / BITVEC_SIZE == t
    ensures page / BITVEC_SIZE < t ==> Hides(Unmarked(l2, t), pages, least, page)
  {
    BitReset(l2, t, t);
    hide Hides, Unmarked;
    HidesBit(Unmarked(l2, t), pages, least, page);
    assert !Bit(Unmarked(l2, t), t);
  }

  // ----- runs

  /** Erasing page 3 from pages 1 to 3 unmarks their word, and yet iteration stays exact: the least
      page is in that word, where the search finds the rest without the second level. */
  method EraseStaysExact() returns (s: PageSet)
    ensures s.Valid() && s.pages == {1, 2} && s.Exact() && !s.Iterable()
  {
    hide TablesOk, ExactFrom, Marked, Unmarked;
    s := new PageSet();
    s.Clear();
    s.Insert(0x1000);
    s.Insert(0x2000);
    s.Insert(0x3000);
    s.IterableIsExact();
    ghost var was := s.tblL2[..];
    s.Erase(0x3000);
    assert 1 in s.pages && 1 / BITVEC_SIZE == 0 && forall q | q in s.pages :: 1 <= q;
    NotSummarized(was, s.pages, 0, 1);
  }

  /** Erasing page 33 from pages 1, 32 and 33 hides page 32, which is in a later word. */
  method EraseLosesPage() returns (s: PageSet)
    ensures s.Valid() && s.pages == {1, 32} && !s.Exact()
  {
    hide TablesOk, ExactFrom, Marked, Unmarked;
    s := new PageSet();
    s.Clear();
    s.Insert(0x1000);
    s.Insert(0x20000);
    s.Insert(0x21000);
    s.IterableIsExact();
    s.Erase(0x21000);
    assert 32 in s.pages && 32 / BITVEC_SIZE == 1;
  }

  /** Inserting page 1 before pages 32 and 33 hides them once erasing page 34 has unmarked their word. */
  method InsertLosesPages() returns (s: PageSet)
    ensures s.Valid() && s.pages == {1, 32, 33} && !s.Exact()
  {
    hide TablesOk, ExactFrom, Marked, Unmarked, Hides, Summarized;
    s := WordUnmarked();
    s.Insert(0x1000);
  }

  /** Erasing page 34 from pages 32 to 34 leaves their word unmarked. */
  method WordUnmarked() returns (s: PageSet)
    ensures fresh(s) && fresh(s.tblL1) && fresh(s.tblL2)
    ensures s.Valid() && s.pages == {32, 33} && s.Exact() && s.HidesLeast(1)
  {
    hide TablesOk, ExactFrom, Marked, Unmarked, Hides, Summarized;
    s := new PageSet();
    s.Clear();
    s.Insert(0x20000);
    s.Insert(0x21000);
    s.Insert(0x22000);
    s.IterableIsExact();
    ghost var was := s.tblL2[..];
    s.Erase(0x22000);
    UnmarkedHides(was, s.pages, 1, s.minaddr, 1);
    assert 32 in s.pages && 32 / BITVEC_SIZE == 1 && forall q | q in s.pages :: 32 <= q;
  }

  // ----- the class's steps on the tables

  lemma InsertedState(l1: seq<bv32>, l2: seq<bv32>, pages: set<nat>, page: nat, least: nat, later: nat)
    requires TablesOk(l1, l2, pages) && page < PAGE_COUNT && least < 0x1_0000_0000
    requires later == if page * PAGE_SIZE < least || least == PAGESET_END then page * PAGE_SIZE else least
    ensures var m2, more := Marked(l2, page / BITVEC_SIZE), pages + {page};
      && (ExactFrom(l2, pages, least) ==> (ExactFrom(m2, more, later) <==> page != 0 && !Hides(l2, pages, least, page)))
      && (Summarized(l2, pages) && 0 !in pages && IsLeast(pages, least) && page != 0
        ==> IsLeast(more, later) && 0 !in more)
  {
    var m2, more := Marked(l2, page / BITVEC_SIZE), pages + {page};
    MarkedBit(l2, page / BITVEC_SIZE);
    BitSet(l2, page / BITVEC_SIZE, page / BITVEC_SIZE);
    assert page * PAGE_SIZE / PAGE_SIZE == page && page * PAGE_SIZE % PAGE_SIZE == 0;
    assert forall p | p in more :: p < PAGE_COUNT;
    hide Bit, Hides, Marked;
    ExactIff(l2, pages, least);
    ExactIff(m2, more, later);
    if Seen(l2, pages, least) { InsertedSeen(l2, pages, page, least, later); }
  }

  lemma ErasedState(l1: seq<bv32>, l2: seq<bv32>, pages: set<nat>, addr: nat, least: nat, later: nat)
    requires TablesOk(l1, l2, pages) && addr < 0x1_0000_0000
    requires if addr == least then IsNext(l2, pages, addr / PAGE_SIZE, later) else later == least
    ensures var t, rest := addr / PAGE_SIZE / BITVEC_SIZE, pages - {addr / PAGE_SIZE};
      && (ExactFrom(l2, pages, least) ==>
            (ExactFrom(Unmarked(l2, t), rest, later) <==>
             LeastKept(pages, least, addr) && (WordEmptied(rest, t) || LeastInWord(rest, t))))
  {
    var t, rest := addr / PAGE_SIZE / BITVEC_SIZE, pages - {addr / PAGE_SIZE};
    hide Bit, LeastKept, WordEmptied, LeastInWord, IsNext, Unmarked, Seen, ExactFrom;
    ExactIff(l2, pages, least);
    ExactIff(Unmarked(l2, t), rest, later);
    if Seen(l2, pages, least) { ErasedSeen(l2, pages, addr, least, later); }
  }
}
