/** Growing the heap by a fresh run of pages behind the last chunk. */
module HeapGrowth {
  import opened Chunks
  import opened HeapLayout
  import opened HeapSteps

  lemma ExtendedAt(h: Heap, n: nat, a: nat)
    requires h.Tiled() && h.chunks != {} && n % 2 == 0
    ensures h.Extended(n).At(a) == if a == h.last then h.At(a).(size := h.At(a).size + n, inUse := false) else h.At(a)
  {
    ChunkFits(h, h.last);
  }

  lemma ExtendedTiled(h: Heap, n: nat)
    requires h.Tiled() && h.chunks != {} && n % 2 == 0
    ensures h.Extended(n).Tiled()
  {
    hide Heap.Extended, Heap.At, Heap.Fits;
    var g := h.Extended(n);
    ExtendedShape(h, n);
    forall c | c in g.chunks ensures g.Fits(c) { ExtendedFits(h, n, c); }
    forall c, d | c in g.chunks && d in g.chunks ensures g.Apart(c, d) {
      ChunksApart(h, c, d);
      Neighbours(h, d);
      ExtendedAt(h, n, c);
    }
  }

  lemma LastEnds(h: Heap)
    requires h.Tiled() && h.last in h.chunks
    ensures h.Next(h.last) == h.end
  {
    ChunkFits(h, h.last);
  }

  lemma ExtendedFits(h: Heap, n: nat, c: nat)
    requires h.Tiled() && h.chunks != {} && n % 2 == 0 && c in h.chunks
    ensures h.Extended(n).Fits(c)
  {
    hide Heap.Extended, Heap.At, Heap.Tiled;
    ExtendedShape(h, n);
    ChunkFits(h, c);
    Neighbours(h, c);
    ExtendedAt(h, n, c);
    ExtendedAt(h, n, h.Next(c));
    if c != HEAP_START {
      ExtendedAt(h, n, Left(h, c));
      Neighbours(h, Left(h, c));
    }
  }

  lemma ExtendedShape(h: Heap, n: nat)
    requires h.Tiled() && h.chunks != {}
    ensures var g := h.Extended(n);
      g.(m := h.m, end := h.end) == h && g.end == h.end + n && forall a | a in g.m :: a < g.end
  {
    Neighbours(h, h.last);
  }

  lemma ExtendedStep(h: Heap, n: nat, held: set<nat>)
    requires h.Wf(held) && h.last in held && n % 2 == 0 && Alone(h, h.last)
    ensures var g := h.Extended(n);
      g.Wf(held) && Alone(g, h.last) && Others(g, held) == Others(h, held) && !g.At(h.last).inUse
      && g.At(h.last).size == h.At(h.last).size + n
      && forall c | c in Others(h, held) :: g.At(c).size == h.At(c).size
  {
    hide Heap.Extended, Heap.Linked, Heap.Ordered, Heap.Fits, Heap.Apart, Heap.At;
    var g := h.Extended(n);
    ExtendedTiled(h, n);
    ExtendedShape(h, n);
    forall a: nat
      ensures g.At(a).bin == h.At(a).bin && g.At(a).fd == h.At(a).fd && g.At(a).bk == h.At(a).bk
      ensures a != h.last ==> g.At(a) == h.At(a)
    {
      ExtendedAt(h, n, a);
    }
    assert SameLinks(h, g);
    ChainedByLinks(h, g);
    StillMerged(h, g);
    RolesSame(h, g, h.last, held);
    ExtendedAt(h, n, h.last);
    Neighbours(g, g.last);
    LastEnds(g);
    assert g.Next(g.last) == g.end;
    if g.end in g.chunks { ChunkFits(g, g.end); }
  }

  lemma RolesSame(h: Heap, g: Heap, c: nat, held: set<nat>)
    requires h.Roles(held) && c in held && g.chunks == h.chunks && g.listed == h.listed
    requires forall a | a in h.chunks && a != c :: g.At(a).inUse == h.At(a).inUse
    ensures g.Roles(held)
  {
    hide Heap.At;
  }

  lemma AppendedAt(h: Heap, n: nat, a: nat)
    requires h.Tiled() && n % 2 == 0
    ensures h.Appended(n).At(a) ==
            if a == h.end then Blank.(prevSize := if h.last == NULL then 0 else h.At(h.last).size, size := n)
            else h.At(a)
  {}

  lemma AppendedShape(h: Heap, n: nat)
    requires h.Tiled() && n > 0
    ensures var g := h.Appended(n);
      g.heads == h.heads && g.sizes == h.sizes && g.listed == h.listed && g.stamp == h.stamp && g.clock == h.clock
      && g.last == h.end && g.end == h.end + n && g.chunks == h.chunks + {h.end} && forall a | a in g.m :: a < g.end
  {}

  lemma EndFresh(h: Heap)
    requires h.Tiled()
    ensures h.end !in h.chunks && HEAP_START <= h.end && (h.chunks == {} <==> h.last == NULL)
    ensures h.last != NULL ==> h.last in h.chunks && h.Next(h.last) == h.end
  {
    if h.last in h.chunks { Neighbours(h, h.last); ChunkFits(h, h.last); }
    if h.end in h.chunks { Neighbours(h, h.end); }
  }

  lemma AppendedTiled(h: Heap, n: nat)
    requires h.Tiled() && n % 2 == 0 && n >= MIN_CHUNK_SIZE
    ensures h.Appended(n).Tiled()
  {
    hide Heap.Appended, Heap.At, Heap.Fits, Heap.Apart;
    var g := h.Appended(n);
    AppendedShape(h, n);
    EndFresh(h);
    forall c | c in g.chunks ensures g.Fits(c) { AppendedFits(h, n, c); }
    forall c, d | c in g.chunks && d in g.chunks ensures g.Apart(c, d) { AppendedApart(h, n, c, d); }
    if h.chunks == {} { assert g.last == HEAP_START; }
  }

  lemma AppendedFits(h: Heap, n: nat, c: nat)
    requires h.Tiled() && n % 2 == 0 && n >= MIN_CHUNK_SIZE && c in h.Appended(n).chunks
    ensures h.Appended(n).Fits(c)
  {
    hide Heap.Appended, Heap.At, Heap.Tiled;
    AppendedShape(h, n);
    EndFresh(h);
    AppendedAt(h, n, c);
    AppendedAt(h, n, h.end);
    if h.last != NULL { Neighbours(h, h.last); AppendedAt(h, n, h.last); }
    if h.last == NULL { EmptyEnd(h); }
    if c in h.chunks {
      ChunkFits(h, c);
      Neighbours(h, c);
      AppendedAt(h, n, h.Next(c));
      if c != HEAP_START { AppendedAt(h, n, Left(h, c)); Neighbours(h, Left(h, c)); }
    }
  }

  lemma EmptyEnd(h: Heap)
    requires h.Tiled() && h.last == NULL
    ensures h.end == HEAP_START
  {
    EndFresh(h);
  }

  lemma AppendedApart(h: Heap, n: nat, c: nat, d: nat)
    requires h.Tiled() && n % 2 == 0 && n >= MIN_CHUNK_SIZE && c in h.Appended(n).chunks && d in h.Appended(n).chunks
    ensures h.Appended(n).Apart(c, d)
  {
    hide Heap.Appended, Heap.At, Heap.Tiled;
    AppendedShape(h, n);
    EndFresh(h);
    AppendedAt(h, n, c);
    if c in h.chunks { Neighbours(h, c); }
    if d in h.chunks { Neighbours(h, d); }
    if c in h.chunks && d in h.chunks { ChunksApart(h, c, d); }
  }

  lemma AppendedStep(h: Heap, n: nat)
    requires h.Wf({}) && n % 2 == 0 && n >= MIN_CHUNK_SIZE && (h.last == NULL || h.At(h.last).inUse)
    ensures var g := h.Appended(n);
      g.Wf({h.end}) && Alone(g, h.end) && Others(g, {h.end}) == Others(h, {}) && !g.At(h.end).inUse
      && g.At(h.end).size == n
      && forall c | c in Others(h, {}) :: g.At(c).size == h.At(c).size
  {
    hide Heap.Appended, Heap.Linked, Heap.Ordered, Heap.Fits, Heap.Apart, Heap.At;
    var g := h.Appended(n);
    AppendedTiled(h, n);
    AppendedShape(h, n);
    EndFresh(h);
    AppendedAt(h, n, h.end);
    forall a: nat | a != h.end ensures g.At(a) == h.At(a) { AppendedAt(h, n, a); }
    AppendedChained(h, g);
    StillMerged(h, g);
    AppendedRoles(h, g);
    Neighbours(g, h.end);
    assert g.Next(h.end) == g.end && g.end !in g.listed by {
      if g.end in g.chunks { ChunkFits(g, g.end); }
    }
    if h.end != HEAP_START {
      assert Left(g, h.end) == h.last;
    }
  }

  lemma AppendedRoles(h: Heap, g: Heap)
    requires h.Roles({}) && h.end !in h.chunks && g.chunks == h.chunks + {h.end} && g.listed == h.listed
    requires forall a: nat | a != h.end :: g.At(a) == h.At(a)
    ensures g.Roles({h.end})
  {
    hide Heap.At;
    assert g.listed !! {h.end};
    forall c | c in g.chunks && c !in {h.end} ensures g.At(c).inUse <==> c !in g.listed {
      assert c in h.chunks && c !in {};
    }
  }

  lemma AppendedChained(h: Heap, g: Heap)
    requires h.Chained() && g.heads == h.heads && g.listed == h.listed && g.stamp == h.stamp && g.clock == h.clock
    requires h.end !in h.listed && forall a: nat | a != h.end :: g.At(a) == h.At(a)
    ensures g.Chained()
  {
    hide Heap.At;
    forall c | c in g.listed ensures g.Linked(c) { ChunkLinked(h, c); }
    forall c, d | c in g.listed && d in g.listed ensures g.Ordered(c, d) {
      ChunkLinked(h, c);
      ChunksOrdered(h, c, d);
    }
  }

  /** Taking the fresh chunk while the last-chunk pointer still lags behind: the pointer catches up
      exactly when the chunk is cut. */
  lemma TakenBehind(h: Heap, behind: nat, n: nat, b: nat)
    requires h.Tiled() && h.last != NULL && behind < h.last && 0 < n && b <= MAX_BIN_INDEX
    requires |h.heads| == |h.sizes| == MAX_BIN_INDEX + 1
    requires n <= h.At(h.last).size && h.Unlink(h.last, b).At(h.last).size == h.At(h.last).size
    ensures h.(last := behind).Unlink(h.last, b).At(h.last).size == h.At(h.last).size
    ensures var g, k := h.Taken(h.last, n, b), h.(last := behind).Taken(h.last, n, b);
      k == if h.At(h.last).size >= n + MIN_CHUNK_SIZE then g else g.(last := behind)
  {
    hide Heap.Unlink, Heap.Cut, Heap.Push, Heap.SetUse, Heap.Tiled, First;
    var c := h.last;
    UnlinkBehind(h, behind, c, b);
    var u, v := h.Unlink(c, b), h.(last := behind).Unlink(c, b);
    EndFresh(h);
    Neighbours(h, c);
    SetUseBehind(u, behind, c);
    if h.At(c).size >= n + MIN_CHUNK_SIZE {
      CutBehind(u, behind, n);
      CutLists(u, c, n);
    }
  }

  lemma UnlinkBehind(h: Heap, behind: nat, c: nat, b: nat)
    requires b < |h.heads|
    ensures h.(last := behind).Unlink(c, b) == h.Unlink(c, b).(last := behind)
    ensures h.Unlink(c, b).last == h.last && h.Unlink(c, b).sizes == h.sizes && |h.Unlink(c, b).heads| == |h.heads|
    ensures forall a: nat :: h.(last := behind).Unlink(c, b).At(a) == h.Unlink(c, b).At(a)
  {}

  lemma SetUseBehind(h: Heap, behind: nat, c: nat)
    ensures h.(last := behind).SetUse(c, true) == h.SetUse(c, true).(last := behind)
  {}

  lemma CutBehind(h: Heap, behind: nat, n: nat)
    requires behind < h.last && 0 < n < h.At(h.last).size
    ensures h.(last := behind).Cut(h.last, n) == h.Cut(h.last, n)
  {}
}
