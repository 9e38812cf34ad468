/** What the free-list operations keep. */
module HeapLists {
  import opened Chunks

  /** Where Push writes. */
  lemma PushAt(h: Heap, c: nat, b: nat, a: nat)
    requires b < |h.heads| && c != NULL && c != h.heads[b]
    ensures var old_, new_ := h.At(a), h.Push(c, b).At(a);
      new_ == if a == c then old_.(fd := h.heads[b], bk := NULL, bin := b)
              else if a == h.heads[b] && a != NULL then old_.(bk := c)
              else old_
  {}

  /** Where Unlink writes. */
  lemma UnlinkAt(h: Heap, c: nat, b: nat, a: nat)
    requires b < |h.heads|
    requires c != NULL && h.At(c).fd != c && h.At(c).bk != c && (c == h.heads[b] <==> h.At(c).bk == NULL)
    requires h.At(c).fd == NULL || h.At(c).fd != h.At(c).bk
    ensures var old_, new_ := h.At(a), h.Unlink(c, b).At(a);
      new_ == if a == c then old_.(bin := -1)
              else if a == h.At(c).fd && a != NULL then old_.(bk := h.At(c).bk)
              else if a == h.At(c).bk && a != NULL then old_.(fd := h.At(c).fd)
              else old_
  {}

  lemma PushChained(h: Heap, c: nat, b: nat)
    requires h.Chained() && b <= MAX_BIN_INDEX && c != NULL && c !in h.listed
    ensures h.Push(c, b).Chained() && SameLayout(h, h.Push(c, b))
  {
    hide Heap.Push, Heap.Linked, Heap.Ordered;
    var g := h.Push(c, b);
    PushShape(h, c, b);
    forall a: nat { PushAt(h, c, b, a); }
    assert Pushed(h, g, c, b);
    forall d | d in g.listed ensures g.Linked(d) { PushLinked(h, g, c, b, d); }
    forall d, e | d in g.listed && e in g.listed ensures g.Ordered(d, e) { PushOrdered(h, g, c, b, d, e); }
    assert SameLayout(h, g);
  }

  lemma PushShape(h: Heap, c: nat, b: nat)
    requires b < |h.heads|
    ensures var g := h.Push(c, b);
      g.heads == h.heads[b := c] && g.listed == h.listed + {c} && g.stamp == h.stamp[c := h.clock]
        && g.clock == h.clock + 1
      && g.sizes == h.sizes && g.last == h.last && g.end == h.end && g.chunks == h.chunks
      && forall a | a in g.m :: a in h.m || a == c || (a == h.heads[b] && a != NULL)
  {}

  ghost predicate Pushed(h: Heap, g: Heap, c: nat, b: nat)
    requires b < |h.heads|
  {
    && g.heads == h.heads[b := c] && g.listed == h.listed + {c} && g.stamp == h.stamp[c := h.clock]
    && g.clock == h.clock + 1
    && forall a: nat {:trigger g.At(a)} :: g.At(a) == if a == c then h.At(a).(fd := h.heads[b], bk := NULL, bin := b)
         else if a == h.heads[b] && a != NULL then h.At(a).(bk := c) else h.At(a)
  }

  lemma PushLinked(h: Heap, g: Heap, c: nat, b: nat, d: nat)
    requires h.Chained() && b <= MAX_BIN_INDEX && c != NULL && c !in h.listed && Pushed(h, g, c, b) && d in g.listed
    ensures g.Linked(d)
  {
    hide Heap.At, Heap.Ordered;
    if d != c { ChunkLinked(h, d); }
    if h.heads[b] != NULL { ChunkLinked(h, h.heads[b]); }
  }

  lemma PushOrdered(h: Heap, g: Heap, c: nat, b: nat, d: nat, e: nat)
    requires h.Chained() && b <= MAX_BIN_INDEX && c != NULL && c !in h.listed && Pushed(h, g, c, b)
    requires d in g.listed && e in g.listed
    ensures g.Ordered(d, e)
  {
    hide Heap.At;
    if d != c { ChunkLinked(h, d); }
    if e != c { ChunkLinked(h, e); }
    if d != c && e != c { ChunksOrdered(h, d, e); }
    if h.heads[b] != NULL {
      ChunkLinked(h, h.heads[b]);
      if d != c { ChunksOrdered(h, d, h.heads[b]); }
      if e != c { ChunksOrdered(h, e, h.heads[b]); }
    }
    if d != c && e == c { ChunksOrdered(h, d, d); }
    if e != c && d == c { ChunksOrdered(h, e, e); }
  }

  ghost predicate Unlinked(h: Heap, g: Heap, c: nat, b: nat)
    requires b < |h.heads|
  {
    && g.heads == (if c == h.heads[b] then h.heads[b := h.At(c).fd] else h.heads)
    && g.listed == h.listed - {c} && g.stamp == h.stamp && g.clock == h.clock
    && forall a: nat {:trigger g.At(a)} :: g.At(a) ==
         if a == c then h.At(a).(bin := -1)
         else if a == h.At(c).fd && a != NULL then h.At(a).(bk := h.At(c).bk)
         else if a == h.At(c).bk && a != NULL then h.At(a).(fd := h.At(c).fd)
         else h.At(a)
  }

  lemma UnlinkShape(h: Heap, c: nat, b: nat)
    requires b < |h.heads|
    ensures var g := h.Unlink(c, b);
      g.heads == (if c == h.heads[b] then h.heads[b := h.At(c).fd] else h.heads)
      && g.listed == h.listed - {c} && g.stamp == h.stamp && g.clock == h.clock
      && g.sizes == h.sizes && g.last == h.last && g.end == h.end && g.chunks == h.chunks
      && forall a | a in g.m ::
        a in h.m || a == c || (a == h.At(c).fd && a != NULL) || (a == h.At(c).bk && c != h.heads[b])
  {}

  /** The neighbours of a listed chunk on its list. */
  lemma LinkFacts(h: Heap, c: nat)
    requires h.Chained() && c in h.listed
    ensures 0 <= h.At(c).bin <= MAX_BIN_INDEX && c != NULL && h.At(c).fd != c && h.At(c).bk != c
    ensures h.At(c).fd == NULL || h.At(c).fd != h.At(c).bk
    ensures c == h.heads[h.At(c).bin] <==> h.At(c).bk == NULL
  {
    hide Heap.At;
    ChunkLinked(h, c);
    if h.At(c).fd != NULL { ChunkLinked(h, h.At(c).fd); }
    if h.At(c).bk != NULL { ChunkLinked(h, h.At(c).bk); }
  }

  lemma UnlinkChained(h: Heap, c: nat)
    requires h.Chained() && c in h.listed
    ensures h.Linked(c)
    ensures h.Unlink(c, h.At(c).bin).Chained() && SameLayout(h, h.Unlink(c, h.At(c).bin))
  {
    hide Heap.Unlink, Heap.Linked, Heap.Ordered;
    LinkFacts(h, c);
    ChunkLinked(h, c);
    var b := h.At(c).bin;
    var g := h.Unlink(c, b);
    UnlinkShape(h, c, b);
    forall a: nat { UnlinkAt(h, c, b, a); }
    assert Unlinked(h, g, c, b);
    forall d | d in g.listed ensures g.Linked(d) { UnlinkLinked(h, g, c, b, d); }
    forall d, e | d in g.listed && e in g.listed ensures g.Ordered(d, e) { UnlinkOrdered(h, g, c, b, d, e); }
    UnlinkHeads(h, g, c, b);
    assert SameLayout(h, g);
  }

  lemma UnlinkHeads(h: Heap, g: Heap, c: nat, b: nat)
    requires h.Chained() && c in h.listed && h.At(c).bin == b <= MAX_BIN_INDEX && Unlinked(h, g, c, b)
    ensures forall k | 0 <= k <= MAX_BIN_INDEX && g.heads[k] != NULL ::
              g.heads[k] in g.listed && g.At(g.heads[k]).bin == k && g.At(g.heads[k]).bk == NULL
  {
    hide Heap.At, Heap.Ordered;
    ChunkLinked(h, c);
    LinkFacts(h, c);
  }

  lemma UnlinkLinked(h: Heap, g: Heap, c: nat, b: nat, d: nat)
    requires h.Chained() && c in h.listed && h.At(c).bin == b <= MAX_BIN_INDEX && Unlinked(h, g, c, b) && d in g.listed
    ensures g.Linked(d)
  {
    hide Heap.At, Heap.Ordered;
    ChunkLinked(h, d);
    ChunkLinked(h, c);
    LinkFacts(h, c);
    LinkFacts(h, d);
  }

  lemma UnlinkOrdered(h: Heap, g: Heap, c: nat, b: nat, d: nat, e: nat)
    requires h.Chained() && c in h.listed && h.At(c).bin == b <= MAX_BIN_INDEX && Unlinked(h, g, c, b)
    requires d in g.listed && e in g.listed
    ensures g.Ordered(d, e)
  {
    hide Heap.At;
    ChunkLinked(h, d);
    ChunkLinked(h, e);
    ChunkLinked(h, c);
    ChunksOrdered(h, d, e);
    ChunksOrdered(h, d, c);
    ChunksOrdered(h, c, e);
    ChunksOrdered(h, e, c);
    LinkFacts(h, c);
    LinkFacts(h, d);
  }
}
