/** What inserting, removing, merging and cutting chunks keeps of a well-formed heap. */
module HeapLayout {
  import opened Chunks
  import opened HeapLists

  /** The left neighbour of a chunk, for the first chunk the chunk itself. */
  function Left(h: Heap, c: nat): int { c - h.At(c).prevSize }

  /** Neither neighbour of the chunk is listed. */
  ghost predicate Alone(h: Heap, c: nat)
  {
    h.Next(c) !in h.listed && (c == HEAP_START || Left(h, c) !in h.listed)
  }

  /** A chunk that ends where another begins is its left neighbour. */
  lemma LeftOf(h: Heap, d: nat, c: nat)
    requires h.Tiled() && d in h.chunks && c in h.chunks && h.Next(d) == c
    ensures Left(h, c) == d && c != HEAP_START
  {
    ChunkFits(h, d);
    ChunkFits(h, c);
  }

  /** The right neighbour of a chunk that is not the last one, the left one of one that is not the first. */
  lemma Neighbours(h: Heap, c: nat)
    requires h.Tiled() && c in h.chunks
    ensures HEAP_START <= c <= h.last && h.At(c).size >= MIN_CHUNK_SIZE && c < h.Next(c) <= h.end
    ensures h.Next(c) <= h.last <==> c != h.last
    ensures c != h.last <==> h.Next(c) in h.chunks
    ensures c != h.last ==> Left(h, h.Next(c)) == c
    ensures c != HEAP_START ==> 0 <= Left(h, c) < c && Left(h, c) in h.chunks && h.Next(Left(h, c)) == c
    ensures c == HEAP_START ==> Left(h, c) == c
  {
    ChunkFits(h, c);
    ChunkFits(h, h.last);
    ChunksApart(h, c, h.last);
    if h.Next(c) in h.chunks { ChunkFits(h, h.Next(c)); }
    if c != HEAP_START { ChunkFits(h, Left(h, c)); }
  }

  // ----- removing and inserting

  lemma StillMerged(h: Heap, g: Heap)
    requires h.Merged() && g.listed <= h.listed && forall c | c in g.listed :: g.At(c).size == h.At(c).size
    ensures g.Merged()
  {
    hide Heap.At;
    forall c | c in g.listed ensures g.Next(c) !in g.listed {
      assert h.Next(c) !in h.listed;
    }
  }

  lemma RolesHeld(h: Heap, c: nat, held: set<nat>)
    requires h.Roles(held) && c in h.chunks && h.At(c).inUse && c !in held
    ensures h.Roles(held + {c})
  {
    hide Heap.At;
    assert c !in h.listed;
    assert h.listed !! (held + {c});
  }

  lemma RolesUsed(h: Heap, g: Heap, c: nat, held: set<nat>)
    requires h.Roles(held) && c in held && g.chunks == h.chunks && g.listed == h.listed && g.At(c).inUse
    requires forall a | a in h.chunks && a != c :: g.At(a).inUse == h.At(a).inUse
    ensures g.Roles(held - {c})
  {
    hide Heap.At;
    forall d | d in g.chunks && d !in held - {c} ensures g.At(d).inUse <==> d !in g.listed {
      assert d == c || (d in h.chunks && d !in held);
    }
  }

  lemma RolesUnlisted(h: Heap, g: Heap, c: nat, held: set<nat>)
    requires h.Roles(held) && c in h.listed && g.chunks == h.chunks && g.listed == h.listed - {c}
    requires forall a | a in h.chunks && a != c :: g.At(a).inUse == h.At(a).inUse
    ensures g.Roles(held + {c})
  {
    hide Heap.At;
    assert g.listed !! (held + {c});
    assert held + {c} <= g.chunks;
    forall d | d in g.chunks && d !in held + {c} ensures g.At(d).inUse <==> d !in g.listed {
      assert d in h.chunks && d !in held && d != c;
    }
  }

  lemma UnlinkKeeps(h: Heap, c: nat, held: set<nat>)
    requires h.Wf(held) && c in h.listed
    ensures h.Linked(c)
    ensures h.Unlink(c, h.At(c).bin).Wf(held + {c}) && Alone(h.Unlink(c, h.At(c).bin), c)
    ensures SameLayout(h, h.Unlink(c, h.At(c).bin))
  {
    hide Heap.Unlink, Heap.Linked, Heap.Ordered, Heap.Fits, Heap.Apart;
    UnlinkChained(h, c);
    ChunkLinked(h, c);
    var b := h.At(c).bin;
    LinkFacts(h, c);
    UnlinkShape(h, c, b);
    var g := h.Unlink(c, b);
    UnlinkTiled(h, g, c, b);
    Neighbours(h, c);
    UnlinkSized(h, g, c, b);
    assert g.At(c).size == h.At(c).size;
    RolesUnlisted(h, g, c, held);
    StillMerged(h, g);
  }

  lemma UnlinkTiled(h: Heap, g: Heap, c: nat, b: nat)
    requires h.Tiled() && h.Chained() && c in h.listed && h.listed <= h.chunks && h.At(c).bin == b <= MAX_BIN_INDEX
    requires g == h.Unlink(c, b) && SameLayout(h, g)
    ensures g.Tiled()
  {
    hide Heap.Unlink, Heap.Fits, Heap.Apart, Heap.At;
    UnlinkShape(h, c, b);
    ChunkLinked(h, c);
    LinkFacts(h, c);
    assert h.At(c).fd == NULL || h.At(c).fd in h.chunks;
    assert h.At(c).bk == NULL || h.At(c).bk in h.chunks;
    forall a | a in g.m ensures a < g.end {
      if a in h.chunks { Neighbours(h, a); }
    }
    TiledByLayout(h, g);
  }

  lemma UnlinkSized(h: Heap, g: Heap, c: nat, b: nat)
    requires h.Sized() && h.Chained() && c in h.listed && h.At(c).bin == b <= MAX_BIN_INDEX
    requires g == h.Unlink(c, b) && SameLayout(h, g)
    ensures g.Sized()
  {
    hide Heap.Unlink, Heap.Linked, Heap.Ordered;
    UnlinkShape(h, c, b);
    LinkFacts(h, c);
    forall d | d in g.listed ensures g.At(d).bin == h.At(d).bin && g.At(d).size == h.At(d).size {
      UnlinkAt(h, c, b, d);
    }
  }

  lemma PushKeeps(h: Heap, c: nat, b: nat, held: set<nat>)
    requires h.Wf(held) && c in held && Alone(h, c)
    requires b <= MAX_BIN_INDEX && (b < MAX_BIN_INDEX ==> h.sizes[b] == h.At(c).size)
    ensures h.Push(c, b).SetUse(c, false).Wf(held - {c})
    ensures SameLayout(h, h.Push(c, b))
  {
    hide Heap.Push, Heap.Fits, Heap.Apart, Heap.Linked, Heap.Ordered;
    Neighbours(h, c);
    PushChained(h, c, b);
    PushShape(h, c, b);
    var p := h.Push(c, b);
    var g := p.SetUse(c, false);
    PushTiled(h, p, c, b);
    FreedTiled(p, c);
    PushSized(h, p, c, b);
    assert SameLinks(p, g);
    ChainedByLinks(p, g);
    forall d | d in h.chunks && d != c ensures g.At(d).size == h.At(d).size && g.At(d).inUse == h.At(d).inUse {
      assert g.At(d) == p.At(d);
    }
    assert g.At(c).size == p.At(c).size == h.At(c).size;
    assert g.Roles(held - {c});
    forall d | d in g.listed ensures g.Next(d) !in g.listed {
      assert g.Next(d) == h.Next(d);
      if d != c && h.Next(d) == c { LeftOf(h, d, c); }
    }
  }

  lemma PushTiled(h: Heap, g: Heap, c: nat, b: nat)
    requires h.Tiled() && h.Chained() && c in h.chunks && h.listed <= h.chunks && b <= MAX_BIN_INDEX
    requires g == h.Push(c, b) && SameLayout(h, g)
    ensures g.Tiled()
  {
    hide Heap.Push, Heap.Fits, Heap.Apart, Heap.At, Heap.Linked, Heap.Ordered;
    PushShape(h, c, b);
    forall a | a in g.m ensures a < g.end {
      if a in h.chunks { Neighbours(h, a); }
    }
    TiledByLayout(h, g);
  }

  lemma UseSizes(h: Heap, c: nat, u: bool)
    ensures SameSizes(h, h.SetUse(c, u)) && SameLinks(h, h.SetUse(c, u))
    ensures forall d: nat {:trigger h.SetUse(c, u).At(d)} ::
              h.SetUse(c, u).At(d).inUse == if d == c then u else h.At(d).inUse
  {}

  lemma UseShape(h: Heap, c: nat)
    ensures h.SetUse(c, true).(m := h.m) == h
  {}

  lemma FreedTiled(h: Heap, c: nat)
    requires h.Tiled() && c in h.chunks
    ensures h.SetUse(c, false).Tiled() && h.SetUse(c, true).Tiled()
  {
    Neighbours(h, c);
    forall u: bool ensures h.SetUse(c, u).Tiled() {
      UseSizes(h, c, u);
      TiledByLayout(h, h.SetUse(c, u));
    }
  }

  lemma PushSized(h: Heap, g: Heap, c: nat, b: nat)
    requires h.Sized() && h.Chained() && c != NULL && c !in h.listed
    requires b <= MAX_BIN_INDEX && (b < MAX_BIN_INDEX ==> h.sizes[b] == h.At(c).size)
    requires g == h.Push(c, b) && SameLayout(h, g)
    ensures g.Sized() && g.SetUse(c, false).Sized()
  {
    hide Heap.Push, Heap.Linked, Heap.Ordered;
    PushShape(h, c, b);
    forall d | d in g.listed
      ensures g.At(d).size == h.At(d).size && g.At(d).bin == if d == c then b else h.At(d).bin
    {
      PushAt(h, c, b, d);
    }
  }

  // ----- taking a chunk out of use and back

  lemma HoldLive(h: Heap, c: nat, held: set<nat>)
    requires h.Wf(held) && c in h.chunks && h.At(c).inUse && c !in held
    ensures h.Wf(held + {c})
  {
    hide Heap.Tiled, Heap.Chained, Heap.Sized, Heap.Merged, Heap.At, Heap.Roles;
    RolesHeld(h, c, held);
  }

  lemma UseKeeps(h: Heap, c: nat, held: set<nat>)
    requires h.Wf(held) && c in held
    ensures h.SetUse(c, true).Wf(held - {c})
  {
    hide Heap.Chained, Heap.Tiled, Heap.SetUse;
    var g := h.SetUse(c, true);
    FreedTiled(h, c);
    UseSizes(h, c, true);
    UseShape(h, c);
    StillMerged(h, g);
    RolesUsed(h, g, c, held);
    ChainedByLinks(h, g);
  }

  // ----- merging and cutting

  /** Where Join writes. */
  lemma JoinAt(h: Heap, head: nat, tail: nat, a: nat)
    requires h.Tiled() && head in h.chunks && tail in h.chunks && h.Next(head) == tail
    ensures var old_, new_ := h.At(a), h.Join(head, tail).At(a);
      new_ == if a == head then old_.(size := h.At(head).size + h.At(tail).size, inUse := false)
              else if a == h.Next(tail) && tail != h.last then old_.(prevSize := h.At(head).size + h.At(tail).size)
              else old_
  {
    Neighbours(h, head);
    Neighbours(h, tail);
    ChunkFits(h, head);
    ChunkFits(h, tail);
  }

  lemma JoinTiled(h: Heap, head: nat, tail: nat)
    requires h.Tiled() && head in h.chunks && tail in h.chunks && h.Next(head) == tail
    ensures h.Join(head, tail).Tiled()
  {
    hide Heap.Fits, Heap.Apart, Heap.At, Heap.Join;
    var g := h.Join(head, tail);
    assert g.end == h.end && g.chunks == h.chunks - {tail} && g.last == (if tail == h.last then head else h.last)
      && forall a | a in g.m ::
        a in h.m || a == head || (a == h.Next(tail) && tail != h.last) by { JoinShape(h, head, tail); }
    forall a: nat ensures JoinHeader(h, g, head, tail, a) { JoinAt(h, head, tail, a); }
    Neighbours(h, head);
    Neighbours(h, tail);
    if tail != h.last { Neighbours(h, h.Next(tail)); }
    forall c | c in g.chunks ensures g.Fits(c) { JoinFits(h, g, head, tail, c); }
    forall c, d | c in g.chunks && d in g.chunks ensures g.Apart(c, d) { JoinApart(h, g, head, tail, c, d); }
  }

  lemma JoinShape(h: Heap, head: nat, tail: nat)
    requires h.Tiled() && head in h.chunks && tail in h.chunks && h.Next(head) == tail
    ensures var g := h.Join(head, tail);
      g.end == h.end && g.chunks == h.chunks - {tail} && g.last == (if tail == h.last then head else h.last)
      && g.heads == h.heads && g.sizes == h.sizes && g.listed == h.listed && g.stamp == h.stamp && g.clock == h.clock
      && forall a | a in g.m :: a in h.m || a == head || (a == h.Next(tail) && tail != h.last)
  {
    Neighbours(h, head);
    Neighbours(h, tail);
  }

  /** The header at an address once two neighbours are merged. */
  ghost predicate JoinHeader(h: Heap, g: Heap, head: nat, tail: nat, a: nat)
  {
    g.At(a) ==
    if a == head then h.At(a).(size := h.At(head).size + h.At(tail).size, inUse := false)
    else if a == h.Next(tail) && tail != h.last then h.At(a).(prevSize := h.At(head).size + h.At(tail).size)
    else h.At(a)
  }

  ghost predicate Joined(h: Heap, g: Heap, head: nat, tail: nat)
  {
    && g.end == h.end && g.chunks == h.chunks - {tail} && g.last == (if tail == h.last then head else h.last)
    && forall a: nat {:trigger JoinHeader(h, g, head, tail, a)} :: JoinHeader(h, g, head, tail, a)
  }

  lemma JoinFits(h: Heap, g: Heap, head: nat, tail: nat, c: nat)
    requires h.Tiled() && head in h.chunks && tail in h.chunks && h.Next(head) == tail && Joined(h, g, head, tail)
    requires c in g.chunks
    ensures g.Fits(c)
  {
    hide Heap.At, Heap.Tiled;
    ChunkFits(h, c);
    ChunkFits(h, tail);
    Neighbours(h, c);
    Neighbours(h, head);
    Neighbours(h, tail);
    ChunksApart(h, head, c);
    assert JoinHeader(h, g, head, tail, c);
    assert JoinHeader(h, g, head, tail, g.Next(c));
    assert JoinHeader(h, g, head, tail, head);
    if c != HEAP_START && c != h.Next(tail) {
      var p: nat := Left(h, c);
      assert JoinHeader(h, g, head, tail, p);
      Neighbours(h, p);
    }
  }

  lemma JoinApart(h: Heap, g: Heap, head: nat, tail: nat, c: nat, d: nat)
    requires h.Tiled() && head in h.chunks && tail in h.chunks && h.Next(head) == tail && Joined(h, g, head, tail)
    requires c in g.chunks && d in g.chunks
    ensures g.Apart(c, d)
  {
    hide Heap.At, Heap.Tiled;
    ChunksApart(h, c, d);
    ChunksApart(h, tail, d);
    ChunksApart(h, c, head);
    assert JoinHeader(h, g, head, tail, c);
  }

  lemma JoinKeeps(h: Heap, head: nat, tail: nat, held: set<nat>)
    requires h.Wf(held) && head in held && tail in held && h.Next(head) == tail
    ensures var g := h.Join(head, tail);
      g.Wf(held - {tail}) && Joined(h, g, head, tail) && SameLinks(h, g)
  {
    hide Heap.Linked, Heap.Ordered, Heap.Fits, Heap.Apart, Heap.Join;
    var g := h.Join(head, tail);
    JoinTiled(h, head, tail);
    JoinShape(h, head, tail);
    forall a: nat ensures JoinHeader(h, g, head, tail, a) { JoinAt(h, head, tail, a); }
    assert Joined(h, g, head, tail);
    Neighbours(h, head);
    forall a: nat
      ensures g.At(a).bin == h.At(a).bin && g.At(a).fd == h.At(a).fd && g.At(a).bk == h.At(a).bk
      ensures a != head ==> g.At(a).inUse == h.At(a).inUse && g.At(a).size == h.At(a).size
    {
      assert JoinHeader(h, g, head, tail, a);
    }
    assert SameLinks(h, g);
    ChainedByLinks(h, g);
    StillMerged(h, g);
    RolesJoined(h, g, head, tail, held);
  }

  lemma CutShape(h: Heap, c: nat, n: nat)
    requires h.Tiled() && c in h.chunks && n <= h.At(c).size
    ensures var g := h.Cut(c, n);
      g.end == h.end && g.chunks == h.chunks + {c + n} && g.last == (if c + n > h.last then c + n else h.last)
      && g.heads == h.heads && g.sizes == h.sizes && g.listed == h.listed && g.stamp == h.stamp && g.clock == h.clock
      && forall a | a in g.m :: a in h.m || a == c || a == c + n || (a == h.Next(c) && c != h.last)
  {
    Neighbours(h, c);
  }

  /** Where Cut writes. */
  lemma CutAt(h: Heap, c: nat, n: nat, a: nat)
    requires h.Tiled() && c in h.chunks && n + MIN_CHUNK_SIZE <= h.At(c).size && MIN_CHUNK_SIZE <= n && n % 2 == 0
    ensures var old_, new_, s := h.At(a), h.Cut(c, n).At(a), h.At(c).size;
      new_ == if a == c then old_.(size := n, inUse := false)
              else if a == c + n then old_.(prevSize := n, size := s - n, inUse := false)
              else if a == h.Next(c) && c != h.last then old_.(prevSize := s - n)
              else old_
  {
    Neighbours(h, c);
    ChunkFits(h, c);
    assert (h.At(c).size - n) % 2 == 0;
  }

  /** The header at an address once a chunk is cut. */
  ghost predicate CutHeader(h: Heap, g: Heap, c: nat, n: nat, a: nat)
    requires n <= h.At(c).size
  {
    g.At(a) ==
    if a == c then h.At(a).(size := n, inUse := false)
    else if a == c + n then h.At(a).(prevSize := n, size := h.At(c).size - n, inUse := false)
    else if a == h.Next(c) && c != h.last then h.At(a).(prevSize := h.At(c).size - n)
    else h.At(a)
  }

  ghost predicate IsCut(h: Heap, g: Heap, c: nat, n: nat)
  {
    && n + MIN_CHUNK_SIZE <= h.At(c).size && MIN_CHUNK_SIZE <= n && n % 2 == 0
    && g.end == h.end && g.chunks == h.chunks + {c + n} && g.last == (if c + n > h.last then c + n else h.last)
    && forall a: nat {:trigger CutHeader(h, g, c, n, a)} :: CutHeader(h, g, c, n, a)
  }

  lemma CutFits(h: Heap, g: Heap, c: nat, n: nat, d: nat)
    requires h.Tiled() && c in h.chunks && IsCut(h, g, c, n) && d in g.chunks
    ensures g.Fits(d)
  {
    hide Heap.At, Heap.Tiled;
    ChunkFits(h, c);
    Neighbours(h, c);
    CutInside(h, c, n);
    assert CutHeader(h, g, c, n, c) && CutHeader(h, g, c, n, c + n);
    assert CutHeader(h, g, c, n, h.Next(c)) && CutHeader(h, g, c, n, d);
    if d in h.chunks && d != c { CutFitsOther(h, g, c, n, d); }
    if d == c && c != HEAP_START {
      Neighbours(h, Left(h, c));
      assert CutHeader(h, g, c, n, Left(h, c));
    }
  }

  lemma CutFitsOther(h: Heap, g: Heap, c: nat, n: nat, d: nat)
    requires h.Tiled() && c in h.chunks && IsCut(h, g, c, n) && d in h.chunks && d != c
    ensures g.Fits(d)
  {
    hide Heap.At, Heap.Tiled;
    ChunkFits(h, d);
    Neighbours(h, c);
    Neighbours(h, d);
    CutInside(h, c, n);
    assert CutHeader(h, g, c, n, d) && CutHeader(h, g, c, n, h.Next(d)) && CutHeader(h, g, c, n, c + n);
    if d != HEAP_START {
      Neighbours(h, Left(h, d));
      assert CutHeader(h, g, c, n, Left(h, d));
    }
  }

  /** The cut does not fall on another chunk, and it is the new last chunk iff the old one is cut. */
  lemma CutInside(h: Heap, c: nat, n: nat)
    requires h.Tiled() && c in h.chunks && 0 < n < h.At(c).size
    ensures c + n !in h.chunks && (c + n > h.last <==> c == h.last)
  {
    if c + n in h.chunks { ChunksApart(h, c, c + n); }
    Neighbours(h, c);
  }

  lemma CutApart(h: Heap, g: Heap, c: nat, n: nat, d: nat, e: nat)
    requires h.Tiled() && c in h.chunks && IsCut(h, g, c, n) && d in g.chunks && e in g.chunks
    ensures g.Apart(d, e)
  {
    hide Heap.At, Heap.Tiled;
    CutInside(h, c, n);
    assert CutHeader(h, g, c, n, d) && CutHeader(h, g, c, n, c + n);
    if d in h.chunks && e in h.chunks { ChunksApart(h, d, e); }
    if d in h.chunks { ChunksApart(h, d, c); }
    if e in h.chunks { ChunksApart(h, c, e); }
  }

  lemma CutTiled(h: Heap, c: nat, n: nat)
    requires h.Tiled() && c in h.chunks && n + MIN_CHUNK_SIZE <= h.At(c).size && MIN_CHUNK_SIZE <= n && n % 2 == 0
    ensures h.Cut(c, n).Tiled() && IsCut(h, h.Cut(c, n), c, n)
  {
    hide Heap.Fits, Heap.Apart, Heap.At, Heap.Cut;
    var g := h.Cut(c, n);
    CutShape(h, c, n);
    CutInside(h, c, n);
    forall a: nat ensures CutHeader(h, g, c, n, a) { CutAt(h, c, n, a); }
    assert IsCut(h, g, c, n);
    Neighbours(h, c);
    if c != h.last { Neighbours(h, h.Next(c)); }
    forall d | d in g.chunks ensures g.Fits(d) { CutFits(h, g, c, n, d); }
    forall d, e | d in g.chunks && e in g.chunks ensures g.Apart(d, e) { CutApart(h, g, c, n, d, e); }
  }

  lemma RolesJoined(h: Heap, g: Heap, head: nat, tail: nat, held: set<nat>)
    requires h.Roles(held) && head in held && tail in held && g.chunks == h.chunks - {tail} && g.listed == h.listed
    requires forall a | a in h.chunks && a != head :: g.At(a).inUse == h.At(a).inUse
    ensures g.Roles(held - {tail})
  {
    hide Heap.At;
    assert g.listed !! held && forall c | c in g.listed :: c != tail;
    forall d | d in g.chunks && d !in held - {tail} ensures g.At(d).inUse <==> d !in g.listed {
      assert d in h.chunks && d !in held;
    }
  }

  lemma RolesCut(h: Heap, g: Heap, c: nat, d: nat, held: set<nat>)
    requires h.Roles(held) && c in held && d !in h.chunks && g.chunks == h.chunks + {d} && g.listed == h.listed
    requires forall a | a in h.chunks && a != c :: g.At(a).inUse == h.At(a).inUse
    ensures g.Roles(held + {d})
  {
    hide Heap.At;
    assert g.listed !! (held + {d});
    forall e | e in g.chunks && e !in held + {d} ensures g.At(e).inUse <==> e !in g.listed {
      assert e in h.chunks && e !in held;
    }
  }

  lemma CutKeeps(h: Heap, c: nat, n: nat, held: set<nat>)
    requires h.Wf(held) && c in held && n + MIN_CHUNK_SIZE <= h.At(c).size && MIN_CHUNK_SIZE <= n && n % 2 == 0
    ensures var g := h.Cut(c, n);
      g.Wf(held + {c + n}) && IsCut(h, g, c, n) && SameLinks(h, g)
  {
    hide Heap.Linked, Heap.Ordered, Heap.Fits, Heap.Apart, Heap.Cut;
    var g := h.Cut(c, n);
    CutTiled(h, c, n);
    CutShape(h, c, n);
    CutInside(h, c, n);
    forall a: nat
      ensures g.At(a).bin == h.At(a).bin && g.At(a).fd == h.At(a).fd && g.At(a).bk == h.At(a).bk
      ensures a in h.chunks && a != c ==> g.At(a).inUse == h.At(a).inUse && g.At(a).size == h.At(a).size
    {
      assert CutHeader(h, g, c, n, a);
    }
    assert SameLinks(h, g);
    ChainedByLinks(h, g);
    StillMerged(h, g);
    RolesCut(h, g, c, c + n, held);
  }

  // ----- registering a size

  /** A new size goes to a slot that is unused or whose list is empty. */
  lemma RegisterSlot(h: Heap, size: nat)
    requires |h.heads| == |h.sizes| == MAX_BIN_INDEX + 1
    ensures var g := h.Register(size);
      g == h || exists i ::
        (0 <= i < MAX_BIN_INDEX && g == h.(sizes := h.sizes[i := size])
         && (h.sizes[i] == 0 || h.heads[i] == NULL) && forall k | 0 <= k < MAX_BIN_INDEX :: h.sizes[k] != size)
  {}

  lemma RegisterKeeps(h: Heap, size: nat, held: set<nat>)
    requires h.Wf(held) && size > 0
    ensures h.Register(size).Wf(held) && h.Register(size).(sizes := h.sizes) == h
  {
    hide Heap.Fits, Heap.Apart, Heap.Linked, Heap.Ordered, Heap.Register, First;
    var g := h.Register(size);
    RegisterSlot(h, size);
    if g != h {
      var i :| 0 <= i < MAX_BIN_INDEX && g == h.(sizes := h.sizes[i := size])
        && (h.sizes[i] == 0 || h.heads[i] == NULL) && forall k | 0 <= k < MAX_BIN_INDEX :: h.sizes[k] != size;
      forall c | c in h.listed ensures h.At(c).bin != i {
        Neighbours(h, c);
        EmptyList(h, c);
      }
      RegisterTiled(h, g);
      StillMerged(h, g);
      RegisterSized(h, g, i, size);
      RegisterRoles(h, g, held);
    }
  }

  lemma RegisterSized(h: Heap, g: Heap, i: nat, size: nat)
    requires h.Sized() && i < MAX_BIN_INDEX && g == h.(sizes := h.sizes[i := size])
    requires forall k | 0 <= k < MAX_BIN_INDEX :: h.sizes[k] != size
    requires forall c | c in h.listed :: h.At(c).bin != i
    ensures g.Sized()
  {
    forall c ensures g.At(c) == h.At(c) {}
  }

  lemma RegisterRoles(h: Heap, g: Heap, held: set<nat>)
    requires h.Roles(held) && g == h.(sizes := g.sizes)
    ensures g.Roles(held)
  {
    forall c ensures g.At(c) == h.At(c) {}
  }

  lemma EmptyList(h: Heap, c: nat)
    requires h.Chained() && c in h.listed
    ensures 0 <= h.At(c).bin <= MAX_BIN_INDEX && h.heads[h.At(c).bin] != NULL
  {
    ChunkLinked(h, c);
    ChunksOrdered(h, c, c);
  }

  lemma RegisterTiled(h: Heap, g: Heap)
    requires h.Tiled() && h.Chained() && g.(sizes := h.sizes) == h
    ensures g.Tiled() && g.Chained()
  {
    assert SameLayout(h, g) && SameLinks(h, g);
    TiledByLayout(h, g);
    ChainedByLinks(h, g);
  }
}
