/** Bytes of a well-formed heap: every byte lies in exactly one chunk, the live and the free bytes
    add up to the heap, and blocks in use do not overlap. */
module HeapBytes {
  import opened Chunks
  import opened HeapLayout
  import opened HeapSteps
  import opened XMemory

  ghost predicate Holds(h: Heap, c: nat, a: nat)
  {
    c in h.chunks && c <= a < h.Next(c)
  }

  /** Every byte of the heap lies in some chunk. */
  lemma {:induction false} ByteHeldFrom(h: Heap, c: nat, a: nat)
    requires h.Tiled() && c in h.chunks && c <= a < h.end
    ensures exists d :: Holds(h, d, a)
    decreases h.end - c
  {
    hide Heap.Tiled, Heap.At;
    Neighbours(h, c);
    if a < h.Next(c) {
      assert Holds(h, c, a);
    } else {
      LastChunkEnds(h, c);
      ByteHeldFrom(h, h.Next(c), a);
    }
  }

  lemma LastChunkEnds(h: Heap, c: nat)
    requires h.Tiled() && c in h.chunks && h.Next(c) < h.end
    ensures h.Next(c) in h.chunks
  {
    ChunkFits(h, c);
  }

  /** Every byte of the heap lies in exactly one chunk. */
  lemma BytesTiled(h: Heap, a: nat)
    requires h.Wf({}) && HEAP_START <= a < h.end
    ensures exists c :: Holds(h, c, a)
    ensures forall c, d :: Holds(h, c, a) && Holds(h, d, a) ==> c == d
  {
    hide Heap.Chained, Heap.Sized, Heap.Roles, Heap.Merged, Heap.Fits, Heap.Apart;
    ByteHeldFrom(h, HEAP_START, a);
    forall c, d | Holds(h, c, a) && Holds(h, d, a) ensures c == d { ChunksApart(h, c, d); }
  }

  // ----- sums of chunk sizes

  ghost function Least(s: set<nat>): (m: nat)
    requires s != {}
    ensures m in s && forall x | x in s :: m <= x
  {
    var y :| y in s;
    LeastExists(s, y);
    var m :| m in s && forall x | x in s :: m <= x;
    m
  }

  lemma {:induction false} LeastExists(s: set<nat>, y: nat)
    requires y in s
    ensures exists m :: m in s && forall x | x in s :: m <= x
    decreases y
  {
    if z :| z in s && z < y { LeastExists(s, z); }
  }

  /** The sizes of some chunks, added up. */
  ghost function Bytes(h: Heap, s: set<nat>): nat
    decreases |s|
  {
    if s == {} then 0 else var c := Least(s); h.At(c).size + Bytes(h, s - {c})
  }

  lemma {:induction false} BytesRemove(h: Heap, s: set<nat>, c: nat)
    requires c in s
    ensures Bytes(h, s) == h.At(c).size + Bytes(h, s - {c})
    decreases |s|
  {
    hide Heap.At;
    var l := Least(s);
    if l != c {
      BytesRemove(h, s - {l}, c);
      var t := s - {c};
      assert l in t;
      assert Least(t) in s && Least(t) <= l;
      assert s - {l} - {c} == t - {l};
    }
  }

  lemma {:induction false} BytesUnion(h: Heap, s: set<nat>, t: set<nat>)
    requires s !! t
    ensures Bytes(h, s + t) == Bytes(h, s) + Bytes(h, t)
    decreases |s|
  {
    hide Heap.At;
    if s == {} {
      assert s + t == t;
    } else {
      var c := Least(s);
      BytesUnion(h, s - {c}, t);
      assert s + t - {c} == (s - {c}) + t;
      BytesRemove(h, s + t, c);
    }
  }

  lemma {:induction false} BytesSame(h: Heap, g: Heap, s: set<nat>)
    requires forall c | c in s :: g.At(c).size == h.At(c).size
    ensures Bytes(g, s) == Bytes(h, s)
    decreases |s|
  {
    if s != {} { BytesSame(h, g, s - {Least(s)}); }
  }

  /** The chunks below an address. */
  ghost function Below(h: Heap, a: nat): set<nat>
  {
    set c | c in h.chunks && c < a
  }

  lemma {:induction false} BytesBelow(h: Heap, c: nat)
    requires h.Tiled() && c in h.chunks
    ensures c >= HEAP_START && Bytes(h, Below(h, c)) == c - HEAP_START
    decreases c
  {
    hide Heap.Tiled, Heap.At, Bytes;
    Neighbours(h, c);
    if c == HEAP_START {
      forall d | d in h.chunks ensures d >= c { Neighbours(h, d); }
      assert Below(h, c) == {};
      NoBytes(h);
    } else {
      var p: nat := Left(h, c);
      BytesBelow(h, p);
      forall d | d in h.chunks ensures d in Below(h, c) <==> d in Below(h, p) + {p} {
        ChunksApart(h, p, d);
      }
      assert Below(h, c) == Below(h, p) + {p};
      assert Below(h, c) - {p} == Below(h, p);
      BytesRemove(h, Below(h, c), p);
    }
  }

  lemma NoBytes(h: Heap)
    ensures Bytes(h, {}) == 0
  {}

  lemma AllBytes(h: Heap)
    requires h.Tiled()
    ensures h.end >= HEAP_START && Bytes(h, h.chunks) == h.end - HEAP_START
  {
    if h.chunks != {} {
      Neighbours(h, h.last);
      ChunkFits(h, h.last);
      BytesBelow(h, h.last);
      forall d | d in h.chunks ensures d in Below(h, h.last) + {h.last} { Neighbours(h, d); }
      assert h.chunks == Below(h, h.last) + {h.last};
      assert h.chunks - {h.last} == Below(h, h.last);
      BytesRemove(h, h.chunks, h.last);
    }
  }

  ghost function FreeBytes(h: Heap): nat { Bytes(h, h.listed) }

  ghost function LiveBytes(h: Heap): nat { Bytes(h, h.Live()) }

  /** Conservation: live and free bytes make up the heap. */
  lemma Conserved(h: Heap)
    requires h.Wf({})
    ensures LiveBytes(h) + FreeBytes(h) == h.end - HEAP_START
  {
    hide Heap.Tiled, Heap.Chained, Heap.Sized, Heap.Merged, Heap.At, Bytes;
    LiveIs(h);
    assert h.chunks == h.Live() + h.listed;
    BytesUnion(h, h.Live(), h.listed);
    AllBytes(h);
  }

  /** Freeing a block moves exactly its bytes from the live to the free ones. */
  lemma FreedBytes(h: Heap, g: Heap, c: nat)
    requires h.Wf({}) && g.Wf({}) && g.end == h.end && c in h.Live() && g.Live() == h.Live() - {c}
    requires forall d | d in g.Live() :: g.At(d).size == h.At(d).size
    ensures LiveBytes(g) == LiveBytes(h) - h.At(c).size && FreeBytes(g) == FreeBytes(h) + h.At(c).size
  {
    hide Heap.Wf, Heap.At, Bytes, Heap.Live;
    Conserved(h);
    Conserved(g);
    BytesRemove(h, h.Live(), c);
    BytesSame(h, g, g.Live());
  }

  /** Allocating a block moves its bytes the other way; a fresh run adds its bytes. */
  lemma AllocatedBytes(h: Heap, g: Heap, addr: nat, size: nat)
    requires size > 0 && |h.heads| == |h.sizes| == MAX_BIN_INDEX + 1 && h.Wf({}) && g.Wf({})
    requires Allocated(h, g, addr, size)
    ensures addr >= UNIT_SIZE && LiveBytes(g) == LiveBytes(h) + g.At(addr - UNIT_SIZE).size
    ensures FreeBytes(g) + g.At(addr - UNIT_SIZE).size ==
            FreeBytes(h) + if Served(h, Request(size)) then 0 else AlignedPage(Request(size))
  {
    hide Heap.Wf, Heap.At, Bytes, Heap.Live, Served, AlignedPage, AlignedSize, Settles, Fitting;
    Conserved(h);
    Conserved(g);
    var c := addr - UNIT_SIZE;
    assert g.Live() - {c} == h.Live();
    BytesRemove(g, g.Live(), c);
    BytesSame(h, g, h.Live());
  }

  /** The requested bytes of a new block lie inside its chunk and outside every live block. */
  lemma BlockApart(h: Heap, g: Heap, addr: nat, size: nat, d: nat, a: nat)
    requires size > 0 && |h.heads| == |h.sizes| == MAX_BIN_INDEX + 1 && h.Wf({}) && Allocated(h, g, addr, size)
    requires addr <= a < addr + size && d in h.Live()
    ensures d in g.Live() && !(d <= a < g.Next(d)) && HEAP_START <= a < g.end
  {
    hide Heap.Chained, Heap.Sized, Heap.Merged, Heap.Fits, Heap.Apart, Served, AlignedPage, AlignedSize, Settles,
      Fitting;
    var c := addr - UNIT_SIZE;
    var w := g.(last := if g.last < c then c else g.last);
    assert w.Live() == g.Live() by { SameHeaders(g, w.last); }
    Neighbours(w, c);
    ChunksApart(w, c, d);
    ChunksApart(w, d, c);
    assert w.Next(c) == g.Next(c) && w.Next(d) == g.Next(d);
  }
}
