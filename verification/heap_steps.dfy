/** The steps of allocate and free on well-formed heaps: each keeps the heap well-formed and leaves
    every chunk alone that is neither listed nor held. */
module HeapSteps {
  import opened Chunks
  import opened HeapLists
  import opened HeapLayout

  /** The chunks in use, besides the held ones. */
  ghost function Others(h: Heap, held: set<nat>): set<nat>
  {
    h.chunks - h.listed - held
  }

  ghost predicate Step(h: Heap, held: set<nat>, g: Heap, held': set<nat>)
  {
    && Others(g, held') == Others(h, held) && g.end == h.end
    && forall c | c in Others(h, held) :: g.At(c).size == h.At(c).size
  }

  lemma LiveIs(h: Heap)
    requires h.Wf({})
    ensures h.Live() == Others(h, {})
  {
    hide Heap.Tiled, Heap.Chained, Heap.Sized, Heap.Merged, Heap.At;
  }

  lemma UnlinkStep(h: Heap, c: nat, held: set<nat>)
    requires h.Wf(held) && c in h.listed
    ensures 0 <= h.At(c).bin <= MAX_BIN_INDEX && |h.heads| == MAX_BIN_INDEX + 1
    ensures var g := h.Unlink(c, h.At(c).bin);
      g.Wf(held + {c}) && Alone(g, c) && Step(h, held, g, held + {c}) && g.At(c).size == h.At(c).size && !g.At(c).inUse
      && g.last == h.last && g.sizes == h.sizes && SameLayout(h, g) && c in g.chunks && g.listed == h.listed - {c}
  {
    hide Heap.Tiled, Heap.Linked, Heap.Ordered, Heap.Sized, Heap.Merged, Heap.At, Heap.Unlink, Alone;
    LinkFacts(h, c);
    UnlinkKeeps(h, c, held);
    UnlinkShape(h, c, h.At(c).bin);
    assert !h.At(c).inUse;
  }

  lemma PushStep(h: Heap, c: nat, held: set<nat>, b: nat)
    requires h.Wf(held) && c in held && Alone(h, c) && |h.sizes| == MAX_BIN_INDEX + 1
    requires b == MAX_BIN_INDEX || b == First(h.sizes, h.At(c).size)
    ensures |h.heads| == MAX_BIN_INDEX + 1
    ensures var g := h.Push(c, b).SetUse(c, false);
      g.Wf(held - {c}) && Step(h, held, g, held - {c}) && SameSizes(h, g) && c in g.listed && g.At(c).bin == b
      && g.last == h.last && g.sizes == h.sizes && g.listed == h.listed + {c}
    ensures !h.At(c).inUse ==> h.Push(c, b) == h.Push(c, b).SetUse(c, false)
  {
    hide Heap.Tiled, Heap.Linked, Heap.Ordered, Heap.Merged, Heap.Push, Alone;
    PushKeeps(h, c, b, held);
    PushShape(h, c, b);
    Neighbours(h, c);
    PushAt(h, c, b, c);
    UseShape2(h.Push(c, b), c);
  }

  lemma UseShape2(h: Heap, c: nat)
    ensures var g := h.SetUse(c, false);
      g.(m := h.m) == h && (forall a: nat {:trigger g.At(a)} ::
        g.At(a) == if a == c then h.At(c).(inUse := false) else h.At(a))
    ensures c in h.m && !h.At(c).inUse ==> h.SetUse(c, false) == h
  {}

  lemma JoinStep(h: Heap, head: nat, tail: nat, held: set<nat>)
    requires h.Wf(held) && head in held && tail in held && h.Next(head) == tail && head != tail
    ensures var g := h.Join(head, tail);
      g.Wf(held - {tail}) && Step(h, held, g, held - {tail}) && !g.At(head).inUse
      && g.At(head).size == h.At(head).size + h.At(tail).size && g.Next(head) == h.Next(tail)
      && Left(g, head) == Left(h, head) && g.listed == h.listed && g.sizes == h.sizes && head in g.chunks
  {
    hide Heap.Tiled, Heap.Chained, Heap.Sized, Heap.Merged, Heap.At, Heap.Join;
    JoinKeeps(h, head, tail, held);
    JoinShape(h, head, tail);
    var g := h.Join(head, tail);
    Neighbours(h, head);
    assert JoinHeader(h, g, head, tail, head);
    forall c | c in Others(h, held) ensures g.At(c).size == h.At(c).size {
      assert JoinHeader(h, g, head, tail, c);
    }
    assert Others(g, held - {tail}) == Others(h, held);
  }

  lemma CutStep(h: Heap, c: nat, n: nat, held: set<nat>)
    requires h.Wf(held) && c in held && n + MIN_CHUNK_SIZE <= h.At(c).size && MIN_CHUNK_SIZE <= n && n % 2 == 0
    ensures var g := h.Cut(c, n);
      g.Wf(held + {c + n}) && Step(h, held, g, held + {c + n}) && g.At(c).size == n && c in g.chunks
      && g.At(c + n).size == h.At(c).size - n && !g.At(c + n).inUse && g.Next(c + n) == h.Next(c) && Left(g, c + n) == c
      && g.listed == h.listed && g.sizes == h.sizes && c + n in g.chunks && c + n !in h.chunks
  {
    hide Heap.Tiled, Heap.Chained, Heap.Sized, Heap.Merged, Heap.At, Heap.Cut;
    CutKeeps(h, c, n, held);
    CutShape(h, c, n);
    CutInside(h, c, n);
    var g := h.Cut(c, n);
    assert CutHeader(h, g, c, n, c) && CutHeader(h, g, c, n, c + n);
    forall d | d in Others(h, held) ensures g.At(d).size == h.At(d).size {
      assert CutHeader(h, g, c, n, d);
    }
    assert Others(g, held + {c + n}) == Others(h, held);
  }

  lemma UseStep(h: Heap, c: nat, held: set<nat>)
    requires h.Wf(held) && c in held
    ensures var g := h.SetUse(c, true);
      g.Wf(held - {c}) && Others(g, held - {c}) == Others(h, held) + {c} && g.end == h.end && g.last == h.last
      && SameSizes(h, g)
  {
    hide Heap.Tiled, Heap.Chained, Heap.Sized, Heap.Merged, Heap.At, Heap.SetUse;
    UseKeeps(h, c, held);
    UseSizes(h, c, true);
    UseShape(h, c);
  }

  lemma RegisterStep(h: Heap, size: nat, held: set<nat>)
    requires h.Wf(held) && size > 0
    ensures |h.heads| == |h.sizes| == MAX_BIN_INDEX + 1
    ensures var g := h.Register(size);
      g.Wf(held) && Step(h, held, g, held) && g == h.(sizes := g.sizes)
  {
    hide Heap.Tiled, Heap.Linked, Heap.Ordered, Heap.Merged, Heap.Register;
    RegisterKeeps(h, size, held);
  }

  /** Cutting a held chunk and putting the rest on its list. */
  lemma SplitStep(h: Heap, c: nat, n: nat)
    requires h.Wf({c}) && Alone(h, c) && !h.At(c).inUse
    requires n + MIN_CHUNK_SIZE <= h.At(c).size && MIN_CHUNK_SIZE <= n && n % 2 == 0
    ensures |h.heads| == |h.sizes| == MAX_BIN_INDEX + 1
    ensures var g := h.Cut(c, n).Push(c + n, First(h.sizes, h.At(c).size - n));
      g.Wf({c}) && Step(h, {c}, g, {c}) && g.At(c).size == n
  {
    hide Heap.Tiled, Heap.Linked, Heap.Ordered, Heap.Merged, Heap.At, Heap.Cut, Heap.Push, Heap.SetUse, First;
    CutStep(h, c, n, {c});
    var k := h.Cut(c, n);
    HeldUnlisted(h, c, {c});
    RestAlone(h, c, n, k);
    PushStep(k, c + n, {c} + {c + n}, First(h.sizes, h.At(c).size - n));
    assert {c} + {c + n} - {c + n} == {c};
  }

  lemma CutLists(h: Heap, c: nat, n: nat)
    requires n <= h.At(c).size
    ensures h.Cut(c, n).heads == h.heads && h.Cut(c, n).sizes == h.sizes
  {}

  lemma Sixteen(h: Heap, held: set<nat>)
    requires h.Wf(held)
    ensures |h.heads| == |h.sizes| == MAX_BIN_INDEX + 1
  {}

  lemma HeldUnlisted(h: Heap, c: nat, held: set<nat>)
    requires h.Roles(held) && c in held
    ensures c in h.chunks && c !in h.listed
  {}

  /** What taking a listed chunk achieves. */
  lemma TakenStep(h: Heap, c: nat, n: nat)
    requires h.Wf({}) && c in h.listed && MIN_CHUNK_SIZE <= n <= h.At(c).size && n % 2 == 0
    ensures 0 <= h.At(c).bin <= MAX_BIN_INDEX && |h.heads| == |h.sizes| == MAX_BIN_INDEX + 1
    ensures h.Unlink(c, h.At(c).bin).At(c).size == h.At(c).size
    ensures var g := h.Taken(c, n, h.At(c).bin);
      g.Wf({}) && g.end == h.end && g.Live() == h.Live() + {c} && n <= g.At(c).size < n + MIN_CHUNK_SIZE
      && forall d | d in h.Live() :: g.At(d).size == h.At(d).size
  {
    hide Heap.Wf, Heap.At, Heap.Unlink, Heap.Cut, Heap.Push, Heap.SetUse, Alone, Heap.Live, Heap.Next, First,
      SameLayout;
    LiveIs(h);
    UnlinkStep(h, c, {});
    var u := h.Unlink(c, h.At(c).bin);
    assert {} + {c} == {c};
    Sixteen(h, {});
    Sixteen(u, {c});
    CutLists(u, c, n);
    var s := h.At(c).size;
    var k := if s >= n + MIN_CHUNK_SIZE then u.Cut(c, n).Push(c + n, First(u.sizes, s - n)) else u;
    assert k.Wf({c}) && Step(u, {c}, k, {c}) && k.At(c).size == if s >= n + MIN_CHUNK_SIZE then n else s by {
      if s >= n + MIN_CHUNK_SIZE { SplitStep(u, c, n); }
    }
    UseStep(k, c, {c});
    assert {c} - {c} == {};
    assert h.Taken(c, n, h.At(c).bin) == k.SetUse(c, true);
    LiveIs(k.SetUse(c, true));
    assert Others(k.SetUse(c, true), {}) == Others(h, {}) + {c};
  }

  lemma RestAlone(h: Heap, c: nat, n: nat, g: Heap)
    requires Alone(h, c) && g.Next(c + n) == h.Next(c) && Left(g, c + n) == c && c !in g.listed && g.listed == h.listed
    ensures Alone(g, c + n)
  {}
}
