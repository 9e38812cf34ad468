/** Two runs on which the memory manager falls short, each from the empty heap. */
module HeapRuns {
  import opened Chunks
  import opened HeapLists
  import opened XMemory

  /** No lists, or no slab sizes. */
  function Zeros(): (s: seq<nat>)
    ensures |s| == MAX_BIN_INDEX + 1 && forall i | 0 <= i < |s| :: s[i] == 0
  {
    seq(MAX_BIN_INDEX + 1, i => 0)
  }

  // the chunks of the first run
  const A := HEAP_START
  const B := A + 2400
  const C := A + PAGE_SIZE
  const D := C + 2400

  /** Lists, slab sizes, topmost chunk and end of a heap. */
  ghost predicate Shows(h: Heap, heads: seq<nat>, sizes: seq<nat>, last: nat, end: nat, listed: set<nat>)
  {
    h.heads == heads && h.sizes == sizes && h.last == last && h.end == end && h.listed == listed
  }

  // ----- single steps where the residue list holds at most the chunk at hand

  function RunChunk(h: Heap, size: nat): Chunk
  {
    Chunk(if h.last == NULL then 0 else h.At(h.last).size, size, false, MAX_BIN_INDEX, NULL, NULL)
  }

  /** A fresh run behind a last chunk in use, or the first. */
  lemma FreshRun(h: Heap, k: Heap, n: nat)
    requires n > 0 && Grew(h, k, n) && (h.last == NULL || h.At(h.last).inUse) && h.heads[MAX_BIN_INDEX] == NULL
    requires h.end != NULL && AlignedPage(n) % 2 == 0
    ensures Shows(k, h.heads[MAX_BIN_INDEX := h.end], h.sizes, if h.last == NULL then h.end else h.last,
                  h.end + AlignedPage(n), h.listed + {h.end})
    ensures forall a: nat :: k.At(a) == if a == h.end then RunChunk(h, AlignedPage(n)) else h.At(a)
  {
    hide AlignedPage;
    var e := h.Appended(AlignedPage(n));
    PushShape(e, h.end, MAX_BIN_INDEX);
    forall a: nat { PushAt(e, h.end, MAX_BIN_INDEX, a); }
  }

  /** A chunk alone on the residue list is taken without a rest. */
  lemma TakenWhole(h: Heap, g: Heap, c: nat, n: nat)
    requires Took(h, g, c, n, MAX_BIN_INDEX) && h.heads[MAX_BIN_INDEX] == c != NULL
    requires h.At(c).fd == NULL && h.At(c).bk == NULL && h.At(c).size < n + MIN_CHUNK_SIZE
    ensures Shows(g, h.heads[MAX_BIN_INDEX := NULL], h.sizes, h.last, h.end, h.listed - {c})
    ensures forall a: nat :: g.At(a) == if a == c then h.At(c).(inUse := true, bin := -1) else h.At(a)
  {
    UnlinkShape(h, c, MAX_BIN_INDEX);
    forall a: nat { UnlinkAt(h, c, MAX_BIN_INDEX, a); }
  }

  function CutChunk(h: Heap, c: nat, n: nat, a: nat): Chunk
    requires n <= h.At(c).size
  {
    if a == c then h.At(c).(size := n, inUse := true, bin := -1)
    else if a == c + n then Chunk(n, h.At(c).size - n, false, MAX_BIN_INDEX, NULL, NULL)
    else h.At(a)
  }

  /** The last chunk, alone on the residue list, is taken with a rest that has no slab. */
  lemma TakenCut(h: Heap, g: Heap, c: nat, n: nat)
    requires Took(h, g, c, n, MAX_BIN_INDEX) && h.heads[MAX_BIN_INDEX] == c != NULL && h.last <= c
    requires h.At(c).fd == NULL && h.At(c).bk == NULL && h.At(c).size >= n + MIN_CHUNK_SIZE
    requires n > 0 && n % 2 == 0 && h.At(c).size % 2 == 0 && First(h.sizes, h.At(c).size - n) == MAX_BIN_INDEX
    ensures Shows(g, h.heads[MAX_BIN_INDEX := c + n], h.sizes, c + n, h.end, h.listed - {c} + {c + n})
    ensures forall a: nat :: g.At(a) == CutChunk(h, c, n, a)
  {
    hide Heap.Push, Heap.Unlink, First;
    var u := h.Unlink(c, MAX_BIN_INDEX);
    UnlinkShape(h, c, MAX_BIN_INDEX);
    forall a: nat ensures u.At(a) == if a == c then h.At(a).(bin := -1) else h.At(a) {
      UnlinkAt(h, c, MAX_BIN_INDEX, a);
    }
    var k := u.Cut(c, n);
    assert k.heads == u.heads;
    var p := k.Push(c + n, MAX_BIN_INDEX);
    PushShape(k, c + n, MAX_BIN_INDEX);
    forall a: nat
      ensures g.At(a) == CutChunk(h, c, n, a)
    {
      CutByHand(u, c, n, a);
      PushAt(k, c + n, MAX_BIN_INDEX, a);
      assert g.At(a) == if a == c then p.At(a).(inUse := true) else p.At(a);
    }
  }

  lemma CutByHand(u: Heap, c: nat, n: nat, a: nat)
    requires u.last <= c && 0 < n < u.At(c).size && n % 2 == 0 && u.At(c).size % 2 == 0
    ensures u.Cut(c, n).At(a) == (
      if a == c then u.At(c).(size := n, inUse := false)
      else if a == c + n then u.At(a).(prevSize := n, size := u.At(c).size - n, inUse := false)
      else u.At(a))
  {
    hide Heap.SetUse, Heap.SetSize, Heap.SetPrevSize, Heap.At;
    var s, d := u.At(c).size, c + n;
    assert (s - n) % 2 == 0;
    var h1 := u.SetUse(d, false);
    var h2 := h1.SetSize(d, s - n);
    var h3 := h2.SetSize(c, n);
    HeaderAt(u, d, 0, 0, a);
    HeaderAt(h1, d, s - n, 0, a);
    HeaderAt(h2, c, n, 0, a);
    HeaderAt(h3, d, 0, n, a);
    assert u.Cut(c, n).At(a) == h3.SetPrevSize(d, n).At(a) by {
      AtOnly(h3.SetPrevSize(d, n), if d > u.last then d else u.last, u.chunks + {d}, a);
    }
  }

  lemma AtOnly(h: Heap, last: nat, chunks: set<nat>, a: nat)
    ensures h.(last := last, chunks := chunks).At(a) == h.At(a)
  {}

  /** Where the header operations write. */
  lemma HeaderAt(h: Heap, c: nat, size: nat, prev: nat, a: nat)
    requires size % 2 == 0
    ensures h.SetUse(c, false).At(a) == if a == c then h.At(a).(inUse := false) else h.At(a)
    ensures h.SetSize(c, size).At(a) == if a == c then h.At(a).(size := size, inUse := false) else h.At(a)
    ensures h.SetPrevSize(c, prev).At(a) == if a == c then h.At(a).(prevSize := prev) else h.At(a)
  {}

  // ----- a last chunk that is on the wrong list

  ghost predicate One(h: Heap)
  {
    && Shows(h, Zeros()[MAX_BIN_INDEX := B], Zeros()[0 := 2400], B, C, {B})
    && h.At(A) == Chunk(0, 2400, true, -1, NULL, NULL) && h.At(B) == Chunk(2400, 1696, false, MAX_BIN_INDEX, NULL, NULL)
  }

  ghost predicate Two(h: Heap)
  {
    && Shows(h, Zeros(), Zeros()[0 := 2400][1 := 1680], B, C, {})
    && h.At(A) == Chunk(0, 2400, true, -1, NULL, NULL) && h.At(B) == Chunk(2400, 1696, true, -1, NULL, NULL)
  }

  ghost predicate Three(h: Heap)
  {
    && Shows(h, Zeros()[MAX_BIN_INDEX := D], Zeros()[0 := 2400][1 := 1680], D, C + PAGE_SIZE, {D})
    && h.At(A) == Chunk(0, 2400, true, -1, NULL, NULL) && h.At(B) == Chunk(2400, 1696, true, -1, NULL, NULL)
    && h.At(C) == Chunk(1696, 2400, true, -1, NULL, NULL)
    && h.At(D) == Chunk(2400, 1696, false, MAX_BIN_INDEX, NULL, NULL)
  }

  ghost predicate Four(h: Heap)
  {
    && Shows(h, Zeros()[2 := B][MAX_BIN_INDEX := D], Zeros()[0 := 2400][1 := 1680][2 := 1696], D, C + PAGE_SIZE, {B, D})
    && h.At(B) == Chunk(2400, 1696, false, 2, NULL, NULL)
    && h.At(D) == Chunk(2400, 1696, false, MAX_BIN_INDEX, NULL, NULL)
  }

  lemma Requests()
    ensures Request(2376) == 2400 && Request(1656) == 1680 && Request(3000) == 3024 && Request(4056) == 4080
    ensures AlignedPage(2400) == AlignedPage(4080) == PAGE_SIZE
  {}

  /** Nothing on the residue list is big enough and the slab is empty. */
  lemma NotServed(h: Heap, n: nat, i: nat)
    requires |h.heads| == |h.sizes| == MAX_BIN_INDEX + 1 && i < MAX_BIN_INDEX && h.sizes[i] == n && h.heads[i] == NULL
    requires forall k | 0 <= k < i :: h.sizes[k] != n
    requires forall c | c in h.listed && h.At(c).bin == MAX_BIN_INDEX :: h.At(c).size < n
    ensures !Served(h, n)
  {
    FirstIs(h.sizes, n, i);
  }

  lemma NoSlab(h: Heap, n: nat)
    requires |h.sizes| == MAX_BIN_INDEX + 1 && n > 0 && forall k | 0 <= k < MAX_BIN_INDEX :: h.sizes[k] != n
    ensures First(h.sizes, n) == MAX_BIN_INDEX
  {
    FirstIs(h.sizes, n, MAX_BIN_INDEX);
  }

  lemma Registers(h: Heap, size: nat, i: nat)
    requires |h.heads| == |h.sizes| == MAX_BIN_INDEX + 1 && 0 < size < PAGE_SIZE && i < MAX_BIN_INDEX && h.sizes[i] == 0
    requires forall k | 0 <= k < MAX_BIN_INDEX :: h.sizes[k] != size
    requires forall k | 0 <= k < i :: h.sizes[k] != 0
    ensures h.Register(size) == h.(sizes := h.sizes[i := size])
    ensures forall a: nat :: h.Register(size).At(a) == h.At(a)
  {
    NoSlab(h, size);
    FirstIs(h.sizes, 0, i);
  }

  lemma Known(h: Heap, size: nat, i: nat)
    requires |h.heads| == |h.sizes| == MAX_BIN_INDEX + 1 && size > 0 && i < MAX_BIN_INDEX && h.sizes[i] == size
    requires forall k | 0 <= k < i :: h.sizes[k] != size
    ensures h.Register(size) == h
  {
    FirstIs(h.sizes, size, i);
  }

  /** The heap g with n bytes in use at the start of a fresh page behind h. */
  ghost predicate CutFromRun(h: Heap, g: Heap, n: nat)
    requires |h.heads| == MAX_BIN_INDEX + 1 && n <= PAGE_SIZE
  {
    && Shows(g, h.heads[MAX_BIN_INDEX := h.end + n], h.sizes, h.end + n, h.end + PAGE_SIZE, h.listed + {h.end + n})
    && g.At(h.end) == RunChunk(h, n).(inUse := true, bin := -1)
    && g.At(h.end + n) == Chunk(n, PAGE_SIZE - n, false, MAX_BIN_INDEX, NULL, NULL)
    && forall a: nat | a < h.end :: g.At(a) == h.At(a)
  }

  /** A request that no list serves is cut from a fresh run of one page, and the rest has no slab. */
  lemma GrowsAndCuts(h: Heap, g: Heap, addr: nat, size: nat, n: nat)
    requires size > 0 && n == Request(size) && n % 2 == 0 && n + MIN_CHUNK_SIZE <= PAGE_SIZE == AlignedPage(n)
    requires |h.heads| == |h.sizes| == MAX_BIN_INDEX + 1 && !Served(h, n) && Produced(h, g, addr, size)
    requires (h.last == NULL || h.At(h.last).inUse) && h.heads[MAX_BIN_INDEX] == NULL != h.end && h.last < h.end
    requires h.end !in h.listed
    requires forall k | 0 <= k < MAX_BIN_INDEX :: h.sizes[k] != PAGE_SIZE - n
    ensures addr == h.end + UNIT_SIZE && CutFromRun(h, g, n)
  {
    hide Served, First, Grew, Took, AlignedSize, AlignedPage;
    var k :| Grew(h, k, n) && Took(k, g, h.end, n, MAX_BIN_INDEX);
    FreshRun(h, k, n);
    NoSlab(k, PAGE_SIZE - n);
    TakenCut(k, g, h.end, n);
    assert h.listed + {h.end} - {h.end} == h.listed;
  }

  ghost predicate Zero(h: Heap)
  {
    Shows(h, Zeros(), Zeros(), NULL, A, {})
  }

  lemma ToOne(h: Heap, g: Heap, addr: nat)
    requires Zero(h)
    ensures !Misfiled(Registered(h, 2376)) && !Served(Registered(h, 2376), Request(2376))
    ensures Settles(Registered(h, 2376), Request(2376))
    ensures Produced(Registered(h, 2376), g, addr, 2376) ==> One(g)
  {
    hide Zeros, First, Served, Produced, Heap.Register, Heap.At;
    Requests();
    hide Request, AlignedSize, AlignedPage;
    Registers(h, 2400, 0);
    var r := Registered(h, 2376);
    NotServed(r, 2400, 0);
    if Produced(r, g, addr, 2376) {
      GrowsAndCuts(r, g, addr, 2376, 2400);
    }
  }

  lemma ToTwo(h: Heap, g: Heap, addr: nat)
    requires One(h)
    ensures Served(Registered(h, 1656), Request(1656))
    ensures Allocated(Registered(h, 1656), g, addr, 1656) && Produced(Registered(h, 1656), g, addr, 1656) ==>
      Two(g) && addr == B + UNIT_SIZE
  {
    hide Zeros, First, Heap.Register, Heap.At, Took;
    Requests();
    hide Request, AlignedSize, AlignedPage;
    Registers(h, 1680, 1);
    var r := Registered(h, 1656);
    assert B in r.listed && r.At(B).bin == MAX_BIN_INDEX && r.At(B).size >= 1680;
    if Allocated(r, g, addr, 1656) && Produced(r, g, addr, 1656) {
      assert Fitting(r, 1680, addr - UNIT_SIZE);
      TakenWhole(r, g, B, 1680);
    }
  }

  lemma ToThree(h: Heap, g: Heap, addr: nat)
    requires Two(h)
    ensures !Misfiled(Registered(h, 2376)) && !Served(Registered(h, 2376), Request(2376))
    ensures Settles(Registered(h, 2376), Request(2376))
    ensures Produced(Registered(h, 2376), g, addr, 2376) ==> Three(g)
  {
    hide Zeros, First, Served, Produced, Heap.Register, Heap.At;
    Requests();
    hide Request, AlignedSize, AlignedPage;
    Known(h, 2400, 0);
    NotServed(h, 2400, 0);
    if Produced(h, g, addr, 2376) {
      GrowsAndCuts(h, g, addr, 2376, 2400);
    }
  }

  lemma ToFour(h: Heap, g: Heap)
    requires Three(h) && Freed(h, g, B)
    ensures Four(g)
  {
    hide Zeros, First, Heap.Register, Heap.At, Heap.Push, Heap.SetUse, Heap.Unlink, Heap.Join;
    Registers(h, 1696, 2);
    var r := h.Register(1696);
    var k, m, d :|
      && JoinedLeft(r, k, B, d) && JoinedRight(k, m, d)
      && |m.heads| == |m.sizes| == MAX_BIN_INDEX + 1
      && g == m.Push(d, First(m.sizes, m.At(d).size)).SetUse(d, false);
    assert m == r && d == B;
    FirstIs(m.sizes, 1696, 2);
    PushShape(m, B, 2);
    PushAt(m, B, 2, B);
    PushAt(m, B, 2, D);
    UsedAt(m.Push(B, 2), B, D);
  }

  lemma UsedAt(h: Heap, c: nat, d: nat)
    requires c != d
    ensures var g := h.SetUse(c, false);
      g.(m := h.m) == h && g.At(c) == h.At(c).(inUse := false) && g.At(d) == h.At(d)
  {}

  lemma ToStop(h: Heap)
    requires Four(h)
    ensures !Served(Registered(h, 3000), Request(3000)) && Misfiled(Registered(h, 3000))
  {
    hide Zeros, First, Served, Heap.Register, Heap.At;
    Requests();
    hide Request, AlignedSize, AlignedPage;
    Registers(h, 3024, 3);
    var r := Registered(h, 3000);
    NotServed(r, 3024, 3);
    FirstIs(r.sizes, 1696, 2);
  }

  /** An allocation after which the heap is well-formed. */
  lemma BlockKept(h: Heap, g: Heap, addr: nat, size: nat)
    requires size > 0 && |h.heads| == |h.sizes| == MAX_BIN_INDEX + 1
    requires Allocated(Registered(h, size), g, addr, size)
    requires Served(Registered(h, size), Request(size)) || Settles(Registered(h, size), Request(size))
    ensures addr >= UNIT_SIZE && g.Wf({}) && g.Live() == h.Live() + {addr - UNIT_SIZE}
  {
    hide Heap.Wf, Served, Settles, Fitting, Request, Heap.At;
    SameLive(h, Registered(h, size));
  }

  lemma SameLive(h: Heap, r: Heap)
    requires r.m == h.m && r.chunks == h.chunks
    ensures r.Live() == h.Live()
  {
    assert forall c | c in h.chunks :: r.At(c) == h.At(c);
  }

  method AllocateFirst(heap: MemoryManager)
    requires heap.Valid() && Zero(heap.Value())
    modifies heap, heap.freeList, heap.freeSizeList
    ensures heap.Valid() && One(heap.Value())
  {
    hide Zero, One, Misfiled, Served, Settles, Produced, Allocated, Request, Registered, Heap.Wf, Heap.Live;
    ghost var h := heap.Value();
    var r := heap.Allocate(2376);
    ToOne(h, heap.Value(), if r.Block? then r.addr else 0);
    BlockKept(h, heap.Value(), r.addr, 2376);
  }

  method AllocateSecond(heap: MemoryManager) returns (addr: nat)
    requires heap.Valid() && One(heap.Value())
    modifies heap, heap.freeList, heap.freeSizeList
    ensures heap.Valid() && Two(heap.Value()) && addr == B + UNIT_SIZE && B in heap.Value().Live()
  {
    hide One, Two, Misfiled, Served, Settles, Produced, Allocated, Request, Registered, Heap.Wf, Heap.Live;
    ghost var h := heap.Value();
    var r := heap.Allocate(1656);
    ToTwo(h, heap.Value(), if r.Block? then r.addr else 0);
    BlockKept(h, heap.Value(), r.addr, 1656);
    addr := r.addr;
  }

  method AllocateThird(heap: MemoryManager)
    requires heap.Valid() && Two(heap.Value())
    modifies heap, heap.freeList, heap.freeSizeList
    ensures heap.Valid() && Three(heap.Value()) && old(heap.Value().Live()) <= heap.Value().Live()
  {
    hide Two, Three, Misfiled, Served, Settles, Produced, Allocated, Request, Registered, Heap.Wf, Heap.Live;
    ghost var h := heap.Value();
    var r := heap.Allocate(2376);
    ToThree(h, heap.Value(), if r.Block? then r.addr else 0);
    BlockKept(h, heap.Value(), r.addr, 2376);
  }

  /** From the empty heap to a stop: freeing the second block gives its size a slab while the last
      chunk, of the same size, is on the residue list already, so that the next growth looks for the
      last chunk on the wrong list. */
  method MisfiledRun() returns (heap: MemoryManager, r: Allocation)
    ensures r == Stopped
  {
    hide Zero, One, Two, Three, Four, Misfiled, Served, Produced, Allocated, Request, Registered, Freed, Heap.Live,
      Heap.Wf;
    heap := new MemoryManager();
    EmptyIsZero();
    AllocateFirst(heap);
    var second := AllocateSecond(heap);
    AllocateThird(heap);
    ghost var h := heap.Value();
    heap.Free(second);
    ToFour(h, heap.Value());
    ToStop(heap.Value());
    r := heap.Allocate(3000);
  }

  lemma EmptyIsZero()
    ensures Zero(EmptyHeap)
  {}

  // ----- a last-chunk pointer left behind

  ghost predicate Filled(h: Heap)
  {
    Shows(h, Zeros(), Zeros()[0 := 4080], A, C, {}) && h.At(A) == Chunk(0, PAGE_SIZE, true, -1, NULL, NULL)
  }

  /** A request that fills a fresh page leaves no rest, and the last-chunk pointer where it was. */
  lemma FillsPage(h: Heap, g: Heap, addr: nat)
    requires |h.heads| == |h.sizes| == MAX_BIN_INDEX + 1 && !Served(h, 4080) && Produced(h, g, addr, 4056)
    requires (h.last == NULL || h.At(h.last).inUse) && h.heads[MAX_BIN_INDEX] == NULL != h.end && h.end !in h.listed
    ensures addr == h.end + UNIT_SIZE
    ensures Shows(g, h.heads[MAX_BIN_INDEX := NULL], h.sizes, if h.last == NULL then h.end else h.last,
                  h.end + PAGE_SIZE, h.listed)
    ensures g.At(h.end) == RunChunk(h, PAGE_SIZE).(inUse := true, bin := -1)
  {
    hide Served, Grew, Took, Heap.At;
    Requests();
    hide Request, AlignedSize, AlignedPage;
    var k :| Grew(h, k, 4080) && Took(k, g, h.end, 4080, MAX_BIN_INDEX);
    FreshRun(h, k, 4080);
    TakenWhole(k, g, h.end, 4080);
    assert h.listed + {h.end} - {h.end} == h.listed;
  }

  lemma ToFilled(h: Heap, g: Heap, addr: nat)
    requires Zero(h)
    ensures !Misfiled(Registered(h, 4056)) && Settles(Registered(h, 4056), Request(4056))
    ensures Produced(Registered(h, 4056), g, addr, 4056) ==> Filled(g)
  {
    hide Zeros, First, Served, Produced, Heap.Register, Heap.At;
    Requests();
    hide Request, AlignedSize, AlignedPage;
    Registers(h, 4080, 0);
    var r := Registered(h, 4056);
    NotServed(r, 4080, 0);
    if Produced(r, g, addr, 4056) { FillsPage(r, g, addr); }
  }

  lemma ToBehind(h: Heap, g: Heap, addr: nat)
    requires Filled(h)
    ensures var r := Registered(h, 4056);
      !Misfiled(r) && !Served(r, Request(4056)) && !Settles(r, Request(4056))
      && (Produced(r, g, addr, 4056) ==> g.last == A && addr == C + UNIT_SIZE)
  {
    hide Zeros, First, Served, Produced, Heap.Register, Heap.At;
    Requests();
    hide Request, AlignedSize, AlignedPage;
    Known(h, 4080, 0);
    NotServed(h, 4080, 0);
    if Produced(h, g, addr, 4056) { FillsPage(h, g, addr); }
  }

  lemma Unsettled(h: Heap, g: Heap, addr: nat, size: nat)
    requires size > 0 && |h.heads| == |h.sizes| == MAX_BIN_INDEX + 1 && Allocated(Registered(h, size), g, addr, size)
    requires !Served(Registered(h, size), Request(size)) && !Settles(Registered(h, size), Request(size))
    ensures addr >= UNIT_SIZE && !g.Wf({}) && addr - UNIT_SIZE in g.Live()
  {
    hide Heap.Wf, Served, Settles, Fitting, Request, Heap.At;
  }

  /** From the empty heap to a live chunk above the last-chunk pointer: twice a request that fills a
      page but for 16 bytes. */
  method UnsettledRun() returns (heap: MemoryManager)
    ensures !heap.Valid() && heap.lastChunk == A && C in heap.Value().Live()
  {
    hide Zero, Filled, Misfiled, Served, Settles, Produced, Allocated, Request, Registered, Heap.Live, Heap.Wf;
    heap := new MemoryManager();
    EmptyIsZero();
    ghost var h := heap.Value();
    var r := heap.Allocate(4056);
    ToFilled(h, heap.Value(), if r.Block? then r.addr else 0);
    BlockKept(h, heap.Value(), r.addr, 4056);
    h := heap.Value();
    r := heap.Allocate(4056);
    ToBehind(h, heap.Value(), if r.Block? then r.addr else 0);
    Unsettled(h, heap.Value(), r.addr, 4056);
  }
}
