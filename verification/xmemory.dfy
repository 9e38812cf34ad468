/** The memory manager: the free lists, the slab sizes and the chunk headers it changes in place. */
module XMemory {
  import opened Chunks
  import opened HeapLists
  import opened HeapLayout
  import opened HeapSteps
  import opened HeapGrowth

  const HEAP_MAX_ADDR := 0x38000000

  /** Nothing for a request of no bytes; the address of a block; or a failed check in the list
      removal, which stops the program. */
  datatype Allocation = Nothing | Block(addr: nat) | Stopped

  /** The free lists have a chunk for n bytes: the slab of that size is not empty, or some chunk on
      the residue list is big enough when there is no such slab or it is empty. */
  ghost predicate Served(h: Heap, n: nat)
    requires |h.heads| == |h.sizes| == MAX_BIN_INDEX + 1
  {
    var b := First(h.sizes, n);
    (b < MAX_BIN_INDEX && h.heads[b] != NULL) || exists c ::
      c in h.listed && h.At(c).bin == MAX_BIN_INDEX && h.At(c).size >= n
  }

  /** The chunk that serves n bytes: first in its slab, or first fit on the residue list. */
  ghost predicate Fitting(h: Heap, n: nat, c: nat)
    requires |h.heads| == |h.sizes| == MAX_BIN_INDEX + 1
  {
    var b := First(h.sizes, n);
    && c in h.listed && h.At(c).size >= n
    && if b < MAX_BIN_INDEX && h.heads[b] != NULL then c == h.heads[b]
       else
         h.At(c).bin == MAX_BIN_INDEX && c in h.stamp
         && forall d | d in h.listed && d in h.stamp && h.At(d).bin == MAX_BIN_INDEX && h.stamp[d] > h.stamp[c] ::
           h.At(d).size < n
  }

  /** The last chunk is free but not on the list its size has now. */
  ghost predicate Misfiled(h: Heap)
    requires |h.sizes| == MAX_BIN_INDEX + 1
  {
    h.last != NULL && !h.At(h.last).inUse && h.At(h.last).bin != First(h.sizes, h.At(h.last).size)
  }

  /** A fresh run for n bytes leaves a rest to cut off, or joins the last chunk, or is the first. */
  predicate Settles(h: Heap, n: nat)
    requires n > 0
  {
    h.last == NULL || !h.At(h.last).inUse || AlignedPage(n) >= n + MIN_CHUNK_SIZE
  }

  /** The chunk size for a request. */
  function Request(size: nat): nat
    requires size > 0
  {
    AlignedSize(size) + UNIT_SIZE
  }

  function Registered(h: Heap, size: nat): Heap
    requires size > 0 && |h.heads| == |h.sizes| == MAX_BIN_INDEX + 1
  {
    h.Register(Request(size))
  }

  /** What a block at addr for the given size means, h being the heap once the size is registered. */
  ghost predicate Allocated(h: Heap, g: Heap, addr: nat, size: nat)
    requires size > 0 && |h.heads| == |h.sizes| == MAX_BIN_INDEX + 1
  {
    var c, n := addr - UNIT_SIZE, Request(size);
    && c >= HEAP_START && c !in h.Live() && g.Live() == h.Live() + {c}
    && (forall d | d in h.Live() :: g.At(d).size == h.At(d).size)
    && g.At(c).size >= size + UNIT_SIZE
    && g.(last := if g.last < c then c else g.last).Wf({})
    && if Served(h, n) then Fitting(h, n, c) && g.end == h.end && g.At(c).size < n + MIN_CHUNK_SIZE && g.Wf({})
       else g.end == h.end + AlignedPage(n) && (g.Wf({}) <==> Settles(h, n))
  }

  /** Slot i is the first of the fifteen that holds the value. */
  ghost predicate IsFirst(s: seq<nat>, v: nat, i: nat)
  {
    |s| == MAX_BIN_INDEX + 1 && i < MAX_BIN_INDEX && s[i] == v && forall k | 0 <= k < i :: s[k] != v
  }

  /** The slab table once a size has been registered: as it was, for a page or more and for a size
      that has a slab; otherwise the first unused slot is taken, or else the first whose list is empty;
      if there is neither, the table is full. */
  ghost predicate TableStep(sizes: seq<nat>, heads: seq<nat>, sizes': seq<nat>, size: nat)
  {
    if size >= PAGE_SIZE || exists i: nat :: IsFirst(sizes, size, i) then sizes' == sizes
    else if exists i: nat :: IsFirst(sizes, 0, i) then
      exists i: nat :: IsFirst(sizes, 0, i) && sizes' == sizes[i := size]
    else if exists i: nat :: IsFirst(heads, NULL, i) then
      exists i: nat :: IsFirst(heads, NULL, i) && i < |sizes| && sizes' == sizes[i := size]
    else sizes' == sizes
  }

  lemma FirstOrNone(s: seq<nat>, v: nat)
    requires |s| == MAX_BIN_INDEX + 1
    ensures if First(s, v) < MAX_BIN_INDEX then IsFirst(s, v, First(s, v)) else forall i: nat :: !IsFirst(s, v, i)
  {}

  lemma RegisterTable(h: Heap, size: nat)
    requires |h.heads| == |h.sizes| == MAX_BIN_INDEX + 1
    ensures TableStep(h.sizes, h.heads, h.Register(size).sizes, size)
  {
    hide First;
    FirstOrNone(h.sizes, size);
    FirstOrNone(h.sizes, 0);
    FirstOrNone(h.heads, NULL);
  }

  /** A registered size has a slab, unless all slabs are in use and no list is empty. */
  lemma RegisteredOrFull(sizes: seq<nat>, heads: seq<nat>, sizes': seq<nat>, size: nat)
    requires |sizes| == |heads| == MAX_BIN_INDEX + 1 && 0 < size < PAGE_SIZE && TableStep(sizes, heads, sizes', size)
    ensures (exists i :: 0 <= i < MAX_BIN_INDEX && i < |sizes'| && sizes'[i] == size) <==>
      (exists i :: 0 <= i < MAX_BIN_INDEX && (sizes[i] == size || sizes[i] == 0 || heads[i] == NULL))
  {
    hide First;
    forall i | 0 <= i < MAX_BIN_INDEX
      ensures sizes[i] == size ==> exists k: nat :: IsFirst(sizes, size, k)
      ensures sizes[i] == 0 ==> exists k: nat :: IsFirst(sizes, 0, k)
      ensures heads[i] == NULL ==> exists k: nat :: IsFirst(heads, NULL, k)
    {
      if sizes[i] == size { LeastSlot(sizes, size, i); }
      if sizes[i] == 0 { LeastSlot(sizes, 0, i); }
      if heads[i] == NULL { LeastSlot(heads, NULL, i); }
    }
    if exists i: nat :: IsFirst(sizes, size, i) {
      var i: nat :| IsFirst(sizes, size, i);
      assert sizes'[i] == size;
    } else if exists i: nat :: IsFirst(sizes, 0, i) {
      var i: nat :| IsFirst(sizes, 0, i) && sizes' == sizes[i := size];
      assert sizes'[i] == size && sizes[i] == 0;
    } else if exists i: nat :: IsFirst(heads, NULL, i) {
      var i: nat :| IsFirst(heads, NULL, i) && i < |sizes| && sizes' == sizes[i := size];
      assert sizes'[i] == size && heads[i] == NULL;
    }
  }

  lemma LeastSlot(s: seq<nat>, v: nat, i: nat)
    requires |s| == MAX_BIN_INDEX + 1 && i < MAX_BIN_INDEX && s[i] == v
    ensures exists k: nat :: IsFirst(s, v, k)
  {
    FirstOrNone(s, v);
  }

  /** A free chunk is first on the list of the first slab of its size, or on the residue list. */
  ghost predicate Filed(h: Heap, d: nat)
  {
    && d in h.listed && |h.heads| == |h.sizes| == MAX_BIN_INDEX + 1
    && var b := h.At(d).bin;
       && 0 <= b <= MAX_BIN_INDEX && h.heads[b] == d
       && if b < MAX_BIN_INDEX then IsFirst(h.sizes, h.At(d).size, b)
          else forall i: nat :: !IsFirst(h.sizes, h.At(d).size, i)
  }

  lemma FiledIn(h: Heap, d: nat)
    requires d in h.listed && |h.heads| == |h.sizes| == MAX_BIN_INDEX + 1
    requires h.At(d).bin == First(h.sizes, h.At(d).size) && h.heads[First(h.sizes, h.At(d).size)] == d
    ensures Filed(h, d)
  {
    FirstOrNone(h.sizes, h.At(d).size);
  }

  /** The size of chunk c is registered, and the free chunk that covers it is filed. */
  ghost predicate Refiled(h: Heap, g: Heap, c: nat)
  {
    TableStep(h.sizes, h.heads, g.sizes, h.At(c).size) && exists d: nat :: d <= c < g.Next(d) && Filed(g, d)
  }

  /** A chunk put first on the list of its size is filed. */
  lemma PushFiled(m: Heap, c: nat)
    requires |m.heads| == |m.sizes| == MAX_BIN_INDEX + 1 && c != NULL && c !in m.listed
    requires forall b | 0 <= b <= MAX_BIN_INDEX :: m.heads[b] != c
    ensures var g := m.Push(c, First(m.sizes, m.At(c).size)).SetUse(c, false);
      Filed(g, c) && g.Next(c) == m.Next(c)
  {
    hide First, Heap.Push, Heap.SetUse;
    var b := First(m.sizes, m.At(c).size);
    PushShape(m, c, b);
    PushAt(m, c, b, c);
    UseShape2(m.Push(c, b), c);
    FiledIn(m.Push(c, b).SetUse(c, false), c);
  }

  /** What is cut off is filed by its size. */
  ghost predicate RestFiled(h: Heap, g: Heap, c: nat, n: nat)
  {
    h.At(c).size >= n + MIN_CHUNK_SIZE ==> g.At(c + n).size == h.At(c).size - n && Filed(g, c + n)
  }

  /** The heap before anything was allocated. */
  const EmptyHeap: Heap :=
    Heap(map[], seq(MAX_BIN_INDEX + 1, i => NULL), seq(MAX_BIN_INDEX + 1, i => 0), NULL, HEAP_START, {}, {}, map[], 0)

  /** The chunk that a fresh run becomes or joins. */
  function FreshChunk(h: Heap): nat
  {
    if h.last != NULL && !h.At(h.last).inUse then h.last else h.end
  }

  /** The state g after a fresh run for n bytes: listed as residue, with a last-chunk pointer that
      stays behind a last chunk in use. */
  ghost predicate Grew(h: Heap, g: Heap, n: nat)
    requires n > 0
  {
    && |h.heads| == MAX_BIN_INDEX + 1
    && if h.last != NULL && !h.At(h.last).inUse then
         && 0 <= h.At(h.last).bin <= MAX_BIN_INDEX
         && g == h.Unlink(h.last, h.At(h.last).bin).Extended(AlignedPage(n)).Push(h.last, MAX_BIN_INDEX)
       else
         g == h.Appended(AlignedPage(n)).Push(h.end, MAX_BIN_INDEX).(last := if h.last == NULL then h.end else h.last)
  }

  /** The state g after chunk c of list b was taken for n bytes. */
  ghost predicate Took(h: Heap, g: Heap, c: nat, n: nat, b: int)
  {
    && 0 <= b <= MAX_BIN_INDEX && |h.heads| == |h.sizes| == MAX_BIN_INDEX + 1
    && n <= h.Unlink(c, b).At(c).size && g == h.Taken(c, n, b)
  }

  /** The whole state g after an allocation, h being the heap once the size is registered. */
  ghost predicate Produced(h: Heap, g: Heap, addr: nat, size: nat)
    requires size > 0 && |h.heads| == |h.sizes| == MAX_BIN_INDEX + 1
  {
    addr >= UNIT_SIZE &&
    var c, n := addr - UNIT_SIZE, Request(size);
    if Served(h, n) then Took(h, g, c, n, h.At(c).bin) && RestFiled(h, g, c, n)
    else c == FreshChunk(h) && exists k :: Grew(h, k, n) && Took(k, g, c, n, MAX_BIN_INDEX) && RestFiled(k, g, c, n)
  }

  /** A chunk that was in use and is not held by a list yet, joined with a free left neighbour. */
  ghost predicate JoinedLeft(h: Heap, g: Heap, c: nat, d: nat)
  {
    && |h.heads| == MAX_BIN_INDEX + 1 && h.At(c).prevSize <= c
    && var p := c - h.At(c).prevSize;
       if h.At(p).inUse then g == h && d == c
       else d == p && 0 <= h.At(p).bin <= MAX_BIN_INDEX && g == h.Unlink(p, h.At(p).bin).Join(p, c)
  }

  /** The same for a free right neighbour. */
  ghost predicate JoinedRight(h: Heap, g: Heap, c: nat)
  {
    && |h.heads| == MAX_BIN_INDEX + 1
    && var n := h.Next(c);
       if n <= h.last && !h.At(n).inUse then 0 <= h.At(n).bin <= MAX_BIN_INDEX
         && g == h.Unlink(n, h.At(n).bin).Join(c, n)
       else g == h
  }

  /** The whole state g after chunk c was freed. */
  ghost predicate Freed(h: Heap, g: Heap, c: nat)
  {
    && |h.heads| == |h.sizes| == MAX_BIN_INDEX + 1
    && exists k, m, d ::
         && JoinedLeft(h.Register(h.At(c).size), k, c, d) && JoinedRight(k, m, d)
         && |m.heads| == |m.sizes| == MAX_BIN_INDEX + 1
         && g == m.Push(d, First(m.sizes, m.At(d).size)).SetUse(d, false)
  }

  class MemoryManager {
    var mem: map<nat, Chunk>
    const freeList: array<nat>
    const freeSizeList: array<nat>
    var lastChunk: nat
    var sizeHeap: nat
    ghost var chunks: set<nat>
    ghost var listed: set<nat>
    ghost var stamp: map<nat, nat>
    ghost var clock: nat

    ghost predicate Shape()
    {
      freeList.Length == MAX_BIN_INDEX + 1 && freeSizeList.Length == MAX_BIN_INDEX + 1 && freeList != freeSizeList
    }

    ghost function Value(): Heap
      reads this, freeList, freeSizeList
    {
      Heap(mem, freeList[..], freeSizeList[..], lastChunk, HEAP_START + sizeHeap, chunks, listed, stamp, clock)
    }

    ghost predicate Valid()
      reads this, freeList, freeSizeList
    {
      Shape() && Value().Wf({})
    }

    constructor ()
      ensures Valid() && Value() == EmptyHeap && Value().Live() == {}
      ensures fresh(freeList) && fresh(freeSizeList)
    {
      mem, lastChunk, sizeHeap := map[], NULL, 0;
      freeList, freeSizeList := new nat[MAX_BIN_INDEX + 1](i => NULL), new nat[MAX_BIN_INDEX + 1](i => 0);
      chunks, listed, stamp, clock := {}, {}, map[], 0;
    }

    function At(c: nat): Chunk
      reads this`mem
    {
      if c in mem then mem[c] else Blank
    }

    // ----- header fields

    method SetSize(c: nat, size: nat)
      modifies this`mem
      ensures Value() == old(Value()).SetSize(c, size)
    {
      mem := mem[c := At(c).(size := size - size % 2, inUse := false)];
    }

    method SetPrevSize(c: nat, size: nat)
      modifies this`mem
      ensures Value() == old(Value()).SetPrevSize(c, size)
    {
      mem := mem[c := At(c).(prevSize := size)];
    }

    method SetUse(c: nat, inUse: bool)
      modifies this`mem
      ensures Value() == old(Value()).SetUse(c, inUse)
    {
      mem := mem[c := At(c).(inUse := inUse)];
    }

    method SetFd(c: nat, next: nat)
      modifies this`mem
      ensures Value() == old(Value()).SetFd(c, next)
    {
      mem := mem[c := At(c).(fd := next)];
    }

    method SetBk(c: nat, prev: nat)
      requires c != NULL
      modifies this`mem
      ensures Value() == old(Value()).SetBk(c, prev)
    {
      mem := mem[c := At(c).(bk := prev)];
    }

    // ----- the slab table

    /** The first slab slot whose entry is the value, or else the residue slot. */
    method FindSlot(slots: array<nat>, v: nat) returns (i: nat)
      requires slots.Length == MAX_BIN_INDEX + 1
      ensures i == First(slots[..], v)
    {
      i := 0;
      while i < MAX_BIN_INDEX && slots[i] != v
        invariant i <= MAX_BIN_INDEX && forall k | 0 <= k < i :: slots[k] != v
      {
        i := i + 1;
      }
      FirstIs(slots[..], v, i);
    }

    method RegisterSlab(size: nat)
      requires Shape()
      modifies freeSizeList
      ensures Value() == old(Value()).Register(size)
      ensures TableStep(old(Value()).sizes, old(Value()).heads, Value().sizes, size)
    {
      RegisterTable(Value(), size);
      hide TableStep;
      ClaimSlot(size);
    }

    /** The searches and the single write of `RegisterSlab`. */
    method ClaimSlot(size: nat)
      requires Shape()
      modifies freeSizeList
      ensures Value() == old(Value()).Register(size)
    {
      hide First;
      if size >= PAGE_SIZE { return; }
      var i := FindSlot(freeSizeList, size);
      if i < MAX_BIN_INDEX { return; }
      i := FindSlot(freeSizeList, 0);
      if i < MAX_BIN_INDEX {
        freeSizeList[i] := size;
        assert freeSizeList[..] == old(freeSizeList[..])[i := size];
        return;
      }
      i := FindSlot(freeList, NULL);
      if i < MAX_BIN_INDEX {
        freeSizeList[i] := size;
        assert freeSizeList[..] == old(freeSizeList[..])[i := size];
      }
    }

    // ----- the free lists

    method InsertToFreeList(chunk: nat, b: nat)
      requires Shape() && b <= MAX_BIN_INDEX && chunk != NULL
      modifies this`mem, this`listed, this`stamp, this`clock, freeList
      ensures Value() == old(Value()).Push(chunk, b)
    {
      hide Heap.SetFd;
      if freeList[b] == NULL {
        SetBk(chunk, NULL);
        SetFd(chunk, NULL);
        freeList[b] := chunk;
      } else {
        SetBk(chunk, NULL);
        SetFd(chunk, freeList[b]);
        SetBk(freeList[b], chunk);
        freeList[b] := chunk;
      }
      mem := mem[chunk := At(chunk).(bin := b)];
      assert freeList[..] == old(freeList[..])[b := chunk];
      listed, stamp, clock := listed + {chunk}, stamp[chunk := clock], clock + 1;
    }

    method RemoveFromFreeList(chunk: nat, b: nat)
      requires Shape() && b <= MAX_BIN_INDEX && chunk != NULL && At(chunk).bin == b
      modifies this`mem, this`listed, freeList
      ensures Value() == old(Value()).Unlink(chunk, b)
    {
      var next, prev := At(chunk).fd, At(chunk).bk;
      if chunk == freeList[b] {
        freeList[b] := next;
        assert freeList[..] == old(freeList[..])[b := next];
        if next != NULL { SetBk(next, NULL); }
      } else {
        SetFd(prev, next);
        if next != NULL { SetBk(next, prev); }
      }
      mem := mem[chunk := At(chunk).(bin := -1)];
      listed := listed - {chunk};
    }

    // ----- chunks in memory

    method Coalesce(head: nat, tail: nat) returns (r: nat)
      requires Shape() && head + At(head).size == tail
      modifies this`mem, this`lastChunk, this`chunks
      ensures Value() == old(Value()).Join(head, tail) && r == head
    {
      hide Heap.SetSize, Heap.SetPrevSize;
      var next := tail + At(tail).size;
      var size := At(head).size + At(tail).size;
      SetSize(head, size);
      if next <= lastChunk {
        SetPrevSize(next, size);
      }
      if tail == lastChunk { lastChunk := head; }
      chunks := chunks - {tail};
      r := head;
    }

    /** The chunk is first in a slab of its own size, or first fit on the residue list. */
    method FindChunk(reqSize: nat) returns (c: nat, b: nat)
      requires Valid() && reqSize > 0
      ensures b <= MAX_BIN_INDEX && |Value().heads| == |Value().sizes| == MAX_BIN_INDEX + 1
      ensures c == NULL <==> !Served(Value(), reqSize)
      ensures c != NULL ==> Fitting(Value(), reqSize, c) && b == Value().At(c).bin
    {
      hide First, Heap.Tiled, Heap.Linked, Heap.Ordered, Heap.Merged, Heap.Roles;
      ghost var h := Value();
      var i := FindSlot(freeSizeList, reqSize);
      if i == MAX_BIN_INDEX || freeList[i] == NULL {
        b := MAX_BIN_INDEX;
        c := freeList[MAX_BIN_INDEX];
        ResidueHead(h, reqSize);
        while c != NULL
          invariant SearchedTo(h, reqSize, c)
          decreases if c in h.stamp && c != NULL then h.stamp[c] + 1 else 0
        {
          SearchNext(h, reqSize, c);
          if At(c).size >= reqSize { return; }
          c := At(c).fd;
        }
      } else {
        c, b := freeList[i], i;
        SlabHead(h, reqSize, i);
      }
    }

    /** The chunk leaves its list; what is too much of it is cut off and listed. */
    method UseChunk(chunk: nat, reqSize: nat, b: nat)
      requires Shape() && b <= MAX_BIN_INDEX && chunk != NULL && At(chunk).bin == b && reqSize > 0
      requires Value().Unlink(chunk, b).At(chunk).size == At(chunk).size && reqSize <= At(chunk).size
      modifies this`mem, this`lastChunk, this`chunks, this`listed, this`stamp, this`clock, freeList
      ensures Value() == old(Value()).Taken(chunk, reqSize, b)
    {
      hide Heap.Unlink, Heap.Push, First, Heap.SetUse, Heap.Cut;
      ghost var h := Value();
      var s := At(chunk).size;
      RemoveFromFreeList(chunk, b);
      ghost var u := Value();
      assert u == h.Unlink(chunk, b) && At(chunk) == u.At(chunk);
      if s >= reqSize + MIN_CHUNK_SIZE {
        CutOff(chunk, reqSize);
        var bin := FindSlot(freeSizeList, s - reqSize);
        CutLists(u, chunk, reqSize);
        assert Value() == u.Cut(chunk, reqSize);
        InsertToFreeList(chunk + reqSize, bin);
      }
      SetUse(chunk, true);
    }

    /** The headers of a chunk and of the rest cut off from it. */
    method CutOff(chunk: nat, reqSize: nat)
      requires Shape() && reqSize <= At(chunk).size
      modifies this`mem, this`lastChunk, this`chunks
      ensures Value() == old(Value()).Cut(chunk, reqSize)
    {
      hide Heap.SetUse, Heap.SetSize, Heap.SetPrevSize;
      var s := At(chunk).size;
      var next := chunk + s;
      var newChunk := chunk + reqSize;
      var rest := s - reqSize;
      SetUse(newChunk, false);
      SetSize(newChunk, rest);
      SetSize(chunk, reqSize);
      SetPrevSize(newChunk, reqSize);
      if next <= lastChunk {
        SetPrevSize(next, rest);
      }
      if newChunk > lastChunk { lastChunk := newChunk; }
      chunks := chunks + {newChunk};
    }

    // ----- free

    /** A left neighbour that is free leaves its list and takes the chunk in. */
    method MergePrev(chunk: nat) returns (c: nat)
      requires Shape() && Value().Wf({chunk}) && Value().At(chunk).inUse
      modifies this`mem, this`lastChunk, this`chunks, this`listed, freeList
      ensures Value().Wf({c}) && Step(old(Value()), {chunk}, Value(), {c})
      ensures LeftClear(Value(), c) && Value().sizes == old(Value()).sizes
      ensures JoinedLeft(old(Value()), Value(), chunk, c)
      ensures c <= chunk < Value().Next(c)
    {
      hide Heap.Wf, Heap.Unlink, Heap.Join, Heap.Push, SameLayout, Alone, Left;
      ghost var h := Value();
      PrevOf(h, chunk);
      HeldEnds(h, chunk);
      c := chunk;
      var prev := chunk - At(chunk).prevSize;
      assert At(prev) == h.At(prev);
      if !At(prev).inUse {
        var b := At(prev).bin;
        UnlinkStep(h, prev, {chunk});
        RemoveFromFreeList(prev, b);
        ghost var u := Value();
        HeldBoth(h, u, prev, chunk);
        assert prev + At(prev).size == chunk;
        JoinStep(u, prev, chunk, {chunk} + {prev});
        assert {chunk} + {prev} - {chunk} == {prev};
        c := Coalesce(prev, chunk);
        LeftKept(u, Value(), prev);
      }
    }

    /** A right neighbour that is free leaves its list and is taken in. */
    method MergeNext(chunk: nat)
      requires Shape() && Value().Wf({chunk}) && LeftClear(Value(), chunk)
      modifies this`mem, this`lastChunk, this`chunks, this`listed, freeList
      ensures Value().Wf({chunk}) && Step(old(Value()), {chunk}, Value(), {chunk})
      ensures Alone(Value(), chunk) && Value().sizes == old(Value()).sizes
      ensures JoinedRight(old(Value()), Value(), chunk)
      ensures Value().Next(chunk) >= old(Value()).Next(chunk)
    {
      hide Heap.Wf, Heap.Unlink, Heap.Join, Heap.Push, SameLayout, Alone, LeftClear;
      ghost var h := Value();
      NextOf(h, chunk);
      var next := chunk + At(chunk).size;
      assert At(next) == h.At(next);
      if next <= lastChunk && !At(next).inUse {
        var b := At(next).bin;
        UnlinkStep(h, next, {chunk});
        RemoveFromFreeList(next, b);
        ghost var u := Value();
        NextHeld(h, u, chunk, next);
        JoinStep(u, chunk, next, {chunk} + {next});
        assert {chunk} + {next} - {next} == {chunk};
        var r := Coalesce(chunk, next);
        NextTaken(h, u, Value(), chunk, next);
      }
    }

    /** Freeing a live block: exactly that block stops being live, no other one moves or changes
        size, and the heap is well-formed again. */
    method Free(addr: nat)
      requires Valid()
      requires addr != NULL ==> HEAP_START + UNIT_SIZE <= addr <= HEAP_MAX_ADDR && addr - UNIT_SIZE in Value().Live()
      modifies this`mem, this`lastChunk, this`chunks, this`listed, this`stamp, this`clock, freeList, freeSizeList
      ensures Valid() && Value().end == old(Value()).end
      ensures addr == NULL ==> Value() == old(Value())
      ensures addr != NULL ==> Value().Live() == old(Value().Live()) - {addr - UNIT_SIZE}
      ensures addr != NULL ==> forall c | c in Value().Live() :: Value().At(c).size == old(Value()).At(c).size
      ensures addr != NULL ==> Freed(old(Value()), Value(), addr - UNIT_SIZE)
      ensures addr != NULL ==> Refiled(old(Value()), Value(), addr - UNIT_SIZE)
    {
      hide TableStep, Filed, Heap.Wf, Heap.Register, Heap.Push, Heap.SetUse, First, Heap.Live, Alone, LeftClear,
        SameSizes, Heap.At;
      if addr == NULL { return; }
      ghost var h := Value();
      var chunk := addr - UNIT_SIZE;
      LiveSize(h, chunk);
      RegisterStep(h, h.At(chunk).size, {});
      var size := GetSize(chunk);
      RegisterSlab(size);
      ghost var r := Value();
      RegisterHold(h, r, chunk);
      assert {} + {chunk} == {chunk};
      chunk := MergePrev(chunk);
      MergeNext(chunk);
      ghost var m := Value();
      Sixteen(m, {chunk});
      size := GetSize(chunk);
      var b := FindSlot(freeSizeList, size);
      PushStep(m, chunk, {chunk}, b);
      HeldNotNull(m, chunk);
      HeldFromLists(m, chunk);
      PushFiled(m, chunk);
      InsertToFreeList(chunk, b);
      SetUse(chunk, false);
      assert {chunk} - {chunk} == {};
      LiveIs(h);
      LiveIs(Value());
    }

    method GetSize(c: nat) returns (size: nat)
      ensures size == Value().At(c).size
    {
      size := At(c).size;
    }

    // ----- growth and allocate

    /** A fresh run of pages: it joins a free last chunk, and is a chunk of its own otherwise. The
        last-chunk pointer stays where it is unless the heap was empty. */
    method GetMoreMemory(reqSize: nat) returns (c: nat, stopped: bool)
      requires Valid() && reqSize >= MIN_CHUNK_SIZE
      modifies this`mem, this`lastChunk, this`sizeHeap, this`chunks, this`listed, this`stamp, this`clock, freeList
      ensures stopped <==> Misfiled(old(Value()))
      ensures !stopped ==> Grown(old(Value()), Value(), c, reqSize)
      ensures !stopped ==> c == FreshChunk(old(Value())) && Grew(old(Value()), Value(), reqSize)
    {
      hide Heap.Unlink, Heap.Push, Heap.Wf, Heap.Extended, Heap.Appended, First, Grown, AlignedPage;
      ghost var h := Value();
      var n := AlignedPage(reqSize);
      Sixteen(h, {});
      Aligned(reqSize);
      stopped := false;
      if lastChunk != NULL && !At(lastChunk).inUse {
        var b := FindSlot(freeSizeList, At(lastChunk).size);
        c := lastChunk;
        if At(lastChunk).bin != b { return c, true; }
        ExtendLast(n, b);
        GrownExtended(h, reqSize);
      } else {
        c := AppendFresh(n);
        GrownAppended(h, reqSize);
      }
    }

    /** The fresh run is merged into the last chunk, whose size then covers both. */
    method ExtendLast(n: nat, b: nat)
      requires Valid() && lastChunk != NULL && !At(lastChunk).inUse && At(lastChunk).bin == b <= MAX_BIN_INDEX
      requires n % 2 == 0
      modifies this`mem, this`lastChunk, this`sizeHeap, this`chunks, this`listed, this`stamp, this`clock, freeList
      ensures |old(Value()).heads| == MAX_BIN_INDEX + 1
      ensures |old(Value()).Unlink(lastChunk, b).heads| == MAX_BIN_INDEX + 1 && lastChunk == old(lastChunk)
      ensures Value() == old(Value()).Unlink(lastChunk, b).Extended(n).Push(lastChunk, MAX_BIN_INDEX)
    {
      hide Heap.Unlink, Heap.Push, Heap.SetSize, Heap.Extended, Heap.Join, Heap.Wf, Alone, SameLayout;
      ghost var h := Value();
      LastListed(h);
      UnlinkStep(h, lastChunk, {});
      assert {} + {lastChunk} == {lastChunk};
      RemoveFromFreeList(lastChunk, b);
      ghost var u := Value();
      FreshTail(u, n);
      Sixteen(u, {u.last});
      var newChunk := HEAP_START + sizeHeap;
      sizeHeap := sizeHeap + n;
      var size := n + At(lastChunk).size;
      assert size == n + u.At(u.last).size;
      newChunk := Coalesce(lastChunk, newChunk);
      SetSize(newChunk, size);
      assert Value() == u.Extended(n);
      InsertToFreeList(newChunk, MAX_BIN_INDEX);
    }

    /** The fresh run becomes a chunk behind the last one. */
    method AppendFresh(n: nat) returns (c: nat)
      requires Valid()
      modifies this`mem, this`lastChunk, this`sizeHeap, this`chunks, this`listed, this`stamp, this`clock, freeList
      ensures c == old(Value()).end && |old(Value()).Appended(n).heads| == MAX_BIN_INDEX + 1
      ensures Value() == old(Value()).Appended(n).Push(c, MAX_BIN_INDEX)
                .(last := if old(lastChunk) == NULL then c else old(lastChunk))
    {
      hide Heap.Push, Heap.Wf;
      ghost var h := Value();
      c := HEAP_START + sizeHeap;
      sizeHeap := sizeHeap + n;
      if lastChunk == NULL {
        SetPrevSize(c, 0);
        lastChunk := c;
      } else {
        SetPrevSize(c, At(lastChunk).size);
      }
      chunks := chunks + {c};
      SetSize(c, n);
      AppendedParts(h, n, Value());
      PushBehind(h.Appended(n), lastChunk, c);
      InsertToFreeList(c, MAX_BIN_INDEX);
    }

    /** Allocating: nothing for no bytes; otherwise a block of at least the requested size that was
        not live, with every live block left alone. From the free lists the heap neither grows nor
        loses its form. After growth it is well-formed exactly when the fresh run settles. */
    method Allocate(size: nat) returns (r: Allocation)
      requires Valid()
      modifies this`mem, this`lastChunk, this`sizeHeap, this`chunks, this`listed, this`stamp, this`clock, freeList,
        freeSizeList
      ensures |old(Value()).heads| == |old(Value()).sizes| == MAX_BIN_INDEX + 1
      ensures r.Nothing? <==> size == 0
      ensures r.Nothing? ==> Value() == old(Value())
      ensures size > 0 ==>
                (r.Stopped? <==>
                 !Served(old(Registered(Value(), size)), Request(size)) && Misfiled(old(Registered(Value(), size))))
      ensures r.Block? ==> Allocated(old(Registered(Value(), size)), Value(), r.addr, size)
      ensures r.Block? ==> Produced(old(Registered(Value(), size)), Value(), r.addr, size)
      ensures size > 0 ==> TableStep(old(Value()).sizes, old(Value()).heads, Value().sizes, Request(size))
    {
      hide Heap.Wf, Heap.Register, Heap.Taken, Heap.Live, First, Grown, AlignedPage, AlignedSize, Served, Fitting;
      hide Misfiled, Allocated, Produced, Grew, FreshChunk, TableStep;
      Sixteen(Value(), {});
      if size == 0 { return Nothing; }
      ghost var h := Value();
      var alignedSize := AlignedSize(size);
      Aligned(size);
      alignedSize := alignedSize + UNIT_SIZE;
      RegisterStep(h, alignedSize, {});
      RegisterSlab(alignedSize);
      ghost var g := Value();
      Sixteen(g, {});
      var chunk, b := FindChunk(alignedSize);
      if chunk == NULL {
        var stopped: bool;
        chunk, stopped := GetMoreMemory(alignedSize);
        if stopped { return Stopped; }
        GrownReady(g, Value(), chunk, alignedSize);
        AllocatedByGrowth(g, Value(), chunk, size);
        ProducedByGrowth(g, Value(), chunk, size);
        b := MAX_BIN_INDEX;
      } else {
        ServedReady(g, chunk, alignedSize);
        AllocatedFromLists(g, chunk, size);
        ProducedFromLists(g, chunk, size);
      }
      UseChunk(chunk, alignedSize, b);
      r := Block(chunk + UNIT_SIZE);
    }
  }

  lemma FirstIs(s: seq<nat>, v: nat, i: nat)
    requires |s| == MAX_BIN_INDEX + 1 && i <= MAX_BIN_INDEX
    requires (i < MAX_BIN_INDEX ==> s[i] == v) && forall k | 0 <= k < i :: s[k] != v
    ensures i == First(s, v)
  {}

  // ----- searching the residue list

  /** Every chunk on the residue list before c is too small; all of them when c is the end. */
  ghost predicate SearchedTo(h: Heap, n: nat, c: nat)
  {
    && (c != NULL ==> c in h.listed && h.At(c).bin == MAX_BIN_INDEX && c in h.stamp)
    && forall d | d in h.listed && h.At(d).bin == MAX_BIN_INDEX && h.At(d).size >= n ::
         d in h.stamp && c != NULL && h.stamp[d] <= h.stamp[c]
  }

  lemma ResidueHead(h: Heap, n: nat)
    requires h.Wf({})
    ensures |h.heads| == |h.sizes| == MAX_BIN_INDEX + 1 && SearchedTo(h, n, h.heads[MAX_BIN_INDEX])
  {
    hide Heap.Tiled, Heap.Merged, Heap.Roles, Heap.At;
    var c := h.heads[MAX_BIN_INDEX];
    if c != NULL { ChunkLinked(h, c); }
    forall d | d in h.listed && h.At(d).bin == MAX_BIN_INDEX
      ensures d in h.stamp && c != NULL && h.stamp[d] <= h.stamp[c]
    {
      ChunkLinked(h, d);
      ChunksOrdered(h, d, d);
    }
  }

  lemma SearchNext(h: Heap, n: nat, c: nat)
    requires h.Wf({}) && c != NULL && SearchedTo(h, n, c) && n > 0
    ensures h.At(c).fd != NULL ==> h.At(c).fd in h.stamp && h.stamp[h.At(c).fd] < h.stamp[c]
    ensures h.At(c).size < n ==> SearchedTo(h, n, h.At(c).fd)
    ensures h.At(c).size >= n ==>
              forall d | d in h.listed && d in h.stamp && h.At(d).bin == MAX_BIN_INDEX && h.stamp[d] > h.stamp[c] ::
                h.At(d).size < n
  {
    hide Heap.Tiled, Heap.Merged, Heap.Roles, Heap.At;
    ChunkLinked(h, c);
    if h.At(c).fd != NULL { ChunkLinked(h, h.At(c).fd); }
    if h.At(c).size < n {
      forall d | d in h.listed && h.At(d).bin == MAX_BIN_INDEX && h.At(d).size >= n
        ensures d in h.stamp && h.At(c).fd != NULL && h.stamp[d] <= h.stamp[h.At(c).fd]
      {
        ChunksOrdered(h, c, d);
      }
    }
  }

  lemma SlabHead(h: Heap, n: nat, i: nat)
    requires h.Wf({}) && i < MAX_BIN_INDEX && |h.heads| == |h.sizes| == MAX_BIN_INDEX + 1 && i == First(h.sizes, n)
    requires h.heads[i] != NULL
    ensures h.heads[i] in h.listed && h.At(h.heads[i]).bin == i && h.At(h.heads[i]).size == n
  {
    hide Heap.Tiled, Heap.Merged, Heap.Roles, Heap.At, Heap.Linked, Heap.Ordered;
  }

  // ----- neighbours during free

  ghost predicate LeftClear(h: Heap, c: nat)
  {
    c == HEAP_START || Left(h, c) !in h.listed
  }

  lemma PrevOf(h: Heap, c: nat)
    requires h.Wf({c}) && h.At(c).inUse
    ensures h.At(c).prevSize <= c && c != NULL
    ensures var p: nat := c - h.At(c).prevSize;
      if h.At(p).inUse then LeftClear(h, c)
      else p in h.listed && p != c && p != NULL && h.Next(p) == c
  {
    hide Heap.Tiled, Heap.Chained, Heap.Sized, Heap.Merged, Heap.At;
    Neighbours(h, c);
    if c != HEAP_START {
      var p: nat := Left(h, c);
      assert p in h.chunks && p !in {c};
      Neighbours(h, p);
    }
  }

  lemma HeldBoth(h: Heap, u: Heap, p: nat, c: nat)
    requires h.Wf({c}) && p in h.listed && h.Next(p) == c && SameLayout(h, u)
    ensures u.Next(p) == c && u.At(p).size == h.At(p).size && u.Next(c) == h.Next(c)
  {}

  lemma LeftKept(u: Heap, g: Heap, p: nat)
    requires Alone(u, p) && Left(g, p) == Left(u, p) && g.listed == u.listed
    ensures LeftClear(g, p)
  {}

  lemma NextOf(h: Heap, c: nat)
    requires h.Wf({c}) && LeftClear(h, c)
    ensures var n := h.Next(c);
      if n <= h.last && !h.At(n).inUse then n in h.listed && n != c && n != NULL else Alone(h, c)
  {
    Neighbours(h, c);
    assert h.Next(c) in h.chunks && h.Next(c) != c ==> h.Next(c) !in {c};
  }

  lemma NextHeld(h: Heap, u: Heap, c: nat, n: nat)
    requires h.Wf({c}) && h.Next(c) == n && SameLayout(h, u)
    ensures u.Next(c) == n && u.At(c).size == h.At(c).size
  {}

  lemma NextTaken(h: Heap, u: Heap, g: Heap, c: nat, n: nat)
    requires LeftClear(h, c) && SameLayout(h, u) && u.listed == h.listed - {n} && g.listed == u.listed
    requires Alone(u, n) && g.Next(c) == u.Next(n) && Left(g, c) == Left(u, c)
    ensures Alone(g, c)
  {}

  lemma LiveSize(h: Heap, c: nat)
    requires h.Wf({}) && c in h.Live()
    ensures c in h.chunks && h.At(c).inUse && h.At(c).size > 0
  {
    Neighbours(h, c);
  }

  lemma RegisterHold(h: Heap, g: Heap, c: nat)
    requires h.Wf({}) && g.Wf({}) && c in h.Live() && g == h.(sizes := g.sizes)
    ensures g.Wf({} + {c}) && g.At(c).inUse && Others(g, {c}) == Others(h, {}) - {c}
    ensures forall a: nat :: g.At(a) == h.At(a)
  {
    hide Heap.Tiled, Heap.Chained, Heap.Sized, Heap.Merged;
    HoldLive(g, c, {});
  }

  lemma HeldEnds(h: Heap, c: nat)
    requires h.Wf({c})
    ensures c < h.Next(c)
  {
    Neighbours(h, c);
  }

  lemma HeldFromLists(h: Heap, c: nat)
    requires h.Wf({c})
    ensures c !in h.listed && |h.heads| == MAX_BIN_INDEX + 1 && forall b | 0 <= b <= MAX_BIN_INDEX :: h.heads[b] != c
  {
    HeldNotNull(h, c);
  }

  lemma HeldNotNull(h: Heap, c: nat)
    requires h.Wf({c})
    ensures c != NULL
  {
    Neighbours(h, c);
  }

  // ----- growth

  /** The heap with its fresh or extended chunk c listed as residue, but for a last-chunk pointer
      that may still be the old one when the old last chunk is in use. */
  ghost predicate Grown(h: Heap, g: Heap, c: nat, n: nat)
    requires n > 0
  {
    var w := g.(last := c);
    && w.Wf({}) && c in w.listed && w.At(c).bin == MAX_BIN_INDEX && w.At(c).size >= AlignedPage(n)
    && w.end == h.end + AlignedPage(n)
    && w.Live() == h.Live() && (forall d | d in h.Live() :: w.At(d).size == h.At(d).size)
    && g.last <= c
    && if h.last == NULL || !h.At(h.last).inUse then g.last == c
       else g.last == h.last < c && w.At(c).size == AlignedPage(n)
  }

  lemma LastListed(h: Heap)
    requires h.Wf({}) && h.last != NULL && !h.At(h.last).inUse
    ensures h.last in h.listed && 0 <= h.At(h.last).bin <= MAX_BIN_INDEX && |h.heads| == |h.sizes| == MAX_BIN_INDEX + 1
  {
    hide Heap.Linked, Heap.Ordered, Heap.Merged, Heap.At, Heap.Fits, Heap.Apart;
    assert h.last in h.chunks && h.last !in {};
    ChunkLinked(h, h.last);
    LinkFacts(h, h.last);
  }

  /** Merging the last chunk with the blank header behind it changes no size. */
  lemma FreshTail(u: Heap, n: nat)
    requires u.Wf({u.last}) && u.last != NULL && n % 2 == 0
    ensures var g := u.(end := u.end + n);
      u.last + u.At(u.last).size == u.end
        && g.Join(g.last, u.end).SetSize(u.last, n + u.At(u.last).size) == u.Extended(n)
      && g.Join(g.last, u.end).last == u.last
  {
    EndFresh(u);
    Neighbours(u, u.last);
    assert u.chunks - {u.end} == u.chunks;
  }

  lemma GrownExtended(h: Heap, n: nat)
    requires h.Wf({}) && h.last != NULL && !h.At(h.last).inUse && n > 0
    ensures 0 <= h.At(h.last).bin <= MAX_BIN_INDEX && |h.heads| == MAX_BIN_INDEX + 1
    ensures var u := h.Unlink(h.last, h.At(h.last).bin);
      |u.heads| == MAX_BIN_INDEX + 1 && Grown(h, u.Extended(AlignedPage(n)).Push(h.last, MAX_BIN_INDEX), h.last, n)
  {
    hide Heap.Unlink, Heap.Push, Heap.SetUse, Heap.Extended, Heap.Wf, Heap.At, Alone, SameLayout, Heap.Live,
      AlignedPage;
    var c, p := h.last, AlignedPage(n);
    Aligned(n);
    LastListed(h);
    UnlinkStep(h, c, {});
    assert {} + {c} == {c};
    var u := h.Unlink(c, h.At(c).bin);
    Sixteen(u, {c});
    ExtendedStep(u, p, {c});
    ExtendedShape2(u, p);
    var e := u.Extended(p);
    Sixteen(e, {c});
    PushStep(e, c, {c}, MAX_BIN_INDEX);
    assert {c} - {c} == {};
    var g := e.Push(c, MAX_BIN_INDEX);
    LiveIs(h);
    LiveIs(g);
    assert g.(last := c) == g;
    assert g.At(c).size == e.At(c).size;
    forall d | d in h.Live() ensures g.At(d).size == h.At(d).size {}
  }

  lemma ExtendedShape2(h: Heap, n: nat)
    ensures h.Extended(n).last == h.last && h.Extended(n).end == h.end + n
  {}

  lemma PushBehind(h: Heap, behind: nat, c: nat)
    requires |h.heads| == MAX_BIN_INDEX + 1
    ensures h.(last := behind).Push(c, MAX_BIN_INDEX) == h.Push(c, MAX_BIN_INDEX).(last := behind)
  {}

  lemma GrownAppended(h: Heap, n: nat)
    requires h.Wf({}) && (h.last == NULL || h.At(h.last).inUse) && n >= MIN_CHUNK_SIZE
    ensures var a := h.Appended(AlignedPage(n)); var behind := if h.last == NULL then h.end else h.last;
      |a.heads| == MAX_BIN_INDEX + 1 && Grown(h, a.Push(h.end, MAX_BIN_INDEX).(last := behind), h.end, n)
  {
    hide Heap.Push, Heap.SetUse, Heap.Appended, Heap.Wf, Heap.At, Alone, Heap.Live, AlignedPage;
    var c, p := h.end, AlignedPage(n);
    Aligned(n);
    AppendedStep(h, p);
    AppendedShape2(h, p);
    var a := h.Appended(p);
    Sixteen(a, {c});
    PushStep(a, c, {c}, MAX_BIN_INDEX);
    assert {c} - {c} == {};
    var w := a.Push(c, MAX_BIN_INDEX);
    LiveIs(h);
    LiveIs(w);
    assert w.(last := c) == w;
    WfEnd(h);
    forall d | d in h.Live() ensures w.At(d).size == h.At(d).size {}
  }

  /** Appending, header by header. */
  lemma AppendedParts(h: Heap, n: nat, g: Heap)
    requires g.m == h.SetPrevSize(h.end, if h.last == NULL then 0 else h.At(h.last).size).SetSize(h.end, n).m
    requires g == h.(m := g.m, last := g.last, end := h.end + n, chunks := h.chunks + {h.end})
    ensures g == h.Appended(n).(last := g.last) && h.Appended(n).heads == h.heads
  {
    hide Heap.SetSize, Heap.SetPrevSize;
    SetOnly(h, h.end, if h.last == NULL then 0 else h.At(h.last).size, n);
  }

  lemma SetOnly(h: Heap, c: nat, prev: nat, n: nat)
    ensures h.SetPrevSize(c, prev).SetSize(c, n).(m := h.m) == h
  {}

  lemma AppendedShape2(h: Heap, n: nat)
    ensures h.Appended(n).last == h.end && h.Appended(n).end == h.end + n
  {}

  lemma WfEnd(h: Heap)
    requires h.Wf({})
    ensures h.end != NULL && h.last < h.end && (h.last == NULL <==> h.chunks == {})
  {
    EndFresh(h);
    if h.last != NULL { Neighbours(h, h.last); }
  }

  // ----- allocate

  lemma ServedReady(h: Heap, c: nat, n: nat)
    requires h.Wf({}) && MIN_CHUNK_SIZE <= n && n % 2 == 0
    requires |h.heads| == |h.sizes| == MAX_BIN_INDEX + 1 && Fitting(h, n, c)
    ensures c != NULL && c in h.listed && 0 <= h.At(c).bin <= MAX_BIN_INDEX && n <= h.At(c).size
    ensures h.Unlink(c, h.At(c).bin).At(c).size == h.At(c).size
  {
    hide Heap.Wf, Heap.Unlink, Heap.Live, Heap.At, Heap.Taken;
    TakenStep(h, c, n);
    ListedNotNull(h, c);
  }

  lemma ListedNotNull(h: Heap, c: nat)
    requires h.Wf({}) && c in h.listed
    ensures c >= HEAP_START && c !in h.Live()
  {
    hide Heap.Chained, Heap.Sized, Heap.Merged, Heap.Fits, Heap.Apart;
    Neighbours(h, c);
  }

  lemma AllocatedFromLists(h: Heap, c: nat, size: nat)
    requires h.Wf({}) && size > 0 && |h.heads| == |h.sizes| == MAX_BIN_INDEX + 1
    requires Served(h, Request(size)) && Fitting(h, Request(size), c)
    ensures 0 <= h.At(c).bin <= MAX_BIN_INDEX && h.Unlink(c, h.At(c).bin).At(c).size >= Request(size)
    ensures Allocated(h, h.Taken(c, Request(size), h.At(c).bin), c + UNIT_SIZE, size)
  {
    hide Heap.Wf, Heap.Unlink, Heap.Live, Heap.At, Heap.Taken, Served, AlignedPage, AlignedSize, First, Settles;
    Aligned(size);
    TakenStep(h, c, Request(size));
    ListedNotNull(h, c);
    var g := h.Taken(c, Request(size), h.At(c).bin);
    LastIsHighest(g, c);
  }

  /** Taking a chunk files what is cut off. */
  lemma TakenFiled(h: Heap, c: nat, n: nat)
    requires h.Wf({}) && c in h.listed && MIN_CHUNK_SIZE <= n && n % 2 == 0 && n <= h.At(c).size
    ensures 0 <= h.At(c).bin <= MAX_BIN_INDEX && |h.heads| == |h.sizes| == MAX_BIN_INDEX + 1
    ensures n <= h.Unlink(c, h.At(c).bin).At(c).size && RestFiled(h, h.Taken(c, n, h.At(c).bin), c, n)
  {
    hide Heap.Wf, Heap.At, Heap.Unlink, Heap.Cut, Heap.Push, Heap.SetUse, Alone, First, Filed;
    UnlinkStep(h, c, {});
    assert {} + {c} == {c};
    var u := h.Unlink(c, h.At(c).bin);
    Sixteen(u, {c});
    if n + MIN_CHUNK_SIZE <= h.At(c).size {
      var d, held := c + n, {c} + {c + n};
      CutStep(u, c, n, {c});
      var k := u.Cut(c, n);
      CutListed(u, c, n);
      HeldApart(k, d, held);
      PushFiledFree(k, d);
      UsedFiled(k.Push(d, First(k.sizes, k.At(d).size)), c, d);
    }
  }

  lemma CutListed(u: Heap, c: nat, n: nat)
    requires n <= u.At(c).size
    ensures u.Cut(c, n).sizes == u.sizes && u.Cut(c, n).heads == u.heads && c + n in u.Cut(c, n).m
  {}

  lemma HeldApart(h: Heap, d: nat, held: set<nat>)
    requires h.Wf(held) && d in held
    ensures d != NULL && d !in h.listed && |h.heads| == |h.sizes| == MAX_BIN_INDEX + 1
    ensures forall b | 0 <= b <= MAX_BIN_INDEX :: h.heads[b] != d
  {
    Neighbours(h, d);
  }

  lemma PushFiledFree(m: Heap, c: nat)
    requires |m.heads| == |m.sizes| == MAX_BIN_INDEX + 1 && c != NULL && c !in m.listed
    requires forall b | 0 <= b <= MAX_BIN_INDEX :: m.heads[b] != c
    ensures var g := m.Push(c, First(m.sizes, m.At(c).size)); Filed(g, c) && g.At(c).size == m.At(c).size
  {
    hide First, Heap.Push;
    var b := First(m.sizes, m.At(c).size);
    PushShape(m, c, b);
    PushAt(m, c, b, c);
    FiledIn(m.Push(c, b), c);
  }

  lemma UsedFiled(h: Heap, c: nat, d: nat)
    requires Filed(h, d) && c != d
    ensures Filed(h.SetUse(c, true), d) && h.SetUse(c, true).At(d).size == h.At(d).size
  {}

  lemma ProducedFromLists(h: Heap, c: nat, size: nat)
    requires size > 0 && |h.heads| == |h.sizes| == MAX_BIN_INDEX + 1 && Served(h, Request(size))
    requires h.Wf({}) && Fitting(h, Request(size), c)
    ensures 0 <= h.At(c).bin <= MAX_BIN_INDEX && h.Unlink(c, h.At(c).bin).At(c).size >= Request(size)
    ensures Produced(h, h.Taken(c, Request(size), h.At(c).bin), c + UNIT_SIZE, size)
  {
    Aligned(size);
    hide Heap.Unlink, Heap.Taken, Heap.At, Served, AlignedSize, RestFiled, Heap.Wf, First;
    TakenFiled(h, c, Request(size));
  }

  /** The last-chunk pointer has no part in what is cut off. */
  lemma FiledBehind(w: Heap, behind: nat, c: nat, n: nat)
    requires w.Wf({}) && c in w.listed && w.At(c).bin == MAX_BIN_INDEX && c == w.last && behind <= c
    requires MIN_CHUNK_SIZE <= n && n % 2 == 0 && n <= w.At(c).size
    ensures |w.heads| == |w.sizes| == MAX_BIN_INDEX + 1
    ensures var k := w.(last := behind);
      n <= k.Unlink(c, MAX_BIN_INDEX).At(c).size && RestFiled(k, k.Taken(c, n, MAX_BIN_INDEX), c, n)
  {
    hide Heap.Wf, Heap.Unlink, Heap.Taken, Filed, Heap.Live;
    TakenFiled(w, c, n);
    ServedUnlink(w, c, n);
    UnlinkBehind(w, behind, c, MAX_BIN_INDEX);
    assert w.(last := c) == w;
    SameHeaders(w, behind);
    if behind < c {
      WfTiled(w);
      ListedNotNull(w, c);
      TakenBehind(w, behind, n, MAX_BIN_INDEX);
    }
  }

  lemma ServedUnlink(h: Heap, c: nat, n: nat)
    requires h.Wf({}) && c in h.listed
    ensures 0 <= h.At(c).bin <= MAX_BIN_INDEX && |h.heads| == |h.sizes| == MAX_BIN_INDEX + 1
    ensures h.Unlink(c, h.At(c).bin).At(c).size == h.At(c).size
  {
    hide Heap.Unlink, Heap.At, Alone;
    UnlinkStep(h, c, {});
  }

  lemma ProducedByGrowth(h: Heap, k: Heap, c: nat, size: nat)
    requires size > 0 && |h.heads| == |h.sizes| == |k.heads| == |k.sizes| == MAX_BIN_INDEX + 1
    requires !Served(h, Request(size))
    requires c == FreshChunk(h) && Grew(h, k, Request(size)) && Grown(h, k, c, Request(size))
    ensures k.Unlink(c, MAX_BIN_INDEX).At(c).size >= Request(size)
    ensures Produced(h, k.Taken(c, Request(size), MAX_BIN_INDEX), c + UNIT_SIZE, size)
  {
    hide Heap.Unlink, Heap.Taken, Heap.At, Served, AlignedSize, Grew, Grown, FreshChunk, RestFiled;
    GrownFiled(h, k, c, size);
  }

  lemma GrownFiled(h: Heap, k: Heap, c: nat, size: nat)
    requires size > 0 && Grown(h, k, c, Request(size))
    ensures |k.heads| == |k.sizes| == MAX_BIN_INDEX + 1 && k.Unlink(c, MAX_BIN_INDEX).At(c).size >= Request(size)
    ensures RestFiled(k, k.Taken(c, Request(size), MAX_BIN_INDEX), c, Request(size))
  {
    Aligned(size);
    Aligned(Request(size));
    hide Heap.Unlink, Heap.Taken, AlignedSize, AlignedPage, RestFiled, Heap.Wf, Heap.Live;
    var w := k.(last := c);
    assert w.(last := k.last) == k;
    FiledBehind(w, k.last, c, Request(size));
  }

  lemma LastIsHighest(h: Heap, c: nat)
    requires h.Wf({}) && c in h.Live()
    ensures h.last >= c && h.(last := h.last) == h
  {
    Neighbours(h, c);
  }

  lemma GrownReady(h: Heap, g: Heap, c: nat, n: nat)
    requires MIN_CHUNK_SIZE <= n && n % 2 == 0 && Grown(h, g, c, n)
    ensures c != NULL && g.At(c).bin == MAX_BIN_INDEX && |g.heads| == |g.sizes| == MAX_BIN_INDEX + 1
    ensures n <= g.At(c).size
    ensures g.Unlink(c, MAX_BIN_INDEX).At(c).size == g.At(c).size
  {
    hide Heap.Wf, Heap.Unlink, Heap.Live, Heap.Taken;
    var w := g.(last := c);
    Aligned(n);
    TakenStep(w, c, n);
    ListedNotNull(w, c);
    UnlinkBehind(w, g.last, c, MAX_BIN_INDEX);
    assert g == w.(last := g.last);
  }

  lemma AllocatedByGrowth(h: Heap, g: Heap, c: nat, size: nat)
    requires h.Wf({}) && size > 0 && |h.heads| == |h.sizes| == MAX_BIN_INDEX + 1
    requires !Served(h, Request(size)) && Grown(h, g, c, Request(size))
    ensures |g.heads| == |g.sizes| == MAX_BIN_INDEX + 1 && g.Unlink(c, MAX_BIN_INDEX).At(c).size >= Request(size)
    ensures Allocated(h, g.Taken(c, Request(size), MAX_BIN_INDEX), c + UNIT_SIZE, size)
  {
    hide Heap.Wf, Heap.Unlink, Heap.Live, Heap.At, Heap.Taken, Served, AlignedPage, AlignedSize, First;
    var n := Request(size);
    Aligned(size);
    Aligned(n);
    GrownReady(h, g, c, n);
    var w := g.(last := c);
    assert forall a: nat :: w.At(a) == g.At(a) by { SameHeaders(g, c); }
    TakenStep(w, c, n);
    ListedNotNull(w, c);
    var t := w.Taken(c, n, MAX_BIN_INDEX);
    LastIsHighest(t, c);
    if g.last == c {
      assert w == g;
    } else {
      WfTiled(w);
      TakenBehind(w, g.last, n, MAX_BIN_INDEX);
      assert w.(last := g.last) == g;
      var k := g.Taken(c, n, MAX_BIN_INDEX);
      if w.At(c).size < n + MIN_CHUNK_SIZE {
        assert k == t.(last := g.last);
        TakenLast(w, c, n);
        Lagging(t, g.last, c);
      }
    }
  }

  lemma SameHeaders(h: Heap, c: nat)
    ensures forall a: nat :: h.(last := c).At(a) == h.At(a)
    ensures h.(last := c).Live() == h.Live()
  {
    assert forall a: nat :: h.(last := c).At(a) == h.At(a);
  }

  lemma WfTiled(h: Heap)
    requires h.Wf({})
    ensures h.Tiled()
  {}

  lemma TakenLast(h: Heap, c: nat, n: nat)
    requires |h.heads| == |h.sizes| == MAX_BIN_INDEX + 1
    requires n <= h.Unlink(c, MAX_BIN_INDEX).At(c).size < n + MIN_CHUNK_SIZE
    ensures h.Taken(c, n, MAX_BIN_INDEX).last == h.last
  {}

  /** A last-chunk pointer below a chunk is not well-formed. */
  lemma Lagging(t: Heap, behind: nat, c: nat)
    requires t.Wf({}) && t.last == c && c in t.Live() && behind < c
    ensures var k := t.(last := behind);
      !k.Wf({}) && k.Live() == t.Live() && k.(last := c) == t && forall a: nat :: k.At(a) == t.At(a)
  {
    hide Heap.Chained, Heap.Sized, Heap.Merged, Heap.Roles, Heap.Apart;
    var k := t.(last := behind);
    SameHeaders(t, behind);
    assert !k.Fits(c);
  }
}
