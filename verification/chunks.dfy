/** The heap of boundary-tag chunks as a value: headers in memory, sixteen doubly linked free lists
    of which the first fifteen serve one size each, and what a well-formed heap is. */
module Chunks {
  const UNIT_SIZE := 24
  const MIN_CHUNK_SIZE := 48
  const MAX_BIN_INDEX := 15
  const PAGE_SIZE := 4096
  const NULL := 0
  const HEAP_START := 0x18000000

  /** A chunk header; the links are meant only while the chunk is on a free list. */
  datatype Chunk = Chunk(prevSize: nat, size: nat, inUse: bool, bin: int, fd: nat, bk: nat)

  const Blank := Chunk(0, 0, false, 0, 0, 0)

  /** The first of the fifteen size slots that holds the value, or else the residue slot. */
  function First(s: seq<nat>, v: nat): (i: nat)
    requires |s| == MAX_BIN_INDEX + 1
    ensures i <= MAX_BIN_INDEX && (i < MAX_BIN_INDEX ==> s[i] == v) && forall k | 0 <= k < i :: s[k] != v
  {
    FirstFrom(s, v, 0)
  }

  function FirstFrom(s: seq<nat>, v: nat, from: nat): (i: nat)
    requires |s| == MAX_BIN_INDEX + 1 && from <= MAX_BIN_INDEX
    ensures from <= i <= MAX_BIN_INDEX && (i < MAX_BIN_INDEX ==> s[i] == v) && forall k | from <= k < i :: s[k] != v
    decreases MAX_BIN_INDEX - from
  {
    if from == MAX_BIN_INDEX || s[from] == v then from else FirstFrom(s, v, from + 1)
  }

  /** The headers, the list heads, the slab sizes and the topmost chunk; then, for the proof, where
      the heap ends, which chunks tile it, which are on a list, and when each was put there. */
  datatype Heap = Heap(m: map<nat, Chunk>, heads: seq<nat>, sizes: seq<nat>, last: nat, end: nat,
                       chunks: set<nat>, listed: set<nat>, stamp: map<nat, nat>, clock: nat)
  {
    function At(a: nat): Chunk { if a in m then m[a] else Blank }

    function Next(c: nat): nat { c + At(c).size }

    // ----- well-formed heaps

    /** The chunk ends where its right neighbour starts, which records its size, and starts where
        its left neighbour ends. */
    ghost predicate Fits(c: nat)
    {
      && HEAP_START <= c <= last && At(c).size >= MIN_CHUNK_SIZE && At(c).size % 2 == 0
      && (if c == last then Next(c) == end else Next(c) in chunks && At(Next(c)).prevSize == At(c).size)
      && if c == HEAP_START then At(c).prevSize == 0
         else At(c).prevSize <= c - HEAP_START && c - At(c).prevSize in chunks && Next(c - At(c).prevSize) == c
    }

    ghost predicate Apart(c: nat, d: nat)
    {
      c < d ==> Next(c) <= d
    }

    /** The chunks tile the heap from its start to its end. */
    ghost predicate Tiled()
    {
      && (if chunks == {} then last == NULL && end == HEAP_START else HEAP_START in chunks && last in chunks)
      && (forall a | a in m :: a < end)
      && (forall c {:trigger Fits(c)} :: c in chunks ==> Fits(c))
      && forall c, d {:trigger Apart(c, d)} :: c in chunks && d in chunks ==> Apart(c, d)
    }

    /** The links of a listed chunk lead to its neighbours on the list of its bin. */
    ghost predicate Linked(c: nat)
      requires |heads| == MAX_BIN_INDEX + 1
    {
      var h := At(c);
      && 0 <= h.bin <= MAX_BIN_INDEX && c != NULL && c in stamp && stamp[c] < clock
      && (h.fd != NULL ==>
            h.fd in listed && At(h.fd).bin == h.bin && At(h.fd).bk == c && h.fd in stamp && stamp[h.fd] < stamp[c])
      && if h.bk == NULL then heads[h.bin] == c
         else h.bk in listed && At(h.bk).bin == h.bin && At(h.bk).fd == c
    }

    /** Two chunks on the same list: the later one comes first and nothing lies between a chunk and
        the one it links to. */
    ghost predicate Ordered(c: nat, d: nat)
      requires |heads| == MAX_BIN_INDEX + 1
    {
      c in stamp && d in stamp && 0 <= At(c).bin <= MAX_BIN_INDEX && At(c).bin == At(d).bin ==>
        && heads[At(c).bin] != NULL && heads[At(c).bin] in stamp
        && stamp[d] <= stamp[heads[At(c).bin]]
        && (stamp[c] == stamp[d] ==> c == d)
        && (stamp[d] < stamp[c] ==> At(c).fd in stamp && At(c).fd != NULL && stamp[d] <= stamp[At(c).fd] < stamp[c])
    }

    /** The list heads lead exactly to the listed chunks. */
    ghost predicate Chained()
    {
      && |heads| == MAX_BIN_INDEX + 1
      && (forall c {:trigger Linked(c)} :: c in listed ==> Linked(c))
      && (forall c, d {:trigger Ordered(c, d)} :: c in listed && d in listed ==> Ordered(c, d))
      && forall b | 0 <= b <= MAX_BIN_INDEX && heads[b] != NULL ::
           heads[b] in listed && At(heads[b]).bin == b && At(heads[b]).bk == NULL
    }

    /** Each slab list holds chunks of its one size only, and no size has two slabs. */
    ghost predicate Sized()
    {
      && |sizes| == MAX_BIN_INDEX + 1
      && (forall c | c in listed && 0 <= At(c).bin < MAX_BIN_INDEX :: sizes[At(c).bin] == At(c).size)
      && forall i, j | 0 <= i < j < MAX_BIN_INDEX && sizes[i] != 0 :: sizes[i] != sizes[j]
    }

    /** Besides the held chunks, exactly the free chunks are listed. */
    ghost predicate Roles(held: set<nat>)
    {
      && listed <= chunks && held <= chunks && listed !! held
      && forall c | c in chunks && c !in held :: At(c).inUse <==> c !in listed
    }

    /** No two listed chunks are neighbours. */
    ghost predicate Merged()
    {
      forall c | c in listed :: Next(c) !in listed
    }

    /** A well-formed heap from which some chunks are held out for a moment. */
    ghost predicate Wf(held: set<nat>)
    {
      Tiled() && Chained() && Sized() && Roles(held) && Merged()
    }

    ghost function Live(): set<nat>
    {
      set c | c in chunks && At(c).inUse
    }

    // ----- operations

    /** Registering a size: an existing slab, else an unused one, else one whose list is empty. */
    function Register(size: nat): Heap
      requires |heads| == |sizes| == MAX_BIN_INDEX + 1
    {
      if size >= PAGE_SIZE || First(sizes, size) < MAX_BIN_INDEX then this
      else if First(sizes, 0) < MAX_BIN_INDEX then this.(sizes := sizes[First(sizes, 0) := size])
      else if First(heads, NULL) < MAX_BIN_INDEX then this.(sizes := sizes[First(heads, NULL) := size])
      else this
    }

    function SetBk(c: nat, prev: nat): Heap
    {
      if c == NULL then this else this.(m := m[c := At(c).(bk := prev)])
    }

    function SetFd(c: nat, next: nat): Heap
    {
      this.(m := m[c := At(c).(fd := next)])
    }

    /** Putting a chunk first on a list. */
    function Push(c: nat, b: nat): Heap
      requires b < |heads|
    {
      var h := SetBk(c, NULL).SetFd(c, heads[b]).SetBk(heads[b], c);
      h.(m := h.m[c := h.At(c).(bin := b)], heads := heads[b := c],
         listed := listed + {c}, stamp := stamp[c := clock], clock := clock + 1)
    }

    /** Taking a chunk off its list. */
    function Unlink(c: nat, b: nat): Heap
      requires b < |heads|
    {
      var next, prev := At(c).fd, At(c).bk;
      var h := if c == heads[b] then SetBk(next, NULL).(heads := heads[b := next])
               else SetFd(prev, next).SetBk(next, prev);
      h.(m := h.m[c := h.At(c).(bin := -1)], listed := listed - {c})
    }

    function SetSize(c: nat, size: nat): Heap
    {
      this.(m := m[c := At(c).(size := size - size % 2, inUse := false)])
    }

    function SetPrevSize(c: nat, size: nat): Heap
    {
      this.(m := m[c := At(c).(prevSize := size)])
    }

    function SetUse(c: nat, inUse: bool): Heap
    {
      this.(m := m[c := At(c).(inUse := inUse)])
    }

    /** Merging two neighbours into the left one. */
    function Join(head: nat, tail: nat): Heap
    {
      var next, size := Next(tail), At(head).size + At(tail).size;
      var h := SetSize(head, size);
      var g := if next <= last then h.SetPrevSize(next, size) else h;
      g.(last := if tail == last then head else last, chunks := chunks - {tail})
    }

    /** Cutting a chunk in two after n bytes. */
    function Cut(c: nat, n: nat): Heap
      requires n <= At(c).size
    {
      var s, next, d := At(c).size, Next(c), c + n;
      var h := SetUse(d, false).SetSize(d, s - n).SetSize(c, n).SetPrevSize(d, n);
      var g := if next <= last then h.SetPrevSize(next, s - n) else h;
      g.(last := if d > last then d else last, chunks := chunks + {d})
    }

    /** Taking a free chunk: it leaves its list, is cut if the rest is big enough, and is in use. */
    function Taken(c: nat, n: nat, b: nat): Heap
      requires b <= MAX_BIN_INDEX && |heads| == |sizes| == MAX_BIN_INDEX + 1 && n <= Unlink(c, b).At(c).size
    {
      var h := Unlink(c, b);
      var s := h.At(c).size;
      var g := if s >= n + MIN_CHUNK_SIZE then h.Cut(c, n).Push(c + n, First(sizes, s - n)) else h;
      g.SetUse(c, true)
    }

    /** A fresh run of n bytes behind the last chunk, which is in use or missing. */
    function Appended(n: nat): Heap
    {
      var e := end;
      var h := SetPrevSize(e, if last == NULL then 0 else At(last).size).SetSize(e, n);
      h.(last := e, end := end + n, chunks := chunks + {e})
    }

    /** A fresh run of n bytes joins the last chunk. */
    function Extended(n: nat): Heap
    {
      SetSize(last, At(last).size + n).(end := end + n)
    }
  }

  /** Rounding up to a whole number of units or pages, for positive sizes. */
  function AlignedSize(size: nat): nat
    requires size > 0
  {
    ((size - 1) / UNIT_SIZE + 1) * UNIT_SIZE
  }

  function AlignedPage(size: nat): nat
    requires size > 0
  {
    ((size - 1) / PAGE_SIZE + 1) * PAGE_SIZE
  }

  lemma Aligned(size: nat)
    requires size > 0
    ensures size <= AlignedSize(size) < size + UNIT_SIZE && AlignedSize(size) % 2 == 0 && AlignedSize(size) >= UNIT_SIZE
    ensures size <= AlignedPage(size) < size + PAGE_SIZE && AlignedPage(size) % 2 == 0
  {}

  // ----- what well-formedness gives about one chunk

  lemma ChunkFits(h: Heap, c: nat)
    requires h.Tiled() && c in h.chunks
    ensures h.Fits(c)
  {}

  lemma ChunksApart(h: Heap, c: nat, d: nat)
    requires h.Tiled() && c in h.chunks && d in h.chunks
    ensures h.Apart(c, d) && h.Apart(d, c)
  {}

  lemma ChunkLinked(h: Heap, c: nat)
    requires h.Chained() && c in h.listed
    ensures h.Linked(c)
  {}

  lemma ChunksOrdered(h: Heap, c: nat, d: nat)
    requires h.Chained() && c in h.listed && d in h.listed
    ensures h.Ordered(c, d) && h.Ordered(d, c)
  {}

  // ----- the two halves of a header

  /** The same sizes. */
  ghost predicate SameSizes(h: Heap, g: Heap)
  {
    forall a: nat {:trigger g.At(a)} :: g.At(a).prevSize == h.At(a).prevSize && g.At(a).size == h.At(a).size
  }

  /** The same sizes and in-use bits. */
  ghost predicate SameLayout(h: Heap, g: Heap)
  {
    SameSizes(h, g) && forall a: nat {:trigger g.At(a)} :: g.At(a).inUse == h.At(a).inUse
  }

  /** The same links and bins. */
  ghost predicate SameLinks(h: Heap, g: Heap)
  {
    forall a: nat {:trigger g.At(a)} ::
      g.At(a).bin == h.At(a).bin && g.At(a).fd == h.At(a).fd && g.At(a).bk == h.At(a).bk
  }

  lemma TiledByLayout(h: Heap, g: Heap)
    requires h.Tiled() && SameSizes(h, g) && g.chunks == h.chunks && g.last == h.last && g.end == h.end
    requires forall a | a in g.m :: a < g.end
    ensures g.Tiled()
  {
    forall c | c in g.chunks ensures g.Fits(c) { assert h.Fits(c); }
    forall c, d | c in g.chunks && d in g.chunks ensures g.Apart(c, d) { assert h.Apart(c, d); }
  }

  lemma ChainedByLinks(h: Heap, g: Heap)
    requires h.Chained() && SameLinks(h, g) && g.heads == h.heads && g.listed == h.listed && g.stamp == h.stamp
    requires g.clock == h.clock
    ensures g.Chained()
  {
    forall c | c in g.listed ensures g.Linked(c) { assert h.Linked(c); }
    forall c, d | c in g.listed && d in g.listed ensures g.Ordered(c, d) { assert h.Ordered(c, d); }
  }
}
