/** The home's request handlers. */
module HomeServer {
  import opened StoreLogs
  import opened SharedMemory

  /** The entry that starts where the first i entries end. */
  lemma EntryAt(log: seq<StoreLog>, i: nat)
    requires LogOk(log) && i < |log|
    ensures LogOk(log[..i]) && LogOk(log[..i + 1])
    ensures var at, b := |Serialize(log[..i])|, Serialize(log);
      at + 8 + |log[i].data| == |Serialize(log[..i + 1])| <= |b| && b[at..at + 8 + |log[i].data|] == EncodeEntry(log[i])
  {
    hide EncodeEntry;
    assert log[..i + 1][..i] == log[..i];
    SerializePrefix(log, i + 1);
  }

  lemma {:induction false} SerializePrefix(log: seq<StoreLog>, i: nat)
    requires LogOk(log) && i <= |log|
    ensures LogOk(log[..i]) && |Serialize(log[..i])| <= |Serialize(log)|
    ensures Serialize(log)[..|Serialize(log[..i])|] == Serialize(log[..i])
  {
    hide EncodeEntry;
    if i == |log| {
      assert log[..i] == log;
    } else {
      assert log[..|log| - 1][..i] == log[..i];
      SerializePrefix(log[..|log| - 1], i);
    }
  }

  /** Only the whole log uses up all the bytes. */
  lemma PrefixShorter(log: seq<StoreLog>, i: nat)
    requires LogOk(log) && i < |log|
    ensures LogOk(log[..i]) && |Serialize(log[..i])| < |Serialize(log)|
  {
    EntryAt(log, i);
  }

  lemma BytesLeft(log: seq<StoreLog>, i: nat)
    requires LogOk(log) && i <= |log| && LogOk(log[..i]) && |Serialize(log[..i])| != |Serialize(log)|
    ensures i < |log|
  {
    assert log[..|log|] == log;
  }

  lemma EntryFields(e: StoreLog)
    requires e.Ok()
    ensures var b := EncodeEntry(e); var n := |e.data|;
      Decode32(b[..4]) == n && b[4..4 + n] == e.data && Decode32(b[4 + n..8 + n]) == e.addr
  {
    hide Encode32, Decode32;
    var b, n := EncodeEntry(e), |e.data|;
    Decode32Encode32(n);
    Decode32Encode32(e.addr);
    assert b[..4] == Encode32(n) && b[4..4 + n] == e.data && b[4 + n..8 + n] == Encode32(e.addr);
  }

  lemma ReadEntry(log: seq<StoreLog>, i: nat)
    requires LogOk(log) && i < |log|
    ensures LogOk(log[..i]) && LogOk(log[..i + 1])
    ensures var at, b, n := |Serialize(log[..i])|, Serialize(log), |log[i].data|;
      && at + 8 + n == |Serialize(log[..i + 1])| <= |b|
      && Decode32(b[at..at + 4]) == n
      && b[at + 4..at + 4 + n] == log[i].data
      && Decode32(b[at + 4 + n..at + 8 + n]) == log[i].addr
  {
    hide EncodeEntry, Decode32, Serialize;
    EntryAt(log, i);
    EntryFields(log[i]);
    var at, b, n := |Serialize(log[..i])|, Serialize(log), |log[i].data|;
    Within(b, at, 8 + n, 0, 4);
    Within(b, at, 8 + n, 4, 4 + n);
    Within(b, at, 8 + n, 4 + n, 8 + n);
  }

  lemma Within(b: seq<byte>, at: nat, n: nat, i: nat, j: nat)
    requires i <= j <= n && at + n <= |b|
    ensures b[at..at + n][i..j] == b[at + i..at + j]
  {
    var w := b[at..at + n];
    assert forall k | i <= k < j :: w[k] == b[at + k];
    assert |w[i..j]| == |b[at + i..at + j]|;
    assert forall k | 0 <= k < j - i :: w[i..j][k] == b[at + i..at + j][k];
  }

  lemma ApplyLast(h: Home, log: seq<StoreLog>, i: nat, c: nat)
    requires LogOk(log) && i < |log|
    ensures LogOk(log[..i]) && LogOk(log[..i + 1])
    ensures ApplyLog(h, log[..i + 1], c) == ApplyEntry(ApplyLog(h, log[..i], c), log[i], c)
  {
    assert log[..i + 1][..i] == log[..i];
  }

  /** The words of a sync reply: how many pages follow, then their addresses in some order. */
  ghost predicate Lists(reply: seq<nat>, pages: set<nat>)
  {
    && |reply| == |pages| + 1 && reply[0] == |pages|
    && (forall i | 1 <= i < |reply| :: reply[i] % PAGE_SIZE == 0 && reply[i] / PAGE_SIZE in pages)
    && forall p | p in pages :: p * PAGE_SIZE in reply[1..]
  }

  /** The addresses behind the count are those of the pages whose access set lacks the client. */
  ghost predicate Invalidates(reply: seq<nat>, access: map<nat, set<nat>>, c: nat)
  {
    && reply != [] && reply[0] == |reply| - 1
    && forall p: nat :: p * PAGE_SIZE in reply[1..] <==> p in access && c !in access[p]
  }

  /** Every page is overlaid with its stores; the pages stored to are the writer's alone. */
  ghost predicate Performed(h: Home, log: seq<StoreLog>, c: nat, g: Home)
  {
    && LogOk(log) && g.mem.Keys == h.mem.Keys == h.access.Keys == g.access.Keys && g.top == h.top
    && forall p | p in h.mem :: |h.mem[p]| == PAGE_SIZE
         && g.mem[p] == Overlay(h.mem[p], log, p)
         && g.access[p] == if exists i :: 0 <= i < |log| && log[i].addr / PAGE_SIZE == p then {c} else h.access[p]
  }

  /** The pages from the old top to the new one are there, zero and the client's alone; no other page
      changes. */
  ghost predicate Added(h: Home, top: nat, c: nat, g: Home)
  {
    && g.top == top && g.mem.Keys == g.access.Keys
    && (forall p: nat :: p in g.mem <==> p in h.mem || h.top <= p < top)
    && (forall p: nat | h.top <= p < top :: p in g.mem && g.mem[p] == ZeroPage() && p in g.access && g.access[p] == {c})
    && forall p | p in h.mem ::
      p in h.access && p in g.mem && g.mem[p] == h.mem[p] && p in g.access && g.access[p] == h.access[p]
  }

  lemma ListsExactly(reply: seq<nat>, h: Home, c: nat)
    requires Lists(reply, Stale(h, c))
    ensures Invalidates(reply, h.access, c)
  {
    forall p: nat ensures p * PAGE_SIZE in reply[1..] <==> p in Stale(h, c) {
      if p * PAGE_SIZE in reply[1..] {
        var i :| 0 <= i < |reply[1..]| && reply[1..][i] == p * PAGE_SIZE;
        assert reply[i + 1] / PAGE_SIZE == p;
      }
    }
  }

  lemma AllPerformed(h: Home, log: seq<StoreLog>, c: nat)
    requires h.Ok() && LogOk(log) && forall i | 0 <= i < |log| :: log[i].Page() in h.mem
    ensures Performed(h, log, c, ApplyLog(h, log, c))
  {
    hide ApplyLog, Overlay;
    ApplyLogEffect(h, log, c);
    var g := ApplyLog(h, log, c);
    forall p | p in h.mem
      ensures g.access[p] == if exists i :: 0 <= i < |log| && log[i].addr / PAGE_SIZE == p then {c} else h.access[p]
    {
      assert Touches(log, p) <==> exists i :: 0 <= i < |log| && log[i].addr / PAGE_SIZE == p by {
        assert forall i | 0 <= i < |log| :: log[i].Page() == log[i].addr / PAGE_SIZE;
      }
    }
  }

  lemma AllAdded(h: Home, pages: nat, c: nat)
    requires h.Ok()
    ensures Added(h, h.top + pages, c, Allocate(h, pages, c))
  {
    hide ZeroPage;
  }

  class Server {
    var memory: map<nat, seq<byte>>
    var accessS: map<nat, set<nat>>
    var heapTop: nat

    function State(): Home
      reads this
    {
      Home(memory, accessS, heapTop)
    }

    constructor (start: nat)
      ensures State() == Home(map[], map[], start)
    {
      memory, accessS, heapTop := map[], map[], start;
    }

    /** One store is performed and the pages from its first to its last become the writer's. */
    method ApplyOne(size: nat, data: seq<byte>, addr: nat, srcid: nat)
      requires State().Ok() && heapTop * PAGE_SIZE < 0x1_0000_0000
      requires StoreLog(addr, data).Ok() && size == |data| && addr / PAGE_SIZE in memory
      modifies this
      ensures State() == ApplyEntry(old(State()), StoreLog(addr, data), srcid)
      ensures var p, at := addr / PAGE_SIZE, addr % PAGE_SIZE;
        && memory == old(memory)[p := old(memory)[p][..at] + data + old(memory)[p][at + size..]]
        && accessS == old(accessS)[p := {srcid}] && heapTop == old(heapTop)
    {
      var at := addr % PAGE_SIZE;
      var home := addr / PAGE_SIZE;
      memory := memory[home := memory[home][..at] + data + memory[home][at + size..]];
      var pageAddr: nat := addr - at;
      var last := pageAddr + size - 1;
      var lastPageAddr := last - last % PAGE_SIZE;
      OnePage(pageAddr, size, home);
      ghost var was := accessS;
      while pageAddr <= lastPageAddr
        invariant pageAddr == lastPageAddr || pageAddr == lastPageAddr + PAGE_SIZE
        invariant accessS == if pageAddr == lastPageAddr then was else was[home := {srcid}]
        invariant lastPageAddr == home * PAGE_SIZE
        invariant memory == old(memory)[home := StoreLog(addr, data).Write(old(memory)[home])]
        invariant heapTop == old(heapTop)
        decreases lastPageAddr + PAGE_SIZE - pageAddr
      {
        var page := pageAddr / PAGE_SIZE;
        assert page == home;
        accessS := accessS[page := {srcid}];
        pageAddr := pageAddr + PAGE_SIZE;
      }
    }

    /** The invalidation list is taken before the log is applied; then every entry is performed in
        order until exactly the announced number of bytes is used up. */
    method SyncHandler(data: seq<byte>, srcid: nat, ghost log: seq<StoreLog>) returns (reply: seq<nat>)
      requires State().Ok() && heapTop * PAGE_SIZE < 0x1_0000_0000
      requires LogOk(log) && |Serialize(log)| < 0x8000_0000 && data == Message(log)
      requires forall i | 0 <= i < |log| :: log[i].Page() in memory
      modifies this
      ensures State() == ApplyLog(old(State()), log, srcid)
      ensures Lists(reply, Stale(old(State()), srcid))
      ensures Invalidates(reply, old(accessS), srcid) && Performed(old(State()), log, srcid, State())
    {
      hide Serialize, ApplyLog, ApplyEntry, Decode32, Encode32, Home.Ok, Performed, Invalidates, Lists, Stale;
      MessageParts(log);
      var sizeStoreLogs := Decode32(data[..4]);
      var sendAddrSet := CollectStale(srcid);
      var storeLogs := data[4..4 + sizeStoreLogs];
      assert storeLogs == Serialize(log);
      var current: nat := 0;
      ghost var i := 0;
      ghost var was := State();
      AppliedNone(was, log, srcid);
      while current != sizeStoreLogs
        invariant 0 <= i <= |log| && LogOk(log[..i]) && current == |Serialize(log[..i])|
        invariant State() == ApplyLog(was, log[..i], srcid) && heapTop == was.top
        invariant State().Ok() && memory.Keys == was.mem.Keys
        decreases |log| - i
      {
        BytesLeft(log, i);
        ReadEntry(log, i);
        ApplyLast(was, log, i, srcid);
        var size := Decode32(storeLogs[current..current + 4]);
        var stored := storeLogs[current + 4..current + 4 + size];
        var addr := Decode32(storeLogs[current + 4 + size..current + 8 + size]);
        assert StoreLog(addr, stored) == log[i];
        assert log[i].Page() in memory && log[i].Page() == addr / PAGE_SIZE;
        AppliedOk(State(), log[i], srcid);
        ApplyOne(size, stored, addr, srcid);
        current := current + 8 + size;
        i := i + 1;
      }
      assert log[..i] == log by {
        if i < |log| { PrefixShorter(log, i); }
      }
      reply := PushAddresses(sendAddrSet);
      ListsExactly(reply, was, srcid);
      AllPerformed(was, log, srcid);
    }

    /** The pages whose access set lacks the client, found by going through the page map. */
    method CollectStale(srcid: nat) returns (stale: set<nat>)
      ensures stale == Stale(State(), srcid)
      ensures forall p :: p in stale <==> p in accessS && srcid !in accessS[p]
    {
      stale := {};
      var todo := accessS.Keys;
      while todo != {}
        invariant todo <= accessS.Keys
        invariant forall p :: p in stale <==> p in accessS && p !in todo && srcid !in accessS[p]
        decreases |todo|
      {
        var p :| p in todo;
        if srcid !in accessS[p] { stale := stale + {p}; }
        todo := todo - {p};
      }
    }

    /** A page request: the page is sent and the client enters its access set. */
    method HeapSegfaultHandler(faultAddr: nat, srcid: nat) returns (content: seq<byte>)
      requires State().Ok() && faultAddr / PAGE_SIZE in memory
      modifies this`accessS
      ensures State() == Fetch(old(State()), faultAddr / PAGE_SIZE, srcid)
      ensures content == memory[faultAddr / PAGE_SIZE] && memory == old(memory) && heapTop == old(heapTop)
      ensures var p := faultAddr / PAGE_SIZE; accessS == old(accessS)[p := old(accessS)[p] + {srcid}]
    {
      var page := faultAddr / PAGE_SIZE;
      content := memory[page];
      accessS := accessS[page := accessS[page] + {srcid}];
    }

    /** An allocation of whole pages at the heap top. */
    method HeapAllocHandler(lenbuf: nat, srcid: nat) returns (allocAddr: nat)
      requires State().Ok() && 0 < heapTop && lenbuf % PAGE_SIZE == 0 && heapTop * PAGE_SIZE + lenbuf < 0x8000_0000
      modifies this
      ensures State() == Allocate(old(State()), lenbuf / PAGE_SIZE, srcid)
      ensures allocAddr == old(heapTop) * PAGE_SIZE && heapTop == old(heapTop) + lenbuf / PAGE_SIZE
      ensures Added(old(State()), heapTop, srcid, State())
    {
      hide ZeroPages, Run, Granted, Added;
      allocAddr := heapTop * PAGE_SIZE;
      var pages: nat := lenbuf / PAGE_SIZE;
      memory := memory + ZeroPages(heapTop, pages);
      var current: nat := allocAddr;
      var last := current + lenbuf - 1;
      var lastPageAddr := last - last % PAGE_SIZE;
      LastPage(heapTop, pages);
      ghost var was := accessS;
      ghost var done: nat := 0;
      GrantedNone(was, heapTop, srcid);
      while current <= lastPageAddr
        invariant done <= pages && current == (heapTop + done) * PAGE_SIZE
        invariant accessS == Granted(was, heapTop, done, srcid)
        invariant heapTop == old(heapTop) && memory == old(memory) + ZeroPages(heapTop, pages)
        decreases pages - done
      {
        var page := current / PAGE_SIZE;
        assert page == heapTop + done;
        GrantedNext(was, heapTop, done, srcid);
        accessS := accessS[page := {srcid}];
        current := current + PAGE_SIZE;
        done := done + 1;
      }
      GrantedAll(State(), was, pages, srcid);
      heapTop := heapTop + pages;
      AllAdded(old(State()), pages, srcid);
    }
  }

  /** A run of new pages is given to one client. */
  function Granted(access: map<nat, set<nat>>, first: nat, pages: nat, c: nat): map<nat, set<nat>>
  {
    access + map p | p in Run(first, pages) :: {c}
  }

  lemma GrantedAll(h: Home, access: map<nat, set<nat>>, pages: nat, c: nat)
    ensures Allocate(Home(h.mem, access, h.top), pages, c).access == Granted(access, h.top, pages, c)
  {}

  lemma GrantedNone(access: map<nat, set<nat>>, first: nat, c: nat)
    ensures Granted(access, first, 0, c) == access
  {}

  lemma GrantedNext(access: map<nat, set<nat>>, first: nat, pages: nat, c: nat)
    ensures Granted(access, first, pages + 1, c) == Granted(access, first, pages, c)[first + pages := {c}]
  {}

  /** The page containing the first byte of an entry contains its last byte. */
  lemma OnePage(pageAddr: nat, size: nat, page: nat)
    requires pageAddr == page * PAGE_SIZE && 1 <= size <= PAGE_SIZE
    ensures var last := pageAddr + size - 1; last - last % PAGE_SIZE == pageAddr
  {}

  lemma LastPage(top: nat, pages: nat)
    requires top > 0
    ensures var last := top * PAGE_SIZE + pages * PAGE_SIZE - 1;
      last - last % PAGE_SIZE == (top + pages - 1) * PAGE_SIZE
  {
    var n := top + pages - 1;
    assert top * PAGE_SIZE + pages * PAGE_SIZE - 1 == n * PAGE_SIZE + (PAGE_SIZE - 1);
  }

  lemma MessageParts(log: seq<StoreLog>)
    requires LogOk(log) && |Serialize(log)| < 0x8000_0000
    ensures var m := Message(log);
      |m| == 4 + |Serialize(log)| && Decode32(m[..4]) == |Serialize(log)| && m[4..] == Serialize(log)
  {
    hide Encode32, Decode32, Serialize;
    Decode32Encode32(|Serialize(log)|);
    assert Message(log)[..4] == Encode32(|Serialize(log)|);
  }

  lemma AppliedNone(h: Home, log: seq<StoreLog>, c: nat)
    requires LogOk(log)
    ensures LogOk(log[..0]) && Serialize(log[..0]) == [] && ApplyLog(h, log[..0], c) == h
  {}

  lemma AppliedOk(h: Home, e: StoreLog, c: nat)
    requires h.Ok() && e.Ok() && e.Page() in h.mem
    ensures ApplyEntry(h, e, c).Ok() && ApplyEntry(h, e, c).mem.Keys == h.mem.Keys && ApplyEntry(h, e, c).top == h.top
  {}

  /** The set's size, then its members' addresses. */
  method PushAddresses(pages: set<nat>) returns (reply: seq<nat>)
    ensures Lists(reply, pages)
  {
    reply := [|pages|];
    var todo := pages;
    while todo != {}
      invariant todo <= pages && |reply| == |pages| - |todo| + 1 && reply[0] == |pages|
      invariant forall i | 1 <= i < |reply| :: reply[i] % PAGE_SIZE == 0 && reply[i] / PAGE_SIZE in pages
      invariant forall p | p in pages && p !in todo :: p * PAGE_SIZE in reply[1..]
      decreases |todo|
    {
      var p :| p in todo;
      ghost var was := reply;
      reply := reply + [p * PAGE_SIZE];
      assert reply[1..] == was[1..] + [p * PAGE_SIZE];
      todo := todo - {p};
    }
  }
}
