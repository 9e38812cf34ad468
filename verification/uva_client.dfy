/** The client's side: the store log, its serialisation into one buffer, the invalidations of a
    sync and the installation of pages. */
module UvaClient {
  import opened StoreLogs
  import opened SharedMemory
  import opened HomeServer
  import Chunks
  import XMemory

  predicate IsHeapAddr(a: nat) { 402653184 <= a < 939524096 }
  predicate IsGlobalAddr(a: nat) { 352321536 <= a < 369098752 }

  /** The addresses whose stores are logged include exactly those the allocator's heap can have. */
  lemma HeapIsLogged(a: nat)
    ensures IsHeapAddr(a) <==> Chunks.HEAP_START <= a < XMemory.HEAP_MAX_ADDR
  {}

  /** memcpy into a buffer. */
  method CopyTo(buffer: array<byte>, at: nat, data: seq<byte>)
    requires at + |data| <= buffer.Length
    modifies buffer
    ensures buffer[..] == old(buffer[..at]) + data + old(buffer[at + |data|..])
  {
    for i := 0 to |data|
      invariant buffer[..at] == old(buffer[..at])
      invariant buffer[at..at + i] == data[..i]
      invariant buffer[at + i..] == old(buffer[at + i..])
    {
      ghost var was := buffer[..];
      buffer[at + i] := data[i];
      assert buffer[..] == was[..at + i] + [data[i]] + was[at + i + 1..];
      assert buffer[at..at + i + 1] == was[at..at + i] + [data[i]];
      assert buffer[at + i + 1..] == was[at + i + 1..];
    }
    assert buffer[..] == buffer[..at] + buffer[at..at + |data|] + buffer[at + |data|..];
  }

  lemma SerializeNext(log: seq<StoreLog>, i: nat)
    requires LogOk(log) && i < |log|
    ensures LogOk(log[..i]) && LogOk(log[..i + 1])
    ensures Serialize(log[..i + 1]) == Serialize(log[..i]) + Encode32(|log[i].data|) + log[i].data
      + Encode32(log[i].addr)
  {
    assert log[..i + 1][..i] == log[..i];
  }

  /** The pages of some addresses. */
  function PagesOf(addresses: seq<nat>): (pages: set<nat>)
    ensures forall i | 0 <= i < |addresses| :: addresses[i] / PAGE_SIZE in pages
  {
    if addresses == [] then {}
    else PagesOf(addresses[..|addresses| - 1]) + {addresses[|addresses| - 1] / PAGE_SIZE}
  }

  lemma {:induction false} PagesWithin(addresses: seq<nat>, pages: set<nat>)
    requires forall i | 0 <= i < |addresses| :: addresses[i] / PAGE_SIZE in pages
    ensures PagesOf(addresses) <= pages
  {
    if addresses != [] { PagesWithin(addresses[..|addresses| - 1], pages); }
  }

  lemma NoPages()
    ensures PagesOf([]) == {}
  {}

  lemma PagesNext(addresses: seq<nat>, i: nat)
    requires i < |addresses|
    ensures PagesOf(addresses[..i + 1]) == PagesOf(addresses[..i]) + {addresses[i] / PAGE_SIZE}
  {
    assert addresses[..i + 1][..i] == addresses[..i];
  }

  /** The announced number of addresses behind the count. */
  method TakeAddresses(reply: seq<nat>, ghost pages: set<nat>) returns (addresses: seq<nat>)
    requires Lists(reply, pages)
    ensures addresses == reply[1..]
  {
    var addressNum := reply[0];
    addresses := [];
    for i := 0 to addressNum
      invariant addresses == reply[1..i + 1]
    {
      addresses := addresses + [reply[1 + i]];
    }
  }

  lemma ListedPages(reply: seq<nat>, pages: set<nat>)
    requires Lists(reply, pages)
    ensures PagesOf(reply[1..]) == pages
  {
    PagesWithin(reply[1..], pages);
    forall p | p in pages ensures p in PagesOf(reply[1..]) {
      var k :| 0 <= k < |reply[1..]| && reply[1..][k] == p * PAGE_SIZE;
      assert reply[1..][k] / PAGE_SIZE == p;
    }
  }

  class Manager {
    var vecStoreLogs: seq<StoreLog>
    var sizeStoreLogs: nat
    var copies: map<nat, seq<byte>>

    /** The running size is the length of the serialised log. */
    ghost predicate Valid()
      reads this
    {
      LogOk(vecStoreLogs) && sizeStoreLogs == |Serialize(vecStoreLogs)|
    }

    constructor ()
      ensures Valid() && vecStoreLogs == [] && copies == map[]
    {
      vecStoreLogs, sizeStoreLogs, copies := [], 0, map[];
    }

    /** A store is logged when its address is a shared one. */
    method StoreHandler(data: seq<byte>, addr: nat)
      requires Valid() && StoreLog(addr, data).Ok()
      modifies this`vecStoreLogs, this`sizeStoreLogs
      ensures Valid()
      ensures vecStoreLogs ==
              if 0x1800_0000 <= addr < 0x3800_0000 || 0x1500_0000 <= addr < 0x1600_0000
              then old(vecStoreLogs) + [StoreLog(addr, data)]
              else old(vecStoreLogs)
    {
      if !(IsHeapAddr(addr) || IsGlobalAddr(addr)) { return; }
      vecStoreLogs := vecStoreLogs + [StoreLog(addr, data)];
      sizeStoreLogs := sizeStoreLogs + 8 + |data|;
      assert vecStoreLogs[..|vecStoreLogs| - 1] == old(vecStoreLogs);
    }

    /** The first half of a sync: the log is written out entry by entry until the buffer of the
        running size is full, and is then cleared. */
    method SyncRequestMessage() returns (msg: seq<byte>)
      requires Valid() && sizeStoreLogs < 0x8000_0000
      modifies this`vecStoreLogs, this`sizeStoreLogs
      ensures Valid() && vecStoreLogs == []
      ensures msg == Message(old(vecStoreLogs))
      ensures ParseMessage(msg) == old(vecStoreLogs)
    {
      hide Serialize, Encode32, ParseMessage;
      var storeLogs := new byte[sizeStoreLogs];
      var current: nat := 0;
      var i: nat := 0;
      NothingSerialized();
      assert vecStoreLogs[..0] == [];
      while current != sizeStoreLogs
        invariant vecStoreLogs == old(vecStoreLogs) && sizeStoreLogs == old(sizeStoreLogs)
        invariant 0 <= i <= |vecStoreLogs| && LogOk(vecStoreLogs[..i])
        invariant current == |Serialize(vecStoreLogs[..i])| <= sizeStoreLogs
        invariant storeLogs[..current] == Serialize(vecStoreLogs[..i])
        decreases |vecStoreLogs| - i
      {
        BytesLeft(vecStoreLogs, i);
        EntryAt(vecStoreLogs, i);
        SerializeNext(vecStoreLogs, i);
        var cur := vecStoreLogs[i];
        var n := |cur.data|;
        ghost var before := storeLogs[..current];
        CopyTo(storeLogs, current, Encode32(n));
        CopyTo(storeLogs, current + 4, cur.data);
        CopyTo(storeLogs, current + 4 + n, Encode32(cur.addr));
        assert storeLogs[..current + 8 + n] == before + Encode32(n) + cur.data + Encode32(cur.addr);
        current := current + 8 + n;
        i := i + 1;
      }
      Finished(vecStoreLogs, i);
      msg := Encode32(sizeStoreLogs);
      if sizeStoreLogs != 0 {
        msg := msg + storeLogs[..];
      }
      assert storeLogs[..] == storeLogs[..current];
      ParseMessageOf(vecStoreLogs);
      sizeStoreLogs := 0;
      vecStoreLogs := [];
    }

    /** The second half: every page whose address the home sends back loses its copy. */
    method SyncInvalidate(reply: seq<nat>, ghost stale: set<nat>)
      requires Valid() && Lists(reply, stale)
      modifies this`copies
      ensures copies == old(copies) - stale
    {
      hide Lists, PagesOf, LogOk, Serialize;
      var addresses := TakeAddresses(reply, stale);
      NoPages();
      assert addresses[..0] == [];
      for i := 0 to |addresses|
        invariant vecStoreLogs == old(vecStoreLogs) && sizeStoreLogs == old(sizeStoreLogs)
        invariant copies == old(copies) - PagesOf(addresses[..i])
      {
        PagesNext(addresses, i);
        copies := copies - {addresses[i] / PAGE_SIZE};
      }
      assert addresses[..|addresses|] == addresses;
      ListedPages(reply, stale);
    }

    /** A page fault in the heap installs the page the home sends. */
    method SegfaultInstall(faultAddr: nat, content: seq<byte>)
      requires Valid() && |content| == PAGE_SIZE
      modifies this`copies
      ensures copies == old(copies)[faultAddr / PAGE_SIZE := content]
    {
      copies := copies[faultAddr / PAGE_SIZE := content];
    }
  }

  lemma NothingSerialized()
    ensures Serialize([]) == []
  {}

  lemma Finished(log: seq<StoreLog>, i: nat)
    requires LogOk(log) && i <= |log| && LogOk(log[..i]) && |Serialize(log[..i])| == |Serialize(log)|
    ensures log[..i] == log
  {
    if i < |log| { PrefixShorter(log, i); }
  }

  // ----- the two classes together

  /** The copies left are those of pages whose access set has the client, or that have none. */
  ghost predicate Survivors(copies: map<nat, seq<byte>>, access: map<nat, set<nat>>, c: nat, left: map<nat, seq<byte>>)
  {
    && (forall p :: p in left <==> p in copies && (p !in access || c in access[p]))
    && forall p | p in left :: left[p] == copies[p]
  }

  lemma KeptCopies(copies: map<nat, seq<byte>>, h: Home, c: nat)
    ensures Survivors(copies, h.access, c, copies - Stale(h, c))
  {}

  /** The two objects as a state of the protocol, with any other clients. */
  ghost function Joint(client: Manager, server: Server, c: nat, storing: Option<StoreLog>,
                       others: map<nat, Client>): Sys
    reads client, server
  {
    Sys(server.State(), others[c := Client(client.copies, client.vecStoreLogs, storing, Idle)])
  }

  /** The events happen one after the other, each enabled when its turn comes. */
  ghost predicate Happens(s: Sys, events: seq<Event>, t: Sys)
    decreases |events|
  {
    if events == [] then t == s else Enabled(s, events[0]) && Happens(After(s, events[0]), events[1..], t)
  }

  lemma ThreeHappen(s: Sys, a: Event, b: Event, d: Event, t: Sys)
    requires Enabled(s, a) && Enabled(After(s, a), b) && Enabled(After(After(s, a), b), d)
    requires t == After(After(After(s, a), b), d)
    ensures Happens(s, [a, b, d], t)
  {
    hide Enabled, After;
    assert [a, b, d][1..] == [b, d] && [b, d][1..] == [d] && [d][1..] == [];
    assert Happens(After(After(s, a), b), [d], t);
    assert Happens(After(s, a), [b, d], t);
  }

  lemma SyncHappens(s: Sys, c: nat, t: Sys)
    requires c in s.clients && s.clients[c].net.Idle? && s.clients[c].storing.None?
    requires LogOk(s.clients[c].log) && |Serialize(s.clients[c].log)| < 0x8000_0000
    requires var cl := s.clients[c];
      t == Sys(ApplyLog(s.home, cl.log, c), s.clients[c := cl.(log := [], copy := cl.copy - Stale(s.home, c))])
    ensures Happens(s, [SyncSend(c), SyncServe(c), SyncDone(c)], t)
  {
    hide Message, ParseMessage, Serialize, ApplyLog, Stale, LogOk, Happens;
    ParseMessageOf(s.clients[c].log);
    ThreeHappen(s, SyncSend(c), SyncServe(c), SyncDone(c), t);
  }

  lemma FaultHappens(s: Sys, c: nat, p: nat, t: Sys)
    requires c in s.clients && s.clients[c].net.Idle? && p !in s.clients[c].copy && p in s.home.mem
    requires p in s.home.access
    requires s.clients[c].storing.Some? ==> s.clients[c].storing.value.Page() == p
    requires var cl := s.clients[c];
      t == Sys(Fetch(s.home, p, c), s.clients[c := cl.(copy := cl.copy[p := s.home.mem[p]])])
    ensures Happens(s, [FaultSend(c, p), FaultServe(c), FaultInstall(c)], t)
  {
    hide Fetch, Happens;
    ThreeHappen(s, FaultSend(c, p), FaultServe(c), FaultInstall(c), t);
  }

  /** One whole sync between the two classes: what the home parses and performs is the client's
      log, and what stays with the client is what the home's access sets allow. It is the protocol's
      three sync events. */
  method Sync(client: Manager, server: Server, c: nat, ghost others: map<nat, Client>)
    requires client.Valid() && client.sizeStoreLogs < 0x8000_0000
    requires server.State().Ok() && server.heapTop * PAGE_SIZE < 0x1_0000_0000
    requires forall i | 0 <= i < |client.vecStoreLogs| :: client.vecStoreLogs[i].Page() in server.memory
    modifies client, server
    ensures client.Valid() && client.vecStoreLogs == []
    ensures server.State() == ApplyLog(old(server.State()), old(client.vecStoreLogs), c)
    ensures client.copies == old(client.copies) - Stale(old(server.State()), c)
    ensures Survivors(old(client.copies), old(server.accessS), c, client.copies)
    ensures Performed(old(server.State()), old(client.vecStoreLogs), c, server.State())
    ensures Happens(old(Joint(client, server, c, None, others)), [SyncSend(c), SyncServe(c), SyncDone(c)],
                    Joint(client, server, c, None, others))
  {
    hide Happens, ApplyLog, Stale, Serialize, LogOk, Message, Survivors, Performed;
    ghost var was := Joint(client, server, c, None, others);
    ghost var log, home := client.vecStoreLogs, server.State();
    var msg := client.SyncRequestMessage();
    var reply := server.SyncHandler(msg, c, log);
    client.SyncInvalidate(reply, Stale(home, c));
    SyncHappens(was, c, Joint(client, server, c, None, others));
    KeptCopies(old(client.copies), home, c);
  }

  /** One whole page fault between the two classes, possibly inside a store to that page: the client
      gets the home's page and enters its access set. It is the protocol's three fault events. */
  method Fault(client: Manager, server: Server, faultAddr: nat, c: nat, ghost storing: Option<StoreLog>,
               ghost others: map<nat, Client>)
    requires client.Valid() && server.State().Ok()
    requires faultAddr / PAGE_SIZE in server.memory && faultAddr / PAGE_SIZE !in client.copies
    requires storing.Some? ==> storing.value.Page() == faultAddr / PAGE_SIZE
    modifies client`copies, server`accessS
    ensures client.Valid() && server.State() == Fetch(old(server.State()), faultAddr / PAGE_SIZE, c)
    ensures client.copies == old(client.copies)[faultAddr / PAGE_SIZE := server.memory[faultAddr / PAGE_SIZE]]
    ensures var p := faultAddr / PAGE_SIZE; server.accessS == old(server.accessS)[p := old(server.accessS)[p] + {c}]
    ensures Happens(old(Joint(client, server, c, storing, others)),
                    [FaultSend(c, faultAddr / PAGE_SIZE), FaultServe(c), FaultInstall(c)],
                    Joint(client, server, c, storing, others))
  {
    hide Happens, Fetch;
    ghost var was := Joint(client, server, c, storing, others);
    var content := server.HeapSegfaultHandler(faultAddr, c);
    client.SegfaultInstall(faultAddr, content);
    FaultHappens(was, c, faultAddr / PAGE_SIZE, Joint(client, server, c, storing, others));
  }
}
