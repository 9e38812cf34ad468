/** Whole runs of the shared memory: coherence in every reachable state, no store lost, duplicated
    or reordered on its way to the home, and freshness of everything read after a sync. */
module LazyRelease {
  import opened StoreLogs
  import opened SharedMemory

  // ----- the invariant over one step

  /** Every event keeps the invariant. */
  lemma InvKept(s: Sys, ev: Event)
    requires Inv(s) && Enabled(s, ev)
    ensures Inv(After(s, ev))
  {
    hide ClientOk, HomeMoves, ApplyLog, Fetch, Allocate;
    EventMoves(s, ev);
    var h' := HomeAfter(s, ev);
    MovedOk(s.home, h', ev.c);
    forall d | d in s.clients && d != ev.c ensures ClientOk(h', d, s.clients[d]) {
      OthersKept(s.home, h', ev.c, d, s.clients[d]);
    }
    OwnKept(s, ev);
  }

  lemma MovedOk(h: Home, h': Home, c: nat)
    requires HomeMoves(h, h', c)
    ensures h'.Ok()
  {}

  lemma OwnKept(s: Sys, ev: Event)
    requires Inv(s) && Enabled(s, ev) && HomeAfter(s, ev).Ok()
    ensures ClientOk(HomeAfter(s, ev), ev.c, ClientAfter(s, ev))
  {
    hide Coherent, ApplyLog, Fetch, Allocate, Overlay, ParseMessage, Message, Serialize, Stale;
    var h, c := s.home, ev.c;
    if ev.Join? {
      NewClientOk(h, c);
    } else {
      var cl := s.clients[c];
      assert ClientOk(h, c, cl);
      match ev
      case Join(_) =>
      case LogStore(_, e) => LogStoreKept(h, c, cl, e);
      case WriteStore(_) => WriteStoreKept(h, c, cl);
      case FaultSend(_, p) => FaultSendKept(h, c, cl, p);
      case FaultServe(_) => FaultServeKept(h, c, cl);
      case FaultInstall(_) => FaultInstallKept(h, c, cl);
      case SyncSend(_) => SyncSendKept(h, c, cl);
      case SyncServe(_) => SyncServeKept(h, c, cl);
      case SyncDone(_) => SyncDoneKept(h, c, cl);
      case AllocSend(_, pages) => AllocSendKept(h, c, cl, pages);
      case AllocServe(_) => AllocServeKept(h, c, cl);
      case AllocInstall(_) => AllocInstallKept(h, c, cl);
    }
  }

  lemma NewClientOk(h: Home, c: nat)
    requires h.Ok()
    ensures ClientOk(h, c, NewClient)
  {
    hide Overlay;
  }

  lemma AllocSendKept(h: Home, c: nat, cl: Client, pages: nat)
    requires h.Ok() && ClientOk(h, c, cl) && cl.net.Idle? && cl.storing.None?
    ensures ClientOk(h, c, cl.(net := AllocRequest(pages)))
  {
    hide Overlay;
    assert cl.(net := AllocRequest(pages)).Pending() == cl.Pending();
  }

  // ----- runs

  /** The states of a run that starts with nothing allocated and no client, and its events. */
  ghost predicate IsRun(run: seq<Sys>, evs: seq<Event>)
  {
    && |run| == |evs| + 1
    && run[0].home.mem == map[] && run[0].home.access == map[] && run[0].clients == map[]
    && forall i | 0 <= i < |evs| :: Enabled(run[i], evs[i]) && run[i + 1] == After(run[i], evs[i])
  }

  lemma {:induction false} RunInv(run: seq<Sys>, evs: seq<Event>, j: nat)
    requires IsRun(run, evs) && j < |run|
    ensures Inv(run[j])
  {
    hide ClientOk;
    if j > 0 {
      RunInv(run, evs, j - 1);
      InvKept(run[j - 1], evs[j - 1]);
    }
  }

  /** A client, its log and its copies as one step of a run leaves them. */
  lemma OneStep(run: seq<Sys>, evs: seq<Event>, j: nat, c: nat)
    requires IsRun(run, evs) && j < |evs| && c in run[j + 1].clients
    ensures Enabled(run[j], evs[j]) && run[j + 1].home == HomeAfter(run[j], evs[j])
    ensures run[j + 1].clients[c] == if evs[j].c == c then ClientAfter(run[j], evs[j]) else run[j].clients[c]
    ensures evs[j].c == c || c in run[j].clients
  {
    hide HomeAfter, ClientAfter;
    assert run[j + 1] == After(run[j], evs[j]);
  }

  // ----- where the stores go

  /** The stores client c has performed in the first j events. */
  ghost function Stores(run: seq<Sys>, evs: seq<Event>, c: nat, j: nat): seq<StoreLog>
    requires IsRun(run, evs) && j <= |evs|
  {
    if j == 0 then []
    else if evs[j - 1] == WriteStore(c) then
      Stores(run, evs, c, j - 1) + [run[j - 1].clients[c].storing.value]
    else Stores(run, evs, c, j - 1)
  }

  /** The store log carried by the request that event j serves. */
  ghost function Carried(run: seq<Sys>, evs: seq<Event>, j: nat): seq<StoreLog>
    requires IsRun(run, evs) && j < |evs|
  {
    if evs[j].SyncServe? then ParseMessage(run[j].clients[evs[j].c].net.msg) else []
  }

  /** The stores of client c the home has performed in the first j events. */
  ghost function Served(run: seq<Sys>, evs: seq<Event>, c: nat, j: nat): seq<StoreLog>
    requires IsRun(run, evs) && j <= |evs|
  {
    if j == 0 then []
    else if evs[j - 1].c == c then Served(run, evs, c, j - 1) + Carried(run, evs, j - 1)
    else Served(run, evs, c, j - 1)
  }

  /** The stores of all clients the home has performed in the first j events. */
  ghost function Merged(run: seq<Sys>, evs: seq<Event>, j: nat): seq<StoreLog>
    requires IsRun(run, evs) && j <= |evs|
  {
    if j == 0 then [] else Merged(run, evs, j - 1) + Carried(run, evs, j - 1)
  }

  /** How an event changes the pending stores of its client. */
  lemma PendingAfter(s: Sys, ev: Event)
    requires Inv(s) && Enabled(s, ev) && !ev.Join?
    ensures var cl := s.clients[ev.c];
      ClientAfter(s, ev).Pending() ==
      if ev.WriteStore? then cl.Pending() + [cl.storing.value]
      else if ev.SyncServe? then []
      else cl.Pending()
  {
    hide Overlay, Coherent, Message, ParseMessage;
    var cl := s.clients[ev.c];
    assert ClientOk(s.home, ev.c, cl);
    if ev.SyncSend? {
      ParseMessageOf(cl.log);
    } else if ev.WriteStore? {
      assert cl.log == cl.log[..|cl.log| - 1] + [cl.storing.value];
    }
  }

  /** No store is lost, duplicated or reordered: what a client has stored is what the home has
      performed for it followed by what is still pending. */
  lemma {:induction false} StoresConserved(run: seq<Sys>, evs: seq<Event>, c: nat, j: nat)
    requires IsRun(run, evs) && j <= |evs|
    ensures c in run[j].clients ==> Stores(run, evs, c, j) == Served(run, evs, c, j) + run[j].clients[c].Pending()
    ensures c !in run[j].clients ==> Stores(run, evs, c, j) == Served(run, evs, c, j) == []
  {
    hide Inv, HomeAfter, ClientAfter, Client.Pending, ParseMessage;
    if j > 0 {
      StoresConserved(run, evs, c, j - 1);
      RunInv(run, evs, j - 1);
      assert run[j] == After(run[j - 1], evs[j - 1]);
      if evs[j - 1].c == c {
        if evs[j - 1].Join? {
          NothingPendingAtFirst();
          assert ClientAfter(run[j - 1], evs[j - 1]) == NewClient by { JoinAfter(run[j - 1], evs[j - 1]); }
        } else {
          PendingAfter(run[j - 1], evs[j - 1]);
          if evs[j - 1].SyncServe? { PendingRequest(run[j - 1].clients[c]); }
        }
      }
    }
  }

  lemma NothingPendingAtFirst()
    ensures NewClient.Pending() == []
  {}

  lemma JoinAfter(s: Sys, ev: Event)
    requires Enabled(s, ev) && ev.Join?
    ensures ClientAfter(s, ev) == NewClient
  {}

  lemma PendingRequest(cl: Client)
    requires cl.net.SyncRequest?
    ensures cl.Pending() == ParseMessage(cl.net.msg)
  {}

  lemma {:induction false} OverlayConcat(content: seq<byte>, a: seq<StoreLog>, b: seq<StoreLog>, p: nat)
    requires LogOk(a) && LogOk(b) && |content| == PAGE_SIZE
    ensures LogOk(a + b) && Overlay(content, a + b, p) == Overlay(Overlay(content, a, p), b, p)
  {
    if b == [] {
      assert a + b == a;
    } else {
      var n := |b| - 1;
      OverlayConcat(content, a, b[..n], p);
      assert a + b == (a + b[..n]) + [b[n]];
      OverlayAppend(content, a + b[..n], b[n], p);
    }
  }

  /** Every page of the home is the zero page overlaid with the list, which stays below the top. */
  ghost predicate HomeHolds(h: Home, list: seq<StoreLog>)
  {
    && LogOk(list)
    && (forall i | 0 <= i < |list| :: list[i].Page() < h.top)
    && forall p | p in h.mem :: h.mem[p] == Overlay(ZeroPage(), list, p)
  }

  lemma LogAppliedHolds(h: Home, list: seq<StoreLog>, log: seq<StoreLog>, c: nat)
    requires h.Ok() && HomeHolds(h, list) && LogOk(log) && forall i | 0 <= i < |log| :: log[i].Page() in h.mem
    ensures HomeHolds(ApplyLog(h, log, c), list + log)
  {
    hide Overlay, ZeroPage, ApplyLog, Touches;
    ApplyLogEffect(h, log, c);
    forall p | p in h.mem ensures LogOk(list + log) && Overlay(h.mem[p], log, p) == Overlay(ZeroPage(), list + log, p) {
      OverlayConcat(ZeroPage(), list, log, p);
    }
  }

  lemma AllocatedHolds(h: Home, list: seq<StoreLog>, pages: nat, c: nat)
    requires HomeHolds(h, list)
    ensures HomeHolds(Allocate(h, pages, c), list)
  {
    hide Overlay, ZeroPage, Run;
    forall p | p in Run(h.top, pages) ensures ZeroPage() == Overlay(ZeroPage(), list, p) {
      OverlayUntouched(ZeroPage(), list, p);
    }
  }

  /** Each home page is the zero page overlaid with the stores synced so far, in the order in
      which the syncs were served. */
  lemma {:induction false} HomeIsMerged(run: seq<Sys>, evs: seq<Event>, j: nat)
    requires IsRun(run, evs) && j <= |evs|
    ensures HomeHolds(run[j].home, Merged(run, evs, j))
  {
    hide HomeHolds, Inv, ClientAfter, ParseMessage, ApplyLog, Allocate;
    if j == 0 {
      NothingHeld(run[0].home);
    } else {
      var s, ev, was := run[j - 1], evs[j - 1], Merged(run, evs, j - 1);
      HomeIsMerged(run, evs, j - 1);
      RunInv(run, evs, j - 1);
      InvHome(s);
      assert run[j] == After(s, ev);
      assert was + [] == was;
      match ev
      case SyncServe(c) =>
        CarriedOk(s, ev);
        LogAppliedHolds(s.home, was, Carried(run, evs, j - 1), c);
      case AllocServe(c) => AllocatedHolds(s.home, was, s.clients[c].net.pages, c);
      case FaultServe(c) => FetchHolds(s.home, was, s.clients[c].net.page, c);
      case _ =>
    }
  }

  lemma NothingHeld(h: Home)
    requires h.mem == map[]
    ensures HomeHolds(h, [])
  {}

  lemma FetchHolds(h: Home, list: seq<StoreLog>, p: nat, c: nat)
    requires HomeHolds(h, list) && p in h.access
    ensures HomeHolds(Fetch(h, p, c), list)
  {
    hide Overlay;
  }

  lemma CarriedOk(s: Sys, ev: Event)
    requires Inv(s) && Enabled(s, ev) && ev.SyncServe?
    ensures var log := ParseMessage(s.clients[ev.c].net.msg);
      s.home.Ok() && LogOk(log) && forall i | 0 <= i < |log| :: log[i].Page() in s.home.mem
  {
    hide Coherent, ParseMessage;
    assert ClientOk(s.home, ev.c, s.clients[ev.c]);
  }

  /** A request under way can be served: the home parses it to the very log that was sent, whose
      pages it has allocated. */
  lemma SyncAlwaysServed(run: seq<Sys>, evs: seq<Event>, j: nat, c: nat)
    requires IsRun(run, evs) && j <= |evs| && c in run[j].clients && run[j].clients[c].net.SyncRequest?
    ensures Enabled(run[j], SyncServe(c))
    ensures Stores(run, evs, c, j) == Served(run, evs, c, j) + ParseMessage(run[j].clients[c].net.msg)
  {
    hide Coherent, ParseMessage, Stores, Served;
    RunInv(run, evs, j);
    assert ClientOk(run[j].home, c, run[j].clients[c]);
    StoresConserved(run, evs, c, j);
  }

  // ----- after a sync

  /** Once a client has dropped the pages on its invalidation list, every page it still holds is
      the home's page as it was when the sync was served. */
  lemma AfterSync(run: seq<Sys>, evs: seq<Event>, i: nat, j: nat, c: nat)
    requires IsRun(run, evs) && i < j < |evs| && evs[i] == SyncServe(c) && evs[j] == SyncDone(c)
    requires forall k | i < k < j :: evs[k].c != c
    ensures c in run[j + 1].clients && run[i + 1].home.Ok()
    ensures var home, copy := run[i + 1].home.mem, run[j + 1].clients[c].copy;
      forall p | p in copy :: p in home && copy[p] == home[p]
  {
    hide ClientAfter, HomeAfter, Inv;
    assert run[i + 1] == After(run[i], evs[i]);
    var k := i + 1;
    while k < j
      invariant i < k <= j
      invariant c in run[k].clients && run[k].clients[c] == run[i + 1].clients[c]
    {
      assert run[k + 1] == After(run[k], evs[k]);
      k := k + 1;
    }
    assert run[j + 1] == After(run[j], evs[j]);
    RunInv(run, evs, i + 1);
    RunInv(run, evs, i);
    ServedAgrees(run[i], evs[i]);
    DoneKeeps(run[j], evs[j]);
    var cl := run[i + 1].clients[c];
    forall p | p in cl.Valid() ensures cl.copy[p] == run[i + 1].home.mem[p] {}
  }

  lemma DoneKeeps(s: Sys, ev: Event)
    requires Enabled(s, ev) && ev.SyncDone?
    ensures ClientAfter(s, ev).copy.Keys == s.clients[ev.c].Valid()
    ensures forall p | p in ClientAfter(s, ev).copy :: ClientAfter(s, ev).copy[p] == s.clients[ev.c].copy[p]
  {}

  lemma ServedAgrees(s: Sys, ev: Event)
    requires Inv(s) && Enabled(s, ev) && ev.SyncServe?
    ensures var s' := After(s, ev); var cl := s'.clients[ev.c];
      s'.home.Ok() && cl.Pending() == [] && forall p | p in cl.Valid() ::
        p in cl.copy && p in s'.home.mem && |s'.home.mem[p]| == PAGE_SIZE && cl.copy[p] == s'.home.mem[p]
  {
    hide Overlay, ApplyLog, ParseMessage, Touches;
    var s' := After(s, ev);
    InvKept(s, ev);
    var cl := s'.clients[ev.c];
    CarriedOk(s, ev);
    var log := ParseMessage(s.clients[ev.c].net.msg);
    ApplyLogEffect(s.home, log, ev.c);
    assert ClientOk(s'.home, ev.c, cl);
    assert ClientOk(s.home, ev.c, s.clients[ev.c]);
    forall p | p in cl.Valid()
      ensures p in s'.home.mem && |s'.home.mem[p]| == PAGE_SIZE && cl.copy[p] == s'.home.mem[p]
    {
      assert ev.c in s.home.access[p];
      NothingPending(s'.home.mem[p], p);
    }
  }

  // ----- freshness

  /** The copy of page p is this home's page overlaid with the client's own pending stores. */
  ghost predicate HeldAt(h: Home, cl: Client, p: nat)
  {
    && p in h.mem && |h.mem[p]| == PAGE_SIZE && LogOk(cl.Pending())
    && p in cl.copy && cl.copy[p] == Overlay(h.mem[p], cl.Pending(), p)
  }

  /** Page contents under way to the client. */
  ghost predicate SentAt(h: Home, cl: Client, p: nat)
  {
    && p in h.mem && |h.mem[p]| == PAGE_SIZE
    && match cl.net
       case FaultReply(q, content) => p == q && content == h.mem[p]
       case AllocReply(first, pages) => p in Run(first, pages) && h.mem[p] == ZeroPage()
       case _ => false
  }

  ghost predicate HeldSince(run: seq<Sys>, lo: nat, hi: nat, cl: Client, p: nat)
    requires hi < |run|
  {
    exists k :: lo <= k <= hi && HeldAt(run[k].home, cl, p)
  }

  ghost predicate SentSince(run: seq<Sys>, lo: nat, hi: nat, cl: Client, p: nat)
    requires hi < |run|
  {
    exists k :: lo <= k <= hi && SentAt(run[k].home, cl, p)
  }

  function Sent(cl: Client): set<nat>
  {
    match cl.net
    case FaultReply(p, _) => {p}
    case AllocReply(first, pages) => Run(first, pages)
    case _ => {}
  }

  /** Everything the client can read, or is about to, was held by the home at state lo or later. */
  ghost predicate Fresh(run: seq<Sys>, lo: nat, hi: nat, cl: Client)
    requires hi < |run|
  {
    && (forall p | p in cl.Valid() :: HeldSince(run, lo, hi, cl, p))
    && (forall p | p in Sent(cl) :: SentSince(run, lo, hi, cl, p))
  }

  lemma FreshLonger(run: seq<Sys>, lo: nat, hi: nat, cl: Client)
    requires hi + 1 < |run| && Fresh(run, lo, hi, cl)
    ensures Fresh(run, lo, hi + 1, cl)
  {
    hide HeldAt, SentAt, Client.Valid, Sent;
  }

  /** A client's own event keeps a page that was already valid at the home state it came from. */
  lemma HeldKept(s: Sys, ev: Event, h: Home, p: nat)
    requires Inv(s) && Enabled(s, ev) && !ev.Join? && !ev.SyncServe? && HeldAt(h, s.clients[ev.c], p)
    requires p in ClientAfter(s, ev).Valid() && p !in Sent(s.clients[ev.c])
    ensures HeldAt(h, ClientAfter(s, ev), p)
  {
    hide Overlay, Coherent, Message, ParseMessage, StoreLog.Write, Client.Pending, Run;
    var cl, cl' := s.clients[ev.c], ClientAfter(s, ev);
    assert ClientOk(s.home, ev.c, cl);
    PendingAfter(s, ev);
    if ev.WriteStore? {
      OverlayAppend(h.mem[p], cl.Pending(), cl.storing.value, p);
    }
  }

  /** Page contents that arrive are not touched by any pending store. */
  lemma SentHeld(s: Sys, ev: Event, h: Home, p: nat)
    requires Inv(s) && Enabled(s, ev) && (ev.FaultInstall? || ev.AllocInstall?)
    requires SentAt(h, s.clients[ev.c], p)
    ensures HeldAt(h, ClientAfter(s, ev), p)
  {
    hide Overlay, Coherent, Message, ParseMessage, Client.Pending, Run, ZeroPage;
    var cl := s.clients[ev.c];
    assert ClientOk(s.home, ev.c, cl);
    PendingAfter(s, ev);
    OverlayUntouched(h.mem[p], cl.Pending(), p);
  }

  /** What a step makes readable or sends off is in the home at that step. */
  lemma NewlySent(s: Sys, ev: Event, p: nat)
    requires Inv(s) && Enabled(s, ev) && p in Sent(ClientAfter(s, ev)) && (ev.FaultServe? || ev.AllocServe?)
    ensures SentAt(HomeAfter(s, ev), ClientAfter(s, ev), p)
  {
    hide Run, ZeroPage, Inv;
    InvKept(s, ev);
    assert HomeAfter(s, ev).Ok() by { InvHome(After(s, ev)); }
    InvHome(s);
  }

  lemma InvHome(s: Sys)
    requires Inv(s)
    ensures s.home.Ok()
  {}

  /** Which pages are in the client's hands after its event, and what is under way. */
  lemma HandsAfter(s: Sys, ev: Event)
    requires Inv(s) && Enabled(s, ev) && !ev.Join?
    ensures ev.FaultServe? || ev.AllocServe? || Sent(ClientAfter(s, ev)) == {}
    ensures forall p | p in ClientAfter(s, ev).Valid() ::
              p in s.clients[ev.c].Valid() || (p in Sent(s.clients[ev.c]) && (ev.FaultInstall? || ev.AllocInstall?))
    ensures forall p | p in ClientAfter(s, ev).Valid() && p in Sent(s.clients[ev.c]) ::
      ev.FaultInstall? || ev.AllocInstall?
  {
    hide Run, ZeroPage, Coherent, Client.Pending;
    assert ClientOk(s.home, ev.c, s.clients[ev.c]);
  }

  lemma FreshStep(run: seq<Sys>, evs: seq<Event>, lo: nat, j: nat, c: nat)
    requires IsRun(run, evs) && lo <= j < |evs| && c in run[j].clients && c in run[j + 1].clients
    requires Fresh(run, lo, j, run[j].clients[c])
    ensures Fresh(run, lo, j + 1, run[j + 1].clients[c])
  {
    hide HeldAt, SentAt, Client.Valid, Sent, ClientAfter, HomeAfter, Inv, Overlay;
    var s, ev := run[j], evs[j];
    RunInv(run, evs, j);
    OneStep(run, evs, j, c);
    if ev.c != c {
      FreshLonger(run, lo, j, run[j].clients[c]);
    } else if ev.SyncServe? {
      FreshServed(run, evs, j);
      FreshEarlier(run, lo, j + 1, run[j + 1].clients[c]);
    } else {
      var cl, cl' := s.clients[c], ClientAfter(s, ev);
      HandsAfter(s, ev);
      forall p | p in cl'.Valid() ensures HeldSince(run, lo, j + 1, cl', p) {
        if p in Sent(cl) {
          var k :| lo <= k <= j && SentAt(run[k].home, cl, p);
          SentHeld(s, ev, run[k].home, p);
        } else {
          var k :| lo <= k <= j && HeldAt(run[k].home, cl, p);
          HeldKept(s, ev, run[k].home, p);
        }
      }
      forall p | p in Sent(cl') ensures SentSince(run, lo, j + 1, cl', p) {
        NewlySent(s, ev, p);
        assert SentAt(run[j + 1].home, cl', p);
      }
    }
  }

  lemma FreshServed(run: seq<Sys>, evs: seq<Event>, i: nat)
    requires IsRun(run, evs) && i < |evs| && evs[i].SyncServe?
    ensures evs[i].c in run[i + 1].clients && Fresh(run, i + 1, i + 1, run[i + 1].clients[evs[i].c])
  {
    hide Overlay, HomeAfter, Inv, ParseMessage;
    var c := evs[i].c;
    RunInv(run, evs, i);
    assert run[i + 1] == After(run[i], evs[i]);
    ServedAgrees(run[i], evs[i]);
    var h, cl := run[i + 1].home, run[i + 1].clients[c];
    forall p | p in cl.Valid() ensures HeldSince(run, i + 1, i + 1, cl, p) {
      NothingPending(h.mem[p], p);
      assert HeldAt(h, cl, p);
    }
  }

  lemma FreshEarlier(run: seq<Sys>, lo: nat, hi: nat, cl: Client)
    requires lo <= hi < |run| && Fresh(run, hi, hi, cl)
    ensures Fresh(run, lo, hi, cl)
  {
    hide HeldAt, SentAt, Client.Valid, Sent;
  }

  lemma {:induction false} FreshAfterSync(run: seq<Sys>, evs: seq<Event>, c: nat, i: nat, j: nat)
    requires IsRun(run, evs) && i < j <= |evs| && evs[i] == SyncServe(c)
    ensures c in run[j].clients && Fresh(run, i + 1, j, run[j].clients[c])
  {
    hide Fresh, Enabled, ClientAfter, HomeAfter;
    if j == i + 1 {
      FreshServed(run, evs, i);
    } else {
      FreshAfterSync(run, evs, c, i, j - 1);
      assert run[j] == After(run[j - 1], evs[j - 1]);
      FreshStep(run, evs, i + 1, j - 1, c);
    }
  }

  // ----- byte by byte

  predicate Covers(e: StoreLog, p: nat, x: nat)
  {
    e.Page() == p && e.Offset() <= x < e.Offset() + |e.data|
  }

  /** The byte comes from the last entry of the log that covers it. */
  ghost predicate LastStored(log: seq<StoreLog>, p: nat, x: nat, value: byte)
  {
    exists i :: 0 <= i < |log| && Covers(log[i], p, x) && log[i].data[x - log[i].Offset()] == value
      && forall k | i < k < |log| :: !Covers(log[k], p, x)
  }

  /** An overlaid byte is the last store to it, or else the byte underneath. */
  lemma {:induction false} OverlayByte(content: seq<byte>, log: seq<StoreLog>, p: nat, x: nat)
    requires LogOk(log) && |content| == PAGE_SIZE && x < PAGE_SIZE
    ensures if exists i :: 0 <= i < |log| && Covers(log[i], p, x)
            then LastStored(log, p, x, Overlay(content, log, p)[x])
            else Overlay(content, log, p)[x] == content[x]
  {
    if log != [] {
      var n := |log| - 1;
      OverlayByte(content, log[..n], p, x);
      if Covers(log[n], p, x) {
        assert LastStored(log, p, x, Overlay(content, log, p)[x]);
      } else {
        assert log == log[..n] + [log[n]];
        StoredEarlier(log[..n], log[n], p, x, Overlay(content, log, p)[x]);
      }
    }
  }

  /** An entry that does not cover a byte changes nothing about it. */
  lemma StoredEarlier(front: seq<StoreLog>, e: StoreLog, p: nat, x: nat, value: byte)
    requires !Covers(e, p, x)
    ensures var log := front + [e];
      ((exists i :: 0 <= i < |log| && Covers(log[i], p, x)) ==> exists i :: 0 <= i < |front| && Covers(front[i], p, x))
      && (LastStored(front, p, x, value) ==> LastStored(log, p, x, value))
  {
    var log := front + [e];
    assert forall i | 0 <= i < |front| :: log[i] == front[i];
    assert log[|front|] == e;
    if LastStored(front, p, x, value) {
      var i :| 0 <= i < |front| && Covers(front[i], p, x) && front[i].data[x - front[i].Offset()] == value
        && forall k | i < k < |front| :: !Covers(front[k], p, x);
      assert Covers(log[i], p, x) && log[i].data[x - log[i].Offset()] == value;
    }
  }

  /** Freshness: after a sync, any byte a client reads is its own last pending store to that byte,
      or else a value the home held in some state since that sync was served. */
  lemma Freshness(run: seq<Sys>, evs: seq<Event>, c: nat, i: nat, j: nat, p: nat, x: nat)
    requires IsRun(run, evs) && i < j <= |evs| && evs[i] == SyncServe(c)
    requires c in run[j].clients && p in run[j].clients[c].Valid() && x < PAGE_SIZE
    ensures p in run[j].clients[c].copy && |run[j].clients[c].copy[p]| == PAGE_SIZE
    ensures var cl := run[j].clients[c]; var log := cl.Pending();
      if exists n :: 0 <= n < |log| && Covers(log[n], p, x)
      then LastStored(log, p, x, cl.copy[p][x])
      else exists k :: i < k <= j && p in run[k].home.mem && |run[k].home.mem[p]| == PAGE_SIZE
             && run[k].home.mem[p][x] == cl.copy[p][x]
  {
    hide Overlay, Covers, LastStored, Client.Pending, Client.Valid;
    FreshAfterSync(run, evs, c, i, j);
    var cl := run[j].clients[c];
    assert HeldSince(run, i + 1, j, cl, p);
    var k :| i + 1 <= k <= j && HeldAt(run[k].home, cl, p);
    OverlayByte(run[k].home.mem[p], cl.Pending(), p, x);
  }
}
