/** Home-based lazy release consistency as a state machine: one home with the memory and an access
    set per page, clients with page copies and a store log, and the requests and replies between
    them. Steps of different clients interleave freely; a client waits for the reply to its
    request. */
module SharedMemory {
  import opened StoreLogs

  datatype Option<T> = None | Some(value: T)

  // ----- the home

  /** Memory and access sets of the allocated pages; top is the first page not allocated yet. */
  datatype Home = Home(mem: map<nat, seq<byte>>, access: map<nat, set<nat>>, top: nat) {
    ghost predicate Ok()
    {
      mem.Keys == access.Keys && forall p | p in mem :: |mem[p]| == PAGE_SIZE && p < top
    }
  }

  /** The invalidation list for a client: the pages it has not accessed since they last changed. */
  function Stale(h: Home, c: nat): set<nat>
  {
    set p | p in h.access && c !in h.access[p]
  }

  /** One log entry: the store is performed and the writer alone has accessed the page. */
  function ApplyEntry(h: Home, e: StoreLog, c: nat): Home
    requires e.Ok()
  {
    var p := e.Page();
    if p in h.mem && |h.mem[p]| == PAGE_SIZE then
      h.(mem := h.mem[p := e.Write(h.mem[p])], access := h.access[p := {c}])
    else h
  }

  function ApplyLog(h: Home, log: seq<StoreLog>, c: nat): Home
    requires LogOk(log)
  {
    if log == [] then h
    else ApplyEntry(ApplyLog(h, log[..|log| - 1], c), log[|log| - 1], c)
  }

  /** A page request: the client is added to the page's access set. */
  function Fetch(h: Home, p: nat, c: nat): Home
    requires p in h.access
  {
    h.(access := h.access[p := h.access[p] + {c}])
  }

  function ZeroPage(): (z: seq<byte>)
    ensures |z| == PAGE_SIZE
  {
    seq(PAGE_SIZE, i => 0)
  }

  /** The pages of a run of the given length. */
  function Run(first: nat, pages: nat): (r: set<nat>)
    ensures forall p: nat :: p in r <==> first <= p < first + pages
  {
    if pages == 0 then {} else Run(first, pages - 1) + {first + pages - 1}
  }

  function ZeroPages(first: nat, pages: nat): map<nat, seq<byte>>
  {
    map p | p in Run(first, pages) :: ZeroPage()
  }

  /** An allocation: fresh zero pages, accessed by the requesting client alone. */
  function Allocate(h: Home, pages: nat, c: nat): Home
  {
    Home(h.mem + ZeroPages(h.top, pages), h.access + (map p | p in Run(h.top, pages) :: {c}), h.top + pages)
  }

  // ----- the clients

  datatype Net =
    | Idle
    | FaultRequest(page: nat)
    | FaultReply(page: nat, content: seq<byte>)
    | SyncRequest(msg: seq<byte>)
    | SyncReply(stale: set<nat>)
    | AllocRequest(pages: nat)
    | AllocReply(first: nat, pages: nat)

  /** The accessible page copies, the log since the last sync, and the store that has been logged
      but not performed yet. */
  datatype Client = Client(copy: map<nat, seq<byte>>, log: seq<StoreLog>, storing: Option<StoreLog>, net: Net) {
    /** The stores performed since the last sync was served. */
    function Pending(): seq<StoreLog>
    {
      if net.SyncRequest? then ParseMessage(net.msg)
      else if storing.Some? && log != [] then log[..|log| - 1]
      else log
    }

    /** The pages that stay valid: those on an invalidation list under way are given up. */
    function Valid(): set<nat>
    {
      copy.Keys - (if net.SyncReply? then net.stale else {})
    }
  }

  const NewClient := Client(map[], [], None, Idle)

  // ----- steps

  datatype Sys = Sys(home: Home, clients: map<nat, Client>)

  datatype Event =
    | Join(c: nat)
    | LogStore(c: nat, e: StoreLog)
    | WriteStore(c: nat)
    | FaultSend(c: nat, page: nat)
    | FaultServe(c: nat)
    | FaultInstall(c: nat)
    | SyncSend(c: nat)
    | SyncServe(c: nat)
    | SyncDone(c: nat)
    | AllocSend(c: nat, pages: nat)
    | AllocServe(c: nat)
    | AllocInstall(c: nat)

  predicate Enabled(s: Sys, ev: Event)
  {
    if ev.Join? then ev.c !in s.clients
    else
      ev.c in s.clients &&
      var cl := s.clients[ev.c];
      match ev
      case Join(_) => false
      case LogStore(_, e) => cl.net.Idle? && cl.storing.None? && e.Ok()
      case WriteStore(_) => cl.net.Idle? && cl.storing.Some? && cl.storing.value.Ok()
        && cl.storing.value.Page() in cl.copy
        && |cl.copy[cl.storing.value.Page()]| == PAGE_SIZE
      case FaultSend(_, p) => cl.net.Idle? && p !in cl.copy && (cl.storing.Some? ==> cl.storing.value.Page() == p)
      case FaultServe(_) => cl.net.FaultRequest? && cl.net.page in s.home.mem && cl.net.page in s.home.access
      case FaultInstall(_) => cl.net.FaultReply?
      case SyncSend(_) => cl.net.Idle? && cl.storing.None? && LogOk(cl.log) && |Serialize(cl.log)| < 0x8000_0000
      case SyncServe(_) => cl.net.SyncRequest? && LogOk(ParseMessage(cl.net.msg))
      case SyncDone(_) => cl.net.SyncReply?
      case AllocSend(_, pages) => cl.net.Idle? && cl.storing.None?
      case AllocServe(_) => cl.net.AllocRequest?
      case AllocInstall(_) => cl.net.AllocReply?
  }

  /** The home after an event. */
  function HomeAfter(s: Sys, ev: Event): Home
    requires Enabled(s, ev)
  {
    match ev
    case FaultServe(c) => Fetch(s.home, s.clients[c].net.page, c)
    case SyncServe(c) => ApplyLog(s.home, ParseMessage(s.clients[c].net.msg), c)
    case AllocServe(c) => Allocate(s.home, s.clients[c].net.pages, c)
    case _ => s.home
  }

  /** The client after its event. */
  function ClientAfter(s: Sys, ev: Event): Client
    requires Enabled(s, ev)
  {
    var cl := if ev.c in s.clients then s.clients[ev.c] else NewClient;
    match ev
    case Join(_) => NewClient
    case LogStore(_, e) => cl.(log := cl.log + [e], storing := Some(e))
    case WriteStore(_) =>
      var e := cl.storing.value;
      cl.(copy := cl.copy[e.Page() := e.Write(cl.copy[e.Page()])], storing := None)
    case FaultSend(_, p) => cl.(net := FaultRequest(p))
    case FaultServe(_) => cl.(net := FaultReply(cl.net.page, s.home.mem[cl.net.page]))
    case FaultInstall(_) => cl.(copy := cl.copy[cl.net.page := cl.net.content], net := Idle)
    case SyncSend(_) => cl.(log := [], net := SyncRequest(Message(cl.log)))
    case SyncServe(_) => cl.(net := SyncReply(Stale(s.home, ev.c)))
    case SyncDone(_) => cl.(copy := cl.copy - cl.net.stale, net := Idle)
    case AllocSend(_, pages) => cl.(net := AllocRequest(pages))
    case AllocServe(_) => cl.(net := AllocReply(s.home.top, cl.net.pages))
    case AllocInstall(_) =>
      cl.(copy := cl.copy + ZeroPages(cl.net.first, cl.net.pages), net := Idle)
  }

  function After(s: Sys, ev: Event): Sys
    requires Enabled(s, ev)
  {
    Sys(HomeAfter(s, ev), s.clients[ev.c := ClientAfter(s, ev)])
  }

  // ----- the invariant

  /** The bookkeeping of one client against the home. */
  ghost predicate Shape(h: Home, cl: Client)
  {
    && LogOk(cl.Pending())
    && (forall p | p in cl.copy :: p in h.mem && |cl.copy[p]| == PAGE_SIZE)
    && (forall i | 0 <= i < |cl.Pending()| :: cl.Pending()[i].Page() in cl.copy)
    && (cl.storing.Some? ==> cl.storing.value.Ok() && cl.log != [] && cl.log[|cl.log| - 1] == cl.storing.value)
    && match cl.net
       case Idle => true
       case FaultRequest(p) => p !in cl.copy && (cl.storing.Some? ==> cl.storing.value.Page() == p)
       case FaultReply(p, content) =>
         p !in cl.copy && p in h.mem && |content| == PAGE_SIZE && (cl.storing.Some? ==> cl.storing.value.Page() == p)
       case SyncRequest(_) => cl.storing.None? && cl.log == []
       case SyncReply(_) => cl.storing.None? && cl.log == []
       case AllocRequest(_) => cl.storing.None?
       case AllocReply(first, pages) =>
         cl.storing.None? && forall p | p in Run(first, pages) :: p in h.mem && p !in cl.copy
  }

  /** A valid copy of a page the client has accessed since it last changed is the home's page
      overlaid with the client's pending stores; page contents under way are the home's. */
  ghost predicate Coherent(h: Home, c: nat, cl: Client)
    requires h.Ok() && Shape(h, cl)
  {
    && (forall p | p in cl.Valid() && c in h.access[p] :: cl.copy[p] == Overlay(h.mem[p], cl.Pending(), p))
    && (cl.net.FaultReply? && c in h.access[cl.net.page] ==> cl.net.content == h.mem[cl.net.page])
    && (cl.net.AllocReply?
      ==> forall p | p in Run(cl.net.first, cl.net.pages) && c in h.access[p] :: h.mem[p] == ZeroPage())
  }

  ghost predicate ClientOk(h: Home, c: nat, cl: Client)
    requires h.Ok()
  {
    Shape(h, cl) && Coherent(h, c, cl)
  }

  ghost predicate Inv(s: Sys)
  {
    s.home.Ok() && forall c | c in s.clients :: ClientOk(s.home, c, s.clients[c])
  }

  // ----- what events do to the home

  /** A change of the home by client c: pages stay allocated; each is unchanged with no new
      accessor but c, or has c as its only accessor. */
  ghost predicate HomeMoves(h: Home, g: Home, c: nat)
  {
    && h.Ok() && g.Ok() && h.mem.Keys <= g.mem.Keys
    && forall p | p in h.mem :: (g.mem[p] == h.mem[p] && g.access[p] <= h.access[p] + {c}) || g.access[p] == {c}
  }

  lemma {:induction false} ApplyLogEffect(h: Home, log: seq<StoreLog>, c: nat)
    requires h.Ok() && LogOk(log) && forall i | 0 <= i < |log| :: log[i].Page() in h.mem
    ensures var g := ApplyLog(h, log, c);
      && g.Ok() && g.mem.Keys == h.mem.Keys && g.top == h.top
      && forall p | p in h.mem ::
           && g.mem[p] == Overlay(h.mem[p], log, p)
           && g.access[p] == if Touches(log, p) then {c} else h.access[p]
  {
    if log != [] {
      var n := |log| - 1;
      ApplyLogEffect(h, log[..n], c);
      forall p | p in h.mem ensures Touches(log, p) <==> Touches(log[..n], p) || log[n].Page() == p {
        TouchesLast(log, p);
      }
    }
  }

  lemma TouchesLast(log: seq<StoreLog>, p: nat)
    requires log != []
    ensures Touches(log, p) <==> Touches(log[..|log| - 1], p) || log[|log| - 1].Page() == p
  {
    var n := |log| - 1;
    if Touches(log[..n], p) {
      var i :| 0 <= i < n && log[..n][i].Page() == p;
      assert log[i].Page() == p;
    }
    if Touches(log, p) && log[n].Page() != p {
      var i :| 0 <= i < |log| && log[i].Page() == p;
      assert log[..n][i].Page() == p;
    }
  }

  lemma AllocateMoves(h: Home, pages: nat, c: nat)
    requires h.Ok()
    ensures HomeMoves(h, Allocate(h, pages, c), c)
  {
    hide Run, ZeroPage;
  }

  lemma FetchMoves(h: Home, p: nat, c: nat)
    requires h.Ok() && p in h.access
    ensures HomeMoves(h, Fetch(h, p, c), c)
  {}

  lemma SyncMoves(h: Home, log: seq<StoreLog>, c: nat)
    requires h.Ok() && LogOk(log) && forall i | 0 <= i < |log| :: log[i].Page() in h.mem
    ensures HomeMoves(h, ApplyLog(h, log, c), c)
  {
    hide Overlay, Touches, ApplyLog;
    ApplyLogEffect(h, log, c);
    forall p | p in h.mem && !Touches(log, p) ensures Overlay(h.mem[p], log, p) == h.mem[p] {
      OverlayUntouched(h.mem[p], log, p);
    }
  }

  /** Every event moves the home in this way. */
  lemma EventMoves(s: Sys, ev: Event)
    requires Inv(s) && Enabled(s, ev)
    ensures HomeMoves(s.home, HomeAfter(s, ev), ev.c)
  {
    hide Coherent, HomeMoves, ApplyLog, Fetch, Allocate;
    Stays(s.home, ev.c);
    match ev
    case FaultServe(c) => FetchMoves(s.home, s.clients[c].net.page, c);
    case SyncServe(c) => SyncMoves(s.home, ParseMessage(s.clients[c].net.msg), c);
    case AllocServe(c) => AllocateMoves(s.home, s.clients[c].net.pages, c);
    case _ =>
  }

  lemma Stays(h: Home, c: nat)
    requires h.Ok()
    ensures HomeMoves(h, h, c)
  {}

  // ----- the invariant is kept

  /** A move by one client keeps what holds of every other client. */
  lemma OthersKept(h: Home, g: Home, c: nat, d: nat, cl: Client)
    requires HomeMoves(h, g, c) && d != c && ClientOk(h, d, cl)
    ensures ClientOk(g, d, cl)
  {
    hide Overlay, Client.Pending, LogOk;
    assert Shape(g, cl);
    forall p | p in h.mem && d in g.access[p] ensures g.mem[p] == h.mem[p] && d in h.access[p] {
      assert d !in {c};
    }
  }

  /** The client's own steps that leave the home alone. */
  lemma LogStoreKept(h: Home, c: nat, cl: Client, e: StoreLog)
    requires h.Ok() && ClientOk(h, c, cl) && cl.net.Idle? && cl.storing.None? && e.Ok()
    ensures ClientOk(h, c, cl.(log := cl.log + [e], storing := Some(e)))
  {
    hide Overlay;
    var now := cl.(log := cl.log + [e], storing := Some(e));
    assert now.Pending() == cl.Pending();
  }

  lemma WriteStoreKept(h: Home, c: nat, cl: Client)
    requires h.Ok() && ClientOk(h, c, cl) && cl.net.Idle? && cl.storing.Some? && cl.storing.value.Page() in cl.copy
    ensures var e := cl.storing.value;
      ClientOk(h, c, cl.(copy := cl.copy[e.Page() := e.Write(cl.copy[e.Page()])], storing := None))
  {
    hide Overlay, StoreLog.Write;
    var e := cl.storing.value;
    var now := cl.(copy := cl.copy[e.Page() := e.Write(cl.copy[e.Page()])], storing := None);
    assert now.Pending() == cl.Pending() + [e];
    assert LogOk(now.Pending());
    forall p | p in now.Valid() && c in h.access[p] ensures now.copy[p] == Overlay(h.mem[p], now.Pending(), p) {
      OverlayAppend(h.mem[p], cl.Pending(), e, p);
    }
  }

  lemma FaultSendKept(h: Home, c: nat, cl: Client, p: nat)
    requires h.Ok() && ClientOk(h, c, cl) && cl.net.Idle? && p !in cl.copy
    requires cl.storing.Some? ==> cl.storing.value.Page() == p
    ensures ClientOk(h, c, cl.(net := FaultRequest(p)))
  {
    hide Overlay;
    assert cl.(net := FaultRequest(p)).Pending() == cl.Pending();
  }

  lemma FaultServeKept(h: Home, c: nat, cl: Client)
    requires h.Ok() && ClientOk(h, c, cl) && cl.net.FaultRequest? && cl.net.page in h.mem
    ensures var p := cl.net.page;
      && Fetch(h, p, c).Ok() && ClientOk(Fetch(h, p, c), c, cl.(net := FaultReply(p, h.mem[p])))
      && Fetch(h, p, c).access == h.access[p := h.access[p] + {c}]
      && Fetch(h, p, c).mem == h.mem && Fetch(h, p, c).top == h.top
  {
    hide Overlay;
    var now := cl.(net := FaultReply(cl.net.page, h.mem[cl.net.page]));
    assert now.Pending() == cl.Pending();
  }

  lemma FaultInstallKept(h: Home, c: nat, cl: Client)
    requires h.Ok() && ClientOk(h, c, cl) && cl.net.FaultReply?
    ensures ClientOk(h, c, cl.(copy := cl.copy[cl.net.page := cl.net.content], net := Idle))
  {
    hide Overlay;
    var p := cl.net.page;
    var now := cl.(copy := cl.copy[p := cl.net.content], net := Idle);
    assert now.Pending() == cl.Pending();
    OverlayUntouched(h.mem[p], cl.Pending(), p);
  }

  lemma SyncSendKept(h: Home, c: nat, cl: Client)
    requires h.Ok() && ClientOk(h, c, cl) && cl.net.Idle? && cl.storing.None? && LogOk(cl.log)
    requires |Serialize(cl.log)| < 0x8000_0000
    ensures ClientOk(h, c, cl.(log := [], net := SyncRequest(Message(cl.log))))
  {
    hide Overlay, Message, ParseMessage;
    ParseMessageOf(cl.log);
    assert cl.(log := [], net := SyncRequest(Message(cl.log))).Pending() == cl.Pending();
  }

  /** Serving a sync: valid copies of accessed pages agree with the merged home; all other copies
      are on the invalidation list. */
  lemma SyncServeKept(h: Home, c: nat, cl: Client)
    requires h.Ok() && ClientOk(h, c, cl) && cl.net.SyncRequest?
    ensures var g := ApplyLog(h, ParseMessage(cl.net.msg), c);
      g.Ok() && ClientOk(g, c, cl.(net := SyncReply(Stale(h, c))))
  {
    hide Overlay, ApplyLog, ParseMessage, Touches;
    var log := ParseMessage(cl.net.msg);
    ApplyLogEffect(h, log, c);
    var g, now := ApplyLog(h, log, c), cl.(net := SyncReply(Stale(h, c)));
    forall p | p in now.Valid() && c in g.access[p] ensures now.copy[p] == Overlay(g.mem[p], now.Pending(), p) {
      assert c in h.access[p];
      assert now.copy[p] == Overlay(h.mem[p], log, p) == g.mem[p];
      NothingPending(g.mem[p], p);
    }
  }

  lemma NothingPending(content: seq<byte>, p: nat)
    requires |content| == PAGE_SIZE
    ensures Overlay(content, [], p) == content
  {}

  lemma SyncDoneKept(h: Home, c: nat, cl: Client)
    requires h.Ok() && ClientOk(h, c, cl) && cl.net.SyncReply?
    ensures ClientOk(h, c, cl.(copy := cl.copy - cl.net.stale, net := Idle))
  {
    hide Overlay;
    var now := cl.(copy := cl.copy - cl.net.stale, net := Idle);
    assert now.Pending() == [] == cl.Pending();
  }

  lemma AllocServeKept(h: Home, c: nat, cl: Client)
    requires h.Ok() && ClientOk(h, c, cl) && cl.net.AllocRequest?
    ensures var g := Allocate(h, cl.net.pages, c);
      g.Ok() && ClientOk(g, c, cl.(net := AllocReply(h.top, cl.net.pages)))
  {
    hide Overlay, Run, ZeroPage;
    AllocateMoves(h, cl.net.pages, c);
    var now := cl.(net := AllocReply(h.top, cl.net.pages));
    assert now.Pending() == cl.Pending();
  }

  lemma AllocInstallKept(h: Home, c: nat, cl: Client)
    requires h.Ok() && ClientOk(h, c, cl) && cl.net.AllocReply?
    ensures ClientOk(h, c, cl.(copy := cl.copy + ZeroPages(cl.net.first, cl.net.pages), net := Idle))
  {
    hide Overlay, Run, ZeroPage;
    var now := cl.(copy := cl.copy + ZeroPages(cl.net.first, cl.net.pages), net := Idle);
    assert now.Pending() == cl.Pending();
    forall p | p in Run(cl.net.first, cl.net.pages) ensures Overlay(h.mem[p], cl.Pending(), p) == h.mem[p] {
      OverlayUntouched(h.mem[p], cl.Pending(), p);
    }
  }
}
