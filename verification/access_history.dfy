/** What a sync invalidates, told from the history alone: who has asked for, been given or written a
    page since another client last changed it. */
module AccessHistory {
  import opened StoreLogs
  import opened SharedMemory
  import opened LazyRelease

  ghost predicate InAccess(h: Home, c: nat, p: nat)
  {
    p in h.access && c in h.access[p]
  }

  /** The log that a served request carries. */
  ghost predicate Writes(s: Sys, ev: Event, p: nat)
  {
    && ev.SyncServe? && ev.c in s.clients && s.clients[ev.c].net.SyncRequest?
    && exists i ::
         0 <= i < |ParseMessage(s.clients[ev.c].net.msg)| && ParseMessage(s.clients[ev.c].net.msg)[i].Page() == p
  }

  /** The home sends page p to client c, allocates it for c, or performs a store of c to it. */
  ghost predicate Gives(s: Sys, ev: Event, c: nat, p: nat)
  {
    && ev.c == c && c in s.clients
    && (Writes(s, ev, p) || (ev.FaultServe? && s.clients[c].net == FaultRequest(p))
        || (ev.AllocServe? && s.clients[c].net.AllocRequest? && s.home.top <= p < s.home.top + s.clients[c].net.pages))
  }

  /** The home performs another client's store to page p. */
  ghost predicate Revokes(s: Sys, ev: Event, c: nat, p: nat)
  {
    ev.c != c && Writes(s, ev, p)
  }

  lemma WritesTouches(s: Sys, ev: Event, p: nat)
    requires Enabled(s, ev) && ev.SyncServe?
    ensures Writes(s, ev, p) <==> Touches(ParseMessage(s.clients[ev.c].net.msg), p)
  {
    hide ParseMessage;
  }

  /** One event's effect on whether a client is in a page's access set. */
  lemma AccessStep(s: Sys, ev: Event, c: nat, p: nat)
    requires Inv(s) && Enabled(s, ev)
    ensures InAccess(HomeAfter(s, ev), c, p)
      <==> Gives(s, ev, c, p) || (InAccess(s.home, c, p) && !Revokes(s, ev, c, p))
  {
    hide ClientOk, ParseMessage, ApplyLog, Touches;
    match ev
    case SyncServe(d) =>
      CarriedOk(s, ev);
      WritesTouches(s, ev, p);
      ApplyLogEffect(s.home, ParseMessage(s.clients[d].net.msg), d);
    case _ =>
  }

  /** Since event i, no other client's store to the page has been performed. */
  ghost predicate Undisturbed(run: seq<Sys>, evs: seq<Event>, i: nat, j: nat, c: nat, p: nat)
    requires |run| == |evs| + 1 && j <= |evs|
  {
    forall k | i < k < j :: !Revokes(run[k], evs[k], c, p)
  }

  /** The client has been given or has written the page, and no other client's store to it has been
      performed since. */
  ghost predicate Current(run: seq<Sys>, evs: seq<Event>, j: nat, c: nat, p: nat)
    requires |run| == |evs| + 1 && j <= |evs|
  {
    exists i :: 0 <= i < j && Gives(run[i], evs[i], c, p) && Undisturbed(run, evs, i, j, c, p)
  }

  lemma CurrentStep(run: seq<Sys>, evs: seq<Event>, j: nat, c: nat, p: nat)
    requires |run| == |evs| + 1 && j < |evs|
    ensures Current(run, evs, j + 1, c, p) <==>
      Gives(run[j], evs[j], c, p) || (Current(run, evs, j, c, p) && !Revokes(run[j], evs[j], c, p))
  {
    hide Gives, Revokes;
    if Current(run, evs, j + 1, c, p) && !Gives(run[j], evs[j], c, p) {
      var i :| 0 <= i < j + 1 && Gives(run[i], evs[i], c, p) && Undisturbed(run, evs, i, j + 1, c, p);
      assert Undisturbed(run, evs, i, j, c, p);
    }
    if Gives(run[j], evs[j], c, p) {
      assert Undisturbed(run, evs, j, j + 1, c, p);
    } else if Current(run, evs, j, c, p) && !Revokes(run[j], evs[j], c, p) {
      var i :| 0 <= i < j && Gives(run[i], evs[i], c, p) && Undisturbed(run, evs, i, j, c, p);
      assert Undisturbed(run, evs, i, j + 1, c, p);
    }
  }

  /** A client is in a page's access set exactly if its view of the page is current. */
  lemma {:induction false} AccessIff(run: seq<Sys>, evs: seq<Event>, j: nat, c: nat, p: nat)
    requires IsRun(run, evs) && j <= |evs|
    ensures InAccess(run[j].home, c, p) <==> Current(run, evs, j, c, p)
  {
    hide Inv, HomeAfter, ClientAfter, Gives, Revokes, Current, Enabled;
    if j == 0 {
      NoneCurrent(run, evs, c, p);
    } else {
      AccessIff(run, evs, j - 1, c, p);
      RunInv(run, evs, j - 1);
      AccessStep(run[j - 1], evs[j - 1], c, p);
      CurrentStep(run, evs, j - 1, c, p);
      assert run[j] == After(run[j - 1], evs[j - 1]);
    }
  }

  lemma NoneCurrent(run: seq<Sys>, evs: seq<Event>, c: nat, p: nat)
    requires |run| == |evs| + 1
    ensures !Current(run, evs, 0, c, p)
  {}

  /** The invalidation list of a sync: exactly the allocated pages of which the client's view is not
      current. */
  lemma ListedIff(run: seq<Sys>, evs: seq<Event>, j: nat, c: nat, p: nat)
    requires IsRun(run, evs) && j < |evs| && evs[j] == SyncServe(c)
    ensures c in run[j + 1].clients && run[j + 1].clients[c].net.SyncReply?
    ensures p in run[j + 1].clients[c].net.stale <==> p in run[j].home.mem && !Current(run, evs, j, c, p)
  {
    hide HomeAfter, Current, ClientOk;
    AccessIff(run, evs, j, c, p);
    RunInv(run, evs, j);
    assert run[j + 1] == After(run[j], evs[j]);
  }

  // ----- the client's copies

  /** Client c installs page p. */
  ghost predicate Installs(s: Sys, ev: Event, c: nat, p: nat)
  {
    && ev.c == c && c in s.clients
    && ((ev.FaultInstall? && s.clients[c].net.FaultReply? && s.clients[c].net.page == p)
        || (ev.AllocInstall? && s.clients[c].net.AllocReply?
            && s.clients[c].net.first <= p < s.clients[c].net.first + s.clients[c].net.pages))
  }

  /** Client c finds page p on its invalidation list. */
  ghost predicate Drops(s: Sys, ev: Event, c: nat, p: nat)
  {
    ev == SyncDone(c) && c in s.clients && s.clients[c].net.SyncReply? && p in s.clients[c].net.stale
  }

  ghost predicate Holds(s: Sys, c: nat, p: nat)
  {
    c in s.clients && p in s.clients[c].copy
  }

  lemma HoldsStep(s: Sys, ev: Event, c: nat, p: nat)
    requires Enabled(s, ev)
    ensures Holds(After(s, ev), c, p) <==> Installs(s, ev, c, p) || (Holds(s, c, p) && !Drops(s, ev, c, p))
  {
    hide HomeAfter, Message, ParseMessage;
  }

  ghost predicate Undropped(run: seq<Sys>, evs: seq<Event>, i: nat, j: nat, c: nat, p: nat)
    requires |run| == |evs| + 1 && j <= |evs|
  {
    forall k | i < k < j :: !Drops(run[k], evs[k], c, p)
  }

  ghost predicate Kept(run: seq<Sys>, evs: seq<Event>, j: nat, c: nat, p: nat)
    requires |run| == |evs| + 1 && j <= |evs|
  {
    exists i :: 0 <= i < j && Installs(run[i], evs[i], c, p) && Undropped(run, evs, i, j, c, p)
  }

  lemma KeptStep(run: seq<Sys>, evs: seq<Event>, j: nat, c: nat, p: nat)
    requires |run| == |evs| + 1 && j < |evs|
    ensures Kept(run, evs, j + 1, c, p) <==>
      Installs(run[j], evs[j], c, p) || (Kept(run, evs, j, c, p) && !Drops(run[j], evs[j], c, p))
  {
    hide Installs, Drops;
    if Kept(run, evs, j + 1, c, p) && !Installs(run[j], evs[j], c, p) {
      var i :| 0 <= i < j + 1 && Installs(run[i], evs[i], c, p) && Undropped(run, evs, i, j + 1, c, p);
      assert Undropped(run, evs, i, j, c, p);
    }
    if Installs(run[j], evs[j], c, p) {
      assert Undropped(run, evs, j, j + 1, c, p);
    } else if Kept(run, evs, j, c, p) && !Drops(run[j], evs[j], c, p) {
      var i :| 0 <= i < j && Installs(run[i], evs[i], c, p) && Undropped(run, evs, i, j, c, p);
      assert Undropped(run, evs, i, j + 1, c, p);
    }
  }

  /** A client holds a copy exactly if it has installed the page and no invalidation list since then
      has had it. */
  lemma {:induction false} CopyIff(run: seq<Sys>, evs: seq<Event>, j: nat, c: nat, p: nat)
    requires IsRun(run, evs) && j <= |evs|
    ensures Holds(run[j], c, p) <==> Kept(run, evs, j, c, p)
  {
    hide HomeAfter, ClientAfter, Installs, Drops, Kept, Enabled;
    if j == 0 {
      NoneKept(run, evs, c, p);
    } else {
      CopyIff(run, evs, j - 1, c, p);
      assert Enabled(run[j - 1], evs[j - 1]) && run[j] == After(run[j - 1], evs[j - 1]);
      HoldsStep(run[j - 1], evs[j - 1], c, p);
      KeptStep(run, evs, j - 1, c, p);
    }
  }

  lemma NoneKept(run: seq<Sys>, evs: seq<Event>, c: nat, p: nat)
    requires |run| == |evs| + 1
    ensures !Kept(run, evs, 0, c, p)
  {}

  /** A client that does nothing stays as it is. */
  lemma {:induction false} Waits(run: seq<Sys>, evs: seq<Event>, i: nat, j: nat, c: nat)
    requires IsRun(run, evs) && i <= j <= |evs| && c in run[i].clients
    requires forall k | i <= k < j :: evs[k].c != c
    ensures c in run[j].clients && run[j].clients[c] == run[i].clients[c]
    decreases j
  {
    hide HomeAfter, ClientAfter, Enabled;
    if i < j {
      Waits(run, evs, i, j - 1, c);
      assert run[j] == After(run[j - 1], evs[j - 1]);
    }
  }

  /** What a sync takes from a client: a copy survives exactly if the client's view of the page was
      current when the sync was served. */
  lemma SurvivesIff(run: seq<Sys>, evs: seq<Event>, i: nat, j: nat, c: nat, p: nat)
    requires IsRun(run, evs) && i < j < |evs| && evs[i] == SyncServe(c) && evs[j] == SyncDone(c)
    requires forall k | i < k < j :: evs[k].c != c
    ensures Holds(run[j + 1], c, p) <==> Holds(run[i], c, p) && Current(run, evs, i, c, p)
  {
    hide Current, ClientOk, HomeAfter;
    ListedIff(run, evs, i, c, p);
    Waits(run, evs, i + 1, j, c);
    RunInv(run, evs, i);
    assert run[i + 1] == After(run[i], evs[i]) && run[j + 1] == After(run[j], evs[j]);
    HoldsStep(run[i], evs[i], c, p);
    HoldsStep(run[j], evs[j], c, p);
    if Holds(run[i], c, p) { HeldAllocated(run[i], c, p); }
  }

  lemma HeldAllocated(s: Sys, c: nat, p: nat)
    requires Inv(s) && Holds(s, c, p)
    ensures p in s.home.mem
  {
    hide Coherent;
    assert ClientOk(s.home, c, s.clients[c]);
  }

  /** A page fetched from the home is not on the client's next list unless another client's store to
      it was performed in between. */
  lemma FetchedIsCurrent(run: seq<Sys>, evs: seq<Event>, i: nat, j: nat, c: nat, p: nat)
    requires IsRun(run, evs) && i < j < |evs| && evs[j] == SyncServe(c)
    requires evs[i] == FaultServe(c) && c in run[i].clients && run[i].clients[c].net == FaultRequest(p)
    ensures run[j + 1].clients[c].net.SyncReply?
    ensures p in run[j + 1].clients[c].net.stale ==> exists k :: i < k < j && Revokes(run[k], evs[k], c, p)
  {
    hide Revokes;
    ListedIff(run, evs, j, c, p);
    assert Gives(run[i], evs[i], c, p);
    if forall k | i < k < j :: !Revokes(run[k], evs[k], c, p) {
      assert Undisturbed(run, evs, i, j, c, p);
    }
  }
}
