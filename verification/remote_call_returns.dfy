/** Every remote call takes the same number of steps of its own, whatever else happens in between,
    and can always be completed unless the device it was sent to has no ids left. */
module RemoteCallReturns {
  import opened RemoteCalls
  import opened RemoteCallSteps
  import opened RemoteCallRuns
  import opened RemoteCallProgress

  // ----- steps of a call

  lemma PhaseKeys(s: Sys, ph: Phases, ev: Event)
    requires Enabled(s, ev)
    ensures PhasesAfter(s, ph, ev).Keys <= ph.Keys + {Owner(s, ev)}
  {}

  /** A new call has taken none of its steps. */
  lemma NewCalls(s: Sys, ph: Phases, ev: Event, c: Key)
    requires Inv(s, ph) && Enabled(s, ev) && c !in ph && c in PhasesAfter(s, ph, ev)
    ensures var s', p := After(s, ev), PhasesAfter(s, ph, ev)[c]; InHand(s', c, p) && Left(s', c, p) == 22
  {
    StepFrame(s, ph, ev);
    PhaseKeys(s, ph, ev);
    hide Inv, Frame, Concerns;
    if ev.GenerateJobId? { AfterGenerate(s, ph, ev.d, ev.fid); }
  }

  /** How often the first j steps of a run served a call. */
  ghost function Served(run: seq<Sys>, evs: seq<Event>, j: nat, c: Key): nat
    requires IsRun(run, evs) && j <= |evs|
  {
    if j == 0 then 0
    else Served(run, evs, j - 1, c) + if Serves(run[j - 1], evs[j - 1]) == Some(c) then 1 else 0
  }

  lemma OneStep(s: Sys, ph: Phases, ev: Event, c: Key)
    requires Inv(s, ph) && Enabled(s, ev) && (c in ph ==> InHand(s, c, ph[c]))
    ensures var s', ph', n := After(s, ev), PhasesAfter(s, ph, ev), if Serves(s, ev) == Some(c) then 1 else 0;
      if c in ph then c in ph' && InHand(s', c, ph'[c]) && n + Left(s', c, ph'[c]) == Left(s, c, ph[c])
      else n == 0 && (c in ph' ==> InHand(s', c, ph'[c]) && Left(s', c, ph'[c]) == 22)
  {
    hide Inv, Enabled, After, PhasesAfter, InHand, Frame, Concerns, Owner, Left;
    if c in ph {
      StepCounts(s, ph, ev, c);
    } else {
      StepFrame(s, ph, ev);
      if c in PhasesAfter(s, ph, ev) { NewCalls(s, ph, ev, c); }
    }
  }

  /** Everything a call needs next is in its place, and what it still has to go follows from how
      often it was served. */
  lemma {:induction false} CountsServed(run: seq<Sys>, evs: seq<Event>, j: nat, c: Key)
    requires IsRun(run, evs) && j <= |evs|
    ensures var ph := PhasesAt(run, evs, j);
      if c in ph then InHand(run[j], c, ph[c]) && Served(run, evs, j, c) + Left(run[j], c, ph[c]) == 22
      else Served(run, evs, j, c) == 0
  {
    hide Inv, Enabled, After, PhasesAfter, InHand, Serves, Left;
    if j > 0 {
      var s, ph, ev := run[j - 1], PhasesAt(run, evs, j - 1), evs[j - 1];
      CountsServed(run, evs, j - 1, c);
      RunInv(run, evs, j - 1);
      OneStep(s, ph, ev, c);
      assert run[j] == After(s, ev);
    }
  }

  /** A call takes 22 steps in all, and its program has the value exactly after the last of them. */
  lemma ReturnsAfterServed(run: seq<Sys>, evs: seq<Event>, j: nat, c: Key)
    requires IsRun(run, evs) && j <= |evs| && c in run[j].callers
    ensures Served(run, evs, j, c) <= 22
    ensures run[j].callers[c].Got? <==> Served(run, evs, j, c) == 22
  {
    RunInv(run, evs, j);
    CountsServed(run, evs, j, c);
    CallerGot(run[j], PhasesAt(run, evs, j), c);
    hide Inv, InHand, PhasesAt, IsRun;
  }

  lemma CallerGot(s: Sys, ph: Phases, c: Key)
    requires Inv(s, ph) && c in s.callers
    ensures c in ph && (s.callers[c].Got? <==> ph[c].Taken?)
    ensures Left(s, c, ph[c]) == 0 <==> ph[c].Taken?
  {
    CallerHas(s, ph, c);
    hide Inv;
  }

  // ----- a call can be completed

  /** The events, one after the other, lead from one state to the other. */
  ghost predicate Leads(s: Sys, evs: seq<Event>, t: Sys)
    decreases |evs|
  {
    if evs == [] then t == s else Enabled(s, evs[0]) && Leads(After(s, evs[0]), evs[1..], t)
  }

  /** The program of a call can still get its value. */
  ghost predicate CanReturn(s: Sys, c: Key)
  {
    exists evs, t :: Leads(s, evs, t) && c in t.callers && t.callers[c].Got?
  }

  /** The call's request is at a device that has used up its ids, or on the way there. */
  ghost predicate Stranded(s: Sys, c: Key)
  {
    exists m | m in s.net + s.received ::
      m.Forwarded? && m.ticket < |s.routes| && s.routes[m.ticket] == c && s.NextId(m.dst) >= MAX_ID
  }

  /** The device that is to run the call, d if none is chosen yet, can give it an id. */
  predicate Room(s: Sys, p: Phase, d: nat)
  {
    match p
    case Preparing(_) => s.NextId(d) < MAX_ID
    case Asked(_, _) => s.NextId(d) < MAX_ID
    case OnItsWay(_, dst, _, _) => s.NextId(dst) < MAX_ID
    case _ => true
  }

  ghost predicate Advances(s: Sys, c: Key, ev: Event) { Enabled(s, ev) && Serves(s, ev) == Some(c) }

  lemma PreparingAdvances(s: Sys, ph: Phases, c: Key) returns (ev: Event)
    requires Inv(s, ph) && c in ph && ph[c].Preparing?
    ensures Advances(s, c, ev) && (Prepares(ev) || ev.SendRequest?)
  {
    CallFacts(s, ph, c);
    hide Inv;
    match s.callers[c] {
      case HasJob(_) => ev := InsertRunningJob(c);
      case Recorded(_) => ev := GetArgsTotalSize(c, 0);
      case Sized(_, size) => ev := GetArgsOfRC(c, seq(size, _ => 0));
      case Collected(_, _) => ev := GetRunningJobFID(c);
      case LookedUp(_, _) => ev := InsertConsumeWait(c);
      case _ => ev := SendRequest(c);
    }
  }

  /** A request is sent to the device, or handled where it is. */
  lemma RequestAdvances(s: Sys, ph: Phases, c: Key, d: nat) returns (ev: Event)
    requires c in ph && InHand(s, c, ph[c]) && (ph[c].Asked? || ph[c].OnItsWay?) && Room(s, ph[c], d)
    ensures Advances(s, c, ev)
    ensures c in PhasesAfter(s, ph, ev) && Room(After(s, ev), PhasesAfter(s, ph, ev)[c], d)
  {
    var m := MsgOf(c, ph[c]).value;
    if ph[c].Asked? {
      ev := Relay(m, d);
    } else if m in s.net {
      ev := ReceiveCall(m);
    } else {
      ev := GetJobID(m);
    }
  }

  lemma ServingAdvances(s: Sys, ph: Phases, c: Key) returns (ev: Event)
    requires Inv(s, ph) && c in ph && InHand(s, c, ph[c]) && ph[c].Serving?
    ensures Advances(s, c, ev)
  {
    var k := ph[c].at;
    ServiceFacts(s, ph, k);
    assert CallOf(s, k) == c && (s.services[k].Ready? ==> k in s.argsTable);
    assert !s.services[k].Finished? && !s.services[k].Addressed?;
    hide Inv, InHand, Placed, CallOf, Away;
    match s.services[k] {
      case HasId(_, _, _) => ev := InsertJobIDMapping(k);
      case Mapped(_, _) => ev := InsertArgs(k);
      case Ready(_) => ev := ConsumeArgs(k);
      case _ => ev := Finish(k, []);
    }
  }

  lemma ComputedAdvances(s: Sys, ph: Phases, c: Key) returns (ev: Event)
    requires Inv(s, ph) && c in ph && InHand(s, c, ph[c]) && ph[c].Computed?
    ensures Advances(s, c, ev)
  {
    var k := ph[c].at;
    ServiceFacts(s, ph, k);
    hide Inv;
    ev := if s.services[k].Finished? then GetSourceJobID(k) else SendReply(k);
  }

  lemma ReplyAdvances(s: Sys, ph: Phases, c: Key) returns (ev: Event)
    requires c in ph && InHand(s, c, ph[c]) && (ph[c].Answered? || ph[c].Back?)
    ensures Advances(s, c, ev)
  {
    var m := MsgOf(c, ph[c]).value;
    ev := if ph[c].Answered? then RelayReply(m) else ReceiveReturn(m);
  }

  lemma ReceiptAdvances(s: Sys, ph: Phases, c: Key) returns (ev: Event)
    requires c in ph && InHand(s, c, ph[c]) && (ph[c].Landed? || ph[c].Stored?)
    ensures Advances(s, c, ev)
  {
    ev := if ph[c].Landed? then InsertReturnValue(c)
          else if s.receipts[c].Deleting? then DeleteRunningJob(c) else OnValueReturn(c);
  }

  lemma FlaggedAdvances(s: Sys, ph: Phases, c: Key) returns (ev: Event)
    requires Inv(s, ph) && c in ph && InHand(s, c, ph[c]) && ph[c].Flagged?
    ensures Advances(s, c, ev)
  {
    CallFacts(s, ph, c);
    hide Inv;
    ev := if s.callers[c].Polling? then CheckConsumeWait(c) else GetReturnValue(c);
  }

  lemma CounterKept(s: Sys, ev: Event)
    requires Enabled(s, ev) && (Prepares(ev) || ev.SendRequest?)
    ensures After(s, ev).counter == s.counter
  {}

  /** A call that is not finished has a step to take, after which it still has room. */
  lemma CanAdvance(s: Sys, ph: Phases, c: Key, d: nat) returns (ev: Event)
    requires Inv(s, ph) && c in ph && InHand(s, c, ph[c]) && !ph[c].Taken? && Room(s, ph[c], d)
    ensures Enabled(s, ev)
    ensures Moves(s, ph, After(s, ev), PhasesAfter(s, ph, ev), c, 1)
    ensures Room(After(s, ev), PhasesAfter(s, ph, ev)[c], d)
  {
    hide Inv, InHand, Room, Left, Enabled, After, PhasesAfter, Serves;
    if ph[c].Preparing? {
      ev := PreparingAdvances(s, ph, c);
      CounterKept(s, ev);
    } else if ph[c].Asked? || ph[c].OnItsWay? {
      ev := RequestAdvances(s, ph, c, d);
    } else if ph[c].Serving? {
      ev := ServingAdvances(s, ph, c);
    } else if ph[c].Computed? {
      ev := ComputedAdvances(s, ph, c);
    } else if ph[c].Answered? || ph[c].Back? {
      ev := ReplyAdvances(s, ph, c);
    } else if ph[c].Flagged? {
      ev := FlaggedAdvances(s, ph, c);
    } else {
      ev := ReceiptAdvances(s, ph, c);
    }
    StepCounts(s, ph, ev, c);
    RoomKept(s, ph, After(s, ev), PhasesAfter(s, ph, ev), c, d);
  }

  lemma RoomKept(s: Sys, ph: Phases, s': Sys, ph': Phases, c: Key, d: nat)
    requires Moves(s, ph, s', ph', c, 1) && Room(s, ph[c], d)
    requires ph[c].Preparing? ==> s'.counter == s.counter
    requires ph[c].Asked? || ph[c].OnItsWay? ==> Room(s', ph'[c], d)
    ensures Room(s', ph'[c], d)
  {
    hide InHand;
  }

  /** From every state a call with room can be completed. */
  lemma {:induction false} Completes(s: Sys, ph: Phases, c: Key, d: nat)
    requires Inv(s, ph) && c in ph && InHand(s, c, ph[c]) && Room(s, ph[c], d)
    ensures CanReturn(s, c)
    decreases Left(s, c, ph[c])
  {
    hide Inv, InHand, Room, Left, Enabled, After, PhasesAfter;
    CallFacts(s, ph, c);
    if ph[c].Taken? {
      assert Leads(s, [], s);
    } else {
      var ev := CanAdvance(s, ph, c, d);
      StepKeeps(s, ph, ev);
      Completes(After(s, ev), PhasesAfter(s, ph, ev), c, d);
      var evs, t :| Leads(After(s, ev), evs, t) && c in t.callers && t.callers[c].Got?;
      assert ([ev] + evs)[1..] == evs;
      assert Leads(s, [ev] + evs, t);
    }
  }

  // ----- exactly when

  lemma {:induction false} AboveAll(used: set<nat>) returns (d: nat)
    ensures forall x | x in used :: x < d
  {
    d := 0;
    if used != {} {
      var x :| x in used;
      d := AboveAll(used - {x});
      if d <= x { d := x + 1; }
      assert forall y | y in used :: y == x || y in used - {x};
    }
  }

  lemma FrameKeeps(s: Sys, ph: Phases, s': Sys, ph': Phases, x: Key, ms: set<Msg>, ks: set<Key>, m: Msg)
    requires Frame(s, ph, s', ph', x, ms, ks)
    ensures s.routes <= s'.routes && (m in s.net + s.received && m !in ms ==> m in s'.net + s'.received)
  {}

  lemma ForwardedStays(s: Sys, ph: Phases, ev: Event, m: Msg)
    requires Inv(s, ph) && Enabled(s, ev)
    requires m in s.net + s.received && m.Forwarded? && s.NextId(m.dst) >= MAX_ID
    ensures m in After(s, ev).net + After(s, ev).received && s.routes <= After(s, ev).routes
  {
    hide Inv, Enabled, After, PhasesAfter, Frame, Concerns, Owner, MsgsOf, ServicesOf;
    StepFrame(s, ph, ev);
    FrameKeeps(s, ph, After(s, ev), PhasesAfter(s, ph, ev), Owner(s, ev), MsgsOf(ev), ServicesOf(s, ev), m);
    if m in MsgsOf(ev) { HandledOnly(s, ev, m); }
  }

  lemma StrandedStep(s: Sys, ph: Phases, ev: Event, c: Key)
    requires Inv(s, ph) && Enabled(s, ev) && Stranded(s, c)
    ensures Stranded(After(s, ev), c)
  {
    hide Inv, Enabled, After, TakesId;
    var m :| m in s.net + s.received && m.Forwarded? && m.ticket < |s.routes| && s.routes[m.ticket] == c
             && s.NextId(m.dst) >= MAX_ID;
    CounterStep(s, ev, m.dst);
    ForwardedStays(s, ph, ev, m);
  }

  /** A forwarded request is only received, when its device has no id for it. */
  lemma HandledOnly(s: Sys, ev: Event, m: Msg)
    requires Enabled(s, ev) && m in MsgsOf(ev) && m.Forwarded? && s.NextId(m.dst) >= MAX_ID
    ensures ev == ReceiveCall(m) && m in After(s, ev).received
  {}

  lemma StrandedPolls(s: Sys, ph: Phases, c: Key)
    requires Inv(s, ph) && Stranded(s, c)
    ensures c in s.callers && !s.callers[c].Got? && c in ph && ph[c].OnItsWay? && s.NextId(ph[c].dst) >= MAX_ID
  {
    var m :| m in s.net + s.received && m.Forwarded? && m.ticket < |s.routes| && s.routes[m.ticket] == c
             && s.NextId(m.dst) >= MAX_ID;
    MsgFacts(s, ph, m);
    AwayFacts(s, ph, c);
    hide Inv;
  }

  /** A stranded call never returns. */
  lemma {:induction false} StrandedStays(s: Sys, ph: Phases, c: Key, evs: seq<Event>, t: Sys)
    requires Inv(s, ph) && Stranded(s, c) && Leads(s, evs, t)
    ensures c in t.callers && !t.callers[c].Got?
    decreases |evs|
  {
    hide Inv, Enabled, After, PhasesAfter, Stranded;
    if evs == [] {
      StrandedPolls(s, ph, c);
    } else {
      StepKeeps(s, ph, evs[0]);
      StrandedStep(s, ph, evs[0], c);
      StrandedStays(After(s, evs[0]), PhasesAfter(s, ph, evs[0]), c, evs[1..], t);
    }
  }

  lemma HasRoom(s: Sys, ph: Phases, c: Key) returns (d: nat)
    requires Inv(s, ph) && c in ph && InHand(s, c, ph[c]) && !Stranded(s, c)
    ensures Room(s, ph[c], d)
  {
    d := AboveAll(s.counter.Keys);
    assert s.NextId(d) == 0;
    if ph[c].OnItsWay? {
      var m := MsgOf(c, ph[c]).value;
      assert m in s.net + s.received && s.routes[m.ticket] == c;
    }
    hide Inv;
  }

  /** In every reachable state, a call can still return its value, or its request is at a device
      without ids, and never both. */
  lemma ReturnsIff(run: seq<Sys>, evs: seq<Event>, j: nat, c: Key)
    requires IsRun(run, evs) && j <= |evs| && c in run[j].callers
    ensures CanReturn(run[j], c) <==> !Stranded(run[j], c)
  {
    var s, ph := run[j], PhasesAt(run, evs, j);
    RunInv(run, evs, j);
    CountsServed(run, evs, j, c);
    CallerHas(s, ph, c);
    hide Inv, InHand, Room, Left, PhasesAt, IsRun, Leads, Stranded;
    if Stranded(s, c) {
      forall es, t | Leads(s, es, t) ensures c in t.callers && !t.callers[c].Got? { StrandedStays(s, ph, c, es, t); }
    } else {
      var d := HasRoom(s, ph, c);
      Completes(s, ph, c, d);
    }
  }
}
