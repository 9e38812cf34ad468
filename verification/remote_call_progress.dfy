/** No remote call is ever lost: as long as ids last, every call can still be brought to its value,
    and nothing that happens meanwhile takes it further away. */
module RemoteCallProgress {
  import opened RemoteCalls
  import opened RemoteCallSteps
  import opened RemoteCallRuns

  // ----- what a call rests on

  /** What the next step of a call needs is there: its message, its service, its receipt or its flag. */
  ghost predicate InHand(s: Sys, c: Key, p: Phase)
  {
    && (Ticketed(p) ==> p.ticket < |s.routes| && s.routes[p.ticket] == c)
    && match p
    case Preparing(_) => true
    case Serving(t, k, _, _) => Works(s, k, t) && !s.services[k].Finished? && !s.services[k].Addressed?
    case Computed(t, k, _) => Works(s, k, t) && (s.services[k].Finished? || s.services[k].Addressed?)
    case OnItsWay(_, _, _, _) => MsgOf(c, p).value in s.net + s.received
    case Landed(_) => c in s.receipts && s.receipts[c].Storing?
    case Stored(_) => c in s.receipts && !s.receipts[c].Storing?
    case Flagged(_) => c in s.consumeTable && s.consumeTable[c]
    case Taken(_) => true
    case _ => MsgOf(c, p).value in s.net
  }

  /** A service that has not replied answers the ticket. */
  ghost predicate Works(s: Sys, k: Key, t: nat)
  {
    k in s.services && !s.services[k].Replied? && TicketOf(s.services[k], s.jobIDMap, k) == Some(t)
  }

  // ----- how far a call has to go

  /** The steps a call still has to take until its program has the value. */
  function Left(s: Sys, c: Key, p: Phase): nat
  {
    match p
    case Preparing(_) => if c in s.callers then CallerLeft(s.callers[c]) else 22
    case Asked(_, _) => 16
    case OnItsWay(_, _, _, _) => if MsgOf(c, p).value in s.net then 15 else 14
    case Serving(_, k, _, _) => if k in s.services then ServiceLeft(s.services[k]) else 13
    case Computed(_, k, _) => if k in s.services then ServiceLeft(s.services[k]) else 9
    case Answered(_, _) => 7
    case Back(_) => 6
    case Landed(_) => 5
    case Stored(_) => if c in s.receipts && s.receipts[c].Deleting? then 4 else 3
    case Flagged(_) => if c in s.callers && s.callers[c].SawFlag? then 1 else 2
    case Taken(_) => 0
  }

  function CallerLeft(pc: Caller): nat
  {
    match pc
    case HasJob(_) => 22
    case Recorded(_) => 21
    case Sized(_, _) => 20
    case Collected(_, _) => 19
    case LookedUp(_, _) => 18
    case _ => 17
  }

  function ServiceLeft(sv: Service): nat
  {
    match sv
    case HasId(_, _, _) => 13
    case Mapped(_, _) => 12
    case Ready(_) => 11
    case Executing(_, _) => 10
    case Finished(_) => 9
    case _ => 8
  }

  /** After a step the call's next need is in its place, and the call is n steps further on. */
  ghost predicate Moves(s: Sys, ph: Phases, s': Sys, ph': Phases, c: Key, n: nat)
  {
    c in ph && c in ph' && InHand(s', c, ph'[c]) && Left(s, c, ph[c]) == Left(s', c, ph'[c]) + n
  }

  /** What is known about a call. */
  lemma CallFacts(s: Sys, ph: Phases, c: Key)
    requires Inv(s, ph) && c in ph
    ensures c in s.callers && CallerOk(s.callers[c], s.runningJobs, c, ph[c])
    ensures c in s.receipts ==> ph[c].Landed? || ph[c].Stored?
    ensures c in s.consumeTable && s.consumeTable[c] ==> ph[c].Flagged? || ph[c].Taken?
  {}

  // ----- the calls a step does not serve

  /** A step for call x leaves everything but this call's entries, these messages and these services;
      what it sends is not a received message of another call. */
  ghost predicate Frame(s: Sys, ph: Phases, s': Sys, ph': Phases, x: Key, ms: set<Msg>, ks: set<Key>)
  {
    && s.routes <= s'.routes
    && (forall c | c != x && c in ph :: c in ph' && ph'[c] == ph[c])
    && (forall c | c != x && c in s.callers :: c in s'.callers && s'.callers[c] == s.callers[c])
    && (forall c | c != x && c in s.consumeTable :: c in s'.consumeTable && s'.consumeTable[c] == s.consumeTable[c])
    && (forall c | c != x && c in s.receipts :: c in s'.receipts && s'.receipts[c] == s.receipts[c])
    && s.net - ms <= s'.net && s.received - ms <= s'.received
    && (forall m | m in s'.net && m !in s.net :: m.Forwarded? ==> m.ticket >= |s.routes|)
    && (forall k | k !in ks && k in s.services :: k in s'.services && s'.services[k] == s.services[k])
    && forall k | k !in ks && k in s.jobIDMap :: k in s'.jobIDMap && s'.jobIDMap[k] == s.jobIDMap[k]
  }

  /** The messages and services belong to call x. */
  ghost predicate Concerns(s: Sys, x: Key, ms: set<Msg>, ks: set<Key>)
  {
    && (forall m | m in ms :: CallOfMsg(s.routes, m) == Some(x))
    && forall k | k in ks && k in s.services && !s.services[k].Replied? :: CallOf(s, k) == x
  }

  lemma Untouched(s: Sys, s': Sys, c: Key, p: Phase)
    requires InHand(s, c, p) && s.routes <= s'.routes
    requires c in s.callers && c in s'.callers && s'.callers[c] == s.callers[c]
    requires c in s.receipts ==> c in s'.receipts && s'.receipts[c] == s.receipts[c]
    requires c in s.consumeTable ==> c in s'.consumeTable && s'.consumeTable[c] == s.consumeTable[c]
    requires MsgOf(c, p).Some? ==> var m := MsgOf(c, p).value;
      (m in s.net ==> m in s'.net) && (m in s.received ==> m in s'.received)
      && (p.OnItsWay? && m in s'.net ==> m in s.net)
    requires p.Serving? || p.Computed? ==>
      p.at in s'.services && s'.services[p.at] == s.services[p.at]
      && (p.at in s.jobIDMap ==> p.at in s'.jobIDMap && s'.jobIDMap[p.at] == s.jobIDMap[p.at])
    ensures InHand(s', c, p) && Left(s', c, p) == Left(s, c, p)
  {}

  lemma NotConcerned(s: Sys, ph: Phases, x: Key, ms: set<Msg>, ks: set<Key>, c: Key)
    requires Inv(s, ph) && Concerns(s, x, ms, ks) && c in ph && InHand(s, c, ph[c]) && c != x
    ensures MsgOf(c, ph[c]).Some? ==> MsgOf(c, ph[c]).value !in ms
    ensures ph[c].OnItsWay? ==> ph[c].ticket < |s.routes|
    ensures ph[c].Serving? || ph[c].Computed? ==> ph[c].at !in ks && ph[c].at in s.services
  {}

  /** Every other call is exactly where it was. */
  lemma OtherCall(s: Sys, ph: Phases, s': Sys, ph': Phases, x: Key, ms: set<Msg>, ks: set<Key>, c: Key)
    requires Inv(s, ph) && Frame(s, ph, s', ph', x, ms, ks) && Concerns(s, x, ms, ks)
    requires c in ph && InHand(s, c, ph[c]) && c != x
    ensures Moves(s, ph, s', ph', c, 0)
  {
    CallFacts(s, ph, c);
    NotConcerned(s, ph, x, ms, ks, c);
    hide Inv, CallOfMsg, InHand, Left, CallerOk, Concerns;
    Untouched(s, s', c, ph[c]);
  }

  // ----- the last step of a phase

  lemma Answering(s: Sys, s': Sys, c: Key, p: Phase)
    requires InHand(s, c, p) && p.Computed? && s.services[p.at].Addressed?
    requires s'.routes == s.routes && Reply(p.ticket, s.services[p.at].value) in s'.net
    ensures InHand(s', c, Answered(p.ticket, s.services[p.at].value))
    ensures Left(s, c, p) == 8 && Left(s', c, Answered(p.ticket, s.services[p.at].value)) == 7
  {}

  lemma ValueLanded(s: Sys, s': Sys, c: Key, p: Phase, v: Bytes)
    requires p.Back? && c in s'.receipts && s'.receipts[c].Storing?
    ensures InHand(s', c, Landed(v)) && Left(s, c, p) == 6 && Left(s', c, Landed(v)) == 5
  {}

  lemma ValueStored(s: Sys, s': Sys, c: Key, p: Phase, v: Bytes)
    requires p.Landed? && c in s'.receipts && s'.receipts[c].Deleting?
    ensures InHand(s', c, Stored(v)) && Left(s, c, p) == 5 && Left(s', c, Stored(v)) == 4
  {}

  lemma FlagRaised(s: Sys, s': Sys, c: Key, p: Phase)
    requires p.Stored? && c in s.receipts && s.receipts[c].Flagging? && c in s'.consumeTable && s'.consumeTable[c]
    requires c in s'.callers && s'.callers[c].Polling?
    ensures InHand(s', c, Flagged(p.value)) && Left(s, c, p) == 3 && Left(s', c, Flagged(p.value)) == 2
  {}

  lemma ValueTaken(s: Sys, s': Sys, c: Key, p: Phase)
    requires p.Flagged? && c in s.callers && s.callers[c].SawFlag?
    ensures InHand(s', c, Taken(p.value)) && Left(s, c, p) == 1 && Left(s', c, Taken(p.value)) == 0
  {}

  // ----- the program's thread

  predicate Prepares(ev: Event)
  {
    ev.InsertRunningJob? || ev.GetArgsTotalSize? || ev.GetArgsOfRC? || ev.GetRunningJobFID? || ev.InsertConsumeWait?
  }

  lemma StillPreparing(s: Sys, c: Key, p: Phase)
    requires p.Preparing? && c in s.callers
    ensures InHand(s, c, p) && Left(s, c, p) == CallerLeft(s.callers[c])
  {}

  lemma PreparingFrame(s: Sys, ph: Phases, ev: Event)
    requires Enabled(s, ev) && Prepares(ev)
    ensures Frame(s, ph, After(s, ev), PhasesAfter(s, ph, ev), ev.c, {}, {})
  {}

  lemma PreparingOwn(s: Sys, ph: Phases, ev: Event)
    requires Inv(s, ph) && Enabled(s, ev) && Prepares(ev) && ev.c in ph
    ensures Moves(s, ph, After(s, ev), PhasesAfter(s, ph, ev), ev.c, 1)
  {
    CallFacts(s, ph, ev.c);
    hide Inv, InHand, Left;
    assert PhasesAfter(s, ph, ev) == ph;
    hide PhasesAfter;
    StillPreparing(s, ev.c, ph[ev.c]);
    StillPreparing(After(s, ev), ev.c, ph[ev.c]);
  }

  lemma SendRequestFrame(s: Sys, ph: Phases, c: Key)
    requires Enabled(s, SendRequest(c))
    ensures Frame(s, ph, After(s, SendRequest(c)), PhasesAfter(s, ph, SendRequest(c)), c, {}, {})
  {}

  lemma SendRequestOwn(s: Sys, ph: Phases, c: Key)
    requires Inv(s, ph) && Enabled(s, SendRequest(c)) && c in ph && InHand(s, c, ph[c])
    ensures Moves(s, ph, After(s, SendRequest(c)), PhasesAfter(s, ph, SendRequest(c)), c, 1)
  {
    CallFacts(s, ph, c);
    hide Inv;
  }

  /** One round of the polling loop. */
  lemma AfterCheck(s: Sys, ph: Phases, c: Key)
    requires Enabled(s, CheckConsumeWait(c))
    ensures PhasesAfter(s, ph, CheckConsumeWait(c)) == ph
    ensures c in s.consumeTable && s.consumeTable[c] ==>
      After(s, CheckConsumeWait(c)) == s.(callers := s.callers[c := SawFlag])
    ensures !(c in s.consumeTable && s.consumeTable[c]) ==>
      After(s, CheckConsumeWait(c)) == s.(consumeTable := s.consumeTable[c := false])
  {}

  lemma FrameSaw(s: Sys, ph: Phases, c: Key)
    ensures Frame(s, ph, s.(callers := s.callers[c := SawFlag]), ph, c, {}, {})
  {}

  lemma FrameFlag(s: Sys, ph: Phases, c: Key)
    ensures Frame(s, ph, s.(consumeTable := s.consumeTable[c := false]), ph, c, {}, {})
  {}

  lemma CheckConsumeWaitFrame(s: Sys, ph: Phases, c: Key)
    requires Enabled(s, CheckConsumeWait(c))
    ensures Frame(s, ph, After(s, CheckConsumeWait(c)), PhasesAfter(s, ph, CheckConsumeWait(c)), c, {}, {})
  {
    AfterCheck(s, ph, c);
    FrameSaw(s, ph, c);
    FrameFlag(s, ph, c);
    hide *;
  }

  lemma SawOwn(s: Sys, c: Key, p: Phase)
    requires InHand(s, c, p) && p.Flagged? && c in s.callers && s.callers[c].Polling?
    ensures var s' := s.(callers := s.callers[c := SawFlag]); InHand(s', c, p) && Left(s, c, p) == Left(s', c, p) + 1
  {}

  lemma FlagOwn(s: Sys, c: Key, p: Phase)
    requires InHand(s, c, p) && !(c in s.consumeTable && s.consumeTable[c])
    ensures var s' := s.(consumeTable := s.consumeTable[c := false]);
      InHand(s', c, p) && Left(s', c, p) == Left(s, c, p)
  {}

  lemma CheckConsumeWaitOwn(s: Sys, ph: Phases, c: Key)
    requires Inv(s, ph) && Enabled(s, CheckConsumeWait(c)) && c in ph && InHand(s, c, ph[c])
    ensures Moves(s, ph, After(s, CheckConsumeWait(c)), PhasesAfter(s, ph, CheckConsumeWait(c)), c,
                  if c in s.consumeTable && s.consumeTable[c] then 1 else 0)
  {
    AfterCheck(s, ph, c);
    CallFacts(s, ph, c);
    hide Inv, After, PhasesAfter, InHand, Left;
    if c in s.consumeTable && s.consumeTable[c] { SawOwn(s, c, ph[c]); } else { FlagOwn(s, c, ph[c]); }
  }

  lemma GetReturnValueFrame(s: Sys, ph: Phases, c: Key)
    requires Enabled(s, GetReturnValue(c))
    ensures Frame(s, ph, After(s, GetReturnValue(c)), PhasesAfter(s, ph, GetReturnValue(c)), c, {}, {})
  {}

  lemma GetReturnValueOwn(s: Sys, ph: Phases, c: Key)
    requires Inv(s, ph) && Enabled(s, GetReturnValue(c)) && c in ph && InHand(s, c, ph[c])
    ensures Moves(s, ph, After(s, GetReturnValue(c)), PhasesAfter(s, ph, GetReturnValue(c)), c, 1)
  {
    CallFacts(s, ph, c);
    hide Inv, InHand, Left;
    ValueTaken(s, After(s, GetReturnValue(c)), c, ph[c]);
  }

  // ----- messages

  lemma RelayFrame(s: Sys, ph: Phases, m: Msg, dst: nat)
    requires Enabled(s, Relay(m, dst))
    ensures Frame(s, ph, After(s, Relay(m, dst)), PhasesAfter(s, ph, Relay(m, dst)), m.call, {m}, {})
  {}

  lemma RelayOwn(s: Sys, ph: Phases, m: Msg, dst: nat)
    requires Inv(s, ph) && Enabled(s, Relay(m, dst))
    requires m.call in ph && InHand(s, m.call, ph[m.call])
    ensures Moves(s, ph, After(s, Relay(m, dst)), PhasesAfter(s, ph, Relay(m, dst)), m.call, 1)
  {
    MsgFacts(s, ph, m);
    hide Inv;
  }

  lemma RelayReplyFrame(s: Sys, ph: Phases, m: Msg)
    requires Enabled(s, RelayReply(m))
    ensures Frame(s, ph, After(s, RelayReply(m)), PhasesAfter(s, ph, RelayReply(m)), s.routes[m.ticket], {m}, {})
  {}

  lemma RelayReplyOwn(s: Sys, ph: Phases, m: Msg)
    requires Inv(s, ph) && Enabled(s, RelayReply(m))
    requires s.routes[m.ticket] in ph && InHand(s, s.routes[m.ticket], ph[s.routes[m.ticket]])
    ensures Moves(s, ph, After(s, RelayReply(m)), PhasesAfter(s, ph, RelayReply(m)), s.routes[m.ticket], 1)
  {
    MsgFacts(s, ph, m);
    hide Inv;
  }

  lemma ReceiveReturnFrame(s: Sys, ph: Phases, m: Msg)
    requires Enabled(s, ReceiveReturn(m))
    ensures Frame(s, ph, After(s, ReceiveReturn(m)), PhasesAfter(s, ph, ReceiveReturn(m)), m.call, {m}, {})
  {}

  lemma ReceiveReturnOwn(s: Sys, ph: Phases, m: Msg)
    requires Inv(s, ph) && Enabled(s, ReceiveReturn(m))
    requires m.call in ph && InHand(s, m.call, ph[m.call])
    ensures Moves(s, ph, After(s, ReceiveReturn(m)), PhasesAfter(s, ph, ReceiveReturn(m)), m.call, 1)
  {
    MsgFacts(s, ph, m);
    hide Inv, InHand, Left;
    ValueLanded(s, After(s, ReceiveReturn(m)), m.call, ph[m.call], m.value);
  }

  lemma ReceiveCallFrame(s: Sys, ph: Phases, m: Msg)
    requires Enabled(s, ReceiveCall(m)) && m.ticket < |s.routes|
    ensures Frame(s, ph, After(s, ReceiveCall(m)), PhasesAfter(s, ph, ReceiveCall(m)), s.routes[m.ticket], {m}, {})
  {}

  lemma ReceiveCallOwn(s: Sys, ph: Phases, m: Msg)
    requires Inv(s, ph) && Enabled(s, ReceiveCall(m)) && m.ticket < |s.routes|
    requires s.routes[m.ticket] in ph && InHand(s, s.routes[m.ticket], ph[s.routes[m.ticket]])
    ensures Moves(s, ph, After(s, ReceiveCall(m)), PhasesAfter(s, ph, ReceiveCall(m)), s.routes[m.ticket], 1)
  {
    MsgFacts(s, ph, m);
    hide Inv;
  }

  lemma GetJobIDFrame(s: Sys, ph: Phases, m: Msg)
    requires Enabled(s, GetJobID(m)) && m.ticket < |s.routes|
    ensures Frame(s, ph, After(s, GetJobID(m)), PhasesAfter(s, ph, GetJobID(m)),
                  s.routes[m.ticket], {m}, {Key(m.dst, s.NextId(m.dst))})
  {}

  lemma GetJobIDOwn(s: Sys, ph: Phases, m: Msg)
    requires Inv(s, ph) && Enabled(s, GetJobID(m)) && m.ticket < |s.routes|
    requires s.routes[m.ticket] in ph && InHand(s, s.routes[m.ticket], ph[s.routes[m.ticket]])
    ensures Moves(s, ph, After(s, GetJobID(m)), PhasesAfter(s, ph, GetJobID(m)), s.routes[m.ticket], 1)
  {
    MsgFacts(s, ph, m);
    hide Inv;
  }

  // ----- the service

  lemma InsertJobIDMappingFrame(s: Sys, ph: Phases, k: Key)
    requires Enabled(s, InsertJobIDMapping(k))
    ensures Frame(s, ph, After(s, InsertJobIDMapping(k)), PhasesAfter(s, ph, InsertJobIDMapping(k)),
                  CallOf(s, k), {}, {k})
  {}

  lemma InsertJobIDMappingOwn(s: Sys, ph: Phases, k: Key)
    requires Inv(s, ph) && Enabled(s, InsertJobIDMapping(k))
    requires CallOf(s, k) in ph && InHand(s, CallOf(s, k), ph[CallOf(s, k)])
    ensures Moves(s, ph, After(s, InsertJobIDMapping(k)), PhasesAfter(s, ph, InsertJobIDMapping(k)), CallOf(s, k), 1)
  {
    ServiceFacts(s, ph, k);
    hide Inv;
  }

  lemma InsertArgsFrame(s: Sys, ph: Phases, k: Key)
    requires Enabled(s, InsertArgs(k))
    ensures Frame(s, ph, After(s, InsertArgs(k)), PhasesAfter(s, ph, InsertArgs(k)), CallOf(s, k), {}, {k})
  {}

  lemma InsertArgsOwn(s: Sys, ph: Phases, k: Key)
    requires Inv(s, ph) && Enabled(s, InsertArgs(k))
    requires CallOf(s, k) in ph && InHand(s, CallOf(s, k), ph[CallOf(s, k)])
    ensures Moves(s, ph, After(s, InsertArgs(k)), PhasesAfter(s, ph, InsertArgs(k)), CallOf(s, k), 1)
  {
    ServiceFacts(s, ph, k);
    hide Inv;
  }

  lemma ConsumeArgsFrame(s: Sys, ph: Phases, k: Key)
    requires Enabled(s, ConsumeArgs(k))
    ensures Frame(s, ph, After(s, ConsumeArgs(k)), PhasesAfter(s, ph, ConsumeArgs(k)), CallOf(s, k), {}, {k})
  {}

  lemma ConsumeArgsOwn(s: Sys, ph: Phases, k: Key)
    requires Inv(s, ph) && Enabled(s, ConsumeArgs(k))
    requires CallOf(s, k) in ph && InHand(s, CallOf(s, k), ph[CallOf(s, k)])
    ensures Moves(s, ph, After(s, ConsumeArgs(k)), PhasesAfter(s, ph, ConsumeArgs(k)), CallOf(s, k), 1)
  {
    ServiceFacts(s, ph, k);
    hide Inv;
  }

  lemma GetSourceJobIDFrame(s: Sys, ph: Phases, k: Key)
    requires Enabled(s, GetSourceJobID(k))
    ensures Frame(s, ph, After(s, GetSourceJobID(k)), PhasesAfter(s, ph, GetSourceJobID(k)), CallOf(s, k), {}, {k})
  {}

  lemma GetSourceJobIDOwn(s: Sys, ph: Phases, k: Key)
    requires Inv(s, ph) && Enabled(s, GetSourceJobID(k))
    requires CallOf(s, k) in ph && InHand(s, CallOf(s, k), ph[CallOf(s, k)])
    ensures Moves(s, ph, After(s, GetSourceJobID(k)), PhasesAfter(s, ph, GetSourceJobID(k)), CallOf(s, k), 1)
  {
    ServiceFacts(s, ph, k);
    hide Inv;
  }

  lemma SendReplyFrame(s: Sys, ph: Phases, k: Key)
    requires Enabled(s, SendReply(k))
    ensures Frame(s, ph, After(s, SendReply(k)), PhasesAfter(s, ph, SendReply(k)), CallOf(s, k), {}, {k})
  {}

  lemma SendReplyOwn(s: Sys, ph: Phases, k: Key)
    requires Inv(s, ph) && Enabled(s, SendReply(k))
    requires CallOf(s, k) in ph && InHand(s, CallOf(s, k), ph[CallOf(s, k)])
    ensures Moves(s, ph, After(s, SendReply(k)), PhasesAfter(s, ph, SendReply(k)), CallOf(s, k), 1)
  {
    ServiceFacts(s, ph, k);
    hide Inv, InHand, Left;
    Answering(s, After(s, SendReply(k)), CallOf(s, k), ph[CallOf(s, k)]);
  }

  lemma FinishFrame(s: Sys, ph: Phases, k: Key, value: Bytes)
    requires Enabled(s, Finish(k, value))
    ensures Frame(s, ph, After(s, Finish(k, value)), PhasesAfter(s, ph, Finish(k, value)), CallOf(s, k), {}, {k})
  {}

  lemma FinishOwn(s: Sys, ph: Phases, k: Key, value: Bytes)
    requires Inv(s, ph) && Enabled(s, Finish(k, value))
    requires CallOf(s, k) in ph && InHand(s, CallOf(s, k), ph[CallOf(s, k)])
    ensures Moves(s, ph, After(s, Finish(k, value)), PhasesAfter(s, ph, Finish(k, value)), CallOf(s, k), 1)
  {
    ServiceFacts(s, ph, k);
    hide Inv;
  }

  lemma DeleteJobIDMappingFrame(s: Sys, ph: Phases, k: Key)
    requires Enabled(s, DeleteJobIDMapping(k))
    ensures Frame(s, ph, After(s, DeleteJobIDMapping(k)), PhasesAfter(s, ph, DeleteJobIDMapping(k)), k, {}, {k})
  {}

  // ----- the return handler

  lemma InsertReturnValueFrame(s: Sys, ph: Phases, c: Key)
    requires Enabled(s, InsertReturnValue(c))
    ensures Frame(s, ph, After(s, InsertReturnValue(c)), PhasesAfter(s, ph, InsertReturnValue(c)), c, {}, {})
  {}

  lemma InsertReturnValueOwn(s: Sys, ph: Phases, c: Key)
    requires Inv(s, ph) && Enabled(s, InsertReturnValue(c))
    requires c in ph && InHand(s, c, ph[c])
    ensures Moves(s, ph, After(s, InsertReturnValue(c)), PhasesAfter(s, ph, InsertReturnValue(c)), c, 1)
  {
    ReceiptFacts(s, ph, c);
    hide Inv, InHand, Left;
    ValueStored(s, After(s, InsertReturnValue(c)), c, ph[c], s.receipts[c].value);
  }

  lemma DeleteRunningJobFrame(s: Sys, ph: Phases, c: Key)
    requires Enabled(s, DeleteRunningJob(c))
    ensures Frame(s, ph, After(s, DeleteRunningJob(c)), PhasesAfter(s, ph, DeleteRunningJob(c)), c, {}, {})
  {}

  lemma DeleteRunningJobOwn(s: Sys, ph: Phases, c: Key)
    requires Inv(s, ph) && Enabled(s, DeleteRunningJob(c))
    requires c in ph && InHand(s, c, ph[c])
    ensures Moves(s, ph, After(s, DeleteRunningJob(c)), PhasesAfter(s, ph, DeleteRunningJob(c)), c, 1)
  {
    ReceiptFacts(s, ph, c);
    hide Inv;
  }

  lemma OnValueReturnFrame(s: Sys, ph: Phases, c: Key)
    requires Enabled(s, OnValueReturn(c))
    ensures Frame(s, ph, After(s, OnValueReturn(c)), PhasesAfter(s, ph, OnValueReturn(c)), c, {}, {})
  {}

  lemma AfterFlag(s: Sys, ph: Phases, c: Key)
    requires Enabled(s, OnValueReturn(c)) && c in ph && ph[c].Stored?
    ensures PhasesAfter(s, ph, OnValueReturn(c)) == ph[c := Flagged(ph[c].value)]
    ensures After(s, OnValueReturn(c)) == s.(receipts := s.receipts - {c}, consumeTable := s.consumeTable[c := true])
  {}

  lemma OnValueReturnOwn(s: Sys, ph: Phases, c: Key)
    requires Inv(s, ph) && Enabled(s, OnValueReturn(c))
    requires c in ph && InHand(s, c, ph[c])
    ensures Moves(s, ph, After(s, OnValueReturn(c)), PhasesAfter(s, ph, OnValueReturn(c)), c, 1)
  {
    ReceiptFacts(s, ph, c);
    assert s.receipts[c].Flagging?;
    AfterFlag(s, ph, c);
    hide Inv, InHand, Left, After, PhasesAfter;
    FlagRaised(s, After(s, OnValueReturn(c)), c, ph[c]);
  }

  // ----- every step

  lemma GenerateFrame(s: Sys, ph: Phases, d: nat, fid: nat)
    requires Enabled(s, GenerateJobId(d, fid))
    ensures Frame(s, ph, After(s, GenerateJobId(d, fid)), PhasesAfter(s, ph, GenerateJobId(d, fid)),
                  Key(d, s.NextId(d)), {}, {})
  {}

  /** The call whose entries a step may change. */
  function Owner(s: Sys, ev: Event): Key
    requires Enabled(s, ev)
  {
    match ev
    case GenerateJobId(d, _) => Key(d, s.NextId(d))
    case Relay(m, _) => m.call
    case RelayReply(m) => s.routes[m.ticket]
    case ReceiveCall(m) => TicketCall(s, m.ticket)
    case GetJobID(m) => TicketCall(s, m.ticket)
    case ReceiveReturn(m) => m.call
    case InsertJobIDMapping(k) => CallOf(s, k)
    case InsertArgs(k) => CallOf(s, k)
    case ConsumeArgs(k) => CallOf(s, k)
    case Finish(k, _) => CallOf(s, k)
    case GetSourceJobID(k) => CallOf(s, k)
    case SendReply(k) => CallOf(s, k)
    case DeleteJobIDMapping(k) => k
    case _ => ev.c
  }

  function TicketCall(s: Sys, t: nat): Key { if t < |s.routes| then s.routes[t] else Key(0, 0) }

  function MsgsOf(ev: Event): set<Msg>
  {
    if ev.Relay? || ev.RelayReply? || ev.ReceiveCall? || ev.GetJobID? || ev.ReceiveReturn? then {ev.m} else {}
  }

  function ServicesOf(s: Sys, ev: Event): set<Key>
  {
    match ev
    case GetJobID(m) => if m.Forwarded? then {Key(m.dst, s.NextId(m.dst))} else {}
    case InsertJobIDMapping(k) => {k}
    case InsertArgs(k) => {k}
    case ConsumeArgs(k) => {k}
    case Finish(k, _) => {k}
    case GetSourceJobID(k) => {k}
    case SendReply(k) => {k}
    case DeleteJobIDMapping(k) => {k}
    case _ => {}
  }

  /** The call a step brings nearer to its value: looking at a flag that is not up brings it no
      nearer, and deleting the mapping of a finished service serves no call. */
  function Serves(s: Sys, ev: Event): Option<Key>
    requires Enabled(s, ev)
  {
    if ev.GenerateJobId? || ev.DeleteJobIDMapping? then None
    else if ev.CheckConsumeWait? && !(ev.c in s.consumeTable && s.consumeTable[ev.c]) then None
    else Some(Owner(s, ev))
  }

  predicate IsReply(ev: Event) { ev.RelayReply? || ev.ReceiveReturn? }

  lemma MessageOwner(s: Sys, ph: Phases, ev: Event)
    requires Inv(s, ph) && Enabled(s, ev) && MsgsOf(ev) != {}
    ensures CallOfMsg(s.routes, ev.m) == Some(Owner(s, ev)) && Owner(s, ev) in ph
    ensures Concerns(s, Owner(s, ev), MsgsOf(ev), ServicesOf(s, ev))
  {
    MsgFacts(s, ph, ev.m);
    if ev.GetJobID? { NewIdFresh(s, ph, ev.m.dst); }
    hide Inv, MsgOf;
  }

  lemma ReplyFrame(s: Sys, ph: Phases, ev: Event)
    requires Inv(s, ph) && Enabled(s, ev) && IsReply(ev)
    ensures Frame(s, ph, After(s, ev), PhasesAfter(s, ph, ev), Owner(s, ev), MsgsOf(ev), {})
  {
    hide Inv, After, PhasesAfter, Frame;
    match ev
    case RelayReply(m) => RelayReplyFrame(s, ph, m);
    case ReceiveReturn(m) => ReceiveReturnFrame(s, ph, m);
  }

  lemma RequestFrame(s: Sys, ph: Phases, ev: Event)
    requires Inv(s, ph) && Enabled(s, ev) && (ev.Relay? || ev.ReceiveCall?)
    ensures Frame(s, ph, After(s, ev), PhasesAfter(s, ph, ev), Owner(s, ev), MsgsOf(ev), {})
  {
    MessageOwner(s, ph, ev);
    hide Inv, After, PhasesAfter, Frame;
    match ev
    case Relay(m, dst) => RelayFrame(s, ph, m, dst);
    case ReceiveCall(m) => ReceiveCallFrame(s, ph, m);
  }

  lemma RequestOwner(s: Sys, ph: Phases, ev: Event)
    requires Inv(s, ph) && Enabled(s, ev) && MsgsOf(ev) != {} && !IsReply(ev)
    ensures if ev.Relay? then Owner(s, ev) == ev.m.call
            else ev.m.Forwarded? && ev.m.ticket < |s.routes| && Owner(s, ev) == s.routes[ev.m.ticket]
    ensures MsgsOf(ev) == {ev.m} && Serves(s, ev).Some?
    ensures ServicesOf(s, ev) == if ev.GetJobID? then {Key(ev.m.dst, s.NextId(ev.m.dst))} else {}
  {
    MessageOwner(s, ph, ev);
    hide Inv;
  }

  lemma MessageFrame(s: Sys, ph: Phases, ev: Event)
    requires Inv(s, ph) && Enabled(s, ev) && MsgsOf(ev) != {}
    ensures Frame(s, ph, After(s, ev), PhasesAfter(s, ph, ev), Owner(s, ev), MsgsOf(ev), ServicesOf(s, ev))
    ensures Concerns(s, Owner(s, ev), MsgsOf(ev), ServicesOf(s, ev)) && Owner(s, ev) in ph
  {
    MessageOwner(s, ph, ev);
    if !IsReply(ev) { RequestOwner(s, ph, ev); }
    hide Inv, Enabled, Owner, After, PhasesAfter, Frame, Concerns, CallOfMsg;
    if IsReply(ev) {
      ReplyFrame(s, ph, ev);
    } else if ev.GetJobID? {
      GetJobIDFrame(s, ph, ev.m);
    } else {
      RequestFrame(s, ph, ev);
    }
  }

  lemma ServiceFrame(s: Sys, ph: Phases, ev: Event)
    requires Inv(s, ph) && Enabled(s, ev) && MsgsOf(ev) == {} && ServicesOf(s, ev) != {}
    ensures Frame(s, ph, After(s, ev), PhasesAfter(s, ph, ev), Owner(s, ev), {}, ServicesOf(s, ev))
    ensures Concerns(s, Owner(s, ev), {}, ServicesOf(s, ev))
    ensures ev.DeleteJobIDMapping? <==> Owner(s, ev) !in ph
  {
    hide Inv, After, PhasesAfter, Frame;
    if !ev.DeleteJobIDMapping? { ServiceFacts(s, ph, ev.k); } else { ServiceApart(s, ph, ev.k); }
    match ev
    case InsertJobIDMapping(k) => InsertJobIDMappingFrame(s, ph, k);
    case InsertArgs(k) => InsertArgsFrame(s, ph, k);
    case ConsumeArgs(k) => ConsumeArgsFrame(s, ph, k);
    case Finish(k, value) => FinishFrame(s, ph, k, value);
    case GetSourceJobID(k) => GetSourceJobIDFrame(s, ph, k);
    case SendReply(k) => SendReplyFrame(s, ph, k);
    case DeleteJobIDMapping(k) => DeleteJobIDMappingFrame(s, ph, k);
  }

  lemma ServiceApart(s: Sys, ph: Phases, k: Key)
    requires Inv(s, ph) && k in s.services
    ensures k !in ph
  {}

  lemma TableFrame(s: Sys, ph: Phases, ev: Event)
    requires Enabled(s, ev) && MsgsOf(ev) == {} && ServicesOf(s, ev) == {}
    ensures Frame(s, ph, After(s, ev), PhasesAfter(s, ph, ev), Owner(s, ev), {}, {})
  {
    hide After, PhasesAfter, Frame;
    match ev
    case GenerateJobId(d, fid) => GenerateFrame(s, ph, d, fid);
    case SendRequest(c) => SendRequestFrame(s, ph, c);
    case CheckConsumeWait(c) => CheckConsumeWaitFrame(s, ph, c);
    case GetReturnValue(c) => GetReturnValueFrame(s, ph, c);
    case InsertReturnValue(c) => InsertReturnValueFrame(s, ph, c);
    case DeleteRunningJob(c) => DeleteRunningJobFrame(s, ph, c);
    case OnValueReturn(c) => OnValueReturnFrame(s, ph, c);
    case _ => PreparingFrame(s, ph, ev);
  }

  lemma TableOwner(s: Sys, ph: Phases, ev: Event)
    requires Inv(s, ph) && Enabled(s, ev) && MsgsOf(ev) == {} && ServicesOf(s, ev) == {}
    ensures ev.GenerateJobId? <==> Owner(s, ev) !in ph
  {
    match ev
    case GenerateJobId(d, _) => NewIdFresh(s, ph, d);
    case _ =>
  }

  lemma StepFrame(s: Sys, ph: Phases, ev: Event)
    requires Inv(s, ph) && Enabled(s, ev)
    ensures Frame(s, ph, After(s, ev), PhasesAfter(s, ph, ev), Owner(s, ev), MsgsOf(ev), ServicesOf(s, ev))
    ensures Concerns(s, Owner(s, ev), MsgsOf(ev), ServicesOf(s, ev))
    ensures ev.GenerateJobId? || ev.DeleteJobIDMapping? <==> Owner(s, ev) !in ph
  {
    hide Inv, Enabled, After, PhasesAfter, Frame, Owner;
    if MsgsOf(ev) != {} {
      MessageFrame(s, ph, ev);
    } else if ServicesOf(s, ev) != {} {
      ServiceFrame(s, ph, ev);
    } else {
      TableFrame(s, ph, ev);
      TableOwner(s, ph, ev);
    }
  }

  lemma ReplyStep(s: Sys, ph: Phases, ev: Event)
    requires Inv(s, ph) && Enabled(s, ev) && IsReply(ev)
    requires Owner(s, ev) in ph && InHand(s, Owner(s, ev), ph[Owner(s, ev)])
    ensures Moves(s, ph, After(s, ev), PhasesAfter(s, ph, ev), Owner(s, ev), if Serves(s, ev).Some? then 1 else 0)
  {
    hide Inv, After, PhasesAfter, InHand, Moves;
    match ev
    case RelayReply(m) => RelayReplyOwn(s, ph, m);
    case ReceiveReturn(m) => ReceiveReturnOwn(s, ph, m);
  }

  lemma RequestStep(s: Sys, ph: Phases, ev: Event)
    requires Inv(s, ph) && Enabled(s, ev) && MsgsOf(ev) != {} && !IsReply(ev)
    requires Owner(s, ev) in ph && InHand(s, Owner(s, ev), ph[Owner(s, ev)])
    ensures Moves(s, ph, After(s, ev), PhasesAfter(s, ph, ev), Owner(s, ev), if Serves(s, ev).Some? then 1 else 0)
  {
    RequestOwner(s, ph, ev);
    hide Inv, Enabled, Owner, Serves, MsgsOf, After, PhasesAfter, InHand, Moves;
    match ev
    case Relay(m, dst) => RelayOwn(s, ph, m, dst);
    case ReceiveCall(m) => ReceiveCallOwn(s, ph, m);
    case GetJobID(m) => GetJobIDOwn(s, ph, m);
  }

  lemma ServiceStep(s: Sys, ph: Phases, ev: Event)
    requires Inv(s, ph) && Enabled(s, ev) && MsgsOf(ev) == {} && ServicesOf(s, ev) != {} && !ev.DeleteJobIDMapping?
    requires Owner(s, ev) in ph && InHand(s, Owner(s, ev), ph[Owner(s, ev)])
    ensures Moves(s, ph, After(s, ev), PhasesAfter(s, ph, ev), Owner(s, ev), if Serves(s, ev).Some? then 1 else 0)
  {
    hide Inv, After, PhasesAfter, InHand, Moves;
    match ev
    case InsertJobIDMapping(k) => InsertJobIDMappingOwn(s, ph, k);
    case InsertArgs(k) => InsertArgsOwn(s, ph, k);
    case ConsumeArgs(k) => ConsumeArgsOwn(s, ph, k);
    case Finish(k, value) => FinishOwn(s, ph, k, value);
    case GetSourceJobID(k) => GetSourceJobIDOwn(s, ph, k);
    case SendReply(k) => SendReplyOwn(s, ph, k);
  }

  lemma TableStep(s: Sys, ph: Phases, ev: Event)
    requires Inv(s, ph) && Enabled(s, ev) && !ev.GenerateJobId? && MsgsOf(ev) == {} && ServicesOf(s, ev) == {}
    requires Owner(s, ev) in ph && InHand(s, Owner(s, ev), ph[Owner(s, ev)])
    ensures Moves(s, ph, After(s, ev), PhasesAfter(s, ph, ev), Owner(s, ev), if Serves(s, ev).Some? then 1 else 0)
  {
    hide Inv, After, PhasesAfter, InHand, Moves;
    match ev
    case SendRequest(c) => SendRequestOwn(s, ph, c);
    case CheckConsumeWait(c) => CheckConsumeWaitOwn(s, ph, c);
    case GetReturnValue(c) => GetReturnValueOwn(s, ph, c);
    case InsertReturnValue(c) => InsertReturnValueOwn(s, ph, c);
    case DeleteRunningJob(c) => DeleteRunningJobOwn(s, ph, c);
    case OnValueReturn(c) => OnValueReturnOwn(s, ph, c);
    case _ => PreparingOwn(s, ph, ev);
  }

  lemma OwnStep(s: Sys, ph: Phases, ev: Event)
    requires Inv(s, ph) && Enabled(s, ev) && Owner(s, ev) in ph && InHand(s, Owner(s, ev), ph[Owner(s, ev)])
    ensures Moves(s, ph, After(s, ev), PhasesAfter(s, ph, ev), Owner(s, ev), if Serves(s, ev).Some? then 1 else 0)
  {
    StepFrame(s, ph, ev);
    hide *;
    if IsReply(ev) {
      ReplyStep(s, ph, ev);
    } else if MsgsOf(ev) != {} {
      RequestStep(s, ph, ev);
    } else if ServicesOf(s, ev) != {} {
      ServiceStep(s, ph, ev);
    } else {
      TableStep(s, ph, ev);
    }
  }

  /** Every step brings the call it serves one step nearer to its value, and leaves all others
      exactly as near as they were. */
  lemma StepCounts(s: Sys, ph: Phases, ev: Event, c: Key)
    requires Inv(s, ph) && Enabled(s, ev) && c in ph && InHand(s, c, ph[c])
    ensures Moves(s, ph, After(s, ev), PhasesAfter(s, ph, ev), c, if Serves(s, ev) == Some(c) then 1 else 0)
  {
    hide Inv, Enabled, After, PhasesAfter, Frame, Concerns, InHand, Moves, Owner;
    if c == Owner(s, ev) {
      OwnStep(s, ph, ev);
    } else {
      StepFrame(s, ph, ev);
      OtherCall(s, ph, After(s, ev), PhasesAfter(s, ph, ev), Owner(s, ev), MsgsOf(ev), ServicesOf(s, ev), c);
    }
  }
}
