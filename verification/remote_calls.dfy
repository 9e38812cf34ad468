/** Remote calls between devices through a relay: job ids, the tables of the device runtimes, and
    the single reads and writes of the callers, the call handlers and the return handlers, which
    interleave in all ways. */
module RemoteCalls {
  type Bytes = seq<nat>

  datatype Option<T> = None | Some(value: T)

  /** An id on a device; devices count their ids from 0. */
  datatype Key = Key(dev: nat, id: nat)

  const MAX_ID := 0x7fff_ffff

  // ----- the threads

  /** generateJobId, produceFunctionArgs, consumeReturn. */
  datatype Caller =
    | HasJob(fid: nat)                       // id taken
    | Recorded(fid: nat)                     // runningJobs[id] written
    | Sized(fid: nat, size: nat)             // argument sizes added up
    | Collected(fid: nat, payload: Bytes)    // arguments collected
    | LookedUp(fid: nat, payload: Bytes)     // function id read back from runningJobs[id]
    | Armed(fid: nat, payload: Bytes)        // consumeTable[id] = false
    | Polling                                // request sent
    | SawFlag                                // consumeTable[id] was true
    | Got(value: Option<Bytes>)              // returnValueTable[id] read and erased

  /** remotecall_callback and the function it calls. */
  datatype Service =
    | HasId(ticket: nat, fid: nat, payload: Bytes)
    | Mapped(fid: nat, payload: Bytes)       // jobIDMap[id] written
    | Ready(fid: nat)                        // argsTable[id] written
    | Executing(fid: nat, payload: Bytes)    // arguments consumed
    | Finished(value: Bytes)                 // produceReturn called
    | Addressed(ticket: nat, value: Bytes)   // jobIDMap[id] read
    | Replied                                // sent, mapping not deleted yet

  /** return_value_callback. */
  datatype Receipt = Storing(value: Bytes) | Deleting | Flagging

  datatype Msg =
    | Request(call: Key, fid: nat, payload: Bytes)
    | Forwarded(dst: nat, ticket: nat, fid: nat, payload: Bytes)
    | Reply(ticket: nat, value: Bytes)
    | Returned(call: Key, value: Bytes)

  /** The tables of all devices, the relay's tickets, the messages under way, and the requests whose
      handler has no id yet. */
  datatype Sys = Sys(
    counter: map<nat, nat>,
    callers: map<Key, Caller>, services: map<Key, Service>, receipts: map<Key, Receipt>,
    runningJobs: map<Key, nat>, consumeTable: map<Key, bool>, returnValueTable: map<Key, Bytes>,
    jobIDMap: map<Key, nat>, argsTable: map<Key, Bytes>,
    routes: seq<Key>, net: set<Msg>, received: set<Msg>)
  {
    function NextId(d: nat): nat { NextOf(counter, d) }
  }

  datatype Event =
    | GenerateJobId(d: nat, fid: nat)
    | InsertRunningJob(c: Key)
    | GetArgsTotalSize(c: Key, size: nat)
    | GetArgsOfRC(c: Key, payload: Bytes)
    | GetRunningJobFID(c: Key)
    | InsertConsumeWait(c: Key)
    | SendRequest(c: Key)
    | CheckConsumeWait(c: Key)
    | GetReturnValue(c: Key)
    | Relay(m: Msg, dst: nat)
    | RelayReply(m: Msg)
    | ReceiveCall(m: Msg)
    | GetJobID(m: Msg)
    | InsertJobIDMapping(k: Key)
    | InsertArgs(k: Key)
    | ConsumeArgs(k: Key)
    | Finish(k: Key, value: Bytes)
    | GetSourceJobID(k: Key)
    | SendReply(k: Key)
    | DeleteJobIDMapping(k: Key)
    | ReceiveReturn(m: Msg)
    | InsertReturnValue(c: Key)
    | DeleteRunningJob(c: Key)
    | OnValueReturn(c: Key)

  predicate Enabled(s: Sys, ev: Event)
  {
    match ev
    case GenerateJobId(d, fid) => s.NextId(d) < MAX_ID
    case InsertRunningJob(c) => c in s.callers && s.callers[c].HasJob?
    case GetArgsTotalSize(c, size) => c in s.callers && s.callers[c].Recorded?
    case GetArgsOfRC(c, payload) => c in s.callers && s.callers[c].Sized? && |payload| == s.callers[c].size
    case GetRunningJobFID(c) => c in s.callers && s.callers[c].Collected? && c in s.runningJobs
    case InsertConsumeWait(c) => c in s.callers && s.callers[c].LookedUp?
    case SendRequest(c) => c in s.callers && s.callers[c].Armed?
    case CheckConsumeWait(c) => c in s.callers && s.callers[c].Polling?
    case GetReturnValue(c) => c in s.callers && s.callers[c].SawFlag?
    case Relay(m, dst) => m in s.net && m.Request?
    case RelayReply(m) => m in s.net && m.Reply? && m.ticket < |s.routes|
    case ReceiveCall(m) => m in s.net && m.Forwarded?
    case GetJobID(m) => m in s.received && m.Forwarded? && s.NextId(m.dst) < MAX_ID
    case InsertJobIDMapping(k) => k in s.services && s.services[k].HasId?
    case InsertArgs(k) => k in s.services && s.services[k].Mapped?
    case ConsumeArgs(k) => k in s.services && s.services[k].Ready? && k in s.argsTable
    case Finish(k, value) => k in s.services && s.services[k].Executing?
    case GetSourceJobID(k) => k in s.services && s.services[k].Finished? && k in s.jobIDMap
    case SendReply(k) => k in s.services && s.services[k].Addressed?
    case DeleteJobIDMapping(k) => k in s.services && s.services[k].Replied?
    case ReceiveReturn(m) => m in s.net && m.Returned?
    case InsertReturnValue(c) => c in s.receipts && s.receipts[c].Storing?
    case DeleteRunningJob(c) => c in s.receipts && s.receipts[c].Deleting?
    case OnValueReturn(c) => c in s.receipts && s.receipts[c].Flagging?
  }

  function After(s: Sys, ev: Event): Sys
    requires Enabled(s, ev)
  {
    match ev
    case GenerateJobId(d, fid) =>
      s.(callers := s.callers[Key(d, s.NextId(d)) := HasJob(fid)], counter := s.counter[d := s.NextId(d) + 1])
    case InsertRunningJob(c) =>
      s.(callers := s.callers[c := Recorded(s.callers[c].fid)], runningJobs := s.runningJobs[c := s.callers[c].fid])
    case GetArgsTotalSize(c, size) => s.(callers := s.callers[c := Sized(s.callers[c].fid, size)])
    case GetArgsOfRC(c, payload) => s.(callers := s.callers[c := Collected(s.callers[c].fid, payload)])
    case GetRunningJobFID(c) => s.(callers := s.callers[c := LookedUp(s.runningJobs[c], s.callers[c].payload)])
    case InsertConsumeWait(c) =>
      s.(callers := s.callers[c := Armed(s.callers[c].fid, s.callers[c].payload)],
        consumeTable := s.consumeTable[c := false])
    case SendRequest(c) =>
      s.(callers := s.callers[c := Polling], net := s.net + {Request(c, s.callers[c].fid, s.callers[c].payload)})
    case CheckConsumeWait(c) =>
      if c in s.consumeTable && s.consumeTable[c] then s.(callers := s.callers[c := SawFlag])
      else s.(consumeTable := s.consumeTable[c := false])
    case GetReturnValue(c) =>
      s.(callers := s.callers[c := Got(if c in s.returnValueTable then Some(s.returnValueTable[c]) else None)],
         returnValueTable := s.returnValueTable - {c})
    case Relay(m, dst) =>
      s.(net := s.net - {m} + {Forwarded(dst, |s.routes|, m.fid, m.payload)}, routes := s.routes + [m.call])
    case RelayReply(m) => s.(net := s.net - {m} + {Returned(s.routes[m.ticket], m.value)})
    case ReceiveCall(m) => s.(net := s.net - {m}, received := s.received + {m})
    case GetJobID(m) =>
      s.(received := s.received - {m},
        services := s.services[Key(m.dst, s.NextId(m.dst)) := HasId(m.ticket, m.fid, m.payload)],
         counter := s.counter[m.dst := s.NextId(m.dst) + 1])
    case InsertJobIDMapping(k) =>
      s.(services := s.services[k := Mapped(s.services[k].fid, s.services[k].payload)],
        jobIDMap := s.jobIDMap[k := s.services[k].ticket])
    case InsertArgs(k) =>
      s.(services := s.services[k := Ready(s.services[k].fid)], argsTable := s.argsTable[k := s.services[k].payload])
    case ConsumeArgs(k) =>
      s.(services := s.services[k := Executing(s.services[k].fid, s.argsTable[k])], argsTable := s.argsTable - {k})
    case Finish(k, value) => s.(services := s.services[k := Finished(value)])
    case GetSourceJobID(k) => s.(services := s.services[k := Addressed(s.jobIDMap[k], s.services[k].value)])
    case SendReply(k) =>
      s.(services := s.services[k := Replied], net := s.net + {Reply(s.services[k].ticket, s.services[k].value)})
    case DeleteJobIDMapping(k) => s.(services := s.services - {k}, jobIDMap := s.jobIDMap - {k})
    case ReceiveReturn(m) => s.(net := s.net - {m}, receipts := s.receipts[m.call := Storing(m.value)])
    case InsertReturnValue(c) =>
      s.(receipts := s.receipts[c := Deleting], returnValueTable := s.returnValueTable[c := s.receipts[c].value])
    case DeleteRunningJob(c) => s.(receipts := s.receipts[c := Flagging], runningJobs := s.runningJobs - {c})
    case OnValueReturn(c) => s.(receipts := s.receipts - {c}, consumeTable := s.consumeTable[c := true])
  }

  // ----- where each call is

  datatype Phase =
    | Preparing(fid: nat)
    | Asked(fid: nat, payload: Bytes)
    | OnItsWay(ticket: nat, dst: nat, fid: nat, payload: Bytes)
    | Serving(ticket: nat, at: Key, fid: nat, payload: Bytes)
    | Computed(ticket: nat, at: Key, value: Bytes)
    | Answered(ticket: nat, value: Bytes)
    | Back(value: Bytes)
    | Landed(value: Bytes)
    | Stored(value: Bytes)
    | Flagged(value: Bytes)
    | Taken(value: Bytes)

  type Phases = map<Key, Phase>

  predicate Ticketed(p: Phase) { p.OnItsWay? || p.Serving? || p.Computed? || p.Answered? }

  predicate HasValue(p: Phase)
  {
    p.Computed? || p.Answered? || p.Back? || p.Landed? || p.Stored? || p.Flagged? || p.Taken?
  }

  /** The call a service will answer, going by the tables. */
  function CallOf(s: Sys, k: Key): Key
  {
    if k in s.services && (s.services[k].HasId? || s.services[k].Addressed?) && s.services[k].ticket < |s.routes| then
      s.routes[s.services[k].ticket]
    else if k in s.jobIDMap && s.jobIDMap[k] < |s.routes| then s.routes[s.jobIDMap[k]]
    else k
  }

  function Moved(ph: Phases, c: Key, p: Phase): Phases { ph[c := p] }

  function PhasesAfter(s: Sys, ph: Phases, ev: Event): Phases
    requires Enabled(s, ev)
  {
    match ev
    case GenerateJobId(d, fid) => Moved(ph, Key(d, s.NextId(d)), Preparing(fid))
    case SendRequest(c) => Moved(ph, c, Asked(s.callers[c].fid, s.callers[c].payload))
    case Relay(m, dst) => Moved(ph, m.call, OnItsWay(|s.routes|, dst, m.fid, m.payload))
    case GetJobID(m) =>
      if m.ticket < |s.routes| then
        Moved(ph, s.routes[m.ticket], Serving(m.ticket, Key(m.dst, s.NextId(m.dst)), m.fid, m.payload))
      else ph
    case Finish(k, value) => if k in s.jobIDMap then Moved(ph, CallOf(s, k), Computed(s.jobIDMap[k], k, value)) else ph
    case SendReply(k) => Moved(ph, CallOf(s, k), Answered(s.services[k].ticket, s.services[k].value))
    case RelayReply(m) => Moved(ph, s.routes[m.ticket], Back(m.value))
    case ReceiveReturn(m) => Moved(ph, m.call, Landed(m.value))
    case InsertReturnValue(c) => Moved(ph, c, Stored(s.receipts[c].value))
    case OnValueReturn(c) => if c in ph && HasValue(ph[c]) then Moved(ph, c, Flagged(ph[c].value)) else ph
    case GetReturnValue(c) => if c in ph && HasValue(ph[c]) then Moved(ph, c, Taken(ph[c].value)) else ph
    case _ => ph
  }

  // ----- the invariant

  /** A caller's thread against its call's phase. */
  ghost predicate CallerOk(pc: Caller, running: map<Key, nat>, c: Key, p: Phase)
  {
    match pc
    case HasJob(fid) => p == Preparing(fid)
    case Recorded(fid) => p == Preparing(fid) && c in running && running[c] == fid
    case Sized(fid, _) => p == Preparing(fid) && c in running && running[c] == fid
    case Collected(fid, _) => p == Preparing(fid) && c in running && running[c] == fid
    case LookedUp(fid, _) => p == Preparing(fid)
    case Armed(fid, _) => p == Preparing(fid)
    case Polling => !p.Preparing? && !p.Taken?
    case SawFlag => p.Flagged?
    case Got(v) => p.Taken? && v == Some(p.value)
  }

  function NextOf(counter: map<nat, nat>, d: nat): nat { if d in counter then counter[d] else 0 }

  ghost predicate Callers(callers: map<Key, Caller>, running: map<Key, nat>, counter: map<nat, nat>, ph: Phases)
  {
    && callers.Keys == ph.Keys
    && forall c | c in callers :: c.id < NextOf(counter, c.dev) && CallerOk(callers[c], running, c, ph[c])
  }

  /** A value waits in the table once it is stored; the flag is up only after that. */
  ghost predicate Tables(values: map<Key, Bytes>, consume: map<Key, bool>, ph: Phases)
  {
    && (forall c :: c in ph && (ph[c].Stored? || ph[c].Flagged?) ==> c in values && values[c] == ph[c].value)
    && forall c :: c in consume ==> c in ph && (consume[c] ==> ph[c].Flagged? || ph[c].Taken?)
  }

  /** The call a message belongs to, and the only message a call in a given phase can have. */
  function CallOfMsg(routes: seq<Key>, m: Msg): Option<Key>
  {
    match m
    case Request(c, _, _) => Some(c)
    case Returned(c, _) => Some(c)
    case Forwarded(_, t, _, _) => if t < |routes| then Some(routes[t]) else None
    case Reply(t, _) => if t < |routes| then Some(routes[t]) else None
  }

  function MsgOf(c: Key, p: Phase): Option<Msg>
  {
    match p
    case Asked(fid, payload) => Some(Request(c, fid, payload))
    case OnItsWay(t, dst, fid, payload) => Some(Forwarded(dst, t, fid, payload))
    case Answered(t, v) => Some(Reply(t, v))
    case Back(v) => Some(Returned(c, v))
    case _ => None
  }

  ghost predicate Underway(m: Msg, routes: seq<Key>, ph: Phases)
  {
    CallOfMsg(routes, m).Some? &&
    var c := CallOfMsg(routes, m).value;
    c in ph && MsgOf(c, ph[c]) == Some(m)
  }

  ghost predicate Net(net: set<Msg>, routes: seq<Key>, ph: Phases)
  {
    forall m | m in net :: Underway(m, routes, ph)
  }

  /** The call a running service answers, by its ticket or the table, and the service's state
      against the call's phase. */
  function TicketOf(sv: Service, jobMap: map<Key, nat>, k: Key): Option<nat>
  {
    match sv
    case HasId(t, _, _) => Some(t)
    case Addressed(t, _) => Some(t)
    case Replied => None
    case _ => if k in jobMap then Some(jobMap[k]) else None
  }

  ghost predicate ServiceOk(sv: Service, args: map<Key, Bytes>, k: Key, t: nat, p: Phase)
  {
    match sv
    case HasId(_, fid, payload) => p == Serving(t, k, fid, payload)
    case Mapped(fid, payload) => p == Serving(t, k, fid, payload)
    case Ready(fid) => k in args && p == Serving(t, k, fid, args[k])
    case Executing(fid, payload) => p == Serving(t, k, fid, payload)
    case Finished(v) => p == Computed(t, k, v)
    case Addressed(_, v) => p == Computed(t, k, v)
    case Replied => true
  }

  ghost predicate Placed(sv: Service, jobMap: map<Key, nat>, args: map<Key, Bytes>, routes: seq<Key>, ph: Phases,
                         k: Key)
  {
    TicketOf(sv, jobMap, k).Some? &&
    var t := TicketOf(sv, jobMap, k).value;
    t < |routes| && routes[t] in ph && ServiceOk(sv, args, k, t, ph[routes[t]])
  }

  ghost predicate Services(services: map<Key, Service>, jobMap: map<Key, nat>, args: map<Key, Bytes>, routes: seq<Key>,
                           counter: map<nat, nat>, ph: Phases)
  {
    forall k | k in services ::
      && k.id < NextOf(counter, k.dev) && k !in ph
      && (services[k].Replied? || Placed(services[k], jobMap, args, routes, ph, k))
  }

  ghost predicate Receipts(receipts: map<Key, Receipt>, ph: Phases)
  {
    forall c | c in receipts ::
      c in ph && if receipts[c].Storing? then ph[c] == Landed(receipts[c].value) else ph[c].Stored?
  }

  /** A ticket's call is past asking, and still under this very ticket while it is ticketed. */
  ghost predicate Routes(routes: seq<Key>, ph: Phases)
  {
    forall t | 0 <= t < |routes| ::
      var c := routes[t];
      c in ph && !ph[c].Preparing? && !ph[c].Asked? && (Ticketed(ph[c]) ==> ph[c].ticket == t)
  }

  ghost predicate Inv(s: Sys, ph: Phases)
  {
    && Callers(s.callers, s.runningJobs, s.counter, ph)
    && Tables(s.returnValueTable, s.consumeTable, ph)
    && Net(s.net + s.received, s.routes, ph) && s.net !! s.received
    && Services(s.services, s.jobIDMap, s.argsTable, s.routes, s.counter, ph)
    && Receipts(s.receipts, ph)
    && Routes(s.routes, ph)
  }

  // ----- one part of the invariant while one call moves on

  lemma NetMoves(net: set<Msg>, net': set<Msg>, routes: seq<Key>, ph: Phases, c: Key, p: Phase)
    requires Net(net, routes, ph) && c in ph
    requires forall m | m in net' ::
      (m in net && MsgOf(c, ph[c]) != Some(m)) || (CallOfMsg(routes, m) == Some(c) && MsgOf(c, p) == Some(m))
    ensures Net(net', routes, ph[c := p])
  {
    hide CallOfMsg, MsgOf;
  }

  lemma TablesMove(values: map<Key, Bytes>, consume: map<Key, bool>, ph: Phases, c: Key, p: Phase)
    requires Tables(values, consume, ph)
    requires (p.Stored? || p.Flagged?) ==> c in values && values[c] == p.value
    requires c in consume && consume[c] ==> p.Flagged? || p.Taken?
    ensures Tables(values, consume, ph[c := p])
  {}

  lemma CallersMove(callers: map<Key, Caller>, running: map<Key, nat>, counter: map<nat, nat>, ph: Phases, c: Key,
                    p: Phase)
    requires Callers(callers, running, counter, ph) && c in ph && callers[c].Polling? && !p.Preparing? && !p.Taken?
    ensures Callers(callers, running, counter, ph[c := p])
  {
    hide NextOf;
  }

  /** The phases during which the caller polls and nothing is in its tables. */
  predicate Away(p: Phase)
  {
    p.Asked? || p.OnItsWay? || p.Serving? || p.Computed? || p.Answered? || p.Back? || p.Landed?
  }

  lemma AwayFacts(s: Sys, ph: Phases, c: Key)
    requires Inv(s, ph) && c in ph && Away(ph[c])
    ensures c in s.callers && s.callers[c].Polling? && (c in s.consumeTable ==> !s.consumeTable[c])
  {}

  lemma ReceiptsMove(receipts: map<Key, Receipt>, ph: Phases, c: Key, p: Phase)
    requires Receipts(receipts, ph) && c in ph && !ph[c].Landed? && !ph[c].Stored?
    ensures Receipts(receipts, ph[c := p])
  {}

  lemma RoutesMove(routes: seq<Key>, ph: Phases, c: Key, p: Phase)
    requires Routes(routes, ph) && c in ph && !p.Preparing? && !p.Asked?
    requires Ticketed(p) ==> Ticketed(ph[c]) && p.ticket == ph[c].ticket
    ensures Routes(routes, ph[c := p])
  {}

  lemma ServicesMove(services: map<Key, Service>, jobMap: map<Key, nat>, args: map<Key, Bytes>, routes: seq<Key>,
                     counter: map<nat, nat>, ph: Phases, c: Key, p: Phase)
    requires Services(services, jobMap, args, routes, counter, ph) && c in ph && !ph[c].Serving? && !ph[c].Computed?
    ensures Services(services, jobMap, args, routes, counter, ph[c := p])
  {
    hide NextOf;
  }
}
